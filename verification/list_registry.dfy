/**
 * The plain connection list of `app.py` (`ConnectionManager` there) and the
 * echo loop of its `/ws` endpoint.  The registry is the list
 * `active_connections` of sockets; sockets are opaque tokens compared by
 * equality, and whether a send succeeds is an outcome supplied by the caller.
 */
module ListRegistry {
  import opened Wrappers
  import opened Text
  import opened Tally

  type Socket = nat

  /** What `list.remove` raises on an absent element. */
  datatype RemoveError = NotRegistered

  /** `connect`: after the handshake the socket is appended at the end. */
  function Connect(active: seq<Socket>, ws: Socket): (r: seq<Socket>)
    ensures |r| == |active| + 1 && r[..|active|] == active && r[|active|] == ws
    ensures multiset(r) == multiset(active) + multiset{ws}
  {
    active + [ws]
  }

  /**
   * `disconnect`: `list.remove(ws)` drops the first occurrence of `ws` and
   * raises `ValueError` when there is none.
   */
  function Disconnect(active: seq<Socket>, ws: Socket): (r: Result<seq<Socket>, RemoveError>)
    ensures r.Err? <==> ws !in active
    ensures r.Ok? ==> exists i :: 0 <= i < |active| && active[i] == ws && ws !in active[..i]
                                 && r.value == active[..i] + active[i + 1..]
    ensures r.Ok? ==> multiset(r.value) + multiset{ws} == multiset(active)
  {
    var i := IndexOf(active, ws);
    if i == |active| then Err(NotRegistered)
    else
      assert active == active[..i] + [ws] + active[i + 1..];
      Ok(active[..i] + active[i + 1..])
  }

  /** Removing what was just appended gives back the original list. */
  lemma {:induction false} DisconnectUndoesConnect(active: seq<Socket>, ws: Socket)
    requires ws !in active
    ensures Disconnect(Connect(active, ws), ws) == Ok(active)
  {
    var s := active + [ws];
    var i := IndexOf(s, ws);
    assert s[|active|] == ws;
    assert forall j :: 0 <= j < |active| ==> s[j] == active[j] && active[j] in active;
    assert i == |active|;
    assert s[..i] == active && s[i + 1..] == [];
    assert s[..i] + s[i + 1..] == active;
  }

  /** One `send_text(message)` to `to`. */
  datatype Send = Send(to: Socket, text: string)

  /**
   * `broadcast` when every send succeeds: the same text to each connection,
   * one send per list entry, in list order.
   */
  method Broadcast(active: seq<Socket>, message: string) returns (sends: seq<Send>)
    ensures |sends| == |active|
    ensures forall k :: 0 <= k < |sends| ==> sends[k].to == active[k] && sends[k].text == message
  {
    sends := [];
    var k := 0;
    while k < |active|
      invariant 0 <= k <= |active|
      invariant |sends| == k
      invariant forall j :: 0 <= j < k ==> sends[j] == Send(active[j], message)
    {
      sends := sends + [Send(active[k], message)];
      k := k + 1;
    }
  }

  /** A socket is sent the message exactly when it is registered on the list. */
  lemma BroadcastReachesAll(active: seq<Socket>, message: string, sends: seq<Send>, ws: Socket)
    requires |sends| == |active|
    requires forall k :: 0 <= k < |sends| ==> sends[k].to == active[k] && sends[k].text == message
    ensures (ws in active) <==> Send(ws, message) in sends
  {
    if ws in active {
      var k :| 0 <= k < |active| && active[k] == ws;
      assert sends[k] == Send(ws, message);
    }
  }

  const ReplyPrefix: string := "Message received: "

  /** The endpoint's answer to a received text. */
  function Reply(data: string): (r: string)
    ensures StartsWith(r, ReplyPrefix) && |r| == |ReplyPrefix| + |data|
  {
    ReplyPrefix + data
  }

  /** The received text an answer echoes; `None` for a string that is not an answer. */
  function Unreply(r: string): (d: Option<string>)
    ensures d.Some? <==> StartsWith(r, ReplyPrefix)
  {
    if StartsWith(r, ReplyPrefix) then Some(r[|ReplyPrefix|..]) else None
  }

  lemma ReplyRoundTrip(data: string, r: string)
    ensures Unreply(Reply(data)) == Some(data)
    ensures Unreply(r).Some? ==> Reply(Unreply(r).value) == r
  {
    assert (ReplyPrefix + data)[..|ReplyPrefix|] == ReplyPrefix;
    if Unreply(r).Some? {
      assert r == r[..|ReplyPrefix|] + r[|ReplyPrefix|..];
    }
  }

  /**
   * The `while True` loop of `websocket_endpoint`: each received text is
   * answered in turn.  The loop ends when a receive fails (after the texts
   * of `incoming`) or, when `failAt` is `Some(k)`, when the reply to the
   * `k`-th text fails; a failed reply is not delivered.
   */
  method EchoLoop(incoming: seq<string>, failAt: Option<nat>) returns (replies: seq<string>)
    ensures var n := if failAt.Some? && failAt.value < |incoming| then failAt.value else |incoming|;
            && |replies| == n
            && forall k :: 0 <= k < n ==> replies[k] == Reply(incoming[k])
  {
    replies := [];
    var k := 0;
    while k < |incoming| && !(failAt.Some? && failAt.value == k)
      invariant 0 <= k <= |incoming|
      invariant failAt.Some? ==> k <= failAt.value
      invariant |replies| == k
      invariant forall j :: 0 <= j < k ==> replies[j] == Reply(incoming[j])
    {
      replies := replies + [Reply(incoming[k])];
      k := k + 1;
    }
  }

  /** What a `/ws` session leaves behind. */
  datatype Session = Session(active: Result<seq<Socket>, RemoveError>, replies: seq<string>)

  /**
   * `websocket_endpoint`: a failed handshake raises out of `connect` before
   * the `try`, leaving the list alone; otherwise the socket is appended,
   * the echo loop runs, and the `finally` clause disconnects it once.
   */
  method Endpoint(active: seq<Socket>, ws: Socket, accepted: bool, incoming: seq<string>, failAt: Option<nat>)
    returns (s: Session)
    ensures !accepted ==> s == Session(Ok(active), [])
    ensures accepted ==> s.active.Ok? && multiset(s.active.value) == multiset(active)
    ensures accepted && ws !in active ==> s.active == Ok(active)
    ensures |s.replies| <= |incoming|
    ensures forall k :: 0 <= k < |s.replies| ==> Unreply(s.replies[k]) == Some(incoming[k])
  {
    if !accepted {
      return Session(Ok(active), []);
    }
    var joined := Connect(active, ws);
    var replies := EchoLoop(incoming, failAt);
    forall k | 0 <= k < |replies|
      ensures Unreply(replies[k]) == Some(incoming[k])
    {
      ReplyRoundTrip(incoming[k], replies[k]);
    }
    assert ws in joined;
    var left := Disconnect(joined, ws);
    assert multiset(left.value) == multiset(active) by {
      var a, b := multiset(left.value), multiset(active);
      assert a + multiset{ws} == b + multiset{ws};
      assert forall x :: a[x] == (a + multiset{ws})[x] - multiset{ws}[x];
      assert forall x :: b[x] == (b + multiset{ws})[x] - multiset{ws}[x];
    }
    if ws !in active {
      DisconnectUndoesConnect(active, ws);
    }
    s := Session(left, replies);
  }
}
