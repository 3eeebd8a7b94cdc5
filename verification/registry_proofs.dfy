/**
 * Properties of the channel registry of `websocket_manager.py`: the
 * registry invariant every operation keeps, and what `broadcast`, the ping
 * sweep and `_handle_connection_error` leave behind.
 */
module RegistryProofs {
  import opened Wrappers
  import opened Registry

  // ---------------------------------------------------------------------
  // The registry invariant
  // ---------------------------------------------------------------------

  predicate DistinctIds(s: seq<Conn>) {
    forall i, j :: 0 <= i < j < |s| ==> s[i].id != s[j].id
  }

  predicate DistinctSockets(s: seq<Conn>) {
    forall i, j :: 0 <= i < j < |s| ==> s[i].socket != s[j].socket
  }

  /** `order` lists every channel key exactly once. */
  predicate OrderOk(m: Manager) {
    && (forall i, j :: 0 <= i < j < |m.order| ==> m.order[i] != m.order[j])
    && m.channels.Keys == set c | c in m.order
  }

  /** Every registered connection has a `last_ping` entry. */
  predicate Covered(m: Manager) {
    forall c :: c in m.channels ==> Ids(m.channels[c]) <= m.lastPing.Keys
  }

  /** No connection id is registered twice, in one channel or across two. */
  predicate UniqueIds(m: Manager) {
    && (forall c :: c in m.channels ==> DistinctIds(m.channels[c]))
    && (forall c, d :: c in m.channels && d in m.channels && c != d ==> Ids(m.channels[c]) !! Ids(m.channels[d]))
  }

  predicate Valid(m: Manager) {
    OrderOk(m) && Covered(m) && UniqueIds(m)
  }

  /** `id` is not registered anywhere: what a fresh `uuid4()` guarantees. */
  predicate FreshId(m: Manager, id: ConnId) {
    forall c :: c in m.channels ==> id !in Ids(m.channels[c])
  }

  /**
   * No channel list holds one socket twice.  Not part of `Valid`: `connect`
   * keeps it only for a socket registered nowhere (`FreshSocket`).
   */
  predicate SocketsDistinct(m: Manager) {
    forall c :: c in m.channels ==> DistinctSockets(m.channels[c])
  }

  /**
   * `ws` is registered on no channel.  A socket that `accept()` lets
   * through has never been accepted before (a second handshake on the same
   * socket raises), so it cannot be registered yet.
   */
  predicate FreshSocket(m: Manager, ws: Socket) {
    forall c :: c in m.channels ==> ws !in Sockets(m.channels[c])
  }

  // ---------------------------------------------------------------------
  // Lifecycle: startup and connect
  // ---------------------------------------------------------------------

  lemma CreateValid()
    ensures Valid(Create())
  {
  }

  /** A second `startup` changes nothing. */
  lemma StartupIdempotent(m: Manager)
    ensures Startup(Startup(m)) == Startup(m)
    ensures Startup(m).initialized
  {
  }

  lemma StartupValid(m: Manager)
    requires Valid(m)
    ensures Valid(Startup(m))
  {
    var r := Startup(m);
    if !m.initialized {
      assert forall c :: c in r.channels ==> r.channels[c] == [];
    }
  }

  /** `connect` with a fresh id keeps the invariant. */
  lemma ConnectValid(m: Manager, ws: Socket, ch: string, id: ConnId, now: Time)
    requires Valid(m) && FreshId(m, id)
    ensures Valid(Connect(m, ws, ch, id, now, true).value)
  {
    var r := Connect(m, ws, ch, id, now, true).value;
    var prev := if ch in m.channels then m.channels[ch] else [];
    AppendFresh(prev, Conn(id, ws));
    ConnectDisjoint(m, ws, ch, id, now);
    ConnectOrder(m, ws, ch, id, now);
  }

  /** Appending an entry with a new id keeps ids distinct and adds that id. */
  lemma AppendFresh(prev: seq<Conn>, x: Conn)
    requires DistinctIds(prev) && x.id !in Ids(prev)
    ensures DistinctIds(prev + [x]) && Ids(prev + [x]) == Ids(prev) + {x.id}
  {
    var s := prev + [x];
    IdsConcat(prev, [x]);
    IdsSingle(x);
    forall i, j | 0 <= i < j < |s|
      ensures s[i].id != s[j].id
    {
      if j == |prev| {
        assert s[i] in prev;
      }
    }
  }

  lemma ConnectDisjoint(m: Manager, ws: Socket, ch: string, id: ConnId, now: Time)
    requires Valid(m) && FreshId(m, id)
    ensures var r := Connect(m, ws, ch, id, now, true).value;
            forall c, d :: c in r.channels && d in r.channels && c != d ==> Ids(r.channels[c]) !! Ids(r.channels[d])
  {
    var r := Connect(m, ws, ch, id, now, true).value;
    var prev := if ch in m.channels then m.channels[ch] else [];
    IdsConcat(prev, [Conn(id, ws)]);
    IdsSingle(Conn(id, ws));
    forall c, d | c in r.channels && d in r.channels && c != d
      ensures Ids(r.channels[c]) !! Ids(r.channels[d])
    {
      if c == ch {
        assert d in m.channels;
      } else if d == ch {
        assert c in m.channels;
      }
    }
  }

  lemma ConnectOrder(m: Manager, ws: Socket, ch: string, id: ConnId, now: Time)
    requires OrderOk(m)
    ensures OrderOk(Connect(m, ws, ch, id, now, true).value)
  {
    var r := Connect(m, ws, ch, id, now, true).value;
    if ch !in m.channels {
      forall i, j | 0 <= i < j < |r.order|
        ensures r.order[i] != r.order[j]
      {
        if j == |m.order| {
          assert r.order[i] in m.order;
        }
      }
    }
  }

  /** `connect` of a socket registered nowhere keeps every channel free of repeated sockets. */
  lemma ConnectSocketsDistinct(m: Manager, ws: Socket, ch: string, id: ConnId, now: Time)
    requires SocketsDistinct(m) && FreshSocket(m, ws)
    ensures SocketsDistinct(Connect(m, ws, ch, id, now, true).value)
  {
    var prev := if ch in m.channels then m.channels[ch] else [];
    var s := prev + [Conn(id, ws)];
    forall i, j | 0 <= i < j < |s|
      ensures s[i].socket != s[j].socket
    {
      if j == |prev| {
        assert s[i] in prev;
      }
    }
  }

  // ---------------------------------------------------------------------
  // disconnect
  // ---------------------------------------------------------------------

  lemma FirstMatchUnique(s: seq<Conn>, ws: Socket, i: int, j: int)
    requires FirstMatch(s, ws, i) && FirstMatch(s, ws, j)
    ensures i == j
  {
  }

  /** In a list with distinct sockets, the entry holding a socket is the first match. */
  lemma FirstMatchDistinct(s: seq<Conn>, i: int)
    requires DistinctSockets(s) && 0 <= i < |s|
    ensures FirstMatch(s, s[i].socket, i)
  {
  }

  lemma IdsSingle(x: Conn)
    ensures Ids([x]) == {x.id}
  {
    assert forall c :: c in [x] <==> c == x;
  }

  lemma IdsConcat(a: seq<Conn>, b: seq<Conn>)
    ensures Ids(a + b) == Ids(a) + Ids(b)
    ensures Sockets(a + b) == Sockets(a) + Sockets(b)
  {
    assert forall x :: x in a + b <==> x in a || x in b;
  }

  /** The entries of `s` with position `i` cut out, by position. */
  lemma CutAt(s: seq<Conn>, i: int)
    requires 0 <= i < |s|
    ensures var t := s[..i] + s[i + 1..];
            |t| == |s| - 1 && forall k :: 0 <= k < |t| ==> t[k] == s[if k < i then k else k + 1]
  {
  }

  /** Cutting one entry out keeps ids, and sockets, pairwise distinct. */
  lemma RemoveAtDistinct(s: seq<Conn>, i: int)
    requires 0 <= i < |s|
    ensures DistinctIds(s) ==> DistinctIds(s[..i] + s[i + 1..])
    ensures DistinctSockets(s) ==> DistinctSockets(s[..i] + s[i + 1..])
  {
    var t := s[..i] + s[i + 1..];
    CutAt(s, i);
    if DistinctIds(s) {
      forall k, l | 0 <= k < l < |t| ensures t[k].id != t[l].id {
        assert t[k] == s[if k < i then k else k + 1] && t[l] == s[if l < i then l else l + 1];
      }
    }
    if DistinctSockets(s) {
      forall k, l | 0 <= k < l < |t| ensures t[k].socket != t[l].socket {
        assert t[k] == s[if k < i then k else k + 1] && t[l] == s[if l < i then l else l + 1];
      }
    }
  }

  /** Cutting one entry out of a list with distinct ids takes exactly its id out. */
  lemma RemoveAtIds(s: seq<Conn>, i: int)
    requires DistinctIds(s) && 0 <= i < |s|
    ensures Ids(s[..i] + s[i + 1..]) == Ids(s) - {s[i].id}
  {
    var a, x, b := s[..i], s[i], s[i + 1..];
    IdOnlyAt(s, i);
    SplitAround(s, i);
    IdsConcat(a + [x], b);
    IdsConcat(a, [x]);
    IdsConcat(a, b);
    IdsSingle(x);
    RemoveOne(Ids(a), Ids(b), x.id);
  }

  lemma RemoveOne<T>(a: set<T>, b: set<T>, x: T)
    requires x !in a && x !in b
    ensures a + b == (a + {x} + b) - {x}
  {
  }

  lemma SplitAround(s: seq<Conn>, i: int)
    requires 0 <= i < |s|
    ensures s == s[..i] + [s[i]] + s[i + 1..]
  {
  }

  /** With distinct ids, the id at position `i` occurs nowhere before or after it. */
  lemma IdOnlyAt(s: seq<Conn>, i: int)
    requires DistinctIds(s) && 0 <= i < |s|
    ensures s[i].id !in Ids(s[..i]) && s[i].id !in Ids(s[i + 1..])
  {
    var a, b := s[..i], s[i + 1..];
    forall c | c in a ensures c.id != s[i].id {
      var k :| 0 <= k < |a| && a[k] == c;
      assert s[k] == c;
    }
    forall c | c in b ensures c.id != s[i].id {
      var k :| 0 <= k < |b| && b[k] == c;
      assert s[i + 1 + k] == c;
    }
  }

  /** `disconnect` of the socket whose first entry sits at position `i`. */
  lemma DisconnectAt(m: Manager, ws: Socket, ch: string, i: int)
    requires ch in m.channels && FirstMatch(m.channels[ch], ws, i)
    ensures var s := m.channels[ch];
            Disconnect(m, ws, ch) == m.(channels := m.channels[ch := s[..i] + s[i + 1..]], lastPing := m.lastPing - {s[i].id})
  {
    var s := m.channels[ch];
    FirstMatchUnique(s, ws, i, IndexOfSocket(s, ws));
  }

  /** `disconnect` is `RemoveFirst` on the named channel. */
  lemma DisconnectRemovesFirst(m: Manager, ws: Socket, ch: string)
    requires ch in m.channels
    ensures Disconnect(m, ws, ch).channels[ch] == RemoveFirst(m.channels[ch], ws)
  {
    var s := m.channels[ch];
    if ws in Sockets(s) {
      var r := Disconnect(m, ws, ch);
      var i :| FirstMatch(s, ws, i) && r.channels[ch] == s[..i] + s[i + 1..];
      var j :| FirstMatch(s, ws, j) && RemoveFirst(s, ws) == s[..j] + s[j + 1..];
      FirstMatchUnique(s, ws, i, j);
    }
  }

  lemma DisconnectValid(m: Manager, ws: Socket, ch: string)
    requires Valid(m)
    ensures Valid(Disconnect(m, ws, ch))
  {
    if ch in m.channels && ws in Sockets(m.channels[ch]) {
      var s := m.channels[ch];
      var r := Disconnect(m, ws, ch);
      var i :| FirstMatch(s, ws, i) && r.channels[ch] == s[..i] + s[i + 1..] && r.lastPing == m.lastPing - {s[i].id};
      RemoveAtDistinct(s, i);
      RemoveAtIds(s, i);
      assert s[i] in s;
      forall c | c in r.channels
        ensures Ids(r.channels[c]) <= r.lastPing.Keys
      {
        if c != ch {
          assert s[i].id !in Ids(m.channels[c]);
        }
      }
    }
  }

  lemma DisconnectSocketsDistinct(m: Manager, ws: Socket, ch: string)
    requires SocketsDistinct(m)
    ensures SocketsDistinct(Disconnect(m, ws, ch))
  {
    if ch in m.channels && ws in Sockets(m.channels[ch]) {
      var s := m.channels[ch];
      var i := IndexOfSocket(s, ws);
      DisconnectAt(m, ws, ch, i);
      RemoveAtDistinct(s, i);
    }
  }

  /** Disconnecting a socket that is not there changes nothing, however often it is repeated. */
  lemma DisconnectAbsent(m: Manager, ws: Socket, ch: string)
    requires ch !in m.channels || ws !in Sockets(m.channels[ch])
    ensures Disconnect(m, ws, ch) == m
    ensures Disconnect(Disconnect(m, ws, ch), ws, ch) == m
  {
  }

  // ---------------------------------------------------------------------
  // broadcast
  // ---------------------------------------------------------------------

  /**
   * Disconnecting, in order, the entries of `s` that `keep` rejects from
   * channel `ch`, which holds `p + s`, leaves `p` followed by the accepted
   * entries of `s`, and drops exactly the rejected ids from the ledger.
   */
  predicate LeavesKept(m: Manager, ch: string, p: seq<Conn>, s: seq<Conn>, keep: Conn -> bool) {
    var r := DisconnectAll(m, Dropped(s, keep), ch);
    ch in m.channels && r.channels[ch] == p + Kept(s, keep) && r.lastPing == m.lastPing - Ids(Dropped(s, keep))
  }

  /** The claim of `LeavesKept` whenever the channel's sockets are distinct. */
  lemma {:induction false} DisconnectDropped(m: Manager, ch: string, p: seq<Conn>, s: seq<Conn>, keep: Conn -> bool)
    requires ch in m.channels && m.channels[ch] == p + s
    requires DistinctSockets(p + s)
    ensures LeavesKept(m, ch, p, s, keep)
    decreases |s|
  {
    if s == [] {
      assert p + s == p;
      assert Ids([]) == {};
      assert m.lastPing - {} == m.lastPing;
    } else if keep(s[0]) {
      assert (p + [s[0]]) + s[1..] == p + s;
      DisconnectDropped(m, ch, p + [s[0]], s[1..], keep);
      KeepStep(m, ch, p, s, keep);
    } else {
      DisconnectHead(m, ch, p, s);
      DisconnectDropped(Disconnect(m, s[0].socket, ch), ch, p, s[1..], keep);
      DropStep(m, ch, p, s, keep);
    }
  }

  /** An accepted head entry moves from the tail to the kept prefix. */
  lemma KeepStep(m: Manager, ch: string, p: seq<Conn>, s: seq<Conn>, keep: Conn -> bool)
    requires s != [] && keep(s[0])
    requires LeavesKept(m, ch, p + [s[0]], s[1..], keep)
    ensures LeavesKept(m, ch, p, s, keep)
  {
    KeptHead(s, keep);
    SnocConcat(p, s[0], Kept(s[1..], keep));
  }

  lemma SnocConcat(a: seq<Conn>, x: Conn, b: seq<Conn>)
    ensures (a + [x]) + b == a + ([x] + b)
  {
  }

  lemma KeptHead(s: seq<Conn>, keep: Conn -> bool)
    requires s != [] && keep(s[0])
    ensures Dropped(s, keep) == Dropped(s[1..], keep)
    ensures Kept(s, keep) == [s[0]] + Kept(s[1..], keep)
  {
  }

  /** A rejected head entry is the first one disconnected. */
  lemma DropStep(m: Manager, ch: string, p: seq<Conn>, s: seq<Conn>, keep: Conn -> bool)
    requires ch in m.channels && s != [] && !keep(s[0])
    requires Disconnect(m, s[0].socket, ch).lastPing == m.lastPing - {s[0].id}
    requires LeavesKept(Disconnect(m, s[0].socket, ch), ch, p, s[1..], keep)
    ensures LeavesKept(m, ch, p, s, keep)
  {
    var c, rest := s[0], Dropped(s[1..], keep);
    var m1 := Disconnect(m, c.socket, ch);
    assert Dropped(s, keep) == [c] + rest;
    assert Kept(s, keep) == Kept(s[1..], keep);
    assert DisconnectAll(m, [c] + rest, ch) == DisconnectAll(m1, rest, ch) by {
      assert ([c] + rest)[0] == c && ([c] + rest)[1..] == rest;
    }
    assert Ids([c] + rest) == {c.id} + Ids(rest) by {
      IdsConcat([c], rest);
      IdsSingle(c);
    }
    MinusMinus(m.lastPing, {c.id}, Ids(rest));
  }

  lemma MinusMinus<K, V>(m: map<K, V>, a: set<K>, b: set<K>)
    ensures m - a - b == m - (a + b)
  {
  }

  /** Disconnecting the first entry of the tail `s` cuts exactly that entry out. */
  lemma DisconnectHead(m: Manager, ch: string, p: seq<Conn>, s: seq<Conn>)
    requires ch in m.channels && m.channels[ch] == p + s && s != []
    requires DistinctSockets(p + s)
    ensures var m1 := Disconnect(m, s[0].socket, ch);
            && m1.channels[ch] == p + s[1..] && DistinctSockets(p + s[1..])
            && m1.lastPing == m.lastPing - {s[0].id}
  {
    var whole := p + s;
    assert whole[|p|] == s[0] && whole[..|p|] == p && whole[|p| + 1..] == s[1..];
    FirstMatchDistinct(whole, |p|);
    DisconnectAt(m, s[0].socket, ch, |p|);
    RemoveAtDistinct(whole, |p|);
  }

  /**
   * `broadcast` on a channel whose sockets are distinct: afterwards the
   * channel holds exactly the pairs whose send succeeded, in their original
   * order, which are also the pairs that received the message; the failed
   * pairs' ids have left the ledger and nothing else has.
   */
  lemma BroadcastRemovesExactlyFailed(m: Manager, ch: string, sendOk: Conn -> bool)
    requires ch in m.channels && DistinctSockets(m.channels[ch])
    ensures var r := Broadcast(m, ch, sendOk);
            var s := m.channels[ch];
            && r.manager.channels[ch] == Kept(s, sendOk) == r.delivered
            && r.manager.lastPing == m.lastPing - Ids(Dropped(s, sendOk))
  {
    var s := m.channels[ch];
    assert [] + s == s;
    DisconnectDropped(m, ch, [], s, sendOk);
    assert LeavesKept(m, ch, [], s, sendOk);
    assert [] + Kept(s, sendOk) == Kept(s, sendOk);
  }

  // ---------------------------------------------------------------------
  // The ping sweep
  // ---------------------------------------------------------------------

  /** A pair that is stale at one time stays stale at every later time, until it is stamped again. */
  lemma StaleLater(lastPing: map<ConnId, Time>, now: Time, later: Time, c: Conn)
    requires now <= later && Stale(lastPing, now, c)
    ensures Stale(lastPing, later, c)
  {
  }

  /**
   * The eviction test is strict: a pair whose last ping is exactly sixty
   * seconds old is still pinged (and kept when the ping succeeds); one
   * microsecond more and it is evicted without a ping.
   */
  lemma PingAtBoundary(c: Conn, lastPing: map<ConnId, Time>, now: Time, pingOk: Conn -> bool)
    requires c.id in lastPing
    ensures now - lastPing[c.id] == 60 * 1_000_000 ==>
              && Scan([c], lastPing, now, pingOk).pinged == [c]
              && Scan([c], lastPing, now, pingOk).evicted == (if pingOk(c) then [] else [c])
    ensures now - lastPing[c.id] == 60 * 1_000_000 + 1 ==>
              && Scan([c], lastPing, now, pingOk).pinged == []
              && Scan([c], lastPing, now, pingOk).evicted == [c]
  {
    assert [c][1..] == [];
  }

  /** Neither stale in the ledger `lastPing` nor failing its ping: the pairs a sweep keeps. */
  function Alive(lastPing: map<ConnId, Time>, now: Time, pingOk: Conn -> bool): Conn -> bool {
    c => !Stale(lastPing, now, c) && pingOk(c)
  }

  /** Not stale in the ledger `lastPing`: the pairs a sweep pings. */
  function Current(lastPing: map<ConnId, Time>, now: Time): Conn -> bool {
    c => !Stale(lastPing, now, c)
  }

  /** The ledger with the entries of `ids` it holds stamped `now`. */
  function Restamp(lastPing: map<ConnId, Time>, ids: set<ConnId>, now: Time): map<ConnId, Time> {
    map id | id in lastPing :: if id in ids then now else lastPing[id]
  }

  /** Predicates that agree on the entries of `s` keep and drop the same entries. */
  lemma {:induction false} KeptCongruent(s: seq<Conn>, f: Conn -> bool, g: Conn -> bool)
    requires forall c :: c in s ==> f(c) == g(c)
    ensures Kept(s, f) == Kept(s, g) && Dropped(s, f) == Dropped(s, g)
  {
    if s != [] {
      assert s[0] in s;
      assert forall c :: c in s[1..] ==> c in s;
      KeptCongruent(s[1..], f, g);
    }
  }

  /** The head's id occurs nowhere in the tail of a list with distinct ids. */
  lemma HeadIdFresh(s: seq<Conn>)
    requires s != [] && DistinctIds(s)
    ensures forall c :: c in s[1..] ==> c.id != s[0].id
    ensures DistinctIds(s[1..])
  {
    forall c | c in s[1..] ensures c.id != s[0].id {
      var k :| 0 <= k < |s[1..]| && s[1..][k] == c;
      assert s[k + 1] == c;
    }
  }

  /**
   * One pass of the ping loop over a list with distinct ids: the pairs
   * marked for eviction are exactly those stale in the ledger as it stood
   * before the pass or whose ping failed; the pairs pinged are exactly the
   * non-stale ones; the ledger is stamped `now` for exactly the survivors.
   */
  lemma {:induction false} ScanResult(s: seq<Conn>, lastPing: map<ConnId, Time>, now: Time, pingOk: Conn -> bool)
    requires DistinctIds(s)
    ensures var r := Scan(s, lastPing, now, pingOk);
            && r.evicted == Dropped(s, Alive(lastPing, now, pingOk))
            && r.pinged == Kept(s, Current(lastPing, now))
            && r.lastPing == Restamp(lastPing, Ids(Kept(s, Alive(lastPing, now, pingOk))), now)
  {
    var alive := Alive(lastPing, now, pingOk);
    if s == [] {
      assert Ids([]) == {};
    } else {
      var c := s[0];
      HeadIdFresh(s);
      if Stale(lastPing, now, c) || !pingOk(c) {
        ScanResult(s[1..], lastPing, now, pingOk);
        assert Kept(s, alive) == Kept(s[1..], alive);
      } else {
        var lp := lastPing[c.id := now];
        ScanResult(s[1..], lp, now, pingOk);
        ScanStampStep(s, lastPing, now, pingOk);
      }
    }
  }

  /** A fresh stamp for the head does not change which of the later, differently named, pairs survive. */
  lemma ScanStampStep(s: seq<Conn>, lastPing: map<ConnId, Time>, now: Time, pingOk: Conn -> bool)
    requires s != [] && !Stale(lastPing, now, s[0]) && pingOk(s[0])
    requires forall c :: c in s[1..] ==> c.id != s[0].id
    ensures var lp, rest := lastPing[s[0].id := now], s[1..];
            && Dropped(rest, Alive(lp, now, pingOk)) == Dropped(s, Alive(lastPing, now, pingOk))
            && [s[0]] + Kept(rest, Current(lp, now)) == Kept(s, Current(lastPing, now))
            && Restamp(lp, Ids(Kept(rest, Alive(lp, now, pingOk))), now)
               == Restamp(lastPing, Ids(Kept(s, Alive(lastPing, now, pingOk))), now)
  {
    var c, lp, rest := s[0], lastPing[s[0].id := now], s[1..];
    StampAgrees(rest, lastPing, c.id, now, pingOk);
    KeptCongruent(rest, Alive(lp, now, pingOk), Alive(lastPing, now, pingOk));
    KeptCongruent(rest, Current(lp, now), Current(lastPing, now));
    KeptHead(s, Alive(lastPing, now, pingOk));
    KeptHead(s, Current(lastPing, now));
    ScanRestampStep(s, lastPing, now, pingOk);
  }

  /** The survivors' stamps: the head's own, then the tail's. */
  lemma ScanRestampStep(s: seq<Conn>, lastPing: map<ConnId, Time>, now: Time, pingOk: Conn -> bool)
    requires s != [] && !Stale(lastPing, now, s[0]) && pingOk(s[0])
    requires Kept(s[1..], Alive(lastPing[s[0].id := now], now, pingOk)) == Kept(s[1..], Alive(lastPing, now, pingOk))
    requires Kept(s, Alive(lastPing, now, pingOk)) == [s[0]] + Kept(s[1..], Alive(lastPing, now, pingOk))
    ensures Restamp(lastPing[s[0].id := now], Ids(Kept(s[1..], Alive(lastPing[s[0].id := now], now, pingOk))), now)
            == Restamp(lastPing, Ids(Kept(s, Alive(lastPing, now, pingOk))), now)
  {
    var c, lp, alive := s[0], lastPing[s[0].id := now], Alive(lastPing, now, pingOk);
    var tail := Kept(s[1..], alive);
    var ids := Ids(tail);
    assert Ids(Kept(s, alive)) == {c.id} + ids by {
      IdsConcat([c], tail);
      IdsSingle(c);
    }
    RestampStamped(lastPing, c.id, ids, now);
  }

  /** Stamping an id changes neither liveness nor currency of pairs with other ids. */
  lemma StampAgrees(s: seq<Conn>, lastPing: map<ConnId, Time>, id: ConnId, now: Time, pingOk: Conn -> bool)
    requires forall c :: c in s ==> c.id != id
    ensures forall c :: c in s ==> Alive(lastPing[id := now], now, pingOk)(c) == Alive(lastPing, now, pingOk)(c)
    ensures forall c :: c in s ==> Current(lastPing[id := now], now)(c) == Current(lastPing, now)(c)
  {
  }

  /** Restamping after stamping `id` is restamping with `id` included. */
  lemma RestampStamped(lastPing: map<ConnId, Time>, id: ConnId, ids: set<ConnId>, now: Time)
    requires id in lastPing
    ensures Restamp(lastPing[id := now], ids, now) == Restamp(lastPing, {id} + ids, now)
  {
  }

  /** In a list with distinct ids an id names one entry. */
  lemma SameIdSameEntry(s: seq<Conn>, c: Conn, d: Conn)
    requires DistinctIds(s) && c in s && d in s && c.id == d.id
    ensures c == d
  {
    var i :| 0 <= i < |s| && s[i] == c;
    var j :| 0 <= j < |s| && s[j] == d;
    assert i == j;
  }

  /** Keeping some entries of a list keeps its ids and sockets distinct. */
  lemma KeptDistinct(s: seq<Conn>, f: Conn -> bool)
    ensures DistinctIds(s) ==> DistinctIds(Kept(s, f))
    ensures DistinctSockets(s) ==> DistinctSockets(Kept(s, f))
  {
    if DistinctIds(s) {
      KeptDistinctIds(s, f);
    }
    if DistinctSockets(s) {
      KeptDistinctSockets(s, f);
    }
  }

  lemma {:induction false} KeptDistinctIds(s: seq<Conn>, f: Conn -> bool)
    requires DistinctIds(s)
    ensures DistinctIds(Kept(s, f))
  {
    if s != [] {
      var rest := Kept(s[1..], f);
      HeadIdFresh(s);
      KeptDistinctIds(s[1..], f);
      if f(s[0]) {
        KeptHead(s, f);
        var t := [s[0]] + rest;
        forall i, j | 0 <= i < j < |t| ensures t[i].id != t[j].id {
          if i == 0 {
            assert t[j] in rest;
          }
        }
      }
    }
  }

  /** The head's socket occurs nowhere in the tail of a list with distinct sockets. */
  lemma HeadSocketFresh(s: seq<Conn>)
    requires s != [] && DistinctSockets(s)
    ensures forall c :: c in s[1..] ==> c.socket != s[0].socket
    ensures DistinctSockets(s[1..])
  {
    forall c | c in s[1..] ensures c.socket != s[0].socket {
      var k :| 0 <= k < |s[1..]| && s[1..][k] == c;
      assert s[k + 1] == c;
    }
  }

  lemma {:induction false} KeptDistinctSockets(s: seq<Conn>, f: Conn -> bool)
    requires DistinctSockets(s)
    ensures DistinctSockets(Kept(s, f))
  {
    if s != [] {
      var rest := Kept(s[1..], f);
      HeadSocketFresh(s);
      KeptDistinctSockets(s[1..], f);
      if f(s[0]) {
        KeptHead(s, f);
        var t := [s[0]] + rest;
        forall i, j | 0 <= i < j < |t| ensures t[i].socket != t[j].socket {
          if i == 0 {
            assert t[j] in rest;
          }
        }
      }
    }
  }

  /**
   * One channel of the ping sweep, on a list with distinct ids and
   * sockets: the channel keeps exactly its live pairs, in order; the pinged
   * pairs are the non-stale ones; the ledger stamps the survivors `now` and
   * forgets the evicted pairs.
   */
  lemma SweepChannelResult(m: Manager, ch: string, now: Time, pingOk: Conn -> bool)
    requires ch in m.channels && DistinctIds(m.channels[ch]) && DistinctSockets(m.channels[ch])
    ensures var r, s, alive := SweepChannel(m, ch, now, pingOk), m.channels[ch], Alive(m.lastPing, now, pingOk);
            && r.manager.channels[ch] == Kept(s, alive)
            && r.pinged == Kept(s, Current(m.lastPing, now))
            && r.manager.lastPing == Restamp(m.lastPing, Ids(Kept(s, alive)), now) - Ids(Dropped(s, alive))
  {
    var s, alive := m.channels[ch], Alive(m.lastPing, now, pingOk);
    ScanResult(s, m.lastPing, now, pingOk);
    var sc := Scan(s, m.lastPing, now, pingOk);
    var m' := m.(lastPing := sc.lastPing);
    assert [] + s == s;
    DisconnectDropped(m', ch, [], s, alive);
    assert LeavesKept(m', ch, [], s, alive);
    assert [] + Kept(s, alive) == Kept(s, alive);
  }

  /**
   * After a channel's sweep every pair left on it holds a ledger entry
   * stamped `now`, and every evicted pair is off the channel and out of the
   * ledger.
   */
  lemma SweepChannelStamps(m: Manager, ch: string, now: Time, pingOk: Conn -> bool)
    requires ch in m.channels && DistinctIds(m.channels[ch]) && DistinctSockets(m.channels[ch])
    ensures var r := SweepChannel(m, ch, now, pingOk).manager;
            && (forall c :: c in r.channels[ch] ==> c.id in r.lastPing && r.lastPing[c.id] == now)
            && (forall c :: c in m.channels[ch] && c !in r.channels[ch] ==> c.id !in r.lastPing)
  {
    var s, alive := m.channels[ch], Alive(m.lastPing, now, pingOk);
    SweepChannelResult(m, ch, now, pingOk);
    var r := SweepChannel(m, ch, now, pingOk).manager;
    forall c | c in r.channels[ch]
      ensures c.id in r.lastPing && r.lastPing[c.id] == now
    {
      assert c in s && alive(c);
      forall d | d in Dropped(s, alive) ensures d.id != c.id {
        if d.id == c.id { SameIdSameEntry(s, c, d); }
      }
    }
  }

  /** Two ledgers agree on the ids in `ids`: same presence, same stamps. */
  predicate AgreeOn(a: map<ConnId, Time>, b: map<ConnId, Time>, ids: set<ConnId>) {
    forall id :: id in ids ==> (id in a <==> id in b) && (id in a ==> a[id] == b[id])
  }

  /** Liveness and currency of the pairs of `s` read only their own ledger entries. */
  lemma AgreeOnAlive(s: seq<Conn>, a: map<ConnId, Time>, b: map<ConnId, Time>, now: Time, pingOk: Conn -> bool)
    requires AgreeOn(a, b, Ids(s))
    ensures Kept(s, Alive(a, now, pingOk)) == Kept(s, Alive(b, now, pingOk))
    ensures Dropped(s, Alive(a, now, pingOk)) == Dropped(s, Alive(b, now, pingOk))
    ensures Kept(s, Current(a, now)) == Kept(s, Current(b, now))
  {
    assert forall c :: c in s ==> c.id in Ids(s);
    KeptCongruent(s, Alive(a, now, pingOk), Alive(b, now, pingOk));
    KeptCongruent(s, Current(a, now), Current(b, now));
  }

  lemma KeptIds(s: seq<Conn>, f: Conn -> bool)
    ensures Ids(Kept(s, f)) <= Ids(s) && Ids(Dropped(s, f)) <= Ids(s)
  {
  }

  /**
   * A channel's sweep, on a registry whose lists hold no socket twice,
   * keeps both invariants and leaves the ledger entries of every other
   * channel's pairs as they were.
   */
  lemma SweepChannelKeeps(m: Manager, ch: string, now: Time, pingOk: Conn -> bool)
    requires Valid(m) && SocketsDistinct(m)
    ensures var r := SweepChannel(m, ch, now, pingOk).manager;
            && Valid(r) && SocketsDistinct(r)
            && forall c :: c in m.channels && c != ch ==> AgreeOn(r.lastPing, m.lastPing, Ids(m.channels[c]))
  {
    if ch in m.channels {
      var s, alive := m.channels[ch], Alive(m.lastPing, now, pingOk);
      var r := SweepChannel(m, ch, now, pingOk).manager;
      SweepChannelResult(m, ch, now, pingOk);
      SweepChannelStamps(m, ch, now, pingOk);
      KeptDistinct(s, alive);
      KeptIds(s, alive);
      forall c | c in m.channels && c != ch
        ensures AgreeOn(r.lastPing, m.lastPing, Ids(m.channels[c]))
        ensures Ids(r.channels[c]) <= r.lastPing.Keys
      {
        assert Ids(m.channels[c]) !! Ids(s);
      }
      assert Covered(r);
      forall c, d | c in r.channels && d in r.channels && c != d
        ensures Ids(r.channels[c]) !! Ids(r.channels[d])
      {
        assert Ids(m.channels[c]) !! Ids(m.channels[d]);
      }
    }
  }

  /**
   * What a sweep over the channels `names` promises, measured against the
   * registry `m` it started from: each swept channel keeps exactly its pairs
   * live in `m`'s ledger, each of them stamped `now`; the ledger entries of
   * the pairs of the other channels are untouched.
   */
  predicate SweptFrom(m: Manager, names: seq<string>, now: Time, pingOk: Conn -> bool, r: Manager)
    requires r.channels.Keys == m.channels.Keys
  {
    && (forall c :: c in names && c in m.channels ==> r.channels[c] == Kept(m.channels[c], Alive(m.lastPing, now, pingOk)))
    && (forall c, x :: c in names && c in m.channels && x in r.channels[c] ==> x.id in r.lastPing && r.lastPing[x.id] == now)
    && (forall c :: c in m.channels && c !in names ==> AgreeOn(r.lastPing, m.lastPing, Ids(m.channels[c])))
  }

  /** Sweeping the distinct channels `names` in turn, from a valid registry. */
  lemma {:induction false} SweepEachResult(m: Manager, names: seq<string>, now: Time, pingOk: Conn -> bool)
    requires Valid(m) && SocketsDistinct(m)
    requires forall i, j :: 0 <= i < j < |names| ==> names[i] != names[j]
    ensures var r := SweepEach(m, names, now, pingOk).manager;
            Valid(r) && SocketsDistinct(r) && SweptFrom(m, names, now, pingOk, r)
    decreases |names|
  {
    if names == [] {
    } else {
      var ch := names[0];
      var m1 := SweepChannel(m, ch, now, pingOk).manager;
      SweepChannelKeeps(m, ch, now, pingOk);
      SweepEachResult(m1, names[1..], now, pingOk);
      var r := SweepEach(m1, names[1..], now, pingOk).manager;
      assert ch !in names[1..];
      assert forall c :: c in names <==> c == ch || c in names[1..];
      if ch in m.channels {
        SweepChannelResult(m, ch, now, pingOk);
        SweepChannelStamps(m, ch, now, pingOk);
      }
      SweepStep(m, m1, r, names, now, pingOk);
    }
  }

  /** The inductive step of `SweepEachResult`, with the first channel's sweep already done. */
  lemma SweepStep(m: Manager, m1: Manager, r: Manager, names: seq<string>, now: Time, pingOk: Conn -> bool)
    requires names != [] && names[0] !in names[1..]
    requires m1.channels.Keys == m.channels.Keys && r.channels.Keys == m.channels.Keys
    requires forall c :: c in m.channels && c != names[0] ==> m1.channels[c] == m.channels[c]
    requires forall c :: c in m.channels && c != names[0] ==> AgreeOn(m1.lastPing, m.lastPing, Ids(m.channels[c]))
    requires names[0] in m.channels ==>
               && m1.channels[names[0]] == Kept(m.channels[names[0]], Alive(m.lastPing, now, pingOk))
               && forall x :: x in m1.channels[names[0]] ==> x.id in m1.lastPing && m1.lastPing[x.id] == now
    requires forall c :: c in m.channels && c !in names[1..] ==> r.channels[c] == m1.channels[c]
    requires SweptFrom(m1, names[1..], now, pingOk, r)
    ensures SweptFrom(m, names, now, pingOk, r)
  {
    var ch := names[0];
    forall c | c in names[1..] && c in m.channels
      ensures r.channels[c] == Kept(m.channels[c], Alive(m.lastPing, now, pingOk))
    {
      AgreeOnAlive(m.channels[c], m1.lastPing, m.lastPing, now, pingOk);
    }
    if ch in m.channels {
      forall x | x in r.channels[ch]
        ensures x.id in r.lastPing && r.lastPing[x.id] == now
      {
        assert x.id in Ids(m1.channels[ch]);
      }
    }
    forall c | c in m.channels && c !in names
      ensures AgreeOn(r.lastPing, m.lastPing, Ids(m.channels[c]))
    {
      assert AgreeOn(r.lastPing, m1.lastPing, Ids(m1.channels[c]));
    }
  }

  /**
   * One iteration of `_ping_clients` on a valid registry whose channel lists
   * hold no socket twice: every channel keeps exactly the pairs that were
   * neither stale in the ledger it started from nor failed their ping, in
   * order; every survivor's ledger entry reads `now`; and the invariant
   * holds afterwards.  Channels are swept one after another, yet none
   * affects the outcome of another, because their ids are disjoint.
   */
  lemma PingSweepResult(m: Manager, now: Time, pingOk: Conn -> bool)
    requires Valid(m) && SocketsDistinct(m)
    ensures var r := PingSweep(m, now, pingOk).manager;
            && Valid(r)
            && (forall c :: c in m.channels ==> r.channels[c] == Kept(m.channels[c], Alive(m.lastPing, now, pingOk)))
            && (forall c, x :: c in r.channels && x in r.channels[c] ==> x.id in r.lastPing && r.lastPing[x.id] == now)
  {
    SweepEachResult(m, m.order, now, pingOk);
    assert forall c :: c in m.channels ==> c in m.order;
  }

  /**
   * A channel's sweep keeps the invariant whatever the channel holds: the
   * restamped ledger has the same keys, and each eviction is a
   * `disconnect`.
   */
  lemma SweepChannelValid(m: Manager, ch: string, now: Time, pingOk: Conn -> bool)
    requires Valid(m)
    ensures Valid(SweepChannel(m, ch, now, pingOk).manager)
  {
    if ch in m.channels {
      var sc := Scan(m.channels[ch], m.lastPing, now, pingOk);
      DisconnectAllValid(m.(lastPing := sc.lastPing), sc.evicted, ch);
    }
  }

  lemma {:induction false} SweepEachValid(m: Manager, names: seq<string>, now: Time, pingOk: Conn -> bool)
    requires Valid(m)
    ensures Valid(SweepEach(m, names, now, pingOk).manager)
    decreases |names|
  {
    if names != [] {
      SweepChannelValid(m, names[0], now, pingOk);
      SweepEachValid(SweepChannel(m, names[0], now, pingOk).manager, names[1..], now, pingOk);
    }
  }

  /** One iteration of `_ping_clients` keeps the invariant. */
  lemma PingSweepValid(m: Manager, now: Time, pingOk: Conn -> bool)
    requires Valid(m)
    ensures Valid(PingSweep(m, now, pingOk).manager)
  {
    SweepEachValid(m, m.order, now, pingOk);
  }

  lemma {:induction false} DisconnectAllSocketsDistinct(m: Manager, gone: seq<Conn>, ch: string)
    requires SocketsDistinct(m)
    ensures SocketsDistinct(DisconnectAll(m, gone, ch))
    decreases |gone|
  {
    if gone != [] {
      DisconnectSocketsDistinct(m, gone[0].socket, ch);
      DisconnectAllSocketsDistinct(Disconnect(m, gone[0].socket, ch), gone[1..], ch);
    }
  }

  lemma {:induction false} SweepEachSocketsDistinct(m: Manager, names: seq<string>, now: Time, pingOk: Conn -> bool)
    requires SocketsDistinct(m)
    ensures SocketsDistinct(SweepEach(m, names, now, pingOk).manager)
    decreases |names|
  {
    if names != [] {
      var ch := names[0];
      if ch in m.channels {
        var sc := Scan(m.channels[ch], m.lastPing, now, pingOk);
        DisconnectAllSocketsDistinct(m.(lastPing := sc.lastPing), sc.evicted, ch);
      }
      SweepEachSocketsDistinct(SweepChannel(m, ch, now, pingOk).manager, names[1..], now, pingOk);
    }
  }

  // ---------------------------------------------------------------------
  // _handle_connection_error and send_personal_message
  // ---------------------------------------------------------------------

  /** The id `disconnect(ws, ...)` takes out of the ledger for channel list `s`. */
  function RemovedIds(s: seq<Conn>, ws: Socket): (ids: set<ConnId>)
    ensures ws !in Sockets(s) ==> ids == {}
    ensures ws in Sockets(s) ==> exists i :: FirstMatch(s, ws, i) && ids == {s[i].id}
  {
    var i := IndexOfSocket(s, ws);
    if i == |s| then {} else {s[i].id}
  }

  /** The ids removed by disconnecting `ws` from each of the channels `names`. */
  function RemovedAcross(channels: map<string, seq<Conn>>, names: seq<string>, ws: Socket): (ids: set<ConnId>)
    ensures forall id :: id in ids <==> exists c :: c in names && c in channels && id in RemovedIds(channels[c], ws)
  {
    if names == [] then {}
    else
      (if names[0] in channels then RemovedIds(channels[names[0]], ws) else {})
      + RemovedAcross(channels, names[1..], ws)
  }

  /** Only the lists of the named channels matter. */
  lemma {:induction false} RemovedAcrossAgree(a: map<string, seq<Conn>>, b: map<string, seq<Conn>>, names: seq<string>, ws: Socket)
    requires forall c :: c in names ==> (c in a <==> c in b) && (c in a ==> a[c] == b[c])
    ensures RemovedAcross(a, names, ws) == RemovedAcross(b, names, ws)
  {
    if names != [] {
      RemovedAcrossAgree(a, b, names[1..], ws);
    }
  }

  lemma DisconnectLedger(m: Manager, ws: Socket, ch: string)
    requires ch in m.channels
    ensures Disconnect(m, ws, ch).lastPing == m.lastPing - RemovedIds(m.channels[ch], ws)
  {
    var s := m.channels[ch];
    if ws in Sockets(s) {
      DisconnectAt(m, ws, ch, IndexOfSocket(s, ws));
    } else {
      assert m.lastPing - {} == m.lastPing;
    }
  }

  /**
   * Dropping `ws` from each of the distinct channels `names` in turn is
   * `RemoveFirst` on each of them and one removal of all their matching ids
   * from the ledger, whatever the order.
   */
  lemma DisconnectEachResult(m: Manager, names: seq<string>, ws: Socket)
    requires forall i, j :: 0 <= i < j < |names| ==> names[i] != names[j]
    ensures var r := DisconnectEach(m, names, ws);
            && (forall c :: c in names && c in m.channels ==> r.channels[c] == RemoveFirst(m.channels[c], ws))
            && r.lastPing == m.lastPing - RemovedAcross(m.channels, names, ws)
  {
    DisconnectEachChannels(m, names, ws);
    DisconnectEachLedger(m, names, ws);
  }

  lemma {:induction false} DisconnectEachChannels(m: Manager, names: seq<string>, ws: Socket)
    requires forall i, j :: 0 <= i < j < |names| ==> names[i] != names[j]
    ensures forall c :: c in names && c in m.channels ==> DisconnectEach(m, names, ws).channels[c] == RemoveFirst(m.channels[c], ws)
    decreases |names|
  {
    if names != [] {
      var ch, rest := names[0], names[1..];
      var m1 := Disconnect(m, ws, ch);
      DisconnectEachChannels(m1, rest, ws);
      assert ch !in rest;
      if ch in m.channels {
        DisconnectRemovesFirst(m, ws, ch);
      }
      assert forall c :: c in names <==> c == ch || c in rest;
    }
  }

  lemma {:induction false} DisconnectEachLedger(m: Manager, names: seq<string>, ws: Socket)
    requires forall i, j :: 0 <= i < j < |names| ==> names[i] != names[j]
    ensures DisconnectEach(m, names, ws).lastPing == m.lastPing - RemovedAcross(m.channels, names, ws)
    decreases |names|
  {
    if names == [] {
      assert m.lastPing - {} == m.lastPing;
    } else {
      var ch, rest := names[0], names[1..];
      var m1 := Disconnect(m, ws, ch);
      DisconnectEachLedger(m1, rest, ws);
      assert ch !in rest;
      RemovedAcrossAgree(m1.channels, m.channels, rest, ws);
      if ch in m.channels {
        DisconnectLedger(m, ws, ch);
        MinusMinus(m.lastPing, RemovedIds(m.channels[ch], ws), RemovedAcross(m.channels, rest, ws));
      } else {
        assert m1 == m;
      }
    }
  }

  /** Removing the first entry holding a socket from a list that holds it once leaves it nowhere. */
  lemma RemoveFirstGone(s: seq<Conn>, ws: Socket)
    requires DistinctSockets(s)
    ensures ws !in Sockets(RemoveFirst(s, ws))
  {
    var i := IndexOfSocket(s, ws);
    if i < |s| {
      var t := s[..i] + s[i + 1..];
      CutAt(s, i);
      forall x | x in t ensures x.socket != ws {
        var k :| 0 <= k < |t| && t[k] == x;
      }
    }
  }

  /**
   * `_handle_connection_error(ws)`: every channel loses its first entry
   * holding `ws` and the ledger loses exactly those entries' ids.  When no
   * list holds a socket twice, `ws` is afterwards registered nowhere.
   */
  lemma HandleConnectionErrorResult(m: Manager, ws: Socket)
    requires OrderOk(m)
    ensures var r := HandleConnectionError(m, ws);
            && (forall c :: c in m.channels ==> r.channels[c] == RemoveFirst(m.channels[c], ws))
            && r.lastPing == m.lastPing - RemovedAcross(m.channels, m.order, ws)
            && (SocketsDistinct(m) ==> forall c :: c in r.channels ==> ws !in Sockets(r.channels[c]))
  {
    DisconnectEachResult(m, m.order, ws);
    assert forall c :: c in m.channels ==> c in m.order;
    if SocketsDistinct(m) {
      forall c | c in m.channels ensures ws !in Sockets(RemoveFirst(m.channels[c], ws)) {
        RemoveFirstGone(m.channels[c], ws);
      }
    }
  }

  /** `disconnect` of any pair, channel after channel, keeps the invariant. */
  lemma {:induction false} DisconnectEachValid(m: Manager, names: seq<string>, ws: Socket)
    requires Valid(m)
    ensures Valid(DisconnectEach(m, names, ws))
    decreases |names|
  {
    if names != [] {
      DisconnectValid(m, ws, names[0]);
      DisconnectEachValid(Disconnect(m, ws, names[0]), names[1..], ws);
    }
  }

  /** `send_personal_message` keeps the invariant, delivered or not. */
  lemma SendPersonalMessageValid(m: Manager, ws: Socket, delivered: bool)
    requires Valid(m)
    ensures Valid(SendPersonalMessage(m, ws, delivered))
  {
    DisconnectEachValid(m, m.order, ws);
  }

  /** `broadcast` keeps the invariant. */
  lemma BroadcastValid(m: Manager, ch: string, sendOk: Conn -> bool)
    requires Valid(m)
    ensures Valid(Broadcast(m, ch, sendOk).manager)
  {
    if ch in m.channels {
      DisconnectAllValid(m, Dropped(m.channels[ch], sendOk), ch);
    }
  }

  lemma {:induction false} DisconnectAllValid(m: Manager, gone: seq<Conn>, ch: string)
    requires Valid(m)
    ensures Valid(DisconnectAll(m, gone, ch))
    decreases |gone|
  {
    if gone != [] {
      DisconnectValid(m, gone[0].socket, ch);
      DisconnectAllValid(Disconnect(m, gone[0].socket, ch), gone[1..], ch);
    }
  }

  /**
   * `send_personal_message`: a delivered message changes nothing; a failed
   * one takes the first entry holding `ws` off every channel, and exactly
   * those entries' ids out of the ledger.
   */
  lemma SendPersonalMessageResult(m: Manager, ws: Socket, delivered: bool)
    requires OrderOk(m)
    ensures var r := SendPersonalMessage(m, ws, delivered);
            && (delivered ==> r == m)
            && (!delivered ==> forall c :: c in m.channels ==> r.channels[c] == RemoveFirst(m.channels[c], ws))
            && (!delivered ==> r.lastPing == m.lastPing - RemovedAcross(m.channels, m.order, ws))
  {
    if !delivered {
      HandleConnectionErrorResult(m, ws);
    }
  }

  lemma {:induction false} DisconnectEachSocketsDistinct(m: Manager, names: seq<string>, ws: Socket)
    requires SocketsDistinct(m)
    ensures SocketsDistinct(DisconnectEach(m, names, ws))
    decreases |names|
  {
    if names != [] {
      DisconnectSocketsDistinct(m, ws, names[0]);
      DisconnectEachSocketsDistinct(Disconnect(m, ws, names[0]), names[1..], ws);
    }
  }

  // ---------------------------------------------------------------------
  // Reachable registries
  // ---------------------------------------------------------------------

  /** One call into the manager, with the outcomes the model takes as arguments. */
  datatype Event =
    | StartupCall
    | ConnectCall(ws: Socket, ch: string, id: ConnId, now: Time, accepted: bool)
    | DisconnectCall(ws: Socket, ch: string)
    | SendCall(ws: Socket, delivered: bool)
    | BroadcastCall(ch: string, sendOk: Conn -> bool)
    | SweepCall(now: Time, pingOk: Conn -> bool)

  /** The registry after one call; a `connect` that raised leaves it as it was. */
  function Apply(m: Manager, e: Event): Manager {
    match e
    case StartupCall => Startup(m)
    case ConnectCall(ws, ch, id, now, accepted) =>
      var r := Connect(m, ws, ch, id, now, accepted);
      if r.Ok? then r.value else m
    case DisconnectCall(ws, ch) => Disconnect(m, ws, ch)
    case SendCall(ws, delivered) => SendPersonalMessage(m, ws, delivered)
    case BroadcastCall(ch, sendOk) => Broadcast(m, ch, sendOk).manager
    case SweepCall(now, pingOk) => PingSweep(m, now, pingOk).manager
  }

  /**
   * What the surroundings guarantee of a call: an accepted `connect` brings
   * a socket `accept()` has not seen before and a fresh `uuid4()`.
   */
  predicate Admissible(m: Manager, e: Event) {
    e.ConnectCall? && e.accepted ==> FreshId(m, e.id) && FreshSocket(m, e.ws)
  }

  /** The registry after the calls `es`, in order. */
  function Run(m: Manager, es: seq<Event>): Manager
    decreases |es|
  {
    if es == [] then m else Run(Apply(m, es[0]), es[1..])
  }

  predicate AdmissibleRun(m: Manager, es: seq<Event>)
    decreases |es|
  {
    es == [] || (Admissible(m, es[0]) && AdmissibleRun(Apply(m, es[0]), es[1..]))
  }

  /** Every call keeps the invariant and keeps channel lists free of repeated sockets. */
  lemma StepSound(m: Manager, e: Event)
    requires Valid(m) && SocketsDistinct(m) && Admissible(m, e)
    ensures Valid(Apply(m, e)) && SocketsDistinct(Apply(m, e))
  {
    match e
    case StartupCall =>
      StartupValid(m);
    case ConnectCall(ws, ch, id, now, accepted) =>
      if accepted {
        ConnectValid(m, ws, ch, id, now);
        ConnectSocketsDistinct(m, ws, ch, id, now);
      }
    case DisconnectCall(ws, ch) =>
      DisconnectValid(m, ws, ch);
      DisconnectSocketsDistinct(m, ws, ch);
    case SendCall(ws, delivered) =>
      SendPersonalMessageValid(m, ws, delivered);
      DisconnectEachSocketsDistinct(m, m.order, ws);
    case BroadcastCall(ch, sendOk) =>
      BroadcastValid(m, ch, sendOk);
      if ch in m.channels {
        DisconnectAllSocketsDistinct(m, Dropped(m.channels[ch], sendOk), ch);
      }
    case SweepCall(now, pingOk) =>
      PingSweepValid(m, now, pingOk);
      SweepEachSocketsDistinct(m, m.order, now, pingOk);
  }

  lemma {:induction false} RunSound(m: Manager, es: seq<Event>)
    requires Valid(m) && SocketsDistinct(m) && AdmissibleRun(m, es)
    ensures Valid(Run(m, es)) && SocketsDistinct(Run(m, es))
    decreases |es|
  {
    if es != [] {
      StepSound(m, es[0]);
      RunSound(Apply(m, es[0]), es[1..]);
    }
  }

  /**
   * Every registry that `ConnectionManager()` and a sequence of admissible
   * calls can build satisfies the invariant and holds no socket twice in a
   * channel, so the sweep and broadcast results below apply to it.
   */
  lemma ReachableSound(es: seq<Event>)
    requires AdmissibleRun(Create(), es)
    ensures Valid(Run(Create(), es)) && SocketsDistinct(Run(Create(), es))
  {
    RunSound(Create(), es);
  }

  /** The ping-sweep result holds of every reachable registry. */
  lemma ReachablePingSweep(es: seq<Event>, now: Time, pingOk: Conn -> bool)
    requires AdmissibleRun(Create(), es)
    ensures var m := Run(Create(), es);
            var r := PingSweep(m, now, pingOk).manager;
            && Valid(r)
            && (forall c :: c in m.channels ==> r.channels[c] == Kept(m.channels[c], Alive(m.lastPing, now, pingOk)))
            && (forall c, x :: c in r.channels && x in r.channels[c] ==> x.id in r.lastPing && r.lastPing[x.id] == now)
  {
    ReachableSound(es);
    PingSweepResult(Run(Create(), es), now, pingOk);
  }

  /** Without the fresh-socket guarantee, two connects of one socket to one channel list it twice. */
  lemma RepeatedSocket(m: Manager, ws: Socket, ch: string, id1: ConnId, id2: ConnId, t1: Time, t2: Time)
    ensures var m1 := Connect(m, ws, ch, id1, t1, true).value;
            !SocketsDistinct(Connect(m1, ws, ch, id2, t2, true).value)
  {
    var m1 := Connect(m, ws, ch, id1, t1, true).value;
    var s := m1.channels[ch] + [Conn(id2, ws)];
    assert s[|s| - 2].socket == s[|s| - 1].socket;
  }
}
