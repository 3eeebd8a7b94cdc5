/**
 * The channel-scoped WebSocket connection registry of `websocket_manager.py`
 * (`ConnectionManager`): a dictionary from channel name to the ordered list
 * of `(connection_id, websocket)` pairs registered on it, plus the `last_ping`
 * ledger from connection id to the time of the last successful ping.
 *
 * Sockets are opaque tokens compared by equality.  Every send (`send_json`)
 * is an outcome supplied by the caller: a function telling, for each
 * registered pair, whether the send to it succeeds.  `datetime.now()` is an
 * integer argument counting microseconds, the resolution of Python's
 * `datetime`; `uuid.uuid4()` is an id argument supplied by the caller.
 */
module Registry {
  import opened Wrappers

  /** An opaque WebSocket handle; only equality (`ws == websocket`) is used. */
  type Socket = nat

  /** `str(uuid.uuid4())`. */
  type ConnId = string

  /** A microsecond timestamp, as `datetime.now()` returns. */
  type Time = int

  /** One `(connection_id, websocket)` pair of a channel list. */
  datatype Conn = Conn(id: ConnId, socket: Socket)

  /**
   * The manager's fields.  `order` is the insertion order of the keys of
   * `active_connections` (Python dictionaries iterate in that order).
   */
  datatype Manager = Manager(
    channels: map<string, seq<Conn>>,
    order: seq<string>,
    lastPing: map<ConnId, Time>,
    initialized: bool)

  /** `self.ping_interval`, in seconds. */
  const PingInterval: nat := 30

  const MicrosPerSecond: nat := 1_000_000

  /** A connection whose last ping is more than this many microseconds old is evicted. */
  const EvictAfter: nat := PingInterval * 2 * MicrosPerSecond

  /** The channels `startup` installs. */
  const Metrics: string := "metrics"
  const Alerts: string := "alerts"

  /** `ConnectionManager()`: no channels, empty ledger, not initialised. */
  function Create(): (m: Manager)
    ensures m.channels == map[] && m.order == [] && m.lastPing == map[] && !m.initialized
  {
    Manager(map[], [], map[], false)
  }

  // ---------------------------------------------------------------------
  // Sequence helpers
  // ---------------------------------------------------------------------

  /** The sockets of a channel list, with multiplicity ignored. */
  function Sockets(s: seq<Conn>): set<Socket> {
    set c | c in s :: c.socket
  }

  /** The ids of a channel list. */
  function Ids(s: seq<Conn>): set<ConnId> {
    set c | c in s :: c.id
  }

  /** `i` is the position of the first entry of `s` holding socket `ws`. */
  predicate FirstMatch(s: seq<Conn>, ws: Socket, i: int) {
    0 <= i < |s| && s[i].socket == ws && forall j :: 0 <= j < i ==> s[j].socket != ws
  }

  /** The position of the first entry holding `ws`, or `|s|` when there is none. */
  function IndexOfSocket(s: seq<Conn>, ws: Socket): (i: nat)
    ensures i <= |s|
    ensures i < |s| ==> FirstMatch(s, ws, i)
    ensures i == |s| <==> ws !in Sockets(s)
  {
    if s == [] then 0
    else if s[0].socket == ws then 0
    else
      assert s == [s[0]] + s[1..];
      1 + IndexOfSocket(s[1..], ws)
  }

  /** The entries of `s` the predicate accepts, in their original order. */
  function Kept(s: seq<Conn>, keep: Conn -> bool): (r: seq<Conn>)
    ensures |r| <= |s|
    ensures forall x :: x in r <==> x in s && keep(x)
  {
    if s == [] then [] else (if keep(s[0]) then [s[0]] else []) + Kept(s[1..], keep)
  }

  /** The entries of `s` the predicate rejects, in their original order. */
  function Dropped(s: seq<Conn>, keep: Conn -> bool): (r: seq<Conn>)
    ensures |r| <= |s|
    ensures forall x :: x in r <==> x in s && !keep(x)
  {
    if s == [] then [] else (if keep(s[0]) then [] else [s[0]]) + Dropped(s[1..], keep)
  }

  // ---------------------------------------------------------------------
  // Operations
  // ---------------------------------------------------------------------

  /**
   * `startup`: a second call does nothing; the first replaces the whole
   * channel dictionary by the two empty channels and marks the manager
   * initialised.  The ledger is left as it is.  (The background ping task
   * it schedules is `PingSweep`, run by the caller.)
   */
  function Startup(m: Manager): (r: Manager)
    ensures m.initialized ==> r == m
    ensures !m.initialized ==>
              && r.initialized
              && r.channels == map[Metrics := [], Alerts := []]
              && r.order == [Metrics, Alerts]
              && r.lastPing == m.lastPing
  {
    if m.initialized then m
    else m.(channels := map[Metrics := [], Alerts := []], order := [Metrics, Alerts], initialized := true)
  }

  /** Why `connect` raised. */
  datatype ConnectError = AcceptFailed

  /**
   * `connect(websocket, channel)`: once the handshake (`accept`) succeeds,
   * creates the channel if it is unknown, appends `(id, ws)` at the end of
   * its list and stamps `last_ping[id] = now`.  A failed handshake re-raises
   * and leaves the manager untouched.
   */
  function Connect(m: Manager, ws: Socket, ch: string, id: ConnId, now: Time, accepted: bool)
    : (r: Result<Manager, ConnectError>)
    ensures !accepted <==> r.Err?
    ensures r.Ok? ==>
              var n := r.value;
              && ch in n.channels
              && n.channels[ch] == (if ch in m.channels then m.channels[ch] else []) + [Conn(id, ws)]
              && n.channels.Keys == m.channels.Keys + {ch}
              && (forall c :: c in m.channels && c != ch ==> n.channels[c] == m.channels[c])
              && n.order == (if ch in m.channels then m.order else m.order + [ch])
              && n.lastPing == m.lastPing[id := now]
              && n.initialized == m.initialized
  {
    if !accepted then Err(AcceptFailed)
    else
      var list := if ch in m.channels then m.channels[ch] else [];
      var order := if ch in m.channels then m.order else m.order + [ch];
      Ok(m.(channels := m.channels[ch := list + [Conn(id, ws)]], order := order, lastPing := m.lastPing[id := now]))
  }

  /** The list `s` without its first entry holding `ws` (unchanged when there is none). */
  function RemoveFirst(s: seq<Conn>, ws: Socket): (r: seq<Conn>)
    ensures ws !in Sockets(s) ==> r == s
    ensures ws in Sockets(s) ==> exists i :: FirstMatch(s, ws, i) && r == s[..i] + s[i + 1..]
  {
    var i := IndexOfSocket(s, ws);
    if i == |s| then s else s[..i] + s[i + 1..]
  }

  /**
   * `disconnect(websocket, channel)`: removes the first entry of the channel
   * holding `ws`, together with that entry's `last_ping` record.  Unknown
   * channel or absent socket: nothing changes.  No other channel is touched.
   */
  function Disconnect(m: Manager, ws: Socket, ch: string): (r: Manager)
    ensures ch !in m.channels || ws !in Sockets(m.channels[ch]) ==> r == m
    ensures r.channels.Keys == m.channels.Keys && r.order == m.order && r.initialized == m.initialized
    ensures forall c :: c in m.channels && c != ch ==> r.channels[c] == m.channels[c]
    ensures ch in m.channels && ws in Sockets(m.channels[ch]) ==>
              var s := m.channels[ch];
              exists i :: FirstMatch(s, ws, i)
                       && r.channels[ch] == s[..i] + s[i + 1..]
                       && r.lastPing == m.lastPing - {s[i].id}
  {
    if ch !in m.channels then m
    else
      var s := m.channels[ch];
      var i := IndexOfSocket(s, ws);
      if i == |s| then m
      else m.(channels := m.channels[ch := s[..i] + s[i + 1..]], lastPing := m.lastPing - {s[i].id})
  }

  /** `disconnect(ws, ch)` for each pair of `gone` in turn. */
  function DisconnectAll(m: Manager, gone: seq<Conn>, ch: string): (r: Manager)
    ensures r.channels.Keys == m.channels.Keys && r.order == m.order && r.initialized == m.initialized
    ensures forall c :: c in m.channels && c != ch ==> r.channels[c] == m.channels[c]
    decreases |gone|
  {
    if gone == [] then m else DisconnectAll(Disconnect(m, gone[0].socket, ch), gone[1..], ch)
  }

  /**
   * `_handle_connection_error(websocket)`: for every channel, in dictionary
   * order, drops the first entry holding `ws` (if any) through `disconnect`.
   */
  function HandleConnectionError(m: Manager, ws: Socket): (r: Manager)
    ensures r.channels.Keys == m.channels.Keys && r.order == m.order && r.initialized == m.initialized
  {
    DisconnectEach(m, m.order, ws)
  }

  function DisconnectEach(m: Manager, names: seq<string>, ws: Socket): (r: Manager)
    ensures r.channels.Keys == m.channels.Keys && r.order == m.order && r.initialized == m.initialized
    ensures forall c :: c in m.channels && c !in names ==> r.channels[c] == m.channels[c]
    decreases |names|
  {
    if names == [] then m else DisconnectEach(Disconnect(m, ws, names[0]), names[1..], ws)
  }

  /**
   * `send_personal_message(message, websocket)`: a delivered message
   * changes nothing; a failed one hands the socket to
   * `_handle_connection_error`.
   */
  function SendPersonalMessage(m: Manager, ws: Socket, delivered: bool): (r: Manager)
    ensures delivered ==> r == m
    ensures r.channels.Keys == m.channels.Keys && r.order == m.order
  {
    if delivered then m else HandleConnectionError(m, ws)
  }

  /** What `broadcast` leaves behind and which pairs got the message. */
  datatype Broadcasted = Broadcasted(manager: Manager, delivered: seq<Conn>)

  /**
   * `broadcast(message, channel)`: an unknown channel is left alone.
   * Otherwise every pair of a copy of the channel list is sent the message
   * once, in order; afterwards each pair whose send failed is passed to
   * `disconnect`.
   */
  function Broadcast(m: Manager, ch: string, sendOk: Conn -> bool): (r: Broadcasted)
    ensures ch !in m.channels ==> r == Broadcasted(m, [])
    ensures r.manager.channels.Keys == m.channels.Keys && r.manager.order == m.order
    ensures forall c :: c in m.channels && c != ch ==> r.manager.channels[c] == m.channels[c]
    ensures ch in m.channels ==> forall x :: x in r.delivered <==> x in m.channels[ch] && sendOk(x)
  {
    if ch !in m.channels then Broadcasted(m, [])
    else
      var snapshot := m.channels[ch];
      Broadcasted(DisconnectAll(m, Dropped(snapshot, sendOk), ch), Kept(snapshot, sendOk))
  }

  /** The ledger after one pass over a channel list, the pairs to evict and the pairs pinged. */
  datatype Scanned = Scanned(lastPing: map<ConnId, Time>, evicted: seq<Conn>, pinged: seq<Conn>)

  /** The eviction test of the ping loop: too old, or no ledger entry (the `KeyError` is caught). */
  predicate Stale(lastPing: map<ConnId, Time>, now: Time, c: Conn): (b: bool)
    ensures c.id !in lastPing ==> b
    ensures c.id in lastPing && lastPing[c.id] >= now ==> !b
  {
    c.id !in lastPing || now - lastPing[c.id] > EvictAfter
  }

  /**
   * The inner loop of `_ping_clients` over a copy of one channel list: a
   * stale pair is marked for eviction without a ping; any other is pinged,
   * and a successful ping stamps `last_ping[id] = now` while a failed one
   * marks the pair for eviction.
   */
  function Scan(s: seq<Conn>, lastPing: map<ConnId, Time>, now: Time, pingOk: Conn -> bool): (r: Scanned)
    ensures r.lastPing.Keys == lastPing.Keys
    ensures |r.evicted| <= |s| && |r.pinged| <= |s|
  {
    if s == [] then Scanned(lastPing, [], [])
    else
      var c := s[0];
      if Stale(lastPing, now, c) then
        var r := Scan(s[1..], lastPing, now, pingOk);
        r.(evicted := [c] + r.evicted)
      else if pingOk(c) then
        var r := Scan(s[1..], lastPing[c.id := now], now, pingOk);
        r.(pinged := [c] + r.pinged)
      else
        var r := Scan(s[1..], lastPing, now, pingOk);
        Scanned(r.lastPing, [c] + r.evicted, [c] + r.pinged)
  }

  /** What one ping sweep leaves behind and which pairs it pinged. */
  datatype Swept = Swept(manager: Manager, pinged: seq<Conn>)

  /** One channel of the sweep: scan a copy of its list, then `disconnect` every marked pair. */
  function SweepChannel(m: Manager, ch: string, now: Time, pingOk: Conn -> bool): (r: Swept)
    ensures r.manager.channels.Keys == m.channels.Keys && r.manager.order == m.order
    ensures r.manager.initialized == m.initialized
    ensures forall c :: c in m.channels && c != ch ==> r.manager.channels[c] == m.channels[c]
  {
    if ch !in m.channels then Swept(m, [])
    else
      var sc := Scan(m.channels[ch], m.lastPing, now, pingOk);
      Swept(DisconnectAll(m.(lastPing := sc.lastPing), sc.evicted, ch), sc.pinged)
  }

  function SweepEach(m: Manager, names: seq<string>, now: Time, pingOk: Conn -> bool): (r: Swept)
    ensures r.manager.channels.Keys == m.channels.Keys && r.manager.order == m.order
    ensures r.manager.initialized == m.initialized
    ensures forall c :: c in m.channels && c !in names ==> r.manager.channels[c] == m.channels[c]
    decreases |names|
  {
    if names == [] then Swept(m, [])
    else
      var first := SweepChannel(m, names[0], now, pingOk);
      var rest := SweepEach(first.manager, names[1..], now, pingOk);
      Swept(rest.manager, first.pinged + rest.pinged)
  }

  /**
   * One iteration of the `_ping_clients` loop at time `now`: every channel
   * in dictionary order, each on the registry as the previous channels left
   * it.
   */
  function PingSweep(m: Manager, now: Time, pingOk: Conn -> bool): (r: Swept)
    ensures r.manager.channels.Keys == m.channels.Keys && r.manager.order == m.order
    ensures r.manager.initialized == m.initialized
  {
    SweepEach(m, m.order, now, pingOk)
  }
}
