/**
  The reconnect bookkeeping of Service: endpoints move between the map of
  connected objects and the map of those to connect again. AddClient and
  AddServer, which are not modelled, supply new object ids as parameters.
 */
module Service {
  import opened Wrappers

  const EVT_ON_DATA := 0
  const EVT_ON_CONNECT_FAIL := 1
  const EVT_ON_LISTEN_FAIL := 2
  const EVT_ON_CONNECT := 3
  const EVT_ON_DISCONNECT := 4

  const TM_TYPE_NET_DATA := 0
  const TM_TYPE_CLI_CONNECT_OK := 0x10
  const TM_TYPE_CLI_START_FAILED := 0x11
  const TM_TYPE_CLI_CONNECT_FAILED := 0x12
  const TM_TYPE_CLI_ERROR := 0x19
  const TM_TYPE_SVR_START_FAILED := 0x21
  const TM_TYPE_SVR_ACCEPT_OK := 0x23
  const TM_TYPE_SYSTEM_STOP := 0x30
  const TM_TYPE_LINK_ERROR := 0x33

  const TCPOBJ_CLIENT := 0x100_0000

  datatype Endpoint = Endpoint(mark: nat, ip: string, port: int)
  datatype EndianInfo = EndianInfo(objid: int, at: Endpoint, retry: bool)
  datatype TcpMessage = TcpMessage(objid: int, kind: int, decodes: bool)
  datatype Event = Event(objid: int, mark: nat, code: int)

  /** GetObjType */
  predicate IsClient(objid: int) {
    objid / 0x100_0000 * 0x100_0000 == TCPOBJ_CLIENT
  }

  /** The messages after which a client is connected again. */
  predicate Breaks(kind: int) {
    kind in {TM_TYPE_CLI_START_FAILED, TM_TYPE_CLI_ERROR, TM_TYPE_CLI_CONNECT_FAILED, TM_TYPE_LINK_ERROR, TM_TYPE_SYSTEM_STOP}
  }

  /** The event code of a message. Some kinds set none: then the event, which is
      reused, keeps the code of the one before. */
  function Code(kind: int, before: int): int {
    if kind == TM_TYPE_NET_DATA then EVT_ON_DATA
    else if kind in {TM_TYPE_CLI_START_FAILED, TM_TYPE_CLI_ERROR, TM_TYPE_CLI_CONNECT_FAILED} then EVT_ON_CONNECT_FAIL
    else if kind == TM_TYPE_SVR_START_FAILED then EVT_ON_LISTEN_FAIL
    else if kind in {TM_TYPE_CLI_CONNECT_OK, TM_TYPE_SVR_ACCEPT_OK} then EVT_ON_CONNECT
    else if kind in {TM_TYPE_LINK_ERROR, TM_TYPE_SYSTEM_STOP} then EVT_ON_DISCONNECT
    else before
  }

  /** The kinds that do. */
  predicate SetsCode(kind: int) {
    kind == TM_TYPE_NET_DATA || kind == TM_TYPE_SVR_START_FAILED || Breaks(kind)
    || kind in {TM_TYPE_CLI_CONNECT_OK, TM_TYPE_SVR_ACCEPT_OK}
  }

  // ---------------------------------------------------------------- messages

  type Map = map<int, EndianInfo>

  /** endian_map_ and reconnect_map_ */
  datatype Maps = Maps(endian: Map, reconnect: Map)

  /** An event in the queue, the kind of the message it comes from, and whether it
      reports that a client to be connected again failed or was disconnected. */
  datatype Report = Report(event: Event, kind: int, lost: bool)

  predicate Loses(s: Maps, msg: TcpMessage) {
    msg.objid in s.endian && Breaks(msg.kind) && s.endian[msg.objid].retry && IsClient(msg.objid)
  }

  /** A client that is to be connected again moves to the other map. */
  function Lose(s: Maps, id: int): Maps {
    if IsClient(id) && id in s.endian && s.endian[id].retry && id !in s.reconnect then
      Maps(s.endian - {id}, s.reconnect[id := s.endian[id]])
    else s
  }

  /** What one message does to the maps. */
  function MapsAfter(s: Maps, msg: TcpMessage): Maps {
    if msg.objid in s.endian && Breaks(msg.kind) then Lose(s, msg.objid) else s
  }

  /** The code the event is left with, whether it is queued or not. */
  function CodeAfter(s: Maps, msg: TcpMessage, before: int): int {
    if msg.objid in s.endian then Code(msg.kind, before) else before
  }

  /** The event a message becomes: none for an unknown object or undecodable data. */
  function Reported(s: Maps, msg: TcpMessage, before: int): seq<Report> {
    if msg.objid in s.endian && (msg.kind == TM_TYPE_NET_DATA ==> msg.decodes) then
      [Report(Event(msg.objid, s.endian[msg.objid].at.mark, Code(msg.kind, before)), msg.kind, Loses(s, msg))]
    else []
  }

  /** One message after the other. */
  function Fetched(s: Maps, msgs: seq<TcpMessage>, before: int): (r: (Maps, seq<Report>))
    decreases |msgs|
  {
    if msgs == [] then (s, [])
    else
      var (s', rest) := Fetched(MapsAfter(s, msgs[0]), msgs[1..], CodeAfter(s, msgs[0], before));
      (s', Reported(s, msgs[0], before) + rest)
  }

  function Events(reports: seq<Report>): (es: seq<Event>)
    ensures |es| == |reports|
  {
    seq(|reports|, i requires 0 <= i < |reports| => reports[i].event)
  }

  /** std::map keeps its keys in order. */
  predicate AtMost(id: int, keys: set<int>) {
    forall x :: x in keys ==> id <= x
  }

  lemma {:induction false} LeastExists(keys: set<int>)
    requires keys != {}
    ensures exists id :: id in keys && AtMost(id, keys)
    decreases |keys|
  {
    SomeElement(keys);
    var id :| id in keys;
    var least := id;
    if keys - {id} != {} {
      LeastExists(keys - {id});
      var x :| x in keys - {id} && AtMost(x, keys - {id});
      least := if id < x then id else x;
    }
    forall y | y in keys ensures least <= y {
      assert y == id || y in keys - {id};
    }
    assert AtMost(least, keys);
  }

  ghost function Least(keys: set<int>): (id: int)
    requires keys != {}
    ensures id in keys && AtMost(id, keys)
  {
    LeastExists(keys);
    var id :| id in keys && AtMost(id, keys);
    id
  }

  /** insert: nothing happens when the key is there. */
  function With(m: Map, info: EndianInfo): Map {
    if info.objid in m then m else m[info.objid := info]
  }

  /** All that wait are connected again, in the order of their old ids. */
  ghost function Reconnected(s: Maps, ids: seq<int>): Maps
    decreases |ids|
  {
    if s.reconnect.Keys == {} || ids == [] then s
    else
      var id := Least(s.reconnect.Keys);
      Reconnected(Maps(With(s.endian, s.reconnect[id].(objid := ids[0])), s.reconnect - {id}), ids[1..])
  }

  // ---------------------------------------------------------------- calls

  /** Calls of AddConnector, AddListener and FetchMsg; the ids are what AddClient
      and AddServer answer, now is the time. */
  datatype Call =
    | Connect(at: Endpoint, retry: bool, id: int)
    | Listen(at: Endpoint, retry: bool, id: int)
    | Fetch(msgs: seq<TcpMessage>, now: int, ids: seq<int>)

  /** Both maps and the time of the next reconnect. */
  datatype State = State(maps: Maps, next: int)

  /** What a call does, and the events it queues. */
  ghost function Served(s: State, c: Call): (State, seq<Report>) {
    match c
    case Connect(at, retry, id) => (s.(maps := s.maps.(endian := With(s.maps.endian, EndianInfo(id, at, retry)))), [])
    case Listen(at, retry, id) => (s.(maps := s.maps.(endian := With(s.maps.endian, EndianInfo(id, at, retry)))), [])
    case Fetch(msgs, now, ids) =>
      var (maps, reports) := Fetched(s.maps, msgs, EVT_ON_DATA);
      (if now > s.next then State(Reconnected(maps, ids), now + 2) else State(maps, s.next), reports)
  }

  ghost function Run(s: State, calls: seq<Call>): (State, seq<Report>)
    decreases |calls|
  {
    if calls == [] then (s, [])
    else
      var (s1, first) := Served(s, calls[0]);
      var (s2, rest) := Run(s1, calls[1..]);
      (s2, first + rest)
  }

  // ---------------------------------------------------------------- the invariant

  /** Retrying endpoint k is where object id cur[k] says. */
  ghost predicate At(m: Map, id: int, at: Endpoint) {
    id in m && m[id].at == at && m[id].retry && IsClient(id)
  }

  /** What is known about the object ids: those used so far and those of retrying
      clients that have failed; and the retrying endpoints with the id each has at
      present. */
  datatype Book = Book(used: set<int>, failed: set<int>, ends: seq<Endpoint>, cur: seq<int>)

  /** Each retrying endpoint is in exactly one of the maps, under one id, and
      both maps hold no other retrying client; a failed id is gone for good. */
  ghost predicate Consistent(s: Maps, b: Book) {
    var (e, r) := (s.endian, s.reconnect);
    && e.Keys !! r.Keys && e.Keys + r.Keys <= b.used && b.failed <= b.used && b.failed !! e.Keys
    && |b.cur| == |b.ends| && Distinct(b.cur)
    && (forall k :: 0 <= k < |b.cur| ==> At(e, b.cur[k], b.ends[k]) || At(r, b.cur[k], b.ends[k]))
    && (forall id :: id in e && e[id].retry && IsClient(id) ==> id in b.cur)
    && (forall id :: id in r ==> id in b.cur)
  }

  /** The book with a new object. */
  ghost function WithObject(b: Book, info: EndianInfo): Book {
    if info.retry && IsClient(info.objid) then
      Book(b.used + {info.objid}, b.failed, b.ends + [info.at], b.cur + [info.objid])
    else b.(used := b.used + {info.objid})
  }

  /** A new object: a retrying endpoint is added once, under its id. */
  lemma Added(s: Maps, b: Book, info: EndianInfo)
    requires Consistent(s, b) && info.objid !in b.used
    ensures info.objid !in s.endian && Consistent(s.(endian := With(s.endian, info)), WithObject(b, info))
  {
    var id := info.objid;
    assert id !in s.endian && id !in s.reconnect && id !in b.cur;
  }

  /** An id that is in the map keeps its entry. */
  lemma KnownId(m: Map, info: EndianInfo)
    requires info.objid in m
    ensures With(m, info) == m
  {
  }

  /** A retrying client fails. */
  lemma Broken(s: Maps, b: Book, id: int)
    requires Consistent(s, b) && id in s.endian && s.endian[id].retry && IsClient(id)
    ensures Lose(s, id) == Maps(s.endian - {id}, s.reconnect[id := s.endian[id]])
    ensures Consistent(Lose(s, id), b.(failed := b.failed + {id}))
  {
  }

  /** The clients reported lost. */
  ghost function LostIds(reports: seq<Report>): set<int> {
    set i | 0 <= i < |reports| && reports[i].lost :: reports[i].event.objid
  }

  // ---------------------------------------------------------------- events

  /** The maps when the turn of message i comes. */
  ghost function MapsAt(s: Maps, msgs: seq<TcpMessage>, i: nat): Maps
    requires i <= |msgs|
    decreases i
  {
    if i == 0 then s else MapsAt(MapsAfter(s, msgs[0]), msgs[1..], i - 1)
  }

  /** A message is heard when its object is known and, for data, it decodes. */
  predicate Hears(s: Maps, msg: TcpMessage) {
    msg.objid in s.endian && (msg.kind != TM_TYPE_NET_DATA || msg.decodes)
  }

  /** The event of a message. */
  ghost predicate IsEventOf(r: Report, s: Maps, msg: TcpMessage) {
    && msg.objid in s.endian && r.event.objid == msg.objid && r.event.mark == s.endian[msg.objid].at.mark && r.kind == msg.kind
    && (msg.kind == TM_TYPE_NET_DATA ==> r.event.code == EVT_ON_DATA)
    && (msg.kind in {TM_TYPE_CLI_START_FAILED, TM_TYPE_CLI_ERROR, TM_TYPE_CLI_CONNECT_FAILED} ==> r.event.code == EVT_ON_CONNECT_FAIL)
    && (msg.kind == TM_TYPE_SVR_START_FAILED ==> r.event.code == EVT_ON_LISTEN_FAIL)
    && (msg.kind in {TM_TYPE_CLI_CONNECT_OK, TM_TYPE_SVR_ACCEPT_OK} ==> r.event.code == EVT_ON_CONNECT)
    && (msg.kind in {TM_TYPE_LINK_ERROR, TM_TYPE_SYSTEM_STOP} ==> r.event.code == EVT_ON_DISCONNECT)
    && (r.lost <==> r.event.code in {EVT_ON_CONNECT_FAIL, EVT_ON_DISCONNECT} && SetsCode(msg.kind)
                    && s.endian[msg.objid].retry && IsClient(msg.objid))
  }

  /** A message that is heard gives one event, any other none. One of a kind that
      sets no code leaves the one before. */
  lemma MessageEvent(s: Maps, msg: TcpMessage, before: int)
    ensures Hears(s, msg) ==> |Reported(s, msg, before)| == 1 && IsEventOf(Reported(s, msg, before)[0], s, msg)
    ensures !Hears(s, msg) ==> Reported(s, msg, before) == []
    ensures Hears(s, msg) && !SetsCode(msg.kind) ==> Reported(s, msg, before)[0].event.code == before
    ensures CodeAfter(s, msg, before) ==
      if Hears(s, msg) then Reported(s, msg, before)[0].event.code else if msg.objid in s.endian then EVT_ON_DATA else before
  {
  }

  /** The places of the messages that are heard. */
  ghost function Heard(s: Maps, msgs: seq<TcpMessage>): (h: seq<nat>)
    ensures forall i, j :: 0 <= i < j < |h| ==> h[i] < h[j]
    ensures forall i: nat :: i in h <==> i < |msgs| && Hears(MapsAt(s, msgs, i), msgs[i])
    ensures forall j :: 0 <= j < |h| ==> h[j] < |msgs|
    decreases |msgs|
  {
    if msgs == [] then []
    else
      var rest := Heard(MapsAfter(s, msgs[0]), msgs[1..]);
      var later := seq(|rest|, j requires 0 <= j < |rest| => rest[j] + 1);
      HeardLater(s, msgs, rest, later);
      (if Hears(s, msgs[0]) then [0] else []) + later
  }

  lemma HeardLater(s: Maps, msgs: seq<TcpMessage>, rest: seq<nat>, later: seq<nat>)
    requires msgs != [] && |later| == |rest| && forall j :: 0 <= j < |rest| ==> later[j] == rest[j] + 1
    requires forall i: nat :: i in rest <==>
      i < |msgs[1..]| && Hears(MapsAt(MapsAfter(s, msgs[0]), msgs[1..], i), msgs[1..][i])
    ensures forall i: nat :: i in later <==> 0 < i < |msgs| && Hears(MapsAt(s, msgs, i), msgs[i])
  {
    forall i: nat ensures i in later <==> 0 < i < |msgs| && Hears(MapsAt(s, msgs, i), msgs[i]) {
      if i in later {
        var j :| 0 <= j < |later| && later[j] == i;
        assert rest[j] in rest;
      }
      if 0 < i < |msgs| && Hears(MapsAt(s, msgs, i), msgs[i]) {
        assert i - 1 in rest;
        var j :| 0 <= j < |rest| && rest[j] == i - 1;
        assert later[j] == i;
      }
    }
  }

  /** Over any messages the queue has exactly one event for each message that is
      heard when its turn comes, in the order of the messages. */
  lemma {:induction false} QueueIs(s: Maps, msgs: seq<TcpMessage>, before: int)
    ensures var (h, reports) := (Heard(s, msgs), Fetched(s, msgs, before).1);
      |reports| == |h| && forall j :: 0 <= j < |h| ==> IsEventOf(reports[j], MapsAt(s, msgs, h[j]), msgs[h[j]])
    decreases |msgs|
  {
    hide IsEventOf, Hears, Reported, Heard, Fetched, MapsAt, MapsAfter, CodeAfter;
    if msgs == [] {
      NoneHeard(s, before);
    } else {
      var s1, before1 := MapsAfter(s, msgs[0]), CodeAfter(s, msgs[0], before);
      MessageEvent(s, msgs[0], before);
      QueueIs(s1, msgs[1..], before1);
      HeardNext(s, msgs);
      FetchedFirst(s, msgs, before);
      var first, rest := Reported(s, msgs[0], before), Fetched(s1, msgs[1..], before1).1;
      var h := Heard(s, msgs);
      forall j | 0 <= j < |h| ensures IsEventOf((first + rest)[j], MapsAt(s, msgs, h[j]), msgs[h[j]]) {
        MapsLater(s, msgs, h[j]);
      }
    }
  }

  lemma NoneHeard(s: Maps, before: int)
    ensures Heard(s, []) == [] && Fetched(s, [], before).1 == []
  {
  }

  lemma MapsLater(s: Maps, msgs: seq<TcpMessage>, i: nat)
    requires i < |msgs|
    ensures MapsAt(s, msgs, i) == if i == 0 then s else MapsAt(MapsAfter(s, msgs[0]), msgs[1..], i - 1)
  {
  }

  lemma HeardNext(s: Maps, msgs: seq<TcpMessage>)
    requires msgs != []
    ensures var (h, later, n) := (Heard(s, msgs), Heard(MapsAfter(s, msgs[0]), msgs[1..]), if Hears(s, msgs[0]) then 1 else 0);
      |h| == n + |later| && (n == 1 ==> h[0] == 0) && forall j :: n <= j < |h| ==> h[j] == later[j - n] + 1
  {
    hide Hears, MapsAfter, MapsAt;
  }

  lemma FetchedFirst(s: Maps, msgs: seq<TcpMessage>, before: int)
    requires msgs != []
    ensures Fetched(s, msgs, before).1 ==
      Reported(s, msgs[0], before) + Fetched(MapsAfter(s, msgs[0]), msgs[1..], CodeAfter(s, msgs[0], before)).1
  {
  }

  /** Among events from kinds that set a code, the codes tell the losses. */
  lemma CodesTell(s: Maps, msg: TcpMessage, before: int)
    ensures forall r :: r in Reported(s, msg, before) && SetsCode(r.kind) ==>
      (r.event.code in {EVT_ON_CONNECT_FAIL, EVT_ON_DISCONNECT} <==> Breaks(r.kind))
  {
  }

  lemma {:induction false} CodesTellAll(s: Maps, msgs: seq<TcpMessage>, before: int)
    ensures forall r :: r in Fetched(s, msgs, before).1 && SetsCode(r.kind) ==>
      (r.event.code in {EVT_ON_CONNECT_FAIL, EVT_ON_DISCONNECT} <==> Breaks(r.kind))
    decreases |msgs|
  {
    if msgs != [] {
      CodesTell(s, msgs[0], before);
      CodesTellAll(MapsAfter(s, msgs[0]), msgs[1..], CodeAfter(s, msgs[0], before));
    }
  }

  /** After an event that reports the loss of a retrying client no event carries its id. */
  ghost predicate LostLast(reports: seq<Report>) {
    forall i, j :: 0 <= i < j < |reports| && reports[i].lost ==> reports[j].event.objid != reports[i].event.objid
  }

  ghost predicate NoneOf(reports: seq<Report>, ids: set<int>) {
    forall i :: 0 <= i < |reports| ==> reports[i].event.objid !in ids
  }

  /** The codes tell the losses. */
  ghost predicate CodesRight(reports: seq<Report>) {
    forall i :: 0 <= i < |reports| && SetsCode(reports[i].kind) ==>
      (reports[i].event.code in {EVT_ON_CONNECT_FAIL, EVT_ON_DISCONNECT} <==> Breaks(reports[i].kind))
  }

  /** Any messages: each retrying endpoint stays in exactly one map, a client
      that was lost before gets no event, one that is lost now no further one. */
  lemma {:induction false} FetchedKeeps(s: Maps, b: Book, msgs: seq<TcpMessage>, before: int)
    requires Consistent(s, b)
    ensures var (s', reports) := Fetched(s, msgs, before);
      && Consistent(s', b.(failed := b.failed + LostIds(reports)))
      && NoneOf(reports, b.failed) && LostLast(reports)
      && (forall i :: 0 <= i < |reports| ==> reports[i].event.objid in b.used)
    decreases |msgs|
  {
    hide Consistent;
    if msgs == [] {
      assert LostIds([]) == {};
      assert b.(failed := b.failed + {}) == b;
    } else {
      var msg := msgs[0];
      var s1, first := MapsAfter(s, msg), Reported(s, msg, before);
      var b1 := b.(failed := b.failed + LostIds(first));
      MessageKeeps(s, b, msg, before);
      FetchedKeeps(s1, b1, msgs[1..], CodeAfter(s, msg, before));
      var rest := Fetched(s1, msgs[1..], CodeAfter(s, msg, before)).1;
      LostJoined(first, rest);
      assert b1.failed + LostIds(rest) == b.failed + LostIds(first + rest);
    }
  }

  lemma MessageKeeps(s: Maps, b: Book, msg: TcpMessage, before: int)
    requires Consistent(s, b)
    ensures var first := Reported(s, msg, before);
      && Consistent(MapsAfter(s, msg), b.(failed := b.failed + LostIds(first)))
      && NoneOf(first, b.failed) && |first| <= 1 && forall i :: 0 <= i < |first| ==> first[i].event.objid in b.used
  {
    var first, id := Reported(s, msg, before), msg.objid;
    if Loses(s, msg) {
      Broken(s, b, id);
      assert first[0].lost;
      assert LostIds(first) == {id};
    } else {
      assert LostIds(first) == {};
      assert b.(failed := b.failed + {}) == b;
    }
  }

  lemma LostJoined(first: seq<Report>, rest: seq<Report>)
    requires LostLast(first) && LostLast(rest) && NoneOf(rest, LostIds(first))
    ensures LostLast(first + rest)
    ensures LostIds(first + rest) == LostIds(first) + LostIds(rest)
  {
    var all := first + rest;
    forall i, j | 0 <= i < j < |all| && all[i].lost ensures all[j].event.objid != all[i].event.objid {
      assert i < |first| <= j ==> all[i] == first[i] && all[j] == rest[j - |first|];
      assert |first| <= i ==> all[i] == rest[i - |first|] && all[j] == rest[j - |first|];
    }
    forall id | id in LostIds(first) + LostIds(rest) ensures id in LostIds(all) {
      if id in LostIds(first) {
        var i :| 0 <= i < |first| && first[i].lost && first[i].event.objid == id;
        assert all[i] == first[i];
      } else {
        var i :| 0 <= i < |rest| && rest[i].lost && rest[i].event.objid == id;
        assert all[|first| + i] == rest[i];
      }
    }
    forall id | id in LostIds(all) ensures id in LostIds(first) + LostIds(rest) {
      var i :| 0 <= i < |all| && all[i].lost && all[i].event.objid == id;
      assert all[i] == if i < |first| then first[i] else rest[i - |first|];
    }
  }

  /** The book once the endpoint at k has a new id. */
  ghost function Renewed(b: Book, k: nat, newId: int): Book
    requires k < |b.cur|
  {
    b.(used := b.used + {newId}, cur := b.cur[k := newId])
  }

  /** One turn of RunReConnect: the entry under `id` is connected as `newId`. */
  lemma Connected(s: Maps, b: Book, id: int, newId: int, k: nat)
    requires Consistent(s, b) && id in s.reconnect && newId !in b.used && IsClient(newId)
    requires k < |b.cur| && b.cur[k] == id
    ensures newId !in s.endian && s.reconnect[id].retry
    ensures Consistent(Maps(With(s.endian, s.reconnect[id].(objid := newId)), s.reconnect - {id}), Renewed(b, k, newId))
  {
    var e', r' := s.endian[newId := s.reconnect[id].(objid := newId)], s.reconnect - {id};
    var cur' := b.cur[k := newId];
    assert newId !in b.cur;
    CurKept(b.cur, k, newId);
    assert forall x :: x in e' && x != newId ==> x in s.endian;
    assert forall j :: 0 <= j < |cur'| && j != k ==> cur'[j] != id;
  }

  /** Replacing one id by a new one keeps the others. */
  lemma CurKept(cur: seq<int>, k: nat, newId: int)
    requires k < |cur| && Distinct(cur) && newId !in cur
    ensures var cur' := cur[k := newId];
      Distinct(cur') && newId in cur' && forall x :: x in cur && x != cur[k] ==> x in cur'
  {
    var cur' := cur[k := newId];
    assert cur'[k] == newId;
    forall x | x in cur && x != cur[k] ensures x in cur' {
      var j :| 0 <= j < |cur| && cur[j] == x;
      assert cur'[j] == x;
    }
  }

  lemma NoElement(s: set<int>)
    requires forall x :: x !in s
    ensures s == {}
  {
    var none: set<int> := {};
    assert forall x :: x in s <==> x in none;
    assert s == none;
  }

  lemma SomeElement(s: set<int>)
    requires s != {}
    ensures exists x :: x in s
  {
    if !(exists x :: x in s) {
      NoElement(s);
      assert false;
    }
  }

  /** The first entry of a map. */
  method LeastKey(m: Map) returns (id: int)
    requires m.Keys != {}
    ensures id == Least(m.Keys) && |m - {id}| == |m| - 1
  {
    LeastExists(m.Keys);
    id :| id in m.Keys && AtMost(id, m.Keys);
    assert |m| == |m - {id}| + 1;
  }

  lemma Holder(s: Maps, b: Book, id: int) returns (k: nat)
    requires Consistent(s, b) && id in s.reconnect
    ensures k < |b.cur| && b.cur[k] == id
  {
    k :| 0 <= k < |b.cur| && b.cur[k] == id;
  }

  // ---------------------------------------------------------------- the service

  class Service {
    var endian: Map              // endian_map_
    var reconnect: Map           // reconnect_map_
    var nextReconnTime: int      // next_reconn_time_

    function Both(): Maps
      reads this`endian, this`reconnect
    {
      Maps(endian, reconnect)
    }

    ghost function Now(): State
      reads this`endian, this`reconnect, this`nextReconnTime
    {
      State(Both(), nextReconnTime)
    }

    constructor (now: int)
      ensures Now() == State(Maps(map[], map[]), now)
    {
      endian, reconnect, nextReconnTime := map[], map[], now;
    }

    /** retry_ of a listener is left as it happens to be. */
    method AddListener(at: Endpoint, retry: bool, objid: int) returns (ok: bool)
      modifies this`endian
      ensures Now() == Served(old(Now()), Listen(at, retry, objid)).0 && ok == (objid !in old(endian))
    {
      ok := Insert(at, retry, objid);
    }

    /** AddConnector, as clients call it. */
    method AddConnector(at: Endpoint, retry: bool, objid: int) returns (ok: bool)
      modifies this`endian
      ensures Now() == Served(old(Now()), Connect(at, retry, objid)).0 && ok == (objid !in old(endian))
    {
      ok := Insert(at, retry, objid);
    }

    method Insert(at: Endpoint, retry: bool, objid: int) returns (ok: bool)
      modifies this`endian
      ensures ok == (objid !in old(endian))
      ensures endian == With(old(endian), EndianInfo(objid, at, retry))
    {
      ok := objid !in endian;
      endian := if ok then endian[objid := EndianInfo(objid, at, retry)] else endian;
    }

    method AddReConnect(objid: int) returns (moved: bool)
      modifies this`endian, this`reconnect
      ensures Both() == Lose(old(Both()), objid) && (moved <==> Both() != old(Both()))
    {
      if IsClient(objid) {
        if objid in endian {
          var info := endian[objid];
          if info.retry {
            if objid !in reconnect {
              reconnect := reconnect[objid := info];
              endian := endian - {objid};
              assert objid in old(endian) && objid !in endian;
              return true;
            }
          }
        }
      }
      return false;
    }

    /** TransMsg; `before` is the code the reused event still has. */
    method TransMsg(msg: TcpMessage, before: int) returns (ok: bool, event: Event)
      modifies this`endian, this`reconnect
      ensures Both() == MapsAfter(old(Both()), msg) && event.code == CodeAfter(old(Both()), msg, before)
      ensures Reported(old(Both()), msg, before) == if ok then [Report(event, msg.kind, Loses(old(Both()), msg))] else []
    {
      event := Event(msg.objid, 0, before);
      if msg.objid !in endian {
        return false, event;
      }
      event := event.(mark := endian[msg.objid].at.mark, code := Code(msg.kind, before));
      if msg.kind == TM_TYPE_NET_DATA {
        if !msg.decodes {
          return false, event;
        }
      } else if Breaks(msg.kind) {
        var moved := AddReConnect(msg.objid);
      }
      return true, event;
    }

    /** FetchMsg: the events are those of the messages, one after the other. */
    method FetchMsg(msgs: seq<TcpMessage>, now: int, ids: seq<int>) returns (queue: seq<Event>)
      requires |ids| >= |reconnect| + |msgs|
      modifies this
      ensures Now() == Served(old(Now()), Fetch(msgs, now, ids)).0
      ensures queue == Events(Served(old(Now()), Fetch(msgs, now, ids)).1)
    {
      queue := TransAll(msgs);
      RunReConnect(now, ids);
    }

    /** The loop over the messages. */
    method TransAll(msgs: seq<TcpMessage>) returns (queue: seq<Event>)
      modifies this`endian, this`reconnect
      ensures var (s, reports) := Fetched(old(Both()), msgs, EVT_ON_DATA); Both() == s && queue == Events(reports)
      ensures |reconnect| <= |old(reconnect)| + |msgs|
    {
      hide Fetched, MapsAfter, CodeAfter, Reported, Events;
      NoEvents();
      queue := [];
      ghost var reports := [];
      ghost var all := Fetched(Both(), msgs, EVT_ON_DATA);
      var code := EVT_ON_DATA;
      assert msgs[0..] == msgs;
      for n := 0 to |msgs|
        invariant queue == Events(reports) && |reconnect| <= |old(reconnect)| + n
        invariant var rest := Fetched(Both(), msgs[n..], code); all.0 == rest.0 && all.1 == reports + rest.1
      {
        FetchedNext(Both(), msgs, n, code);
        OneMore(Both(), msgs[n]);
        ghost var s0, more := Both(), Reported(Both(), msgs[n], code);
        var ok, event := TransMsg(msgs[n], code);
        code := event.code;
        if ok {
          queue := queue + [event];
        }
        MoreEvents(reports, event, msgs[n].kind, Loses(s0, msgs[n]));
        assert reports + [] == reports;
        assert reports + (more + Fetched(Both(), msgs[n + 1..], code).1) == reports + more + Fetched(Both(), msgs[n + 1..], code).1;
        reports := reports + more;
      }
      FetchedEnd(Both(), msgs[|msgs|..], code);
    }

    /** RunReConnect: every endpoint that waits is connected again, under a new id. */
    method RunReConnect(now: int, ids: seq<int>)
      requires |ids| >= |reconnect|
      modifies this`endian, this`reconnect, this`nextReconnTime
      ensures Now() == if now > old(nextReconnTime) then State(Reconnected(old(Both()), ids), now + 2) else old(Now())
    {
      if now > nextReconnTime {
        nextReconnTime := now + 2;
        var todo, i := reconnect, 0;
        assert ids[0..] == ids;
        while todo.Keys != {}
          invariant i + |todo| <= |ids| && nextReconnTime == now + 2
          invariant Reconnected(Maps(endian, todo), ids[i..]) == Reconnected(old(Both()), ids)
          decreases |todo|
        {
          var id := LeastKey(todo);
          var info := todo[id];
          assert ids[i..][1..] == ids[i + 1..];
          var ok := Insert(info.at, info.retry, ids[i]);
          todo := todo - {id};
          i := i + 1;
        }
        assert todo == map[] && Reconnected(Maps(endian, todo), ids[i..]) == Maps(endian, todo);
        reconnect := map[];
      }
    }
  }

  lemma FetchedNext(s: Maps, msgs: seq<TcpMessage>, n: nat, before: int)
    requires n < |msgs|
    ensures var (r, r') := (Fetched(s, msgs[n..], before),
                            Fetched(MapsAfter(s, msgs[n]), msgs[n + 1..], CodeAfter(s, msgs[n], before)));
      r == (r'.0, Reported(s, msgs[n], before) + r'.1)
  {
    assert msgs[n..][1..] == msgs[n + 1..];
  }

  lemma NoEvents()
    ensures Events([]) == []
  {
  }

  lemma MoreEvents(reports: seq<Report>, event: Event, kind: int, lost: bool)
    ensures Events(reports + [Report(event, kind, lost)]) == Events(reports) + [event]
  {
  }

  lemma FetchedEnd(s: Maps, msgs: seq<TcpMessage>, before: int)
    requires msgs == []
    ensures Fetched(s, msgs, before) == (s, [])
  {
  }

  lemma OneMore(s: Maps, msg: TcpMessage)
    ensures |MapsAfter(s, msg).reconnect| <= |s.reconnect| + 1
  {
    var id := msg.objid;
    if id in s.endian {
      assert s.reconnect[id := s.endian[id]].Keys == s.reconnect.Keys + {id};
    }
  }

  // ---------------------------------------------------------------- runs

  function Ids(c: Call): seq<int> {
    if c.Fetch? then c.ids else [c.id]
  }

  function AllIds(calls: seq<Call>): seq<int> {
    if calls == [] then [] else Ids(calls[0]) + AllIds(calls[1..])
  }

  function Received(c: Call): nat {
    if c.Fetch? then |c.msgs| else 0
  }

  function Messages(calls: seq<Call>): nat {
    if calls == [] then 0 else Received(calls[0]) + Messages(calls[1..])
  }

  /** The retrying endpoints among the calls. */
  function RetriedBy(c: Call): seq<Endpoint> {
    if c.Connect? && c.retry then [c.at] else []
  }

  function Retried(calls: seq<Call>): seq<Endpoint> {
    if calls == [] then [] else RetriedBy(calls[0]) + Retried(calls[1..])
  }

  /** AddClient and AddServer answer with ids of their type, each once, and
      enough of them: `most` endpoints may wait at a time. */
  ghost predicate Supplied(calls: seq<Call>, used: set<int>, most: nat) {
    && Distinct(AllIds(calls)) && (forall id :: id in AllIds(calls) ==> id !in used)
    && forall c :: c in calls ==> RightIds(c, most)
  }

  ghost predicate RightIds(c: Call, most: nat) {
    match c
    case Connect(_, _, id) => IsClient(id)
    case Listen(_, _, id) => !IsClient(id)
    case Fetch(_, _, ids) => |ids| >= most && forall i :: 0 <= i < |ids| ==> IsClient(ids[i])
  }

  /** The ids of one call are new, of the right type and enough. */
  ghost predicate CallSupplied(c: Call, used: set<int>, most: nat) {
    Distinct(Ids(c)) && (forall id :: id in Ids(c) ==> id !in used) && RightIds(c, most)
  }

  /** Ids are never taken back, and all that become known are among `ids`. */
  ghost predicate NewFrom(b: Book, b': Book, ids: seq<int>) {
    b.used <= b'.used && forall id :: id in b'.used && id !in b.used ==> id in ids
  }

  lemma SuppliedNext(calls: seq<Call>, b: Book, most: nat)
    requires calls != [] && Supplied(calls, b.used, most)
    ensures CallSupplied(calls[0], b.used, most)
  {
    var first, all := Ids(calls[0]), AllIds(calls);
    assert forall i :: 0 <= i < |first| ==> first[i] == all[i];
    assert forall id :: id in first ==> id in all;
    assert calls[0] in calls;
  }

  lemma NotBoth(s: seq<int>, t: seq<int>, id: int)
    requires Distinct(s + t) && id in t
    ensures id !in s
  {
    var j :| 0 <= j < |t| && t[j] == id;
    forall i | 0 <= i < |s| ensures s[i] != id {
      assert (s + t)[i] == s[i] && (s + t)[|s| + j] == t[j];
    }
  }

  lemma SuppliedLater(calls: seq<Call>, b: Book, b': Book, most: nat, fewer: nat)
    requires calls != [] && Supplied(calls, b.used, most) && NewFrom(b, b', Ids(calls[0])) && fewer <= most
    ensures Supplied(calls[1..], b'.used, fewer)
  {
    var first, rest := Ids(calls[0]), AllIds(calls[1..]);
    var all := first + rest;
    assert AllIds(calls) == all;
    assert forall i :: 0 <= i < |rest| ==> rest[i] == all[|first| + i];
    forall id | id in rest ensures id !in b'.used {
      var j :| 0 <= j < |rest| && rest[j] == id;
      assert all[|first| + j] in all;
      NotBoth(first, rest, id);
    }
    forall c | c in calls[1..] ensures RightIds(c, fewer) {
      assert c in calls;
    }
  }

  /** Connecting again loses no endpoint: each that waited is connected under a new
      id, and none waits any more. */
  lemma {:induction false} ReconnectedKeeps(s: Maps, b: Book, ids: seq<int>) returns (b': Book)
    requires Consistent(s, b) && |ids| >= |s.reconnect|
    requires Distinct(ids) && forall i :: 0 <= i < |ids| ==> ids[i] !in b.used && IsClient(ids[i])
    ensures Consistent(Reconnected(s, ids), b') && Reconnected(s, ids).reconnect == map[]
    ensures b'.ends == b.ends && b'.failed == b.failed && NewFrom(b, b', ids)
    decreases |ids|
  {
    hide Consistent;
    if s.reconnect.Keys == {} {
      assert s.reconnect == map[];
      return b;
    }
    var id := Least(s.reconnect.Keys);
    assert |s.reconnect| == |s.reconnect - {id}| + 1;
    var k := Holder(s, b, id);
    Connected(s, b, id, ids[0], k);
    var b1 := Renewed(b, k, ids[0]);
    var s1 := Maps(With(s.endian, s.reconnect[id].(objid := ids[0])), s.reconnect - {id});
    assert forall i :: 0 <= i < |ids[1..]| ==> ids[1..][i] == ids[i + 1];
    b' := ReconnectedKeeps(s1, b1, ids[1..]);
    assert forall x :: x in ids[1..] ==> x in ids;
  }

  /** Reconnecting is due two seconds after the last time; then none waits any more.
      Otherwise the messages alone change the maps. */
  lemma FetchTiming(s: State, msgs: seq<TcpMessage>, now: int, ids: seq<int>)
    requires |ids| >= |s.maps.reconnect| + |msgs|
    ensures var s' := Served(s, Fetch(msgs, now, ids)).0;
      && s'.next == (if now > s.next then now + 2 else s.next)
      && (now > s.next ==> s'.maps.reconnect == map[])
      && (now <= s.next ==> s'.maps == MapsAt(s.maps, msgs, |msgs|))
  {
    FetchedMore(s.maps, msgs, EVT_ON_DATA);
    FetchedMaps(s.maps, msgs, EVT_ON_DATA);
    if now > s.next {
      NoneWaits(Fetched(s.maps, msgs, EVT_ON_DATA).0, ids);
    }
  }

  lemma {:induction false} FetchedMaps(s: Maps, msgs: seq<TcpMessage>, before: int)
    ensures Fetched(s, msgs, before).0 == MapsAt(s, msgs, |msgs|)
    decreases |msgs|
  {
    if msgs != [] {
      FetchedMaps(MapsAfter(s, msgs[0]), msgs[1..], CodeAfter(s, msgs[0], before));
    }
  }

  lemma {:induction false} NoneWaits(s: Maps, ids: seq<int>)
    requires |ids| >= |s.reconnect|
    ensures Reconnected(s, ids).reconnect == map[]
    decreases |ids|
  {
    if s.reconnect.Keys == {} {
      assert s.reconnect == map[];
    } else {
      var id := Least(s.reconnect.Keys);
      assert |s.reconnect| == |s.reconnect - {id}| + 1;
      NoneWaits(Maps(With(s.endian, s.reconnect[id].(objid := ids[0])), s.reconnect - {id}), ids[1..]);
    }
  }

  lemma {:induction false} ReconnectedGrows(s: Maps, ids: seq<int>)
    ensures forall x :: x in s.endian ==> x in Reconnected(s, ids).endian && Reconnected(s, ids).endian[x] == s.endian[x]
    decreases |ids|
  {
    if s.reconnect.Keys != {} && ids != [] {
      var id := Least(s.reconnect.Keys);
      ReconnectedGrows(Maps(With(s.endian, s.reconnect[id].(objid := ids[0])), s.reconnect - {id}), ids[1..]);
    }
  }

  /** The first new id goes to the endpoint with the least old one, with the same
      address, mark and wish to retry. */
  lemma FirstReconnected(s: Maps, ids: seq<int>, id: int)
    requires id in s.reconnect && ids != [] && ids[0] !in s.endian && forall x :: x in s.reconnect ==> id <= x
    ensures var e := Reconnected(s, ids).endian; ids[0] in e && e[ids[0]] == EndianInfo(ids[0], s.reconnect[id].at, s.reconnect[id].retry)
  {
    assert Least(s.reconnect.Keys) == id;
    ReconnectedGrows(Maps(With(s.endian, s.reconnect[id].(objid := ids[0])), s.reconnect - {id}), ids[1..]);
  }

  /** What one call leaves behind of its events. */
  ghost predicate Told(b: Book, b': Book, reports: seq<Report>) {
    && LostLast(reports) && CodesRight(reports) && NoneOf(reports, b.failed)
    && b.failed + LostIds(reports) <= b'.failed
  }

  /** One call keeps every retrying endpoint in exactly one map. */
  lemma ServedKeeps(s: State, b: Book, c: Call, most: nat) returns (b': Book)
    requires Consistent(s.maps, b) && CallSupplied(c, b.used, most) && |s.maps.reconnect| + Received(c) <= most
    ensures var (s', reports) := Served(s, c);
      Consistent(s'.maps, b') && Told(b, b', reports) && |s'.maps.reconnect| <= |s.maps.reconnect| + Received(c)
    ensures b'.ends == b.ends + RetriedBy(c) && NewFrom(b, b', Ids(c))
  {
    hide Consistent, Served, Told, NewFrom;
    if c.Fetch? {
      b' := FetchKeeps(s, b, c);
    } else {
      b' := ObjectKeeps(s, b, c);
    }
  }

  lemma ObjectKeeps(s: State, b: Book, c: Call) returns (b': Book)
    requires !c.Fetch? && Consistent(s.maps, b) && CallSupplied(c, b.used, 0)
    ensures var (s', reports) := Served(s, c);
      Consistent(s'.maps, b') && Told(b, b', reports) && s'.maps.reconnect == s.maps.reconnect
    ensures b'.ends == b.ends + RetriedBy(c) && NewFrom(b, b', Ids(c))
  {
    hide Consistent, Fetched, Reconnected;
    var info := EndianInfo(c.id, c.at, c.retry);
    assert c.id in Ids(c);
    Added(s.maps, b, info);
    b' := WithObject(b, info);
    assert LostIds([]) == {};
  }

  lemma FetchKeeps(s: State, b: Book, c: Call) returns (b': Book)
    requires c.Fetch? && Consistent(s.maps, b) && |c.ids| >= |s.maps.reconnect| + |c.msgs|
    requires Distinct(c.ids) && forall i :: 0 <= i < |c.ids| ==> c.ids[i] !in b.used && IsClient(c.ids[i])
    ensures var (s', reports) := Served(s, c);
      Consistent(s'.maps, b') && Told(b, b', reports) && |s'.maps.reconnect| <= |s.maps.reconnect| + |c.msgs|
    ensures b'.ends == b.ends && NewFrom(b, b', c.ids)
  {
    hide Consistent, Fetched, Reconnected, LostIds, LostLast, NoneOf, CodesRight;
    var (maps, reports) := Fetched(s.maps, c.msgs, EVT_ON_DATA);
    FetchedKeeps(s.maps, b, c.msgs, EVT_ON_DATA);
    FetchedMore(s.maps, c.msgs, EVT_ON_DATA);
    FetchedCodes(s.maps, c.msgs, EVT_ON_DATA);
    b' := b.(failed := b.failed + LostIds(reports));
    if c.now > s.next {
      b' := ReconnectedKeeps(maps, b', c.ids);
    }
  }

  lemma FetchedCodes(s: Maps, msgs: seq<TcpMessage>, before: int)
    ensures CodesRight(Fetched(s, msgs, before).1)
  {
    CodesTellAll(s, msgs, before);
  }

  lemma {:induction false} FetchedMore(s: Maps, msgs: seq<TcpMessage>, before: int)
    ensures |Fetched(s, msgs, before).0.reconnect| <= |s.reconnect| + |msgs|
    decreases |msgs|
  {
    if msgs != [] {
      OneMore(s, msgs[0]);
      FetchedMore(MapsAfter(s, msgs[0]), msgs[1..], CodeAfter(s, msgs[0], before));
    }
  }

  /** Any run of calls: after the event that reports a retrying client as failed or
      disconnected, no event of the whole run carries its id; so at most one such
      event is queued for each id, and none for one that had failed before. And each
      retrying endpoint ever added is in exactly one map, under one id. */
  lemma {:induction false} RunKeeps(s: State, b: Book, calls: seq<Call>) returns (b': Book)
    requires Consistent(s.maps, b) && Supplied(calls, b.used, |s.maps.reconnect| + Messages(calls))
    ensures var (s', reports) := Run(s, calls); Consistent(s'.maps, b') && Told(b, b', reports)
    ensures b'.ends == b.ends + Retried(calls)
    decreases |calls|
  {
    hide Consistent, Supplied, Served, CallSupplied, NewFrom, Told, Run, Messages, Retried;
    if calls == [] {
      NothingTold(s, b);
      return b;
    }
    RunNext(s, calls);
    var most := |s.maps.reconnect| + Messages(calls);
    SuppliedNext(calls, b, most);
    var b1 := ServedKeeps(s, b, calls[0], most);
    var (s1, first) := Served(s, calls[0]);
    SuppliedLater(calls, b, b1, most, |s1.maps.reconnect| + Messages(calls[1..]));
    b' := RunKeeps(s1, b1, calls[1..]);
    ToldLater(b, b1, b', first, Run(s1, calls[1..]).1);
    assert b.ends + RetriedBy(calls[0]) + Retried(calls[1..]) == b.ends + Retried(calls);
  }

  lemma RunNext(s: State, calls: seq<Call>)
    requires calls != []
    ensures Messages(calls) == Received(calls[0]) + Messages(calls[1..])
    ensures Retried(calls) == RetriedBy(calls[0]) + Retried(calls[1..])
    ensures var (s1, first) := Served(s, calls[0]);
      Run(s, calls) == (Run(s1, calls[1..]).0, first + Run(s1, calls[1..]).1)
  {
  }

  lemma NothingTold(s: State, b: Book)
    ensures Run(s, []) == (s, []) && Told(b, b, []) && b.ends + Retried([]) == b.ends
  {
    assert LostIds([]) == {};
  }

  /** The events of one call, then those of all later ones. */
  lemma ToldLater(b: Book, b1: Book, b2: Book, first: seq<Report>, rest: seq<Report>)
    requires Told(b, b1, first) && Told(b1, b2, rest)
    ensures Told(b, b2, first + rest)
  {
    LostJoined(first, rest);
  }

  /** The calls made one after the other on the object. */
  method Serve(s: Service, calls: seq<Call>) returns (queue: seq<Event>)
    requires forall c :: c in calls && c.Fetch? ==> |c.ids| >= |s.reconnect| + Messages(calls)
    modifies s
    ensures s.Now() == Run(old(s.Now()), calls).0 && queue == Events(Run(old(s.Now()), calls).1)
    decreases |calls|
  {
    hide Served, Events;
    queue := [];
    if calls == [] {
      NoEvents();
      return;
    }
    ghost var start := s.Now();
    assert calls[0] in calls && forall c :: c in calls[1..] ==> c in calls;
    queue := ServeOne(s, calls[0]);
    var more := Serve(s, calls[1..]);
    JoinedEvents(Served(start, calls[0]).1, Run(Served(start, calls[0]).0, calls[1..]).1);
    queue := queue + more;
  }

  lemma JoinedEvents(first: seq<Report>, rest: seq<Report>)
    ensures Events(first + rest) == Events(first) + Events(rest)
  {
  }

  method ServeOne(s: Service, c: Call) returns (queue: seq<Event>)
    requires c.Fetch? ==> |c.ids| >= |s.reconnect| + |c.msgs|
    modifies s
    ensures s.Now() == Served(old(s.Now()), c).0 && queue == Events(Served(old(s.Now()), c).1)
    ensures |s.reconnect| <= |old(s.reconnect)| + Received(c)
  {
    queue := [];
    match c {
      case Connect(at, retry, id) =>
        NoEvents();
        var ok := s.AddConnector(at, retry, id);
      case Listen(at, retry, id) =>
        NoEvents();
        var ok := s.AddListener(at, retry, id);
      case Fetch(msgs, now, ids) =>
        FetchedMore(s.Both(), msgs, EVT_ON_DATA);
        ReconnectedFewer(Fetched(s.Both(), msgs, EVT_ON_DATA).0, ids);
        queue := s.FetchMsg(msgs, now, ids);
    }
  }

  lemma {:induction false} ReconnectedFewer(s: Maps, ids: seq<int>)
    ensures |Reconnected(s, ids).reconnect| <= |s.reconnect|
    decreases |ids|
  {
    if s.reconnect.Keys != {} && ids != [] {
      var id := Least(s.reconnect.Keys);
      assert |s.reconnect| == |s.reconnect - {id}| + 1;
      ReconnectedFewer(Maps(With(s.endian, s.reconnect[id].(objid := ids[0])), s.reconnect - {id}), ids[1..]);
    }
  }
}
