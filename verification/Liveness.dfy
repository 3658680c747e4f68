/** What the table of peers says (discovery.go:121-171, 220-248), as a function of everything
    that has happened: heartbeats, presence messages and health checks, in order. */
module Liveness {
  import opened Bytes

  datatype DiscoveryMessage = DiscoveryMessage(
    nodeName: bytes, publicKey: bytes, publicIP: bytes, publicPort: int, wgPort: int,
    natType: bytes, timestamp: int, viaRelay: bool, relayAddr: bytes)

  datatype Presence = Presence(nodeName: bytes, status: bytes)

  datatype Record = Record(info: DiscoveryMessage, lastSeen: int, missed: nat)
  type Table = map<bytes, Record>

  /** `None` is a payload that is not the JSON it should be. */
  datatype Event =
    | Beat(at: int, heartbeat: Option<DiscoveryMessage>)
    | Status(presence: Option<Presence>)
    | Check(at: int)

  const OFFLINE: bytes := [111, 102, 102, 108, 105, 110, 101]
  const OFFLINE_MARK := 999
  const DOWN := 3

  /** This node and its heartbeat interval. */
  datatype Node = Node(name: bytes, interval: int)

  predicate Late(node: Node, now: int, lastSeen: int) {
    now - lastSeen > node.interval * 3
  }

  function Heartbeat(node: Node, t: Table, now: int, payload: Option<DiscoveryMessage>): Table {
    match payload
    case None => t
    case Some(hb) => if hb.nodeName == node.name then t else t[hb.nodeName := Record(hb, now, 0)]
  }

  function Announce(node: Node, t: Table, payload: Option<Presence>): Table {
    match payload
    case None => t
    case Some(p) =>
      if p.nodeName != node.name && p.status == OFFLINE && p.nodeName in t
      then t[p.nodeName := t[p.nodeName].(missed := OFFLINE_MARK)]
      else t
  }

  function Checked(node: Node, r: Record, now: int): Record {
    if Late(node, now, r.lastSeen) then r.(missed := r.missed + 1) else r
  }

  function CheckAll(node: Node, t: Table, now: int): Table {
    map name | name in t :: Checked(node, t[name], now)
  }

  /** The peers that a check reports as down. */
  function Reported(node: Node, t: Table, now: int): set<bytes> {
    set name | name in t && Late(node, now, t[name].lastSeen) && Checked(node, t[name], now).missed >= DOWN
  }

  function Update(node: Node, t: Table, ev: Event): Table {
    match ev
    case Beat(at, heartbeat) => Heartbeat(node, t, at, heartbeat)
    case Status(presence) => Announce(node, t, presence)
    case Check(at) => CheckAll(node, t, at)
  }

  function After(node: Node, trace: seq<Event>): Table {
    if trace == [] then map[]
    else Update(node, After(node, trace[..|trace| - 1]), trace[|trace| - 1])
  }

  // ---------------------------------------------------------------- the table from the trace

  predicate SeenIn(node: Node, ev: Event, name: bytes) {
    ev.Beat? && ev.heartbeat.Some? && ev.heartbeat.value.nodeName == name && name != node.name
  }

  predicate OfflineIn(node: Node, ev: Event, name: bytes) {
    ev.Status? && ev.presence == Some(Presence(name, OFFLINE)) && name != node.name
  }

  predicate LateIn(node: Node, ev: Event, lastSeen: int) {
    ev.Check? && Late(node, ev.at, lastSeen)
  }

  /** How many checks of the trace, from place `from` on, come too late after `lastSeen`. */
  function LateChecks(node: Node, trace: seq<Event>, from: nat, lastSeen: int): nat {
    if |trace| <= from then 0
    else
      var before := LateChecks(node, trace[..|trace| - 1], from, lastSeen);
      if LateIn(node, trace[|trace| - 1], lastSeen) then before + 1 else before
  }

  ghost predicate NotSeenFrom(node: Node, trace: seq<Event>, name: bytes, from: nat) {
    forall k :: from <= k < |trace| ==> !SeenIn(node, trace[k], name)
  }

  ghost predicate NotOfflineFrom(node: Node, trace: seq<Event>, name: bytes, from: nat) {
    forall k :: from <= k < |trace| ==> !OfflineIn(node, trace[k], name)
  }

  /** Event `j` is the last heartbeat of this peer. */
  ghost predicate LastBeat(node: Node, trace: seq<Event>, name: bytes, j: nat) {
    j < |trace| && SeenIn(node, trace[j], name) && NotSeenFrom(node, trace, name, j + 1)
  }

  /** Event `o` is the last offline announcement of this peer. */
  ghost predicate LastOffline(node: Node, trace: seq<Event>, name: bytes, o: nat) {
    o < |trace| && OfflineIn(node, trace[o], name) && NotOfflineFrom(node, trace, name, o + 1)
  }

  lemma {:induction false} UnknownUntilSeen(node: Node, trace: seq<Event>, name: bytes)
    ensures name !in After(node, trace) <==> NotSeenFrom(node, trace, name, 0)
    decreases |trace|
  {
    if trace != [] {
      var before := trace[..|trace| - 1];
      UnknownUntilSeen(node, before, name);
      assert NotSeenFrom(node, trace, name, 0) <==>
        NotSeenFrom(node, before, name, 0) && !SeenIn(node, trace[|trace| - 1], name);
    }
  }

  /** The record of a peer is what its last heartbeat said and when; it counts the checks that
      came too late since then, and starts again from 999 at an offline announcement. */
  lemma {:induction false} RecordIsLastBeat(node: Node, trace: seq<Event>, name: bytes, j: nat)
    requires LastBeat(node, trace, name, j)
    ensures name in After(node, trace)
    ensures var r := After(node, trace)[name]; var beat := trace[j];
      && r.info == beat.heartbeat.value && r.lastSeen == beat.at
      && (NotOfflineFrom(node, trace, name, j + 1) ==> r.missed == LateChecks(node, trace, j + 1, beat.at))
      && (forall o: nat :: j < o && LastOffline(node, trace, name, o) ==>
            r.missed == OFFLINE_MARK + LateChecks(node, trace, o + 1, beat.at))
    decreases |trace|
  {
    hide Late;
    var before := trace[..|trace| - 1];
    var last := trace[|trace| - 1];
    if j < |trace| - 1 {
      RecordIsLastBeat(node, before, name, j);
      forall o: nat | j < o && LastOffline(node, trace, name, o)
        ensures After(node, trace)[name].missed == OFFLINE_MARK + LateChecks(node, trace, o + 1, trace[j].at)
      {
        if o < |trace| - 1 {
          assert LastOffline(node, before, name, o);
        }
      }
    }
  }

  // ---------------------------------------------------------------- statuses in letters

  /** Of this status, and of no other, the table takes notice: the seven letters of "offline"
      set the count of a known peer to 999, unless it is the node itself. */
  lemma StatusInLetters(node: Node, t: Table, name: bytes, status: bytes)
    ensures var u := Announce(node, t, Some(Presence(name, status)));
      if status == [0x6F, 0x66, 0x66, 0x6C, 0x69, 0x6E, 0x65] && name in t && name != node.name
      then u == t[name := Record(t[name].info, t[name].lastSeen, 999)]
      else u == t
  {
  }

  /** Event `e` is a heartbeat of this peer. */
  predicate BeatOf(e: Event, name: bytes) {
    e.Beat? && e.heartbeat.Some? && e.heartbeat.value.nodeName == name
  }

  /** Event `e` is this peer saying "offline". */
  predicate SaysOffline(e: Event, name: bytes) {
    e == Status(Some(Presence(name, [0x6F, 0x66, 0x66, 0x6C, 0x69, 0x6E, 0x65])))
  }

  /** A known peer that says "offline" counts 999 and one more for each later check that comes
      more than three intervals after its last heartbeat; one that does not counts from 0. */
  lemma OfflineCountsFrom999(node: Node, trace: seq<Event>, name: bytes, j: nat, o: nat)
    requires name != node.name && j < o < |trace| && BeatOf(trace[j], name) && SaysOffline(trace[o], name)
    requires forall k :: j < k < |trace| ==> !BeatOf(trace[k], name)
    requires forall k :: o < k < |trace| ==> !SaysOffline(trace[k], name)
    ensures name in After(node, trace)
    ensures After(node, trace)[name].missed == 999 + LateChecks(node, trace, o + 1, trace[j].at)
  {
    hide After, LateChecks;
    RecordIsLastBeat(node, trace, name, j);
    assert LastOffline(node, trace, name, o);
  }

  /** A check counts as late from the first moment more than three intervals after. */
  lemma LateInNumbers(node: Node, trace: seq<Event>, from: nat, lastSeen: int, now: int)
    requires from <= |trace|
    ensures LateChecks(node, trace + [Check(now)], from, lastSeen)
         == LateChecks(node, trace, from, lastSeen) + (if now - lastSeen > 3 * node.interval then 1 else 0)
  {
    assert (trace + [Check(now)])[..|trace|] == trace;
  }

  // ---------------------------------------------------------------- when silence is reported

  /** How many checks there are in the trace from place `from` on. */
  function Checks(trace: seq<Event>, from: nat): nat {
    if |trace| <= from then 0
    else
      var before := Checks(trace[..|trace| - 1], from);
      if trace[|trace| - 1].Check? then before + 1 else before
  }

  function Period(node: Node): int {
    node.interval * 3
  }

  /** From place `from` on, the checks come at consecutive multiples of the period: the ticker's
      ticks number `a`, `a + 1` and so on. */
  ghost predicate Ticking(node: Node, trace: seq<Event>, from: nat, a: int) {
    forall k :: from <= k < |trace| && trace[k].Check? ==>
      trace[k].at == (a + Checks(trace[..k], from)) * Period(node)
  }

  /** Tick `a` is the first that can follow what happened at time `at`. */
  predicate NextTick(node: Node, at: int, a: int) {
    (a - 1) * Period(node) <= at <= a * Period(node)
  }

  lemma TickIsLate(node: Node, at: int, c: int)
    requires node.interval > 0
    ensures Late(node, c * Period(node), at) <==> c >= at / Period(node) + 2
  {
    var p := Period(node);
    var floor := at / p;
    assert floor * p <= at < floor * p + p;
    if c >= floor + 2 {
      assert c * p >= (floor + 2) * p;
    } else {
      assert c * p <= (floor + 1) * p;
    }
  }

  lemma TimesPeriod(x: int, y: int, p: int)
    requires p > 0
    ensures x <= y ==> x * p <= y * p
  {
  }

  lemma NextTickNumber(node: Node, at: int, a: int)
    requires node.interval > 0 && NextTick(node, at, a)
    ensures at / Period(node) <= a <= at / Period(node) + 1
  {
    var p := Period(node);
    var floor := at / p;
    assert floor * p <= at < floor * p + p;
    TimesPeriod(a, floor - 1, p);
    TimesPeriod(floor + 1, a - 1, p);
  }

  lemma {:induction false} LateTicks(node: Node, trace: seq<Event>, from: nat, a: int, at: int)
    requires node.interval > 0 && NextTick(node, at, a) && Ticking(node, trace, from, a)
    ensures var m := a + Checks(trace, from) - 1; var late := m - at / Period(node) - 1;
      LateChecks(node, trace, from, at) == if late > 0 then late else 0
    decreases |trace|
  {
    hide NextTick, Period, Late;
    NextTickNumber(node, at, a);
    if |trace| > from {
      var before := trace[..|trace| - 1];
      var k := |trace| - 1;
      forall i | from <= i < |before| && before[i].Check?
        ensures before[i].at == (a + Checks(before[..i], from)) * Period(node)
      {
        assert before[..i] == trace[..i];
      }
      LateTicks(node, before, from, a, at);
      if trace[k].Check? {
        assert trace[k].at == (a + Checks(trace[..k], from)) * Period(node);
        TickIsLate(node, at, a + Checks(before, from));
      }
    }
  }

  /** A peer that has gone silent, checked at the ticks of the period: after tick `m` exactly
      max(0, m - floor(L / P) - 1) heartbeats count as missed. */
  lemma MissedWhileSilent(node: Node, trace: seq<Event>, name: bytes, j: nat, a: int)
    requires node.interval > 0 && LastBeat(node, trace, name, j) && NotOfflineFrom(node, trace, name, j + 1)
    requires NextTick(node, trace[j].at, a) && Ticking(node, trace, j + 1, a)
    ensures name in After(node, trace)
    ensures var m := a + Checks(trace, j + 1) - 1; var late := m - trace[j].at / Period(node) - 1;
      After(node, trace)[name].missed == if late > 0 then late else 0
  {
    hide NextTick, Period, After, Checks, LateChecks, Ticking;
    RecordIsLastBeat(node, trace, name, j);
    LateTicks(node, trace, j + 1, a, trace[j].at);
  }

  /** The next check reports the silent peer as down exactly when its last heartbeat is more than
      nine intervals ago. */
  lemma SilentPeerIsReported(node: Node, trace: seq<Event>, name: bytes, j: nat, a: int, now: int)
    requires node.interval > 0 && LastBeat(node, trace, name, j) && NotOfflineFrom(node, trace, name, j + 1)
    requires NextTick(node, trace[j].at, a) && Ticking(node, trace + [Check(now)], j + 1, a)
    ensures name in Reported(node, After(node, trace), now) <==> now - trace[j].at > 9 * node.interval
  {
    hide NextTick, After, Checks, LateChecks;
    var longer := trace + [Check(now)];
    assert longer[..|trace|] == trace;
    assert longer[|trace|].Check?;
    assert now == (a + Checks(trace, j + 1)) * Period(node);
    forall i | j + 1 <= i < |trace| && trace[i].Check?
      ensures trace[i].at == (a + Checks(trace[..i], j + 1)) * Period(node)
    {
      assert longer[i] == trace[i] && longer[..i] == trace[..i];
    }
    MissedWhileSilent(node, trace, name, j, a);
    RecordIsLastBeat(node, trace, name, j);
    ReportedFromTick(node, After(node, trace), name, a + Checks(trace, j + 1), trace[j].at);
  }

  lemma ReportedFromTick(node: Node, t: Table, name: bytes, c: int, at: int)
    requires node.interval > 0 && name in t && t[name].lastSeen == at
    requires var late := c - 1 - at / Period(node) - 1; t[name].missed == if late > 0 then late else 0
    ensures name in Reported(node, t, c * Period(node)) <==> c * Period(node) - at > 9 * node.interval
  {
    hide Late, Period;
    TickIsLate(node, at, c);
    TickAfterNine(node, at, c);
  }

  lemma TickAfterNine(node: Node, at: int, c: int)
    requires node.interval > 0
    ensures c * Period(node) - at > 9 * node.interval <==> c >= at / Period(node) + 4
  {
    ThreePeriodsOn(at, Period(node), c);
  }

  lemma ThreePeriodsOn(at: int, p: int, c: int)
    requires p > 0
    ensures c * p - at > 3 * p <==> c >= at / p + 4
  {
    var floor := at / p;
    assert floor * p <= at < floor * p + p;
    if c >= floor + 4 {
      assert c * p >= (floor + 4) * p == floor * p + 4 * p;
    } else {
      assert c * p <= (floor + 3) * p == floor * p + 3 * p;
    }
  }

  /** A peer that has announced that it goes offline is reported by the first check that comes
      too late, and by none before. */
  lemma OfflinePeerIsReported(node: Node, trace: seq<Event>, name: bytes, j: nat, o: nat, now: int)
    requires name != node.name && j < o < |trace| && BeatOf(trace[j], name) && SaysOffline(trace[o], name)
    requires forall k :: j < k < |trace| ==> !BeatOf(trace[k], name)
    requires forall k :: o < k < |trace| ==> !SaysOffline(trace[k], name)
    ensures name in Reported(node, After(node, trace), now) <==> now - trace[j].at > 3 * node.interval
  {
    hide After, LateChecks;
    OfflineCountsFrom999(node, trace, name, j, o);
    assert LastBeat(node, trace, name, j);
    RecordIsLastBeat(node, trace, name, j);
  }

  /** So the first report comes with the tick in the window (L + 9 I, L + 12 I], of which there
      is exactly one. */
  lemma ReportWindow(node: Node, at: int)
    requires node.interval > 0
    ensures var c := at / Period(node) + 4;
      9 * node.interval < c * Period(node) - at <= 12 * node.interval
    ensures forall c :: 9 * node.interval < c * Period(node) - at <= 12 * node.interval ==>
      c == at / Period(node) + 4
  {
    var p := Period(node);
    var floor := at / p;
    assert floor * p <= at < floor * p + p;
    assert (floor + 4) * p == floor * p + 4 * p;
    forall c | 3 * p < c * p - at <= 4 * p ensures c == floor + 4 {
      TimesPeriod(c, floor + 3, p);
      TimesPeriod(floor + 5, c, p);
    }
  }
}
