/** The relay server (relay.go) as a protocol: one handler per connection, all of them sharing
    the map of registered clients. A step is one atomic action of one handler, or of the
    network; `Step` says what it does, `Run` strings steps together in any order. */
module RelayProtocol {
  import opened Bytes
  import opened RelayCodec

  type ConnId = nat

  /** Where the goroutine running handleClient for a connection stands. */
  datatype Phase =
    | Unregistered                                        // in the first readMessage
    | Reading(name: bytes)                                // in the message loop, between messages
    | Resolving(name: bytes, msg: Message)                // Data in hand, map not yet consulted
    | Forwarding(name: bytes, msg: Message, to: ConnId)   // destination known, not yet written to
    | Ponging(name: bytes)                                // Ping in hand, not yet answered
    | Leaving(name: bytes)                                // returned: deferred delete still to run
    | Closing                                             // deferred conn.Close still to run
    | Closed

  /** What became of a frame that a handler read. */
  datatype Fate =
    | Ignored                                             // asks for nothing in this place
    | Unroutable                                          // nobody under that name in the map
    | Delivered(to: ConnId, at: nat)                      // log entry `at` of connection `to`
    | Answered(at: nat)                                   // Pong: log entry `at` of its own connection
    | Lost(to: ConnId)                                    // the write failed

  /** A frame written whole, with the handler that wrote it and the number, among the frames
      that this handler read, of the frame it was written for. */
  datatype Sent = Sent(message: Message, from: ConnId, index: nat)

  /** A connection and its handler. `pending` is what has arrived and not been read, `wire` all
      that was ever written to the connection, `broken` whether a write to it has failed.
      The rest is history that no step looks at: what arrived, how much of it a read timeout
      threw away, the frames read, what became of each, the frames written. */
  datatype Conn = Conn(
    phase: Phase, pending: bytes, wire: bytes, broken: bool,
    arrived: bytes, discarded: nat, frames: seq<Message>, fates: seq<Fate>, log: seq<Sent>)

  type Conns = map<ConnId, Conn>

  datatype Relay = Relay(clients: map<bytes, ConnId>, conns: Conns)

  datatype Event =
    | Accept(c: ConnId)
    | Arrive(c: ConnId, data: bytes)
    | Receive(c: ConnId)           // readMessage returns: a frame, or the error of an oversized one
    | Stall(c: ConnId)             // the read deadline passes before the frame is complete
    | Quit(c: ConnId)              // the read fails for good, or the context is done
    | Lookup(c: ConnId)            // forwardToPeer under the read lock
    | Write(c: ConnId, room: nat)  // conn.Write, which takes at most `room` bytes
    | Unregister(c: ConnId)        // the deferred delete
    | Close(c: ConnId)             // the deferred conn.Close

  const NEW_CONN := Conn(Unregistered, [], [], false, [], 0, [], [], [])
  const PONG_FRAME := Message(PONG, [], [], [])

  function Start(): Relay {
    Relay(map[], map[])
  }

  // ---------------------------------------------------------------- steps

  /** One step. An event that cannot happen in a state leaves it as it is. */
  function Step(s: Relay, ev: Event): Relay {
    if ev.Accept? then
      if ev.c in s.conns then s else s.(conns := s.conns[ev.c := NEW_CONN])
    else if ev.c !in s.conns then s
    else
      var conn := s.conns[ev.c];
      match ev
      case Accept(_) => s
      case Arrive(c, data) =>
        if conn.phase.Closed? then s
        else Put(s, c, conn.(pending := conn.pending + data, arrived := conn.arrived + data))
      case Receive(c) =>
        if conn.phase.Unregistered? || conn.phase.Reading? then Receiving(s, c) else s
      case Stall(c) =>
        if conn.phase.Reading? && Read(conn.pending).Starved?
        then Put(s, c, conn.(pending := [], discarded := conn.discarded + |conn.pending|))
        else s
      case Quit(c) =>
        if conn.phase.Unregistered? || conn.phase.Reading?
        then Put(s, c, conn.(phase := Abandoned(conn.phase)))
        else s
      case Lookup(c) => if conn.phase.Resolving? then Looking(s, c) else s
      case Write(c, room) =>
        if conn.phase.Forwarding? || conn.phase.Ponging? then Writing(s, c, room) else s
      case Unregister(c) =>
        if conn.phase.Leaving?
        then Put(s, c, conn.(phase := Closing)).(clients := s.clients - {conn.phase.name})
        else s
      case Close(c) =>
        if conn.phase.Closing? then Put(s, c, conn.(phase := Closed)) else s
  }

  function Put(s: Relay, c: ConnId, conn: Conn): Relay {
    s.(conns := s.conns[c := conn])
  }

  /** Where a handler goes when a read fails: before the registration only the deferred
      Close is in place, afterwards the deferred delete as well. */
  function Abandoned(phase: Phase): Phase
    requires phase.Unregistered? || phase.Reading?
  {
    if phase.Unregistered? then Closing else Leaving(phase.name)
  }

  function Receiving(s: Relay, c: ConnId): Relay
    requires c in s.conns && (s.conns[c].phase.Unregistered? || s.conns[c].phase.Reading?)
  {
    var conn := s.conns[c];
    match Read(conn.pending)
    case Starved => s
    case Oversized => Put(s, c, conn.(phase := Abandoned(conn.phase)))
    case Frame(m, size) =>
      AcceptedIsCanonical(conn.pending);
      var read := conn.(pending := conn.pending[size..], frames := conn.frames + [m]);
      if conn.phase.Reading? then Put(s, c, Dispatch(read, conn.phase.name, m))
      else if m.kind == REGISTER then
        Put(s, c, read.(phase := Reading(m.src), fates := conn.fates + [Ignored]))
          .(clients := s.clients[m.src := c])
      else Put(s, c, read.(phase := Closing, fates := conn.fates + [Ignored]))
  }

  /** The switch in the message loop. */
  function Dispatch(conn: Conn, name: bytes, m: Message): Conn {
    if m.kind == DATA then conn.(phase := Resolving(name, m))
    else if m.kind == PING then conn.(phase := Ponging(name))
    else conn.(phase := Reading(name), fates := conn.fates + [Ignored])
  }

  function Looking(s: Relay, c: ConnId): Relay
    requires c in s.conns && s.conns[c].phase.Resolving?
  {
    var conn := s.conns[c];
    var Resolving(name, m) := conn.phase;
    if m.dst in s.clients
    then Put(s, c, conn.(phase := Forwarding(name, m, s.clients[m.dst])))
    else Put(s, c, conn.(phase := Reading(name), fates := conn.fates + [Unroutable]))
  }

  /** A write to a connection that is closed or broken takes nothing; one that takes less than
      the whole frame fails and is the last on its connection. */
  function Taken(dst: Conn, m: Message, room: nat): (n: nat)
    ensures n <= |Encode(m)|
  {
    if dst.broken || dst.phase.Closed? then 0
    else if room < |Encode(m)| then room else |Encode(m)|
  }

  function WriteTo(dst: Conn, m: Message, room: nat, from: ConnId, index: nat): Conn {
    var n := Taken(dst, m, room);
    if n == |Encode(m)| then dst.(wire := dst.wire + Encode(m), log := dst.log + [Sent(m, from, index)])
    else dst.(wire := dst.wire + Encode(m)[..n], broken := true)
  }

  function Writing(s: Relay, c: ConnId, room: nat): Relay
    requires c in s.conns && (s.conns[c].phase.Forwarding? || s.conns[c].phase.Ponging?)
  {
    var conn := s.conns[c];
    var to := if conn.phase.Forwarding? then conn.phase.to else c;
    if to !in s.conns then s
    else
      var m := if conn.phase.Forwarding? then conn.phase.msg else PONG_FRAME;
      var dst := s.conns[to];
      var fate :=
        if Taken(dst, m, room) < |Encode(m)| then Lost(to)
        else if conn.phase.Forwarding? then Delivered(to, |dst.log|)
        else Answered(|dst.log|);
      Settled(Put(s, to, WriteTo(dst, m, room, c, |conn.fates|)), c, conn.phase.name, fate)
  }

  function Settled(s: Relay, c: ConnId, name: bytes, fate: Fate): Relay
    requires c in s.conns
  {
    Put(s, c, s.conns[c].(phase := Reading(name), fates := s.conns[c].fates + [fate]))
  }

  function Run(s: Relay, evs: seq<Event>): Relay
    decreases |evs|
  {
    if evs == [] then s else Run(Step(s, evs[0]), evs[1..])
  }

  /** The states the server can be in: those after any events whatsoever. */
  function After(evs: seq<Event>): Relay {
    Run(Start(), evs)
  }

  lemma {:induction false} RunSplit(s: Relay, evs: seq<Event>, more: seq<Event>)
    ensures Run(s, evs + more) == Run(Run(s, evs), more)
    decreases |evs|
  {
    hide Step;
    if evs == [] {
      assert evs + more == more;
    } else {
      assert (evs + more)[1..] == evs[1..] + more;
      RunSplit(Step(s, evs[0]), evs[1..], more);
    }
  }

  lemma RunOne(s: Relay, ev: Event)
    ensures Run(s, [ev]) == Step(s, ev)
  {
    hide Step;
    assert [ev][1..] == [];
  }

  lemma RunOfTwo(s: Relay, e1: Event, e2: Event)
    ensures Run(s, [e1, e2]) == Step(Step(s, e1), e2)
  {
    hide Step, Run;
    assert [e1] + [e2] == [e1, e2];
    RunSplit(s, [e1], [e2]);
    RunOne(s, e1);
    RunOne(Step(s, e1), e2);
  }

  // ---------------------------------------------------------------- the invariant

  /** Between the registration and the deferred delete. */
  predicate Serving(phase: Phase) {
    phase.Reading? || InHand(phase) || phase.Leaving?
  }

  /** A frame has been read and not yet dealt with. */
  predicate InHand(phase: Phase) {
    phase.Resolving? || phase.Forwarding? || phase.Ponging?
  }

  predicate RegisteredAs(conn: Conn, name: bytes) {
    0 < |conn.frames| && conn.frames[0].kind == REGISTER && conn.frames[0].src == name
  }

  ghost predicate ReadOk(conn: Conn) {
    && (forall k :: 0 <= k < |conn.frames| ==> InRange(conn.frames[k]) && Carried(conn.frames[k]) == conn.frames[k])
    && |EncodeAll(conn.frames)| + conn.discarded + |conn.pending| == |conn.arrived|
    && (conn.discarded == 0 ==> EncodeAll(conn.frames) + conn.pending == conn.arrived)
  }

  ghost predicate PhaseOk(cs: Conns, conn: Conn) {
    && |conn.frames| == |conn.fates| + (if InHand(conn.phase) then 1 else 0)
    && (Serving(conn.phase) ==> RegisteredAs(conn, conn.phase.name))
    && (conn.phase.Unregistered? ==> conn.frames == [])
    && (InHand(conn.phase) ==>
        && 0 < |conn.fates|
        && var m := conn.frames[|conn.fates|];
           if conn.phase.Ponging? then m.kind == PING else m == conn.phase.msg && m.kind == DATA)
    && (conn.phase.Forwarding? ==>
        && conn.phase.to in cs && RegisteredAs(cs[conn.phase.to], conn.phase.msg.dst))
  }

  function Messages(log: seq<Sent>): (ms: seq<Message>)
    ensures |ms| == |log| && forall i :: 0 <= i < |log| ==> ms[i] == log[i].message
  {
    seq(|log|, i requires 0 <= i < |log| => log[i].message)
  }

  /** What was written is the frames of the log, whole and in order, and then, if a write
      failed, the beginning of one more frame. */
  ghost predicate WireOk(conn: Conn) {
    && (forall i :: 0 <= i < |conn.log| ==>
        InRange(conn.log[i].message) && Carried(conn.log[i].message) == conn.log[i].message)
    && if conn.broken then exists m, n :: CutOff(conn, m, n)
       else conn.wire == EncodeAll(Messages(conn.log))
  }

  ghost predicate CutOff(conn: Conn, m: Message, n: nat) {
    InRange(m) && n < |Encode(m)| && conn.wire == EncodeAll(Messages(conn.log)) + Encode(m)[..n]
  }

  /** Log entry `i` of `d` was written for a frame that its writer did read, and that frame's
      fate points back to this entry. */
  ghost predicate EntryOk(cs: Conns, d: ConnId, i: nat)
    requires d in cs && i < |cs[d].log|
  {
    var e := cs[d].log[i];
    && e.from in cs
    && e.index < |cs[e.from].fates| && e.index < |cs[e.from].frames|
    && var read := cs[e.from].frames[e.index];
       var fate := cs[e.from].fates[e.index];
       if e.message.kind == DATA
       then fate == Delivered(d, i) && read == e.message && RegisteredAs(cs[d], read.dst)
       else e.message == PONG_FRAME && e.from == d && fate == Answered(i) && read.kind == PING
  }

  /** The fate of frame `k` of `c` is one that fits the frame, and the log entry it points to
      is there and points back. */
  ghost predicate FateOk(cs: Conns, c: ConnId, k: nat)
    requires c in cs && k < |cs[c].fates| && k < |cs[c].frames|
  {
    var read := cs[c].frames[k];
    match cs[c].fates[k]
    case Ignored => k == 0 || (read.kind != DATA && read.kind != PING)
    case Unroutable => 0 < k && read.kind == DATA
    case Lost(_) => 0 < k && (read.kind == DATA || read.kind == PING)
    case Delivered(d, i) =>
      0 < k && read.kind == DATA && d in cs && i < |cs[d].log| && cs[d].log[i] == Sent(read, c, k)
    case Answered(i) =>
      0 < k && read.kind == PING && i < |cs[c].log| && cs[c].log[i] == Sent(PONG_FRAME, c, k)
  }

  ghost predicate Ordered(log: seq<Sent>) {
    forall i, j :: 0 <= i < j < |log| && log[i].from == log[j].from ==> log[i].index < log[j].index
  }

  ghost predicate ConnOk(cs: Conns, c: ConnId)
    requires c in cs
  {
    var conn := cs[c];
    && ReadOk(conn) && PhaseOk(cs, conn) && WireOk(conn) && Ordered(conn.log)
    && (forall i :: 0 <= i < |conn.log| ==> EntryOk(cs, c, i))
    && (forall k :: 0 <= k < |conn.fates| ==> FateOk(cs, c, k))
  }

  ghost predicate ConnsOk(cs: Conns) {
    forall c :: c in cs ==> ConnOk(cs, c)
  }

  /** Each entry of the map is keyed by the name of its connection, whose handler has not yet
      run its deferred delete, let alone closed the connection. */
  ghost predicate RegistryOk(s: Relay) {
    forall n :: n in s.clients ==>
      && s.clients[n] in s.conns
      && Serving(s.conns[s.clients[n]].phase) && s.conns[s.clients[n]].phase.name == n
  }

  ghost predicate Inv(s: Relay) {
    RegistryOk(s) && ConnsOk(s.conns)
  }

  // ---------------------------------------------------------------- preservation

  /** History only grows. */
  ghost predicate Extends(cs: Conns, ds: Conns) {
    forall c :: c in cs ==>
      c in ds && cs[c].frames <= ds[c].frames && cs[c].fates <= ds[c].fates && cs[c].log <= ds[c].log
  }

  lemma EntryKept(cs: Conns, ds: Conns, d: ConnId, i: nat)
    requires Extends(cs, ds) && d in cs && i < |cs[d].log| && EntryOk(cs, d, i)
    ensures EntryOk(ds, d, i)
  {
  }

  lemma FateKept(cs: Conns, ds: Conns, c: ConnId, k: nat)
    requires Extends(cs, ds) && c in cs && k < |cs[c].fates| && k < |cs[c].frames| && FateOk(cs, c, k)
    ensures FateOk(ds, c, k)
  {
  }

  lemma PhaseKept(cs: Conns, ds: Conns, conn: Conn)
    requires Extends(cs, ds) && PhaseOk(cs, conn)
    ensures PhaseOk(ds, conn)
  {
  }

  /** To show that a connection is still in order it is enough to look at what is new. */
  lemma StillOk(cs: Conns, ds: Conns, c: ConnId)
    requires c in cs && ConnOk(cs, c) && Extends(cs, ds)
    requires ReadOk(ds[c]) && PhaseOk(ds, ds[c]) && WireOk(ds[c]) && Ordered(ds[c].log)
    requires forall i :: |cs[c].log| <= i < |ds[c].log| ==> EntryOk(ds, c, i)
    requires forall k :: |cs[c].fates| <= k < |ds[c].fates| ==> FateOk(ds, c, k)
    ensures ConnOk(ds, c)
  {
    hide ReadOk, WireOk, Ordered, EntryOk, FateOk;
    forall i | 0 <= i < |ds[c].log| ensures EntryOk(ds, c, i) {
      if i < |cs[c].log| { EntryKept(cs, ds, c, i); }
    }
    forall k | 0 <= k < |ds[c].fates| ensures FateOk(ds, c, k) {
      if k < |cs[c].fates| { FateKept(cs, ds, c, k); }
    }
  }

  /** A step touches one connection, or two when it writes; the others stay in order. */
  lemma OthersOk(cs: Conns, ds: Conns, c: ConnId, d: ConnId)
    requires ConnsOk(cs) && Extends(cs, ds)
    requires ds.Keys <= cs.Keys + {c, d}
    requires forall x :: x in cs && x != c && x != d ==> ds[x] == cs[x]
    ensures forall x :: x in ds && x != c && x != d ==> ConnOk(ds, x)
  {
    hide ReadOk, WireOk, Ordered, EntryOk, FateOk, PhaseOk;
    forall x | x in ds && x != c && x != d ensures ConnOk(ds, x) {
      PhaseKept(cs, ds, cs[x]);
      StillOk(cs, ds, x);
    }
  }

  /** A step by which a connection reads, changes its phase or decides a fate by itself. */
  lemma LocalStepOk(cs: Conns, ds: Conns, c: ConnId)
    requires ConnsOk(cs) && c in cs && c in ds && ds == cs[c := ds[c]]
    requires ds[c].log == cs[c].log && ds[c].wire == cs[c].wire && ds[c].broken == cs[c].broken
    requires cs[c].frames <= ds[c].frames && cs[c].fates <= ds[c].fates
    requires ReadOk(ds[c]) && PhaseOk(cs, ds[c])
    requires forall k :: |cs[c].fates| <= k < |ds[c].fates| ==> FateOk(ds, c, k)
    ensures ConnsOk(ds) && Extends(cs, ds)
  {
    hide ReadOk, Ordered, EntryOk, FateOk, PhaseOk;
    OthersOk(cs, ds, c, c);
    PhaseKept(cs, ds, ds[c]);
    WireKept(cs[c], ds[c]);
    StillOk(cs, ds, c);
  }

  lemma WireKept(conn: Conn, later: Conn)
    requires WireOk(conn)
    requires later.log == conn.log && later.wire == conn.wire && later.broken == conn.broken
    ensures WireOk(later)
  {
    if conn.broken {
      var m, n :| CutOff(conn, m, n);
      assert CutOff(later, m, n);
    }
  }

  lemma ReadKept(conn: Conn, later: Conn)
    requires ReadOk(conn) && SameReading(conn, later)
    ensures ReadOk(later)
  {
  }

  ghost predicate SameReading(conn: Conn, later: Conn) {
    && later.frames == conn.frames && later.pending == conn.pending
    && later.arrived == conn.arrived && later.discarded == conn.discarded
  }

  /** A step that only changes the phase and perhaps settles the fate of the frame in hand. */
  lemma ActOk(cs: Conns, ds: Conns, c: ConnId)
    requires ConnsOk(cs) && c in cs && c in ds && ds == cs[c := ds[c]]
    requires ds[c].log == cs[c].log && ds[c].wire == cs[c].wire && ds[c].broken == cs[c].broken
    requires SameReading(cs[c], ds[c]) && cs[c].fates <= ds[c].fates
    requires PhaseOk(cs, ds[c])
    requires forall k :: |cs[c].fates| <= k < |ds[c].fates| ==> FateOk(ds, c, k)
    ensures ConnsOk(ds) && Extends(cs, ds)
  {
    hide EntryOk, FateOk, WireOk, ReadOk, PhaseOk, Ordered;
    assert ConnOk(cs, c);
    ReadKept(cs[c], ds[c]);
    LocalStepOk(cs, ds, c);
  }

  lemma Parts(cs: Conns, c: ConnId)
    requires ConnsOk(cs) && c in cs
    ensures ReadOk(cs[c]) && PhaseOk(cs, cs[c]) && WireOk(cs[c]) && Ordered(cs[c].log)
  {
    assert ConnOk(cs, c);
  }

  lemma RegistryKept(s: Relay, t: Relay)
    requires RegistryOk(s) && t.clients == s.clients
    requires forall c :: c in s.conns && Serving(s.conns[c].phase) ==>
      c in t.conns && Serving(t.conns[c].phase) && t.conns[c].phase.name == s.conns[c].phase.name
    ensures RegistryOk(t)
  {
  }

  lemma NewConnOk(cs: Conns, c: ConnId)
    requires c in cs && cs[c] == NEW_CONN
    ensures ConnOk(cs, c)
  {
    hide EntryOk, FateOk;
    assert EncodeAll([]) == [];
    assert Messages([]) == [];
  }

  lemma AcceptOk(s: Relay, c: ConnId)
    requires Inv(s)
    ensures Inv(Step(s, Accept(c))) && Extends(s.conns, Step(s, Accept(c)).conns)
  {
    hide ConnOk;
    if c !in s.conns {
      var t := Put(s, c, NEW_CONN);
      OthersOk(s.conns, t.conns, c, c);
      NewConnOk(t.conns, c);
    }
  }

  lemma ArriveOk(s: Relay, c: ConnId, data: bytes)
    requires Inv(s)
    ensures Inv(Step(s, Arrive(c, data))) && Extends(s.conns, Step(s, Arrive(c, data)).conns)
  {
    hide ConnOk, WireOk, Ordered;
    if c in s.conns && !s.conns[c].phase.Closed? {
      var conn := s.conns[c];
      Parts(s.conns, c);
      assert EncodeAll(conn.frames) + (conn.pending + data) == EncodeAll(conn.frames) + conn.pending + data;
      var later := conn.(pending := conn.pending + data, arrived := conn.arrived + data);
      LocalStepOk(s.conns, s.conns[c := later], c);
      RegistryKept(s, Put(s, c, later));
    }
  }

  lemma StallOk(s: Relay, c: ConnId)
    requires Inv(s)
    ensures Inv(Step(s, Stall(c))) && Extends(s.conns, Step(s, Stall(c)).conns)
  {
    hide ConnOk, WireOk, Read, Ordered;
    if c in s.conns && s.conns[c].phase.Reading? && Read(s.conns[c].pending).Starved? {
      var conn := s.conns[c];
      Parts(s.conns, c);
      assert EncodeAll(conn.frames) + [] == EncodeAll(conn.frames);
      var later := conn.(pending := [], discarded := conn.discarded + |conn.pending|);
      LocalStepOk(s.conns, s.conns[c := later], c);
      RegistryKept(s, Put(s, c, later));
    }
  }

  lemma PhaseChangeOk(s: Relay, c: ConnId, phase: Phase)
    requires ConnsOk(s.conns) && c in s.conns && PhaseOk(s.conns, s.conns[c].(phase := phase))
    ensures var t := Put(s, c, s.conns[c].(phase := phase)); ConnsOk(t.conns) && Extends(s.conns, t.conns)
  {
    hide ConnOk, WireOk, ReadOk, Ordered, PhaseOk;
    ActOk(s.conns, s.conns[c := s.conns[c].(phase := phase)], c);
  }

  lemma LeaveOk(s: Relay, ev: Event)
    requires Inv(s) && (ev.Quit? || ev.Unregister? || ev.Close?)
    ensures Inv(Step(s, ev)) && Extends(s.conns, Step(s, ev).conns)
  {
    hide ConnsOk, Receiving, Looking, Writing, PhaseOk;
    if Step(s, ev) != s {
      LeavingPhaseOk(s, ev);
      PhaseChangeOk(s, ev.c, Step(s, ev).conns[ev.c].phase);
    }
  }

  lemma LeavingPhaseOk(s: Relay, ev: Event)
    requires ConnsOk(s.conns) && (ev.Quit? || ev.Unregister? || ev.Close?) && Step(s, ev) != s
    ensures PhaseOk(s.conns, s.conns[ev.c].(phase := Step(s, ev).conns[ev.c].phase))
  {
    hide ConnsOk, WireOk, ReadOk, Ordered, Receiving, Looking, Writing;
    Parts(s.conns, ev.c);
  }

  lemma LookupOk(s: Relay, c: ConnId)
    requires Inv(s)
    ensures Inv(Step(s, Lookup(c))) && Extends(s.conns, Step(s, Lookup(c)).conns)
  {
    hide ConnsOk, RegistryOk, Looking, Receiving, Writing, Read;
    if Step(s, Lookup(c)) != s {
      LookedConnsOk(s, c);
      LookedRegistryOk(s, c);
    }
  }

  lemma LookedRegistryOk(s: Relay, c: ConnId)
    requires RegistryOk(s) && c in s.conns && s.conns[c].phase.Resolving?
    ensures RegistryOk(Looking(s, c))
  {
    hide RegistryOk;
    RegistryKept(s, Looking(s, c));
  }

  lemma LookedConnsOk(s: Relay, c: ConnId)
    requires RegistryOk(s) && ConnsOk(s.conns) && c in s.conns && s.conns[c].phase.Resolving?
    ensures ConnsOk(Looking(s, c).conns) && Extends(s.conns, Looking(s, c).conns)
  {
    hide ConnsOk, Extends, WireOk, ReadOk, Ordered;
    Parts(s.conns, c);
    var m := s.conns[c].phase.msg;
    if m.dst in s.clients {
      Parts(s.conns, s.clients[m.dst]);
      PhaseChangeOk(s, c, Looking(s, c).conns[c].phase);
    } else {
      ActOk(s.conns, Looking(s, c).conns, c);
    }
  }

  lemma ReadMore(conn: Conn, m: Message, size: nat)
    requires ReadOk(conn) && Read(conn.pending) == Frame(m, size)
    ensures size <= |conn.pending|
    ensures ReadOk(conn.(pending := conn.pending[size..], frames := conn.frames + [m]))
  {
    hide Read, Encode, EncodeAll;
    AcceptedIsCanonical(conn.pending);
    EncodeAllSnoc(conn.frames, m);
    assert conn.pending == conn.pending[..size] + conn.pending[size..];
    assert EncodeAll(conn.frames) + (conn.pending[..size] + conn.pending[size..])
        == EncodeAll(conn.frames + [m]) + conn.pending[size..];
  }

  lemma ReceiveOk(s: Relay, c: ConnId)
    requires Inv(s)
    ensures Inv(Step(s, Receive(c))) && Extends(s.conns, Step(s, Receive(c)).conns)
  {
    hide ConnsOk, RegistryOk, Receiving;
    if Step(s, Receive(c)) != s {
      ReceivedConnsOk(s, c);
      ReceivedRegistryOk(s, c);
    }
  }

  lemma ReceivedRegistryOk(s: Relay, c: ConnId)
    requires RegistryOk(s) && c in s.conns
    requires s.conns[c].phase.Unregistered? || s.conns[c].phase.Reading?
    ensures RegistryOk(Receiving(s, c))
  {
    hide Read;
    if s.conns[c].phase.Reading? {
      RegistryKept(s, Receiving(s, c));
    }
  }

  lemma ReceivedConnsOk(s: Relay, c: ConnId)
    requires ConnsOk(s.conns) && c in s.conns
    requires s.conns[c].phase.Unregistered? || s.conns[c].phase.Reading?
    ensures ConnsOk(Receiving(s, c).conns) && Extends(s.conns, Receiving(s, c).conns)
  {
    hide ConnOk, WireOk, Read, ReadOk, Ordered;
    var conn := s.conns[c];
    Parts(s.conns, c);
    match Read(conn.pending)
    case Frame(m, size) =>
      AcceptedIsCanonical(conn.pending);
      ReceivedFrameOk(s.conns, Receiving(s, c).conns, c, m, size);
    case Oversized => PhaseChangeOk(s, c, Abandoned(conn.phase));
    case Starved =>
  }

  lemma ReceivedFrameOk(cs: Conns, ds: Conns, c: ConnId, m: Message, size: nat)
    requires ConnsOk(cs) && c in cs && Read(cs[c].pending) == Frame(m, size)
    requires size <= |cs[c].pending|
    requires cs[c].phase.Unregistered? || cs[c].phase.Reading?
    requires var read := cs[c].(pending := cs[c].pending[size..], frames := cs[c].frames + [m]);
      ds == cs[c := if cs[c].phase.Reading? then Dispatch(read, cs[c].phase.name, m)
                    else read.(phase := if m.kind == REGISTER then Reading(m.src) else Closing,
                               fates := cs[c].fates + [Ignored])]
    ensures ConnsOk(ds) && Extends(cs, ds)
  {
    hide ConnOk, ConnsOk, Extends, WireOk, Read, ReadOk, Ordered;
    Parts(cs, c);
    ReadMore(cs[c], m, size);
    ReadKept(cs[c].(pending := cs[c].pending[size..], frames := cs[c].frames + [m]), ds[c]);
    LocalStepOk(cs, ds, c);
  }

  lemma WrittenWireOk(dst: Conn, m: Message, room: nat, from: ConnId, index: nat)
    requires WireOk(dst) && InRange(m) && Carried(m) == m
    ensures WireOk(WriteTo(dst, m, room, from, index))
  {
    hide Encode, EncodeAll, InRange, Carried;
    var n := Taken(dst, m, room);
    var later := WriteTo(dst, m, room, from, index);
    EncodeIsNotEmpty(m);
    if n == |Encode(m)| {
      assert Messages(later.log) == Messages(dst.log) + [m];
      EncodeAllSnoc(Messages(dst.log), m);
    } else if dst.broken {
      var m', n' :| CutOff(dst, m', n');
      assert later.wire == dst.wire;
      assert CutOff(later, m', n');
    } else {
      assert CutOff(later, m, n);
    }
  }

  lemma EncodeIsNotEmpty(m: Message)
    ensures Encode(m) != []
  {
  }

  lemma WrittenLogOrdered(cs: Conns, d: ConnId, c: ConnId, m: Message)
    requires d in cs && c in cs && Ordered(cs[d].log)
    requires forall i :: 0 <= i < |cs[d].log| ==> EntryOk(cs, d, i)
    ensures Ordered(cs[d].log + [Sent(m, c, |cs[c].fates|)])
  {
    var log := cs[d].log + [Sent(m, c, |cs[c].fates|)];
    forall i, j | 0 <= i < j < |log| && log[i].from == log[j].from ensures log[i].index < log[j].index {
      assert EntryOk(cs, d, i);
    }
  }

  /** `ds` is `cs` after handler `c` has written `m` to connection `to` and recorded `fate`. */
  ghost predicate Wrote(cs: Conns, ds: Conns, c: ConnId, to: ConnId, m: Message, room: nat, fate: Fate) {
    && c in cs && to in cs
    && (cs[c].phase.Forwarding? || cs[c].phase.Ponging?)
    && to == (if cs[c].phase.Forwarding? then cs[c].phase.to else c)
    && m == (if cs[c].phase.Forwarding? then cs[c].phase.msg else PONG_FRAME)
    && fate == (if Taken(cs[to], m, room) < |Encode(m)| then Lost(to)
                else if cs[c].phase.Forwarding? then Delivered(to, |cs[to].log|)
                else Answered(|cs[to].log|))
    && var mid := cs[to := WriteTo(cs[to], m, room, c, |cs[c].fates|)];
       ds == mid[c := mid[c].(phase := Reading(cs[c].phase.name), fates := mid[c].fates + [fate])]
  }

  lemma InHandIsCarried(cs: Conns, c: ConnId)
    requires c in cs && ReadOk(cs[c]) && PhaseOk(cs, cs[c]) && cs[c].phase.Forwarding?
    ensures InRange(cs[c].phase.msg) && Carried(cs[c].phase.msg) == cs[c].phase.msg
  {
  }

  lemma WrittenExtends(cs: Conns, ds: Conns, c: ConnId, to: ConnId, m: Message, room: nat, fate: Fate)
    requires Wrote(cs, ds, c, to, m, room, fate) && PhaseOk(cs, cs[c])
    ensures Extends(cs, ds)
  {
    hide Encode, Carried, PhaseOk;
  }

  lemma WrittenPhaseOk(cs: Conns, ds: Conns, c: ConnId, to: ConnId, m: Message, room: nat, fate: Fate)
    requires Wrote(cs, ds, c, to, m, room, fate) && PhaseOk(cs, cs[c])
    ensures PhaseOk(ds, ds[c])
  {
    hide Encode;
  }

  /** The new log entry and the new fate point to each other. */
  lemma WrittenEntryOk(cs: Conns, ds: Conns, c: ConnId, to: ConnId, m: Message, room: nat, fate: Fate)
    requires Wrote(cs, ds, c, to, m, room, fate) && PhaseOk(cs, cs[c])
    ensures forall i :: |cs[to].log| <= i < |ds[to].log| ==> EntryOk(ds, to, i)
  {
    hide Encode;
  }

  lemma WrittenFateOk(cs: Conns, ds: Conns, c: ConnId, to: ConnId, m: Message, room: nat, fate: Fate)
    requires Wrote(cs, ds, c, to, m, room, fate) && PhaseOk(cs, cs[c])
    ensures FateOk(ds, c, |cs[c].fates|)
  {
    hide Encode;
  }

  /** A connection that was written to, apart from what is new in its log. */
  lemma WrittenConnOk(cs: Conns, c: ConnId, to: ConnId, m: Message, room: nat)
    requires ConnsOk(cs) && c in cs && to in cs && InRange(m) && Carried(m) == m
    ensures var dst := WriteTo(cs[to], m, room, c, |cs[c].fates|);
      && WireOk(dst) && Ordered(dst.log)
      && SameReading(cs[to], dst) && dst.fates == cs[to].fates && dst.phase == cs[to].phase
  {
    hide EntryOk, ReadOk, WireOk, PhaseOk, Ordered, FateOk, Encode;
    assert ConnOk(cs, to);
    WrittenWireOk(cs[to], m, room, c, |cs[c].fates|);
    WrittenLogOrdered(cs, to, c, m);
  }

  lemma WroteOk(cs: Conns, ds: Conns, c: ConnId, to: ConnId, m: Message, room: nat, fate: Fate)
    requires ConnsOk(cs) && Wrote(cs, ds, c, to, m, room, fate)
    ensures ConnsOk(ds) && Extends(cs, ds)
  {
    hide ConnOk, EntryOk, FateOk, ReadOk, WireOk, Ordered, PhaseOk, WriteTo;
    Parts(cs, c);
    Parts(cs, to);
    if cs[c].phase.Forwarding? { InHandIsCarried(cs, c); }
    WrittenExtends(cs, ds, c, to, m, room, fate);
    WrittenPhaseOk(cs, ds, c, to, m, room, fate);
    WrittenEntryOk(cs, ds, c, to, m, room, fate);
    WrittenFateOk(cs, ds, c, to, m, room, fate);
    WrittenConnOk(cs, c, to, m, room);
    OthersOk(cs, ds, c, to);
    ReadKept(cs[c], ds[c]);
    if to != c {
      ReadKept(cs[to], ds[to]);
      WireKept(cs[c], ds[c]);
      PhaseKept(cs, ds, cs[to]);
      SamePhase(ds, cs[to], ds[to]);
      assert ConnOk(cs, to);
      StillOk(cs, ds, to);
    } else {
      WireKept(WriteTo(cs[to], m, room, c, |cs[c].fates|), ds[c]);
    }
    assert ConnOk(cs, c);
    StillOk(cs, ds, c);
  }

  lemma SamePhase(cs: Conns, conn: Conn, later: Conn)
    requires PhaseOk(cs, conn) && SameReading(conn, later)
    requires later.phase == conn.phase && later.fates == conn.fates
    ensures PhaseOk(cs, later)
  {
  }

  lemma WriteOk(s: Relay, c: ConnId, room: nat)
    requires Inv(s)
    ensures Inv(Step(s, Write(c, room))) && Extends(s.conns, Step(s, Write(c, room)).conns)
  {
    hide ConnsOk, Encode;
    var t := Step(s, Write(c, room));
    if t != s {
      var conn := s.conns[c];
      var to := if conn.phase.Forwarding? then conn.phase.to else c;
      var m := if conn.phase.Forwarding? then conn.phase.msg else PONG_FRAME;
      WroteOk(s.conns, t.conns, c, to, m, room, t.conns[c].fates[|conn.fates|]);
      RegistryKept(s, t);
    }
  }

  lemma StepKeepsInv(s: Relay, ev: Event)
    requires Inv(s)
    ensures Inv(Step(s, ev)) && Extends(s.conns, Step(s, ev).conns)
  {
    hide Inv, Extends, Step;
    match ev
    case Accept(c) => AcceptOk(s, c);
    case Arrive(c, data) => ArriveOk(s, c, data);
    case Receive(c) => ReceiveOk(s, c);
    case Stall(c) => StallOk(s, c);
    case Lookup(c) => LookupOk(s, c);
    case Write(c, room) => WriteOk(s, c, room);
    case Quit(c) => LeaveOk(s, ev);
    case Unregister(c) => LeaveOk(s, ev);
    case Close(c) => LeaveOk(s, ev);
  }

  lemma {:induction false} RunKeepsInv(s: Relay, evs: seq<Event>)
    requires Inv(s)
    ensures Inv(Run(s, evs)) && Extends(s.conns, Run(s, evs).conns)
    decreases |evs|
  {
    hide Inv, Step;
    if evs != [] {
      StepKeepsInv(s, evs[0]);
      RunKeepsInv(Step(s, evs[0]), evs[1..]);
    }
  }

  /** Every state the server can reach, under any interleaving, satisfies the invariant. */
  lemma ReachableIsOk(evs: seq<Event>)
    ensures Inv(After(evs))
  {
    hide Inv, Step, Run;
    StartIsOk();
    RunKeepsInv(Start(), evs);
  }

  lemma StartIsOk()
    ensures Inv(Start())
  {
    hide ConnOk;
  }
}
