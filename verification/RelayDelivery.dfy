/** What the relay protocol promises its clients, over every run and every interleaving. */
module RelayDelivery {
  import opened Bytes
  import opened RelayCodec
  import opened RelayProtocol

  // ---------------------------------------------------------------- the wire

  /** Whatever the interleaving, what a client reads off its connection is whole frames, namely
      those of the log, in order; only a failed write leaves the beginning of one more frame,
      and a reader cannot mistake that for a frame. */
  lemma WireIsWholeFrames(evs: seq<Event>, d: ConnId)
    requires d in After(evs).conns
    ensures var conn := After(evs).conns[d]; var read := ReadAll(conn.wire);
      && read.messages == Messages(conn.log)
      && if conn.broken then Read(read.rest) == Starved else read.rest == []
  {
    hide Read, ReadAll, Encode, InRange, Carried, After, RegistryOk, ConnOk, ReadOk, PhaseOk, Ordered;
    ReachableIsOk(evs);
    var conn := After(evs).conns[d];
    Parts(After(evs).conns, d);
    var ms := Messages(conn.log);
    assert CarriedAll(ms) == ms;
    if conn.broken {
      var m: Message, n: nat :| CutOff(conn, m, n);
      CutFrameStarves(m, n);
      StreamRoundTrip(ms, Encode(m)[..n]);
      ReadAllStops(Encode(m)[..n]);
    } else {
      StreamRoundTrip(ms, []);
      ReadAllStops([]) by { NothingStarves(); }
      assert EncodeAll(ms) + [] == EncodeAll(ms);
    }
  }

  // ---------------------------------------------------------------- order and exactness

  /** The Data frames in a log that came from one handler. */
  function DataFrom(log: seq<Sent>, c: ConnId): seq<Sent> {
    if log == [] then []
    else
      var before := DataFrom(log[..|log| - 1], c);
      var e := log[|log| - 1];
      if e.from == c && e.message.kind == DATA then before + [e] else before
  }

  /** `xs` is `ys` with some elements left out: `ks` are the places of those kept. */
  ghost predicate Picks<T>(ks: seq<nat>, xs: seq<T>, ys: seq<T>) {
    && |ks| == |xs|
    && (forall i, j :: 0 <= i < j < |ks| ==> ks[i] < ks[j])
    && (forall i :: 0 <= i < |ks| ==> ks[i] < |ys| && xs[i] == ys[ks[i]])
  }

  ghost predicate Subsequence<T(!new)>(xs: seq<T>, ys: seq<T>) {
    exists ks :: Picks(ks, xs, ys)
  }

  lemma {:induction false} DataFromMembers(log: seq<Sent>, c: ConnId)
    ensures forall e :: e in DataFrom(log, c) ==> e in log && e.from == c && e.message.kind == DATA
  {
    if log != [] {
      var before := log[..|log| - 1];
      DataFromMembers(before, c);
      assert log == before + [log[|log| - 1]];
    }
  }

  lemma OrderedInit(log: seq<Sent>)
    requires Ordered(log) && log != []
    ensures var before := log[..|log| - 1]; var last := log[|log| - 1];
      Ordered(before) && forall e :: e in before && e.from == last.from ==> e.index < last.index
  {
    var before := log[..|log| - 1];
    forall e | e in before && e.from == log[|log| - 1].from ensures e.index < log[|log| - 1].index {
      var i :| 0 <= i < |before| && before[i] == e;
      assert log[i] == e;
    }
  }

  lemma OrderedSnoc(log: seq<Sent>, last: Sent)
    requires Ordered(log) && forall e :: e in log && e.from == last.from ==> e.index < last.index
    ensures Ordered(log + [last])
  {
  }

  lemma {:induction false} DataFromOrder(log: seq<Sent>, c: ConnId)
    requires Ordered(log)
    ensures Ordered(DataFrom(log, c))
  {
    hide Ordered;
    if log == [] {
      NothingOrdered();
    } else {
      var before := log[..|log| - 1];
      OrderedInit(log);
      DataFromOrder(before, c);
      DataFromMembers(before, c);
      if log[|log| - 1].from == c { OrderedSnoc(DataFrom(before, c), log[|log| - 1]); }
    }
  }

  lemma NothingOrdered()
    ensures Ordered([])
  {
  }

  lemma DataEntryWasRead(cs: Conns, d: ConnId, i: nat, c: ConnId)
    requires ConnsOk(cs) && c in cs && d in cs && i < |cs[d].log|
    requires cs[d].log[i].message.kind == DATA && cs[d].log[i].from == c
    ensures cs[d].log[i].index < |cs[c].frames| && cs[c].frames[cs[d].log[i].index] == cs[d].log[i].message
  {
    hide ReadOk, WireOk, PhaseOk, FateOk, Ordered;
    assert ConnOk(cs, d);
    assert EntryOk(cs, d, i);
  }

  /** FIFO and integrity through the relay: the Data frames that a connection was sent from one
      handler are frames which that handler read, in the order it read them, each at most once
      and every name and payload as it was. */
  lemma ForwardingIsFifo(evs: seq<Event>, c: ConnId, d: ConnId)
    requires c in After(evs).conns && d in After(evs).conns
    ensures var cs := After(evs).conns;
      Subsequence(Messages(DataFrom(cs[d].log, c)), cs[c].frames)
  {
    hide After, RegistryOk, ConnsOk, DataFrom, ReadOk, WireOk, PhaseOk;
    var cs := After(evs).conns;
    ReachableIsOk(evs);
    Parts(cs, d);
    DataFromOrder(cs[d].log, c);
    DataFromMembers(cs[d].log, c);
    var sent := DataFrom(cs[d].log, c);
    var ks := seq(|sent|, i requires 0 <= i < |sent| => sent[i].index);
    forall i | 0 <= i < |ks| ensures ks[i] < |cs[c].frames| && Messages(sent)[i] == cs[c].frames[ks[i]] {
      assert sent[i] in cs[d].log;
      var at :| 0 <= at < |cs[d].log| && cs[d].log[at] == sent[i];
      DataEntryWasRead(cs, d, at, c);
    }
    assert Picks(ks, Messages(sent), cs[c].frames);
  }

  predicate IsFor(e: Sent, c: ConnId, k: nat) {
    e.from == c && e.index == k
  }

  /** The fate of frame `k` of `c` names log entry `i` of `d`. */
  predicate IsNamedBy(fates: seq<Fate>, k: nat, c: ConnId, d: ConnId, i: nat) {
    k < |fates| && (fates[k] == Delivered(d, i) || (fates[k] == Answered(i) && d == c))
  }

  /** Exactly once: every frame that a handler has read is still in its hands, or has one fate
      that fits it. It stands in the one log entry that its fate names, a Data frame unchanged
      on a connection registered under the destination name, a Ping as a Pong on its own
      connection; and if it was not delivered nor answered it stands in none. */
  lemma EveryFrameIsAccountedFor(evs: seq<Event>, c: ConnId, k: nat)
    requires c in After(evs).conns && 0 < k < |After(evs).conns[c].frames|
    ensures var conn := After(evs).conns[c];
      k < |conn.fates| || (k == |conn.fates| && InHand(conn.phase))
    ensures var cs := After(evs).conns;
      forall d, i: nat :: d in cs && i < |cs[d].log| ==>
        (IsFor(cs[d].log[i], c, k) <==> IsNamedBy(cs[c].fates, k, c, d, i))
    ensures var cs := After(evs).conns; var conn := cs[c]; var frame := conn.frames[k];
      k < |conn.fates| ==>
        match conn.fates[k]
        case Ignored => frame.kind != DATA && frame.kind != PING
        case Unroutable => frame.kind == DATA
        case Lost(_) => frame.kind == DATA || frame.kind == PING
        case Delivered(d, i) =>
          && frame.kind == DATA && d in cs && i < |cs[d].log|
          && cs[d].log[i].message == frame && RegisteredAs(cs[d], frame.dst)
        case Answered(i) =>
          frame.kind == PING && i < |conn.log| && conn.log[i].message == PONG_FRAME
  {
    hide ReadOk, WireOk, Ordered;
    var cs := After(evs).conns;
    ReachableIsOk(evs);
    assert ConnOk(cs, c);
    forall d, i: nat | d in cs && i < |cs[d].log|
      ensures IsFor(cs[d].log[i], c, k) <==> IsNamedBy(cs[c].fates, k, c, d, i)
    {
      EntryMatchesFate(cs, c, k, d, i);
    }
    if k < |cs[c].fates| {
      assert FateOk(cs, c, k);
      if cs[c].fates[k].Delivered? {
        var (d, i) := (cs[c].fates[k].to, cs[c].fates[k].at);
        assert ConnOk(cs, d);
        assert EntryOk(cs, d, i);
      }
    }
  }

  lemma EntryMatchesFate(cs: Conns, c: ConnId, k: nat, d: ConnId, i: nat)
    requires ConnsOk(cs) && c in cs && d in cs && i < |cs[d].log| && k < |cs[c].frames|
    ensures IsFor(cs[d].log[i], c, k) <==> IsNamedBy(cs[c].fates, k, c, d, i)
  {
    hide ReadOk, WireOk, Ordered, PhaseOk;
    assert ConnOk(cs, d);
    assert EntryOk(cs, d, i);
    if k < |cs[c].fates| {
      assert ConnOk(cs, c);
      assert FateOk(cs, c, k);
    }
  }

  // ---------------------------------------------------------------- lookup and write

  /** No handler but `c` takes a step; bytes may arrive for it. */
  predicate ByOthers(ev: Event, c: ConnId) {
    ev.c != c || ev.Arrive?
  }

  predicate SameHandler(conn: Conn, later: Conn) {
    later.phase == conn.phase && later.fates == conn.fates && later.frames == conn.frames
  }

  /** What the others do leaves a handler where it stands, whatever they write to its connection. */
  lemma OthersLeaveHandlerAlone(s: Relay, ev: Event, c: ConnId)
    requires c in s.conns && ByOthers(ev, c)
    ensures c in Step(s, ev).conns && SameHandler(s.conns[c], Step(s, ev).conns[c])
  {
    hide Read, Encode;
  }

  lemma {:induction false} RunOfOthers(s: Relay, evs: seq<Event>, c: ConnId)
    requires c in s.conns && forall i :: 0 <= i < |evs| ==> ByOthers(evs[i], c)
    ensures c in Run(s, evs).conns && SameHandler(s.conns[c], Run(s, evs).conns[c])
    decreases |evs|
  {
    hide Step;
    if evs != [] {
      OthersLeaveHandlerAlone(s, evs[0], c);
      RunOfOthers(Step(s, evs[0]), evs[1..], c);
    }
  }

  /** A Data frame in hand is lost or delivered for the stated reasons only. Nobody under its
      destination name at the lookup: it is unroutable. Otherwise, whatever other handlers do
      between the lookup and the write, it goes to the connection found, even if that has
      left the map by then: delivered, as the next whole frame on that wire, if and only if
      the connection is neither closed nor broken and takes the whole frame. */
  lemma ForwardingOutcome(s: Relay, c: ConnId, evs: seq<Event>, room: nat)
    requires Inv(s) && c in s.conns && s.conns[c].phase.Resolving?
    requires forall i :: 0 <= i < |evs| ==> ByOthers(evs[i], c)
    ensures var m := s.conns[c].phase.msg; var k := |s.conns[c].fates|;
      var t := Run(Step(s, Lookup(c)), evs); var u := Step(t, Write(c, room));
      && c in t.conns && c in u.conns
      && if m.dst !in s.clients then t.conns[c].fates == s.conns[c].fates + [Unroutable]
         else
           var d := s.clients[m.dst];
           && d in t.conns && d in u.conns && |u.conns[c].fates| == k + 1
           && if t.conns[d].phase.Closed? || t.conns[d].broken || room < |Encode(m)|
              then u.conns[c].fates[k] == Lost(d) && u.conns[d].log == t.conns[d].log
              else
                && u.conns[c].fates[k] == Delivered(d, |t.conns[d].log|)
                && u.conns[d].log == t.conns[d].log + [Sent(m, c, k)]
                && u.conns[d].wire == t.conns[d].wire + Encode(m)
  {
    hide Step, ConnsOk, Encode;
    var found := Step(s, Lookup(c));
    LookupStep(s, c);
    RunOfOthers(found, evs, c);
    StepKeepsInv(s, Lookup(c));
    RunKeepsInv(found, evs);
    StepKeepsInv(Run(found, evs), Write(c, room));
    var m := s.conns[c].phase.msg;
    if m.dst in s.clients {
      assert s.clients[m.dst] in found.conns;
      WriteStep(Run(found, evs), c, room);
    }
  }

  lemma LookupStep(s: Relay, c: ConnId)
    requires c in s.conns && s.conns[c].phase.Resolving?
    ensures var t := Step(s, Lookup(c)); var m := s.conns[c].phase.msg;
      && t.conns.Keys == s.conns.Keys
      && (m.dst !in s.clients ==> t.conns[c].fates == s.conns[c].fates + [Unroutable])
      && (m.dst in s.clients ==>
            && t.conns[c].fates == s.conns[c].fates
            && t.conns[c].phase.Forwarding? && t.conns[c].phase.msg == m && t.conns[c].phase.to == s.clients[m.dst])
  {
  }

  lemma WriteStep(t: Relay, c: ConnId, room: nat)
    requires c in t.conns && t.conns[c].phase.Forwarding? && t.conns[c].phase.to in t.conns
    ensures var u := Step(t, Write(c, room)); var m := t.conns[c].phase.msg; var d := t.conns[c].phase.to;
      var k := |t.conns[c].fates|;
      && c in u.conns && d in u.conns && |u.conns[c].fates| == k + 1
      && if t.conns[d].phase.Closed? || t.conns[d].broken || room < |Encode(m)|
         then u.conns[c].fates[k] == Lost(d) && u.conns[d].log == t.conns[d].log
         else
           && u.conns[c].fates[k] == Delivered(d, |t.conns[d].log|)
           && u.conns[d].log == t.conns[d].log + [Sent(m, c, k)]
           && u.conns[d].wire == t.conns[d].wire + Encode(m)
  {
    EncodeIsNotEmpty(t.conns[c].phase.msg);
    hide Encode;
  }

  // ---------------------------------------------------------------- from client to client

  /** The read deadline passes while the handler of `c` is in the middle of a frame. */
  predicate CutsFrame(s: Relay, ev: Event, c: ConnId) {
    && ev == Stall(c) && c in s.conns && s.conns[c].phase.Reading?
    && s.conns[c].pending != [] && Read(s.conns[c].pending).Starved?
  }

  ghost predicate NoFrameCut(evs: seq<Event>, c: ConnId) {
    forall i :: 0 <= i < |evs| ==> !CutsFrame(After(evs[..i]), evs[i], c)
  }

  function Discarded(s: Relay, c: ConnId): nat {
    if c in s.conns then s.conns[c].discarded else 0
  }

  lemma StepDiscards(s: Relay, ev: Event, c: ConnId)
    ensures Discarded(Step(s, ev), c) == Discarded(s, c) + (if CutsFrame(s, ev, c) then |s.conns[c].pending| else 0)
  {
    hide Read, Encode;
  }

  lemma {:induction false} DiscardedIfCut(evs: seq<Event>, c: ConnId)
    ensures Discarded(After(evs), c) == 0 <==> NoFrameCut(evs, c)
    decreases |evs|
  {
    hide Step, CutsFrame, Discarded, NoFrameCut;
    if evs == [] {
      assert Discarded(After([]), c) == 0 && NoFrameCut([], c) by { NothingDiscarded(c); }
    } else {
      var before := evs[..|evs| - 1];
      var last := evs[|evs| - 1];
      DiscardedIfCut(before, c);
      assert evs == before + [last];
      RunSplit(Start(), before, [last]);
      RunOne(After(before), last);
      StepDiscards(After(before), last, c);
      LastCut(before, last, c);
      CutHasBytes(After(before), last, c);
    }
  }

  lemma NothingDiscarded(c: ConnId)
    ensures Discarded(After([]), c) == 0 && NoFrameCut([], c)
  {
  }

  lemma LastCut(before: seq<Event>, last: Event, c: ConnId)
    ensures NoFrameCut(before + [last], c) <==> NoFrameCut(before, c) && !CutsFrame(After(before), last, c)
  {
    hide CutsFrame, After;
    var evs := before + [last];
    assert forall i :: 0 <= i <= |before| ==> evs[..i] == before[..i];
    assert before[..|before|] == before && evs[|before|] == last;
    assert forall i :: 0 <= i < |before| ==> evs[i] == before[i];
    if NoFrameCut(evs, c) {
      assert !CutsFrame(After(evs[..|before|]), evs[|before|], c);
      forall i | 0 <= i < |before| ensures !CutsFrame(After(before[..i]), before[i], c) {
        assert !CutsFrame(After(evs[..i]), evs[i], c);
      }
    }
  }

  lemma CutHasBytes(s: Relay, ev: Event, c: ConnId)
    ensures CutsFrame(s, ev, c) ==> c in s.conns && |s.conns[c].pending| > 0
  {
    hide Read;
  }

  lemma NothingLost(evs: seq<Event>, c: ConnId)
    requires c in After(evs).conns
    ensures After(evs).conns[c].discarded == 0 <==> NoFrameCut(evs, c)
  {
    hide After, NoFrameCut;
    DiscardedIfCut(evs, c);
  }

  /** The frames a handler has read, with what is pending, make up what has arrived, if and only
      if no read deadline has passed in the middle of a frame. */
  lemma FramingHoldsUntilFrameIsCut(evs: seq<Event>, c: ConnId)
    requires c in After(evs).conns
    ensures var conn := After(evs).conns[c];
      NoFrameCut(evs, c) <==> EncodeAll(conn.frames) + conn.pending == conn.arrived
  {
    hide WireOk, EncodeAll, NoFrameCut;
    ReachableIsOk(evs);
    NothingLost(evs, c);
    Parts(After(evs).conns, c);
  }

  /** A client that sends `ms` and has so far got `arrived` of it across. */
  lemma ReadsWhatWasSent(evs: seq<Event>, c: ConnId, ms: seq<Message>)
    requires c in After(evs).conns && NoFrameCut(evs, c)
    requires AllInRange(ms) && After(evs).conns[c].arrived <= EncodeAll(ms)
    ensures After(evs).conns[c].frames <= CarriedAll(ms)
  {
    hide WireOk, EncodeAll, Read, ReadAll, InRange, Carried, CarriedAll, PhaseOk, Ordered, NoFrameCut;
    ReachableIsOk(evs);
    NothingLost(evs, c);
    Parts(After(evs).conns, c);
    var conn := After(evs).conns[c];
    var later := EncodeAll(ms)[|conn.arrived|..];
    assert EncodeAll(conn.frames) + (conn.pending + later) == EncodeAll(ms) + [];
    assert CarriedAll(conn.frames) == conn.frames;
    StreamRoundTrip(conn.frames, conn.pending + later);
    StreamRoundTrip(ms, []);
    ReadAllStops([]) by { NothingStarves(); }
    assert CarriedAll(ms) + [] == conn.frames + ReadAll(conn.pending + later).messages;
    assert CarriedAll(ms) == conn.frames + ReadAll(conn.pending + later).messages;
  }

  /** End to end: if the client on `c` sends in-range messages and no read deadline passes in
      the middle of a frame, the Data frames that the client on `d` reads from it are messages
      the first client sent, in the order it sent them and none of them twice. */
  lemma EndToEndFifo(evs: seq<Event>, c: ConnId, d: ConnId, ms: seq<Message>)
    requires c in After(evs).conns && d in After(evs).conns && NoFrameCut(evs, c)
    requires AllInRange(ms) && After(evs).conns[c].arrived <= EncodeAll(ms)
    ensures var log := After(evs).conns[d].log;
      && ReadAll(After(evs).conns[d].wire).messages == Messages(log)
      && Subsequence(Messages(DataFrom(log, c)), CarriedAll(ms))
  {
    hide ReadAll, EncodeAll, CarriedAll, AllInRange, NoFrameCut;
    WireIsWholeFrames(evs, d);
    ForwardingIsFifo(evs, c, d);
    ReadsWhatWasSent(evs, c, ms);
    var xs := Messages(DataFrom(After(evs).conns[d].log, c));
    var ks :| Picks(ks, xs, After(evs).conns[c].frames);
    assert Picks(ks, xs, CarriedAll(ms));
  }

  const REGISTER_EMPTY := Message(REGISTER, [], [], [])
  const DATA_FROM_3 := Message(DATA, [3], [], [])

  const FIRST_TWO_BYTES: bytes := [2, 0, 0, 1, 1]
  const OTHER_BYTES: bytes := [3, 0, 0, 0, 0, 0]

  const CUT_FRAME_RUN: seq<Event> :=
    [Accept(0), Arrive(0, FIRST_TWO_BYTES), Receive(0)] + [Stall(0), Arrive(0, OTHER_BYTES), Receive(0)]

  /** The only connection, once its client has registered and two bytes of the next frame are there. */
  const TWO_BYTES_READY := Conn(Reading([]), [1, 1], [], false, FIRST_TWO_BYTES, 0, [REGISTER_EMPTY], [Ignored], [])

  lemma RunOfThree(s: Relay, e1: Event, e2: Event, e3: Event)
    ensures Run(s, [e1, e2, e3]) == Step(Step(Step(s, e1), e2), e3)
  {
    hide Step, Run;
    assert [e1, e2] + [e3] == [e1, e2, e3];
    RunSplit(s, [e1, e2], [e3]);
    RunOfTwo(s, e1, e2);
    RunOne(Step(Step(s, e1), e2), e3);
  }

  lemma CutFrameRunStarts()
    ensures After(CUT_FRAME_RUN[..3]) == Relay(map[[] := 0], map[0 := TWO_BYTES_READY])
  {
    hide Read, Looking, Writing, Receiving;
    RunOfThree(Start(), Accept(0), Arrive(0, FIRST_TWO_BYTES), Receive(0));
    assert CUT_FRAME_RUN[..3] == [Accept(0), Arrive(0, FIRST_TWO_BYTES), Receive(0)];
    assert [] + FIRST_TWO_BYTES == FIRST_TWO_BYTES;
    var s2 := Relay(map[], map[0 := NEW_CONN.(pending := FIRST_TWO_BYTES, arrived := FIRST_TWO_BYTES)]);
    assert Step(Step(Start(), Accept(0)), Arrive(0, FIRST_TWO_BYTES)) == s2;
    FirstFrameIsRead(s2);
  }

  lemma FirstFrameIsRead(s: Relay)
    requires s == Relay(map[], map[0 := NEW_CONN.(pending := FIRST_TWO_BYTES, arrived := FIRST_TWO_BYTES)])
    ensures Receiving(s, 0) == Relay(map[[] := 0], map[0 := TWO_BYTES_READY])
  {
    hide Read;
    ReadsOfCutFrameRun();
    assert FIRST_TWO_BYTES[3..] == [1, 1] && [] + [REGISTER_EMPTY] == [REGISTER_EMPTY];
    assert Receiving(s, 0).conns[0] == TWO_BYTES_READY;
  }

  lemma CutFrameRunGoesOn(s: Relay)
    requires s == Relay(map[[] := 0], map[0 := TWO_BYTES_READY])
    ensures var t := Run(s, [Stall(0), Arrive(0, OTHER_BYTES), Receive(0)]);
      && 0 in t.conns && t.conns[0].arrived == FIRST_TWO_BYTES + OTHER_BYTES && t.conns[0].discarded == 2
      && t.conns[0].frames == [REGISTER_EMPTY, Message(PING, [], [], [])]
  {
    hide Read, Looking, Writing;
    ReadsOfCutFrameRun();
    RunOfThree(s, Stall(0), Arrive(0, OTHER_BYTES), Receive(0));
    assert [] + OTHER_BYTES == OTHER_BYTES;
  }

  /** A deadline inside a frame breaks this: the client on connection 0 registers and then sends
      one Data frame; the deadline passes after two bytes of it, and the handler takes the
      third byte, a name, for a Ping that nobody sent. */
  lemma TimeoutInsideFrameForgesFrame()
    ensures 0 in After(CUT_FRAME_RUN).conns
    ensures var conn := After(CUT_FRAME_RUN).conns[0];
      && conn.arrived == EncodeAll([REGISTER_EMPTY, DATA_FROM_3])
      && conn.discarded == 2
      && conn.frames == [REGISTER_EMPTY, Message(PING, [], [], [])]
  {
    hide Read, Step, Run, Encode, EncodeAll;
    ReadsOfCutFrameRun();
    CutFrameRunStarts();
    CutFrameRunGoesOn(After(CUT_FRAME_RUN[..3]));
    RunSplit(Start(), CUT_FRAME_RUN[..3], CUT_FRAME_RUN[3..]);
    assert CUT_FRAME_RUN[..3] + CUT_FRAME_RUN[3..] == CUT_FRAME_RUN;
    assert CUT_FRAME_RUN[3..] == [Stall(0), Arrive(0, OTHER_BYTES), Receive(0)];
  }

  lemma ReadsOfCutFrameRun()
    ensures Read(FIRST_TWO_BYTES) == Frame(REGISTER_EMPTY, 3)
    ensures Read([1, 1]) == Starved
    ensures Read(OTHER_BYTES) == Frame(Message(PING, [], [], []), 1)
    ensures EncodeAll([REGISTER_EMPTY, DATA_FROM_3]) == FIRST_TWO_BYTES + OTHER_BYTES
  {
    EncodeAllSnoc([], REGISTER_EMPTY);
    EncodeAllSnoc([REGISTER_EMPTY], DATA_FROM_3);
    assert [] + [REGISTER_EMPTY] == [REGISTER_EMPTY];
    assert [REGISTER_EMPTY] + [DATA_FROM_3] == [REGISTER_EMPTY, DATA_FROM_3];
  }
}
