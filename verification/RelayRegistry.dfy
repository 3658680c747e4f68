/** Who can be reached through the relay: the map of registered clients over whole runs. */
module RelayRegistry {
  import opened Bytes
  import opened RelayCodec
  import opened RelayProtocol

  predicate Holds(s: Relay, name: bytes, c: ConnId) {
    name in s.clients && s.clients[name] == c
  }

  predicate IsServing(s: Relay, c: ConnId, name: bytes) {
    c in s.conns && Serving(s.conns[c].phase) && s.conns[c].phase.name == name
  }

  // ---------------------------------------------------------------- safety

  /** In every reachable state each entry of the map is keyed by the name its connection
      registered under, and the handler of that connection has not yet run its deferred
      delete, so its connection is not closed. */
  lemma EntriesAreServed(evs: seq<Event>, name: bytes)
    requires name in After(evs).clients
    ensures var c := After(evs).clients[name];
      && IsServing(After(evs), c, name)
      && RegisteredAs(After(evs).conns[c], name)
      && !After(evs).conns[c].phase.Closed?
  {
    hide ReadOk, WireOk, Ordered, EntryOk, FateOk;
    ReachableIsOk(evs);
    Parts(After(evs).conns, After(evs).clients[name]);
  }

  // ---------------------------------------------------------------- who stays registered

  /** The handler that runs in this step registers `name`, or deletes it on its way out. */
  predicate Touches(s: Relay, ev: Event, name: bytes) {
    match ev
    case Receive(c) =>
      && c in s.conns && s.conns[c].phase.Unregistered? && Read(s.conns[c].pending).Frame?
      && var m := Read(s.conns[c].pending).message;
         m.kind == REGISTER && m.src == name
    case Unregister(c) => c in s.conns && s.conns[c].phase == Leaving(name)
    case _ => false
  }

  predicate Untouched(s: Relay, evs: seq<Event>, name: bytes)
    decreases |evs|
  {
    evs == [] || (!Touches(s, evs[0], name) && Untouched(Step(s, evs[0]), evs[1..], name))
  }

  lemma StepOnMap(s: Relay, ev: Event, name: bytes, c: ConnId)
    requires c in s.conns && s.conns[c].frames != [] && !s.conns[c].phase.Unregistered?
    ensures !Touches(s, ev, name) ==> Holds(Step(s, ev), name, c) == Holds(s, name, c)
    ensures Touches(s, ev, name) ==> !Holds(Step(s, ev), name, c)
  {
    hide Read, Dispatch, WriteTo;
  }

  lemma StaysRegistered(s: Relay, ev: Event, c: ConnId)
    requires Inv(s) && c in s.conns && s.conns[c].frames != []
    ensures var t := Step(s, ev);
      Inv(t) && c in t.conns && t.conns[c].frames != [] && !t.conns[c].phase.Unregistered?
  {
    hide Step, ReadOk, WireOk, Ordered, EntryOk, FateOk;
    StepKeepsInv(s, ev);
    Parts(Step(s, ev).conns, c);
  }

  lemma {:induction false} NeverComesBack(s: Relay, evs: seq<Event>, name: bytes, c: ConnId)
    requires Inv(s) && c in s.conns && s.conns[c].frames != [] && !s.conns[c].phase.Unregistered?
    requires !Holds(s, name, c)
    ensures !Holds(Run(s, evs), name, c)
    decreases |evs|
  {
    hide Step, Inv, Touches;
    if evs != [] {
      StepOnMap(s, evs[0], name, c);
      StaysRegistered(s, evs[0], c);
      NeverComesBack(Step(s, evs[0]), evs[1..], name, c);
    }
  }

  /** Because the deferred delete goes by name only, a client stays reachable for exactly as
      long as no handler, its own or another, registers or deletes its name; once displaced it
      is never reachable again on that connection. */
  lemma {:induction false} ReachableIffNameUntouched(s: Relay, evs: seq<Event>, name: bytes, c: ConnId)
    requires Inv(s) && Holds(s, name, c)
    ensures Holds(Run(s, evs), name, c) <==> Untouched(s, evs, name)
    decreases |evs|
  {
    hide Step, ConnsOk, Touches;
    HolderHasRegistered(s, name, c);
    if evs != [] {
      StepOnMap(s, evs[0], name, c);
      StaysRegistered(s, evs[0], c);
      if Touches(s, evs[0], name) {
        NeverComesBack(Step(s, evs[0]), evs[1..], name, c);
      } else {
        ReachableIffNameUntouched(Step(s, evs[0]), evs[1..], name, c);
      }
    }
  }

  lemma HolderHasRegistered(s: Relay, name: bytes, c: ConnId)
    requires Inv(s) && Holds(s, name, c)
    ensures c in s.conns && s.conns[c].frames != [] && !s.conns[c].phase.Unregistered?
  {
    hide ReadOk, WireOk, Ordered, EntryOk, FateOk;
    Parts(s.conns, c);
  }

  // ---------------------------------------------------------------- names not shared

  /** No two handlers serve clients of the same name at this moment. */
  ghost predicate Unshared(s: Relay) {
    forall c, d, n :: IsServing(s, c, n) && IsServing(s, d, n) ==> c == d
  }

  ghost predicate MapIsExact(s: Relay) {
    forall c, n :: IsServing(s, c, n) <==> Holds(s, n, c)
  }

  lemma StepOnServing(s: Relay, ev: Event, c: ConnId, name: bytes)
    requires IsServing(Step(s, ev), c, name) && !IsServing(s, c, name)
    ensures Holds(Step(s, ev), name, c)
  {
    hide Read, Encode;
  }

  lemma TouchedBy(s: Relay, ev: Event, name: bytes)
    requires Touches(s, ev, name)
    ensures ev.Receive? ==> IsServing(Step(s, ev), ev.c, name) && !IsServing(s, ev.c, name)
    ensures ev.Unregister? ==> IsServing(s, ev.c, name) && !IsServing(Step(s, ev), ev.c, name)
  {
    hide Read;
  }

  lemma StillHolds(s: Relay, ev: Event, c: ConnId, name: bytes)
    requires Inv(s) && MapIsExact(s) && Unshared(s) && Unshared(Step(s, ev))
    requires IsServing(Step(s, ev), c, name)
    ensures Holds(Step(s, ev), name, c)
  {
    hide Step, ConnsOk, Touches;
    if !IsServing(s, c, name) {
      StepOnServing(s, ev, c, name);
    } else {
      HolderHasRegistered(s, name, c);
      StepOnMap(s, ev, name, c);
      if Touches(s, ev, name) {
        OnlyTwoTouch(s, ev, name);
        TouchedBy(s, ev, name);
        assert false;
      }
    }
  }

  lemma OnlyTwoTouch(s: Relay, ev: Event, name: bytes)
    requires Touches(s, ev, name)
    ensures ev.Receive? || ev.Unregister?
  {
  }

  lemma StepKeepsMapExact(s: Relay, ev: Event)
    requires Inv(s) && MapIsExact(s) && Unshared(s) && Unshared(Step(s, ev))
    ensures MapIsExact(Step(s, ev))
  {
    hide Step, ConnsOk, Unshared;
    StepKeepsInv(s, ev);
    forall c, n ensures IsServing(Step(s, ev), c, n) <==> Holds(Step(s, ev), n, c) {
      if IsServing(Step(s, ev), c, n) {
        StillHolds(s, ev, c, n);
      }
    }
  }

  ghost predicate NeverShared(evs: seq<Event>) {
    forall i :: 0 <= i <= |evs| ==> Unshared(After(evs[..i]))
  }

  ghost predicate AlwaysExact(evs: seq<Event>) {
    forall i :: 0 <= i <= |evs| ==> MapIsExact(After(evs[..i]))
  }

  lemma PrefixNeverShared(evs: seq<Event>, n: nat)
    requires NeverShared(evs) && n <= |evs|
    ensures NeverShared(evs[..n]) && Unshared(After(evs[..n]))
  {
    hide Unshared, After;
    forall i | 0 <= i <= n ensures Unshared(After(evs[..n][..i])) {
      assert evs[..n][..i] == evs[..i];
    }
  }

  lemma {:induction false} ExactIfNeverShared(evs: seq<Event>)
    requires NeverShared(evs)
    ensures MapIsExact(After(evs))
    decreases |evs|
  {
    hide Step, Inv, Unshared, MapIsExact, NeverShared;
    if evs == [] {
      EmptyMapIsExact();
    } else {
      var before := evs[..|evs| - 1];
      var last := evs[|evs| - 1];
      PrefixNeverShared(evs, |evs| - 1);
      PrefixNeverShared(evs, |evs|);
      ExactIfNeverShared(before);
      ReachableIsOk(before);
      assert evs[..|evs|] == evs == before + [last];
      RunSplit(Start(), before, [last]);
      RunOne(After(before), last);
      StepKeepsMapExact(After(before), last);
    }
  }

  lemma EmptyMapIsExact()
    ensures MapIsExact(After([]))
  {
  }

  lemma ExactIsUnshared(s: Relay)
    requires MapIsExact(s)
    ensures Unshared(s)
  {
    forall c, d, n | IsServing(s, c, n) && IsServing(s, d, n) ensures c == d {
      assert Holds(s, n, c) && Holds(s, n, d);
    }
  }

  /** The map is at every moment of a run exactly the set of live registered handlers, if and
      only if at no moment two handlers serve the same name. */
  lemma MapIsExactWithoutSharing(evs: seq<Event>)
    ensures AlwaysExact(evs) <==> NeverShared(evs)
  {
    hide MapIsExact, Unshared, After;
    if NeverShared(evs) {
      forall i | 0 <= i <= |evs| ensures MapIsExact(After(evs[..i])) {
        PrefixNeverShared(evs, i);
        ExactIfNeverShared(evs[..i]);
      }
    }
    if AlwaysExact(evs) {
      forall i | 0 <= i <= |evs| ensures Unshared(After(evs[..i])) {
        ExactIsUnshared(After(evs[..i]));
      }
    }
  }

  // ---------------------------------------------------------------- a shared name

  const REGISTER_BYTES: bytes := [2, 0, 0]

  const STALE_DELETE_RUN: seq<Event> :=
    [Accept(0), Accept(1), Arrive(0, REGISTER_BYTES), Arrive(1, REGISTER_BYTES)]
    + [Receive(0), Receive(1), Quit(0), Unregister(0)]

  /** Both connections, each with a registration under the empty name. */
  const BOTH_READY := NEW_CONN.(pending := REGISTER_BYTES, arrived := REGISTER_BYTES)

  lemma RunOfFour(s: Relay, e1: Event, e2: Event, e3: Event, e4: Event)
    ensures Run(s, [e1, e2, e3, e4]) == Step(Step(Step(Step(s, e1), e2), e3), e4)
  {
    hide Step, Run;
    assert [e1, e2] + [e3, e4] == [e1, e2, e3, e4];
    RunSplit(s, [e1, e2], [e3, e4]);
    RunOfTwo(s, e1, e2);
    RunOfTwo(Step(Step(s, e1), e2), e3, e4);
  }

  lemma StaleDeleteRunStarts()
    ensures After(STALE_DELETE_RUN[..4]) == Relay(map[], map[0 := BOTH_READY, 1 := BOTH_READY])
  {
    hide Read, Looking, Writing, Receiving;
    RunOfFour(Start(), Accept(0), Accept(1), Arrive(0, REGISTER_BYTES), Arrive(1, REGISTER_BYTES));
    assert STALE_DELETE_RUN[..4] == [Accept(0), Accept(1), Arrive(0, REGISTER_BYTES), Arrive(1, REGISTER_BYTES)];
    assert [] + REGISTER_BYTES == REGISTER_BYTES;
    var s2 := Step(Step(Start(), Accept(0)), Accept(1));
    assert s2 == Relay(map[], map[0 := NEW_CONN, 1 := NEW_CONN]);
  }

  lemma StaleDeleteRunGoesOn(s: Relay)
    requires s == Relay(map[], map[0 := BOTH_READY, 1 := BOTH_READY])
    ensures var t := Run(s, [Receive(0), Receive(1), Quit(0), Unregister(0)]);
      IsServing(t, 1, []) && [] !in t.clients
  {
    hide Read, Looking, Writing;
    ReadOfEmptyRegister();
    RunOfFour(s, Receive(0), Receive(1), Quit(0), Unregister(0));
    var s2 := Step(Step(s, Receive(0)), Receive(1));
    assert s2.conns[0].phase == s2.conns[1].phase == Reading([]);
  }

  /** When a client registers again on a second connection before the handler of the first has
      left, the delete deferred by the first takes the second out of the map: its handler is
      live and in its message loop, and nobody can reach it. */
  lemma OldHandlerDeletesNewEntry()
    ensures IsServing(After(STALE_DELETE_RUN), 1, [])
    ensures [] !in After(STALE_DELETE_RUN).clients
  {
    hide Step, Run;
    StaleDeleteRunStarts();
    StaleDeleteRunGoesOn(After(STALE_DELETE_RUN[..4]));
    RunSplit(Start(), STALE_DELETE_RUN[..4], STALE_DELETE_RUN[4..]);
    assert STALE_DELETE_RUN[..4] + STALE_DELETE_RUN[4..] == STALE_DELETE_RUN;
    assert STALE_DELETE_RUN[4..] == [Receive(0), Receive(1), Quit(0), Unregister(0)];
  }

  lemma ReadOfEmptyRegister()
    ensures Read(REGISTER_BYTES) == Frame(Message(REGISTER, [], [], []), 3)
  {
  }
}
