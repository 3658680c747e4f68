/** The relay server object: the map of clients, and for each handler the connection it works on
    and how far it has come. Each method is one atomic section of the source, run on the real
    connections, with the piecewise reader and the writes that may be cut. What happens to the
    object is a run of the protocol: `history` holds its steps, so that all that is proved of
    the protocol, over every run, holds of the object and its connections. */
module RelayServer {
  import opened Bytes
  import opened RelayCodec
  import opened RelayProtocol
  import opened RelayConnection
  import opened RelayDelivery

  /** The handler may still read from its connection. */
  predicate MayRead(phase: Phase) {
    phase.Unregistered? || phase.Reading? || InHand(phase)
  }

  /** What there is to a connection at one moment. */
  datatype View = View(outgoing: bytes, room: nat, pending: bytes)

  ghost function ViewOf(socket: Connection): View
    reads socket
  {
    View(socket.outgoing, socket.room, socket.Pending())
  }

  type Clients = map<bytes, ConnId>
  type Phases = map<ConnId, Phase>
  type Snapshot = map<ConnId, View>

  /** A connection is in the state that the protocol says: what was written to it, whether it
      still takes anything, and, as long as its handler reads, what is still to be read. */
  predicate Matches(view: View, conn: Conn) {
    && view.outgoing == conn.wire
    && (conn.broken || conn.phase.Closed? ==> view.room == 0)
    && (MayRead(conn.phase) ==> view.pending == conn.pending)
  }

  ghost predicate Coupled(views: Snapshot, phases: Phases, cs: Conns) {
    && views.Keys == phases.Keys == cs.Keys
    && forall c :: c in cs ==> phases[c] == cs[c].phase && Matches(views[c], cs[c])
  }

  /** The server is in the state `s` of the protocol. */
  ghost predicate Represents(clients: Clients, views: Snapshot, phases: Phases, s: Relay) {
    Inv(s) && clients == s.clients && Coupled(views, phases, s.conns)
  }

  /** No connection has two handlers. */
  ghost predicate Distinct(sockets: map<ConnId, Connection>) {
    forall c, d :: c in sockets && d in sockets && c != d ==> sockets[c] != sockets[d]
  }

  /** What a handler does with one call of readMessage on `pending`, in the terms of the
      protocol: a frame, or an oversized one, is received; if the bytes run out, a deadline
      stalls it, and the end of the stream makes it quit. */
  function ReadEvent(c: ConnId, pending: bytes, stalls: bool): Event {
    if !Read(pending).Starved? then Receive(c) else if stalls then Stall(c) else Quit(c)
  }

  class Server {
    var clients: Clients
    var sockets: map<ConnId, Connection>
    var phases: Phases
    /** The steps taken so far. */
    ghost var history: seq<Event>

    ghost function Views(): Snapshot
      reads this`sockets, sockets.Values
    {
      map c | c in sockets :: ViewOf(sockets[c])
    }

    ghost predicate Valid()
      reads this, sockets.Values
    {
      Distinct(sockets) && Represents(clients, Views(), phases, After(history))
    }

    /** What validity says of one connection. */
    lemma At(c: ConnId)
      requires Valid() && c in sockets
      ensures sockets.Keys == phases.Keys == Views().Keys && Views()[c] == ViewOf(sockets[c])
      ensures forall d :: d in sockets && d != c ==> sockets[d] != sockets[c]
    {
      hide Inv, ViewOf, Matches;
    }

    /** Only the connection of `c` has been worked on. */
    twostate lemma OneViewChanged(c: ConnId)
      requires sockets == old(sockets) && c in sockets
      requires forall d :: d in sockets && d != c ==> unchanged(sockets[d])
      ensures Views() == old(Views())[c := ViewOf(sockets[c])]
    {
    }

    /** The protocol's promise from client to client, kept on the connections of the object. */
    lemma KeepsEndToEndFifo(c: ConnId, d: ConnId, ms: seq<Message>)
      requires Valid() && c in sockets && d in sockets
      requires c in After(history).conns && NoFrameCut(history, c)
      requires AllInRange(ms) && After(history).conns[c].arrived <= EncodeAll(ms)
      ensures d in After(history).conns
      ensures var log := After(history).conns[d].log;
        && ReadAll(sockets[d].outgoing).messages == Messages(log)
        && Subsequence(Messages(DataFrom(log, c)), CarriedAll(ms))
    {
      hide Inv, After, Step, ReadAll, EncodeAll, CarriedAll, AllInRange, Subsequence, DataFrom, NoFrameCut, Messages;
      OneCoupled(Views(), phases, After(history).conns, d);
      EndToEndFifo(history, c, d, ms);
    }

    constructor ()
      ensures Valid() && history == [] && sockets == map[]
    {
      clients, sockets, phases, history := map[], map[], map[], [];
      new;
      ReachableIsOk([]);
    }

    /** acceptLoop: a new connection, and a handler for it. */
    method Accept(c: ConnId, socket: Connection)
      requires Valid() && c !in sockets && socket !in sockets.Values
      requires socket.incoming == [] && socket.outgoing == []
      modifies this`sockets, this`phases, this`history
      ensures Valid() && history == old(history) + [Event.Accept(c)]
      ensures sockets == old(sockets)[c := socket]
    {
      hide Inv, Step, After, Views, Distinct, Represents;
      NewSocket(c, socket);
      AllSeen();
      AcceptRepresented(clients, Views(), phases, After(history), c, ViewOf(socket));
      sockets, phases := sockets[c := socket], phases[c := Unregistered];
      OneMoreStep(history, Event.Accept(c));
      history := history + [Event.Accept(c)];
      AllSeen();
      assert Views() == old(Views())[c := ViewOf(socket)];
    }

    lemma AllSeen()
      ensures Views().Keys == sockets.Keys && forall c :: c in sockets ==> Views()[c] == ViewOf(sockets[c])
    {
    }

    lemma NewSocket(c: ConnId, socket: Connection)
      requires Valid() && c !in sockets && socket !in sockets.Values
      ensures c !in phases && Distinct(sockets[c := socket])
    {
      hide Inv, Matches;
      forall d | d in sockets ensures sockets[d] != socket {
        assert sockets[d] in sockets.Values;
      }
    }

    /** The network brings one more piece. */
    method Arrive(c: ConnId, data: bytes)
      requires Valid() && c in sockets && c in phases && !phases[c].Closed?
      modifies this`history, sockets[c]
      ensures Valid() && history == old(history) + [Event.Arrive(c, data)]
    {
      hide Inv, Step, After, Flat, Views, Distinct, Represents;
      At(c);
      ArriveRepresented(clients, Views(), phases, After(history), c, data);
      sockets[c].Deliver(data);
      OneMoreStep(history, Event.Arrive(c, data));
      history := history + [Event.Arrive(c, data)];
      OneViewChanged(c);
    }

    /** The other side will send nothing more. That is no step yet: a read has to meet the end. */
    method HangUp(c: ConnId)
      requires Valid() && c in sockets
      modifies sockets[c]
      ensures Valid() && !sockets[c].stalls
    {
      hide Inv, After, Flat, Views, Distinct, Represents;
      At(c);
      sockets[c].HangUp();
      OneViewChanged(c);
      assert Views() == old(Views());
    }

    /** handleClient up to the message loop: the first message must be a REGISTER. No deadline
        is set yet, so the read waits until there is a frame or the stream has ended. */
    method ReceiveRegistration(c: ConnId)
      requires Valid() && c in sockets && c in phases && phases[c].Unregistered?
      requires Read(sockets[c].Pending()).Starved? ==> !sockets[c].stalls
      modifies this`clients, this`phases, this`history, sockets[c]
      ensures Valid()
      ensures history == old(history) + [if Read(old(sockets[c].Pending())).Starved? then Quit(c) else Receive(c)]
    {
      hide Inv, Read, Step, After, Flat, Views, Distinct, Represents, Delivers;
      At(c);
      ghost var views, ev := Views(), ReadEvent(c, sockets[c].Pending(), sockets[c].stalls);
      var r := sockets[c].ReadMessage();
      RegistrationRepresented(clients, views, phases, After(history), c, sockets[c].stalls, r, sockets[c].Pending());
      if r.Failed? || r.message.kind != REGISTER {
        phases := phases[c := Closing];
      } else {
        clients := clients[r.message.src := c];
        phases := phases[c := Reading(r.message.src)];
      }
      OneMoreStep(history, ev);
      history := history + [ev];
      OneViewChanged(c);
    }

    /** The message loop as far as the switch: a timeout goes round again, with what was read of
        the frame gone, and any other error leaves. */
    method ReceiveMessage(c: ConnId)
      requires Valid() && c in sockets && c in phases && phases[c].Reading?
      modifies this`phases, this`history, sockets[c]
      ensures Valid()
      ensures history == old(history) + [ReadEvent(c, old(sockets[c].Pending()), old(sockets[c].stalls))]
    {
      hide Inv, Read, Step, After, Flat, Views, Distinct, Represents, Delivers, ReadEvent;
      At(c);
      ghost var views, ev := Views(), ReadEvent(c, sockets[c].Pending(), sockets[c].stalls);
      var name := phases[c].name;
      var r := sockets[c].ReadMessage();
      MessageRepresented(clients, views, phases, After(history), c, sockets[c].stalls, r, sockets[c].Pending());
      if r.Failed? {
        if !r.error.Timeout? {
          phases := phases[c := Leaving(name)];
        }
      } else if r.message.kind == DATA {
        phases := phases[c := Resolving(name, r.message)];
      } else if r.message.kind == PING {
        phases := phases[c := Ponging(name)];
      }
      assert phases == old(phases)[c := PhaseAfter(name, r)];
      OneMoreStep(history, ev);
      history := history + [ev];
      OneViewChanged(c);
    }

    /** The context is done: handleClient returns. */
    method Return(c: ConnId)
      requires Valid() && c in phases && phases[c].Reading?
      modifies this`phases, this`history
      ensures Valid() && history == old(history) + [Quit(c)]
    {
      hide Inv, Step, After, Views, Distinct, Represents;
      ReturnRepresented(clients, Views(), phases, After(history), c);
      phases := phases[c := Leaving(phases[c].name)];
      OneMoreStep(history, Quit(c));
      history := history + [Quit(c)];
    }

    /** forwardToPeer under the read lock. */
    method Lookup(c: ConnId)
      requires Valid() && c in phases && phases[c].Resolving?
      modifies this`phases, this`history
      ensures Valid() && history == old(history) + [Event.Lookup(c)]
    {
      hide Inv, Step, After, Views, Distinct, Represents;
      LookupRepresented(clients, Views(), phases, After(history), c);
      var name, m := phases[c].name, phases[c].msg;
      if m.dst in clients {
        phases := phases[c := Forwarding(name, m, clients[m.dst])];
      } else {
        phases := phases[c := Reading(name)];
      }
      OneMoreStep(history, Event.Lookup(c));
      history := history + [Event.Lookup(c)];
    }

    /** forwardToPeer once the lock is released: by now the destination may be closed. */
    method Forward(c: ConnId)
      requires Valid() && c in phases && phases[c].Forwarding?
      modifies this`phases, this`history, sockets.Values
      ensures Valid() && old(phases[c].to) in old(sockets)
      ensures history == old(history) + [Event.Write(c, old(sockets[phases[c].to].room))]
    {
      hide Inv, Step, After, Encode, Flat, Views, Distinct, Represents;
      ForwardRepresented(clients, Views(), phases, After(history), c);
      var Forwarding(name, m, to) := phases[c];
      AllSeen();
      At(to);
      ghost var ev := Event.Write(c, sockets[to].room);
      var ok := sockets[to].SendMessage(DATA, m.src, m.dst, m.payload);
      phases := phases[c := Reading(name)];
      OneMoreStep(history, ev);
      history := history + [ev];
      OneViewChanged(to);
    }

    /** The answer to a Ping. */
    method Pong(c: ConnId)
      requires Valid() && c in sockets && c in phases && phases[c].Ponging?
      modifies this`phases, this`history, sockets[c]
      ensures Valid() && history == old(history) + [Event.Write(c, old(sockets[c].room))]
    {
      hide Inv, Step, After, Encode, Flat, Views, Distinct, Represents;
      At(c);
      PongRepresented(clients, Views(), phases, After(history), c);
      ghost var ev := Event.Write(c, sockets[c].room);
      var ok := sockets[c].SendMessage(PONG, [], [], []);
      phases := phases[c := Reading(phases[c].name)];
      OneMoreStep(history, ev);
      history := history + [ev];
      OneViewChanged(c);
    }

    /** The first deferred call to run: out of the map, by name. */
    method Unregister(c: ConnId)
      requires Valid() && c in phases && phases[c].Leaving?
      modifies this`clients, this`phases, this`history
      ensures Valid() && history == old(history) + [Event.Unregister(c)]
    {
      hide Inv, Step, After, Views, Distinct, Represents;
      UnregisterRepresented(clients, Views(), phases, After(history), c);
      clients := clients - {phases[c].name};
      phases := phases[c := Closing];
      OneMoreStep(history, Event.Unregister(c));
      history := history + [Event.Unregister(c)];
    }

    /** The second: conn.Close. */
    method Close(c: ConnId)
      requires Valid() && c in sockets && c in phases && phases[c].Closing?
      modifies this`phases, this`history, sockets[c]
      ensures Valid() && history == old(history) + [Event.Close(c)]
    {
      hide Inv, Step, After, Flat, Views, Distinct, Represents;
      At(c);
      CloseRepresented(clients, Views(), phases, After(history), c);
      sockets[c].Close();
      phases := phases[c := Closed];
      OneMoreStep(history, Event.Close(c));
      history := history + [Event.Close(c)];
      OneViewChanged(c);
    }
  }

  // ---------------------------------------------------------------- the methods on values

  /** Of all connections only that of `c` may differ. */
  ghost predicate OnlyAt(s: Relay, t: Relay, c: ConnId) {
    && t.conns.Keys == s.conns.Keys && c in s.conns
    && forall d :: d in s.conns && d != c ==> t.conns[d] == s.conns[d]
  }

  predicate SameOutput(conn: Conn, later: Conn) {
    later.wire == conn.wire && later.broken == conn.broken
  }

  lemma OneCoupled(views: Snapshot, phases: Phases, cs: Conns, c: ConnId)
    requires Coupled(views, phases, cs) && c in phases
    ensures c in views && c in cs && phases[c] == cs[c].phase && Matches(views[c], cs[c])
  {
    hide Matches;
  }

  lemma OneMoreStep(evs: seq<Event>, ev: Event)
    ensures After(evs + [ev]) == Step(After(evs), ev)
  {
    hide Step, Run;
    RunSplit(Start(), evs, [ev]);
    RunOne(After(evs), ev);
  }

  /** A step of handler `c` that works on connection `to`. */
  lemma Recoupled(views: Snapshot, phases: Phases, cs: Conns, ds: Conns, c: ConnId, to: ConnId, view: View)
    requires Coupled(views, phases, cs) && c in cs && to in cs && ds.Keys == cs.Keys
    requires forall d :: d in cs && d != c && d != to ==> ds[d] == cs[d]
    requires Matches(view, ds[to])
    requires to != c ==> ds[to].phase == cs[to].phase && Matches(views[c], ds[c])
    ensures Coupled(views[to := view], phases[c := ds[c].phase], ds)
  {
    hide Matches;
    var views', phases' := views[to := view], phases[c := ds[c].phase];
    forall d | d in ds ensures phases'[d] == ds[d].phase && Matches(views'[d], ds[d]) {
      if d != c && d != to { assert phases[d] == cs[d].phase && Matches(views[d], cs[d]); }
    }
  }

  /** A step of handler `c` by which its connection comes to look like `view`. */
  lemma StepRepresented(clients: Clients, views: Snapshot, phases: Phases, s: Relay, ev: Event, view: View)
    requires Represents(clients, views, phases, s) && ev.c in phases
    requires OnlyAt(s, Step(s, ev), ev.c) && Matches(view, Step(s, ev).conns[ev.c])
    ensures var t := Step(s, ev); Represents(t.clients, views[ev.c := view], phases[ev.c := t.conns[ev.c].phase], t)
  {
    hide Inv, Step, Matches, Coupled, Extends;
    StepKeepsInv(s, ev);
    Recoupled(views, phases, s.conns, Step(s, ev).conns, ev.c, ev.c, view);
  }

  lemma AcceptRepresented(clients: Clients, views: Snapshot, phases: Phases, s: Relay, c: ConnId, view: View)
    requires Represents(clients, views, phases, s) && c !in phases
    requires view.outgoing == [] && view.pending == []
    ensures Represents(clients, views[c := view], phases[c := Unregistered], Step(s, Event.Accept(c)))
  {
    hide Inv, Extends;
    StepKeepsInv(s, Event.Accept(c));
  }

  lemma ArriveRepresented(clients: Clients, views: Snapshot, phases: Phases, s: Relay, c: ConnId, data: bytes)
    requires Represents(clients, views, phases, s) && c in phases && !phases[c].Closed?
    ensures c in views
    ensures Represents(clients, views[c := views[c].(pending := views[c].pending + data)], phases,
                       Step(s, Event.Arrive(c, data)))
  {
    hide Inv, Coupled;
    OneCoupled(views, phases, s.conns, c);
    StepRepresented(clients, views, phases, s, Event.Arrive(c, data), views[c].(pending := views[c].pending + data));
    assert phases[c := phases[c]] == phases;
  }

  lemma RegistrationRepresented(
    clients: Clients, views: Snapshot, phases: Phases, s: Relay, c: ConnId, stalls: bool, r: Received, left: bytes)
    requires Represents(clients, views, phases, s) && c in phases && phases[c].Unregistered? && c in views
    requires Read(views[c].pending).Starved? ==> !stalls
    requires Delivers(Read(views[c].pending), r, stalls, views[c].pending, left)
    ensures var t := Step(s, ReadEvent(c, views[c].pending, stalls)); var views' := views[c := views[c].(pending := left)];
      if r.Received? && r.message.kind == REGISTER
      then Represents(clients[r.message.src := c], views', phases[c := Reading(r.message.src)], t)
      else Represents(clients, views', phases[c := Closing], t)
  {
    hide Inv, Read, Coupled, Looking, Writing;
    OneCoupled(views, phases, s.conns, c);
    ReceiveIsReceiving(s, c);
    StepRepresented(clients, views, phases, s, ReadEvent(c, views[c].pending, stalls), views[c].(pending := left));
  }

  /** Where the handler is after a message in the loop. */
  function PhaseAfter(name: bytes, r: Received): Phase {
    match r
    case Failed(error) => if error.Timeout? then Reading(name) else Leaving(name)
    case Received(m) =>
      if m.kind == DATA then Resolving(name, m) else if m.kind == PING then Ponging(name) else Reading(name)
  }

  lemma ReceiveIsReceiving(s: Relay, c: ConnId)
    requires c in s.conns && (s.conns[c].phase.Unregistered? || s.conns[c].phase.Reading?)
    ensures Step(s, Receive(c)) == Receiving(s, c)
  {
    hide Receiving, Looking, Writing, Read;
  }

  lemma StarvedStep(s: Relay, c: ConnId, stalls: bool)
    requires c in s.conns && s.conns[c].phase.Reading? && Read(s.conns[c].pending).Starved?
    ensures var conn := s.conns[c];
      Step(s, ReadEvent(c, conn.pending, stalls)) ==
        Put(s, c, if stalls then conn.(pending := [], discarded := conn.discarded + |conn.pending|)
                  else conn.(phase := Leaving(conn.phase.name)))
  {
    hide Receiving, Looking, Writing, Read;
  }

  lemma ReceivedInLoop(s: Relay, c: ConnId)
    requires c in s.conns && s.conns[c].phase.Reading? && !Read(s.conns[c].pending).Starved?
    ensures var conn := s.conns[c]; var t := Receiving(s, c);
      && OnlyAt(s, t, c) && t.clients == s.clients && SameOutput(conn, t.conns[c])
      && match Read(conn.pending)
         case Frame(m, size) =>
           && size <= |conn.pending| && t.conns[c].pending == conn.pending[size..]
           && t.conns[c].phase == PhaseAfter(conn.phase.name, Received(m))
         case _ => t.conns[c].phase == Leaving(conn.phase.name)
  {
    hide Read;
    if Read(s.conns[c].pending).Frame? { AcceptedIsCanonical(s.conns[c].pending); }
  }

  lemma MessageStep(s: Relay, c: ConnId, stalls: bool, r: Received, left: bytes)
    requires c in s.conns && s.conns[c].phase.Reading?
    requires Delivers(Read(s.conns[c].pending), r, stalls, s.conns[c].pending, left)
    ensures var t := Step(s, ReadEvent(c, s.conns[c].pending, stalls)); var conn := s.conns[c];
      && OnlyAt(s, t, c) && t.clients == s.clients && SameOutput(conn, t.conns[c])
      && t.conns[c].phase == PhaseAfter(conn.phase.name, r)
      && (MayRead(t.conns[c].phase) ==> t.conns[c].pending == left)
  {
    hide Read, Step, Receiving;
    if Read(s.conns[c].pending).Starved? {
      StarvedStep(s, c, stalls);
    } else {
      ReceiveIsReceiving(s, c);
      ReceivedInLoop(s, c);
    }
  }

  lemma MessageRepresented(
    clients: Clients, views: Snapshot, phases: Phases, s: Relay, c: ConnId, stalls: bool, r: Received, left: bytes)
    requires Represents(clients, views, phases, s) && c in phases && phases[c].Reading? && c in views
    requires Delivers(Read(views[c].pending), r, stalls, views[c].pending, left)
    ensures Represents(clients, views[c := views[c].(pending := left)], phases[c := PhaseAfter(phases[c].name, r)],
                       Step(s, ReadEvent(c, views[c].pending, stalls)))
  {
    hide Inv, Read, Step, Coupled;
    OneCoupled(views, phases, s.conns, c);
    MessageStep(s, c, stalls, r, left);
    StepRepresented(clients, views, phases, s, ReadEvent(c, views[c].pending, stalls), views[c].(pending := left));
  }

  lemma ReturnRepresented(clients: Clients, views: Snapshot, phases: Phases, s: Relay, c: ConnId)
    requires Represents(clients, views, phases, s) && c in phases && phases[c].Reading?
    ensures Represents(clients, views, phases[c := Leaving(phases[c].name)], Step(s, Quit(c)))
  {
    hide Inv, Read, Coupled;
    OneCoupled(views, phases, s.conns, c);
    StepRepresented(clients, views, phases, s, Quit(c), views[c]);
    assert views[c := views[c]] == views;
  }

  lemma LookupRepresented(clients: Clients, views: Snapshot, phases: Phases, s: Relay, c: ConnId)
    requires Represents(clients, views, phases, s) && c in phases && phases[c].Resolving?
    ensures var name := phases[c].name; var m := phases[c].msg;
      Represents(clients, views,
        phases[c := if m.dst in clients then Forwarding(name, m, clients[m.dst]) else Reading(name)],
        Step(s, Event.Lookup(c)))
  {
    hide Inv, Read, Coupled;
    OneCoupled(views, phases, s.conns, c);
    StepRepresented(clients, views, phases, s, Event.Lookup(c), views[c]);
    assert views[c := views[c]] == views;
  }

  lemma UnregisterRepresented(clients: Clients, views: Snapshot, phases: Phases, s: Relay, c: ConnId)
    requires Represents(clients, views, phases, s) && c in phases && phases[c].Leaving?
    ensures Represents(clients - {phases[c].name}, views, phases[c := Closing], Step(s, Event.Unregister(c)))
  {
    hide Inv, Read, Coupled;
    OneCoupled(views, phases, s.conns, c);
    StepRepresented(clients, views, phases, s, Event.Unregister(c), views[c]);
    assert views[c := views[c]] == views;
  }

  lemma CloseRepresented(clients: Clients, views: Snapshot, phases: Phases, s: Relay, c: ConnId)
    requires Represents(clients, views, phases, s) && c in phases && phases[c].Closing?
    ensures c in views
    ensures Represents(clients, views[c := views[c].(room := 0)], phases[c := Closed], Step(s, Event.Close(c)))
  {
    hide Inv, Read, Coupled;
    OneCoupled(views, phases, s.conns, c);
    StepRepresented(clients, views, phases, s, Event.Close(c), views[c].(room := 0));
  }

  // ---------------------------------------------------------------- writes

  /** A connection after one write. */
  function Written(view: View, frame: bytes): View {
    if |frame| <= view.room
    then view.(outgoing := view.outgoing + frame, room := view.room - |frame|)
    else view.(outgoing := view.outgoing + frame[..view.room], room := 0)
  }

  lemma WriteStep(s: Relay, c: ConnId, to: ConnId, name: bytes, m: Message, room: nat)
    requires c in s.conns && to in s.conns
    requires var phase := s.conns[c].phase;
      phase == Forwarding(name, m, to) || (phase == Ponging(name) && to == c && m == PONG_FRAME)
    requires s.conns[to].broken || s.conns[to].phase.Closed? ==> room == 0
    ensures var t := Step(s, Event.Write(c, room)); var dst := s.conns[to];
      && t.conns.Keys == s.conns.Keys && t.clients == s.clients
      && (forall d :: d in s.conns && d != c && d != to ==> t.conns[d] == s.conns[d])
      && t.conns[c].phase == Reading(name) && t.conns[c].pending == s.conns[c].pending
      && (to != c ==>
            && SameOutput(s.conns[c], t.conns[c])
            && t.conns[to].phase == dst.phase && t.conns[to].pending == dst.pending)
      && (if |Encode(m)| <= room
          then t.conns[to].wire == dst.wire + Encode(m) && t.conns[to].broken == dst.broken
          else t.conns[to].wire == dst.wire + Encode(m)[..room] && t.conns[to].broken)
  {
    EncodeIsNotEmpty(m);
    hide Encode, Read, Receiving, Looking;
  }

  lemma WriteRepresented(
    clients: Clients, views: Snapshot, phases: Phases, s: Relay, c: ConnId, to: ConnId, name: bytes, m: Message,
    view: View)
    requires Represents(clients, views, phases, s) && c in phases && to in views && view == views[to]
    requires phases[c] == Forwarding(name, m, to) || (phases[c] == Ponging(name) && to == c && m == PONG_FRAME)
    ensures Represents(clients, views[to := Written(view, Encode(m))], phases[c := Reading(name)],
                       Step(s, Event.Write(c, view.room)))
  {
    hide Inv, Step, Encode, Coupled, Extends;
    SamePlaces(views, phases, s.conns);
    OneCoupled(views, phases, s.conns, c);
    OneCoupled(views, phases, s.conns, to);
    var ev := Event.Write(c, view.room);
    StepKeepsInv(s, ev);
    EncodeIsNotEmpty(m);
    WriteStep(s, c, to, name, m, view.room);
    Recoupled(views, phases, s.conns, Step(s, ev).conns, c, to, Written(view, Encode(m)));
  }

  lemma ForwardRepresented(clients: Clients, views: Snapshot, phases: Phases, s: Relay, c: ConnId)
    requires Represents(clients, views, phases, s) && c in phases && phases[c].Forwarding?
    ensures var Forwarding(name, m, to) := phases[c];
      && m.kind == DATA && to in views
      && Represents(clients, views[to := Written(views[to], Encode(m))], phases[c := Reading(name)],
                    Step(s, Event.Write(c, views[to].room)))
  {
    hide Inv, Step, Encode, Coupled, Matches;
    OneCoupled(views, phases, s.conns, c);
    DestinationExists(s, c);
    SamePlaces(views, phases, s.conns);
    var Forwarding(name, m, to) := phases[c];
    WriteRepresented(clients, views, phases, s, c, to, name, m, views[to]);
  }

  lemma SamePlaces(views: Snapshot, phases: Phases, cs: Conns)
    requires Coupled(views, phases, cs)
    ensures views.Keys == phases.Keys == cs.Keys
  {
  }

  lemma PongRepresented(clients: Clients, views: Snapshot, phases: Phases, s: Relay, c: ConnId)
    requires Represents(clients, views, phases, s) && c in phases && phases[c].Ponging?
    ensures c in views
    ensures Represents(clients, views[c := Written(views[c], Encode(PONG_FRAME))], phases[c := Reading(phases[c].name)],
                       Step(s, Event.Write(c, views[c].room)))
  {
    hide Inv, Step, Encode, Coupled;
    OneCoupled(views, phases, s.conns, c);
    WriteRepresented(clients, views, phases, s, c, c, phases[c].name, PONG_FRAME, views[c]);
  }

  lemma DestinationExists(s: Relay, c: ConnId)
    requires Inv(s) && c in s.conns && s.conns[c].phase.Forwarding?
    ensures s.conns[c].phase.to in s.conns && s.conns[c].phase.msg.kind == DATA
  {
    hide ReadOk, WireOk, Ordered, EntryOk, FateOk;
    Parts(s.conns, c);
  }
}
