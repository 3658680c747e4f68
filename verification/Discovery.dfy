/** The discovery object (discovery.go): a map of peer records that its handlers change in place. */
module Discovery {
  import opened Bytes
  import opened Liveness

  class PeerInfo {
    var info: DiscoveryMessage
    var lastSeen: int
    var missedHeartbeats: nat

    constructor (info: DiscoveryMessage, lastSeen: int, missedHeartbeats: nat)
      ensures this.info == info && this.lastSeen == lastSeen && this.missedHeartbeats == missedHeartbeats
    {
      this.info, this.lastSeen, this.missedHeartbeats := info, lastSeen, missedHeartbeats;
    }

    function Content(): Record
      reads this
    {
      Record(info, lastSeen, missedHeartbeats)
    }

    /** What checkPeerHealth does with one peer, and whether it warns about it. */
    method Check(node: Node, now: int) returns (warn: bool)
      modifies this`missedHeartbeats
      ensures Content() == Checked(node, old(Content()), now)
      ensures warn <==> Late(node, now, lastSeen) && missedHeartbeats >= DOWN
    {
      warn := false;
      if now - lastSeen > node.interval * 3 {
        missedHeartbeats := missedHeartbeats + 1;
        warn := missedHeartbeats >= DOWN;
      }
    }
  }

  type Peers = map<bytes, PeerInfo>

  /** No two names share a record. */
  ghost predicate Separate(peers: Peers) {
    forall a, b :: a in peers && b in peers && a != b ==> peers[a] != peers[b]
  }

  ghost function TableOf(peers: Peers): Table
    reads peers.Values
  {
    map name | name in peers :: peers[name].Content()
  }

  class Service {
    const node: Node
    var peers: Peers

    ghost predicate Valid()
      reads this
    {
      Separate(peers)
    }

    ghost function State(): Table
      reads this, peers.Values
    {
      TableOf(peers)
    }

    lemma At(name: bytes)
      ensures name in State() <==> name in peers
      ensures name in peers ==> State()[name] == peers[name].Content()
    {
    }

    /** Only the record under `name` has been worked on. */
    twostate lemma OneRecordChanged(name: bytes)
      requires Valid() && peers == old(peers) && name in peers
      requires forall n :: n in peers && peers[n] != peers[name] ==> unchanged(peers[n])
      ensures State() == old(State())[name := peers[name].Content()]
    {
    }

    /** A new record has been put into the map. */
    twostate lemma RecordAdded(name: bytes)
      requires old(Valid()) && name !in old(peers) && name in peers && peers == old(peers)[name := peers[name]]
      requires fresh(peers[name]) && forall n :: n in old(peers) ==> unchanged(old(peers)[n])
      ensures Valid() && State() == old(State())[name := peers[name].Content()]
    {
    }

    constructor (node: Node)
      ensures Valid() && this.node == node && peers == map[]
    {
      this.node, this.peers := node, map[];
    }

    method HandleHeartbeat(now: int, payload: Option<DiscoveryMessage>)
      requires Valid()
      modifies this`peers, peers.Values
      ensures Valid() && fresh(peers.Values - old(peers.Values))
      ensures State() == Heartbeat(node, old(State()), now, payload)
    {
      hide Heartbeat, Valid, State;
      HeartbeatOf(node, State(), now, payload);
      if payload.None? { return; }
      var hb := payload.value;
      if hb.nodeName == node.name { return; }
      if hb.nodeName !in peers {
        var peer := new PeerInfo(hb, now, 0);
        peers := peers[hb.nodeName := peer];
        RecordAdded(hb.nodeName);
      } else {
        var peer := peers[hb.nodeName];
        peer.info := hb;
        peer.lastSeen := now;
        peer.missedHeartbeats := 0;
        OneRecordChanged(hb.nodeName);
      }
    }

    method HandlePresence(payload: Option<Presence>)
      requires Valid()
      modifies peers.Values
      ensures Valid() && State() == Announce(node, old(State()), payload)
      ensures payload.None? ==> State() == old(State())
      ensures payload.Some? ==> var p := payload.value;
        if p.status == [0x6F, 0x66, 0x66, 0x6C, 0x69, 0x6E, 0x65] && p.nodeName in old(State()) && p.nodeName != node.name
        then State() == old(State())[p.nodeName := old(State())[p.nodeName].(missed := 999)]
        else State() == old(State())
    {
      if payload.None? { return; }
      var p := payload.value;
      if p.nodeName == node.name { return; }
      if p.status == OFFLINE {
        if p.nodeName in peers {
          peers[p.nodeName].missedHeartbeats := OFFLINE_MARK;
        }
      }
    }

    /** The range loop over the peers; `down` are those it warns about. */
    method CheckPeerHealth(now: int) returns (down: set<bytes>)
      requires Valid()
      modifies peers.Values
      ensures Valid() && State() == CheckAll(node, old(State()), now)
      ensures down == Reported(node, old(State()), now)
    {
      hide State, Valid, CheckAll, Checked, Reported, Late;
      down := {};
      var left := peers.Keys;
      ghost var was := State();
      SameNames();
      ReportedArePeers(node, was, now);
      while left != {}
        invariant left <= peers.Keys && Valid() && State().Keys == was.Keys
        invariant forall name :: name in left ==> State()[name] == was[name]
        invariant forall name :: name in was && name !in left ==> State()[name] == Checked(node, was[name], now)
        invariant forall name :: name in down <==> name !in left && name in Reported(node, was, now)
        decreases |left|
      {
        var name :| name in left;
        left := left - {name};
        At(name);
        CheckOfRecord(node, was, name, now);
        label before:
        var warn := peers[name].Check(node, now);
        OneRecordChanged@before(name);
        if warn {
          down := down + {name};
        }
      }
      AllChecked(node, was, State(), now);
    }

    lemma SameNames()
      ensures State().Keys == peers.Keys
    {
    }

    /** A copy, so that the caller does not see later changes nor cause any. */
    method GetPeer(name: bytes) returns (r: PeerInfo?)
      requires Valid()
      ensures r == null <==> name !in State()
      ensures r != null ==> fresh(r) && r.Content() == State()[name]
    {
      if name !in peers { return null; }
      var p := peers[name];
      r := new PeerInfo(p.info, p.lastSeen, p.missedHeartbeats);
    }

    method GetPeers() returns (copies: Peers)
      requires Valid()
      ensures Separate(copies) && fresh(copies.Values) && TableOf(copies) == State()
    {
      copies := map[];
      var left := peers.Keys;
      while left != {}
        invariant left <= peers.Keys && copies.Keys == peers.Keys - left
        invariant Separate(copies) && forall name :: name in copies ==> fresh(copies[name])
        invariant forall name :: name in copies ==> copies[name].Content() == peers[name].Content()
        decreases |left|
      {
        var name :| name in left;
        var p := peers[name];
        var cp := new PeerInfo(p.info, p.lastSeen, p.missedHeartbeats);
        copies := copies[name := cp];
        left := left - {name};
      }
    }
  }

  /** A heartbeat that counts replaces the record of its sender, or adds it. */
  lemma HeartbeatOf(node: Node, t: Table, now: int, payload: Option<DiscoveryMessage>)
    ensures payload.None? ==> Heartbeat(node, t, now, payload) == t
    ensures payload.Some? ==> var hb := payload.value;
      Heartbeat(node, t, now, payload) == if hb.nodeName == node.name then t else t[hb.nodeName := Record(hb, now, 0)]
  {
  }

  /** What a check makes of one record. */
  lemma CheckOfRecord(node: Node, t: Table, name: bytes, now: int)
    requires name in t
    ensures var r := Checked(node, t[name], now);
      name in Reported(node, t, now) <==> Late(node, now, r.lastSeen) && r.missed >= DOWN
  {
  }

  lemma ReportedArePeers(node: Node, t: Table, now: int)
    ensures Reported(node, t, now) <= t.Keys
  {
  }

  lemma AllChecked(node: Node, t: Table, u: Table, now: int)
    requires u.Keys == t.Keys && forall name :: name in t ==> u[name] == Checked(node, t[name], now)
    ensures u == CheckAll(node, t, now)
  {
  }
}
