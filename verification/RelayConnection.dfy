/** A connection as the relay's code uses it: readMessage takes what the network hands over piece
    by piece, sendMessage builds a frame and writes it (relay.go:182-270). */
module RelayConnection {
  import opened Bytes
  import opened RelayCodec

  datatype ReadError = Timeout | Disconnected | PayloadTooLarge
  datatype Received = Received(message: Message) | Failed(error: ReadError)

  /** The error of a read that gets less than it wants. */
  function NoData(stalls: bool): ReadError {
    if stalls then Timeout else Disconnected
  }

  /** What readMessage returns for an outcome, and what it leaves of the stream `s`. */
  predicate Delivers(reading: Reading, r: Received, stalls: bool, s: bytes, left: bytes) {
    match reading
    case Frame(m, size) => r == Received(m) && size <= |s| && left == s[size..]
    case Starved => r == Failed(NoData(stalls)) && left == []
    case Oversized => r == Failed(PayloadTooLarge)
  }

  class Connection {
    /** The pieces in which the network will hand over what is still to come; a Read returns
        at most one of them. */
    var incoming: seq<bytes>
    /** What happens when they have run out: the read deadline passes, or the stream ends. */
    var stalls: bool
    /** All that was written. */
    var outgoing: bytes
    /** How much more the network will take before a write fails. */
    var room: nat

    constructor (incoming: seq<bytes>, stalls: bool, room: nat)
      ensures this.incoming == incoming && this.stalls == stalls && this.room == room && outgoing == []
    {
      this.incoming, this.stalls, this.outgoing, this.room := incoming, stalls, [], room;
    }

    ghost function Pending(): bytes
      reads this
    {
      Flat(incoming)
    }

    /** The network brings one more piece. */
    method Deliver(piece: bytes)
      modifies this`incoming
      ensures Pending() == old(Pending()) + piece
    {
      FlatAppend(incoming, piece);
      incoming := incoming + [piece];
    }

    /** The other side will send nothing more. */
    method HangUp()
      modifies this`stalls
      ensures !stalls
    {
      stalls := false;
    }

    /** conn.Close: nothing can be written any more. */
    method Close()
      modifies this`room
      ensures room == 0
    {
      room := 0;
    }

    /** io.ReadFull: as many Reads as it takes to get `n` bytes. When it fails it has used up
        everything there was. */
    method ReadFull(n: nat) returns (data: bytes, ok: bool)
      modifies this`incoming
      ensures ok <==> n <= |old(Pending())|
      ensures ok ==> data == old(Pending())[..n] && Pending() == old(Pending())[n..]
      ensures !ok ==> Pending() == []
    {
      data := [];
      while |data| < n && incoming != []
        invariant |data| <= n
        invariant data + Pending() == old(Pending())
        decreases |incoming|, |Flat(incoming)|
      {
        var piece := incoming[0];
        var missing := n - |data|;
        if |piece| <= missing {
          data, incoming := data + piece, incoming[1..];
        } else {
          ghost var rest := Flat(incoming[1..]);
          data, incoming := data + piece[..missing], [piece[missing..]] + incoming[1..];
          assert Pending() == piece[missing..] + rest;
        }
      }
      ok := |data| == n;
      assert ok ==> old(Pending())[..n] == data;
    }

    method ReadText() returns (text: bytes, ok: bool)
      modifies this`incoming
      ensures var s := old(Pending());
        match ReadString(s, 0)
        case Some((t, end)) => ok && text == t && Pending() == s[end..]
        case None => !ok && Pending() == []
    {
      var length, got := ReadFull(1);
      if !got { return [], false; }
      ghost var rest := Pending();
      text, ok := ReadFull(length[0] as nat);
    }

    /** readMessage from the payload length on; `s` is the stream from the type byte on, and
        `at` how far into it the reader has come. */
    method ReadPayloadOf(src: bytes, dst: bytes, ghost s: bytes, ghost at: nat) returns (r: Received)
      requires at <= |s| && Pending() == s[at..]
      modifies this`incoming
      ensures Delivers(ReadPayload(s, src, dst, at), r, stalls, s, Pending())
    {
      hide Uint32, Flat;
      var lenBuf, ok := ReadFull(4);
      if !ok { return Failed(NoData(stalls)); }
      LengthFrom(s, at);
      var length := Uint32(lenBuf, 0);
      if length > MAX_PAYLOAD { return Failed(PayloadTooLarge); }
      var payload;
      PayloadFrom(s, at, length);
      payload, ok := ReadFull(length);
      if !ok { return Failed(NoData(stalls)); }
      return Received(Message(DATA, src, dst, payload));
    }

    /** readMessage: it depends on the stream only, not on how the network cuts it up, and
        takes exactly one frame off it. */
    method ReadMessage() returns (r: Received)
      modifies this`incoming
      ensures Delivers(Read(old(Pending())), r, stalls, old(Pending()), Pending())
    {
      hide ReadString, ReadPayload, Flat;
      ghost var s := Pending();
      var header, ok := ReadFull(1);
      if !ok { return Failed(NoData(stalls)); }
      var kind := header[0];
      if kind == PING || kind == PONG {
        return Received(Message(kind, [], [], []));
      }
      var src, dst: bytes;
      ReadStringFrom(s, 1);
      src, ok := ReadText();
      if !ok { return Failed(NoData(stalls)); }
      ghost var afterSrc := 2 + |src|;
      assert ReadString(s, 1) == Some((src, afterSrc)) && Pending() == s[afterSrc..];
      ReadStringFrom(s, afterSrc);
      dst, ok := ReadText();
      if !ok { return Failed(NoData(stalls)); }
      ghost var afterDst := afterSrc + 1 + |dst|;
      assert ReadString(s, afterSrc) == Some((dst, afterDst)) && Pending() == s[afterDst..];
      if kind == DATA {
        r := ReadPayloadOf(src, dst, s, afterDst);
        return;
      }
      return Received(Message(kind, src, dst, []));
    }

    /** The message loop as far as reading goes: however the network cuts up the frames of any
        in-range messages, they are read as those messages, and nothing is left over. */
    method ReceiveAll() returns (ms: seq<Message>)
      modifies this`incoming
      ensures ms == ReadAll(old(Pending())).messages
      ensures forall sent :: AllInRange(sent) && EncodeAll(sent) == old(Pending()) ==>
        ms == CarriedAll(sent) && Pending() == []
    {
      hide Read;
      ms := [];
      ghost var s := Pending();
      var r := ReadMessage();
      while r.Received?
        invariant Read(s).Frame? <==> r.Received?
        invariant Delivers(Read(s), r, stalls, s, Pending())
        invariant ReadAll(old(Pending())).messages == ms + ReadAll(s).messages
        invariant ReadAll(old(Pending())).rest == ReadAll(s).rest
        decreases |s|
      {
        ReadAllSteps(s, r.message, Read(s).size);
        ms := ms + [r.message];
        s := Pending();
        r := ReadMessage();
      }
      ReadAllStops(s);
      forall sent | AllInRange(sent) && EncodeAll(sent) == old(Pending())
        ensures ms == CarriedAll(sent) && Pending() == []
      {
        StreamRoundTrip(sent, []);
        EmptyReading();
        assert EncodeAll(sent) + [] == EncodeAll(sent);
        NothingStarves();
        ReadAllStops([]);
        assert CarriedAll(sent) + [] == CarriedAll(sent);
      }
    }

    /** conn.Write: all of `buf`, or as much as the network takes and then an error, after
        which it takes nothing more. */
    method Write(buf: bytes) returns (ok: bool)
      modifies this`outgoing, this`room
      ensures ok <==> |buf| <= old(room)
      ensures outgoing == old(outgoing) + (if ok then buf else buf[..old(room)])
      ensures room == if ok then old(room) - |buf| else 0
    {
      ok := |buf| <= room;
      var n := if ok then |buf| else room;
      outgoing, room := outgoing + buf[..n], room - n;
    }

    /** sendMessage: one Write of the frame. */
    method SendMessage(kind: byte, src: bytes, dst: bytes, payload: bytes) returns (ok: bool)
      modifies this`outgoing, this`room
      ensures var frame := Encode(Message(kind, src, dst, payload));
        && (ok <==> |frame| <= old(room))
        && outgoing == old(outgoing) + (if ok then frame else frame[..old(room)])
        && room == (if ok then old(room) - |frame| else 0)
    {
      var buf := [kind];
      if kind == PING || kind == PONG {
        ok := Write(buf);
        return;
      }
      buf := buf + WriteString(src);
      buf := buf + WriteString(dst);
      if kind == DATA {
        var lenBuf := Put32(|payload|);
        buf := buf + lenBuf;
        buf := buf + payload;
      }
      ok := Write(buf);
    }
  }

  /** Reading a string in the middle of a stream is reading it at the front of what follows. */
  lemma ReadStringFrom(s: bytes, at: nat)
    requires at <= |s|
    ensures match ReadString(s[at..], 0)
      case Some((text, end)) =>
        && ReadString(s, at) == Some((text, at + end))
        && end == 1 + |text| && at + end <= |s| && s[at..][end..] == s[at + end..]
      case None => ReadString(s, at) == None
  {
    var t := s[at..];
    if ReadString(t, 0).Some? {
      var end := ReadString(t, 0).value.1;
      assert t[1..end] == s[at + 1..at + end];
    }
  }

  lemma LengthFrom(s: bytes, at: nat)
    requires at + 4 <= |s|
    ensures Uint32(s[at..][..4], 0) == Uint32(s, at)
  {
  }

  lemma PayloadFrom(s: bytes, at: nat, length: nat)
    requires at + 4 <= |s|
    ensures s[at..][4..] == s[at + 4..]
    ensures at + 4 + length <= |s| ==>
      s[at + 4..][..length] == s[at + 4..at + 4 + length] && s[at + 4..][length..] == s[at + 4 + length..]
  {
  }

  /** A relay client: it registers when it connects and then sends Data frames one at a time,
      under its lock (relay.go:317-365). */
  class RelayClientConn {
    const nodeName: bytes
    var conn: Connection?

    constructor (nodeName: bytes)
      ensures this.nodeName == nodeName && conn == null
    {
      this.nodeName, this.conn := nodeName, null;
    }

    /** Connect, once the dialer has delivered a connection: it is kept in any case, and closed
        again if the registration cannot be written whole. */
    method Connect(dialled: Connection) returns (ok: bool)
      modifies this`conn, dialled`outgoing, dialled`room
      ensures conn == dialled
      ensures var frame := Encode(Message(REGISTER, nodeName, [], [])); var room := old(dialled.room);
        && (ok <==> |frame| <= room)
        && dialled.outgoing == old(dialled.outgoing) + (if ok then frame else frame[..room])
        && dialled.room == if ok then room - |frame| else 0
    {
      conn := dialled;
      ok := dialled.SendMessage(REGISTER, nodeName, [], []);
      if !ok { dialled.Close(); }
    }

    /** What a reader of the stream gets after `Send` is what it got before and then this
        message, whole and unchanged, if its lengths are in range and nothing before it on
        the stream was cut off. */
    method Send(dst: bytes, payload: bytes) returns (ok: bool)
      requires conn != null
      modifies conn`outgoing, conn`room
      ensures var m := Message(DATA, nodeName, dst, payload);
        && (ok <==> |Encode(m)| <= old(conn.room))
        && conn.outgoing == old(conn.outgoing) + (if ok then Encode(m) else Encode(m)[..old(conn.room)])
        && conn.room == (if ok then old(conn.room) - |Encode(m)| else 0)
        && (ok && InRange(m) && ReadAll(old(conn.outgoing)).rest == [] ==>
              ReadAll(conn.outgoing) == Drained(ReadAll(old(conn.outgoing)).messages + [m], []))
    {
      hide Encode, ReadAll, InRange, Carried;
      ghost var before := conn.outgoing;
      ok := conn.SendMessage(DATA, nodeName, dst, payload);
      ghost var m := Message(DATA, nodeName, dst, payload);
      if ok && InRange(m) && ReadAll(before).rest == [] {
        OneMore(before, m);
        DataIsCarried(m);
      }
    }
  }

  lemma DataIsCarried(m: Message)
    requires m.kind == DATA
    ensures Carried(m) == m
  {
  }

  lemma OneMore(before: bytes, m: Message)
    requires ReadAll(before).rest == [] && InRange(m)
    ensures ReadAll(before + Encode(m)) == Drained(ReadAll(before).messages + [Carried(m)], [])
  {
    hide Read, Encode, EncodeAll;
    ResumedReading(before, Encode(m));
    assert [] + Encode(m) == Encode(m);
    RoundTrip(m, []);
    assert Encode(m) + [] == Encode(m);
    ReadAllSteps(Encode(m), Carried(m), |Encode(m)|);
    EmptyReading();
  }

  lemma EmptyReading()
    ensures ReadAll([]) == Drained([], [])
  {
  }
}
