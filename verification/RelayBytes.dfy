/** The relay in bytes: what the steps of the protocol take from a connection and put on one,
    written out in numbers (relay.go:44-50, 182-270). */
module RelayBytes {
  import opened Bytes
  import opened RelayCodec
  import opened RelayProtocol

  /** A string behind one byte that counts it. */
  function Counted(s: bytes): bytes
    requires |s| <= 255
  {
    [|s| as byte] + s
  }

  /** The front of a frame: its type, its source, its destination. */
  function Front(kind: byte, src: bytes, dst: bytes): bytes
    requires |src| <= 255 && |dst| <= 255
  {
    [kind] + Counted(src) + Counted(dst)
  }

  // ---------------------------------------------------------------- frames

  /** What is written: Data is type 1, a registration type 2, Ping and Pong the bytes 3 and 4. */
  lemma FramesWritten(src: bytes, dst: bytes, n1: byte, n0: byte, payload: bytes)
    requires |src| <= 255 && |dst| <= 255 && |payload| == n1 as nat * 256 + n0 as nat
    ensures Encode(Message(DATA, src, dst, payload)) == Front(1, src, dst) + [0, 0, n1, n0] + payload
    ensures Encode(Message(REGISTER, src, dst, [])) == Front(2, src, dst)
    ensures Encode(Message(PING, src, dst, payload)) == [3] && Encode(Message(PONG, src, dst, payload)) == [4]
  {
    hide Put32;
    BigEndian32(0, 0, n1, n0);
  }

  lemma FrontIsRead(kind: byte, src: bytes, dst: bytes, rest: bytes)
    requires |src| <= 255 && |dst| <= 255
    ensures var s := Front(kind, src, dst) + rest; var p := 2 + |src|; var q := p + 1 + |dst|;
      && q <= |s| && s[0] == kind && s[q..] == rest
      && ReadString(s, 1) == Some((src, p)) && ReadString(s, p) == Some((dst, q))
  {
    hide ReadString;
    var s := Front(kind, src, dst) + rest;
    var p := 2 + |src|;
    var q := p + 1 + |dst|;
    assert s[1..p] == WriteString(src) && s[p..q] == WriteString(dst);
    assert src[..|src|] == src && dst[..|dst|] == dst;
    ReadStringWritten(s, 1, src);
    ReadStringWritten(s, p, dst);
  }

  lemma PayloadIsRead(s: bytes, src: bytes, dst: bytes, at: nat, n3: byte, n2: byte, n1: byte, n0: byte)
    requires at + 4 <= |s| && s[at..at + 4] == [n3, n2, n1, n0]
    ensures var n := n3 as nat * 0x100_0000 + n2 as nat * 0x1_0000 + n1 as nat * 0x100 + n0 as nat; var end := at + 4 + n;
      ReadPayload(s, src, dst, at) ==
        if n > 65535 then Oversized
        else if |s| < end then Starved
        else Frame(Message(DATA, src, dst, s[at + 4..end]), end)
  {
    assert s[at] == s[at..at + 4][0] && s[at + 1] == s[at..at + 4][1];
    assert s[at + 2] == s[at..at + 4][2] && s[at + 3] == s[at..at + 4][3];
  }

  /** What is read, whatever follows: the bytes 3 and 4 are frames by themselves; type 1 has a
      payload behind a length of four bytes, which must not exceed 65535; every other type
      ends with its destination. */
  lemma FramesRead(kind: byte, src: bytes, dst: bytes, rest: bytes)
    requires |src| <= 255 && |dst| <= 255
    ensures kind == 3 || kind == 4 ==> Read([kind] + rest) == Frame(Message(kind, [], [], []), 1)
    ensures kind != 1 && kind != 3 && kind != 4 ==>
      Read(Front(kind, src, dst) + rest) == Frame(Message(kind, src, dst, []), 3 + |src| + |dst|)
  {
    hide ReadString, ReadPayload;
    FrontIsRead(kind, src, dst, rest);
  }

  lemma DataIsRead(
    src: bytes, dst: bytes, n3: byte, n2: byte, n1: byte, n0: byte, payload: bytes, rest: bytes)
    requires |src| <= 255 && |dst| <= 255
    requires |payload| == n3 as nat * 0x100_0000 + n2 as nat * 0x1_0000 + n1 as nat * 0x100 + n0 as nat
    ensures var s := Front(1, src, dst) + [n3, n2, n1, n0] + payload + rest;
      Read(s) == if |payload| <= 65535 then Frame(Message(DATA, src, dst, payload), 7 + |src| + |dst| + |payload|)
                 else Oversized
  {
    hide ReadString, ReadPayload;
    var length := [n3, n2, n1, n0];
    var s := Front(1, src, dst) + length + payload + rest;
    assert s == Front(1, src, dst) + (length + payload + rest);
    FrontIsRead(1, src, dst, length + payload + rest);
    var q := 3 + |src| + |dst|;
    assert s[q..q + 4] == length;
    PayloadIsRead(s, src, dst, q, n3, n2, n1, n0);
    assert s[q + 4..q + 4 + |payload|] == payload;
  }

  /** A length above 65535 is refused as soon as it is there, whether or not the payload is. */
  lemma LongDataIsRefused(src: bytes, dst: bytes, n3: byte, n2: byte, n1: byte, n0: byte, rest: bytes)
    requires |src| <= 255 && |dst| <= 255 && (n3 != 0 || n2 != 0)
    ensures Read(Front(1, src, dst) + [n3, n2, n1, n0] + rest) == Oversized
  {
    hide ReadString, ReadPayload;
    var s := Front(1, src, dst) + [n3, n2, n1, n0] + rest;
    assert s == Front(1, src, dst) + ([n3, n2, n1, n0] + rest);
    FrontIsRead(1, src, dst, [n3, n2, n1, n0] + rest);
    var q := 3 + |src| + |dst|;
    assert s[q..q + 4] == [n3, n2, n1, n0];
    PayloadIsRead(s, src, dst, q, n3, n2, n1, n0);
  }

  /** The round trip in numbers: a message survives if and only if it is one of the bytes 3 and
      4, or its names have at most 255 bytes and, if it is Data, its payload at most 65535. */
  lemma RoundTripInNumbers(m: Message, tail: bytes)
    ensures (m.kind == 3 || m.kind == 4 || (|m.src| <= 255 && |m.dst| <= 255 && (m.kind == 1 ==> |m.payload| <= 65535)))
      <==> Read(Encode(m) + tail)
             == Frame(if m.kind == 3 || m.kind == 4 then Message(m.kind, [], [], [])
                      else if m.kind == 1 then m else Message(m.kind, m.src, m.dst, []), |Encode(m)|)
  {
    hide Read, Encode;
    RoundTrip(m, tail);
  }

  // ---------------------------------------------------------------- what the relay does with them

  /** A new connection is registered by a frame of type 2, under the source in it, and ended by
      any other frame. */
  lemma FirstFrame(s: Relay, c: ConnId, kind: byte, src: bytes, dst: bytes, rest: bytes)
    requires c in s.conns && s.conns[c].phase.Unregistered? && |src| <= 255 && |dst| <= 255
    requires kind != 1 && kind != 3 && kind != 4 && s.conns[c].pending == Front(kind, src, dst) + rest
    ensures var t := Step(s, Receive(c));
      && c in t.conns && t.conns[c].pending == rest
      && if kind == 2 then t.clients == s.clients[src := c] && t.conns[c].phase == Reading(src)
         else t.clients == s.clients && t.conns[c].phase == Closing
  {
    hide Read;
    FramesRead(kind, src, dst, rest);
    FrontIsRead(kind, src, dst, rest);
  }

  lemma OtherFirstFrame(s: Relay, c: ConnId)
    requires c in s.conns && s.conns[c].phase.Unregistered? && !Read(s.conns[c].pending).Starved?
    requires s.conns[c].pending != [] && s.conns[c].pending[0] != 2
    ensures var t := Step(s, Receive(c)); c in t.conns && t.clients == s.clients && t.conns[c].phase == Closing
  {
    hide ReadString, ReadPayload;
    if Read(s.conns[c].pending).Frame? { KindIsFirstByte(s.conns[c].pending); }
    hide Read;
  }

  lemma KindIsFirstByte(s: bytes)
    requires Read(s).Frame?
    ensures Read(s).message.kind == s[0]
  {
  }

  /** In the message loop a Ping is answered by the byte 4 on the same connection. */
  lemma PingIsAnswered(s: Relay, c: ConnId, rest: bytes, room: nat)
    requires c in s.conns && s.conns[c].phase.Reading? && s.conns[c].pending == [3] + rest
    requires !s.conns[c].broken && 1 <= room
    ensures var t := Step(Step(s, Receive(c)), Write(c, room));
      && c in t.conns && t.conns[c].phase == s.conns[c].phase && t.conns[c].pending == rest
      && t.conns[c].wire == s.conns[c].wire + [4]
  {
    hide Read;
    FramesRead(3, [], [], rest);
    FramesWritten([], [], 0, 0, []);
    assert ([3] + rest)[1..] == rest;
    PingIsPonged(Step(s, Receive(c)), c, room);
  }

  lemma PingIsPonged(s: Relay, c: ConnId, room: nat)
    requires c in s.conns && s.conns[c].phase.Ponging? && !s.conns[c].broken && 1 <= room && Encode(PONG_FRAME) == [4]
    ensures var t := Step(s, Write(c, room));
      && c in t.conns && t.conns[c].phase == Reading(s.conns[c].phase.name)
      && t.conns[c].pending == s.conns[c].pending && t.conns[c].wire == s.conns[c].wire + [4]
  {
    hide Encode, Receiving, Looking, Read;
  }

  /** A Data frame leaves as it came, byte for byte: read, looked up and written to an open
      destination that takes it, the bytes taken from one connection are the bytes put on
      the other. */
  lemma DataIsForwarded(
    s: Relay, c: ConnId, d: ConnId, src: bytes, dst: bytes, n1: byte, n0: byte, payload: bytes, rest: bytes, room: nat)
    requires c in s.conns && d in s.conns && s.conns[c].phase.Reading? && dst in s.clients && s.clients[dst] == d
    requires |src| <= 255 && |dst| <= 255 && |payload| == n1 as nat * 256 + n0 as nat
    requires var frame := Front(1, src, dst) + [0, 0, n1, n0] + payload;
      s.conns[c].pending == frame + rest && |frame| <= room
    requires !s.conns[d].broken && !s.conns[d].phase.Closed?
    ensures var frame := Front(1, src, dst) + [0, 0, n1, n0] + payload;
      var t := Step(Step(Step(s, Receive(c)), Lookup(c)), Write(c, room));
      && c in t.conns && d in t.conns
      && t.conns[c].pending == rest && t.conns[d].wire == s.conns[d].wire + frame
  {
    hide Step, Read, Encode, Front;
    var m := Message(DATA, src, dst, payload);
    var frame := Front(1, src, dst) + [0, 0, n1, n0] + payload;
    DataIsRead(src, dst, 0, 0, n1, n0, payload, rest);
    FramesWritten(src, dst, n1, n0, payload);
    FrontSize(src, dst);
    assert (frame + rest)[|frame|..] == rest;
    DataTaken(s, c, d, m, |frame|);
    var u := Step(s, Receive(c));
    DataFound(u, c, d);
    DataPut(Step(u, Lookup(c)), c, d, m, room);
  }

  lemma FrontSize(src: bytes, dst: bytes)
    requires |src| <= 255 && |dst| <= 255
    ensures |Front(1, src, dst)| == 3 + |src| + |dst|
  {
  }

  lemma DataTaken(s: Relay, c: ConnId, d: ConnId, m: Message, size: nat)
    requires c in s.conns && d in s.conns && s.conns[c].phase.Reading? && m.kind == DATA
    requires size <= |s.conns[c].pending| && Read(s.conns[c].pending) == Frame(m, size)
    ensures var u := Step(s, Receive(c)); var conn := s.conns[c];
      && c in u.conns && d in u.conns && u.clients == s.clients
      && u.conns[c].phase == Resolving(conn.phase.name, m) && u.conns[c].pending == conn.pending[size..]
      && SameTarget(s.conns[d], u.conns[d])
  {
    hide Read, Looking, Writing;
  }

  /** What a write to a connection depends on. */
  predicate SameTarget(conn: Conn, later: Conn) {
    later.wire == conn.wire && later.broken == conn.broken && later.phase.Closed? == conn.phase.Closed?
  }

  lemma DataFound(s: Relay, c: ConnId, d: ConnId)
    requires c in s.conns && d in s.conns && s.conns[c].phase.Resolving?
    requires s.conns[c].phase.msg.dst in s.clients && s.clients[s.conns[c].phase.msg.dst] == d
    ensures var u := Step(s, Lookup(c)); var phase := s.conns[c].phase;
      && c in u.conns && d in u.conns
      && u.conns[c].phase == Forwarding(phase.name, phase.msg, d) && u.conns[c].pending == s.conns[c].pending
      && SameTarget(s.conns[d], u.conns[d])
  {
    hide Receiving, Writing, Read;
  }

  lemma DataPut(s: Relay, c: ConnId, d: ConnId, m: Message, room: nat)
    requires c in s.conns && d in s.conns && s.conns[c].phase.Forwarding?
    requires s.conns[c].phase.msg == m && s.conns[c].phase.to == d
    requires !s.conns[d].broken && !s.conns[d].phase.Closed? && |Encode(m)| <= room
    ensures var u := Step(s, Write(c, room));
      && c in u.conns && d in u.conns
      && u.conns[c].pending == s.conns[c].pending && u.conns[d].wire == s.conns[d].wire + Encode(m)
  {
    hide Receiving, Looking, Read, Encode;
  }
}
