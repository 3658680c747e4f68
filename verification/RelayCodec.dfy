/** The relay's length-prefixed frame format (relay.go): what `sendMessage` puts on a
    connection and what `readMessage` takes off it, as functions of the bytes. */
module RelayCodec {
  import opened Bytes

  const DATA: byte := 1
  const REGISTER: byte := 2
  const PING: byte := 3
  const PONG: byte := 4

  const MAX_PAYLOAD := 65535

  datatype Message = Message(kind: byte, src: bytes, dst: bytes, payload: bytes)

  /** The outcome of reading one frame off the front of the bytes still to come. `Starved`
      means that the reader used up everything there was and still wants more. */
  datatype Reading =
    | Frame(message: Message, size: nat)
    | Starved
    | Oversized

  predicate Bare(kind: byte) {
    kind == PING || kind == PONG
  }

  /** writeString: the length is cut down to one byte. */
  function WriteString(s: bytes): bytes {
    [Low8(|s|)] + s
  }

  /** The buffer that sendMessage hands to conn.Write. */
  function Encode(m: Message): bytes {
    if Bare(m.kind) then [m.kind]
    else
      var head := [m.kind] + WriteString(m.src) + WriteString(m.dst);
      if m.kind == DATA then head + Put32(|m.payload|) + m.payload else head
  }

  /** readString at position `at`: the string and the position after it. */
  function ReadString(s: bytes, at: nat): Option<(bytes, nat)>
    requires at <= |s|
  {
    if |s| < at + 1 then None
    else
      var end := at + 1 + s[at] as nat;
      if |s| < end then None else Some((s[at + 1..end], end))
  }

  /** readMessage on the bytes `s`. */
  function Read(s: bytes): Reading {
    if |s| < 1 then Starved
    else if Bare(s[0]) then Frame(Message(s[0], [], [], []), 1)
    else
      match ReadString(s, 1)
      case None => Starved
      case Some((src, afterSrc)) =>
        match ReadString(s, afterSrc)
        case None => Starved
        case Some((dst, afterDst)) =>
          if s[0] != DATA then Frame(Message(s[0], src, dst, []), afterDst)
          else ReadPayload(s, src, dst, afterDst)
  }

  function ReadPayload(s: bytes, src: bytes, dst: bytes, at: nat): Reading
    requires at <= |s|
  {
    if |s| < at + 4 then Starved
    else
      var length := Uint32(s, at);
      if length > MAX_PAYLOAD then Oversized
      else if |s| < at + 4 + length then Starved
      else Frame(Message(DATA, src, dst, s[at + 4..at + 4 + length]), at + 4 + length)
  }

  /** What of a message the format carries at all. */
  function Carried(m: Message): Message {
    if Bare(m.kind) then Message(m.kind, [], [], [])
    else if m.kind == DATA then m
    else m.(payload := [])
  }

  /** The messages that `sendMessage` encodes without losing a length. */
  predicate InRange(m: Message) {
    Bare(m.kind) ||
    (|m.src| <= 255 && |m.dst| <= 255 && (m.kind == DATA ==> |m.payload| <= MAX_PAYLOAD))
  }

  // ---------------------------------------------------------------- one frame

  lemma AcceptedString(s: bytes, at: nat)
    requires at <= |s| && ReadString(s, at).Some?
    ensures var (text, end) := ReadString(s, at).value;
      at < end <= |s| && |text| <= 255 && WriteString(text) == s[at..end]
  {
  }

  lemma AcceptedPayload(s: bytes, src: bytes, dst: bytes, at: nat)
    requires at <= |s| && ReadPayload(s, src, dst, at).Frame?
    ensures var r := ReadPayload(s, src, dst, at);
      && at < r.size <= |s| && |r.message.payload| <= MAX_PAYLOAD
      && r.message == Message(DATA, src, dst, r.message.payload)
      && Put32(|r.message.payload|) + r.message.payload == s[at..r.size]
  {
    hide Put32, Uint32;
    var r := ReadPayload(s, src, dst, at);
    ReadPut32(s, at);
    assert s[at..at + 4] + s[at + 4..r.size] == s[at..r.size];
  }

  /** An accepted frame re-encodes to exactly the bytes consumed. */
  lemma AcceptedIsCanonical(s: bytes)
    requires Read(s).Frame?
    ensures 0 < Read(s).size <= |s|
    ensures InRange(Read(s).message) && Carried(Read(s).message) == Read(s).message
    ensures Encode(Read(s).message) == s[..Read(s).size]
  {
    hide ReadString, ReadPayload, WriteString, Put32;
    if !Bare(s[0]) {
      AcceptedString(s, 1);
      var (src, afterSrc) := ReadString(s, 1).value;
      AcceptedString(s, afterSrc);
      var (dst, afterDst) := ReadString(s, afterSrc).value;
      var head := [s[0]] + WriteString(src) + WriteString(dst);
      assert head == s[..afterDst];
      if s[0] == DATA {
        AcceptedPayload(s, src, dst, afterDst);
        var m := Read(s).message;
        var end := Read(s).size;
        assert head + (Put32(|m.payload|) + m.payload) == s[..afterDst] + s[afterDst..end] == s[..end];
      }
    }
  }

  lemma ReadStringWritten(s: bytes, at: nat, text: bytes)
    requires at + 1 + |text| <= |s| && s[at..at + 1 + |text|] == WriteString(text)
    ensures s[at] as nat == |text| % 256
    ensures ReadString(s, at) == Some((text[..|text| % 256], at + 1 + |text| % 256))
  {
    var written := s[at..at + 1 + |text|];
    assert s[at] == written[0];
    var end := at + 1 + |text| % 256;
    assert forall k :: 0 <= k < |text| ==> s[at + 1 + k] == written[1 + k] == text[k];
    assert s[at + 1..end] == text[..|text| % 256];
  }

  /** `s` begins with a type byte, two written strings and, for Data, a written payload. */
  ghost predicate LaidOut(s: bytes, m: Message, afterSrc: nat, afterDst: nat, end: nat) {
    && !Bare(m.kind) && 0 < |s| && s[0] == m.kind
    && afterSrc == 2 + |m.src| && afterDst == afterSrc + 1 + |m.dst| && afterDst <= end <= |s|
    && s[1..afterSrc] == WriteString(m.src)
    && s[afterSrc..afterDst] == WriteString(m.dst)
    && (m.kind != DATA ==> end == afterDst)
    && (m.kind == DATA ==>
        && end == afterDst + 4 + |m.payload|
        && s[afterDst..afterDst + 4] == Put32(|m.payload|)
        && s[afterDst + 4..end] == m.payload)
  }

  lemma EncodedIsLaidOut(m: Message, tail: bytes)
    requires !Bare(m.kind)
    ensures LaidOut(Encode(m) + tail, m, 2 + |m.src|, 3 + |m.src| + |m.dst|, |Encode(m)|)
  {
  }

  /** `readMessage` undoes `sendMessage`, whatever follows on the stream, for exactly the
      messages in range: no truncated length goes unnoticed. */
  lemma RoundTrip(m: Message, tail: bytes)
    ensures InRange(m) <==> Read(Encode(m) + tail) == Frame(Carried(m), |Encode(m)|)
  {
    if !Bare(m.kind) {
      EncodedIsLaidOut(m, tail);
      ReadLaidOut(Encode(m) + tail, m, 2 + |m.src|, 3 + |m.src| + |m.dst|, |Encode(m)|);
    }
  }

  lemma ReadLaidOut(s: bytes, m: Message, afterSrc: nat, afterDst: nat, end: nat)
    requires LaidOut(s, m, afterSrc, afterDst, end)
    ensures InRange(m) <==> Read(s) == Frame(Carried(m), end)
  {
    hide ReadString, ReadPayload, WriteString, Put32;
    ReadStringWritten(s, 1, m.src);
    if |m.src| <= 255 {
      assert m.src[..|m.src|] == m.src;
      ReadStringWritten(s, afterSrc, m.dst);
      if |m.dst| <= 255 {
        assert m.dst[..|m.dst|] == m.dst;
        if m.kind == DATA {
          PayloadRoundTrip(s, m, afterDst);
        }
      } else {
        PayloadKeepsNames(s, m.src, m.dst[..|m.dst| % 256], afterSrc + 1 + |m.dst| % 256);
      }
    } else {
      FrameKeepsSource(s);
    }
  }

  lemma PayloadKeepsNames(s: bytes, src: bytes, dst: bytes, at: nat)
    requires at <= |s|
    ensures var r := ReadPayload(s, src, dst, at);
      r.Frame? ==> r.message.src == src && r.message.dst == dst
  {
  }

  lemma FrameKeepsSource(s: bytes)
    requires 0 < |s| && !Bare(s[0])
    ensures Read(s).Frame? ==>
      ReadString(s, 1).Some? && Read(s).message.src == ReadString(s, 1).value.0
  {
  }

  lemma PayloadRoundTrip(s: bytes, m: Message, at: nat)
    requires m.kind == DATA
    requires at + 4 + |m.payload| <= |s|
    requires s[at..at + 4] == Put32(|m.payload|)
    requires s[at + 4..at + 4 + |m.payload|] == m.payload
    ensures |m.payload| <= MAX_PAYLOAD <==>
            ReadPayload(s, m.src, m.dst, at) == Frame(m, at + 4 + |m.payload|)
  {
    Put32Read(|m.payload|, s, at);
  }

  lemma SameString(s: bytes, tail: bytes, at: nat)
    requires at <= |s| && ReadString(s, at).Some?
    ensures ReadString(s + tail, at) == ReadString(s, at)
  {
    var end := ReadString(s, at).value.1;
    assert (s + tail)[at + 1..end] == s[at + 1..end];
  }

  lemma SamePayload(s: bytes, tail: bytes, src: bytes, dst: bytes, at: nat)
    requires at <= |s| && !ReadPayload(s, src, dst, at).Starved?
    ensures ReadPayload(s + tail, src, dst, at) == ReadPayload(s, src, dst, at)
  {
    assert Uint32(s + tail, at) == Uint32(s, at);
    if ReadPayload(s, src, dst, at).Frame? {
      var end := ReadPayload(s, src, dst, at).size;
      assert (s + tail)[at + 4..end] == s[at + 4..end];
    }
  }

  /** The outcome of a read depends only on the bytes read: once there is one, more input
      changes nothing. */
  lemma MoreInputChangesNothing(s: bytes, tail: bytes)
    requires !Read(s).Starved?
    ensures Read(s + tail) == Read(s)
  {
    if !Bare(s[0]) {
      AcceptedString(s, 1);
      SameString(s, tail, 1);
      var (src, afterSrc) := ReadString(s, 1).value;
      AcceptedString(s, afterSrc);
      SameString(s, tail, afterSrc);
      var (dst, afterDst) := ReadString(s, afterSrc).value;
      if s[0] == DATA {
        SamePayload(s, tail, src, dst, afterDst);
      }
    }
  }

  /** No frame is a proper prefix of another: a cut-off frame is never mistaken for a whole one. */
  lemma CutFrameStarves(m: Message, kept: nat)
    requires InRange(m) && kept < |Encode(m)|
    ensures Read(Encode(m)[..kept]) == Starved
  {
    hide Read, Encode;
    var frame := Encode(m);
    var cut := frame[..kept];
    RoundTrip(m, []);
    assert frame + [] == frame;
    if !Read(cut).Starved? {
      MoreInputChangesNothing(cut, frame[kept..]);
      assert cut + frame[kept..] == frame;
      AcceptedIsCanonical(cut);
      assert false;
    }
  }

  lemma NothingStarves()
    ensures Read([]) == Starved
  {
  }

  // ---------------------------------------------------------------- a stream of frames

  /** readMessage called again and again until it cannot deliver; `rest` is what is left. */
  datatype Drained = Drained(messages: seq<Message>, rest: bytes)

  function ReadAll(s: bytes): (d: Drained)
    decreases |s|
  {
    var r := Read(s);
    if !r.Frame? then Drained([], s)
    else
      AcceptedIsCanonical(s);
      var more := ReadAll(s[r.size..]);
      Drained([r.message] + more.messages, more.rest)
  }

  function EncodeAll(ms: seq<Message>): bytes {
    if ms == [] then [] else Encode(ms[0]) + EncodeAll(ms[1..])
  }

  function CarriedAll(ms: seq<Message>): (cs: seq<Message>)
    ensures |cs| == |ms|
    ensures forall i :: 0 <= i < |ms| ==> cs[i] == Carried(ms[i])
  {
    seq(|ms|, i requires 0 <= i < |ms| => Carried(ms[i]))
  }

  ghost predicate AllInRange(ms: seq<Message>) {
    forall i :: 0 <= i < |ms| ==> InRange(ms[i])
  }

  lemma CarriedAllCons(ms: seq<Message>)
    requires ms != []
    ensures CarriedAll(ms) == [Carried(ms[0])] + CarriedAll(ms[1..])
  {
  }

  lemma {:induction false} EncodeAllAppend(ms: seq<Message>, more: seq<Message>)
    ensures EncodeAll(ms + more) == EncodeAll(ms) + EncodeAll(more)
  {
    if ms == [] {
      assert ms + more == more;
    } else {
      assert (ms + more)[1..] == ms[1..] + more;
      EncodeAllAppend(ms[1..], more);
      assert EncodeAll(ms + more) == Encode(ms[0]) + (EncodeAll(ms[1..]) + EncodeAll(more));
    }
  }

  lemma EncodeAllSnoc(ms: seq<Message>, m: Message)
    ensures EncodeAll(ms + [m]) == EncodeAll(ms) + Encode(m)
  {
    EncodeAllAppend(ms, [m]);
    assert EncodeAll([m]) == Encode(m) + EncodeAll([]);
  }

  lemma ReadAllSteps(s: bytes, m: Message, size: nat)
    requires Read(s) == Frame(m, size)
    ensures 0 < size <= |s|
    ensures ReadAll(s) == Drained([m] + ReadAll(s[size..]).messages, ReadAll(s[size..]).rest)
  {
    AcceptedIsCanonical(s);
  }

  lemma ReadAllStops(s: bytes)
    requires !Read(s).Frame?
    ensures ReadAll(s) == Drained([], s)
  {
  }

  /** Stream round trip: any list of in-range messages, written one frame after the other,
      comes back as that list, and what follows the frames is read as if it stood alone. */
  lemma {:induction false} StreamRoundTrip(ms: seq<Message>, tail: bytes)
    requires AllInRange(ms)
    ensures ReadAll(EncodeAll(ms) + tail)
         == Drained(CarriedAll(ms) + ReadAll(tail).messages, ReadAll(tail).rest)
  {
    hide Read, ReadAll, Encode, CarriedAll;
    var after := ReadAll(tail);
    if ms == [] {
      assert EncodeAll(ms) + tail == tail;
      assert CarriedAll(ms) + after.messages == after.messages;
    } else {
      var others := EncodeAll(ms[1..]) + tail;
      var s := EncodeAll(ms) + tail;
      assert s == Encode(ms[0]) + others;
      RoundTrip(ms[0], others);
      ReadAllSteps(s, Carried(ms[0]), |Encode(ms[0])|);
      assert s[|Encode(ms[0])|..] == others;
      StreamRoundTrip(ms[1..], tail);
      CarriedAllCons(ms);
      assert CarriedAll(ms) + after.messages
          == [Carried(ms[0])] + (CarriedAll(ms[1..]) + after.messages);
    }
  }

  /** The other direction: whatever stream is read, the messages taken off it and the bytes
      left over account for every byte of it. */
  lemma {:induction false} ReadAllIsLossless(s: bytes)
    ensures EncodeAll(ReadAll(s).messages) + ReadAll(s).rest == s
    ensures !Read(ReadAll(s).rest).Frame?
    ensures AllInRange(ReadAll(s).messages)
    ensures CarriedAll(ReadAll(s).messages) == ReadAll(s).messages
    decreases |s|
  {
    hide Read, ReadAll, Encode, CarriedAll;
    var r := Read(s);
    if !r.Frame? {
      ReadAllStops(s);
    } else {
      AcceptedIsCanonical(s);
      ReadAllSteps(s, r.message, r.size);
      var more := ReadAll(s[r.size..]);
      ReadAllIsLossless(s[r.size..]);
      FrameThenRest(r.message, more, s[..r.size], s[r.size..]);
      assert s == s[..r.size] + s[r.size..];
    }
  }

  lemma FrameThenRest(m: Message, more: Drained, frame: bytes, others: bytes)
    requires frame == Encode(m)
    requires EncodeAll(more.messages) + more.rest == others
    ensures EncodeAll([m] + more.messages) + more.rest == frame + others
  {
    assert ([m] + more.messages)[1..] == more.messages;
  }

  /** Reading as far as one can, and then going on when more has arrived, delivers what one
      reading of the whole stream delivers, however the stream is cut. */
  lemma ResumedReading(s: bytes, more: bytes)
    ensures ReadAll(s + more)
         == Drained(ReadAll(s).messages + ReadAll(ReadAll(s).rest + more).messages,
                    ReadAll(ReadAll(s).rest + more).rest)
  {
    var d := ReadAll(s);
    ReadAllIsLossless(s);
    LeftoverReading(d.messages, d.rest, more, s);
  }

  lemma LeftoverReading(ms: seq<Message>, rest: bytes, more: bytes, s: bytes)
    requires AllInRange(ms) && CarriedAll(ms) == ms && EncodeAll(ms) + rest == s
    ensures ReadAll(s + more)
         == Drained(ms + ReadAll(rest + more).messages, ReadAll(rest + more).rest)
  {
    hide Read, ReadAll, Encode, EncodeAll;
    StreamRoundTrip(ms, rest + more);
    assert EncodeAll(ms) + (rest + more) == s + more;
  }
}
