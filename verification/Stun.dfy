/** STUN binding responses (stun.go:166-241; RFC 8489 section 5 for the header, section 14 for
    the attributes and their padding, sections 14.1 and 14.2 for the two address attributes). */
module Stun {
  import opened Bytes
  import opened IpAddress

  const MAPPED_ADDRESS := 0x0001
  const XOR_MAPPED_ADDRESS := 0x0020
  const SUCCESS_RESPONSE := 0x0101
  const MAGIC_COOKIE := 0x2112A442
  const COOKIE_BYTES: bytes := [0x21, 0x12, 0xA4, 0x42]
  const COOKIE_HIGH := 0x2112

  // ---------------------------------------------------------------- exclusive or

  function Pow2(bits: nat): (p: nat)
    ensures p > 0
  {
    if bits == 0 then 1 else 2 * Pow2(bits - 1)
  }

  /** Go's `^` on the lowest bits of two numbers. */
  function Xor(a: nat, b: nat, bits: nat): (x: nat)
    ensures x < Pow2(bits)
    decreases bits
  {
    if bits == 0 then 0 else (a + b) % 2 + 2 * Xor(a / 2, b / 2, bits - 1)
  }

  lemma {:induction false} XorUndone(a: nat, b: nat, bits: nat)
    requires a < Pow2(bits)
    ensures Xor(Xor(a, b, bits), b, bits) == a
    decreases bits
  {
    if bits > 0 {
      var x := Xor(a / 2, b / 2, bits - 1);
      XorUndone(a / 2, b / 2, bits - 1);
      LowestBit(a, b, x);
    }
  }

  /** Putting a lowest bit under `x` and taking it off again. */
  lemma LowestBit(a: nat, b: nat, x: nat)
    ensures var y := (a + b) % 2 + 2 * x; y / 2 == x && (y + b) % 2 == a % 2
  {
    Parity(a + b, x);
    assert (a + b) % 2 == if a % 2 == b % 2 then 0 else 1;
  }

  lemma Parity(n: nat, x: nat)
    ensures (n % 2 + 2 * x) / 2 == x && (n % 2 + 2 * x) % 2 == n % 2
  {
  }

  /** Bit `i` of a number, from the lowest. */
  function Bit(n: nat, i: nat): nat
    decreases i
  {
    if i == 0 then n % 2 else Bit(n / 2, i - 1)
  }

  /** Bitwise exclusive or: a bit is set if and only if it is set in exactly one of the two. */
  lemma {:induction false} XorBit(a: nat, b: nat, bits: nat, i: nat)
    requires i < bits
    ensures Bit(Xor(a, b, bits), i) == 1 <==> Bit(a, i) != Bit(b, i)
    ensures Bit(a, i) < 2 && Bit(b, i) < 2
    decreases i
  {
    var x := Xor(a / 2, b / 2, bits - 1);
    Parity(a + b, x);
    if i == 0 {
      assert (a + b) % 2 == 1 <==> a % 2 != b % 2;
    } else {
      XorBit(a / 2, b / 2, bits - 1, i - 1);
    }
  }

  /** The bits below its width determine a number, so that XorBit leaves no choice. */
  lemma {:induction false} SameBits(a: nat, b: nat, bits: nat)
    requires a < Pow2(bits) && b < Pow2(bits)
    requires forall i: nat :: i < bits ==> Bit(a, i) == Bit(b, i)
    ensures a == b
    decreases bits
  {
    if bits > 0 {
      assert Bit(a, 0) == Bit(b, 0);
      forall i: nat | i < bits - 1 ensures Bit(a / 2, i) == Bit(b / 2, i) {
        assert Bit(a, i + 1) == Bit(b, i + 1);
      }
      SameBits(a / 2, b / 2, bits - 1);
    }
  }

  lemma Widths()
    ensures Pow2(8) == 256 && Pow2(16) == 65536
  {
    assert Pow2(4) == 16;
    assert Pow2(8) == 256;
    assert Pow2(12) == 4096;
  }

  function XorByte(a: byte, b: byte): byte {
    Widths();
    Xor(a as nat, b as nat, 8) as byte
  }

  // ---------------------------------------------------------------- addresses

  datatype Endpoint = Endpoint(ip: bytes, port: nat)

  /** parseXORMappedAddr: a value that is too short yields no address and port 0, not an error. */
  function DecodeXorMapped(value: bytes): Endpoint {
    if |value| < 8 then Endpoint([], 0)
    else Endpoint(seq(4, i requires 0 <= i < 4 => XorByte(value[4 + i], COOKIE_BYTES[i])),
                  Xor(Uint16(value, 2), COOKIE_HIGH, 16))
  }

  /** parseMappedAddr: net.IPv4 makes the 16-byte form. */
  function DecodeMapped(value: bytes): Endpoint {
    if |value| < 8 then Endpoint([], 0)
    else Endpoint(V4_IN_V6 + value[4..8], Uint16(value, 2))
  }

  method ParseXorMappedAddr(value: bytes) returns (r: Endpoint)
    ensures r == DecodeXorMapped(value)
  {
    hide Xor;
    if |value| < 8 { return Endpoint([], 0); }
    var port := Xor(Uint16(value, 2), COOKIE_HIGH, 16);
    var ip := new byte[4](_ => 0);
    for i := 0 to 4
      invariant forall j :: 0 <= j < i ==> ip[j] == XorByte(value[4 + j], COOKIE_BYTES[j])
    {
      ip[i] := XorByte(value[4 + i], COOKIE_BYTES[i]);
    }
    return Endpoint(ip[..], port);
  }

  /** Section 14.1: a zero byte, the family 0x01, the port, the address. */
  function EncodeMapped(ip: bytes, port: nat): bytes {
    [0, 1] + Put16(port) + ip
  }

  /** Section 14.2: the same, with the port and the address masked by the magic cookie. */
  function EncodeXorMapped(ip: bytes, port: nat): bytes
    requires |ip| == 4
  {
    [0, 1] + Put16(Xor(port, COOKIE_HIGH, 16))
      + seq(4, i requires 0 <= i < 4 => XorByte(ip[i], COOKIE_BYTES[i]))
  }

  lemma DecodeEncodedXor(ip: bytes, port: nat)
    requires |ip| == 4 && port < 65536
    ensures DecodeXorMapped(EncodeXorMapped(ip, port)) == Endpoint(ip, port)
  {
    hide Put16, Uint16, Xor;
    Widths();
    var value := EncodeXorMapped(ip, port);
    var masked := Xor(port, COOKIE_HIGH, 16);
    assert value[2..4] == Put16(masked);
    Put16Read(masked, value, 2);
    XorUndone(port, COOKIE_HIGH, 16);
    forall i | 0 <= i < 4 ensures XorByte(value[4 + i], COOKIE_BYTES[i]) == ip[i] {
      assert value[4 + i] == XorByte(ip[i], COOKIE_BYTES[i]);
      XorUndone(ip[i] as nat, COOKIE_BYTES[i] as nat, 8);
    }
  }

  lemma DecodeEncodedMapped(ip: bytes, port: nat)
    requires |ip| == 4 && port < 65536
    ensures DecodeMapped(EncodeMapped(ip, port)) == Endpoint(V4_IN_V6 + ip, port)
  {
    hide Put16, Uint16;
    var value := EncodeMapped(ip, port);
    assert value[2..4] == Put16(port);
    Put16Read(port, value, 2);
    assert value[4..8] == ip;
  }

  /** The masks are pieces of the magic cookie. */
  lemma CookieParts()
    ensures COOKIE_BYTES == Put32(MAGIC_COOKIE) && COOKIE_HIGH == MAGIC_COOKIE / 65536
  {
    BigEndian32(0x21, 0x12, 0xA4, 0x42);
  }

  /** One more bit below. */
  lemma XorAppend(a: nat, b: nat, bits: nat, i: nat, j: nat)
    requires i < 2 && j < 2
    ensures Xor(2 * a + i, 2 * b + j, bits + 1) == 2 * Xor(a, b, bits) + if i == j then 0 else 1
  {
    hide Pow2;
    Halved(a, i);
    Halved(b, j);
    assert (2 * a + i + (2 * b + j)) % 2 == if i == j then 0 else 1;
  }

  lemma Halved(a: nat, i: nat)
    requires i < 2
    ensures (2 * a + i) / 2 == a && (2 * a + i) % 2 == i
  {
  }

  /** Four more bits below, a hexadecimal digit. */
  lemma XorDigit(
    a: nat, b: nat, bits: nat, i3: nat, i2: nat, i1: nat, i0: nat, j3: nat, j2: nat, j1: nat, j0: nat)
    requires i3 < 2 && i2 < 2 && i1 < 2 && i0 < 2 && j3 < 2 && j2 < 2 && j1 < 2 && j0 < 2
    ensures Xor(16 * a + 8 * i3 + 4 * i2 + 2 * i1 + i0, 16 * b + 8 * j3 + 4 * j2 + 2 * j1 + j0, bits + 4)
         == 16 * Xor(a, b, bits) + (if i3 == j3 then 0 else 8) + (if i2 == j2 then 0 else 4)
            + (if i1 == j1 then 0 else 2) + (if i0 == j0 then 0 else 1)
  {
    hide Xor, Pow2;
    XorAppend(a, b, bits, i3, j3);
    XorAppend(2 * a + i3, 2 * b + j3, bits + 1, i2, j2);
    XorAppend(4 * a + 2 * i3 + i2, 4 * b + 2 * j3 + j2, bits + 2, i1, j1);
    XorAppend(8 * a + 4 * i3 + 2 * i2 + i1, 8 * b + 4 * j3 + 2 * j2 + j1, bits + 3, i0, j0);
  }

  lemma XorNone(a: nat, b: nat)
    ensures Xor(a, b, 0) == 0
  {
  }

  lemma SampleBytes()
    ensures XorByte(0xE1, 0x21) == 192 && XorByte(0x12, 0x12) == 0
    ensures XorByte(0xA6, 0xA4) == 2 && XorByte(0x43, 0x42) == 1
  {
    hide Xor, Pow2;
    XorNone(0, 0);
    XorDigit(0, 0, 0, 1, 1, 1, 0, 0, 0, 1, 0);
    XorDigit(0xE, 0x2, 4, 0, 0, 0, 1, 0, 0, 0, 1);
    XorDigit(0, 0, 0, 0, 0, 0, 1, 0, 0, 0, 1);
    XorDigit(0x1, 0x1, 4, 0, 0, 1, 0, 0, 0, 1, 0);
    XorDigit(0, 0, 0, 1, 0, 1, 0, 1, 0, 1, 0);
    XorDigit(0xA, 0xA, 4, 0, 1, 1, 0, 0, 1, 0, 0);
    XorDigit(0, 0, 0, 0, 1, 0, 0, 0, 1, 0, 0);
    XorDigit(0x4, 0x4, 4, 0, 0, 1, 1, 0, 0, 1, 0);
  }

  lemma SamplePort()
    ensures Xor(0xA147, 0x2112, 16) == 32853
  {
    hide Xor, Pow2;
    XorNone(0, 0);
    XorDigit(0, 0, 0, 1, 0, 1, 0, 0, 0, 1, 0);
    XorDigit(0xA, 0x2, 4, 0, 0, 0, 1, 0, 0, 0, 1);
    XorDigit(0xA1, 0x21, 8, 0, 1, 0, 0, 0, 0, 0, 1);
    XorDigit(0xA14, 0x211, 12, 0, 1, 1, 1, 0, 0, 1, 0);
  }

  /** The decoder bit by bit: the port and each address byte differ from what was received
      exactly where the magic cookie has a bit set. */
  lemma DecodedBits(value: bytes, k: nat, i: nat, j: nat)
    requires |value| >= 8 && k < 4 && i < 8 && j < 16
    ensures var e := DecodeXorMapped(value);
      && |e.ip| == 4
      && (Bit(e.port, j) == 1 <==> Bit(value[2] as nat * 256 + value[3] as nat, j) != Bit(0x2112, j))
      && (Bit(e.ip[k] as nat, i) == 1 <==>
            Bit(value[4 + k] as nat, i) != Bit([0x21, 0x12, 0xA4, 0x42][k], i))
  {
    hide Xor, Bit;
    XorBit(Uint16(value, 2), COOKIE_HIGH, 16, j);
    XorBit(value[4 + k] as nat, COOKIE_BYTES[k] as nat, 8, i);
  }

  /** The mapped address in section 2.2 of RFC 5769 is 192.0.2.1, port 32853. */
  lemma SampleMaskedAddress()
    ensures DecodeXorMapped([0x00, 0x01, 0xA1, 0x47, 0xE1, 0x12, 0xA6, 0x43]) == Endpoint([192, 0, 2, 1], 32853)
  {
    hide Xor, XorByte, Pow2;
    var value: bytes := [0x00, 0x01, 0xA1, 0x47, 0xE1, 0x12, 0xA6, 0x43];
    assert Uint16(value, 2) == 0xA147;
    SamplePort();
    SampleBytes();
    assert DecodeXorMapped(value).ip == [192, 0, 2, 1];
  }

  // ---------------------------------------------------------------- the parser

  datatype Problem = TooShort | BadCookie | UnexpectedType | TruncatedMessage | NoAddress
  datatype Outcome = Found(endpoint: Endpoint) | Refused(problem: Problem)

  predicate IsAddress(kind: nat) {
    kind == MAPPED_ADDRESS || kind == XOR_MAPPED_ADDRESS
  }

  function Decode(kind: nat, value: bytes): Outcome {
    Found(if kind == XOR_MAPPED_ADDRESS then DecodeXorMapped(value) else DecodeMapped(value))
  }

  /** The bytes that bring a value of this length up to a multiple of four. */
  function Padding(length: nat): (n: nat)
    ensures (length + n) % 4 == 0 && n < 4
  {
    if length % 4 != 0 then 4 - length % 4 else 0
  }

  /** The attribute loop from `offset` on. A header or value that runs past the data ends it. */
  function FindAddress(data: bytes, offset: nat, limit: nat): Outcome
    decreases limit - offset
  {
    if offset >= limit || offset + 4 > |data| then Refused(NoAddress)
    else
      var kind := Uint16(data, offset);
      var length := Uint16(data, offset + 2);
      var start := offset + 4;
      if start + length > |data| then Refused(NoAddress)
      else if IsAddress(kind) then Decode(kind, data[start..start + length])
      else FindAddress(data, start + length + Padding(length), limit)
  }

  /** parseBindingResponse. */
  function ParseResponse(data: bytes): Outcome {
    if |data| < 20 then Refused(TooShort)
    else if Uint32(data, 4) != MAGIC_COOKIE then Refused(BadCookie)
    else if Uint16(data, 0) != SUCCESS_RESPONSE then Refused(UnexpectedType)
    else if |data| < 20 + Uint16(data, 2) then Refused(TruncatedMessage)
    else FindAddress(data, 20, 20 + Uint16(data, 2))
  }

  /** The header in bytes: a response has the type 0x0101 and the magic cookie, and is no shorter
      than its length says; the first check that fails names the problem. */
  lemma HeaderChecks(data: bytes)
    ensures |data| < 20 ==> ParseResponse(data) == Refused(TooShort)
    ensures |data| >= 20 ==>
      var cookie := data[4..8] == [0x21, 0x12, 0xA4, 0x42]; var success := data[0] == 0x01 && data[1] == 0x01;
      var end := 20 + data[2] as nat * 256 + data[3] as nat;
      && (!cookie ==> ParseResponse(data) == Refused(BadCookie))
      && (cookie && !success ==> ParseResponse(data) == Refused(UnexpectedType))
      && (cookie && success && |data| < end ==> ParseResponse(data) == Refused(TruncatedMessage))
      && (cookie && success && |data| >= end ==> ParseResponse(data) == FindAddress(data, 20, end))
  {
    hide FindAddress;
    if |data| >= 20 {
      CookieInBytes(data);
    }
  }

  lemma CookieInBytes(data: bytes)
    requires 20 <= |data|
    ensures Uint32(data, 4) == MAGIC_COOKIE <==> data[4..8] == [0x21, 0x12, 0xA4, 0x42]
  {
    hide Put32, Uint32;
    BigEndian32(0x21, 0x12, 0xA4, 0x42);
    ReadPut32(data, 4);
    if data[4..8] == [0x21, 0x12, 0xA4, 0x42] {
      Put32Read(MAGIC_COOKIE, data, 4);
    }
  }

  lemma LoopEnds(data: bytes, offset: nat, limit: nat)
    requires offset >= limit || offset + 4 > |data|
    ensures FindAddress(data, offset, limit) == Refused(NoAddress)
  {
  }

  lemma LoopStep(data: bytes, offset: nat, limit: nat)
    requires offset < limit && offset + 4 <= |data|
    ensures var kind := Uint16(data, offset); var length := Uint16(data, offset + 2); var start := offset + 4;
      FindAddress(data, offset, limit) ==
        if start + length > |data| then Refused(NoAddress)
        else if IsAddress(kind) then Decode(kind, data[start..start + length])
        else FindAddress(data, start + length + Padding(length), limit)
  {
    hide Uint16, IsAddress, Decode, Padding;
  }

  /** The attribute loop as the source has it. */
  method ParseBindingResponse(data: bytes) returns (r: Outcome)
    ensures r == ParseResponse(data)
  {
    hide Uint16, Uint32, DecodeXorMapped, DecodeMapped, FindAddress;
    if |data| < 20 { return Refused(TooShort); }
    if Uint32(data, 4) != MAGIC_COOKIE { return Refused(BadCookie); }
    if Uint16(data, 0) != SUCCESS_RESPONSE { return Refused(UnexpectedType); }
    var msgLen := Uint16(data, 2);
    if |data| < 20 + msgLen { return Refused(TruncatedMessage); }
    var offset: nat := 20;
    while offset < 20 + msgLen
      invariant offset % 4 == 0
      invariant FindAddress(data, offset, 20 + msgLen) == ParseResponse(data)
      decreases 20 + msgLen - offset
    {
      if offset + 4 > |data| { break; }
      LoopStep(data, offset, 20 + msgLen);
      var attrType := Uint16(data, offset);
      var attrLen := Uint16(data, offset + 2);
      offset := offset + 4;
      if offset + attrLen > |data| {
        return Refused(NoAddress);
      }
      if attrType == XOR_MAPPED_ADDRESS {
        var e := ParseXorMappedAddr(data[offset..offset + attrLen]);
        return Found(e);
      } else if attrType == MAPPED_ADDRESS {
        return Found(DecodeMapped(data[offset..offset + attrLen]));
      }
      offset := offset + attrLen;
      if attrLen % 4 != 0 {
        offset := offset + 4 - attrLen % 4;
      }
    }
    LoopEnds(data, offset, 20 + msgLen);
    return Refused(NoAddress);
  }

  // ---------------------------------------------------------------- attribute lists

  /** An attribute with whatever stands in its padding. */
  datatype Attribute = Attribute(kind: nat, value: bytes, pad: bytes)

  predicate WellFormed(a: Attribute) {
    a.kind < 65536 && |a.value| < 65536 && |a.pad| == Padding(|a.value|)
  }

  function EncodeAttribute(a: Attribute): bytes {
    Put16(a.kind) + Put16(|a.value|) + a.value + a.pad
  }

  function EncodeAttributes(attrs: seq<Attribute>): bytes {
    if attrs == [] then [] else EncodeAttribute(attrs[0]) + EncodeAttributes(attrs[1..])
  }

  function ResponseHeader(length: nat, transaction: bytes): bytes {
    Put16(SUCCESS_RESPONSE) + Put16(length) + Put32(MAGIC_COOKIE) + transaction
  }

  ghost predicate AllWellFormed(attrs: seq<Attribute>) {
    forall i :: 0 <= i < |attrs| ==> WellFormed(attrs[i])
  }

  /** `i` is the first attribute that holds an address. */
  ghost predicate FirstAddress(attrs: seq<Attribute>, i: nat) {
    && i < |attrs| && IsAddress(attrs[i].kind)
    && forall j :: 0 <= j < i ==> !IsAddress(attrs[j].kind)
  }

  ghost predicate NoAddresses(attrs: seq<Attribute>) {
    forall j :: 0 <= j < |attrs| ==> !IsAddress(attrs[j].kind)
  }

  lemma AttributeInContext(before: bytes, a: Attribute, after: bytes)
    requires WellFormed(a)
    ensures var data := before + EncodeAttribute(a) + after; var p := |before|;
      && |EncodeAttribute(a)| == 4 + |a.value| + Padding(|a.value|) && p + |EncodeAttribute(a)| <= |data|
      && Uint16(data, p) == a.kind && Uint16(data, p + 2) == |a.value|
      && data[p + 4..p + 4 + |a.value|] == a.value
  {
    hide Put16, Uint16, Padding;
    var data := before + EncodeAttribute(a) + after;
    var p := |before|;
    assert data[p..p + 2] == Put16(a.kind);
    assert data[p + 2..p + 4] == Put16(|a.value|);
    Put16Read(a.kind, data, p);
    Put16Read(|a.value|, data, p + 2);
  }

  /** What the loop comes to on these attributes: the first address, or none. */
  ghost predicate FirstOf(attrs: seq<Attribute>, r: Outcome) {
    && (NoAddresses(attrs) ==> r == Refused(NoAddress))
    && (forall i: nat :: FirstAddress(attrs, i) ==> r == Decode(attrs[i].kind, attrs[i].value))
  }

  lemma FirstOfCons(attrs: seq<Attribute>, r: Outcome)
    requires attrs != []
    ensures IsAddress(attrs[0].kind) && r == Decode(attrs[0].kind, attrs[0].value) ==> FirstOf(attrs, r)
    ensures !IsAddress(attrs[0].kind) && FirstOf(attrs[1..], r) ==> FirstOf(attrs, r)
  {
    hide Decode, IsAddress;
    if !IsAddress(attrs[0].kind) && FirstOf(attrs[1..], r) {
      forall i: nat | FirstAddress(attrs, i) ensures r == Decode(attrs[i].kind, attrs[i].value) {
        assert FirstAddress(attrs[1..], i - 1);
      }
    }
  }

  lemma {:induction false} LoopOnAttributes(before: bytes, attrs: seq<Attribute>, after: bytes)
    requires AllWellFormed(attrs)
    ensures FirstOf(attrs,
      FindAddress(before + EncodeAttributes(attrs) + after, |before|, |before| + |EncodeAttributes(attrs)|))
    decreases |attrs|
  {
    hide EncodeAttribute, Decode, Uint16, IsAddress, Padding, FindAddress, FirstOf;
    var data := before + EncodeAttributes(attrs) + after;
    var limit := |before| + |EncodeAttributes(attrs)|;
    if attrs == [] {
      LoopEnds(data, |before|, limit);
      NothingFirst();
    } else {
      var rest := EncodeAttributes(attrs[1..]) + after;
      var longer := before + EncodeAttribute(attrs[0]);
      assert data == longer + rest;
      AttributeInContext(before, attrs[0], rest);
      LoopStep(data, |before|, limit);
      FirstOfCons(attrs, FindAddress(data, |before|, limit));
      if !IsAddress(attrs[0].kind) {
        LoopOnAttributes(longer, attrs[1..], after);
        assert longer + EncodeAttributes(attrs[1..]) + after == data;
      }
    }
  }

  lemma NothingFirst()
    ensures FirstOf([], Refused(NoAddress))
  {
  }

  lemma HeaderFields(length: nat, transaction: bytes, rest: bytes)
    requires length < 65536 && |transaction| == 12
    ensures var data := ResponseHeader(length, transaction) + rest;
      && |ResponseHeader(length, transaction)| == 20
      && Uint32(data, 4) == MAGIC_COOKIE && Uint16(data, 0) == SUCCESS_RESPONSE && Uint16(data, 2) == length
  {
    hide Put16, Put32, Uint16, Uint32;
    var data := ResponseHeader(length, transaction) + rest;
    assert data[0..2] == Put16(SUCCESS_RESPONSE) && data[2..4] == Put16(length) && data[4..8] == Put32(MAGIC_COOKIE);
    Put16Read(SUCCESS_RESPONSE, data, 0);
    Put16Read(length, data, 2);
    Put32Read(MAGIC_COOKIE, data, 4);
  }

  /** A response made of any attribute list is read as the address in the first attribute that
      holds one, and as an error exactly when none does. Neither the padding nor anything
      after the message matters. */
  lemma ResponseOfAttributes(transaction: bytes, attrs: seq<Attribute>, after: bytes)
    requires |transaction| == 12 && AllWellFormed(attrs) && |EncodeAttributes(attrs)| < 65536
    ensures var r := ParseResponse(ResponseHeader(|EncodeAttributes(attrs)|, transaction) + EncodeAttributes(attrs) + after);
      && (r.Refused? <==> NoAddresses(attrs))
      && (r.Refused? ==> r == Refused(NoAddress))
      && (forall i: nat :: FirstAddress(attrs, i) ==> r == Decode(attrs[i].kind, attrs[i].value))
  {
    hide EncodeAttributes, ResponseHeader, FindAddress, IsAddress, Uint16, Uint32;
    var header := ResponseHeader(|EncodeAttributes(attrs)|, transaction);
    HeaderFields(|EncodeAttributes(attrs)|, transaction, EncodeAttributes(attrs) + after);
    assert header + (EncodeAttributes(attrs) + after) == header + EncodeAttributes(attrs) + after;
    LoopOnAttributes(header, attrs, after);
    if !NoAddresses(attrs) {
      var i := SomeFirst(attrs);
    }
  }

  lemma {:induction false} SomeFirst(attrs: seq<Attribute>) returns (i: nat)
    requires !NoAddresses(attrs)
    ensures FirstAddress(attrs, i)
    decreases |attrs|
  {
    hide IsAddress;
    if IsAddress(attrs[0].kind) {
      i := 0;
    } else {
      var j := SomeFirst(attrs[1..]);
      i := j + 1;
    }
  }

  /** `data` from `at` on: the attributes `attrs`, then one of this kind and value. */
  ghost predicate StandsAt(data: bytes, at: nat, attrs: seq<Attribute>, kind: nat, value: bytes) {
    && at <= |data| && kind < 65536 && |value| < 65536
    && EncodeAttributes(attrs) + (Put16(kind) + Put16(|value|) + value) <= data[at..]
  }

  /** The other direction: whatever datagram is accepted, the address comes from the first
      address attribute of the list of attributes at its front, which begins, though it need
      not end, within the length that the header states. */
  lemma AcceptedIsAttributes(data: bytes) returns (attrs: seq<Attribute>, kind: nat, value: bytes)
    requires ParseResponse(data).Found?
    ensures AllWellFormed(attrs) && NoAddresses(attrs) && IsAddress(kind)
    ensures StandsAt(data, 20, attrs, kind, value)
    ensures |EncodeAttributes(attrs)| < Uint16(data, 2)
    ensures ParseResponse(data) == Decode(kind, value)
  {
    hide Uint32, Uint16, FindAddress, EncodeAttributes, Decode, IsAddress, StandsAt, AllWellFormed, NoAddresses;
    attrs, kind, value := LoopStopsAtAttribute(data, 20, 20 + Uint16(data, 2));
  }

  lemma ReadAttribute(data: bytes, at: nat, kind: nat, length: nat, pad: nat)
    requires at + 4 + length + pad <= |data|
    requires kind == Uint16(data, at) && length == Uint16(data, at + 2)
    ensures var value := data[at + 4..at + 4 + length];
      Put16(kind) + Put16(length) + value + data[at + 4 + length..at + 4 + length + pad]
        == data[at..at + 4 + length + pad]
  {
    hide Put16, Uint16;
    ReadPut16(data, at);
    ReadPut16(data, at + 2);
  }

  lemma {:induction false} LoopStopsAtAttribute(data: bytes, at: nat, limit: nat)
    returns (attrs: seq<Attribute>, kind: nat, value: bytes)
    requires FindAddress(data, at, limit).Found?
    ensures AllWellFormed(attrs) && NoAddresses(attrs) && IsAddress(kind)
    ensures StandsAt(data, at, attrs, kind, value)
    ensures at + |EncodeAttributes(attrs)| < limit
    ensures FindAddress(data, at, limit) == Decode(kind, value)
    decreases limit - at
  {
    hide Put16, Decode, IsAddress, StandsAt, EncodeAttributes, EncodeAttribute;
    kind := Uint16(data, at);
    var length := Uint16(data, at + 2);
    hide Uint16;
    value := data[at + 4..at + 4 + length];
    if IsAddress(kind) {
      attrs := [];
      LastStands(data, at, kind, length);
    } else {
      var next := at + 4 + length + Padding(length);
      var others, kind', value' := LoopStopsAtAttribute(data, next, limit);
      assert next <= |data| by { Stands(data, next, others, kind', value'); }
      var first := Attribute(kind, value, data[at + 4 + length..next]);
      FirstStands(data, at, first, next, others, kind', value');
      attrs, kind, value := [first] + others, kind', value';
    }
  }

  lemma Stands(data: bytes, at: nat, attrs: seq<Attribute>, kind: nat, value: bytes)
    requires StandsAt(data, at, attrs, kind, value)
    ensures at <= |data|
  {
  }

  lemma LastStands(data: bytes, at: nat, kind: nat, length: nat)
    requires at + 4 + length <= |data|
    requires kind == Uint16(data, at) && length == Uint16(data, at + 2)
    ensures StandsAt(data, at, [], kind, data[at + 4..at + 4 + length]) && EncodeAttributes([]) == []
  {
    hide Put16, Uint16;
    ReadAttribute(data, at, kind, length, 0);
    var value := data[at + 4..at + 4 + length];
    var end := at + 4 + length;
    assert EncodeAttributes([]) == [];
    assert Put16(kind) + Put16(length) + value == data[at..end];
    assert data[at..] == data[at..end] + data[end..];
    assert EncodeAttributes([]) + (Put16(kind) + Put16(length) + value) == data[at..end];
  }

  lemma FirstStands(
    data: bytes, at: nat, first: Attribute, next: nat, others: seq<Attribute>, kind: nat, value: bytes)
    requires StandsAt(data, next, others, kind, value)
    requires next == at + 4 + |first.value| + Padding(|first.value|) <= |data|
    requires first.kind == Uint16(data, at) && |first.value| == Uint16(data, at + 2)
    requires first.value == data[at + 4..at + 4 + |first.value|]
    requires first.pad == data[at + 4 + |first.value|..next]
    ensures WellFormed(first) && StandsAt(data, at, [first] + others, kind, value)
    ensures at + |EncodeAttributes([first] + others)| == next + |EncodeAttributes(others)|
  {
    hide Put16, Uint16, Padding;
    ReadAttribute(data, at, first.kind, |first.value|, Padding(|first.value|));
    assert ([first] + others)[1..] == others;
    var last := Put16(kind) + Put16(|value|) + value;
    assert EncodeAttributes([first] + others) + last == EncodeAttribute(first) + (EncodeAttributes(others) + last);
    assert data[at..] == data[at..next] + data[next..];
  }

  // ---------------------------------------------------------------- one endpoint, two attributes

  /** A server that reports an endpoint masked and one that reports it in the clear are
      understood alike, up to the form of the address, through the whole parser. */
  lemma MaskedAndClearAgree(ip: bytes, port: nat, transaction: bytes, transaction': bytes, after: bytes, after': bytes)
    requires |ip| == 4 && port < 65536 && |transaction| == 12 && |transaction'| == 12
    ensures var masked := ParseResponse(SingleResponse(transaction, XOR_MAPPED_ADDRESS, EncodeXorMapped(ip, port)) + after);
      var clear := ParseResponse(SingleResponse(transaction', MAPPED_ADDRESS, EncodeMapped(ip, port)) + after');
      && masked == Found(Endpoint(ip, port))
      && clear.Found? && clear.endpoint.port == port && Equal(masked.endpoint.ip, clear.endpoint.ip)
  {
    hide ParseResponse, EncodeXorMapped, EncodeMapped, DecodeMapped, DecodeXorMapped, Put16, Equal;
    EncodedSizes(ip, port);
    SingleIsRead(transaction, XOR_MAPPED_ADDRESS, EncodeXorMapped(ip, port), after);
    SingleIsRead(transaction', MAPPED_ADDRESS, EncodeMapped(ip, port), after');
    DecodeEncodedXor(ip, port);
    DecodeEncodedMapped(ip, port);
    assert Equal(ip, V4_IN_V6 + ip) by { FormsAreEqual(ip); }
  }

  lemma FormsAreEqual(ip: bytes)
    requires |ip| == 4
    ensures Equal(ip, V4_IN_V6 + ip)
  {
  }

  lemma EncodedSizes(ip: bytes, port: nat)
    requires |ip| == 4
    ensures |EncodeXorMapped(ip, port)| == |EncodeMapped(ip, port)| == 8
  {
  }

  function SingleResponse(transaction: bytes, kind: nat, value: bytes): bytes {
    ResponseHeader(4 + |value|, transaction) + EncodeAttribute(Attribute(kind, value, []))
  }

  lemma SingleIsRead(transaction: bytes, kind: nat, value: bytes, after: bytes)
    requires |transaction| == 12 && IsAddress(kind) && |value| == 8
    ensures ParseResponse(SingleResponse(transaction, kind, value) + after) == Decode(kind, value)
  {
    hide ParseResponse, ResponseHeader, Decode, Put16;
    var a := Attribute(kind, value, []);
    assert EncodeAttributes([a]) == EncodeAttribute(a) + EncodeAttributes([]);
    assert EncodeAttribute(a) + [] == EncodeAttribute(a);
    ResponseOfAttributes(transaction, [a], after);
    assert FirstAddress([a], 0);
  }

  // ---------------------------------------------------------------- bytes after the message

  /** From `offset` on, the message `data` settles the outcome by itself. Either the attributes
      fill it; or a header is cut off by its end, and is not the beginning of an address
      attribute; or a value runs past its end, but not of an address attribute; or an address
      attribute lies in it whole. */
  predicate Closed(data: bytes, offset: nat)
    decreases |data| - offset
  {
    if offset >= |data| then true
    else if offset + 4 > |data| then
      if offset + 1 == |data| then data[offset] != 0 else !IsAddress(Uint16(data, offset))
    else
      var kind := Uint16(data, offset);
      var length := Uint16(data, offset + 2);
      var start := offset + 4;
      if start + length > |data| then !IsAddress(kind)
      else if IsAddress(kind) then true
      else Closed(data, start + length + Padding(length))
  }

  lemma SameHeader(data: bytes, tail: bytes, at: nat)
    requires at + 2 <= |data|
    ensures Uint16(data + tail, at) == Uint16(data, at)
  {
  }

  lemma FirstByteOfAddress(data: bytes, at: nat)
    requires at + 2 <= |data| && IsAddress(Uint16(data, at))
    ensures data[at] == 0
  {
  }

  /** No address can be found from an offset whose attribute is of another kind and leads the
      loop to its limit, or past the data. */
  lemma OtherKindLeadsNowhere(data: bytes, offset: nat, limit: nat)
    requires offset + 4 <= |data| ==>
      !IsAddress(Uint16(data, offset)) && limit <= offset + 4 + Uint16(data, offset + 2)
    ensures FindAddress(data, offset, limit) == Refused(NoAddress)
  {
    hide Uint16, IsAddress, Decode;
  }

  lemma {:induction false} ClosedIgnoresTail(data: bytes, offset: nat, tail: bytes)
    requires Closed(data, offset)
    ensures FindAddress(data + tail, offset, |data|) == FindAddress(data, offset, |data|)
    decreases |data| - offset
  {
    hide Uint16, IsAddress, Decode, Padding;
    if offset < |data| {
      if offset + 2 <= |data| { SameHeader(data, tail, offset); }
      if offset + 4 <= |data| { SameHeader(data, tail, offset + 2); }
      if offset + 4 > |data| {
        if offset + 4 <= |data + tail| && IsAddress(Uint16(data + tail, offset)) {
          FirstByteOfAddress(data + tail, offset);
        }
        OtherKindLeadsNowhere(data + tail, offset, |data|);
      } else {
        var length := Uint16(data, offset + 2);
        var start := offset + 4;
        if start + length > |data| {
          OtherKindLeadsNowhere(data + tail, offset, |data|);
        } else if IsAddress(Uint16(data, offset)) {
          assert (data + tail)[start..start + length] == data[start..start + length];
        } else {
          ClosedIgnoresTail(data, start + length + Padding(length), tail);
        }
      }
    }
  }

  /** Bytes that turn an unsettled message into one in which an address is found. */
  function Completion(data: bytes, offset: nat): bytes
    requires offset < |data|
  {
    var header := if offset + 1 == |data| then [1, 0, 0] else if offset + 2 == |data| then [0, 0]
                  else if offset + 3 == |data| then [0] else [];
    header + seq(65535, i => 0)
  }

  lemma AddressIsFound(data: bytes, offset: nat, limit: nat)
    requires offset < limit && offset + 4 <= |data| && IsAddress(Uint16(data, offset))
    requires offset + 4 + Uint16(data, offset + 2) <= |data|
    ensures FindAddress(data, offset, limit).Found?
  {
    hide Uint16, IsAddress, DecodeXorMapped, DecodeMapped;
  }

  /** The outcome from `offset` on does not change with what follows the message. */
  ghost predicate IgnoresTails(data: bytes, offset: nat) {
    forall tail: bytes :: FindAddress(data + tail, offset, |data|) == FindAddress(data, offset, |data|)
  }

  lemma CompletionIsFound(data: bytes, offset: nat)
    requires offset < |data|
    requires offset + 4 > |data| || offset + 4 + Uint16(data, offset + 2) > |data|
    requires if offset + 1 == |data| then data[offset] == 0 else IsAddress(Uint16(data, offset))
    ensures !IgnoresTails(data, offset)
  {
    hide FindAddress;
    var tail := Completion(data, offset);
    var longer := data + tail;
    if offset + 1 == |data| {
      assert longer[offset] == 0 && longer[offset + 1] == 1;
    } else {
      SameHeader(data, tail, offset);
    }
    AddressIsFound(longer, offset, |data|);
    CutAttributeIsNothing(data, offset, |data|);
    assert FindAddress(data + tail, offset, |data|) != FindAddress(data, offset, |data|);
  }

  lemma CutAttributeIsNothing(data: bytes, offset: nat, limit: nat)
    requires offset + 4 > |data| || offset + 4 + Uint16(data, offset + 2) > |data|
    ensures FindAddress(data, offset, limit) == Refused(NoAddress)
  {
    hide Uint16, IsAddress, Decode;
  }

  lemma {:induction false} OpenHeedsTail(data: bytes, offset: nat)
    requires !Closed(data, offset)
    ensures !IgnoresTails(data, offset)
    decreases |data| - offset
  {
    hide Uint16, IsAddress, Padding, FindAddress, IgnoresTails;
    if offset + 4 > |data| || offset + 4 + Uint16(data, offset + 2) > |data| {
      CompletionIsFound(data, offset);
    } else {
      var next := offset + 4 + Uint16(data, offset + 2) + Padding(Uint16(data, offset + 2));
      OpenHeedsTail(data, next);
      if IgnoresTails(data, offset) { SkippedAttribute(data, offset, next); }
    }
  }

  lemma SkippedAttribute(data: bytes, offset: nat, next: nat)
    requires offset + 4 <= |data| && offset + 4 + Uint16(data, offset + 2) <= |data|
    requires !IsAddress(Uint16(data, offset))
    requires next == offset + 4 + Uint16(data, offset + 2) + Padding(Uint16(data, offset + 2))
    requires IgnoresTails(data, offset)
    ensures IgnoresTails(data, next)
  {
    hide Uint16, IsAddress, Padding, Decode;
    forall tail: bytes ensures FindAddress(data + tail, next, |data|) == FindAddress(data, next, |data|) {
      SameHeader(data, tail, offset);
      SameHeader(data, tail, offset + 2);
      assert FindAddress(data + tail, offset, |data|) == FindAddress(data, offset, |data|);
    }
  }

  /** Attribute headers and values are read as far as the datagram goes and not only as far as
      the length in the header says. For a message that ends where its header says, what
      follows it in the datagram changes nothing if and only if it is refused for its header
      or it is closed. */
  lemma TailIsIgnoredIffClosed(message: bytes)
    requires 20 <= |message| == 20 + Uint16(message, 2)
    ensures (forall tail: bytes :: ParseResponse(message + tail) == ParseResponse(message)) <==>
      (Uint32(message, 4) == MAGIC_COOKIE && Uint16(message, 0) == SUCCESS_RESPONSE ==> Closed(message, 20))
  {
    hide Uint16, Uint32, FindAddress, Closed;
    var accepted := Uint32(message, 4) == MAGIC_COOKIE && Uint16(message, 0) == SUCCESS_RESPONSE;
    forall tail: bytes
      ensures ParseResponse(message + tail) ==
        if accepted then FindAddress(message + tail, 20, |message|) else ParseResponse(message)
    {
      SameHeader(message, tail, 0);
      SameHeader(message, tail, 2);
      SameHeader(message, tail, 4);
      SameHeader(message, tail, 6);
      SameCookie(message, tail);
    }
    if accepted {
      if Closed(message, 20) {
        forall tail: bytes ensures ParseResponse(message + tail) == ParseResponse(message) {
          ClosedIgnoresTail(message, 20, tail);
        }
      } else {
        OpenHeedsTail(message, 20);
        var tail: bytes :| FindAddress(message + tail, 20, |message|) != FindAddress(message, 20, |message|);
        assert ParseResponse(message + tail) != ParseResponse(message);
      }
    }
  }

  lemma SameCookie(data: bytes, tail: bytes)
    requires 20 <= |data|
    ensures Uint32(data + tail, 4) == Uint32(data, 4)
  {
    hide Uint16;
    SameHeader(data, tail, 4);
    SameHeader(data, tail, 6);
  }

  /** Three messages: an attribute in it claims eight bytes that are not in it; a length of 2
      cuts the header of such an attribute; and an attribute of another kind claims eight
      bytes too many. The first two are settled by what follows, the third is not. */
  lemma OverlongAttributes(header: bytes)
    requires |header| == 20
    ensures !Closed(header + [0, 1, 0, 8], 20)
    ensures !Closed(header + [0, 1], 20)
    ensures Closed(header + [0x80, 0x22, 0, 8], 20)
  {
  }
}
