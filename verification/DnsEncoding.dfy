/** encodeDNSName (dns.go:341-349) and the decompressor as its inverse. */
module DnsEncoding {
  import opened Bytes
  import opened DottedNames
  import opened DnsName
  import opened DnsMeaning

  function EncodeParts(parts: seq<bytes>): bytes {
    if parts == [] then [] else [Low8(|parts[0]|)] + parts[0] + EncodeParts(parts[1..])
  }

  function EncodeName(name: bytes): bytes {
    EncodeParts(Split(name)) + [0]
  }

  method EncodeDnsName(name: bytes) returns (buf: bytes)
    ensures buf == EncodeName(name)
  {
    hide Split;
    var parts := Split(name);
    buf := [];
    for i := 0 to |parts|
      invariant buf + EncodeParts(parts[i..]) == EncodeParts(parts)
    {
      assert parts[i..][1..] == parts[i + 1..];
      assert EncodeParts(parts[i..]) == [Low8(|parts[i]|)] + parts[i] + EncodeParts(parts[i + 1..]);
      buf := buf + [Low8(|parts[i]|)];
      buf := buf + parts[i];
    }
    assert parts[|parts|..] == [];
    buf := buf + [0];
  }

  /** The parts whose length byte says a label of that length. */
  predicate Fits(part: bytes) {
    0 < |part| < COMPRESSION
  }

  ghost predicate AllFit(parts: seq<bytes>) {
    forall i :: 0 <= i < |parts| ==> Fits(parts[i])
  }

  /** A name that the encoder does not garble: no part is empty or longer than 191. */
  ghost predicate Encodable(name: bytes) {
    AllFit(Split(name))
  }

  /** `data` holds the encoded parts and the zero byte from `at` to `end`. */
  ghost predicate Holds(data: bytes, at: nat, parts: seq<bytes>, end: nat) {
    at <= end <= |data| && data[at..end] == EncodeParts(parts) + [0]
  }

  lemma FirstPart(data: bytes, at: nat, parts: seq<bytes>, end: nat)
    requires Holds(data, at, parts, end) && parts != []
    ensures var q := at + 1 + |parts[0]|;
      && q < end && data[at] as nat == |parts[0]| % 256 && data[at + 1..q] == parts[0]
      && Holds(data, q, parts[1..], end)
  {
    var q := at + 1 + |parts[0]|;
    var s := data[at..end];
    var n := 1 + |parts[0]|;
    assert s == [Low8(|parts[0]|)] + parts[0] + (EncodeParts(parts[1..]) + [0]);
    assert data[at] == s[0];
    SliceOfSlice(data, at, end, 1, n);
    assert s[1..n] == parts[0];
    SliceOfSlice(data, at, end, n, end - at);
    assert s[n..] == EncodeParts(parts[1..]) + [0];
  }

  lemma NoPartIsEnd(data: bytes, at: nat, end: nat)
    requires Holds(data, at, [], end)
    ensures IsEnd(data, at) && end == at + 1
  {
    assert data[at..end] == [0];
    assert data[at] == data[at..end][0];
  }

  lemma ScanLabel(data: bytes, at: nat)
    requires IsLabel(data, at)
    ensures var q := at + 1 + data[at] as nat;
      Scan(data, at) == Prefixed([data[at + 1..q]], Scan(data, q))
  {
  }

  lemma {:induction false} EncodedIsScanned(data: bytes, at: nat, parts: seq<bytes>, end: nat)
    requires Holds(data, at, parts, end) && AllFit(parts)
    ensures Scan(data, at) == Ends(parts, end)
    decreases |parts|
  {
    hide Holds, Scan;
    if parts == [] {
      NoPartIsEnd(data, at, end);
      ScanStart(data, at);
    } else {
      FirstPart(data, at, parts, end);
      HoldsInside(data, at, parts, end);
      assert Fits(parts[0]);
      ScanLabel(data, at);
      EncodedIsScanned(data, at + 1 + |parts[0]|, parts[1..], end);
      assert [parts[0]] + parts[1..] == parts;
    }
  }

  lemma HoldsInside(data: bytes, at: nat, parts: seq<bytes>, end: nat)
    requires Holds(data, at, parts, end)
    ensures end <= |data|
  {
  }

  lemma EncodableIsPast(prefix: bytes, name: bytes, suffix: bytes, stack: nat)
    requires 0 < stack && Encodable(name)
    ensures ParseName(prefix + EncodeName(name) + suffix, |prefix|, stack)
         == Name(name, |prefix| + |EncodeName(name)|)
  {
    hide Join, Split, EncodeParts;
    var data := prefix + EncodeName(name) + suffix;
    var end := |prefix| + |EncodeName(name)|;
    assert data[|prefix|..end] == EncodeParts(Split(name)) + [0];
    JoinSplit(name);
    EncodedIsScanned(data, |prefix|, Split(name), end);
  }

  // ---------------------------------------------------------------- names the encoder garbles

  ghost predicate ShortParts(name: bytes) {
    forall part :: part in Split(name) ==> |part| < COMPRESSION
  }

  lemma LabelInFrontIsShort(text: bytes, name: bytes)
    requires |text| < COMPRESSION && ShortParts(name)
    ensures ShortParts(text) && ShortParts(text + [DOT] + name)
  {
    PartsNoLonger(text);
    SplitAtDot(text, name);
  }

  /** Whatever message it comes from, a parsed name has no part that no label could hold. */
  lemma {:induction false} ParsedPartsAreShort(data: bytes, offset: nat, stack: nat)
    requires ParseName(data, offset, stack).Name?
    ensures ShortParts(ParseName(data, offset, stack).name)
    decreases stack, |data| - offset
  {
    hide Join, Split, Target, ShortParts;
    if IsLabel(data, offset) {
      var q := offset + 1 + data[offset] as nat;
      LabelInFront(data, offset, stack);
      ParsedPartsAreShort(data, q, stack);
      LabelInFrontIsShort(data[offset + 1..q], ParseName(data, q, stack).name);
    } else if IsPointer(data, offset) {
      PointerInFront(data, offset, stack);
      ParsedPartsAreShort(data, Target(data, offset), stack - 1);
    } else {
      EmptyIsShort();
      EmptyJoin();
    }
  }

  lemma EmptyIsShort()
    ensures ShortParts([])
  {
    NothingSplit();
  }

  /** The parts before the first empty one. */
  function Kept(parts: seq<bytes>): seq<bytes> {
    if parts == [] || parts[0] == [] then [] else [parts[0]] + Kept(parts[1..])
  }

  /** An empty part is written as a zero byte, at which the reader stops. */
  lemma {:induction false} StopsAtEmptyPart(data: bytes, at: nat, parts: seq<bytes>, end: nat)
    requires Holds(data, at, parts, end) && forall part :: part in parts ==> |part| < COMPRESSION
    ensures Scan(data, at).Ends? && Scan(data, at).parts == Kept(parts)
    decreases |parts|
  {
    hide Holds, Scan, EncodeParts;
    if parts == [] {
      NoPartIsEnd(data, at, end);
      ScanStart(data, at);
    } else {
      FirstPart(data, at, parts, end);
      HoldsInside(data, at, parts, end);
      if parts[0] == [] {
        ScanStart(data, at);
      } else {
        ScanLabel(data, at);
        StopsAtEmptyPart(data, at + 1 + |parts[0]|, parts[1..], end);
      }
    }
  }

  lemma {:induction false} KeptIsLess(parts: seq<bytes>)
    requires [] in parts && parts != [[]]
    ensures |Join(Kept(parts))| < |Join(parts)|
  {
    var others := parts[1..];
    assert parts == [parts[0]] + others;
    JoinCons(parts[0], others);
    if parts[0] != [] {
      JoinCons(parts[0], Kept(others));
      if others != [[]] {
        KeptIsLess(others);
      }
    }
  }

  /** A name other than the root is read back, the next offset aside, only if it is encodable:
      otherwise it has a part that no parsed name has, or the reader stops inside it. */
  lemma NameReadBack(prefix: bytes, name: bytes, suffix: bytes, stack: nat)
    requires name != [] && 0 < stack
    ensures var r := ParseName(prefix + EncodeName(name) + suffix, |prefix|, stack);
      r.Name? && r.name == name <==> Encodable(name)
  {
    hide Join, Split, EncodeParts;
    var data := prefix + EncodeName(name) + suffix;
    var end := |prefix| + |EncodeName(name)|;
    var parts := Split(name);
    assert data[|prefix|..end] == EncodeParts(parts) + [0];
    JoinSplit(name);
    if Encodable(name) {
      EncodableIsPast(prefix, name, suffix, stack);
    } else if ShortParts(name) {
      var i :| 0 <= i < |parts| && !Fits(parts[i]);
      StopsAtEmptyPart(data, |prefix|, parts, end);
      assert parts[i] == [];
      NothingSplit();
      KeptIsLess(parts);
    } else if ParseName(data, |prefix|, stack).Name? {
      ParsedPartsAreShort(data, |prefix|, stack);
    }
  }

  /** The root name is not encodable: it is written as two zero bytes, of which a reader takes one. */
  lemma RootNameLeavesAByte(prefix: bytes, suffix: bytes, stack: nat)
    requires 0 < stack
    ensures EncodeName([]) == [0, 0] && !Encodable([])
    ensures ParseName(prefix + EncodeName([]) + suffix, |prefix|, stack) == Name([], |prefix| + 1)
  {
    assert Split([]) == [[]];
    assert EncodeParts([[]]) == [0];
    assert !Fits(Split([])[0]);
    var data := prefix + EncodeName([]) + suffix;
    assert data[|prefix|] == 0;
    EndIsParsed(data, |prefix|, stack);
  }

  /** Round trip in context: whatever stands before and after, the name just encoded is read
      back, and the reader is just past it, for exactly the encodable names. */
  lemma NameRoundTrip(prefix: bytes, name: bytes, suffix: bytes, stack: nat)
    requires 0 < stack
    ensures Encodable(name) <==>
      ParseName(prefix + EncodeName(name) + suffix, |prefix|, stack) == Name(name, |prefix| + |EncodeName(name)|)
  {
    hide ParseName, Join, Split, EncodeParts;
    if name == [] {
      RootNameLeavesAByte(prefix, suffix, stack);
    } else {
      NameReadBack(prefix, name, suffix, stack);
      if Encodable(name) { EncodableIsPast(prefix, name, suffix, stack); }
    }
  }

  /** The encoder in numbers: each part up to a dot (46) stands behind its length, and a zero
      byte ends the name. */
  lemma NameWritten(part: bytes, rest: bytes)
    requires 46 !in part && |part| <= 255
    ensures EncodeName(part) == [|part| as byte] + part + [0]
    ensures EncodeName(part + [46] + rest) == [|part| as byte] + part + EncodeName(rest)
  {
    hide Split;
    SplitPart(part, rest);
    assert [part][1..] == [] && ([part] + Split(rest))[1..] == Split(rest);
    assert EncodeParts([]) == [];
    assert EncodeParts([part] + Split(rest)) == [Low8(|part|)] + part + EncodeParts(Split(rest));
  }
}
