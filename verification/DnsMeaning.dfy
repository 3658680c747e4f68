/** What the names that parseDNSName returns mean, said without its calls and segments: one
    walks from byte to byte, over labels and along pointers, until a zero byte. */
module DnsMeaning {
  import opened Bytes
  import opened DottedNames
  import opened DnsName
  import opened DnsTermination

  predicate IsLabel(data: bytes, at: nat) {
    at < |data| && 0 < data[at] as nat < COMPRESSION && at + 1 + data[at] as nat <= |data|
  }

  predicate IsPointer(data: bytes, at: nat) {
    at + 1 < |data| && data[at] as nat >= COMPRESSION
  }

  predicate IsEnd(data: bytes, at: nat) {
    at < |data| && data[at] == 0
  }

  /** One move of the walk: over a label, or to where a pointer leads. */
  predicate Moves(data: bytes, at: nat, to: nat) {
    || (IsLabel(data, at) && to == at + 1 + data[at] as nat)
    || (IsPointer(data, at) && to == Target(data, at))
  }

  /** The positions of a walk that reaches a zero byte. */
  ghost predicate IsWalk(data: bytes, ps: seq<nat>) {
    && ps != []
    && (forall i :: 0 <= i < |ps| - 1 ==> Moves(data, ps[i], ps[i + 1]))
    && IsEnd(data, ps[|ps| - 1])
  }

  /** The labels walked over, in order. */
  function LabelsOn(data: bytes, ps: seq<nat>): seq<bytes> {
    if ps == [] then []
    else if IsLabel(data, ps[0])
      then [data[ps[0] + 1..ps[0] + 1 + data[ps[0]] as nat]] + LabelsOn(data, ps[1..])
    else LabelsOn(data, ps[1..])
  }

  /** The zero byte was reached along a pointer and not over a label. */
  predicate EndsOnPointer(data: bytes, ps: seq<nat>) {
    |ps| >= 2 && IsPointer(data, ps[|ps| - 2])
  }

  /** The labels joined by dots; one more dot if the last label is followed by nothing but
      pointers, because the empty name at their end counts as one more part. */
  function Spelled(data: bytes, ps: seq<nat>): bytes {
    var labels := LabelsOn(data, ps);
    Join(labels) + (if labels != [] && EndsOnPointer(data, ps) then [DOT] else [])
  }

  /** The first offset past the labels in place and the zero byte or pointer after them. */
  function PastSegment(data: bytes, ps: seq<nat>): nat {
    if ps == [] then 0
    else if IsLabel(data, ps[0]) then PastSegment(data, ps[1..])
    else if IsPointer(data, ps[0]) then ps[0] + 2
    else ps[0] + 1
  }

  lemma JoinSplitAfter(parts: seq<bytes>, name: bytes)
    ensures Join(parts + Split(name)) == if parts == [] then name else Join(parts) + [DOT] + name
    decreases |parts|
  {
    hide Split;
    JoinSplit(name);
    if parts == [] {
      assert parts + Split(name) == Split(name);
    } else {
      JoinSplitAfter(parts[1..], name);
      assert parts + Split(name) == [parts[0]] + (parts[1..] + Split(name));
      JoinCons(parts[0], parts[1..] + Split(name));
      assert parts == [parts[0]] + parts[1..];
      JoinCons(parts[0], parts[1..]);
    }
  }

  /** A label in front: what it does to the result of the rest. */
  lemma LabelInFront(data: bytes, at: nat, stack: nat)
    requires IsLabel(data, at)
    ensures var q := at + 1 + data[at] as nat; var text := data[at + 1..q];
      match ParseName(data, q, stack)
      case Name(name, next) =>
        ParseName(data, at, stack)
          == Name(if Scan(data, q) == Ends([], next) then text else text + [DOT] + name, next)
      case _ => ParseName(data, at, stack) == ParseName(data, q, stack)
  {
    hide Join, Split, Target;
    var q := at + 1 + data[at] as nat;
    var text := data[at + 1..q];
    match Scan(data, q)
    case Bad =>
    case Ends(parts, next) => JoinCons(text, parts);
    case Jumps(parts, target, next) =>
      if stack > 0 && ParseName(data, target, stack - 1).Name? {
        var inner := ParseName(data, target, stack - 1).name;
        JoinCons(text, parts + Split(inner));
        assert [text] + parts + Split(inner) == [text] + (parts + Split(inner));
      }
  }

  lemma PointerInFront(data: bytes, at: nat, stack: nat)
    requires IsPointer(data, at) && 0 < stack
    ensures match ParseName(data, Target(data, at), stack - 1)
      case Name(name, _) => ParseName(data, at, stack) == Name(name, at + 2)
      case r => ParseName(data, at, stack) == r
  {
    if ParseName(data, Target(data, at), stack - 1).Name? {
      JoinSplitAfter([], ParseName(data, Target(data, at), stack - 1).name);
    }
  }

  /** A walk goes on as a walk. */
  lemma RestOfWalk(data: bytes, ps: seq<nat>)
    requires IsWalk(data, ps) && |ps| > 1
    ensures Moves(data, ps[0], ps[1]) && IsWalk(data, ps[1..])
    ensures EndsOnPointer(data, ps) <==> if |ps| == 2 then IsPointer(data, ps[0]) else EndsOnPointer(data, ps[1..])
  {
    assert Moves(data, ps[0], ps[0 + 1]);
    forall i | 0 <= i < |ps[1..]| - 1 ensures Moves(data, ps[1..][i], ps[1..][i + 1]) {
      assert Moves(data, ps[i + 1], ps[i + 1 + 1]);
    }
    if |ps| > 2 {
      assert ps[1..][|ps[1..]| - 2] == ps[|ps| - 2];
    }
  }

  lemma NoLabelAtEnd(data: bytes, ps: seq<nat>)
    requires |ps| == 1 && IsEnd(data, ps[0])
    ensures LabelsOn(data, ps) == [] && Spelled(data, ps) == [] && PastSegment(data, ps) == ps[0] + 1
  {
    assert ps[1..] == [];
    assert LabelsOn(data, []) == [];
  }

  /** Every walk is parsed, and what comes out is what it spells. */
  lemma {:induction false} WalkIsParsed(data: bytes, ps: seq<nat>, stack: nat)
    requires IsWalk(data, ps) && |ps| <= stack
    ensures ParseName(data, ps[0], stack) == Name(Spelled(data, ps), PastSegment(data, ps))
    ensures Scan(data, ps[0]) == Ends([], PastSegment(data, ps)) <==> |ps| == 1
    decreases |ps|
  {
    hide ParseName, Spelled, PastSegment, Scan, IsWalk, Moves, IsEnd, IsLabel, IsPointer, Target;
    LastIsEnd(data, ps);
    if |ps| == 1 {
      EndIsWalked(data, ps, stack);
    } else {
      RestOfWalk(data, ps);
      MoveIsLabelOrPointer(data, ps[0], ps[1]);
      NotAnEnd(data, ps[0], PastSegment(data, ps));
      if IsLabel(data, ps[0]) {
        WalkIsParsed(data, ps[1..], stack);
        LabelIsWalked(data, ps, stack);
      } else {
        WalkIsParsed(data, ps[1..], stack - 1);
        PointerStep(data, ps, stack);
      }
    }
  }

  lemma EndIsWalked(data: bytes, ps: seq<nat>, stack: nat)
    requires |ps| == 1 && IsEnd(data, ps[0]) && 0 < stack
    ensures ParseName(data, ps[0], stack) == Name(Spelled(data, ps), PastSegment(data, ps))
    ensures Scan(data, ps[0]) == Ends([], PastSegment(data, ps))
  {
    hide ParseName, Spelled, PastSegment, Scan, IsEnd;
    NoLabelAtEnd(data, ps);
    EndIsParsed(data, ps[0], stack);
    ScanStart(data, ps[0]);
  }

  lemma NotAnEnd(data: bytes, at: nat, next: nat)
    requires IsLabel(data, at) || IsPointer(data, at)
    ensures Scan(data, at) != Ends([], next)
  {
    hide Scan, IsLabel, IsPointer, IsEnd;
    ScanStart(data, at);
  }

  lemma LabelIsWalked(data: bytes, ps: seq<nat>, stack: nat)
    requires IsWalk(data, ps) && |ps| > 1 && IsLabel(data, ps[0])
    requires ParseName(data, ps[1], stack) == Name(Spelled(data, ps[1..]), PastSegment(data, ps[1..]))
    requires Scan(data, ps[1]) == Ends([], PastSegment(data, ps[1..])) <==> |ps| == 2
    ensures ParseName(data, ps[0], stack) == Name(Spelled(data, ps), PastSegment(data, ps))
  {
    hide ParseName, Spelled, PastSegment, Scan, IsWalk, Moves, IsEnd, IsLabel;
    RestOfWalk(data, ps);
    PastLabel(data, ps);
    LabelStep(data, ps[0], ps[1], Spelled(data, ps[1..]), PastSegment(data, ps[1..]), |ps| == 2, stack);
    SpelledLabel(data, ps);
  }

  lemma MoveIsLabelOrPointer(data: bytes, at: nat, to: nat)
    requires Moves(data, at, to)
    ensures IsLabel(data, at) || IsPointer(data, at)
  {
  }

  lemma LabelStep(data: bytes, at: nat, q: nat, name: bytes, next: nat, last: bool, stack: nat)
    requires IsLabel(data, at) && q == at + 1 + data[at] as nat
    requires ParseName(data, q, stack) == Name(name, next)
    requires Scan(data, q) == Ends([], next) <==> last
    ensures ParseName(data, at, stack)
         == Name(if last then data[at + 1..q] else data[at + 1..q] + [DOT] + name, next)
  {
    hide Scan, ParseName;
    LabelInFront(data, at, stack);
  }

  lemma PastLabel(data: bytes, ps: seq<nat>)
    requires |ps| > 1 && IsLabel(data, ps[0]) && Moves(data, ps[0], ps[1])
    ensures PastSegment(data, ps) == PastSegment(data, ps[1..])
    ensures ps[1] == ps[0] + 1 + data[ps[0]] as nat
  {
  }

  lemma PointerStep(data: bytes, ps: seq<nat>, stack: nat)
    requires IsWalk(data, ps) && |ps| > 1 && !IsLabel(data, ps[0]) && 0 < stack
    requires ParseName(data, ps[1], stack - 1) == Name(Spelled(data, ps[1..]), PastSegment(data, ps[1..]))
    ensures ParseName(data, ps[0], stack) == Name(Spelled(data, ps), PastSegment(data, ps))
  {
    hide Scan, ParseName, Spelled, IsWalk, Target;
    RestOfWalk(data, ps);
    PointerInFront(data, ps[0], stack);
    SpelledPointer(data, ps);
  }

  lemma ScanStart(data: bytes, at: nat)
    ensures IsEnd(data, at) ==> Scan(data, at) == Ends([], at + 1)
    ensures IsLabel(data, at) || IsPointer(data, at) ==> forall next :: Scan(data, at) != Ends([], next)
  {
  }

  lemma EndIsParsed(data: bytes, at: nat, stack: nat)
    requires IsEnd(data, at) && 0 < stack
    ensures ParseName(data, at, stack) == Name([], at + 1)
  {
  }

  lemma SpelledPointer(data: bytes, ps: seq<nat>)
    requires IsWalk(data, ps) && |ps| > 1 && IsPointer(data, ps[0])
    ensures Spelled(data, ps) == Spelled(data, ps[1..])
  {
    hide IsWalk, EndsOnPointer;
    RestOfWalk(data, ps);
    if |ps| == 2 {
      LastIsEnd(data, ps);
      NoLabelAtEnd(data, ps[1..]);
    }
  }

  lemma LastIsEnd(data: bytes, ps: seq<nat>)
    requires IsWalk(data, ps)
    ensures ps != [] && IsEnd(data, ps[|ps| - 1])
  {
  }

  lemma SpelledLabel(data: bytes, ps: seq<nat>)
    requires IsWalk(data, ps) && |ps| > 1 && IsLabel(data, ps[0])
    ensures var text := data[ps[0] + 1..ps[0] + 1 + data[ps[0]] as nat];
      Spelled(data, ps) == if |ps| == 2 then text else text + [DOT] + Spelled(data, ps[1..])
  {
    hide Join, IsWalk, EndsOnPointer;
    RestOfWalk(data, ps);
    var text := data[ps[0] + 1..ps[0] + 1 + data[ps[0]] as nat];
    var rest := ps[1..];
    JoinCons(text, LabelsOn(data, rest));
    if |ps| == 2 {
      LastIsEnd(data, ps);
      NoLabelAtEnd(data, rest);
    } else if LabelsOn(data, rest) == [] {
      OnlyPointers(data, rest);
      EmptyJoin();
    }
  }

  lemma EmptyJoin()
    ensures Join([]) == []
  {
  }

  lemma {:induction false} OnlyPointers(data: bytes, ps: seq<nat>)
    requires IsWalk(data, ps) && |ps| > 1 && LabelsOn(data, ps) == []
    ensures EndsOnPointer(data, ps)
    decreases |ps|
  {
    hide IsWalk, EndsOnPointer;
    RestOfWalk(data, ps);
    if |ps| > 2 {
      OnlyPointers(data, ps[1..]);
    }
  }

  /** Whatever is parsed is the result of a walk. */
  lemma {:induction false} ParsedIsWalk(data: bytes, offset: nat, stack: nat) returns (ps: seq<nat>)
    requires ParseName(data, offset, stack).Name?
    ensures IsWalk(data, ps) && ps[0] == offset
    decreases stack, |data| - offset
  {
    hide Join, Split, Target;
    if IsLabel(data, offset) {
      var q := offset + 1 + data[offset] as nat;
      LabelInFront(data, offset, stack);
      var rest := ParsedIsWalk(data, q, stack);
      ps := [offset] + rest;
      LongerWalk(data, offset, rest);
    } else if IsPointer(data, offset) {
      PointerInFront(data, offset, stack);
      var rest := ParsedIsWalk(data, Target(data, offset), stack - 1);
      ps := [offset] + rest;
      LongerWalk(data, offset, rest);
    } else {
      ps := [offset];
    }
  }

  lemma LongerWalk(data: bytes, at: nat, ps: seq<nat>)
    requires IsWalk(data, ps) && Moves(data, at, ps[0])
    ensures IsWalk(data, [at] + ps)
  {
    var qs := [at] + ps;
    forall i | 0 <= i < |qs| - 1 ensures Moves(data, qs[i], qs[i + 1]) {
      if i > 0 { assert Moves(data, ps[i - 1], ps[i - 1 + 1]); }
    }
  }

  /** parseDNSName refines the walk: it delivers a name exactly when there is a walk from the
      offset to a zero byte; then the name is what the walk spells and the next offset is past
      the labels in place, wherever a pointer led. */
  lemma ParseNameMeansWalk(data: bytes, offset: nat)
    ensures ParseName(data, offset, |data| + 1).Name? <==> exists ps :: IsWalk(data, ps) && ps[0] == offset
    ensures forall ps, stack: nat :: IsWalk(data, ps) && ps[0] == offset && ParseName(data, offset, stack).Name? ==>
      ParseName(data, offset, stack) == Name(Spelled(data, ps), PastSegment(data, ps))
  {
    hide Spelled, PastSegment, ParseName;
    if ParseName(data, offset, |data| + 1).Name? {
      var ps := ParsedIsWalk(data, offset, |data| + 1);
    }
    forall ps | IsWalk(data, ps) && ps[0] == offset
      ensures ParseName(data, offset, |data| + 1).Name?
      ensures forall stack: nat :: ParseName(data, offset, stack).Name? ==>
        ParseName(data, offset, stack) == Name(Spelled(data, ps), PastSegment(data, ps))
    {
      WalkIsParsed(data, ps, |ps| + |data| + 1);
      StackOfMessageLengthDecides(data, offset, |ps| + |data| + 1);
      forall stack: nat | ParseName(data, offset, stack).Name?
        ensures ParseName(data, offset, stack) == Name(Spelled(data, ps), PastSegment(data, ps))
      {
        WalkIsParsed(data, ps, |ps| + stack);
        MoreStackSameResult(data, offset, stack, |ps| + stack);
      }
    }
  }

  /** The syntax of names in numbers, one step of the parser at a time: 0 ends a name, 1 to 191
      count the bytes of a label, 192 and more are the high byte of a pointer of 14 bits. A dot
      (46) follows a label unless the name ends right behind it. */
  lemma NameSyntax(data: bytes, at: nat, stack: nat)
    requires 0 < stack
    ensures at >= |data| ==> ParseName(data, at, stack) == Malformed
    ensures at < |data| && data[at] == 0 ==> ParseName(data, at, stack) == Name([], at + 1)
    ensures at < |data| && 1 <= data[at] <= 191 ==>
      var q := at + 1 + data[at] as nat;
      if q > |data| then ParseName(data, at, stack) == Malformed
      else
        match ParseName(data, q, stack)
        case Name(name, next) =>
          ParseName(data, at, stack)
            == Name(if data[q] == 0 then data[at + 1..q] else data[at + 1..q] + [46] + name, next)
        case r => ParseName(data, at, stack) == r
    ensures at < |data| && data[at] >= 192 ==>
      if at + 1 == |data| then ParseName(data, at, stack) == Malformed
      else
        match ParseName(data, (data[at] as nat - 192) * 256 + data[at + 1] as nat, stack - 1)
        case Name(name, _) => ParseName(data, at, stack) == Name(name, at + 2)
        case r => ParseName(data, at, stack) == r
  {
    hide ParseName, Scan;
    if at < |data| && data[at] == 0 {
      EndIsParsed(data, at, stack);
    } else if IsLabel(data, at) {
      LabelInFront(data, at, stack);
      EndOfScan(data, at + 1 + data[at] as nat, stack);
    } else if IsPointer(data, at) {
      PointerInFront(data, at, stack);
      assert Target(data, at) == (data[at] as nat - 192) * 256 + data[at + 1] as nat;
    } else {
      NoSyntax(data, at, stack);
    }
  }

  lemma EndOfScan(data: bytes, at: nat, stack: nat)
    ensures ParseName(data, at, stack).Name? ==>
      at < |data| && (Scan(data, at) == Ends([], ParseName(data, at, stack).next) <==> data[at] == 0)
  {
    hide Join, Split, Target;
  }

  lemma NoSyntax(data: bytes, at: nat, stack: nat)
    requires 0 < stack && !IsLabel(data, at) && !IsPointer(data, at) && !IsEnd(data, at)
    ensures ParseName(data, at, stack) == Malformed
  {
  }
}
