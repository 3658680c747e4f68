/** Go's strings.Split(s, ".") and strings.Join(parts, ".") on byte strings. */
module DottedNames {
  import opened Bytes

  const DOT: byte := 46

  /** Never empty: Split("") is [""]. */
  function Split(s: bytes): (parts: seq<bytes>)
    ensures parts != []
  {
    if s == [] then [[]]
    else
      var rest := Split(s[1..]);
      if s[0] == DOT then [[]] + rest else [[s[0]] + rest[0]] + rest[1..]
  }

  function Join(parts: seq<bytes>): bytes {
    if parts == [] then []
    else if |parts| == 1 then parts[0]
    else parts[0] + [DOT] + Join(parts[1..])
  }

  ghost predicate DotFree(parts: seq<bytes>) {
    forall i :: 0 <= i < |parts| ==> DOT !in parts[i]
  }

  lemma SplitCons(s: bytes)
    requires s != []
    ensures var rest := Split(s[1..]);
      Split(s) == if s[0] == DOT then [[]] + rest else [[s[0]] + rest[0]] + rest[1..]
  {
  }

  lemma {:induction false} JoinSplit(s: bytes)
    ensures Join(Split(s)) == s
  {
    hide Join, Split;
    if s == [] {
      NothingSplit();
    } else {
      var rest := Split(s[1..]);
      JoinSplit(s[1..]);
      SplitCons(s);
      assert s == [s[0]] + s[1..];
      if s[0] == DOT {
        JoinCons([], rest);
      } else {
        assert rest == [rest[0]] + rest[1..];
        JoinCons(rest[0], rest[1..]);
        JoinCons([s[0]] + rest[0], rest[1..]);
      }
    }
  }

  lemma NothingSplit()
    ensures Split([]) == [[]] && Join([[]]) == []
  {
  }

  lemma {:induction false} SplitDotFree(s: bytes)
    ensures DotFree(Split(s))
  {
    if s != [] {
      SplitDotFree(s[1..]);
    }
  }

  lemma {:induction false} SplitPart(part: bytes, rest: bytes)
    requires DOT !in part
    ensures Split(part) == [part]
    ensures Split(part + [DOT] + rest) == [part] + Split(rest)
  {
    if part == [] {
      assert ([DOT] + rest)[1..] == rest;
      assert part + [DOT] + rest == [DOT] + rest;
    } else {
      SplitPart(part[1..], rest);
      assert (part + [DOT] + rest)[1..] == part[1..] + [DOT] + rest;
      assert part == [part[0]] + part[1..];
    }
  }

  lemma {:induction false} SplitJoin(parts: seq<bytes>)
    requires parts != [] && DotFree(parts)
    ensures Split(Join(parts)) == parts
  {
    SplitPart(parts[0], Join(parts[1..]));
    if |parts| > 1 {
      SplitJoin(parts[1..]);
    }
  }

  /** A dot splits whatever stands on its sides. */
  lemma {:induction false} SplitAtDot(a: bytes, b: bytes)
    ensures Split(a + [DOT] + b) == Split(a) + Split(b)
  {
    hide Split;
    SplitCons(a + [DOT] + b);
    if a == [] {
      NothingSplit();
      assert (a + [DOT] + b)[1..] == b;
    } else {
      SplitCons(a);
      SplitAtDot(a[1..], b);
      assert (a + [DOT] + b)[1..] == a[1..] + [DOT] + b;
      var parts := Split(a[1..]);
      assert (parts + Split(b))[0] == parts[0] && (parts + Split(b))[1..] == parts[1..] + Split(b);
    }
  }

  lemma {:induction false} PartsNoLonger(s: bytes)
    ensures forall part :: part in Split(s) ==> |part| <= |s|
  {
    hide Split;
    if s == [] {
      NothingSplit();
    } else {
      SplitCons(s);
      PartsNoLonger(s[1..]);
    }
  }

  lemma JoinCons(part: bytes, parts: seq<bytes>)
    ensures Join([part] + parts) == if parts == [] then part else part + [DOT] + Join(parts)
  {
    assert ([part] + parts)[1..] == parts;
  }
}
