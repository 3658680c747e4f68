/** When parseDNSName comes back. Pointers may lead anywhere, so it need not; but how deep it
    has to go is decided by the length of the message. */
module DnsTermination {
  import opened Bytes
  import opened DnsName

  /** The offset of the k-th nested call, if it gets that far. */
  function CallAt(data: bytes, offset: nat, k: nat): Option<nat>
    decreases k
  {
    if k == 0 then Some(offset)
    else
      match Scan(data, offset)
      case Jumps(_, target, _) => CallAt(data, target, k - 1)
      case _ => None
  }

  ghost predicate Revisits(data: bytes, offset: nat) {
    exists i: nat, j: nat ::
      i < j <= |data| && CallAt(data, offset, i).Some? && CallAt(data, offset, i) == CallAt(data, offset, j)
  }

  lemma {:induction false} MoreStackSameResult(data: bytes, offset: nat, stack: nat, more: nat)
    requires stack <= more && !ParseName(data, offset, stack).Overflow?
    ensures ParseName(data, offset, more) == ParseName(data, offset, stack)
    decreases stack
  {
    var seg := Scan(data, offset);
    if seg.Jumps? {
      MoreStackSameResult(data, seg.target, stack - 1, more - 1);
    }
  }

  /** Whether a call overflows is decided by any of the calls it leads to. */
  lemma {:induction false} SameFate(data: bytes, offset: nat, k: nat, stack: nat)
    requires CallAt(data, offset, k).Some?
    ensures ParseName(data, offset, stack + k).Overflow?
       <==> ParseName(data, CallAt(data, offset, k).value, stack).Overflow?
    decreases k
  {
    if k > 0 {
      SameFate(data, Scan(data, offset).target, k - 1, stack);
    }
  }

  lemma {:induction false} RevisitOverflows(data: bytes, offset: nat, i: nat, j: nat, stack: nat)
    requires i < j && CallAt(data, offset, i).Some? && CallAt(data, offset, i) == CallAt(data, offset, j)
    ensures ParseName(data, offset, stack).Overflow?
    decreases stack
  {
    SameFate(data, offset, i, 0);
    if stack > i {
      var before := if stack >= j then stack - (j - i) else i;
      if stack >= j {
        RevisitOverflows(data, offset, i, j, before);
        SameFate(data, offset, i, before - i);
        SameFate(data, offset, j, before - i);
      } else {
        SameFate(data, offset, j, 0);
        if !ParseName(data, offset, stack).Overflow? {
          MoreStackSameResult(data, offset, stack, j);
        }
      }
    } else if !ParseName(data, offset, stack).Overflow? {
      MoreStackSameResult(data, offset, stack, i);
    }
  }

  /** A call that overflows has made as many nested calls as the stack holds, each of them at an
      offset inside the message. */
  lemma {:induction false} OverflowCalls(data: bytes, offset: nat, stack: nat, k: nat)
    requires ParseName(data, offset, stack).Overflow? && k < stack
    ensures CallAt(data, offset, k).Some? && CallAt(data, offset, k).value < |data|
    decreases k
  {
    if k > 0 {
      OverflowCalls(data, Scan(data, offset).target, stack - 1, k - 1);
    }
  }

  lemma {:induction false} Pigeonhole(xs: seq<nat>, holes: nat) returns (i: nat, j: nat)
    requires holes < |xs| && forall k :: 0 <= k < |xs| ==> xs[k] < holes
    ensures i < j < |xs| && xs[i] == xs[j]
    decreases holes
  {
    var last := |xs| - 1;
    if k :| 0 <= k < last && xs[k] == xs[last] {
      return k, last;
    }
    // The value of the last one is free now: move the top hole there.
    var ys := seq(last, k requires 0 <= k < last => if xs[k] == holes - 1 then xs[last] else xs[k]);
    i, j := Pigeonhole(ys, holes - 1);
  }

  /** The message length decides: with room for one call more than there are bytes, either the
      result is the one that every larger stack gives, or the chain of pointers has come back
      to an offset and no stack is ever enough. */
  lemma StackOfMessageLengthDecides(data: bytes, offset: nat, more: nat)
    requires |data| + 1 <= more
    ensures ParseName(data, offset, more) == ParseName(data, offset, |data| + 1)
    ensures ParseName(data, offset, more).Overflow? <==> Revisits(data, offset)
  {
    var enough := |data| + 1;
    if ParseName(data, offset, enough).Overflow? {
      forall k: nat | k < enough ensures CallAt(data, offset, k).Some? && CallAt(data, offset, k).value < |data| {
        OverflowCalls(data, offset, enough, k);
      }
      var calls := seq(enough, k requires 0 <= k < enough => CallAt(data, offset, k).value);
      var i, j := Pigeonhole(calls, |data|);
      RevisitOverflows(data, offset, i, j, more);
    } else {
      MoreStackSameResult(data, offset, enough, more);
      if Revisits(data, offset) {
        var i: nat, j: nat :| i < j <= |data| && CallAt(data, offset, i).Some?
                              && CallAt(data, offset, i) == CallAt(data, offset, j);
        RevisitOverflows(data, offset, i, j, more);
      }
    }
  }

  // ---------------------------------------------------------------- prior occurrence

  /** Every pointer met on the way leads to before the start of the call that meets it. */
  ghost predicate PointsBack(data: bytes, offset: nat) {
    forall k: nat :: CallAt(data, offset, k).Some? ==>
      var at := CallAt(data, offset, k).value;
      Scan(data, at).Jumps? ==> Scan(data, at).target < at
  }

  /** Names compressed as RFC 1035 section 4.1.4 asks, by pointing to a prior occurrence, need no
      more nested calls than their offset. */
  lemma {:induction false} PointingBackTerminates(data: bytes, offset: nat, stack: nat)
    requires PointsBack(data, offset) && offset < stack
    ensures !ParseName(data, offset, stack).Overflow?
    decreases offset
  {
    var seg := Scan(data, offset);
    if seg.Jumps? {
      assert CallAt(data, offset, 0) == Some(offset);
      forall k: nat | CallAt(data, seg.target, k).Some?
        ensures var at := CallAt(data, seg.target, k).value;
          Scan(data, at).Jumps? ==> Scan(data, at).target < at
      {
        assert CallAt(data, offset, k + 1) == CallAt(data, seg.target, k);
      }
      PointingBackTerminates(data, seg.target, stack - 1);
    }
  }

  /** A pointer that leads only to before its own position is not enough: the label "a"
      followed by a pointer to that label. */
  lemma PointingBeforeThePointerIsNotEnough(stack: nat)
    ensures var data: bytes := [1, 97, 0xC0, 0];
      Scan(data, 0) == Jumps([[97]], 0, 4) && ParseName(data, 0, stack).Overflow?
  {
    var data: bytes := [1, 97, 0xC0, 0];
    assert data[1..2] == [97];
    assert Scan(data, 2) == Jumps([], 0, 4);
    assert CallAt(data, 0, 0) == CallAt(data, 0, 1) == Some(0);
    RevisitOverflows(data, 0, 0, 1, stack);
  }
}
