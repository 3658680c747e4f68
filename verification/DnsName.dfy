/** Domain names on the wire (dns.go:308-349, RFC 1035 section 3.1 and 4.1.4): the decompressor,
    which follows pointers by calling itself. */
module DnsName {
  import opened Bytes
  import opened DottedNames

  const COMPRESSION := 0xC0

  /** What the loop of parseDNSName comes to from one offset, pointers not followed. */
  datatype Segment =
    | Ends(parts: seq<bytes>, next: nat)
    | Jumps(parts: seq<bytes>, target: nat, next: nat)
    | Bad

  function Prefixed(parts: seq<bytes>, seg: Segment): Segment {
    match seg
    case Ends(more, next) => Ends(parts + more, next)
    case Jumps(more, target, next) => Jumps(parts + more, target, next)
    case Bad => Bad
  }

  function Target(data: bytes, at: nat): nat
    requires at + 2 <= |data|
  {
    Uint16(data, at) % 0x4000
  }

  function Scan(data: bytes, offset: nat): (seg: Segment)
    ensures !seg.Bad? ==> offset < seg.next <= |data|
    decreases |data| - offset
  {
    if offset >= |data| then Bad
    else
      var length := data[offset] as nat;
      if length == 0 then Ends([], offset + 1)
      else if length >= COMPRESSION then
        if offset + 1 >= |data| then Bad
        else Jumps([], Target(data, offset), offset + 2)
      else if offset + 1 + length > |data| then Bad
      else Prefixed([data[offset + 1..offset + 1 + length]], Scan(data, offset + 1 + length))
  }

  /** The result of parseDNSName; `Overflow` is the goroutine running out of stack. */
  datatype Parsed = Name(name: bytes, next: nat) | Malformed | Overflow

  /** parseDNSName when the stack has room for `stack` nested calls, this one included. */
  function ParseName(data: bytes, offset: nat, stack: nat): (r: Parsed)
    ensures r.Name? ==> offset < r.next <= |data|
    decreases stack
  {
    if stack == 0 then Overflow
    else
      match Scan(data, offset)
      case Bad => Malformed
      case Ends(parts, next) => Name(Join(parts), next)
      case Jumps(parts, target, next) =>
        match ParseName(data, target, stack - 1)
        case Name(name, _) => Name(Join(parts + Split(name)), next)
        case Malformed => Malformed
        case Overflow => Overflow
  }

  lemma PrefixedByNothing(seg: Segment)
    ensures Prefixed([], seg) == seg
  {
    if !seg.Bad? {
      assert [] + seg.parts == seg.parts;
    }
  }

  lemma NoStack(data: bytes, offset: nat)
    ensures ParseName(data, offset, 0) == Overflow
  {
  }

  lemma PrefixedTwice(parts: seq<bytes>, part: bytes, seg: Segment)
    ensures Prefixed(parts, Prefixed([part], seg)) == Prefixed(parts + [part], seg)
  {
    if !seg.Bad? {
      assert parts + ([part] + seg.parts) == (parts + [part]) + seg.parts;
    }
  }

  lemma ScanOnce(data: bytes, offset: nat)
    ensures Scan(data, offset) ==
      if offset >= |data| then Bad
      else
        var length := data[offset] as nat;
        if length == 0 then Ends([], offset + 1)
        else if length >= COMPRESSION then
          if offset + 1 >= |data| then Bad else Jumps([], Target(data, offset), offset + 2)
        else if offset + 1 + length > |data| then Bad
        else Prefixed([data[offset + 1..offset + 1 + length]], Scan(data, offset + 1 + length))
  {
    hide Target;
  }

  lemma ParseOnce(data: bytes, offset: nat, stack: nat)
    requires stack > 0
    ensures ParseName(data, offset, stack) ==
      match Scan(data, offset)
      case Bad => Malformed
      case Ends(parts, next) => Name(Join(parts), next)
      case Jumps(parts, target, next) =>
        var inner := ParseName(data, target, stack - 1);
        if inner.Name? then Name(Join(parts + Split(inner.name)), next) else inner
  {
    hide Scan, Join, Split;
  }

  /** The loop and the recursive call as the source has them. */
  method ParseDnsName(data: bytes, start: nat, stack: nat) returns (r: Parsed)
    ensures r == ParseName(data, start, stack)
    decreases stack
  {
    hide Join, Split, Target, Scan, ParseName;
    if stack == 0 {
      NoStack(data, start);
      return Overflow;
    }
    ParseOnce(data, start, stack);
    PrefixedByNothing(Scan(data, start));
    var offset := start;
    var parts: seq<bytes> := [];
    while true
      invariant Scan(data, start) == Prefixed(parts, Scan(data, offset))
      decreases |data| - offset
    {
      ScanOnce(data, offset);
      if offset >= |data| { return Malformed; }
      var length := data[offset] as nat;
      if length == 0 {
        assert parts + [] == parts;
        offset := offset + 1;
        break;
      }
      if length >= COMPRESSION {
        if offset + 1 >= |data| { return Malformed; }
        var pointer := Target(data, offset);
        assert parts + [] == parts;
        var inner := ParseDnsName(data, pointer, stack - 1);
        if !inner.Name? { return inner; }
        return Name(Join(parts + Split(inner.name)), offset + 2);
      }
      offset := offset + 1;
      if offset + length > |data| { return Malformed; }
      var part := data[offset..offset + length];
      PrefixedTwice(parts, part, Scan(data, offset + length));
      parts := parts + [part];
      offset := offset + length;
    }
    return Name(Join(parts), offset);
  }
}
