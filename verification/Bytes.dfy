/** Byte strings and the big-endian integers that the wire formats are made of.
    A Go `string` and a Go `[]byte` are both modelled by `bytes`. */
module Bytes {

  newtype byte = x: int | 0 <= x < 256
  type bytes = seq<byte>

  datatype Option<+T> = None | Some(value: T)

  /** Go's conversion `byte(n)`: the low eight bits. */
  function Low8(n: nat): byte {
    (n % 256) as byte
  }

  /** binary.BigEndian.PutUint16, also written byte(n>>8), byte(n) in the source. */
  function Put16(n: nat): (s: bytes)
    ensures |s| == 2
  {
    [Low8(n / 256), Low8(n)]
  }

  /** binary.BigEndian.PutUint32. */
  function Put32(n: nat): (s: bytes)
    ensures |s| == 4
  {
    Put16(n / 65536) + Put16(n)
  }

  function Uint16(s: bytes, at: nat): (n: nat)
    requires at + 2 <= |s|
    ensures n < 65536
  {
    s[at] as nat * 256 + s[at + 1] as nat
  }

  function Uint32(s: bytes, at: nat): (n: nat)
    requires at + 4 <= |s|
    ensures n < 0x1_0000_0000
  {
    Uint16(s, at) * 65536 + Uint16(s, at + 2)
  }

  lemma Put16Read(n: nat, s: bytes, at: nat)
    requires at + 2 <= |s| && s[at..at + 2] == Put16(n)
    ensures Uint16(s, at) == n % 65536
  {
    TwoBytes(n);
    assert s[at] == s[at..at + 2][0] == Low8(n / 256);
    assert s[at + 1] == s[at..at + 2][1] == Low8(n);
  }

  lemma TwoBytes(n: nat)
    ensures n / 256 % 256 * 256 + n % 256 == n % 65536
  {
    var high := n / 256 / 256;
    assert n == high * 65536 + (n / 256 % 256 * 256 + n % 256);
  }

  lemma Halves(n: nat)
    ensures n % 0x1_0000_0000 == n / 65536 % 65536 * 65536 + n % 65536
  {
    var high := n / 65536 / 65536;
    var rest := n / 65536 % 65536 * 65536 + n % 65536;
    assert n == high * 0x1_0000_0000 + rest;
  }

  lemma Put32Read(n: nat, s: bytes, at: nat)
    requires at + 4 <= |s| && s[at..at + 4] == Put32(n)
    ensures Uint32(s, at) == n % 0x1_0000_0000
  {
    hide Put16, Uint16;
    assert s[at..at + 2] == s[at..at + 4][..2] == Put16(n / 65536);
    assert s[at + 2..at + 4] == s[at..at + 4][2..] == Put16(n);
    Put16Read(n / 65536, s, at);
    Put16Read(n, s, at + 2);
    Halves(n);
  }

  lemma ReadPut16(s: bytes, at: nat)
    requires at + 2 <= |s|
    ensures Put16(Uint16(s, at)) == s[at..at + 2]
  {
    BytesOfPair(s[at] as nat, s[at + 1] as nat);
  }

  lemma BytesOfPair(high: nat, low: nat)
    requires high < 256 && low < 256
    ensures (high * 256 + low) / 256 == high && (high * 256 + low) % 256 == low
  {
  }

  lemma ReadPut32(s: bytes, at: nat)
    requires at + 4 <= |s|
    ensures Put32(Uint32(s, at)) == s[at..at + 4]
  {
    ReadPut16(s, at);
    ReadPut16(s, at + 2);
    Put16HighIgnored(Uint16(s, at), Uint16(s, at + 2));
    assert s[at..at + 4] == s[at..at + 2] + s[at + 2..at + 4];
  }

  /** Network byte order, most significant byte first. */
  lemma BigEndian16(b0: byte, b1: byte)
    ensures var n := b0 as nat * 256 + b1 as nat; Put16(n) == [b0, b1] && Uint16([b0, b1], 0) == n
  {
    ReadPut16([b0, b1], 0);
  }

  lemma BigEndian32(b0: byte, b1: byte, b2: byte, b3: byte)
    ensures var n := b0 as nat * 0x100_0000 + b1 as nat * 0x1_0000 + b2 as nat * 0x100 + b3 as nat;
      Put32(n) == [b0, b1, b2, b3] && Uint32([b0, b1, b2, b3], 0) == n
  {
    hide Put32;
    var s := [b0, b1, b2, b3];
    ReadPut32(s, 0);
    assert s[0..4] == s;
    assert Uint32(s, 0) == b0 as nat * 0x100_0000 + b1 as nat * 0x1_0000 + b2 as nat * 0x100 + b3 as nat;
  }

  lemma Put16HighIgnored(high: nat, low: nat)
    requires low < 65536
    ensures Put16(high * 65536 + low) == Put16(low)
    ensures (high * 65536 + low) / 65536 == high
  {
    assert (high * 65536 + low) / 256 == high * 256 + low / 256;
  }

  lemma SliceOfSlice(s: bytes, from: nat, to: nat, i: nat, j: nat)
    requires from <= to <= |s| && i <= j <= to - from
    ensures s[from..to][i..j] == s[from + i..from + j]
  {
    var slice := s[from..to][i..j];
    forall k | 0 <= k < |slice| ensures slice[k] == s[from + i..from + j][k] {
      assert slice[k] == s[from..to][i + k] == s[from + (i + k)];
    }
  }

  /** The bytes of a list of blocks, one after the other. */
  function Flat(blocks: seq<bytes>): bytes {
    if blocks == [] then [] else blocks[0] + Flat(blocks[1..])
  }

  lemma {:induction false} FlatAppend(blocks: seq<bytes>, last: bytes)
    ensures Flat(blocks + [last]) == Flat(blocks) + last
  {
    if blocks == [] {
      assert blocks + [last] == [last];
    } else {
      assert (blocks + [last])[1..] == blocks[1..] + [last];
      FlatAppend(blocks[1..], last);
    }
  }
}
