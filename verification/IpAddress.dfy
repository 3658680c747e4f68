/** Go's net.IP: an IPv4 address is held in 4 bytes, or in 16 with a fixed prefix. */
module IpAddress {
  import opened Bytes

  const V4_IN_V6: bytes := [0, 0, 0, 0, 0, 0, 0, 0, 0, 0, 255, 255]

  /** net.IP.To4: the 4-byte form of an address, or nothing. */
  function To4(ip: bytes): (four: bytes)
    ensures |four| == 4 || four == []
  {
    if |ip| == 4 then ip
    else if |ip| == 16 && ip[..12] == V4_IN_V6 then ip[12..]
    else []
  }

  /** net.IP.Equal. */
  predicate Equal(a: bytes, b: bytes) {
    if |a| == |b| then a == b
    else if |a| == 4 && |b| == 16 then b[..12] == V4_IN_V6 && b[12..] == a
    else if |a| == 16 && |b| == 4 then a[..12] == V4_IN_V6 && a[12..] == b
    else false
  }

  /** An IPv4 address in 16 bytes: ten zeros, 255 twice, and the four bytes. */
  predicate IsMapped(ip: bytes) {
    && |ip| == 16 && (forall i :: 0 <= i < 10 ==> ip[i] == 0) && ip[10] == 255 && ip[11] == 255
  }

  /** To4 changes no byte of an address: four bytes stand for themselves, of a mapped address
      the last four are taken, and nothing else has a 4-byte form. */
  lemma FourByteForm(ip: bytes)
    ensures |ip| == 4 ==> To4(ip) == ip
    ensures IsMapped(ip) ==> To4(ip) == [ip[12], ip[13], ip[14], ip[15]]
    ensures |ip| != 4 && !IsMapped(ip) ==> To4(ip) == []
  {
    if |ip| == 16 { PrefixIsMapped(ip); }
  }

  lemma PrefixIsMapped(ip: bytes)
    requires |ip| == 16
    ensures ip[..12] == V4_IN_V6 <==> IsMapped(ip)
  {
    assert forall i :: 0 <= i < 12 ==> ip[..12][i] == ip[i];
    assert forall i :: 0 <= i < 12 ==> V4_IN_V6[i] == if i < 10 then 0 else 255;
  }

  /** Two addresses are equal if they are the same bytes or two forms of one IPv4 address. */
  lemma EqualIsSameAddress(a: bytes, b: bytes)
    ensures Equal(a, b) <==> a == b || (To4(a) != [] && To4(a) == To4(b))
  {
    if |a| == 16 && |b| == 16 && To4(a) != [] && To4(a) == To4(b) {
      assert a == a[..12] + a[12..] && b == b[..12] + b[12..];
    }
  }
}
