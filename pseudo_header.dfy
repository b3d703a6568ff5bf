/** The TCP pseudo-header of section 3.1 of RFC 793 (TCP_validator.py, generate_pseudo_header). */
module PseudoHeader {
  import opened ByteOrder

  /** The byte after the two addresses; the source's comment calls it the zero checksum byte. */
  const Reserved: Byte := 0x00
  /** The IP protocol number of TCP. */
  const ProtocolTcp: Byte := 0x06

  /**
   * Source address, destination address, a zero byte, the protocol byte and the segment
   * length as two big-endian bytes. The addresses are concatenated whatever their length;
   * `tcpLength` must fit in two bytes, or `to_bytes` raises.
   */
  function Build(source: seq<Byte>, dest: seq<Byte>, tcpLength: nat): (h: seq<Byte>)
    requires tcpLength < 0x1_0000
    ensures |h| == |source| + |dest| + 4
    ensures h[..|source|] == source
    ensures h[|source|..|source| + |dest|] == dest
    ensures h[|source| + |dest|] == Reserved && h[|source| + |dest| + 1] == ProtocolTcp
    ensures FromBigEndian(h[|source| + |dest| + 2..]) == tcpLength
  {
    var h := source + dest + [Reserved, ProtocolTcp] + ToBigEndian2(tcpLength);
    assert h[|source| + |dest| + 2..] == ToBigEndian2(tcpLength);
    h
  }

  /** With IPv4 addresses the pseudo-header is 12 bytes, laid out byte for byte. */
  lemma BuildIpv4(source: seq<Byte>, dest: seq<Byte>, tcpLength: nat)
    requires |source| == 4 && |dest| == 4 && tcpLength < 0x1_0000
    ensures |Build(source, dest, tcpLength)| == 12
    ensures forall i :: 0 <= i < 4 ==> Build(source, dest, tcpLength)[i] == source[i]
    ensures forall i :: 4 <= i < 8 ==> Build(source, dest, tcpLength)[i] == dest[i - 4]
    ensures Build(source, dest, tcpLength)[8] == 0x00
    ensures Build(source, dest, tcpLength)[9] == 0x06
    ensures Build(source, dest, tcpLength)[10] as int * 256 + Build(source, dest, tcpLength)[11]
            == tcpLength
  {
    var h := Build(source, dest, tcpLength);
    assert h[10..] == [h[10], h[11]];
    FromBigEndianShort(h[10..]);
    forall i | 0 <= i < 4 ensures h[i] == source[i] {
      assert h[..4][i] == h[i];
    }
    forall i | 4 <= i < 8 ensures h[i] == dest[i - 4] {
      assert h[4..8][i - 4] == h[i];
    }
  }

  /** Two IPv4 pseudo-headers are equal only when their addresses and lengths are. */
  lemma BuildIpv4Injective(s1: seq<Byte>, d1: seq<Byte>, n1: nat, s2: seq<Byte>, d2: seq<Byte>, n2: nat)
    requires |s1| == 4 && |d1| == 4 && n1 < 0x1_0000
    requires |s2| == 4 && |d2| == 4 && n2 < 0x1_0000
    requires Build(s1, d1, n1) == Build(s2, d2, n2)
    ensures s1 == s2 && d1 == d2 && n1 == n2
  {
    var h := Build(s1, d1, n1);
    assert s1 == h[..4] == s2;
    assert d1 == h[4..8] == d2;
    assert n1 == FromBigEndian(h[10..]) == n2;
  }
}
