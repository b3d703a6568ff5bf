/**
 * The per-segment verdict of TCP_validator.py's validate, without the file reading and
 * the printing: the pseudo-header built from the unpadded segment length, a copy of the
 * segment with its checksum field zeroed (and one zero byte appended when the length is
 * odd), the checksum of the two together, and PASS exactly when it equals the checksum
 * stored at offsets 16 and 17.
 */
module SegmentValidator {
  import opened ByteOrder
  import PseudoHeader
  import opened InternetChecksum

  /** One validation unit: the two addresses and the raw segment, as the files supply them. */
  datatype Unit = Unit(source: seq<Byte>, dest: seq<Byte>, segment: seq<Byte>)

  /**
   * `x[:16] + b'\x00\x00' + x[18:]`, with `b'\x00'` appended when `len(x)` is odd. Python's
   * slices make this total: a segment shorter than 18 bytes keeps what it has before
   * offset 16 and still gets the two zero bytes.
   */
  function ZeroedCopy(seg: seq<Byte>): (z: seq<Byte>)
    ensures |seg| >= 18 ==> |z| == |seg| + |seg| % 2
    ensures |seg| >= 18 ==> z[16] == 0 && z[17] == 0
    ensures |seg| >= 18 ==> forall i :: 0 <= i < |seg| && i != 16 && i != 17 ==> z[i] == seg[i]
    ensures |seg| >= 18 && |seg| % 2 == 1 ==> z[|seg|] == 0
    ensures |z| % 2 == 1 <==> |seg| == 17
  {
    var zeroed := Take(seg, 16) + [0, 0] + Drop(seg, 18);
    if |seg| % 2 == 0 then zeroed else zeroed + [0]
  }

  /** `int.from_bytes(x[16:18], byteorder='big')`: the checksum the segment carries. */
  function StoredChecksum(seg: seq<Byte>): (c: nat)
    ensures c < 0x1_0000
    ensures |seg| >= 18 ==> c == seg[16] as int * 256 + seg[17]
  {
    var field := Take(Drop(seg, 16), 2);
    FromBigEndianShort(field);
    FromBigEndian(field)
  }

  /**
   * The bytes handed to compute_checksum: pseudo-header, then the zeroed copy. Its length
   * field carries the segment's own length, while the zeroed copy after it may be padded.
   */
  function ChecksumInput(source: seq<Byte>, dest: seq<Byte>, seg: seq<Byte>): (r: seq<Byte>)
    requires |seg| < 0x1_0000
    ensures |r| == |source| + |dest| + 4 + |ZeroedCopy(seg)|
    ensures r[|source| + |dest| + 2] as int * 256 + r[|source| + |dest| + 3] == |seg|
  {
    var header := PseudoHeader.Build(source, dest, |seg|);
    FromBigEndianShort(header[|source| + |dest| + 2..]);
    header + ZeroedCopy(seg)
  }

  /** The checksum validate recomputes for a segment. */
  function Recomputed(source: seq<Byte>, dest: seq<Byte>, seg: seq<Byte>): (c: nat)
    requires |seg| < 0x1_0000
    ensures c <= 0xFFFF
  {
    Checksum(ChecksumInput(source, dest, seg))
  }

  /**
   * PASS (true) or FAIL (false) for one segment. A segment of 65536 bytes or more makes
   * `to_bytes` raise, so the verdict is defined below that length only.
   */
  function Verdict(source: seq<Byte>, dest: seq<Byte>, seg: seq<Byte>): (pass: bool)
    requires |seg| < 0x1_0000
    ensures |seg| >= 18 ==>
              (pass <==> seg[16] as int * 256 + seg[17] == Recomputed(source, dest, seg))
  {
    Recomputed(source, dest, seg) == StoredChecksum(seg)
  }

  /**
   * The verdicts of a batch: one per unit, in input order. An empty batch has no addresses
   * to unpack, and validate raises instead of printing nothing.
   */
  function Verdicts(units: seq<Unit>): (r: seq<bool>)
    requires |units| > 0
    requires forall k :: 0 <= k < |units| ==> |units[k].segment| < 0x1_0000
    ensures |r| == |units|
    ensures forall k :: 0 <= k < |units| ==>
              r[k] == Verdict(units[k].source, units[k].dest, units[k].segment)
  {
    seq(|units|, k requires 0 <= k < |units| =>
      Verdict(units[k].source, units[k].dest, units[k].segment))
  }

  /** The segment with `c` written big-endian into its checksum field, as a sender does. */
  function WithChecksum(seg: seq<Byte>, c: nat): (r: seq<Byte>)
    requires |seg| >= 18 && c < 0x1_0000
    ensures |r| == |seg|
    ensures StoredChecksum(r) == c
    ensures forall i :: 0 <= i < |seg| && i != 16 && i != 17 ==> r[i] == seg[i]
  {
    var field := ToBigEndian2(c);
    FromBigEndianShort(field);
    seg[..16] + field + seg[18..]
  }

  /**
   * compute_checksum always receives an even number of bytes when the addresses together
   * have an even length (12 bytes of pseudo-header for IPv4), except for a 17-byte segment.
   */
  lemma ChecksumInputEven(source: seq<Byte>, dest: seq<Byte>, seg: seq<Byte>)
    requires (|source| + |dest|) % 2 == 0 && |seg| < 0x1_0000 && |seg| != 17
    ensures |ChecksumInput(source, dest, seg)| % 2 == 0
    ensures |seg| >= 18 ==>
              |ChecksumInput(source, dest, seg)| == |source| + |dest| + 4 + |seg| + |seg| % 2
  {
    var z := ZeroedCopy(seg);
    assert |z| % 2 == 0;
    assert |ChecksumInput(source, dest, seg)| == |source| + |dest| + 4 + |z|;
  }

  /**
   * The length field of the pseudo-header holds the segment's own length, not the length
   * of the padded copy that is summed after it; for an odd segment the two differ.
   */
  lemma LengthFieldUnpadded(source: seq<Byte>, dest: seq<Byte>, seg: seq<Byte>)
    requires |source| == 4 && |dest| == 4 && 18 <= |seg| < 0x1_0000
    ensures ChecksumInput(source, dest, seg)[10] as int * 256
            + ChecksumInput(source, dest, seg)[11] == |seg|
    ensures |seg| % 2 == 1 ==> |ZeroedCopy(seg)| == |seg| + 1
  {
    PseudoHeader.BuildIpv4(source, dest, |seg|);
  }

  /** Whatever the checksum field holds, the zeroed copy is the same. */
  lemma ZeroedCopyIgnoresChecksumField(seg: seq<Byte>, c: nat)
    requires |seg| >= 18 && c < 0x1_0000
    ensures ZeroedCopy(WithChecksum(seg, c)) == ZeroedCopy(seg)
  {
    var z, z' := ZeroedCopy(seg), ZeroedCopy(WithChecksum(seg, c));
    assert |z| == |z'|;
    forall i | 0 <= i < |z| ensures z'[i] == z[i] {
    }
  }

  /** Hence the recomputed checksum does not depend on the checksum field either. */
  lemma RecomputedIgnoresChecksumField(source: seq<Byte>, dest: seq<Byte>, seg: seq<Byte>, c: nat)
    requires 18 <= |seg| < 0x1_0000 && c < 0x1_0000
    ensures Recomputed(source, dest, WithChecksum(seg, c)) == Recomputed(source, dest, seg)
  {
    ZeroedCopyIgnoresChecksumField(seg, c);
  }

  /**
   * The round trip: write the recomputed checksum into the segment, and the segment
   * passes; write any other value, and it fails.
   */
  lemma SealedSegmentPasses(source: seq<Byte>, dest: seq<Byte>, seg: seq<Byte>, c: nat)
    requires 18 <= |seg| < 0x1_0000 && c < 0x1_0000
    ensures Verdict(source, dest, WithChecksum(seg, c)) <==> c == Recomputed(source, dest, seg)
  {
    RecomputedIgnoresChecksumField(source, dest, seg, c);
  }

  /** Writing back the checksum a segment already carries changes nothing. */
  lemma WithStoredChecksum(seg: seq<Byte>)
    requires |seg| >= 18
    ensures WithChecksum(seg, StoredChecksum(seg)) == seg
  {
    ToBigEndian2OfFromBigEndian(seg[16..18]);
    assert seg == seg[..16] + seg[16..18] + seg[18..];
  }

  /** A segment passes exactly when it already carries its own recomputed checksum. */
  lemma VerdictIffSealed(source: seq<Byte>, dest: seq<Byte>, seg: seq<Byte>)
    requires 18 <= |seg| < 0x1_0000
    ensures Verdict(source, dest, seg) <==> seg == WithChecksum(seg, Recomputed(source, dest, seg))
  {
    SealedSegmentPasses(source, dest, seg, Recomputed(source, dest, seg));
    WithStoredChecksum(seg);
  }

  /** Changing a byte outside the checksum field changes the same byte of the zeroed copy. */
  lemma ZeroedCopyUpdate(seg: seq<Byte>, i: nat, b: Byte)
    requires |seg| >= 18 && i < |seg| && i != 16 && i != 17
    ensures ZeroedCopy(seg[i := b]) == ZeroedCopy(seg)[i := b]
  {
    var z, z' := ZeroedCopy(seg)[i := b], ZeroedCopy(seg[i := b]);
    assert |z| == |z'|;
    forall k | 0 <= k < |z| ensures z'[k] == z[k] {
    }
  }

  /**
   * A sealed IPv4 segment with any one byte outside the checksum field changed fails: the
   * change moves the sum by less than 0xFFFF, and the single fold cannot hide that.
   */
  lemma SingleByteCorruptionFails(source: seq<Byte>, dest: seq<Byte>, seg: seq<Byte>, i: nat, b: Byte)
    requires |source| == 4 && |dest| == 4 && 18 <= |seg| < 0x1_0000
    requires i < |seg| && i != 16 && i != 17
    requires b != WithChecksum(seg, Recomputed(source, dest, seg))[i]
    ensures !Verdict(source, dest, WithChecksum(seg, Recomputed(source, dest, seg))[i := b])
  {
    var r := Recomputed(source, dest, seg);
    var sealed := WithChecksum(seg, r);
    var corrupted := sealed[i := b];
    assert StoredChecksum(corrupted) == r;
    var data := ChecksumInput(source, dest, seg);
    CorruptedChecksumInput(source, dest, seg, i, b);
    ChecksumInputEven(source, dest, seg);
    PseudoHeader.BuildIpv4(source, dest, |seg|);
    assert data[12 + i] == ZeroedCopy(seg)[i] == seg[i] == sealed[i];
    ChecksumDetectsByteChange(data, 12 + i, b);
    assert Recomputed(source, dest, corrupted) == Checksum(data[12 + i := b]);
  }

  /** The checksummed bytes of a sealed segment with byte `i` changed: byte `12 + i` changes. */
  lemma CorruptedChecksumInput(source: seq<Byte>, dest: seq<Byte>, seg: seq<Byte>, i: nat, b: Byte)
    requires |source| == 4 && |dest| == 4 && 18 <= |seg| < 0x1_0000
    requires i < |seg| && i != 16 && i != 17
    ensures ChecksumInput(source, dest, WithChecksum(seg, Recomputed(source, dest, seg))[i := b])
            == ChecksumInput(source, dest, seg)[12 + i := b]
  {
    var r := Recomputed(source, dest, seg);
    var sealed := WithChecksum(seg, r);
    ZeroedCopyIgnoresChecksumField(seg, r);
    ZeroedCopyUpdate(sealed, i, b);
    var header := PseudoHeader.Build(source, dest, |seg|);
    assert ChecksumInput(source, dest, seg) == header + ZeroedCopy(seg);
    assert ChecksumInput(source, dest, sealed[i := b]) == header + ZeroedCopy(seg)[i := b];
  }

  // ---------------------------------------------------------------------------------
  // The same verdict with the RFC 1071 checksum, whose carry is folded until none remains.
  // ---------------------------------------------------------------------------------

  /** The checksum a sender following RFC 1071 puts in the segment. */
  function RfcRecomputed(source: seq<Byte>, dest: seq<Byte>, seg: seq<Byte>): (c: nat)
    requires |seg| < 0x1_0000
    ensures c <= 0xFFFF
    ensures (c + WordSum(ChecksumInput(source, dest, seg))) % 0xFFFF == 0
  {
    RfcChecksum(ChecksumInput(source, dest, seg))
  }

  /** The verdict with the RFC checksum in place of the once-folded one. */
  function RfcVerdict(source: seq<Byte>, dest: seq<Byte>, seg: seq<Byte>): (pass: bool)
    requires |seg| < 0x1_0000
    ensures |seg| >= 18 ==>
              (pass <==> seg[16] as int * 256 + seg[17] == RfcRecomputed(source, dest, seg))
  {
    RfcRecomputed(source, dest, seg) == StoredChecksum(seg)
  }

  /** The corrected round trip: a segment sealed with the RFC checksum passes it. */
  lemma RfcSealedSegmentPasses(source: seq<Byte>, dest: seq<Byte>, seg: seq<Byte>, c: nat)
    requires 18 <= |seg| < 0x1_0000 && c < 0x1_0000
    ensures RfcVerdict(source, dest, WithChecksum(seg, c)) <==> c == RfcRecomputed(source, dest, seg)
  {
    ZeroedCopyIgnoresChecksumField(seg, c);
  }

  /** Without a second carry the two verdicts agree. */
  lemma VerdictsAgreeWithoutCarry(source: seq<Byte>, dest: seq<Byte>, seg: seq<Byte>)
    requires |seg| < 0x1_0000
    requires FoldOnce(WordSum(ChecksumInput(source, dest, seg))) < 0x1_0000
    ensures Verdict(source, dest, seg) <==> RfcVerdict(source, dest, seg)
  {
    SingleFoldSufficesWithoutCarry(ChecksumInput(source, dest, seg));
  }

  /**
   * With a second carry, a segment that a correct sender sealed fails the code's check:
   * the once-folded checksum is one more than the one the segment carries.
   */
  lemma RfcSealedFailsOnSecondCarry(source: seq<Byte>, dest: seq<Byte>, seg: seq<Byte>)
    requires 18 <= |seg| < 0x1_0000
    requires 0x1_0000 <= FoldOnce(WordSum(ChecksumInput(source, dest, seg))) < 0x1_FFFF
    ensures RfcVerdict(source, dest, WithChecksum(seg, RfcRecomputed(source, dest, seg)))
    ensures !Verdict(source, dest, WithChecksum(seg, RfcRecomputed(source, dest, seg)))
  {
    var c := RfcRecomputed(source, dest, seg);
    RfcSealedSegmentPasses(source, dest, seg, c);
    SealedSegmentPasses(source, dest, seg, c);
    SingleFoldMissesCarry(ChecksumInput(source, dest, seg));
  }

  /** Between all-zero addresses the pseudo-header adds 0x0006 and the segment length. */
  lemma ZeroAddressHeaderSum(source: seq<Byte>, dest: seq<Byte>, tcpLength: nat)
    requires source == [0, 0, 0, 0] && dest == [0, 0, 0, 0] && tcpLength < 0x1_0000
    ensures WordSum(PseudoHeader.Build(source, dest, tcpLength)) == 6 + tcpLength
  {
    var header := PseudoHeader.Build(source, dest, tcpLength);
    PseudoHeader.BuildIpv4(source, dest, tcpLength);
    var addresses, rest := header[..8], header[8..];
    assert header == addresses + rest;
    WordSumAppend(addresses, rest);
    WordSumZeros(addresses);
    WordSumPrependWord(rest);
    WordSumPrependWord(rest[2..]);
    assert rest[2..][2..] == [];
  }

  /**
   * A 20-byte segment that reaches the second carry, between all-zero addresses: the
   * pseudo-header adds 0x0006 + 0x0014, the segment adds 0xFFFF + 0xFFE6, and the total
   * is 0x1FFFF.
   */
  lemma SecondCarrySum(source: seq<Byte>, dest: seq<Byte>, seg: seq<Byte>)
    requires source == [0, 0, 0, 0] && dest == [0, 0, 0, 0]
    requires |seg| == 20 && seg[0] == 0xFF && seg[1] == 0xFF && seg[2] == 0xFF && seg[3] == 0xE6
    requires forall k :: 4 <= k < 20 ==> seg[k] == 0
    ensures WordSum(ChecksumInput(source, dest, seg)) == 0x1_FFFF
  {
    var header := PseudoHeader.Build(source, dest, |seg|);
    ZeroAddressHeaderSum(source, dest, |seg|);
    assert ZeroedCopy(seg) == seg;
    WordSumAppend(header, seg);
    WordSumPrependWord(seg);
    WordSumPrependWord(seg[2..]);
    WordSumZeros(seg[2..][2..]);
  }

  /**
   * So an actual segment shows the second-carry failure: its RFC 1071 checksum is 0xFFFE,
   * the code recomputes 0xFFFF, and the segment sealed with 0xFFFE gets FAIL.
   */
  lemma SecondCarrySegmentFails(source: seq<Byte>, dest: seq<Byte>, seg: seq<Byte>)
    requires source == [0, 0, 0, 0] && dest == [0, 0, 0, 0]
    requires |seg| == 20 && seg[0] == 0xFF && seg[1] == 0xFF && seg[2] == 0xFF && seg[3] == 0xE6
    requires forall k :: 4 <= k < 20 ==> seg[k] == 0
    ensures Recomputed(source, dest, seg) == 0xFFFF
    ensures RfcRecomputed(source, dest, seg) == 0xFFFE
    ensures RfcVerdict(source, dest, WithChecksum(seg, 0xFFFE))
    ensures !Verdict(source, dest, WithChecksum(seg, 0xFFFE))
  {
    SecondCarrySum(source, dest, seg);
    ChecksumsOfSum1FFFF(ChecksumInput(source, dest, seg));
    RfcSealedFailsOnSecondCarry(source, dest, seg);
  }
}
