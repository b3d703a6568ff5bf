/**
 * The Internet checksum of section 1 of RFC 1071 as TCP_validator.py's compute_checksum
 * computes it: the data split into 2-byte big-endian chunks (a trailing odd byte is a
 * chunk of its own, read as a one-byte number), the chunks summed, the carry folded back
 * ONCE, and the one's complement taken modulo 2^16. A corrected checksum with the
 * repeated fold of the RFC is defined beside it.
 */
module InternetChecksum {
  import opened ByteOrder

  /** The list comprehension of compute_checksum: `int.from_bytes` of each `data[i:i+2]`. */
  function Words(data: seq<Byte>): (w: seq<nat>)
    ensures |w| == (|data| + 1) / 2
    ensures forall i :: 0 <= i < |w| ==> w[i] < 0x1_0000
    decreases |data|
  {
    if data == [] then []
    else
      var chunk := Take(data, 2);
      FromBigEndianShort(chunk);
      [FromBigEndian(chunk)] + Words(Drop(data, 2))
  }

  /**
   * Chunk `i` is the big-endian word of bytes `2i` and `2i + 1`, or the lone byte `2i`
   * when it is the last one.
   */
  lemma {:induction false} WordsAt(data: seq<Byte>, i: nat)
    requires i < (|data| + 1) / 2
    ensures 2 * i + 1 < |data| ==> Words(data)[i] == data[2 * i] as int * 256 + data[2 * i + 1]
    ensures 2 * i + 1 == |data| ==> Words(data)[i] == data[2 * i]
  {
    var chunk := Take(data, 2);
    FromBigEndianShort(chunk);
    if i > 0 {
      var rest := Drop(data, 2);
      WordsAt(rest, i - 1);
      assert Words(data)[i] == Words(rest)[i - 1];
    }
  }

  /** Python's `sum` of a list of non-negative integers; `n` values below 2^16 add up to at most `0xFFFF * n`. */
  function Sum(xs: seq<nat>): (s: nat)
    ensures (forall i :: 0 <= i < |xs| ==> xs[i] < 0x1_0000) ==> s <= 0xFFFF * |xs|
  {
    if xs == [] then 0 else xs[0] + Sum(xs[1..])
  }

  /** The accumulated sum of compute_checksum, before any folding: at most 0xFFFF per chunk. */
  function WordSum(data: seq<Byte>): (s: nat)
    ensures s <= 0xFFFF * ((|data| + 1) / 2)
  {
    Sum(Words(data))
  }

  /**
   * `(s & 0xffff) + (s >> 16)`: the high half added back into the low half, one time. A sum
   * that already fits in 16 bits is left alone; a larger one strictly shrinks.
   */
  function FoldOnce(s: nat): (f: nat)
    ensures s < 0x1_0000 ==> f == s
    ensures s >= 0x1_0000 ==> 0 < f < s
  {
    s % 0x1_0000 + s / 0x1_0000
  }

  /** `~x & 0xffff`: Python's `~x` is `-x - 1`, and masking keeps its value modulo 2^16. */
  function Complement16(x: int): (c: nat)
    ensures c < 0x1_0000
    ensures (c + x) % 0x1_0000 == 0xFFFF
  {
    (-x - 1) % 0x1_0000
  }

  /** compute_checksum: the 16-bit complement of the once-folded sum of the chunks. */
  function Checksum(data: seq<Byte>): (c: nat)
    ensures c <= 0xFFFF
    ensures (c + FoldOnce(WordSum(data))) % 0x1_0000 == 0xFFFF
  {
    Complement16(FoldOnce(WordSum(data)))
  }

  /** A two-byte input is one big-endian word. */
  lemma WordSumPair(hi: Byte, lo: Byte)
    ensures WordSum([hi, lo]) == hi as int * 256 + lo
  {
    var pair: seq<Byte> := [hi, lo];
    FromBigEndianShort(pair);
    assert Take(pair, 2) == pair && Drop(pair, 2) == [];
    assert Words(pair) == [hi as int * 256 + lo];
    assert Sum([hi as int * 256 + lo]) == hi as int * 256 + lo + Sum([]);
  }

  /** A one-byte input is the byte's own value. */
  lemma WordSumSingle(b: Byte)
    ensures WordSum([b]) == b
  {
    var single: seq<Byte> := [b];
    FromBigEndianShort(single);
    assert Take(single, 2) == single && Drop(single, 2) == [];
    assert Words(single) == [b as nat];
    assert Sum([b as nat]) == b + Sum([]);
  }

  /** compute_checksum depends on its input only through the sum of the chunks. */
  lemma ChecksumOfEqualSums(a: seq<Byte>, b: seq<Byte>)
    requires WordSum(a) == WordSum(b)
    ensures Checksum(a) == Checksum(b)
  {
  }

  /** The sum splits at any even boundary: chunking `a + b` chunks `a` and `b` apart. */
  lemma {:induction false} WordSumAppend(a: seq<Byte>, b: seq<Byte>)
    requires |a| % 2 == 0
    ensures WordSum(a + b) == WordSum(a) + WordSum(b)
  {
    if a == [] {
      assert a + b == b;
    } else {
      var rest := a[2..];
      assert Take(a + b, 2) == Take(a, 2);
      assert Drop(a + b, 2) == rest + b;
      assert Drop(a, 2) == rest;
      WordSumAppend(rest, b);
    }
  }

  /** The checksum of nothing: the sum is 0 and `~0 & 0xffff` is 0xFFFF. */
  lemma ChecksumEmpty()
    ensures Checksum([]) == 0xFFFF
  {
  }

  /** Reference sum for even-length data: the big-endian 16-bit words, added from the end. */
  function PairSum(data: seq<Byte>): nat
    requires |data| % 2 == 0
  {
    if data == [] then 0
    else PairSum(data[..|data| - 2]) + data[|data| - 2] as int * 256 + data[|data| - 1]
  }

  /** For even-length data the chunk sum is the sum of the big-endian 16-bit words. */
  lemma {:induction false} WordSumEven(data: seq<Byte>)
    requires |data| % 2 == 0
    ensures WordSum(data) == PairSum(data)
  {
    if data != [] {
      var init := data[..|data| - 2];
      var hi, lo := data[|data| - 2], data[|data| - 1];
      assert data == init + [hi, lo];
      WordSumEven(init);
      WordSumAppend(init, [hi, lo]);
      WordSumPair(hi, lo);
    }
  }

  /** The complement of a non-negative value is 0xFFFF minus its low 16 bits. */
  lemma Complement16OfNat(x: nat)
    ensures Complement16(x) == 0xFFFF - x % 0x1_0000
  {
  }

  /**
   * For even-length data, the checksum is 0xFFFF minus the once-folded word sum taken
   * modulo 2^16: exactly one fold, no more.
   */
  lemma ChecksumEven(data: seq<Byte>)
    requires |data| % 2 == 0
    ensures Checksum(data) == 0xFFFF - FoldOnce(PairSum(data)) % 0x1_0000
  {
    WordSumEven(data);
    Complement16OfNat(FoldOnce(PairSum(data)));
  }

  /** A zero word adds nothing to the sum of even-length data. */
  lemma WordSumAppendZeroWord(data: seq<Byte>)
    requires |data| % 2 == 0
    ensures WordSum(data + [0, 0]) == WordSum(data)
  {
    WordSumAppend(data, [0, 0]);
    WordSumPair(0, 0);
  }

  /** Appending a zero word to even-length data leaves the checksum unchanged. */
  lemma ChecksumAppendZeroWord(data: seq<Byte>)
    requires |data| % 2 == 0
    ensures Checksum(data + [0, 0]) == Checksum(data)
  {
    WordSumAppendZeroWord(data);
    ChecksumOfEqualSums(data + [0, 0], data);
  }

  /**
   * compute_checksum does not pad: after even-length data a lone byte `b` adds `b` to the
   * sum, where the padded pair `b, 0` adds `b * 256`.
   */
  lemma TrailingByteNotPadded(data: seq<Byte>, b: Byte)
    requires |data| % 2 == 0
    ensures WordSum(data + [b]) == WordSum(data) + b
    ensures WordSum(data + [b, 0]) == WordSum(data) + b as int * 256
  {
    WordSumAppend(data, [b]);
    WordSumAppend(data, [b, 0]);
    WordSumSingle(b);
    WordSumPair(b, 0);
  }

  /** The checksum of a single byte `b`: the complement of `b` itself. */
  lemma ChecksumSingle(single: seq<Byte>)
    requires |single| == 1
    ensures Checksum(single) == 0xFFFF - single[0] as int
  {
    assert single == [single[0]];
    WordSumSingle(single[0]);
    Complement16OfNat(single[0]);
  }

  /** The checksum of `b` padded with a zero: the complement of `b * 256`. */
  lemma ChecksumPadded(padded: seq<Byte>)
    requires |padded| == 2 && padded[1] == 0
    ensures Checksum(padded) == 0xFFFF - padded[0] as int * 256
  {
    assert padded == [padded[0], 0];
    WordSumPair(padded[0], 0);
    Complement16OfNat(padded[0] as int * 256);
  }

  /**
   * So a one-byte input and the same byte padded with a zero give different checksums
   * unless the byte is zero: `[0xAB]` gives 0xFF54, `[0xAB, 0x00]` gives 0x54FF.
   */
  lemma OddInputDiffersFromPadded(single: seq<Byte>)
    requires |single| == 1
    ensures single[0] != 0 <==> Checksum(single) != Checksum(single + [0])
  {
    ChecksumSingle(single);
    ChecksumPadded(single + [0]);
  }

  /** Swapping two even-length blocks keeps the sum. */
  lemma WordSumBlocksCommute(a: seq<Byte>, b: seq<Byte>)
    requires |a| % 2 == 0 && |b| % 2 == 0
    ensures WordSum(a + b) == WordSum(b + a)
  {
    WordSumAppend(a, b);
    WordSumAppend(b, a);
  }

  /** Word order does not matter: swapping two even-length blocks keeps the checksum. */
  lemma ChecksumBlocksCommute(a: seq<Byte>, b: seq<Byte>)
    requires |a| % 2 == 0 && |b| % 2 == 0
    ensures Checksum(a + b) == Checksum(b + a)
  {
    WordSumBlocksCommute(a, b);
    ChecksumOfEqualSums(a + b, b + a);
  }

  /**
   * Changing byte `j` of even-length data moves the sum by the change of that byte,
   * weighted 256 when it is the high byte of its word and 1 when it is the low byte.
   */
  lemma WordSumUpdate(data: seq<Byte>, j: nat, b: Byte)
    requires |data| % 2 == 0 && j < |data|
    ensures j % 2 == 0 ==> WordSum(data[j := b]) == WordSum(data) + (b as int - data[j] as int) * 256
    ensures j % 2 == 1 ==> WordSum(data[j := b]) == WordSum(data) + b as int - data[j] as int
  {
    var changed := data[j := b];
    var k := j - j % 2;
    WordSumSplitAt(data, k);
    WordSumSplitAt(changed, k);
    assert changed[..k] == data[..k];
    assert changed[k + 2..] == data[k + 2..];
    if j == k {
      assert changed[k] == b && changed[k + 1] == data[k + 1];
    } else {
      assert changed[k] == data[k] && changed[k + 1] == b;
    }
  }

  /** The sum of even-length data around the word at even offset `k`. */
  lemma WordSumSplitAt(data: seq<Byte>, k: nat)
    requires |data| % 2 == 0 && k % 2 == 0 && k + 2 <= |data|
    ensures WordSum(data) == WordSum(data[..k]) + data[k] as int * 256 + data[k + 1] + WordSum(data[k + 2..])
  {
    assert data == data[..k] + data[k..];
    WordSumAppend(data[..k], data[k..]);
    WordSumPrependWord(data[k..]);
    assert data[k..][2..] == data[k + 2..];
  }


  /**
   * Below 0xFFFF * 2^16 the single fold leaves at most one carry, and two sums closer than
   * 0xFFFF to each other (but different) still fold to different values modulo 2^16.
   */
  lemma FoldOnceSeparates(s: nat, t: nat)
    requires s < t < 0xFFFF * 0x1_0000
    requires t - s < 0xFFFF
    ensures FoldOnce(s) % 0x1_0000 != FoldOnce(t) % 0x1_0000
  {
    var hs, ls := s / 0x1_0000, s % 0x1_0000;
    var ht, lt := t / 0x1_0000, t % 0x1_0000;
    assert s == 0x1_0000 * hs + ls && t == 0x1_0000 * ht + lt;
    assert hs <= ht <= 0xFFFE;
    if ht == hs {
      assert lt - ls == t - s;
    } else {
      assert ht == hs + 1;
    }
  }

  /**
   * The checksum tells apart any two inputs whose sums are below 0xFFFF * 2^16 and differ
   * by a nonzero amount less than 0xFFFF.
   */
  lemma ChecksumSeparates(a: seq<Byte>, b: seq<Byte>)
    requires WordSum(a) < WordSum(b) < 0xFFFF * 0x1_0000
    requires WordSum(b) - WordSum(a) < 0xFFFF
    ensures Checksum(a) != Checksum(b)
  {
    FoldOnceSeparates(WordSum(a), WordSum(b));
    Complement16OfNat(FoldOnce(WordSum(a)));
    Complement16OfNat(FoldOnce(WordSum(b)));
  }

  /**
   * In even-length data of at most 65548 bytes (an IPv4 pseudo-header and a padded segment
   * below 65536 bytes) every change of a single byte changes the checksum.
   */
  lemma ChecksumDetectsByteChange(data: seq<Byte>, j: nat, b: Byte)
    requires |data| % 2 == 0 && |data| <= 12 + 0x1_0000 && j < |data| && b != data[j]
    ensures Checksum(data[j := b]) != Checksum(data)
  {
    var changed := data[j := b];
    WordSumUpdate(data, j, b);
    var words := (|data| + 1) / 2;
    assert words <= 0x8006 && |changed| == |data|;
    assert WordSum(data) <= 0xFFFF * 0x8006 && WordSum(changed) <= 0xFFFF * 0x8006;
    var delta := WordSum(changed) - WordSum(data);
    assert delta != 0 && -0xFFFF < delta < 0xFFFF;
    if WordSum(data) < WordSum(changed) {
      ChecksumSeparates(data, changed);
    } else {
      ChecksumSeparates(changed, data);
    }
  }

  // ---------------------------------------------------------------------------------
  // The RFC 1071 checksum, with the end-around carry folded until none remains.
  // ---------------------------------------------------------------------------------

  /** Adding a multiple of 0xFFFF does not change a value modulo 0xFFFF. */
  lemma {:induction false} ModAddMultiple(x: nat, k: nat)
    ensures (x + 0xFFFF * k) % 0xFFFF == x % 0xFFFF
  {
    if k > 0 {
      ModAddMultiple(x, k - 1);
      assert x + 0xFFFF * k == (x + 0xFFFF * (k - 1)) + 0xFFFF;
    }
  }

  /** One fold keeps the value modulo 0xFFFF, since 0x10000 is 1 modulo 0xFFFF. */
  lemma FoldOnceCongruent(s: nat)
    ensures FoldOnce(s) % 0xFFFF == s % 0xFFFF
    ensures s >= 0x1_0000 ==> 0 < FoldOnce(s) < s
  {
    var hi, lo := s / 0x1_0000, s % 0x1_0000;
    assert s == FoldOnce(s) + 0xFFFF * hi;
    ModAddMultiple(FoldOnce(s), hi);
  }

  /**
   * The end-around carry of the RFC: fold until the value fits in 16 bits. The result is
   * congruent to the sum modulo 0xFFFF, and is zero only for a zero sum.
   */
  function Fold(s: nat): (f: nat)
    ensures f <= 0xFFFF
    ensures f % 0xFFFF == s % 0xFFFF
    ensures f == 0 <==> s == 0
    decreases s
  {
    FoldOnceCongruent(s);
    if s < 0x1_0000 then s else Fold(FoldOnce(s))
  }

  /**
   * The checksum section 1 of RFC 1071 defines: 0xFFFF minus the fully folded sum. In
   * one's-complement arithmetic the data and its checksum add up to zero modulo 0xFFFF.
   */
  function RfcChecksum(data: seq<Byte>): (c: nat)
    ensures c <= 0xFFFF
    ensures (c + WordSum(data)) % 0xFFFF == 0
  {
    FoldComplements(WordSum(data));
    0xFFFF - Fold(WordSum(data))
  }

  /** 0xFFFF minus the folded sum, added to the sum, is a multiple of 0xFFFF. */
  lemma FoldComplements(s: nat)
    ensures (0xFFFF - Fold(s) + s) % 0xFFFF == 0
  {
    var f := Fold(s);
    var qs, qf := s / 0xFFFF, f / 0xFFFF;
    assert s == 0xFFFF * qs + s % 0xFFFF;
    assert f == 0xFFFF * qf + s % 0xFFFF;
    assert qf <= 1;
    assert 0xFFFF - f + s == 0xFFFF * (1 - qf + qs);
    ModAddMultiple(0, 1 - qf + qs);
  }

  /** A leading word adds its big-endian value to the sum of the rest. */
  lemma WordSumPrependWord(data: seq<Byte>)
    requires |data| >= 2
    ensures WordSum(data) == data[0] as int * 256 + data[1] + WordSum(data[2..])
  {
    assert data == data[..2] + data[2..];
    WordSumAppend(data[..2], data[2..]);
    WordSumPair(data[0], data[1]);
    assert data[..2] == [data[0], data[1]];
  }

  /** Zero bytes sum to zero. */
  lemma {:induction false} WordSumZeros(data: seq<Byte>)
    requires |data| % 2 == 0
    requires forall k :: 0 <= k < |data| ==> data[k] == 0
    ensures WordSum(data) == 0
  {
    if data != [] {
      WordSumPrependWord(data);
      WordSumZeros(data[2..]);
    }
  }

  /** The sum behind the counterexample below. */
  lemma WordSumCounterexample(data: seq<Byte>)
    requires data == [0xFF, 0xFF, 0xFF, 0xFF, 0x00, 0x01]
    ensures WordSum(data) == 0x1_FFFF
  {
    WordSumPrependWord(data);
    WordSumPrependWord(data[2..]);
    assert data[2..][2..] == data[4..];
    WordSumPrependWord(data[4..]);
    assert data[4..][2..] == [];
  }

  /** When the single fold leaves no carry, the code's checksum is the RFC's. */
  lemma SingleFoldSufficesWithoutCarry(data: seq<Byte>)
    requires FoldOnce(WordSum(data)) < 0x1_0000
    ensures Checksum(data) == RfcChecksum(data)
  {
    var s := WordSum(data);
    if s >= 0x1_0000 {
      assert Fold(s) == Fold(FoldOnce(s)) == FoldOnce(s);
    }
    Complement16OfNat(FoldOnce(s));
  }

  /**
   * When the single fold produces a new carry that one more fold would absorb, the code's
   * checksum is one more than the RFC's.
   */
  lemma SingleFoldMissesCarry(data: seq<Byte>)
    requires 0x1_0000 <= FoldOnce(WordSum(data)) < 0x1_FFFF
    ensures Checksum(data) == RfcChecksum(data) + 1
  {
    var s := WordSum(data);
    var x := FoldOnce(s);
    FoldOnceCongruent(s);
    FoldOnceCongruent(x);
    assert FoldOnce(x) == x - 0xFFFF;
    assert Fold(s) == x - 0xFFFF;
  }

  /**
   * An input that shows it: the words FFFF, FFFF and 0001 sum to 0x1FFFF, whose single
   * fold 0x10000 still carries. The code gives 0xFFFF where the RFC gives 0xFFFE.
   */
  lemma SingleFoldCounterexample(data: seq<Byte>)
    requires data == [0xFF, 0xFF, 0xFF, 0xFF, 0x00, 0x01]
    ensures Checksum(data) == 0xFFFF
    ensures RfcChecksum(data) == 0xFFFE
  {
    WordSumCounterexample(data);
    ChecksumsOfSum1FFFF(data);
  }

  /** Any data whose words sum to 0x1FFFF: the code gives 0xFFFF, the RFC 0xFFFE. */
  lemma ChecksumsOfSum1FFFF(data: seq<Byte>)
    requires WordSum(data) == 0x1_FFFF
    ensures Checksum(data) == 0xFFFF
    ensures RfcChecksum(data) == 0xFFFE
  {
    SingleFoldMissesCarry(data);
    Complement16OfNat(0x1_0000);
  }
}
