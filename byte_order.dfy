/** Bytes, big-endian integers and Python's slice semantics, as the validator uses them. */
module ByteOrder {

  /** One octet of a `bytes` object. */
  type Byte = b: int | 0 <= b < 256

  /** 256 to the power `k`: one more than the largest value `k` bytes can hold. */
  function Pow256(k: nat): (p: nat)
    ensures p >= 1
  {
    if k == 0 then 1 else 256 * Pow256(k - 1)
  }

  /** `int.from_bytes(bs, byteorder='big')`: the bytes read as one unsigned big-endian number. */
  function FromBigEndian(bs: seq<Byte>): (n: nat)
    ensures n < Pow256(|bs|)
  {
    if bs == [] then 0
    else
      var init := FromBigEndian(bs[..|bs| - 1]);
      assert init <= Pow256(|bs| - 1) - 1;
      init * 256 + bs[|bs| - 1]
  }

  /** `n.to_bytes(2, byteorder='big')`; Python raises OverflowError from 65536 on. */
  function ToBigEndian2(n: nat): (bs: seq<Byte>)
    requires n < 0x1_0000
    ensures |bs| == 2
    ensures FromBigEndian(bs) == n
  {
    [n / 256, n % 256]
  }

  /** What `int.from_bytes` gives for the slices the validator reads: nothing, one byte or two. */
  lemma FromBigEndianShort(bs: seq<Byte>)
    requires |bs| <= 2
    ensures |bs| == 0 ==> FromBigEndian(bs) == 0
    ensures |bs| == 1 ==> FromBigEndian(bs) == bs[0]
    ensures |bs| == 2 ==> FromBigEndian(bs) == bs[0] as int * 256 + bs[1]
  {
    if |bs| == 2 {
      assert bs[..1][..0] == [];
    }
  }

  /** Two bytes are recovered from the number they encode. */
  lemma ToBigEndian2OfFromBigEndian(bs: seq<Byte>)
    requires |bs| == 2
    ensures FromBigEndian(bs) < 0x1_0000
    ensures ToBigEndian2(FromBigEndian(bs)) == bs
  {
    FromBigEndianShort(bs);
  }

  /** Python's `s[:k]` for `k >= 0`: at most the first `k` elements. */
  function Take<T>(s: seq<T>, k: nat): (t: seq<T>)
    ensures |t| == if k <= |s| then k else |s|
    ensures forall i :: 0 <= i < |t| ==> t[i] == s[i]
  {
    if k <= |s| then s[..k] else s
  }

  /** Python's `s[k:]` for `k >= 0`: empty once `k` reaches the length. */
  function Drop<T>(s: seq<T>, k: nat): (t: seq<T>)
    ensures |t| == if k <= |s| then |s| - k else 0
    ensures forall i :: 0 <= i < |t| ==> t[i] == s[k + i]
  {
    if k <= |s| then s[k..] else []
  }
}
