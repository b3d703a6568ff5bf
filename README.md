# TCP checksum validator, modelled in Dafny

This project models the checksum logic of `TCP_validator.py`, a tool that checks captured
TCP segments. For each segment it builds the TCP pseudo-header of section 3.1 of RFC 793
(source address, destination address, a zero byte, protocol 6, and the segment length as
two big-endian bytes). It then computes the Internet checksum of section 1 of RFC 1071 over
the pseudo-header followed by a copy of the segment. In that copy the checksum field
(offsets 16 and 17) is zeroed, and one zero byte is appended when the segment length is
odd. The segment passes when the result equals the checksum stored in the segment.

Everything is pure, so the model is functions and lemmas over byte sequences, in four
modules:

- `ByteOrder` (`byte_order.dfy`): bytes, `int.from_bytes(..., 'big')`,
  `n.to_bytes(2, 'big')`, and Python's `s[:k]` / `s[k:]` slices.
- `PseudoHeader` (`pseudo_header.dfy`): `generate_pseudo_header`.
- `InternetChecksum` (`internet_checksum.dfy`): `compute_checksum` exactly as written, with
  a single carry fold and no padding of odd input. It also holds the RFC 1071 checksum
  with the repeated fold (see Findings).
- `SegmentValidator` (`segment_validator.dfy`): the per-segment steps of `validate`, the
  verdict `Verdict(source, dest, segment)`, and the batch `Verdicts`.

Where RFC 1071 and the code disagree, the model follows the code:

- RFC 1071 pads odd-length input with a zero byte; `compute_checksum` does not. A trailing lone byte `b` adds `b` to
  the sum, not `b * 256`, so `[0xAB]` and `[0xAB, 0x00]` give different checksums. Only
  the caller pads, and it pads the zeroed segment copy.
- RFC 1071 folds the end-around carry in a loop until none remains; the code folds it once.
- The code raises no typed errors for malformed addresses or short segments. Addresses of
  any length are concatenated as they are. Python's slices make a short segment's zeroed
  copy and stored checksum well defined, and the model keeps those semantics. The one
  failure in the per-segment logic is `to_bytes` raising for a segment of 65536 bytes or
  more. It becomes the precondition `|seg| < 0x1_0000`. The batch itself fails when it is
  empty (line 57 has no addresses to unpack), which becomes the precondition
  `|units| > 0` of `Verdicts`.

## Model

| member | source | states |
|---|---|---|
| `ByteOrder.FromBigEndian` | TCP_validator.py:77 | `int.from_bytes(bs, 'big')` of `k` bytes is below 256^k |
| `ByteOrder.FromBigEndianShort` | TCP_validator.py:33 | `int.from_bytes` of 0, 1 or 2 bytes, big-endian, is 0, the byte, or `hi * 256 + lo` |
| `ByteOrder.ToBigEndian2` | TCP_validator.py:19 | `to_bytes(2, 'big')` gives two bytes that decode back to the length (defined below 65536, where Python does not raise) |
| `ByteOrder.ToBigEndian2OfFromBigEndian` | TCP_validator.py:19 | the other direction of that round trip: two bytes are recovered from the number they encode |
| `PseudoHeader.Build` | TCP_validator.py:4-20 | the pseudo-header is source, destination, `0x00`, `0x06`, then two bytes that decode to the segment length; its length is the two address lengths plus 4 |
| `PseudoHeader.BuildIpv4` | TCP_validator.py:14-20 | with 4-byte addresses: exactly 12 bytes; bytes 0-3 the source, 4-7 the destination, byte 8 is 0, byte 9 is 6, bytes 10-11 the big-endian length |
| `PseudoHeader.BuildIpv4Injective` | TCP_validator.py:14-20 | two IPv4 pseudo-headers are equal only when their addresses and lengths are equal |
| `InternetChecksum.Words` | TCP_validator.py:33 | the chunk list of `n` bytes has `(n + 1) / 2` entries, each below 65536 |
| `InternetChecksum.WordsAt` | TCP_validator.py:33 | chunk `i` is `data[2i] * 256 + data[2i+1]`, and an odd trailing byte is a chunk worth just that byte |
| `InternetChecksum.Sum` | TCP_validator.py:35 | `sum` of `n` values each below 2^16 is at most `0xFFFF * n` |
| `InternetChecksum.WordSum` | TCP_validator.py:33-35 | the unfolded sum of `n` bytes is at most 0xFFFF per chunk, `0xFFFF * ((n + 1) / 2)` |
| `InternetChecksum.FoldOnce` | TCP_validator.py:37 | one fold leaves a sum below 2^16 unchanged and strictly shrinks a larger one without reaching zero |
| `InternetChecksum.Complement16` | TCP_validator.py:39 | `~x & 0xffff` lies in [0, 0xFFFF] and adds to `x` to give 0xFFFF modulo 2^16 |
| `InternetChecksum.Checksum` | TCP_validator.py:23-39 | the result lies in [0, 0xFFFF] and is the 16-bit one's complement of the once-folded sum |
| `InternetChecksum.WordSumPair` | TCP_validator.py:33-35 | a two-byte input sums to its big-endian word |
| `InternetChecksum.WordSumSingle` | TCP_validator.py:33-35 | a one-byte input sums to the byte itself |
| `InternetChecksum.ChecksumOfEqualSums` | TCP_validator.py:33-39 | inputs with equal chunk sums have equal checksums |
| `InternetChecksum.WordSumAppend` | TCP_validator.py:33-35 | the sum of `a + b` is the sum of `a` plus the sum of `b` when `a` has even length |
| `InternetChecksum.ChecksumEmpty` | TCP_validator.py:33-39 | the checksum of the empty input is 0xFFFF |
| `InternetChecksum.WordSumEven` | TCP_validator.py:33-35 | for even-length data the chunk sum equals an independent sum of the 16-bit big-endian words |
| `InternetChecksum.Complement16OfNat` | TCP_validator.py:39 | for a non-negative value, `~x & 0xffff` is `0xFFFF - x % 2^16` |
| `InternetChecksum.ChecksumEven` | TCP_validator.py:33-39 | for even-length data the checksum is `0xFFFF - ((S % 2^16) + S / 2^16) % 2^16`, with S the word sum: one fold only |
| `InternetChecksum.WordSumAppendZeroWord` | TCP_validator.py:33-35 | appending `0x00 0x00` to even-length data leaves the sum unchanged |
| `InternetChecksum.ChecksumAppendZeroWord` | TCP_validator.py:33-39 | appending `0x00 0x00` to even-length data leaves the checksum unchanged |
| `InternetChecksum.TrailingByteNotPadded` | TCP_validator.py:33 | after even-length data a lone byte `b` adds `b` to the sum, where the pair `b, 0` adds `b * 256` |
| `InternetChecksum.ChecksumSingle` | TCP_validator.py:33-39 | the checksum of `[b]` is `0xFFFF - b` |
| `InternetChecksum.ChecksumPadded` | TCP_validator.py:33-39 | the checksum of `[b, 0]` is `0xFFFF - b * 256` |
| `InternetChecksum.OddInputDiffersFromPadded` | TCP_validator.py:33-39 | `[b]` and `[b, 0]` have different checksums exactly when `b` is not zero |
| `InternetChecksum.WordSumBlocksCommute` | TCP_validator.py:33-35 | swapping two even-length blocks keeps the sum |
| `InternetChecksum.ChecksumBlocksCommute` | TCP_validator.py:33-39 | swapping two even-length blocks keeps the checksum: word order does not matter |
| `InternetChecksum.WordSumSplitAt` | TCP_validator.py:33-35 | the sum of even-length data is the sum before offset `k`, plus the word at `k`, plus the sum after it |
| `InternetChecksum.WordSumUpdate` | TCP_validator.py:33-35 | changing byte `j` of even-length data moves the sum by the byte's change times 256 (even `j`) or times 1 (odd `j`) |
| `InternetChecksum.FoldOnceSeparates` | TCP_validator.py:37 | below 0xFFFF * 2^16, two different sums less than 0xFFFF apart fold once to different values modulo 2^16 |
| `InternetChecksum.ChecksumSeparates` | TCP_validator.py:33-39 | two inputs whose sums are below 0xFFFF * 2^16, different and less than 0xFFFF apart have different checksums |
| `InternetChecksum.ChecksumDetectsByteChange` | TCP_validator.py:33-39 | in even-length data of at most 65548 bytes, changing any one byte changes the checksum |
| `InternetChecksum.FoldOnceCongruent` | TCP_validator.py:37 | one fold keeps the sum modulo 0xFFFF and, while there is a carry, makes it smaller but not zero |
| `InternetChecksum.Fold` | TCP_validator.py:37 | the repeated fold gives a 16-bit value congruent to the sum modulo 0xFFFF, zero only for a zero sum |
| `InternetChecksum.RfcChecksum` | TCP_validator.py:37-39 | the RFC checksum is at most 0xFFFF, and the checksum plus the data sum is 0 modulo 0xFFFF |
| `InternetChecksum.FoldComplements` | TCP_validator.py:37-39 | 0xFFFF minus the fully folded sum, added to the sum, is a multiple of 0xFFFF |
| `InternetChecksum.WordSumPrependWord` | TCP_validator.py:33-35 | a leading pair of bytes adds its big-endian word to the sum of the rest |
| `InternetChecksum.WordSumCounterexample` | TCP_validator.py:33-35 | the words FFFF, FFFF, 0001 sum to 0x1FFFF |
| `InternetChecksum.SingleFoldSufficesWithoutCarry` | TCP_validator.py:37 | when the single fold leaves no carry, the code's checksum equals the RFC checksum |
| `InternetChecksum.SingleFoldMissesCarry` | TCP_validator.py:37 | when the single fold leaves a carry that one more fold absorbs, the code's checksum is the RFC checksum plus one |
| `InternetChecksum.WordSumZeros` | TCP_validator.py:33-35 | an even number of zero bytes sums to zero |
| `InternetChecksum.ChecksumsOfSum1FFFF` | TCP_validator.py:37-39 | for any data whose chunks sum to 0x1FFFF the code gives 0xFFFF and the RFC gives 0xFFFE |
| `InternetChecksum.SingleFoldCounterexample` | TCP_validator.py:37 | for `FF FF FF FF 00 01` the code gives 0xFFFF and the RFC gives 0xFFFE |
| `SegmentValidator.ZeroedCopy` | TCP_validator.py:71 | for a segment of at least 18 bytes the copy has the same length plus one if odd; bytes 16 and 17 are zero; every other byte is the original; the extra byte is zero; the copy has odd length only for a 17-byte segment |
| `SegmentValidator.StoredChecksum` | TCP_validator.py:77 | the stored checksum is below 65536 and is the big-endian value of bytes 16-17 |
| `SegmentValidator.ChecksumInput` | TCP_validator.py:68-74 | the data handed to `compute_checksum` is the addresses plus 4 bytes longer than the zeroed copy, and its length field holds the unpadded segment length |
| `SegmentValidator.Recomputed` | TCP_validator.py:68-74 | the recomputed checksum of the pseudo-header and the zeroed copy lies in [0, 0xFFFF] |
| `SegmentValidator.Verdict` | TCP_validator.py:77-80 | for a segment of at least 18 bytes, PASS exactly when bytes 16-17 read big-endian equal the recomputed checksum |
| `SegmentValidator.Verdicts` | TCP_validator.py:57-80 | a non-empty batch of N units gives N verdicts, the k-th being the verdict of the k-th unit |
| `SegmentValidator.WithChecksum` | TCP_validator.py:77 | writing `c` into the checksum field keeps the length and every other byte, and the stored checksum becomes `c` |
| `SegmentValidator.ChecksumInputEven` | TCP_validator.py:68-74 | with addresses of even total length and a segment not of 17 bytes, the checksummed data has even length; for segments of 18 bytes or more it is the addresses plus 4 plus the padded length |
| `SegmentValidator.LengthFieldUnpadded` | TCP_validator.py:65-71 | bytes 10-11 of the checksummed data encode the unpadded segment length, while an odd segment's copy is one byte longer |
| `SegmentValidator.ZeroedCopyIgnoresChecksumField` | TCP_validator.py:71 | the zeroed copy is the same whatever the checksum field holds |
| `SegmentValidator.RecomputedIgnoresChecksumField` | TCP_validator.py:68-74 | the recomputed checksum is the same whatever the checksum field holds |
| `SegmentValidator.SealedSegmentPasses` | TCP_validator.py:71-80 | a segment with `c` written into its checksum field passes exactly when `c` is the recomputed checksum |
| `SegmentValidator.WithStoredChecksum` | TCP_validator.py:77 | writing back the checksum a segment carries gives the same segment |
| `SegmentValidator.VerdictIffSealed` | TCP_validator.py:71-80 | a segment passes exactly when writing its recomputed checksum into it changes nothing |
| `SegmentValidator.ZeroedCopyUpdate` | TCP_validator.py:71 | changing a byte outside the checksum field changes the same byte of the zeroed copy |
| `SegmentValidator.CorruptedChecksumInput` | TCP_validator.py:68-74 | in a sealed IPv4 segment, changing byte `i` outside the checksum field changes byte `12 + i` of the checksummed data and nothing else |
| `SegmentValidator.SingleByteCorruptionFails` | TCP_validator.py:71-80 | a sealed IPv4 segment with any one byte outside the checksum field changed gets FAIL |
| `SegmentValidator.RfcRecomputed` | TCP_validator.py:74 | the RFC checksum of the pseudo-header and zeroed copy is at most 0xFFFF and complements the data sum modulo 0xFFFF |
| `SegmentValidator.RfcVerdict` | TCP_validator.py:77-80 | for a segment of at least 18 bytes, the corrected verdict passes exactly when bytes 16-17 equal the RFC checksum |
| `SegmentValidator.RfcSealedSegmentPasses` | TCP_validator.py:71-80 | with the RFC checksum, a segment carrying `c` passes exactly when `c` is the RFC checksum |
| `SegmentValidator.VerdictsAgreeWithoutCarry` | TCP_validator.py:37 | without a second carry, the code's verdict and the RFC verdict agree |
| `SegmentValidator.RfcSealedFailsOnSecondCarry` | TCP_validator.py:37 | with a second carry, a segment sealed by an RFC 1071 sender passes the RFC verdict and fails the code's verdict |
| `SegmentValidator.ZeroAddressHeaderSum` | TCP_validator.py:14-19 | between all-zero IPv4 addresses the pseudo-header sums to 6 plus the segment length |
| `SegmentValidator.SecondCarrySum` | TCP_validator.py:68-74 | the segment `FF FF FF E6` followed by 16 zero bytes, between all-zero addresses, makes the checksummed data sum to 0x1FFFF |
| `SegmentValidator.SecondCarrySegmentFails` | TCP_validator.py:37 | for that segment the code recomputes 0xFFFF, the RFC checksum is 0xFFFE, and the segment sealed with 0xFFFE passes the RFC verdict and fails the code's |

`ByteOrder.Take` and `ByteOrder.Drop` are Python's slices. `InternetChecksum.ModAddMultiple`
is an arithmetic helper.

## Findings

| source | as written | input that shows it | evidently intended | confidence | as-written member | corrected member |
|---|---|---|---|---|---|---|
| TCP_validator.py:37 | the end-around carry is folded once, so a fold that itself carries is left in the value that gets complemented | bytes `FF FF FF FF 00 01`: the sum is 0x1FFFF and the single fold gives 0x10000, so the code returns 0xFFFF; a segment whose pseudo-header and zeroed copy sum like this, sealed by a sender following RFC 1071, is reported FAIL | fold until no carry remains (the loop in section 4.1 of RFC 1071), giving 0xFFFE | high; not executed | `InternetChecksum.SingleFoldCounterexample` | `InternetChecksum.RfcChecksum` |

`SegmentValidator.RfcSealedFailsOnSecondCarry` shows the consequence for the verdict, and
`SegmentValidator.SecondCarrySegmentFails` exhibits it on a 20-byte segment: `FF FF FF E6`
and 16 zero bytes between all-zero addresses, sealed with 0xFFFE, is reported FAIL. The
corrected verdict is `SegmentValidator.RfcVerdict`, and its round trip is
`RfcSealedSegmentPasses`. `SegmentValidator.Verdict` keeps the code's single fold,
because it models what the program reports.

## Left out

- Reading `files/tcp_addrs_N.txt` and `files/tcp_data_N.dat` (TCP_validator.py:54, 64): file I/O. The model takes the addresses and the segment bytes as parameters.
- Printing PASS/FAIL (TCP_validator.py:80): output. The model gives the boolean verdict.
- `main` and `np.arange` (TCP_validator.py:83-91): driver code and a foreign library call.
- Parsing dotted-quad strings into bytes (TCP_validator.py:60-61): a thin use of Python built-ins. Addresses are byte sequences, so the `ValueError` raised there for a malformed address or an octet above 255 is not modelled.
- The `OverflowError` that `to_bytes` raises for segments of 65536 bytes or more: a precondition on `PseudoHeader.Build` and the verdict, not an error value, because the program does not handle it.
- Detecting corruption of two or more bytes: such changes can cancel in the sum, so no general statement holds. A single changed byte is proved to fail (`SingleByteCorruptionFails`), and so is a changed checksum field (`SealedSegmentPasses`).
