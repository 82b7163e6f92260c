/** kernel/net/net_types.hpp, calculate_checksum: the one's complement sum of section 2 of RFC 1071. */
module Checksum {
  import opened Ram

  const TWO32: int := 0x1_0000_0000
  const ONES: int := 0xFFFF

  /** The 16-bit words of a buffer as the little-endian machine reads them, a last odd byte on its own. */
  function WordSum(data: seq<Byte>): nat
  {
    if |data| == 0 then 0
    else if |data| == 1 then data[0] as int
    else data[0] as int + 0x100 * (data[1] as int) + WordSum(data[2..])
  }

  /** The one's complement value of a sum: its residue modulo 65535, with 65535 for a non-zero sum divisible by it. */
  function Fold(sum: nat): (r: nat)
    ensures r <= ONES && (r == 0 <==> sum == 0) && (sum - r) % ONES == 0
  {
    if sum == 0 then 0 else (sum - 1) % ONES + 1
  }

  function Checksum(data: seq<Byte>, initial: nat): nat
  {
    ONES - Fold((initial + WordSum(data)) % TWO32)
  }

  /** One round of carry folding keeps the one's complement value. */
  lemma FoldStep(sum: nat)
    requires sum >= 0x1_0000
    ensures Fold(sum % 0x1_0000 + sum / 0x1_0000) == Fold(sum) && 0 < sum % 0x1_0000 + sum / 0x1_0000 < sum
  {
    var hi, lo := sum / 0x1_0000, sum % 0x1_0000;
    assert sum == lo + hi + ONES * hi;
    SameResidue(lo + hi - 1, hi);
  }

  lemma SameResidue(x: nat, k: nat)
    ensures (x + ONES * k) % ONES == x % ONES
  {
  }

  lemma FoldSmall(sum: nat)
    requires sum <= ONES
    ensures Fold(sum) == sum
  {
  }

  /** `calculate_checksum`, with the 32-bit accumulator. */
  method CalculateChecksum(data: seq<Byte>, initial: nat) returns (checksum: nat)
    requires initial < TWO32
    ensures checksum == Checksum(data, initial)
  {
    hide Fold;
    var sum := initial;
    var i, len := 0, |data|;
    assert data[0..] == data;
    while len > 1
      invariant 0 <= i <= |data| && len == |data| - i && 0 <= sum < TWO32
      invariant (sum + WordSum(data[i..])) % TWO32 == (initial + WordSum(data)) % TWO32
      decreases len
    {
      var word := data[i] as int + 0x100 * (data[i + 1] as int);
      assert data[i..][2..] == data[i + 2..];
      Wraps(sum, word, WordSum(data[i + 2..]));
      sum := (sum + word) % TWO32;
      i, len := i + 2, len - 2;
    }
    if len == 1 {
      Wraps(sum, data[i] as int, 0);
      sum := (sum + data[i] as int) % TWO32;
    }
    while sum / 0x1_0000 != 0
      invariant 0 <= sum < TWO32 && Fold(sum) == Fold((initial + WordSum(data)) % TWO32)
      decreases sum
    {
      FoldStep(sum);
      sum := sum % 0x1_0000 + sum / 0x1_0000;
    }
    FoldSmall(sum);
    checksum := ONES - sum;
  }

  lemma Wraps(sum: nat, word: nat, rest: nat)
    ensures ((sum + word) % TWO32 + rest) % TWO32 == (sum + (word + rest)) % TWO32
  {
  }

  // ---------------------------------------------------------------- the law

  /** A buffer of up to 64 KiB cannot overflow the accumulator. */
  lemma {:induction false} SumBound(data: seq<Byte>)
    ensures WordSum(data) <= ONES * ((|data| + 1) / 2)
  {
    if |data| > 1 { SumBound(data[2..]); }
  }

  /** A byte counts once at an even offset and 256 times at an odd one, the last byte of an odd buffer included. */
  lemma {:induction false} ByteCounts(data: seq<Byte>, i: nat, b: Byte)
    requires i < |data|
    ensures WordSum(data[i := b]) == WordSum(data) + (b as int - data[i] as int) * (if i % 2 == 0 then 1 else 0x100)
  {
    if i >= 2 {
      ByteCounts(data[2..], i - 2, b);
      assert data[i := b][2..] == data[2..][i - 2 := b];
    } else if |data| >= 2 {
      assert data[i := b][2..] == data[2..];
    }
  }

  lemma {:induction false} ZeroesCountNothing(data: seq<Byte>)
    requires forall i :: 0 <= i < |data| ==> data[i] == 0
    ensures WordSum(data) == 0
  {
    if |data| > 1 { ZeroesCountNothing(data[2..]); }
  }

  /** A buffer has the sum of the buffer with a zero byte behind it: an odd one counts as padded. */
  lemma {:induction false} PaddingCountsNothing(data: seq<Byte>)
    ensures WordSum(data + [0]) == WordSum(data)
  {
    if |data| > 1 {
      PaddingCountsNothing(data[2..]);
      assert (data + [0])[2..] == data[2..] + [0];
    }
  }

  lemma OddIsPadded(data: seq<Byte>, initial: nat)
    ensures Checksum(data, initial) == Checksum(data + [0], initial)
  {
    PaddingCountsNothing(data);
  }

  /** Buffers in a row: behind an even one the words fall as they do alone. */
  lemma {:induction false} SumOfRow(a: seq<Byte>, b: seq<Byte>)
    requires |a| % 2 == 0
    ensures WordSum(a + b) == WordSum(a) + WordSum(b)
  {
    if a == [] {
      assert a + b == b;
    } else {
      SumOfRow(a[2..], b);
      assert (a + b)[2..] == a[2..] + b;
    }
  }

  /** The checksum makes the one's complement sum all ones; it is all ones itself exactly over nothing but zeroes. */
  lemma ChecksumCompletes(data: seq<Byte>, initial: nat)
    requires initial + WordSum(data) < TWO32
    ensures var c := Checksum(data, initial);
            && 0 <= c <= ONES && (initial + WordSum(data) + c) % ONES == 0
            && (c == ONES <==> initial + WordSum(data) == 0)
  {
    var sum := initial + WordSum(data);
    Multiple(sum - Fold(sum));
  }

  /** Any one byte changed makes a buffer that verified fail. */
  lemma OneByteDetected(data: seq<Byte>, initial: nat, i: nat, b: Byte)
    requires |data| <= 0x1_0000 && initial <= 6 * ONES && i < |data| && b != data[i] && Checksum(data, initial) == 0
    ensures Checksum(data[i := b], initial) != 0
  {
    hide Checksum;
    SumBound(data);
    SumBound(data[i := b]);
    ByteCounts(data, i, b);
    AcceptedExactly(data, initial);
    AcceptedExactly(data[i := b], initial);
    NotAMultiple(initial + WordSum(data), (b as int - data[i] as int) * (if i % 2 == 0 then 1 else 0x100));
  }

  lemma NotAMultiple(x: int, d: int)
    requires x % ONES == 0 && d != 0 && -ONES < d < ONES
    ensures (x + d) % ONES != 0
  {
  }

  /** Storing a value in a zeroed field at an even offset adds it to the sum. */
  lemma {:induction false} SumOfStored(data: seq<Byte>, i: nat, value: nat)
    requires i % 2 == 0 && i + 1 < |data| && data[i] == 0 && data[i + 1] == 0 && value <= ONES
    ensures WordSum(data[i := value % 0x100][i + 1 := value / 0x100]) == WordSum(data) + value
  {
    var stored := data[i := value % 0x100][i + 1 := value / 0x100];
    if i == 0 {
      assert stored[2..] == data[2..];
    } else {
      SumOfStored(data[2..], i - 2, value);
      assert stored[2..] == data[2..][i - 2 := value % 0x100][i - 1 := value / 0x100];
    }
  }

  /** A sum checks out exactly when it is a positive multiple of 65535. */
  lemma AcceptedExactly(data: seq<Byte>, initial: nat)
    requires initial + WordSum(data) < TWO32
    ensures Checksum(data, initial) == 0 <==> initial + WordSum(data) > 0 && (initial + WordSum(data)) % ONES == 0
  {
    var sum := initial + WordSum(data);
    if sum > 0 && sum % ONES == 0 {
      assert sum - 1 == ONES * (sum / ONES - 1) + (ONES - 1);
      SameResidue(ONES - 1, sum / ONES - 1);
    }
  }

  /** The checksum stored in its zeroed field makes the recomputed checksum zero, with any pseudo-header sum. */
  lemma StoredChecksumVerifies(data: seq<Byte>, i: nat, initial: nat)
    requires |data| <= 0x1_0000 && initial <= 6 * ONES
    requires i % 2 == 0 && i + 1 < |data| && data[i] == 0 && data[i + 1] == 0
    ensures var c := Checksum(data, initial);
            c <= ONES && Checksum(data[i := c % 0x100][i + 1 := c / 0x100], initial) == 0
  {
    SumBound(data);
    var sum, c := initial + WordSum(data), Checksum(data, initial);
    SumOfStored(data, i, c);
    var stored := data[i := c % 0x100][i + 1 := c / 0x100];
    assert initial + WordSum(stored) == sum - Fold(sum) + ONES;
    AcceptedExactly(stored, initial);
    Multiple(sum - Fold(sum));
  }

  lemma Multiple(x: nat)
    requires x % ONES == 0
    ensures (x + ONES) % ONES == 0
  {
  }

  function Swapped(x: nat): (r: nat)
    requires x <= ONES
    ensures r <= ONES
  {
    x % 0x100 * 0x100 + x / 0x100
  }

  /** kernel/net/tcp.cpp, calculate_tcp_checksum: the words of the pseudo-header. */
  function PseudoHeader(src: nat, dst: nat, len: nat): (sum: nat)
    requires src < TWO32 && dst < TWO32 && len <= ONES
    ensures sum <= 6 * ONES
  {
    src % 0x1_0000 + src / 0x1_0000 + dst % 0x1_0000 + dst / 0x1_0000 + Swapped(6) + Swapped(len)
  }

  /** The pseudo-header of section 3.1 of RFC 793 as it lies in memory: both addresses, zero, protocol 6, length. */
  function PseudoBytes(src: nat, dst: nat, len: nat): (bytes: seq<Byte>)
    requires src < TWO32 && dst < TWO32 && len <= ONES
    ensures |bytes| == 12
  {
    [src % 0x100, src / 0x100 % 0x100, src / 0x1_0000 % 0x100, src / 0x100_0000,
     dst % 0x100, dst / 0x100 % 0x100, dst / 0x1_0000 % 0x100, dst / 0x100_0000,
     0, 6, len / 0x100, len % 0x100]
  }

  /** The sum the segment's checksum starts from is that of the pseudo-header in front of it. */
  lemma PseudoHeaderInFront(src: nat, dst: nat, segment: seq<Byte>)
    requires src < TWO32 && dst < TWO32 && |segment| <= ONES
    ensures Checksum(segment, PseudoHeader(src, dst, |segment|)) ==
              Checksum(PseudoBytes(src, dst, |segment|) + segment, 0)
  {
    hide PseudoHeader, PseudoBytes, Fold;
    PseudoSum(src, dst, |segment|);
    SumOfRow(PseudoBytes(src, dst, |segment|), segment);
  }

  lemma PseudoSum(src: nat, dst: nat, len: nat)
    requires src < TWO32 && dst < TWO32 && len <= ONES
    ensures WordSum(PseudoBytes(src, dst, len)) == PseudoHeader(src, dst, len)
  {
    hide WordSum;
    SumOfTwelve(PseudoBytes(src, dst, len));
    Halves(src);
    Halves(dst);
  }

  lemma Halves(x: nat)
    requires x < TWO32
    ensures x % 0x1_0000 == x % 0x100 + 0x100 * (x / 0x100 % 0x100)
    ensures x / 0x1_0000 == x / 0x1_0000 % 0x100 + 0x100 * (x / 0x100_0000)
  {
  }

  lemma SumOfTwelve(h: seq<Byte>)
    requires |h| == 12
    ensures WordSum(h) ==
              h[0] as int + h[2] as int + h[4] as int + h[6] as int + h[8] as int + h[10] as int
              + 0x100 * (h[1] as int + h[3] as int + h[5] as int + h[7] as int + h[9] as int + h[11] as int)
  {
    assert h[10..][2..] == [] && h[8..][2..] == h[10..] && h[6..][2..] == h[8..];
    assert WordSum(h[10..]) == h[10] as int + 0x100 * (h[11] as int);
    assert WordSum(h[8..]) == h[8] as int + 0x100 * (h[9] as int) + WordSum(h[10..]);
    assert WordSum(h[6..]) == h[6] as int + 0x100 * (h[7] as int) + WordSum(h[8..]);
    assert h[4..][2..] == h[6..] && h[2..][2..] == h[4..];
    assert WordSum(h[4..]) == h[4] as int + 0x100 * (h[5] as int) + WordSum(h[6..]);
    assert WordSum(h[2..]) == h[2] as int + 0x100 * (h[3] as int) + WordSum(h[4..]);
  }

  /** A segment whose checksum field was filled in over the pseudo-header verifies at the receiver. */
  lemma SegmentVerifies(src: nat, dst: nat, segment: seq<Byte>, i: nat)
    requires src < TWO32 && dst < TWO32 && |segment| <= ONES
    requires i % 2 == 0 && i + 1 < |segment| && segment[i] == 0 && segment[i + 1] == 0
    ensures var initial := PseudoHeader(src, dst, |segment|);
            var c := Checksum(segment, initial);
            c <= ONES && Checksum(segment[i := c % 0x100][i + 1 := c / 0x100], initial) == 0
  {
    StoredChecksumVerifies(segment, i, PseudoHeader(src, dst, |segment|));
  }
}
