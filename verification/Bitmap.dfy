/** Bitmap words (kernel/memory/pmm.hpp) and counting over bit sequences. */
module Bitmap {

  /** A `uint64_t` bitmap word as its bits, least significant first. */
  type Word = w: seq<bool> | |w| == 64 witness seq(64, _ => true)

  function AllOnes(): Word { seq(64, _ => true) }

  lemma NotFull(w: Word)
    requires w != AllOnes()
    ensures exists j: nat :: j < 64 && !w[j]
  {
  }

  /** `__builtin_ctzll(~w)`: the lowest clear bit, searched from `from` upwards. */
  function LowestClear(w: Word, from: nat): (i: nat)
    requires from < 64 && exists j: nat :: from <= j < 64 && !w[j]
    ensures from <= i < 64 && !w[i]
    ensures forall j: nat :: from <= j < i ==> w[j]
    decreases 64 - from
  {
    if !w[from] then from else LowestClear(w, from + 1)
  }

  // ---------------------------------------------------------------- counting

  function Count(bits: seq<bool>, value: bool): nat
  {
    if bits == [] then 0
    else Count(bits[..|bits|-1], value) + if bits[|bits|-1] == value then 1 else 0
  }

  lemma {:induction false} CountUpdate(bits: seq<bool>, i: nat, b: bool)
    requires i < |bits| && bits[i] != b
    ensures Count(bits[i := b], b) == Count(bits, b) + 1
    ensures Count(bits[i := b], !b) == Count(bits, !b) - 1
  {
    var n := |bits| - 1;
    if i == n {
      assert bits[i := b][..n] == bits[..n];
    } else {
      assert bits[i := b][..n] == bits[..n][i := b];
      CountUpdate(bits[..n], i, b);
    }
  }

  lemma {:induction false} CountTotal(bits: seq<bool>)
    ensures Count(bits, true) + Count(bits, false) == |bits|
  {
    if bits != [] { CountTotal(bits[..|bits|-1]); }
  }

  lemma {:induction false} CountPositive(bits: seq<bool>, b: bool)
    ensures Count(bits, b) > 0 <==> exists i :: 0 <= i < |bits| && bits[i] == b
  {
    if bits != [] {
      var n := |bits| - 1;
      CountPositive(bits[..n], b);
      if i :| 0 <= i < n && bits[..n][i] == b { assert bits[i] == b; }
      if i :| 0 <= i < |bits| && bits[i] == b { assert i == n || bits[..n][i] == b; }
    }
  }

  /** Clear bits of `used` are counted among the set bits of `usable` that contain them. */
  lemma {:induction false} CountWithin(used: seq<bool>, usable: seq<bool>)
    requires |used| == |usable| && forall i :: 0 <= i < |used| ==> used[i] || usable[i]
    ensures Count(used, false) <= Count(usable, true)
    ensures (exists i :: 0 <= i < |used| && used[i] && usable[i]) ==> Count(used, false) < Count(usable, true)
  {
    if used != [] {
      var n := |used| - 1;
      CountWithin(used[..n], usable[..n]);
      if i :| 0 <= i < |used| && used[i] && usable[i] && i < n {
        assert used[..n][i] && usable[..n][i];
      }
    }
  }
}
