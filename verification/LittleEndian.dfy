/** Little-endian numbers in byte sequences. */
module LittleEndian {
  import opened Ram

  function HalfAt(s: seq<Byte>, i: nat): (h: int)
    requires i + 2 <= |s|
    ensures 0 <= h < 0x1_0000
  {
    var low: int, high: int := s[i], s[i + 1];
    low + 0x100 * high
  }

  function PutHalf(s: seq<Byte>, i: nat, h: int): (r: seq<Byte>)
    requires i + 2 <= |s| && 0 <= h < 0x1_0000
    ensures |r| == |s| && HalfAt(r, i) == h && forall k :: 0 <= k < |s| && k != i && k != i + 1 ==> r[k] == s[k]
  {
    s[i := h % 0x100][i + 1 := h / 0x100]
  }

  function Word(b0: Byte, b1: Byte, b2: Byte, b3: Byte): (w: int)
    ensures 0 <= w < 0x1_0000_0000
  {
    var x0: int, x1: int, x2: int, x3: int := b0, b1, b2, b3;
    x0 + 0x100 * x1 + 0x1_0000 * x2 + 0x100_0000 * x3
  }

  function WordAt(s: seq<Byte>, i: nat): (w: int)
    requires i + 4 <= |s|
    ensures 0 <= w < 0x1_0000_0000
  {
    Word(s[i], s[i + 1], s[i + 2], s[i + 3])
  }

  function PutWord(s: seq<Byte>, i: nat, w: int): (r: seq<Byte>)
    requires i + 4 <= |s| && 0 <= w < 0x1_0000_0000
    ensures |r| == |s|
  {
    s[i := w % 0x100][i + 1 := w / 0x100 % 0x100][i + 2 := w / 0x1_0000 % 0x100][i + 3 := w / 0x100_0000]
  }

  lemma Digits(w: int)
    requires 0 <= w < 0x1_0000_0000
    ensures 0 <= w / 0x100_0000 < 0x100
    ensures w ==
              w % 0x100 + 0x100 * (w / 0x100 % 0x100) + 0x1_0000 * (w / 0x1_0000 % 0x100)
                + 0x100_0000 * (w / 0x100_0000)
  {
    assert w / 0x1_0000 == w / 0x100 / 0x100 && w / 0x100_0000 == w / 0x1_0000 / 0x100;
  }

  lemma PutWordAt(s: seq<Byte>, i: nat, w: int, j: nat)
    requires i + 4 <= |s| && 0 <= w < 0x1_0000_0000 && j + 4 <= |s| && (j == i || j + 4 <= i || i + 4 <= j)
    ensures WordAt(PutWord(s, i, w), j) == if j == i then w else WordAt(s, j)
  {
    if j == i {
      Digits(w);
      var r := PutWord(s, i, w);
      assert r[i] == w % 0x100 && r[i + 1] == w / 0x100 % 0x100 && r[i + 2] == w / 0x1_0000 % 0x100
             && r[i + 3] == w / 0x100_0000;
    } else {
      PutWordOther(s, i, w, j);
    }
  }

  lemma PutWordOther(s: seq<Byte>, i: nat, w: int, j: nat)
    requires i + 4 <= |s| && 0 <= w < 0x1_0000_0000 && j + 4 <= |s| && (j + 4 <= i || i + 4 <= j)
    ensures WordAt(PutWord(s, i, w), j) == WordAt(s, j)
  {
    hide PutWord, Word;
    forall k | j <= k < j + 4 ensures PutWord(s, i, w)[k] == s[k] { PutWordElsewhere(s, i, w, k); }
  }

  lemma PutWordElsewhere(s: seq<Byte>, i: nat, w: int, k: nat)
    requires i + 4 <= |s| && 0 <= w < 0x1_0000_0000 && k < |s| && !(i <= k < i + 4)
    ensures PutWord(s, i, w)[k] == s[k]
  {
  }
}
