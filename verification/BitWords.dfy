/** Bit vectors, flat and packed into 64-bit words. */
module BitWords {

  import opened PowersOfTwo

  /** A word is a number below `2^64`; `And` and `Or` act on binary digits. */
  type Word = w: nat | w < Pow2(64)

  function And(a: nat, b: nat): nat {
    if a == 0 || b == 0 then 0 else 2 * And(a / 2, b / 2) + (if a % 2 == 1 && b % 2 == 1 then 1 else 0)
  }

  function Or(a: nat, b: nat): nat
    decreases a + b
  {
    if a == 0 then b
    else if b == 0 then a
    else 2 * Or(a / 2, b / 2) + (if a % 2 == 1 || b % 2 == 1 then 1 else 0)
  }

  /** The mask of one bit of a word: `1 << j`. */
  function Mask(j: nat): nat {
    Pow2(j)
  }

  predicate Bit(w: nat, j: nat) {
    And(w, Mask(j)) != 0
  }

  /** A bit is a binary digit. */
  lemma BitUnfolds(w: nat, j: nat)
    ensures Bit(w, j) <==> if j == 0 then w % 2 == 1 else Bit(w / 2, j - 1)
  {
    if j == 0 {
      assert And(w / 2, 1 / 2) == 0;
      assert And(w, 1) == if w % 2 == 1 then 1 else 0;
    } else {
      assert Mask(j) / 2 == Mask(j - 1) && Mask(j) % 2 == 0;
      assert w > 0 ==> And(w, Mask(j)) == 2 * And(w / 2, Mask(j) / 2);
    }
  }

  /** Bit `j` is the binary digit at place `j`. */
  lemma {:induction false} BitIsDigit(w: nat, j: nat)
    ensures Bit(w, j) <==> (w / Pow2(j)) % 2 == 1
    decreases j
  {
    hide Bit;
    BitUnfolds(w, j);
    if j > 0 {
      BitIsDigit(w / 2, j - 1);
      HalfQuotient(w, Pow2(j - 1));
    }
  }

  lemma HalfQuotient(w: nat, m: nat)
    requires m > 0
    ensures (w / 2) / m == w / (2 * m)
  {
    var h := w / 2;
    Quotient(h, m);
    assert w == (2 * m) * (h / m) + (2 * (h % m) + w % 2) by {
      assert (2 * m) * (h / m) == 2 * (m * (h / m));
    }
    UniqueRemainder(w, 2 * m, h / m, 2 * (h % m) + w % 2);
  }

  lemma OrHalves(a: nat, b: nat)
    ensures Or(a, b) / 2 == Or(a / 2, b / 2)
    ensures Or(a, b) % 2 == 1 <==> a % 2 == 1 || b % 2 == 1
  {
  }

  lemma {:induction false} OrBits(a: nat, b: nat, j: nat)
    ensures Bit(Or(a, b), j) <==> Bit(a, j) || Bit(b, j)
    decreases j
  {
    OrHalves(a, b);
    BitUnfolds(Or(a, b), j);
    BitUnfolds(a, j);
    BitUnfolds(b, j);
    if j > 0 {
      OrBits(a / 2, b / 2, j - 1);
    }
  }

  lemma {:induction false} MaskBits(i: nat, j: nat)
    ensures Bit(Mask(i), j) <==> i == j
    decreases j
  {
    BitUnfolds(Mask(i), j);
    if i > 0 && j > 0 {
      MaskBits(i - 1, j - 1);
    } else if j > 0 {
      ZeroHasNoBits(j - 1);
    }
  }

  /** Or-ing in the mask of bit `i` sets that bit and leaves the others. */
  lemma OrSetsBit(w: nat, i: nat, j: nat)
    ensures Bit(Or(w, Mask(i)), j) <==> Bit(w, j) || i == j
  {
    OrBits(w, Mask(i), j);
    MaskBits(i, j);
  }

  lemma ZeroHasNoBits(j: nat)
    ensures !Bit(0, j)
  {
  }

  /** Masking with ones in the six low places is taking the remainder by 64. */
  lemma LowBits(p: nat)
    ensures And(p, 63) == p % 64
  {
    hide And;
    assert Pow2(6) == 64 by {
      assert Pow2(3) == 8;
      Pow2Adds(3, 3);
    }
    LowPlaces(p, 6);
  }

  lemma {:induction false} LowPlaces(p: nat, k: nat)
    ensures And(p, Pow2(k) - 1) == p % Pow2(k)
  {
    hide And;
    if k == 0 {
      AndOdd(p, 0);
    } else {
      var m := Pow2(k - 1);
      AndOdd(p, m - 1);
      LowPlaces(p / 2, k - 1);
      RemainderByDouble(p, m);
    }
  }

  /** The remainder by an even number: the last digit, and the remainder of the others. */
  lemma RemainderByDouble(p: nat, m: nat)
    requires m > 0
    ensures p % (2 * m) == 2 * ((p / 2) % m) + p % 2
  {
    var h := p / 2;
    Quotient(h, m);
    assert p == (2 * m) * (h / m) + (2 * (h % m) + p % 2) by {
      assert (2 * m) * (h / m) == 2 * (m * (h / m));
    }
    UniqueRemainder(p, 2 * m, h / m, 2 * (h % m) + p % 2);
  }

  lemma Quotient(x: nat, m: nat)
    requires m > 0
    ensures x == m * (x / m) + x % m
  {
  }

  lemma UniqueRemainder(x: nat, m: nat, q: nat, r: nat)
    requires m > 0 && x == m * q + r && r < m
    ensures x % m == r && x / m == q
  {
    Quotient(x, m);
    var d := x / m - q;
    assert m * d == m * (x / m) - m * q == r - x % m;
    assert d >= 1 ==> m * d >= m * 1;
    assert d <= -1 ==> m * d <= m * -1;
  }

  lemma AndOdd(p: nat, m: nat)
    ensures And(p, 2 * m + 1) == 2 * And(p / 2, m) + p % 2
    ensures And(p, 0) == 0 && And(0, m) == 0 && And(p / 2, 0) == 0
  {
    var b := 2 * m + 1;
    assert b / 2 == m && b % 2 == 1;
    if p == 0 {
      assert And(p, b) == 0;
    } else {
      assert And(p, b) == 2 * And(p / 2, b / 2) + p % 2;
    }
  }

  /** A word stays a word. */
  lemma {:induction false} OrBound(a: nat, b: nat, n: nat)
    requires a < Pow2(n) && b < Pow2(n)
    ensures Or(a, b) < Pow2(n)
    decreases n
  {
    if n > 0 {
      OrBound(a / 2, b / 2, n - 1);
      OrHalves(a, b);
    }
  }

  lemma MaskBound(j: nat, n: nat)
    requires j < n
    ensures Mask(j) < Pow2(n)
  {
    Pow2StrictlyIncreases(j, n);
  }

  /** Bit `i` of a sequence of words. */
  predicate BitAt(words: seq<Word>, i: nat)
    requires i < 64 * |words|
  {
    Bit(words[i / 64], i % 64)
  }

  /** The first `n` bits of the words, flat. */
  function Flat(words: seq<Word>, n: nat): (bits: seq<bool>)
    requires n <= 64 * |words|
    ensures |bits| == n
  {
    seq(n, i requires 0 <= i < n => BitAt(words, i))
  }

  /** Words with the bit at `pos` set, as an atomic or leaves them. */
  function OrBit(words: seq<Word>, pos: nat): (r: seq<Word>)
    requires pos < 64 * |words|
    ensures |r| == |words|
  {
    MaskBound(pos % 64, 64);
    OrBound(words[pos / 64], Mask(pos % 64), 64);
    words[pos / 64 := Or(words[pos / 64], Mask(pos % 64))]
  }

  lemma OrBitAt(words: seq<Word>, pos: nat, i: nat)
    requires pos < 64 * |words| && i < 64 * |words|
    ensures BitAt(OrBit(words, pos), i) <==> BitAt(words, i) || i == pos
  {
    OrSetsBit(words[pos / 64], pos % 64, i % 64);
  }

  /** Setting a bit of a word sets that bit of the flat vector and no other. */
  lemma OrBitIsUpdate(words: seq<Word>, pos: nat, n: nat)
    requires pos < n <= 64 * |words|
    ensures Flat(OrBit(words, pos), n) == Flat(words, n)[pos := true]
  {
    forall i | 0 <= i < n
      ensures Flat(OrBit(words, pos), n)[i] == Flat(words, n)[pos := true][i]
    {
      OrBitAt(words, pos, i);
    }
  }

  /** A word is determined by its bits. */
  lemma {:induction false} SameBitsSameWord(a: nat, b: nat, n: nat)
    requires a < Pow2(n) && b < Pow2(n) && forall j: nat :: j < n ==> (Bit(a, j) <==> Bit(b, j))
    ensures a == b
    decreases n
  {
    if n > 0 {
      BitUnfolds(a, 0);
      BitUnfolds(b, 0);
      assert Bit(a, 0) <==> Bit(b, 0);
      forall j: nat | j < n - 1
        ensures Bit(a / 2, j) <==> Bit(b / 2, j)
      {
        BitUnfolds(a, j + 1);
        BitUnfolds(b, j + 1);
        assert Bit(a, j + 1) <==> Bit(b, j + 1);
      }
      SameBitsSameWord(a / 2, b / 2, n - 1);
    }
  }

  // ---- packing

  /** The word whose first `n` bits are those of `bits` from `from` on, as far as there are any. */
  function PackWord(bits: seq<bool>, from: nat, n: nat): nat
    requires n <= 64
  {
    if n == 0 then 0
    else
      Or(PackWord(bits, from, n - 1), if from + n - 1 < |bits| && bits[from + n - 1] then Mask(n - 1) else 0)
  }

  lemma {:induction false} PackWordAt(bits: seq<bool>, from: nat, n: nat, j: nat)
    requires n <= 64 && j < 64
    ensures Bit(PackWord(bits, from, n), j) <==> j < n && from + j < |bits| && bits[from + j]
  {
    if n == 0 {
      ZeroHasNoBits(j);
    } else {
      PackWordAt(bits, from, n - 1, j);
      if from + n - 1 < |bits| && bits[from + n - 1] {
        OrSetsBit(PackWord(bits, from, n - 1), n - 1, j);
      }
    }
  }

  lemma {:induction false} PackWordBound(bits: seq<bool>, from: nat, n: nat)
    requires n <= 64
    ensures PackWord(bits, from, n) < Pow2(n)
  {
    if n > 0 {
      PackWordBound(bits, from, n - 1);
      OrBound(PackWord(bits, from, n - 1), if from + n - 1 < |bits| && bits[from + n - 1] then Mask(n - 1) else 0, n);
    }
  }

  function WordOf(bits: seq<bool>, k: nat): Word {
    PackWordBound(bits, 64 * k, 64);
    PackWord(bits, 64 * k, 64)
  }

  /** As many words as the bits need, the last one padded with zeros. */
  function Pack(bits: seq<bool>): (words: seq<Word>)
    ensures |words| == (|bits| + 63) / 64
  {
    seq((|bits| + 63) / 64, k requires 0 <= k => WordOf(bits, k))
  }

  lemma PackAt(bits: seq<bool>, i: nat)
    requires i < 64 * |Pack(bits)|
    ensures BitAt(Pack(bits), i) <==> i < |bits| && bits[i]
  {
    PackWordAt(bits, 64 * (i / 64), 64, i % 64);
  }

  /** No bit beyond the first `n` is set. */
  ghost predicate Padded(words: seq<Word>, n: nat) {
    forall i :: n <= i < 64 * |words| ==> !BitAt(words, i)
  }

  lemma PackRoundTrip(bits: seq<bool>)
    ensures Flat(Pack(bits), |bits|) == bits && Padded(Pack(bits), |bits|)
  {
    forall i | 0 <= i < 64 * |Pack(bits)|
      ensures BitAt(Pack(bits), i) <==> i < |bits| && bits[i]
    {
      PackAt(bits, i);
    }
  }

  // ---- counting

  function CountTrue(bits: seq<bool>): (n: nat)
    ensures n <= |bits|
  {
    if bits == [] then 0 else CountTrue(bits[..|bits| - 1]) + (if bits[|bits| - 1] then 1 else 0)
  }

  lemma {:induction false} CountUpdate(bits: seq<bool>, p: nat)
    requires p < |bits|
    ensures CountTrue(bits[p := true]) == CountTrue(bits) + (if bits[p] then 0 else 1)
    decreases |bits|
  {
    var last := |bits| - 1;
    if p < last {
      CountUpdate(bits[..last], p);
      assert bits[p := true][..last] == bits[..last][p := true];
    } else {
      assert bits[p := true][..last] == bits[..last];
    }
  }

  lemma {:induction false} CountAppends(a: seq<bool>, b: seq<bool>)
    ensures CountTrue(a + b) == CountTrue(a) + CountTrue(b)
    decreases |b|
  {
    if b == [] {
      assert a + b == a;
    } else {
      var last := |b| - 1;
      CountAppends(a, b[..last]);
      assert (a + b)[..|a + b| - 1] == a + b[..last];
    }
  }

  lemma {:induction false} CountNone(bits: seq<bool>)
    requires forall i :: 0 <= i < |bits| ==> !bits[i]
    ensures CountTrue(bits) == 0
    decreases |bits|
  {
    if bits != [] {
      CountNone(bits[..|bits| - 1]);
    }
  }

  /** Ones among the first `n` bits of a word. */
  function CountOnes(w: nat, n: nat): nat
    requires n <= 64
  {
    if n == 0 then 0 else CountOnes(w, n - 1) + (if Bit(w, n - 1) then 1 else 0)
  }

  /** Ones in all the words. */
  function TotalOnes(words: seq<Word>): nat {
    if words == [] then 0 else TotalOnes(words[..|words| - 1]) + CountOnes(words[|words| - 1], 64)
  }

  lemma {:induction false} CountOnesIsCount(w: nat, n: nat)
    requires n <= 64
    ensures CountOnes(w, n) == CountTrue(seq(n, i requires 0 <= i < n => Bit(w, i)))
  {
    if n > 0 {
      CountOnesIsCount(w, n - 1);
      var bits := seq(n, i requires 0 <= i < n => Bit(w, i));
      assert bits[..n - 1] == seq(n - 1, i requires 0 <= i < n - 1 => Bit(w, i));
    }
  }

  lemma {:induction false} TotalOnesIsCount(words: seq<Word>)
    ensures TotalOnes(words) == CountTrue(Flat(words, 64 * |words|))
    decreases |words|
  {
    if words != [] {
      var init, last := words[..|words| - 1], words[|words| - 1];
      TotalOnesIsCount(init);
      CountOnesIsCount(last, 64);
      var head, tail := Flat(init, 64 * |init|), seq(64, i requires 0 <= i < 64 => Bit(last, i));
      FlatSplits(words);
      CountAppends(head, tail);
    }
  }

  lemma FlatSplits(words: seq<Word>)
    requires words != []
    ensures Flat(words, 64 * |words|)
            == Flat(words[..|words| - 1], 64 * (|words| - 1))
              + seq(64, i requires 0 <= i < 64 => Bit(words[|words| - 1], i))
  {
  }

  lemma FlatPrefix(words: seq<Word>, n: nat)
    requires n <= 64 * |words| && Padded(words, n)
    ensures Flat(words, 64 * |words|)[..n] == Flat(words, n)
    ensures forall i :: n <= i < 64 * |words| ==> !Flat(words, 64 * |words|)[i]
  {
  }

  /** With zero padding, the ones in the words are the set bits. */
  lemma TotalOnesPadded(words: seq<Word>, n: nat)
    requires n <= 64 * |words| && Padded(words, n)
    ensures TotalOnes(words) == CountTrue(Flat(words, n))
  {
    hide Flat, CountTrue, BitAt;
    TotalOnesIsCount(words);
    FlatPrefix(words, n);
    var all := Flat(words, 64 * |words|);
    assert all == all[..n] + all[n..];
    CountAppends(all[..n], all[n..]);
    CountNone(all[n..]);
  }
}
