/**
 * The Bloom filter over a flat bit vector, the atomic filter over words and masks, their
 * conversions, and concurrent additions to the atomic filter.
 */
module BloomFilter {
  import opened Wrappers
  import opened PowersOfTwo
  import opened BitWords

  type Hash = nat

  /** A stable hash of an item for each hash index, taken as an arbitrary function. */
  type Hasher<!K> = (K, Hash) -> Hash

  /** The bit an item maps to under one hash index. */
  function Pos<K>(hasher: Hasher<K>, item: K, key: Hash, numBits: nat): (p: nat)
    requires numBits > 0
    ensures p < numBits
  {
    hasher(item, key) % numBits
  }

  /** The bits an item maps to, one per hash index. */
  function Positions<K>(hasher: Hasher<K>, keys: seq<Hash>, numBits: nat, item: K): (ps: seq<nat>)
    requires keys != [] ==> numBits > 0
    ensures |ps| == |keys| && forall i :: 0 <= i < |ps| ==> ps[i] < numBits
  {
    seq(|keys|, i requires 0 <= i < |keys| => Pos(hasher, item, keys[i], numBits))
  }

  /** The bit vector after setting these bits. */
  function SetAll(bits: seq<bool>, ps: seq<nat>): (r: seq<bool>)
    requires forall i :: 0 <= i < |ps| ==> ps[i] < |bits|
    ensures |r| == |bits|
  {
    if ps == [] then bits else SetAll(bits, ps[..|ps| - 1])[ps[|ps| - 1] := true]
  }

  lemma {:induction false} SetAllAt(bits: seq<bool>, ps: seq<nat>, i: nat)
    requires i < |bits| && forall j :: 0 <= j < |ps| ==> ps[j] < |bits|
    ensures SetAll(bits, ps)[i] <==> bits[i] || i in ps
    decreases |ps|
  {
    if ps != [] {
      var init, last := ps[..|ps| - 1], ps[|ps| - 1];
      SetAllAt(bits, init, i);
      assert ps == init + [last];
    }
  }

  predicate AllSet(bits: seq<bool>, ps: seq<nat>)
    requires forall i :: 0 <= i < |ps| ==> ps[i] < |bits|
  {
    forall i :: 0 <= i < |ps| ==> bits[ps[i]]
  }

  ghost predicate SetUpTo(bits: seq<bool>, ps: seq<nat>, i: nat)
    requires i <= |ps| && forall j :: 0 <= j < |ps| ==> ps[j] < |bits|
  {
    forall j :: 0 <= j < i ==> bits[ps[j]]
  }

  lemma NoneLeft(bits: seq<bool>, ps: seq<nat>)
    requires forall i :: 0 <= i < |ps| ==> ps[i] < |bits|
    ensures SetUpTo(bits, ps, 0) && (SetUpTo(bits, ps, |ps|) <==> AllSet(bits, ps))
  {
  }

  lemma OneMoreSet(bits: seq<bool>, ps: seq<nat>, i: nat)
    requires i < |ps| && (forall j :: 0 <= j < |ps| ==> ps[j] < |bits|) && SetUpTo(bits, ps, i)
    ensures if bits[ps[i]] then SetUpTo(bits, ps, i + 1) else !AllSet(bits, ps)
  {
  }

  // ---- what the filters promise, in terms of the hashes

  /** The bits `now` are those of `was` and those that a hash of the item is congruent to. */
  ghost predicate AddsItem<K>(was: seq<bool>, now: seq<bool>, hasher: Hasher<K>, keys: seq<Hash>, item: K) {
    && |now| == |was|
    && forall i :: 0 <= i < |was| ==>
         (now[i] <==> was[i] || exists j :: 0 <= j < |keys| && hasher(item, keys[j]) % |was| == i)
  }

  /** Every bit that a hash of the item is congruent to is set. */
  ghost predicate HoldsItem<K>(bits: seq<bool>, hasher: Hasher<K>, keys: seq<Hash>, item: K) {
    forall j :: 0 <= j < |keys| ==> |bits| > 0 && bits[hasher(item, keys[j]) % |bits|]
  }

  lemma SetAllAddsItem<K>(bits: seq<bool>, hasher: Hasher<K>, keys: seq<Hash>, item: K)
    requires keys != [] ==> |bits| > 0
    ensures AddsItem(bits, SetAll(bits, Positions(hasher, keys, |bits|, item)), hasher, keys, item)
  {
    var ps := Positions(hasher, keys, |bits|, item);
    forall i | 0 <= i < |bits|
      ensures i in ps <==> exists j :: 0 <= j < |keys| && hasher(item, keys[j]) % |bits| == i
      ensures SetAll(bits, ps)[i] <==> bits[i] || i in ps
    {
      SetAllAt(bits, ps, i);
      if i in ps {
        var j :| 0 <= j < |ps| && ps[j] == i;
        assert hasher(item, keys[j]) % |bits| == i;
      }
      forall j | 0 <= j < |keys| && hasher(item, keys[j]) % |bits| == i
        ensures i in ps
      {
        assert ps[j] == i;
      }
    }
  }

  lemma AllSetHoldsItem<K>(bits: seq<bool>, hasher: Hasher<K>, keys: seq<Hash>, item: K)
    requires keys != [] ==> |bits| > 0
    ensures AllSet(bits, Positions(hasher, keys, |bits|, item)) <==> HoldsItem(bits, hasher, keys, item)
  {
    var ps := Positions(hasher, keys, |bits|, item);
    assert forall j :: 0 <= j < |keys| ==> ps[j] == hasher(item, keys[j]) % |bits|;
  }

  // ---- the flat filter

  class Bloom<K> {
    const hasher: Hasher<K>
    var keys: seq<Hash>
    var bits: seq<bool>
    var numBitsSet: nat

    /** The counter is the number of set bits. */
    ghost predicate Valid()
      reads this
    {
      numBitsSet == CountTrue(bits)
    }

    constructor (hasher: Hasher<K>, numBits: nat, keys: seq<Hash>)
      ensures Valid() && this.hasher == hasher && this.keys == keys && bits == seq(numBits, _ => false)
    {
      this.hasher, this.keys, bits, numBitsSet := hasher, keys, seq(numBits, _ => false), 0;
      CountNone(seq(numBits, _ => false));
    }

    method Clear()
      modifies this
      ensures Valid() && keys == old(keys) && bits == seq(|old(bits)|, _ => false)
    {
      CountNone(seq(|bits|, _ => false));
      bits, numBitsSet := seq(|bits|, _ => false), 0;
    }

    /** Set the item's bits and count those that were not set; without any bit the remainder panics. */
    method Add(item: K) returns (r: Outcome<()>)
      requires Valid()
      modifies this
      ensures Valid() && keys == old(keys)
      ensures r.Panicked? <==> keys != [] && |old(bits)| == 0
      ensures bits == if r.Panicked? then old(bits)
                      else SetAll(old(bits), Positions(hasher, keys, |old(bits)|, item))
      ensures r.Returned? ==> AddsItem(old(bits), bits, hasher, keys, item)
    {
      if keys != [] && |bits| == 0 {
        return Panicked;
      }
      ghost var ps := Positions(hasher, keys, |bits|, item);
      var i := 0;
      while i < |keys|
        invariant 0 <= i <= |keys| && keys == old(keys) && |bits| == |old(bits)| && Valid()
        invariant bits == SetAll(old(bits), ps[..i])
      {
        var pos := Pos(hasher, item, keys[i], |bits|);
        assert ps[..i + 1][..i] == ps[..i] && pos == ps[i];
        CountUpdate(bits, pos);
        if !bits[pos] {
          numBitsSet := numBitsSet + 1;
          bits := bits[pos := true];
        } else {
          assert bits[pos := true] == bits;
        }
        i := i + 1;
      }
      assert ps[..i] == ps;
      SetAllAddsItem(old(bits), hasher, keys, item);
      r := Returned(());
    }

    method Contains(item: K) returns (r: Outcome<bool>)
      ensures r.Panicked? <==> keys != [] && |bits| == 0
      ensures r.Returned? ==> (r.value <==> AllSet(bits, Positions(hasher, keys, |bits|, item)))
      ensures r.Returned? ==> (r.value <==> HoldsItem(bits, hasher, keys, item))
    {
      if keys != [] && |bits| == 0 {
        return Panicked;
      }
      AllSetHoldsItem(bits, hasher, keys, item);
      ghost var ps := Positions(hasher, keys, |bits|, item);
      for i := 0 to |keys|
        invariant forall j :: 0 <= j < i ==> bits[ps[j]]
      {
        var pos := Pos(hasher, item, keys[i], |bits|);
        assert pos == ps[i];
        if !bits[pos] {
          return Returned(false);
        }
      }
      return Returned(true);
    }
  }

  // ---- the atomic filter

  /** The word a bit is in and its mask there. */
  function AtomicPos<K>(hasher: Hasher<K>, item: K, key: Hash, numBits: nat): (r: (nat, Word))
    requires numBits > 0
  {
    var pos := hasher(item, key) % numBits;
    LowBits(pos);
    MaskBound(pos % 64, 64);
    (pos / 64, Mask(And(pos, 63)))
  }

  /** What the atomic filter holds: as many words as its bits need, with the bits beyond them clear. */
  ghost predicate WordsOk(words: seq<Word>, numBits: nat) {
    |words| == (numBits + 63) / 64 && Padded(words, numBits)
  }

  lemma AtomicPosIs<K>(hasher: Hasher<K>, item: K, key: Hash, numBits: nat)
    requires numBits > 0
    ensures var p := Pos(hasher, item, key, numBits);
            AtomicPos(hasher, item, key, numBits) == (p / 64, Mask(p % 64))
  {
    LowBits(hasher(item, key) % numBits);
  }

  lemma AtomicPosAt<K>(hasher: Hasher<K>, keys: seq<Hash>, numBits: nat, item: K, i: nat)
    requires numBits > 0 && i < |keys|
    ensures var p := Positions(hasher, keys, numBits, item)[i];
            AtomicPos(hasher, item, keys[i], numBits) == (p / 64, Mask(p % 64))
  {
    AtomicPosIs(hasher, item, keys[i], numBits);
  }

  class AtomicBloom<K> {
    const hasher: Hasher<K>
    const numBits: nat
    const keys: seq<Hash>
    const words: array<Word>

    ghost predicate Valid()
      reads words
    {
      WordsOk(words[..], numBits)
    }

    /** The bits in use, flat. */
    ghost function Bits(): seq<bool>
      requires Valid()
      reads words
    {
      Flat(words[..], numBits)
    }

    constructor (hasher: Hasher<K>, numBits: nat, keys: seq<Hash>, words: seq<Word>)
      ensures this.hasher == hasher && this.numBits == numBits && this.keys == keys
      ensures fresh(this.words) && this.words[..] == words
    {
      this.hasher, this.numBits, this.keys := hasher, numBits, keys;
      this.words := new Word[|words|](i requires 0 <= i < |words| => words[i]);
    }

    /** Or a mask into a word and return what the word was. */
    method FetchOr(index: nat, mask: Word) returns (prev: Word)
      requires index < words.Length
      modifies words
      ensures prev == old(words[index]) && words[..] == old(words[..])[index := Or(prev, mask)]
    {
      prev := words[index];
      OrBound(prev, mask, 64);
      words[index] := Or(prev, mask);
    }

    /** Set the item's bits; true if one of them was not set before. Without any bit the remainder panics. */
    method Add(item: K) returns (r: Outcome<bool>)
      requires Valid()
      modifies words
      ensures Valid() && (r.Panicked? <==> keys != [] && numBits == 0)
      ensures Bits() == if r.Panicked? then old(Bits()) else SetAll(old(Bits()), Positions(hasher, keys, numBits, item))
      ensures r.Returned? ==> (r.value <==> !AllSet(old(Bits()), Positions(hasher, keys, numBits, item)))
      ensures r.Returned? ==> AddsItem(old(Bits()), Bits(), hasher, keys, item)
      ensures r.Returned? ==> (r.value <==> !HoldsItem(old(Bits()), hasher, keys, item))
    {
      if keys != [] && numBits == 0 {
        return Panicked;
      }
      hide WordsOk, Flat, SetAll, AtomicPos, And, Or, Mask, AddsItem, HoldsItem, Positions;
      SetAllAddsItem(Bits(), hasher, keys, item);
      AllSetHoldsItem(Bits(), hasher, keys, item);
      ghost var ps := Positions(hasher, keys, numBits, item);
      ghost var was := Bits();
      NothingAdded(words[..], numBits, ps);
      var added := false;
      var i := 0;
      while i < |keys|
        invariant 0 <= i <= |keys| && Valid() && Bits() == SetAll(was, ps[..i])
        invariant added <==> AnyNew(was, ps, i)
      {
        var (index, mask) := AtomicPos(hasher, item, keys[i], numBits);
        AtomicPosAt(hasher, keys, numBits, item, i);
        AddStep(words[..], numBits, was, ps, i);
        WordIndex(words[..], numBits, ps[i]);
        var prev := FetchOr(index, mask);
        added := added || And(prev, mask) == 0;
        i := i + 1;
      }
      assert ps[..i] == ps;
      r := Returned(added);
    }

    method Contains(item: K) returns (r: Outcome<bool>)
      requires Valid()
      ensures r.Panicked? <==> keys != [] && numBits == 0
      ensures r.Returned? ==> (r.value <==> AllSet(Bits(), Positions(hasher, keys, numBits, item)))
      ensures r.Returned? ==> (r.value <==> HoldsItem(Bits(), hasher, keys, item))
    {
      if keys != [] && numBits == 0 {
        return Panicked;
      }
      hide WordsOk, Flat, AtomicPos, And, Mask, HoldsItem, Positions, AllSet, SetUpTo;
      ghost var bits, ps := Bits(), Positions(hasher, keys, numBits, item);
      AllSetHoldsItem(bits, hasher, keys, item);
      NoneLeft(bits, ps);
      for i := 0 to |keys|
        invariant SetUpTo(bits, ps, i)
      {
        var (index, mask) := AtomicPos(hasher, item, keys[i], numBits);
        AtomicPosAt(hasher, keys, numBits, item, i);
        WordIndex(words[..], numBits, ps[i]);
        LoadIsBit(words[..], numBits, ps[i]);
        OneMoreSet(bits, ps, i);
        if And(words[index], mask) == 0 {
          return Returned(false);
        }
      }
      return Returned(true);
    }
  }

  /** One more bit of an item: the words, the flat bits, and whether the bit is new. */
  lemma AddStep(words: seq<Word>, n: nat, was: seq<bool>, ps: seq<nat>, i: nat)
    requires WordsOk(words, n) && |was| == n && i < |ps| && forall j :: 0 <= j < |ps| ==> ps[j] < n
    requires Flat(words, n) == SetAll(was, ps[..i])
    ensures WordsOk(OrBit(words, ps[i]), n) && Flat(OrBit(words, ps[i]), n) == SetAll(was, ps[..i + 1])
    ensures And(words[ps[i] / 64], Mask(ps[i] % 64)) == 0 <==> !was[ps[i]] && ps[i] !in ps[..i]
    ensures AnyNew(was, ps, i) || And(words[ps[i] / 64], Mask(ps[i] % 64)) == 0 <==> AnyNew(was, ps, i + 1)
  {
    OrBitKeepsPadding(words, ps[i], n);
    OrBitIsUpdate(words, ps[i], n);
    assert ps[..i + 1][..i] == ps[..i];
    SetAllAt(was, ps[..i], ps[i]);
    assert BitAt(words, ps[i]) == Flat(words, n)[ps[i]];
    if ps[i] in ps[..i] && !was[ps[i]] {
      var j :| 0 <= j < i && ps[j] == ps[i];
      assert !was[ps[j]];
    }
  }

  /** One of the first `i` bits of an item was not set. */
  ghost predicate AnyNew(was: seq<bool>, ps: seq<nat>, i: nat)
    requires i <= |ps| && forall j :: 0 <= j < |ps| ==> ps[j] < |was|
  {
    exists j :: 0 <= j < i && !was[ps[j]]
  }

  lemma NothingAdded(words: seq<Word>, n: nat, ps: seq<nat>)
    requires WordsOk(words, n) && forall j :: 0 <= j < |ps| ==> ps[j] < n
    ensures SetAll(Flat(words, n), ps[..0]) == Flat(words, n)
  {
  }

  lemma WordIndex(words: seq<Word>, n: nat, pos: nat)
    requires WordsOk(words, n) && pos < n
    ensures pos / 64 < |words|
  {
  }

  /** Masking a loaded word reads one bit. */
  lemma LoadIsBit(words: seq<Word>, n: nat, pos: nat)
    requires WordsOk(words, n) && pos < n
    ensures pos / 64 < |words| && (And(words[pos / 64], Mask(pos % 64)) != 0 <==> Flat(words, n)[pos])
  {
  }

  lemma OrBitKeepsPadding(words: seq<Word>, pos: nat, n: nat)
    requires WordsOk(words, n) && pos < n
    ensures WordsOk(OrBit(words, pos), n)
  {
    forall i | n <= i < 64 * |words|
      ensures !BitAt(OrBit(words, pos), i)
    {
      OrBitAt(words, pos, i);
    }
  }

  // ---- conversions

  /** The same keys and bits, packed. */
  method IntoAtomic<K>(bloom: Bloom<K>) returns (atomic: AtomicBloom<K>)
    ensures fresh(atomic) && fresh(atomic.words) && atomic.Valid()
    ensures atomic.hasher == bloom.hasher && atomic.keys == bloom.keys
    ensures atomic.numBits == |bloom.bits| && atomic.Bits() == bloom.bits
  {
    PackRoundTrip(bloom.bits);
    atomic := new AtomicBloom(bloom.hasher, |bloom.bits|, bloom.keys, Pack(bloom.bits));
  }

  /** The same keys and bits, flat again, with the set bits counted word by word. */
  method FromAtomic<K>(atomic: AtomicBloom<K>) returns (bloom: Bloom<K>)
    requires atomic.Valid()
    ensures fresh(bloom) && bloom.Valid()
    ensures bloom.hasher == atomic.hasher && bloom.keys == atomic.keys && bloom.bits == atomic.Bits()
  {
    TotalOnesPadded(atomic.words[..], atomic.numBits);
    bloom := new Bloom(atomic.hasher, 0, atomic.keys);
    bloom.numBitsSet := TotalOnes(atomic.words[..]);
    bloom.bits := Flat(atomic.words[..], atomic.numBits);
  }

  /** Bloom to atomic and back is the identity on the bits, and the recount is the count. */
  lemma FlatRoundTrip(bits: seq<bool>)
    ensures Flat(Pack(bits), |bits|) == bits && TotalOnes(Pack(bits)) == CountTrue(bits)
  {
    PackRoundTrip(bits);
    TotalOnesPadded(Pack(bits), |bits|);
  }

  /** Atomic to bloom and back is the identity on the words, because the padding is never set. */
  lemma WordsRoundTrip(words: seq<Word>, n: nat)
    requires WordsOk(words, n)
    ensures Pack(Flat(words, n)) == words
  {
    hide Pow2, Bit, PackWord;
    var packed := Pack(Flat(words, n));
    forall k | 0 <= k < |words|
      ensures packed[k] == words[k]
    {
      PackWordBound(Flat(words, n), 64 * k, 64);
      forall j: nat | j < 64
        ensures Bit(packed[k], j) <==> Bit(words[k], j)
      {
        PackedBit(words, n, k, j);
      }
      SameBitsSameWord(packed[k], words[k], 64);
    }
  }

  lemma PackedBit(words: seq<Word>, n: nat, k: nat, j: nat)
    requires WordsOk(words, n) && k < |words| && j < 64
    ensures Bit(Pack(Flat(words, n))[k], j) <==> Bit(words[k], j)
  {
    hide Bit, PackWord;
    var i := 64 * k + j;
    assert i / 64 == k && i % 64 == j;
    PackAt(Flat(words, n), i);
    assert BitAt(Pack(Flat(words, n)), i) <==> BitAt(words, i);
  }
}
