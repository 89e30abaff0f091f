/** Listing a bucket: its length, its keys, and its items in a range. */
module Scans {
  import opened Wrappers
  import opened StorageModel
  import opened IndexModel
  import opened DataModel
  import opened BucketModel

  datatype BucketItem<T> = BucketItem(pubkey: Pubkey, refCount: u64, slotList: seq<T>)

  /** A range of keys; no range means every key. */
  type KeyRange = Option<Pubkey -> bool>

  predicate InRange(range: KeyRange, key: Pubkey) {
    range.None? || range.value(key)
  }

  /** Keys of the locked cells among the first `n`, in cell order. */
  function KeysUpTo(s: Storage<IndexEntry>, n: nat): seq<Pubkey>
    requires n <= |s.cells|
  {
    if n == 0 then []
    else KeysUpTo(s, n - 1) + (if s.cells[n - 1].uid == UID_UNLOCKED then [] else [s.cells[n - 1].payload.key])
  }

  /** The entry of every locked cell can be read. */
  lemma LockedEntryOk<T>(cfg: Config, b: BucketState<T>, i: nat)
    requires Live(cfg, b) && b.index.IsLocked(i)
    ensures var e := b.index.cells[i].payload;
            && EntryOk(cfg, e.key, e, b.data)
            && e.key in Abs(cfg, b) && Abs(cfg, b)[e.key] == (SlotsOf(e, b.data), e.refCount)
  {
    EntryAt(b.index, i);
    assert EntryOk(cfg, b.index.cells[i].payload.key, Entries(b.index)[b.index.cells[i].payload.key], b.data);
  }

  /** The item read from the locked cell `i`. */
  function ItemAt<T>(cfg: Config, b: BucketState<T>, i: nat): BucketItem<T>
    requires Live(cfg, b) && b.index.IsLocked(i)
  {
    LockedEntryOk(cfg, b, i);
    var e := b.index.cells[i].payload;
    BucketItem(e.key, e.refCount, SlotsOf(e, b.data))
  }

  /** Items of the locked cells among the first `n` whose key is in range, in cell order. */
  function ItemsUpTo<T>(cfg: Config, b: BucketState<T>, range: KeyRange, n: nat): seq<BucketItem<T>>
    requires Live(cfg, b) && n <= |b.index.cells|
  {
    if n == 0 then []
    else
      ItemsUpTo(cfg, b, range, n - 1)
      + (if b.index.IsLocked(n - 1) && InRange(range, b.index.cells[n - 1].payload.key)
         then [ItemAt(cfg, b, n - 1)] else [])
  }

  function Keys<T>(b: BucketState<T>): seq<Pubkey> {
    KeysUpTo(b.index, |b.index.cells|)
  }

  function ItemsInRange<T>(cfg: Config, b: BucketState<T>, range: KeyRange): seq<BucketItem<T>>
    requires Live(cfg, b)
  {
    ItemsUpTo(cfg, b, range, |b.index.cells|)
  }

  predicate NoDuplicates<X(==)>(xs: seq<X>) {
    forall i, j :: 0 <= i < j < |xs| ==> xs[i] != xs[j]
  }

  lemma {:induction false} KeysUpToExact(s: Storage<IndexEntry>, n: nat)
    requires DistinctKeys(s) && n <= |s.cells|
    ensures forall k :: k in KeysUpTo(s, n) <==> exists i :: i < n && s.IsLocked(i) && s.cells[i].payload.key == k
    ensures NoDuplicates(KeysUpTo(s, n))
  {
    if n > 0 {
      KeysUpToExact(s, n - 1);
      if s.IsLocked(n - 1) {
        var key := s.cells[n - 1].payload.key;
        assert KeysUpTo(s, n) == KeysUpTo(s, n - 1) + [key];
        assert key !in KeysUpTo(s, n - 1);
        forall k
          ensures k in KeysUpTo(s, n) <==> exists i :: i < n && s.IsLocked(i) && s.cells[i].payload.key == k
        {
          assert k in KeysUpTo(s, n) <==> k in KeysUpTo(s, n - 1) || k == key;
        }
      }
    }
  }

  /** `keys` lists every stored key exactly once, and `bucket_len` is their number. */
  lemma KeysExact<T>(cfg: Config, b: BucketState<T>)
    requires Live(cfg, b)
    ensures forall k :: k in Keys(b) <==> k in Abs(cfg, b)
    ensures NoDuplicates(Keys(b))
    ensures b.index.used == |Abs(cfg, b)| == |Keys(b)|
  {
    KeysUpToExact(b.index, |b.index.cells|);
    forall k
      ensures k in Keys(b) <==> k in Entries(b.index)
    {
      if k in Keys(b) {
        var i :| b.index.IsLocked(i) && b.index.cells[i].payload.key == k;
        EntryAt(b.index, i);
      }
      if k in Entries(b.index) {
        assert b.index.IsLocked(Where(b.index, k));
      }
    }
    UsedCountsKeys(cfg, b.index, b.random);
    assert Abs(cfg, b).Keys == Entries(b.index).Keys;
    assert |Abs(cfg, b).Keys| == |Abs(cfg, b)| && |Entries(b.index).Keys| == |Entries(b.index)|;
    DistinctLength(Keys(b), Abs(cfg, b).Keys);
  }

  lemma {:induction false} DistinctLength<X>(xs: seq<X>, s: set<X>)
    requires NoDuplicates(xs) && forall x :: x in xs <==> x in s
    ensures |xs| == |s|
    decreases |xs|
  {
    if xs == [] {
      assert s == {};
    } else {
      var last := xs[|xs| - 1];
      var init := xs[..|xs| - 1];
      assert xs == init + [last];
      DistinctLength(init, s - {last});
    }
  }

  /** The item carries what reading its key returns. */
  ghost predicate ItemOk<T>(cfg: Config, b: BucketState<T>, item: BucketItem<T>)
    requires Live(cfg, b)
  {
    item.pubkey in Abs(cfg, b) && Abs(cfg, b)[item.pubkey] == (item.slotList, item.refCount)
  }

  function Pubkeys<T>(items: seq<BucketItem<T>>): seq<Pubkey> {
    seq(|items|, i requires 0 <= i < |items| => items[i].pubkey)
  }

  /** The keys in range, in order. */
  function Filter(keys: seq<Pubkey>, range: KeyRange): seq<Pubkey> {
    if keys == [] then []
    else
      var last := keys[|keys| - 1];
      Filter(keys[..|keys| - 1], range) + (if InRange(range, last) then [last] else [])
  }

  lemma {:induction false} FilterExact(keys: seq<Pubkey>, range: KeyRange)
    requires NoDuplicates(keys)
    ensures NoDuplicates(Filter(keys, range))
    ensures forall k :: k in Filter(keys, range) <==> k in keys && InRange(range, k)
    decreases |keys|
  {
    if keys != [] {
      var last, init := keys[|keys| - 1], keys[..|keys| - 1];
      assert keys == init + [last];
      FilterExact(init, range);
      assert last !in init;
    }
  }

  /** The items are those of the listed keys that are in range. */
  lemma {:induction false} ItemsFollowKeys<T>(cfg: Config, b: BucketState<T>, range: KeyRange, n: nat)
    requires Live(cfg, b) && n <= |b.index.cells|
    ensures Pubkeys(ItemsUpTo(cfg, b, range, n)) == Filter(KeysUpTo(b.index, n), range)
  {
    hide IndexInv, DataInv, Meaning, Live, InRange, Filter, Pubkeys;
    if n == 0 {
      NothingFollows<T>(range);
    } else {
      ItemsFollowKeys(cfg, b, range, n - 1);
      var items, keys := ItemsUpTo(cfg, b, range, n - 1), KeysUpTo(b.index, n - 1);
      assert items + [] == items && keys + [] == keys;
      if b.index.IsLocked(n - 1) {
        var key := b.index.cells[n - 1].payload.key;
        FilterAppends(keys, key, range);
        if InRange(range, key) {
          PubkeysAppends(items, ItemAt(cfg, b, n - 1));
        }
      }
    }
  }

  lemma NothingFollows<T>(range: KeyRange)
    ensures Pubkeys<T>([]) == Filter([], range)
  {
  }

  lemma FilterAppends(keys: seq<Pubkey>, key: Pubkey, range: KeyRange)
    ensures Filter(keys + [key], range) == Filter(keys, range) + (if InRange(range, key) then [key] else [])
  {
    assert (keys + [key])[..|keys|] == keys;
  }

  lemma PubkeysAppends<T>(items: seq<BucketItem<T>>, item: BucketItem<T>)
    ensures Pubkeys(items + [item]) == Pubkeys(items) + [item.pubkey]
  {
  }

  lemma {:induction false} ItemsReadBack<T>(cfg: Config, b: BucketState<T>, range: KeyRange, n: nat)
    requires Live(cfg, b) && n <= |b.index.cells|
    ensures forall item :: item in ItemsUpTo(cfg, b, range, n) ==> ItemOk(cfg, b, item)
  {
    hide IndexInv, DataInv, Meaning;
    if n > 0 {
      ItemsReadBack(cfg, b, range, n - 1);
      if b.index.IsLocked(n - 1) {
        LockedEntryOk(cfg, b, n - 1);
      }
    }
  }

  /** `items_in_range` returns exactly the stored keys in range, each once, with what reading it returns. */
  lemma ItemsExact<T>(cfg: Config, b: BucketState<T>, range: KeyRange)
    requires Live(cfg, b)
    ensures NoDuplicates(Pubkeys(ItemsInRange(cfg, b, range)))
    ensures forall k :: k in Pubkeys(ItemsInRange(cfg, b, range)) <==>
                          k in Abs(cfg, b) && (range.None? || range.value(k))
    ensures forall item :: item in ItemsInRange(cfg, b, range) ==> ItemOk(cfg, b, item)
  {
    ItemsFollowKeys(cfg, b, range, |b.index.cells|);
    ItemsReadBack(cfg, b, range, |b.index.cells|);
    KeysExact(cfg, b);
    FilterExact(Keys(b), range);
  }
}
