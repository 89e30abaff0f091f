/** Index growth: every entry is re-hashed into a larger table under a new seed. */
module IndexGrowth {
  import opened Wrappers
  import opened StorageModel
  import opened IndexModel

  /** What an all-zero index cell holds. */
  function ZeroEntry(): IndexEntry {
    BlankEntry(seq(32, _ => 0))
  }

  /** Copy the locked cells of `from`, starting at `ix`, into `acc`; `None` when one finds no room. */
  function Rehash(cfg: Config, from: Storage<IndexEntry>, ix: nat, acc: Storage<IndexEntry>, seed: u64)
    : (r: Option<Storage<IndexEntry>>)
    requires ix <= |from.cells| && acc.Valid()
    ensures r.Some? ==> r.value.Valid() && r.value.pow2 == acc.pow2 && r.value.numElems == acc.numElems
    decreases |from.cells| - ix
  {
    if ix == |from.cells| then Some(acc)
    else if from.cells[ix].uid == UID_UNLOCKED then Rehash(cfg, from, ix + 1, acc, seed)
    else
      match CreateKey(cfg, acc, from.cells[ix].payload, from.cells[ix].uid, seed)
      case Err(_) => None
      case Ok((_, acc')) => Rehash(cfg, from, ix + 1, acc', seed)
  }

  lemma RehashUnfolds(cfg: Config, from: Storage<IndexEntry>, ix: nat, acc: Storage<IndexEntry>, seed: u64)
    requires ix <= |from.cells| && acc.Valid()
    ensures Rehash(cfg, from, ix, acc, seed)
            == if ix == |from.cells| then Some(acc)
               else if from.cells[ix].uid == UID_UNLOCKED then Rehash(cfg, from, ix + 1, acc, seed)
               else
                 var r := CreateKey(cfg, acc, from.cells[ix].payload, from.cells[ix].uid, seed);
                 if r.Err? then None else Rehash(cfg, from, ix + 1, r.value.1, seed)
  {
  }

  /** One attempt: a fresh table `inc` powers of two larger, filled under `seed`. */
  function Attempt(cfg: Config, from: Storage<IndexEntry>, inc: nat, seed: u64): (r: Option<Storage<IndexEntry>>)
    ensures r.Some? ==> r.value.Valid() && r.value.pow2 == from.pow2 + inc && r.value.numElems == 1
  {
    Rehash(cfg, from, 0, Fresh(from.pow2 + inc, 1, ZeroEntry()), seed)
  }

  /**
   * Attempts with growing capacities, one seed each, until one fits. The second component is the
   * unused rest of the seeds; `None` means that the seeds ran out first.
   */
  function FirstFit(cfg: Config, from: Storage<IndexEntry>, inc: nat, seeds: seq<u64>)
    : (r: (Option<(u64, Storage<IndexEntry>)>, seq<u64>))
    ensures |r.1| <= |seeds| && (r.0.Some? ==> |r.1| < |seeds|)
    decreases |seeds|
  {
    if seeds == [] then (None, [])
    else
      match Attempt(cfg, from, inc, seeds[0])
      case Some(s) => (Some((seeds[0], s)), seeds[1..])
      case None => FirstFit(cfg, from, inc + 1, seeds[1..])
  }

  /** Growth takes the first attempt `n` that fits, and fails exactly when none of them fits. */
  lemma {:induction false} FirstFitIsFirst(cfg: Config, from: Storage<IndexEntry>, inc: nat, seeds: seq<u64>)
    returns (n: nat)
    ensures n <= |seeds| && forall n' :: 0 <= n' < n ==> Attempt(cfg, from, inc + n', seeds[n']).None?
    ensures var r := FirstFit(cfg, from, inc, seeds);
            if n < |seeds| then
              && Attempt(cfg, from, inc + n, seeds[n]).Some?
              && r == (Some((seeds[n], Attempt(cfg, from, inc + n, seeds[n]).value)), seeds[n + 1..])
            else r == (None, [])
    decreases |seeds|
  {
    if seeds == [] || Attempt(cfg, from, inc, seeds[0]).Some? {
      n := 0;
    } else {
      var tail := FirstFitIsFirst(cfg, from, inc + 1, seeds[1..]);
      n := 1 + tail;
      forall n' | 0 <= n' < n
        ensures Attempt(cfg, from, inc + n', seeds[n']).None?
      {
        if n' > 0 {
          assert Attempt(cfg, from, inc + 1 + (n' - 1), seeds[1..][n' - 1]).None?;
        }
      }
    }
  }

  /** `acc` holds exactly the entries of the first `ix` cells of `from`. */
  ghost predicate HoldsPrefix(from: Storage<IndexEntry>, ix: nat, acc: Storage<IndexEntry>) {
    && (forall k :: k in Entries(acc) ==>
          k in Entries(from) && Entries(acc)[k] == Entries(from)[k] && Where(from, k) < ix)
    && (forall j :: from.IsLocked(j) && j < ix ==> from.cells[j].payload.key in Entries(acc))
  }

  lemma PrefixComplete(from: Storage<IndexEntry>, acc: Storage<IndexEntry>)
    requires HoldsPrefix(from, |from.cells|, acc)
    ensures Entries(acc) == Entries(from)
  {
    forall k | k in Entries(from)
      ensures k in Entries(acc)
    {
      assert from.IsLocked(Where(from, k));
    }
  }

  lemma PrefixGrows(from: Storage<IndexEntry>, ix: nat, acc: Storage<IndexEntry>, acc': Storage<IndexEntry>)
    requires DistinctKeys(from) && from.IsLocked(ix) && HoldsPrefix(from, ix, acc)
    requires Entries(acc') == Entries(acc)[from.cells[ix].payload.key := from.cells[ix].payload]
    ensures HoldsPrefix(from, ix + 1, acc')
  {
    EntryAt(from, ix);
  }

  lemma PrefixSkips(from: Storage<IndexEntry>, ix: nat, acc: Storage<IndexEntry>)
    requires HoldsPrefix(from, ix, acc) && !from.IsLocked(ix)
    ensures HoldsPrefix(from, ix + 1, acc)
  {
    forall j | from.IsLocked(j) && j < ix + 1
      ensures from.cells[j].payload.key in Entries(acc)
    {
      assert j < ix;
    }
  }

  lemma {:induction false} RehashKeeps(cfg: Config, from: Storage<IndexEntry>, oldSeed: u64,
                                       ix: nat, acc: Storage<IndexEntry>, seed: u64)
    requires IndexInv(cfg, from, oldSeed) && IndexInv(cfg, acc, seed)
    requires ix <= |from.cells| && HoldsPrefix(from, ix, acc)
    ensures var r := Rehash(cfg, from, ix, acc, seed);
            r.Some? ==> IndexInv(cfg, r.value, seed) && Entries(r.value) == Entries(from)
    decreases |from.cells| - ix
  {
    if ix == |from.cells| {
      PrefixComplete(from, acc);
    } else if from.cells[ix].uid == UID_UNLOCKED {
      PrefixSkips(from, ix, acc);
      RehashKeeps(cfg, from, oldSeed, ix + 1, acc, seed);
    } else {
      var r := RehashStep(cfg, from, oldSeed, ix, acc, seed);
      if r.Ok? {
        RehashKeeps(cfg, from, oldSeed, ix + 1, r.value.1, seed);
      }
    }
  }

  lemma RehashStep(cfg: Config, from: Storage<IndexEntry>, oldSeed: u64, ix: nat, acc: Storage<IndexEntry>, seed: u64)
    returns (r: Result<(nat, Storage<IndexEntry>), BucketMapError>)
    requires IndexInv(cfg, from, oldSeed) && IndexInv(cfg, acc, seed)
    requires from.IsLocked(ix) && HoldsPrefix(from, ix, acc)
    ensures r == CreateKey(cfg, acc, from.cells[ix].payload, from.cells[ix].uid, seed)
    ensures r.Ok? ==> IndexInv(cfg, r.value.1, seed) && HoldsPrefix(from, ix + 1, r.value.1)
  {
    var entry := from.cells[ix].payload;
    assert CellOk(cfg, from, oldSeed, ix);
    EntryAt(from, ix);
    CreateKeyAdds(cfg, acc, seed, entry);
    r := CreateKey(cfg, acc, entry, KeyUid(cfg, entry.key), seed);
    if r.Ok? {
      PrefixGrows(from, ix, acc, r.value.1);
    }
  }

  /** A completed attempt keeps every entry under the new seed, and so the number of used cells. */
  lemma AttemptKeeps(cfg: Config, from: Storage<IndexEntry>, oldSeed: u64, inc: nat, seed: u64)
    requires IndexInv(cfg, from, oldSeed)
    ensures var r := Attempt(cfg, from, inc, seed);
            r.Some? ==> IndexInv(cfg, r.value, seed) && Entries(r.value) == Entries(from) && r.value.used == from.used
  {
    var blank := Fresh(from.pow2 + inc, 1, ZeroEntry());
    assert LockedCells(blank) == {};
    RehashKeeps(cfg, from, oldSeed, 0, blank, seed);
    var r := Attempt(cfg, from, inc, seed);
    if r.Some? {
      UsedCountsKeys(cfg, r.value, seed);
      UsedCountsKeys(cfg, from, oldSeed);
    }
  }

  // ---- where re-hashing puts an entry

  /** The position the hash of the key in cell `i` and the seed give. */
  ghost function HashAt(cfg: Config, s: Storage<IndexEntry>, seed: u64, i: int): nat
    requires s.IsLocked(i)
  {
    cfg.ixHash(KeyUid(cfg, s.cells[i].payload.key), seed)
  }

  /** Every cell that an entry of `acc` had to pass over holds an entry that comes earlier in `from`. */
  ghost predicate InTurn(cfg: Config, from: Storage<IndexEntry>, acc: Storage<IndexEntry>, seed: u64) {
    && (forall i :: acc.IsLocked(i) ==> acc.cells[i].payload.key in StoredKeys(from))
    && forall i, j ::
         && acc.IsLocked(i)
         && InWindow(HashAt(cfg, acc, seed, i), (i - HashAt(cfg, acc, seed, i)) % |acc.cells|, |acc.cells|, j) ==>
           && acc.IsLocked(j)
           && Where(from, acc.cells[j].payload.key) < Where(from, acc.cells[i].payload.key)
  }

  /** The cells between position `h` and cell `i` are locked. */
  ghost predicate BehindLocked(s: Storage<IndexEntry>, h: nat, i: nat)
    requires i < |s.cells|
  {
    forall j :: InWindow(h, (i - h) % |s.cells|, |s.cells|, j) ==> s.cells[j].uid != 0
  }

  lemma NextInTurn(cfg: Config, from: Storage<IndexEntry>, oldSeed: u64, ix: nat, acc: Storage<IndexEntry>, seed: u64)
    requires IndexInv(cfg, from, oldSeed) && IndexInv(cfg, acc, seed)
    requires from.IsLocked(ix) && HoldsPrefix(from, ix, acc) && InTurn(cfg, from, acc, seed)
    ensures var r := CreateKey(cfg, acc, from.cells[ix].payload, from.cells[ix].uid, seed);
            r.Ok? ==> InTurn(cfg, from, r.value.1, seed)
  {
    assert acc.Valid() && CellOk(cfg, from, oldSeed, ix) && DistinctKeys(from) && DistinctKeys(acc);
    hide BehindLocked, IndexInv, HoldsPrefix, InTurn, CreateKey, Entries, StoredKeys, DistinctKeys;
    EntryAt(from, ix);
    HeldComeBefore(from, ix, acc);
    CreatedBehindLocked(cfg, acc, from.cells[ix].payload, seed);
    var r := CreateKey(cfg, acc, from.cells[ix].payload, from.cells[ix].uid, seed);
    if r.Ok? {
      OneMoreInTurn(cfg, from, ix, acc, r.value.1, r.value.0, seed);
    }
  }

  lemma CreatedBehindLocked(cfg: Config, s: Storage<IndexEntry>, entry: IndexEntry, seed: u64)
    requires s.Valid()
    ensures var r := CreateKey(cfg, s, entry, KeyUid(cfg, entry.key), seed);
            r.Ok? ==>
              var (ii, s') := r.value;
              && ii < |s.cells| && !s.IsLocked(ii) && s'.IsLocked(ii) && s'.cells == s.cells[ii := s'.cells[ii]]
              && s'.cells[ii].payload.key == entry.key
              && BehindLocked(s, cfg.ixHash(KeyUid(cfg, entry.key), seed), ii)
  {
    hide InWindow, FirstFree;
    FirstFreeExact(s.cells, cfg.ixHash(KeyUid(cfg, entry.key), seed), cfg.maxSearch);
  }

  lemma HeldComeBefore(from: Storage<IndexEntry>, ix: nat, acc: Storage<IndexEntry>)
    requires DistinctKeys(from) && DistinctKeys(acc) && HoldsPrefix(from, ix, acc)
    ensures forall i :: from.IsLocked(i) ==> from.cells[i].payload.key in StoredKeys(from)
    ensures forall j :: acc.IsLocked(j) ==>
              acc.cells[j].payload.key in StoredKeys(from) && Where(from, acc.cells[j].payload.key) < ix
  {
    forall j | acc.IsLocked(j)
      ensures acc.cells[j].payload.key in StoredKeys(from) && Where(from, acc.cells[j].payload.key) < ix
    {
      EntryAt(acc, j);
    }
    forall i | from.IsLocked(i)
      ensures from.cells[i].payload.key in StoredKeys(from)
    {
      EntryAt(from, i);
    }
  }

  lemma OneMoreInTurn(cfg: Config, from: Storage<IndexEntry>, ix: nat, acc: Storage<IndexEntry>,
                      acc': Storage<IndexEntry>, ii: nat, seed: u64)
    requires ii < |acc.cells| && !acc.IsLocked(ii) && acc'.IsLocked(ii) && acc'.cells == acc.cells[ii := acc'.cells[ii]]
    requires acc'.cells[ii].payload.key in StoredKeys(from) && Where(from, acc'.cells[ii].payload.key) == ix
    requires InTurn(cfg, from, acc, seed)
    requires forall j :: acc.IsLocked(j) ==> Where(from, acc.cells[j].payload.key) < ix
    requires BehindLocked(acc, HashAt(cfg, acc', seed, ii), ii)
    ensures InTurn(cfg, from, acc', seed)
  {
    hide StoredKeys;
    var n := |acc.cells|;
    forall i, j | acc'.IsLocked(i)
                  && InWindow(HashAt(cfg, acc', seed, i), (i - HashAt(cfg, acc', seed, i)) % n, n, j)
      ensures acc'.IsLocked(j) && acc'.cells[j].payload.key in StoredKeys(from)
      ensures Where(from, acc'.cells[j].payload.key) < Where(from, acc'.cells[i].payload.key)
    {
      assert acc.IsLocked(j) && j != ii;
    }
  }

  lemma {:induction false} RehashInTurn(cfg: Config, from: Storage<IndexEntry>, oldSeed: u64,
                                        ix: nat, acc: Storage<IndexEntry>, seed: u64)
    requires IndexInv(cfg, from, oldSeed) && IndexInv(cfg, acc, seed)
    requires ix <= |from.cells| && HoldsPrefix(from, ix, acc) && InTurn(cfg, from, acc, seed)
    ensures var r := Rehash(cfg, from, ix, acc, seed);
            r.Some? ==> InTurn(cfg, from, r.value, seed)
    decreases |from.cells| - ix
  {
    assert acc.Valid();
    hide InTurn, IndexInv, HoldsPrefix, Entries, Rehash, CreateKey;
    RehashUnfolds(cfg, from, ix, acc, seed);
    if ix < |from.cells| {
      if from.cells[ix].uid == UID_UNLOCKED {
        PrefixSkips(from, ix, acc);
        RehashInTurn(cfg, from, oldSeed, ix + 1, acc, seed);
      } else {
        NextInTurn(cfg, from, oldSeed, ix, acc, seed);
        var r := RehashStep(cfg, from, oldSeed, ix, acc, seed);
        if r.Ok? {
          RehashInTurn(cfg, from, oldSeed, ix + 1, r.value.1, seed);
        }
      }
    }
  }

  /** Entries are placed in the order of the old cells, each as close behind its hash as those before it allow. */
  lemma AttemptInTurn(cfg: Config, from: Storage<IndexEntry>, oldSeed: u64, inc: nat, seed: u64)
    requires IndexInv(cfg, from, oldSeed)
    ensures var r := Attempt(cfg, from, inc, seed);
            r.Some? ==> InTurn(cfg, from, r.value, seed)
  {
    var blank := Fresh(from.pow2 + inc, 1, ZeroEntry());
    assert LockedCells(blank) == {};
    RehashInTurn(cfg, from, oldSeed, 0, blank, seed);
  }

  // ---- when re-hashing can and cannot succeed

  /** The cells of a window of `m` cells, which may wrap around the table and onto itself. */
  ghost function WindowCells(start: nat, m: nat, n: nat): (r: set<int>)
    requires n > 0
  {
    set d: nat | d < m :: Slot(start, d, n)
  }

  lemma CellOfWindow(h: nat, m: nat, n: nat, i: int)
    requires n > 0
    ensures i in WindowCells(h % n, m, n) <==> InWindow(h, m, n, i)
  {
    hide Slot;
    if i in WindowCells(h % n, m, n) {
      var d: nat :| d < m && Slot(h % n, d, n) == i;
      SlotIsInWindow(h, d, n);
      RemainderBelow(d, n);
    }
    if InWindow(h, m, n, i) {
      WindowIsSlots(h, n, i);
    }
  }

  lemma {:induction false} WindowSize(start: nat, m: nat, n: nat)
    requires n > 0
    ensures |WindowCells(start, m, n)| <= m
    ensures m <= n ==> |WindowCells(start, m, n)| == m
  {
    hide Slot;
    if m == 0 {
      assert WindowCells(start, m, n) == {};
    } else {
      WindowSize(start, m - 1, n);
      var last := Slot(start, m - 1, n);
      assert WindowCells(start, m, n) == WindowCells(start, m - 1, n) + {last};
      if m <= n {
        forall d: nat | d < m - 1
          ensures Slot(start, d, n) != last
        {
          SlotsDiffer(start, d, m - 1, n);
        }
      }
    }
  }

  lemma SlotsDiffer(start: nat, d: nat, e: nat, n: nat)
    requires d < e < n || d < e < d + n
    ensures Slot(start, d, n) != Slot(start, e, n)
  {
    var q, q' := (start + d) / n, (start + e) / n;
    if Slot(start, d, n) == Slot(start, e, n) {
      assert start + d == q * n + Slot(start, d, n);
      assert start + e == q' * n + Slot(start, e, n);
      if q' > q {
        MultipleDistance(q', q, n);
      } else if q' < q {
        MultipleDistance(q, q', n);
      }
      assert false;
    }
  }

  lemma {:induction false} SubsetSize<X>(a: set<X>, b: set<X>)
    requires a <= b
    ensures |a| <= |b|
    decreases |a|
  {
    if a != {} {
      var x :| x in a;
      SubsetSize(a - {x}, b - {x});
    }
  }

  /** Keys that share a uid share a window whatever the seed, so at most `maxSearch` of them fit. */
  lemma SharedUidBound(cfg: Config, s: Storage<IndexEntry>, seed: u64, keys: set<Pubkey>, uid: Uid)
    requires IndexInv(cfg, s, seed)
    requires keys <= Entries(s).Keys && forall k :: k in keys ==> KeyUid(cfg, k) == uid
    ensures |keys| <= cfg.maxSearch
  {
    if keys != {} {
      var n := |s.cells|;
      var h := cfg.ixHash(uid, seed);
      var window := WindowCells(h % n, cfg.maxSearch, n);
      var cells := set k | k in keys :: Where(s, k);
      forall k | k in keys
        ensures Where(s, k) in window
      {
        assert CellOk(cfg, s, seed, Where(s, k));
        CellOfWindow(h, cfg.maxSearch, n, Where(s, k));
      }
      WindowSize(h % n, cfg.maxSearch, n);
      SubsetSize(cells, window);
      CellsOfKeys(s, keys);
    }
  }

  lemma CellsOfKeys(s: Storage<IndexEntry>, keys: set<Pubkey>)
    requires DistinctKeys(s) && keys <= Entries(s).Keys
    ensures |set k | k in keys :: Where(s, k)| == |keys|
  {
    var cells := set k | k in keys :: Where(s, k);
    ImageSize(s, cells);
    assert (set i | i in cells :: s.cells[i].payload.key) == keys;
  }
}
