/** When every key of a set finds room in the index, in whatever order the keys come. */
module Crowding {
  import opened PowersOfTwo
  import opened StorageModel
  import opened IndexModel
  import opened IndexGrowth

  /** The windows of two keys have a cell in common. */
  ghost predicate Meet(cfg: Config, n: nat, seed: u64, k: Pubkey, k': Pubkey)
    requires n > 0
  {
    exists i ::
      && InWindow(cfg.ixHash(KeyUid(cfg, k), seed), cfg.maxSearch, n, i)
      && InWindow(cfg.ixHash(KeyUid(cfg, k'), seed), cfg.maxSearch, n, i)
  }

  /** The other keys whose windows meet the window of `key`. */
  ghost function Crowd(cfg: Config, keys: set<Pubkey>, n: nat, seed: u64, key: Pubkey): set<Pubkey>
    requires n > 0
  {
    set k | k in keys && k != key && Meet(cfg, n, seed, key, k)
  }

  /** Number of cells of a window, which may wrap onto itself. */
  function Width(cfg: Config, n: nat): nat {
    if cfg.maxSearch <= n then cfg.maxSearch else n
  }

  /** Every key has more cells in its window than other keys around it. */
  ghost predicate Uncrowded(cfg: Config, keys: set<Pubkey>, n: nat, seed: u64)
    requires n > 0
  {
    forall key :: key in keys ==> |Crowd(cfg, keys, n, seed, key)| < Width(cfg, n)
  }

  /** A cell of the window of `key` is free. */
  ghost predicate HasRoom(cfg: Config, s: Storage<IndexEntry>, key: Pubkey, seed: u64)
    requires s.Valid()
  {
    exists i :: InWindow(cfg.ixHash(KeyUid(cfg, key), seed), cfg.maxSearch, |s.cells|, i) && s.cells[i].uid == 0
  }

  /** A key finds a free cell in a table that holds others of an uncrowded set. */
  lemma RoomIfUncrowded(cfg: Config, s: Storage<IndexEntry>, seed: u64, keys: set<Pubkey>, key: Pubkey)
    requires IndexInv(cfg, s, seed) && Entries(s).Keys <= keys && key in keys && key !in Entries(s)
    requires Uncrowded(cfg, keys, |s.cells|, seed)
    ensures HasRoom(cfg, s, key, seed)
  {
    hide InWindow, Meet, Slot;
    var n, h := |s.cells|, cfg.ixHash(KeyUid(cfg, key), seed);
    if !HasRoom(cfg, s, key, seed) {
      var window := WindowCells(h % n, Width(cfg, n), n);
      WindowSize(h % n, Width(cfg, n), n);
      forall i | i in window
        ensures s.IsLocked(i) && s.cells[i].payload.key in Crowd(cfg, keys, n, seed, key)
      {
        CellOfWindow(h, Width(cfg, n), n, i);
        WiderWindow(h, Width(cfg, n), cfg.maxSearch, n, i);
        HeldKeyMeets(cfg, s, seed, keys, key, i);
      }
      assert window <= LockedCells(s);
      ImageSize(s, window);
      var held := set i | i in window :: s.cells[i].payload.key;
      SubsetSize(held, Crowd(cfg, keys, n, seed, key));
      assert false;
    }
  }

  lemma WiderWindow(h: nat, m: nat, m': nat, n: nat, i: int)
    requires n > 0 && m <= m' && InWindow(h, m, n, i)
    ensures InWindow(h, m', n, i) && 0 <= i < n
  {
  }

  lemma HeldKeyMeets(cfg: Config, s: Storage<IndexEntry>, seed: u64, keys: set<Pubkey>, key: Pubkey, i: int)
    requires IndexInv(cfg, s, seed) && Entries(s).Keys <= keys && key !in Entries(s)
    requires s.IsLocked(i) && InWindow(cfg.ixHash(KeyUid(cfg, key), seed), cfg.maxSearch, |s.cells|, i)
    ensures s.cells[i].payload.key in Crowd(cfg, keys, |s.cells|, seed, key)
  {
    hide InWindow;
    EntryAt(s, i);
    assert CellOk(cfg, s, seed, i);
    assert Meet(cfg, |s.cells|, seed, key, s.cells[i].payload.key);
  }

  /** The next entry of an uncrowded set finds room. */
  lemma NextFits(cfg: Config, from: Storage<IndexEntry>, oldSeed: u64, ix: nat, acc: Storage<IndexEntry>, seed: u64,
                 keys: set<Pubkey>) returns (acc': Storage<IndexEntry>)
    requires IndexInv(cfg, from, oldSeed) && IndexInv(cfg, acc, seed) && from.IsLocked(ix) && HoldsPrefix(from, ix, acc)
    requires Entries(from).Keys <= keys && Uncrowded(cfg, keys, |acc.cells|, seed)
    ensures IndexInv(cfg, acc', seed) && HoldsPrefix(from, ix + 1, acc') && |acc'.cells| == |acc.cells|
    ensures Rehash(cfg, from, ix, acc, seed) == Rehash(cfg, from, ix + 1, acc', seed)
  {
    assert acc.Valid();
    hide Uncrowded, HoldsPrefix, IndexInv, Entries, Rehash, CreateKey, HasRoom;
    RehashTakes(cfg, from, ix, acc, seed);
    NextIsNew(cfg, from, oldSeed, ix, acc);
    RoomIfUncrowded(cfg, acc, seed, keys, from.cells[ix].payload.key);
    var r := RehashStep(cfg, from, oldSeed, ix, acc, seed);
    acc' := r.value.1;
  }

  /** The re-hash takes an entry whose window has a free cell. */
  lemma RehashTakes(cfg: Config, from: Storage<IndexEntry>, ix: nat, acc: Storage<IndexEntry>, seed: u64)
    requires from.IsLocked(ix) && acc.Valid()
    ensures var r := CreateKey(cfg, acc, from.cells[ix].payload, from.cells[ix].uid, seed);
            && (HasRoom(cfg, acc, from.cells[ix].payload.key, seed) ==> r.Ok?)
            && (r.Ok? ==> |r.value.1.cells| == |acc.cells|
                          && Rehash(cfg, from, ix, acc, seed) == Rehash(cfg, from, ix + 1, r.value.1, seed))
  {
    hide InWindow;
    FirstFreeExact(acc.cells, cfg.ixHash(KeyUid(cfg, from.cells[ix].payload.key), seed), cfg.maxSearch);
  }

  /** Re-hashing an uncrowded set succeeds. */
  lemma {:induction false} RehashFits(cfg: Config, from: Storage<IndexEntry>, oldSeed: u64, ix: nat,
                                      acc: Storage<IndexEntry>, seed: u64, keys: set<Pubkey>)
    requires IndexInv(cfg, from, oldSeed) && IndexInv(cfg, acc, seed)
    requires ix <= |from.cells| && HoldsPrefix(from, ix, acc)
    requires Entries(from).Keys <= keys && Uncrowded(cfg, keys, |acc.cells|, seed)
    ensures Rehash(cfg, from, ix, acc, seed).Some?
    decreases |from.cells| - ix
  {
    assert acc.Valid();
    hide Uncrowded, HoldsPrefix, IndexInv, Entries, Rehash;
    RehashUnfolds(cfg, from, ix, acc, seed);
    if ix < |from.cells| {
      if from.cells[ix].uid == UID_UNLOCKED {
        PrefixSkips(from, ix, acc);
        RehashFits(cfg, from, oldSeed, ix + 1, acc, seed, keys);
      } else {
        var acc' := NextFits(cfg, from, oldSeed, ix, acc, seed, keys);
        RehashFits(cfg, from, oldSeed, ix + 1, acc', seed, keys);
      }
    }
  }

  lemma NextIsNew(cfg: Config, from: Storage<IndexEntry>, oldSeed: u64, ix: nat, acc: Storage<IndexEntry>)
    requires IndexInv(cfg, from, oldSeed) && from.IsLocked(ix) && HoldsPrefix(from, ix, acc)
    ensures from.cells[ix].payload.key in Entries(from) && from.cells[ix].payload.key !in Entries(acc)
    ensures Entries(acc).Keys <= Entries(from).Keys
  {
  }

  lemma AttemptFits(cfg: Config, from: Storage<IndexEntry>, oldSeed: u64, inc: nat, seed: u64, keys: set<Pubkey>)
    requires IndexInv(cfg, from, oldSeed) && Entries(from).Keys <= keys
    requires Uncrowded(cfg, keys, Pow2(from.pow2 + inc), seed)
    ensures Attempt(cfg, from, inc, seed).Some?
  {
    hide Uncrowded;
    RehashFits(cfg, from, oldSeed, 0, Fresh(from.pow2 + inc, 1, ZeroEntry()), seed, keys);
  }

  lemma OwnSlot(i: nat, n: nat)
    requires i < n
    ensures Slot(0, i, n) == i
  {
  }

  lemma LockedFit<E>(s: Storage<E>)
    ensures |LockedCells(s)| <= |s.cells|
  {
    hide Slot;
    var n := |s.cells|;
    if n > 0 {
      forall i | i in LockedCells(s)
        ensures i in WindowCells(0, n, n)
      {
        OwnSlot(i, n);
      }
      WindowSize(0, n, n);
      SubsetSize(LockedCells(s), WindowCells(0, n, n));
    } else {
      assert LockedCells(s) == {};
    }
  }

  // ---- larger tables

  lemma ModOfMod(x: int, n: nat, step: nat)
    requires n > 0 && step > 0
    ensures n * step > 0 && (x % (n * step)) % n == x % n
  {
    var big := n * step;
    assert big >= n * 1;
    var q, r := x / big, x % big;
    Divided(x, big);
    Divided(r, n);
    Regroup(n, step, q, r / n);
    SameRemainder(x, n, step * q + r / n, r % n);
  }

  lemma Regroup(n: int, step: int, q: int, d: int)
    ensures (step * q + d) * n == (n * step) * q + n * d
  {
    assert (step * q) * n == (n * step) * q;
  }

  lemma WrappedDifference(x: int, y: int, n: nat)
    requires n > 0
    ensures (x % n - y) % n == (x - y) % n
  {
    var z := x % n - y;
    Divided(x, n);
    Divided(z, n);
    ThreeMultiples(n, x / n, -(z / n), 0);
    SameRemainder(x - y, n, x / n + z / n, z % n);
  }

  /** A cell of a window of the larger table, taken back to the smaller one, is in the window there. */
  lemma WindowShrinks(h: nat, m: nat, n: nat, step: nat, i: int)
    requires n > 0 && step > 0 && n * step > 0 && InWindow(h, m, n * step, i)
    ensures InWindow(h, m, n, i % n)
  {
    WrappedDifference(i, h, n);
    CloserInSmaller(i - h, n, step);
  }

  lemma CloserInSmaller(x: int, n: nat, step: nat)
    requires n > 0 && step > 0 && n * step > 0
    ensures x % n <= x % (n * step)
  {
    ModOfMod(x, n, step);
    RemainderBelow(x % (n * step), n);
  }

  /** Windows that meet in a larger table meet in the smaller one. */
  lemma MeetShrinks(cfg: Config, n: nat, step: nat, seed: u64, k: Pubkey, k': Pubkey)
    requires n > 0 && step > 0 && n * step > 0 && Meet(cfg, n * step, seed, k, k')
    ensures Meet(cfg, n, seed, k, k')
  {
    hide InWindow;
    var h, h' := cfg.ixHash(KeyUid(cfg, k), seed), cfg.ixHash(KeyUid(cfg, k'), seed);
    var i :| InWindow(h, cfg.maxSearch, n * step, i) && InWindow(h', cfg.maxSearch, n * step, i);
    WindowShrinks(h, cfg.maxSearch, n, step, i);
    WindowShrinks(h', cfg.maxSearch, n, step, i);
  }

  /** A set that is uncrowded in a table stays so in every larger one. */
  lemma UncrowdedGrows(cfg: Config, keys: set<Pubkey>, n: nat, step: nat, seed: u64)
    requires n > 0 && step > 0 && Uncrowded(cfg, keys, n, seed)
    ensures n * step >= n && Uncrowded(cfg, keys, n * step, seed)
  {
    hide Meet;
    assert n * step >= n * 1;
    forall key | key in keys
      ensures |Crowd(cfg, keys, n * step, seed, key)| < Width(cfg, n * step)
    {
      forall k | k in Crowd(cfg, keys, n * step, seed, key)
        ensures k in Crowd(cfg, keys, n, seed, key)
      {
        MeetShrinks(cfg, n, step, seed, key, k);
      }
      SubsetSize(Crowd(cfg, keys, n * step, seed, key), Crowd(cfg, keys, n, seed, key));
    }
  }

  lemma UncrowdedAtPow2(cfg: Config, keys: set<Pubkey>, p: nat, q: nat, seed: u64)
    requires p <= q && Uncrowded(cfg, keys, Pow2(p), seed)
    ensures Uncrowded(cfg, keys, Pow2(q), seed)
  {
    hide Uncrowded;
    Pow2Adds(p, q - p);
    UncrowdedGrows(cfg, keys, Pow2(p), Pow2(q - p), seed);
  }

  // ---- sets that are uncrowded

  /** No more keys than a window has cells. */
  lemma FewAreUncrowded(cfg: Config, keys: set<Pubkey>, n: nat, seed: u64)
    requires n > 0 && |keys| <= Width(cfg, n)
    ensures Uncrowded(cfg, keys, n, seed)
  {
    forall key | key in keys
      ensures |Crowd(cfg, keys, n, seed, key)| < Width(cfg, n)
    {
      SubsetSize(Crowd(cfg, keys, n, seed, key), keys - {key});
    }
  }

  /** Two windows have a cell in common exactly when one starts less than their length behind the other. */
  lemma WindowsMeet(x: int, y: int, m: nat, n: nat)
    requires n > 0
    ensures (exists i :: InWindow(x, m, n, i) && InWindow(y, m, n, i)) <==> (x - y) % n < m || (y - x) % n < m
  {
    if (x - y) % n < m {
      StartIsIn(x, y, m, n);
    } else if (y - x) % n < m {
      StartIsIn(y, x, m, n);
    } else {
      forall i | InWindow(x, m, n, i)
        ensures !InWindow(y, m, n, i)
      {
        SharedCellIsClose(x, y, n, i);
      }
    }
  }

  lemma StartIsIn(x: int, y: int, m: nat, n: nat)
    requires n > 0 && (x - y) % n < m
    ensures InWindow(x, m, n, x % n) && InWindow(y, m, n, x % n)
  {
    WrappedDifference(x, x, n);
    WrappedDifference(x, y, n);
  }

  lemma SharedCellIsClose(x: int, y: int, n: nat, i: int)
    requires n > 0
    ensures (x - y) % n <= (i - y) % n || (y - x) % n <= (i - x) % n
  {
    var dx, dy := (i - x) % n, (i - y) % n;
    var qx, qy := (i - x) / n, (i - y) / n;
    Divided(i - x, n);
    Divided(i - y, n);
    if dy >= dx {
      ThreeMultiples(n, qy, qx, 0);
      SameRemainder(x - y, n, qy - qx, dy - dx);
    } else {
      ThreeMultiples(n, qx, qy, 0);
      SameRemainder(y - x, n, qx - qy, dx - dy);
    }
  }

  /** Keys with different uids hash to positions at least a window apart, in both directions. */
  ghost predicate Separated(cfg: Config, keys: set<Pubkey>, n: nat, seed: u64)
    requires n > 0
  {
    forall k, k' :: k in keys && k' in keys && KeyUid(cfg, k) != KeyUid(cfg, k') ==>
      (cfg.ixHash(KeyUid(cfg, k), seed) - cfg.ixHash(KeyUid(cfg, k'), seed)) % n >= cfg.maxSearch
  }

  ghost function SharingUid(cfg: Config, keys: set<Pubkey>, key: Pubkey): set<Pubkey> {
    set k | k in keys && KeyUid(cfg, k) == KeyUid(cfg, key)
  }

  /** Separated keys are uncrowded when no more of them share a uid than a window has cells. */
  lemma SeparatedIsUncrowded(cfg: Config, keys: set<Pubkey>, n: nat, seed: u64)
    requires n > 0 && Separated(cfg, keys, n, seed)
    requires forall key :: key in keys ==> |SharingUid(cfg, keys, key)| <= Width(cfg, n)
    ensures Uncrowded(cfg, keys, n, seed)
  {
    forall key | key in keys
      ensures |Crowd(cfg, keys, n, seed, key)| < Width(cfg, n)
    {
      forall k | k in Crowd(cfg, keys, n, seed, key)
        ensures k in SharingUid(cfg, keys, key)
      {
        WindowsMeet(cfg.ixHash(KeyUid(cfg, key), seed), cfg.ixHash(KeyUid(cfg, k), seed), cfg.maxSearch, n);
      }
      SubsetSize(Crowd(cfg, keys, n, seed, key), SharingUid(cfg, keys, key) - {key});
    }
  }

  /** Adding a key whose uid is still below the bound. */
  lemma OneMoreShares(cfg: Config, stored: set<Pubkey>, key: Pubkey, n: nat)
    requires |stored| < n && |SharingUid(cfg, stored, key)| < cfg.maxSearch
    requires forall k :: k in stored ==> |SharingUid(cfg, stored, k)| <= cfg.maxSearch
    ensures forall k :: k in stored + {key} ==> |SharingUid(cfg, stored + {key}, k)| <= Width(cfg, n)
  {
    var keys := stored + {key};
    forall k | k in keys
      ensures |SharingUid(cfg, keys, k)| <= Width(cfg, n)
    {
      SubsetSize(SharingUid(cfg, keys, k), keys);
      if KeyUid(cfg, k) == KeyUid(cfg, key) {
        SubsetSize(SharingUid(cfg, keys, k), SharingUid(cfg, stored, key) + {key});
      } else {
        assert SharingUid(cfg, keys, k) == SharingUid(cfg, stored, k);
      }
    }
  }
}
