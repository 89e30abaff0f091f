/** How many growths an insert needs, when it is sure to finish, and when it never can. */
module InsertProgress {
  import opened PowersOfTwo
  import opened StorageModel
  import opened IndexModel
  import opened IndexGrowth
  import opened Crowding
  import opened DataModel
  import opened DataGrowth
  import opened BucketModel
  import opened GrowthModel

  /** The data storage for lists of this length exists and has its odd cells free. */
  ghost predicate Roomy<T>(data: seq<DataStorage<T>>, slots: seq<T>) {
    var best := DataBucketFromNumSlots(|slots|);
    best < |data| && OddCellsFree(data[best])
  }

  lemma RoomyIsNotFull<T>(cfg: Config, b: BucketState<T>, slots: seq<T>, draw: u64)
    requires Live(cfg, b) && cfg.maxSearch >= 2 && Roomy(b.data, slots)
    ensures StorageOk(b.data[DataBucketFromNumSlots(|slots|)], DataBucketFromNumSlots(|slots|))
    ensures !DataFull(cfg, b.data, slots, draw)
  {
    var best := DataBucketFromNumSlots(|slots|);
    assert StorageOk(b.data[best], best);
    OddCellsServe(b.data[best], draw, cfg.maxSearch);
  }

  /** A data growth makes room and leaves the index alone; an index growth leaves the data alone. */
  lemma RetryMakesRoom<T>(cfg: Config, b: BucketState<T>, key: Pubkey, slots: seq<T>, rc: u64, draws: seq<u64>)
    requires Inv(cfg, b) && b.active == 0 && draws != [] && InsertRound(cfg, b, key, slots, rc, draws).Retry?
    ensures var r := InsertRound(cfg, b, key, slots, rc, draws);
            && (r.error.DataNoSpace? ==> Roomy(r.next.data, slots) && r.rest == draws[1..])
            && (r.error.DataNoSpace? && key !in Abs(cfg, r.next)
                ==> r.next.index == b.index && r.next.random == b.random)
            && (r.error.IndexNoSpace? ==> r.next.data == b.data)
  {
    hide IndexInv, DataInv, Meaning, TryWrite, GrowData, GrowIndex, HandleDelayedGrows;
    var w, b1 := TryWriteRefines(cfg, b, key, slots, rc, draws[0]);
    if w.error.DataNoSpace? {
      GrowingMakesRoom(cfg, b1, slots, w.error, draws[1..]);
      RoundRefines(cfg, b, key, slots, rc, draws);
    } else {
      IndexGrowthKeepsData(cfg, b1, w.error, draws[1..]);
    }
  }

  lemma IndexGrowthKeepsData<T>(cfg: Config, b: BucketState<T>, err: BucketMapError, seeds: seq<u64>)
    requires Inv(cfg, b) && b.active == 0 && err.IndexNoSpace?
    ensures Inv(cfg, Grow(cfg, b, err, seeds).1)
    ensures HandleDelayedGrows(cfg, Grow(cfg, b, err, seeds).1).data == b.data
  {
    GrowKeeps(cfg, b, err, seeds);
  }

  lemma GrowingMakesRoom<T>(cfg: Config, b: BucketState<T>, slots: seq<T>, err: BucketMapError, seeds: seq<u64>)
    requires Inv(cfg, b) && b.active == 0
    requires err.DataNoSpace? && err.bucketIx == DataBucketFromNumSlots(|slots|)
    requires err.bucketIx < |b.data| ==> b.data[err.bucketIx].pow2 == err.currentCapacityPow2
    ensures Grow(cfg, b, err, seeds).0 == Parked && Inv(cfg, Grow(cfg, b, err, seeds).1)
    ensures var b' := HandleDelayedGrows(cfg, Grow(cfg, b, err, seeds).1);
            Roomy(b'.data, slots) && b'.index == b.index && b'.random == b.random
  {
    GrowKeeps(cfg, b, err, seeds);
    var ix := err.bucketIx;
    if ix < |b.data| {
      assert StorageOk(b.data[ix], ix);
    }
    GrownOddCellsFree(b.data, ix, GrownPow2(err.currentCapacityPow2), b.zero);
  }

  /** How many data growths the call performs. */
  function DataGrowths<T>(cfg: Config, b: BucketState<T>, key: Pubkey, slots: seq<T>, rc: u64, draws: seq<u64>): nat
    requires Inv(cfg, b) && b.active != 1
    decreases |draws|
  {
    if draws == [] then 0
    else
      match InsertRound(cfg, b, key, slots, rc, draws)
      case Wrote(_, _) => 0
      case Halted(_, _, _) => 0
      case Retry(err, next, rest) =>
        (if err.DataNoSpace? then 1 else 0) + DataGrowths(cfg, next, key, slots, rc, rest)
  }

  lemma {:induction false} RoomyNeedsNone<T>(cfg: Config, b: BucketState<T>, key: Pubkey, slots: seq<T>, rc: u64,
                                             draws: seq<u64>)
    requires Inv(cfg, b) && b.active == 0 && cfg.maxSearch >= 2 && Roomy(b.data, slots)
    ensures DataGrowths(cfg, b, key, slots, rc, draws) == 0
    decreases |draws|
  {
    if draws != [] {
      var r := InsertRound(cfg, b, key, slots, rc, draws);
      if r.Retry? {
        RoundRefines(cfg, b, key, slots, rc, draws);
        RoomyIsNotFull(cfg, b, slots, draws[0]);
        RetryMakesRoom(cfg, b, key, slots, rc, draws);
        RoomyNeedsNone(cfg, r.next, key, slots, rc, r.rest);
      }
    }
  }

  /** One insert performs at most one data growth, whatever the random start cells and seeds. */
  lemma {:induction false} AtMostOneDataGrowth<T>(cfg: Config, b: BucketState<T>, key: Pubkey, slots: seq<T>, rc: u64,
                                                  draws: seq<u64>)
    requires Inv(cfg, b) && b.active == 0 && cfg.maxSearch >= 2
    ensures DataGrowths(cfg, b, key, slots, rc, draws) <= 1
    decreases |draws|
  {
    if draws != [] {
      var r := InsertRound(cfg, b, key, slots, rc, draws);
      if r.Retry? {
        RoundRefines(cfg, b, key, slots, rc, draws);
        RetryMakesRoom(cfg, b, key, slots, rc, draws);
        if r.error.DataNoSpace? {
          RoomyNeedsNone(cfg, r.next, key, slots, rc, r.rest);
        } else {
          AtMostOneDataGrowth(cfg, r.next, key, slots, rc, r.rest);
        }
      }
    }
  }

  lemma RoomyFinishes<T>(cfg: Config, b: BucketState<T>, key: Pubkey, slots: seq<T>, rc: u64, draws: seq<u64>)
    requires Inv(cfg, b) && b.active == 0 && cfg.maxSearch >= 2 && draws != [] && Roomy(b.data, slots)
    requires key in Abs(cfg, b) || !WindowFull(cfg, b, key)
    ensures Insert(cfg, b, key, slots, rc, draws).0 == Done
  {
    RoundRefines(cfg, b, key, slots, rc, draws);
    RoomyIsNotFull(cfg, b, slots, draws[0]);
  }

  /** With index room for the key, two attempts are enough. */
  lemma InsertFinishes<T>(cfg: Config, b: BucketState<T>, key: Pubkey, slots: seq<T>, rc: u64, draws: seq<u64>)
    requires Inv(cfg, b) && b.active == 0 && cfg.maxSearch >= 2 && |draws| >= 2
    requires key in Abs(cfg, b) || !WindowFull(cfg, b, key)
    ensures Insert(cfg, b, key, slots, rc, draws).0 == Done
  {
    RoundRefines(cfg, b, key, slots, rc, draws);
    var r := InsertRound(cfg, b, key, slots, rc, draws);
    FirstErrorIsData(cfg, b, key, slots, rc, draws);
    if r.Retry? {
      RetryMakesRoom(cfg, b, key, slots, rc, draws);
      RoomyFinishes(cfg, r.next, key, slots, rc, r.rest);
    }
  }

  lemma FirstErrorIsData<T>(cfg: Config, b: BucketState<T>, key: Pubkey, slots: seq<T>, rc: u64, draws: seq<u64>)
    requires Inv(cfg, b) && b.active == 0 && draws != []
    requires key in Abs(cfg, b) || !WindowFull(cfg, b, key)
    ensures var r := InsertRound(cfg, b, key, slots, rc, draws);
            !r.Halted? && (r.Retry? ==> r.error.DataNoSpace?) && (key in Abs(cfg, b) ==> key in Abs(cfg, r.next))
  {
    hide IndexInv, DataInv, Meaning, TryWrite, WindowFull, DataFull;
    RoundRefines(cfg, b, key, slots, rc, draws);
    var w, b1 := TryWriteRefines(cfg, b, key, slots, rc, draws[0]);
    if w.Err? {
      GrowingMakesRoom(cfg, b1, slots, w.error, draws[1..]);
    }
  }

  // ---- when the index has to grow

  /** Under this seed, and in every index larger than the present one, the stored keys and the new one find room. */
  ghost predicate Fitting<T>(cfg: Config, b: BucketState<T>, key: Pubkey, seed: u64)
    requires Live(cfg, b)
  {
    Uncrowded(cfg, Abs(cfg, b).Keys + {key}, Pow2(b.index.pow2 + 1), seed)
  }

  /** The round that grows the index stops at a fitting seed, if not before. */
  lemma IndexRound<T>(cfg: Config, b: BucketState<T>, key: Pubkey, slots: seq<T>, rc: u64, draws: seq<u64>, i: nat)
    returns (n: nat)
    requires Inv(cfg, b) && b.active == 0 && key !in Abs(cfg, b) && WindowFull(cfg, b, key)
    requires DataBucketFromNumSlots(|slots|) < |b.data| && 1 <= i < |draws| && Fitting(cfg, b, key, draws[i])
    ensures 1 <= n <= i
    ensures var r := InsertRound(cfg, b, key, slots, rc, draws);
            && r.Retry? && r.rest == draws[n + 1..]
            && r.next.random == draws[n] && r.next.index.pow2 > b.index.pow2
            && r.next.active == 0 && r.next.data == b.data && Abs(cfg, r.next) == Abs(cfg, b)
  {
    hide IndexInv, DataInv, Meaning, TryWrite, Uncrowded, FirstFit;
    RoundRefines(cfg, b, key, slots, rc, draws);
    var w, b1 := TryWriteRefines(cfg, b, key, slots, rc, draws[0]);
    var m := FirstFitIsFirst(cfg, b.index, 1, draws[1..]);
    n := m + 1;
    if m >= i {
      assert Attempt(cfg, b.index, 1 + (i - 1), draws[1..][i - 1]).None?;
      FittingAttempt(cfg, b, key, i, draws[i]);
    }
    GrowKeeps(cfg, b, w.error, draws[1..]);
  }

  lemma FittingAttempt<T>(cfg: Config, b: BucketState<T>, key: Pubkey, inc: nat, seed: u64)
    requires Live(cfg, b) && inc >= 1 && Fitting(cfg, b, key, seed)
    ensures Attempt(cfg, b.index, inc, seed).Some?
  {
    hide Uncrowded, DataInv, Attempt;
    var keys := Abs(cfg, b).Keys + {key};
    UncrowdedAtPow2(cfg, keys, b.index.pow2 + 1, b.index.pow2 + inc, seed);
    AttemptFits(cfg, b.index, b.random, inc, seed, keys);
  }

  /** A bucket re-hashed under a fitting seed has room for the key. */
  lemma FittingHasRoom<T>(cfg: Config, b: BucketState<T>, b': BucketState<T>, key: Pubkey)
    requires Live(cfg, b) && Live(cfg, b') && Abs(cfg, b') == Abs(cfg, b) && key !in Abs(cfg, b)
    requires b'.index.pow2 > b.index.pow2 && Fitting(cfg, b, key, b'.random)
    ensures !WindowFull(cfg, b', key)
  {
    hide Uncrowded;
    var keys := Abs(cfg, b).Keys + {key};
    UncrowdedAtPow2(cfg, keys, b.index.pow2 + 1, b'.index.pow2, b'.random);
    RoomIfUncrowded(cfg, b'.index, b'.random, keys, key);
  }

  lemma FittingStays<T>(cfg: Config, b: BucketState<T>, b': BucketState<T>, key: Pubkey, seed: u64)
    requires Live(cfg, b) && Live(cfg, b') && Abs(cfg, b') == Abs(cfg, b) && b'.index.pow2 >= b.index.pow2
    requires Fitting(cfg, b, key, seed)
    ensures Fitting(cfg, b', key, seed)
  {
    hide Uncrowded, IndexInv, DataInv, Meaning;
    UncrowdedAtPow2(cfg, Abs(cfg, b).Keys + {key}, b.index.pow2 + 1, b'.index.pow2 + 1, seed);
  }

  lemma RestStillFits<T>(cfg: Config, b: BucketState<T>, b': BucketState<T>, key: Pubkey, draws: seq<u64>, i: nat,
                         n: nat)
    requires Live(cfg, b) && Live(cfg, b') && Abs(cfg, b') == Abs(cfg, b) && b'.index.pow2 >= b.index.pow2
    requires n <= i < |draws| - 1 && Fitting(cfg, b, key, draws[i]) && Fitting(cfg, b, key, draws[i + 1])
    ensures Fitting(cfg, b', key, draws[n..][i - n]) && Fitting(cfg, b', key, draws[n..][i - n + 1])
  {
    hide Fitting, IndexInv, DataInv, Meaning;
    FittingStays(cfg, b, b', key, draws[i]);
    FittingStays(cfg, b, b', key, draws[i + 1]);
  }

  /** A round before two fitting seeds in a row uses one of them to re-hash, or leaves both for later. */
  lemma FittingRound<T>(cfg: Config, b: BucketState<T>, key: Pubkey, slots: seq<T>, rc: u64, draws: seq<u64>, i: nat)
    returns (next: BucketState<T>, rest: seq<u64>, j: nat)
    requires Inv(cfg, b) && b.active == 0 && key !in Abs(cfg, b) && WindowFull(cfg, b, key)
    requires DataBucketFromNumSlots(|slots|) < |b.data|
    requires i + 4 <= |draws| && Fitting(cfg, b, key, draws[i]) && Fitting(cfg, b, key, draws[i + 1])
    ensures 2 <= |rest| < |draws| && Inv(cfg, next) && next.active == 0 && next.data == b.data
    ensures Insert(cfg, b, key, slots, rc, draws).0 == Insert(cfg, next, key, slots, rc, rest).0
    ensures !WindowFull(cfg, next, key)
            || (j + 4 <= |rest| && Fitting(cfg, next, key, rest[j]) && Fitting(cfg, next, key, rest[j + 1]))
  {
    hide IndexInv, DataInv, Meaning, TryWrite, Fitting, InsertRound;
    var last := if i == 0 then 1 else i;
    var n := IndexRound(cfg, b, key, slots, rc, draws, last);
    var r := InsertRound(cfg, b, key, slots, rc, draws);
    next, rest, j := r.next, r.rest, 0;
    if n == last {
      FittingHasRoom(cfg, b, next, key);
    } else {
      j := i - (n + 1);
      RestStillFits(cfg, b, next, key, draws, i, n + 1);
    }
  }

  /** With the data storage in place, two fitting seeds in a row are enough. */
  lemma {:induction false} TwoFittingFinish<T>(cfg: Config, b: BucketState<T>, key: Pubkey, slots: seq<T>, rc: u64,
                                               draws: seq<u64>, i: nat)
    requires Inv(cfg, b) && b.active == 0 && cfg.maxSearch >= 2 && DataBucketFromNumSlots(|slots|) < |b.data|
    requires i + 4 <= |draws| && Fitting(cfg, b, key, draws[i]) && Fitting(cfg, b, key, draws[i + 1])
    ensures Insert(cfg, b, key, slots, rc, draws).0 == Done
    decreases |draws|
  {
    assert b.index.Valid();
    hide IndexInv, DataInv, Meaning, Fitting, Insert;
    if key in Abs(cfg, b) || !WindowFull(cfg, b, key) {
      InsertFinishes(cfg, b, key, slots, rc, draws);
    } else {
      var next, rest, j := FittingRound(cfg, b, key, slots, rc, draws, i);
      if !WindowFull(cfg, next, key) {
        InsertFinishes(cfg, next, key, slots, rc, rest);
      } else {
        TwoFittingFinish(cfg, next, key, slots, rc, rest, j);
      }
    }
  }

  /**
   * An insert finishes once its random numbers hold three fitting seeds in a row: each number is used
   * as a start cell or as a seed, and of three in a row one is used as a seed.
   */
  lemma FittingSeedsFinish<T>(cfg: Config, b: BucketState<T>, key: Pubkey, slots: seq<T>, rc: u64, draws: seq<u64>,
                              i: nat)
    requires Inv(cfg, b) && b.active == 0 && cfg.maxSearch >= 2 && i + 5 <= |draws|
    requires forall j :: i <= j < i + 3 ==> Fitting(cfg, b, key, draws[j])
    ensures Insert(cfg, b, key, slots, rc, draws).0 == Done
  {
    assert b.index.Valid();
    hide IndexInv, DataInv, Meaning, TryWrite, Fitting, InsertRound;
    if key in Abs(cfg, b) || !WindowFull(cfg, b, key) {
      InsertFinishes(cfg, b, key, slots, rc, draws);
    } else if DataBucketFromNumSlots(|slots|) < |b.data| {
      TwoFittingFinish(cfg, b, key, slots, rc, draws, i);
    } else {
      MissingStorageRound(cfg, b, key, slots, rc, draws);
      var r := InsertRound(cfg, b, key, slots, rc, draws);
      var j := if i == 0 then 0 else i - 1;
      RestStillFits(cfg, b, r.next, key, draws, j + 1, 1);
      TwoFittingFinish(cfg, r.next, key, slots, rc, r.rest, j);
    }
  }

  /** A missing data storage is created first, before the index is looked at. */
  lemma MissingStorageRound<T>(cfg: Config, b: BucketState<T>, key: Pubkey, slots: seq<T>, rc: u64, draws: seq<u64>)
    requires Inv(cfg, b) && b.active == 0 && draws != [] && key !in Abs(cfg, b)
    requires DataBucketFromNumSlots(|slots|) >= |b.data|
    ensures var r := InsertRound(cfg, b, key, slots, rc, draws);
            && r.Retry? && r.rest == draws[1..] && r.next.active == 0
            && r.next.index == b.index && r.next.random == b.random && Abs(cfg, r.next) == Abs(cfg, b)
            && DataBucketFromNumSlots(|slots|) < |r.next.data|
  {
    hide IndexInv, DataInv, Meaning, TryWrite, GrowIndex, HandleDelayedGrows;
    RoundRefines(cfg, b, key, slots, rc, draws);
    var w, b1 := TryWriteRefines(cfg, b, key, slots, rc, draws[0]);
    GrowingMakesRoom(cfg, b1, slots, w.error, draws[1..]);
    RetryMakesRoom(cfg, b, key, slots, rc, draws);
  }

  /** A bucket with fewer keys than a window has cells always takes one more. */
  lemma FewKeysFinish<T>(cfg: Config, b: BucketState<T>, key: Pubkey, slots: seq<T>, rc: u64, draws: seq<u64>)
    requires Inv(cfg, b) && b.active == 0 && cfg.maxSearch >= 2 && |draws| >= 5
    requires |Abs(cfg, b)| < cfg.maxSearch
    ensures Insert(cfg, b, key, slots, rc, draws).0 == Done
  {
    hide IndexInv, DataInv, Meaning, Uncrowded;
    var keys := Abs(cfg, b).Keys + {key};
    KeysFitCells(cfg, b);
    forall j | 0 <= j < 3
      ensures Fitting(cfg, b, key, draws[j])
    {
      FewAreUncrowded(cfg, keys, Pow2(b.index.pow2 + 1), draws[j]);
    }
    FittingSeedsFinish(cfg, b, key, slots, rc, draws, 0);
  }

  lemma KeysFitCells<T>(cfg: Config, b: BucketState<T>)
    requires Live(cfg, b)
    ensures |Abs(cfg, b).Keys| == |Abs(cfg, b)| == |Entries(b.index)| < Pow2(b.index.pow2 + 1)
  {
    hide DataInv;
    UsedCountsKeys(cfg, b.index, b.random);
    assert Abs(cfg, b).Keys == Entries(b.index).Keys;
    LockedFit(b.index);
  }

  /** The window of a key is full once `maxSearch` keys with its uid are stored. */
  lemma SharedUidIsFull<T>(cfg: Config, b: BucketState<T>, keys: set<Pubkey>, key: Pubkey)
    requires Live(cfg, b) && keys <= Abs(cfg, b).Keys && key !in Abs(cfg, b) && |keys| == cfg.maxSearch
    requires forall k :: k in keys ==> KeyUid(cfg, k) == KeyUid(cfg, key)
    ensures WindowFull(cfg, b, key)
  {
    hide DataInv, WindowFull;
    assert Abs(cfg, b).Keys == Entries(b.index).Keys;
    WindowFullIs(cfg, b, key);
    SharedUidRefuses(cfg, b.index, b.random, keys, BlankEntry(key));
  }

  lemma SharedUidRefuses(cfg: Config, s: Storage<IndexEntry>, seed: u64, keys: set<Pubkey>, entry: IndexEntry)
    requires IndexInv(cfg, s, seed) && keys <= Entries(s).Keys && entry.key !in Entries(s) && |keys| == cfg.maxSearch
    requires forall k :: k in keys ==> KeyUid(cfg, k) == KeyUid(cfg, entry.key)
    ensures CreateKey(cfg, s, entry, KeyUid(cfg, entry.key), seed).Err?
  {
    hide CellOk, Entries, CreateKey;
    CreateKeyAdds(cfg, s, seed, entry);
    var r := CreateKey(cfg, s, entry, KeyUid(cfg, entry.key), seed);
    if r.Ok? {
      assert |keys + {entry.key}| == cfg.maxSearch + 1;
      SharedUidBound(cfg, r.value.1, seed, keys + {entry.key}, KeyUid(cfg, entry.key));
      assert false;
    }
  }

  /**
   * Keys that share a uid share every window: once `maxSearch` of them are stored, the insert of one
   * more re-hashes for ever, whatever the seeds.
   */
  lemma {:induction false} SharedUidNeverFinishes<T>(cfg: Config, b: BucketState<T>, keys: set<Pubkey>, key: Pubkey,
                                                     slots: seq<T>, rc: u64, draws: seq<u64>)
    requires Inv(cfg, b) && b.active == 0
    requires keys <= Abs(cfg, b).Keys && key !in Abs(cfg, b) && |keys| == cfg.maxSearch
    requires forall k :: k in keys ==> KeyUid(cfg, k) == KeyUid(cfg, key)
    ensures Insert(cfg, b, key, slots, rc, draws).0 == OutOfDraws
    decreases |draws|
  {
    hide IndexInv, DataInv, Meaning;
    if draws != [] {
      RoundRefines(cfg, b, key, slots, rc, draws);
      SharedUidIsFull(cfg, b, keys, key);
      var r := InsertRound(cfg, b, key, slots, rc, draws);
      if r.Retry? {
        SharedUidNeverFinishes(cfg, r.next, keys, key, slots, rc, r.rest);
      }
    }
  }

  // ---- the exact condition under seeds that keep different uids apart

  /** Under this seed keys with different uids have windows apart, in every index larger than the present one. */
  ghost predicate Separating<T>(cfg: Config, b: BucketState<T>, key: Pubkey, seed: u64)
    requires Live(cfg, b)
  {
    Separated(cfg, Abs(cfg, b).Keys + {key}, Pow2(b.index.pow2 + 1), seed)
  }

  lemma StoredSharingBound<T>(cfg: Config, b: BucketState<T>, key: Pubkey)
    requires Live(cfg, b)
    ensures |SharingUid(cfg, Abs(cfg, b).Keys, key)| <= cfg.maxSearch
  {
    hide DataInv;
    assert Abs(cfg, b).Keys == Entries(b.index).Keys;
    SharedUidBound(cfg, b.index, b.random, SharingUid(cfg, Abs(cfg, b).Keys, key), KeyUid(cfg, key));
  }

  lemma SeparatingFits<T>(cfg: Config, b: BucketState<T>, key: Pubkey, seed: u64)
    requires Live(cfg, b) && key !in Abs(cfg, b) && Separating(cfg, b, key, seed)
    requires |SharingUid(cfg, Abs(cfg, b).Keys, key)| < cfg.maxSearch
    ensures Fitting(cfg, b, key, seed)
  {
    hide IndexInv, DataInv, Meaning, SharingUid, Separated, Uncrowded;
    var stored, n := Abs(cfg, b).Keys, Pow2(b.index.pow2 + 1);
    KeysFitCells(cfg, b);
    forall k | k in stored
      ensures |SharingUid(cfg, stored, k)| <= cfg.maxSearch
    {
      StoredSharingBound(cfg, b, k);
    }
    OneMoreShares(cfg, stored, key, n);
    SeparatedIsUncrowded(cfg, stored + {key}, n, seed);
  }

  /**
   * When the random numbers hold three seeds in a row that keep different uids apart, an insert
   * finishes if and only if the key is stored or fewer than `maxSearch` stored keys share its uid.
   */
  lemma SeparatingSeedsDecide<T>(cfg: Config, b: BucketState<T>, key: Pubkey, slots: seq<T>, rc: u64, draws: seq<u64>,
                                 i: nat)
    requires Inv(cfg, b) && b.active == 0 && cfg.maxSearch >= 2 && i + 5 <= |draws|
    requires forall j :: i <= j < i + 3 ==> Separating(cfg, b, key, draws[j])
    ensures Insert(cfg, b, key, slots, rc, draws).0 == Done <==>
              key in Abs(cfg, b) || |SharingUid(cfg, Abs(cfg, b).Keys, key)| < cfg.maxSearch
  {
    hide IndexInv, DataInv, Meaning, Insert, Separating, Fitting;
    if key in Abs(cfg, b) {
      InsertFinishes(cfg, b, key, slots, rc, draws);
    } else if |SharingUid(cfg, Abs(cfg, b).Keys, key)| < cfg.maxSearch {
      forall j | i <= j < i + 3
        ensures Fitting(cfg, b, key, draws[j])
      {
        SeparatingFits(cfg, b, key, draws[j]);
      }
      FittingSeedsFinish(cfg, b, key, slots, rc, draws, i);
    } else {
      StoredSharingBound(cfg, b, key);
      SharedUidNeverFinishes(cfg, b, SharingUid(cfg, Abs(cfg, b).Keys, key), key, slots, rc, draws);
    }
  }
}
