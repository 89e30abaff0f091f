/** Growing a bucket: computed under a read lock, parked, and applied under the next write lock. */
module GrowthModel {
  import opened Wrappers
  import opened PowersOfTwo
  import opened StorageModel
  import opened IndexModel
  import opened IndexGrowth
  import opened DataModel
  import opened DataGrowth
  import opened BucketModel

  /** `OutOfSeeds`: every attempt so far was rejected and the random numbers given have been used up. */
  datatype GrowOutcome = Parked | Ignored | GrowPanicked | OutOfSeeds

  function GrownPow2(currentCapacityPow2: nat): (r: nat)
    ensures r >= DEFAULT_CAPACITY_POW2
  {
    if currentCapacityPow2 + 1 < DEFAULT_CAPACITY_POW2 then DEFAULT_CAPACITY_POW2 else currentCapacityPow2 + 1
  }

  /**
   * Park a larger copy of data storage `ix`. A report older than the storage's present capacity
   * makes the capacity difference underflow; a second growth trips the one-at-a-time assertion
   * after the counter has been bumped.
   */
  function GrowData<T>(cfg: Config, b: BucketState<T>, ix: nat, currentCapacityPow2: nat): (GrowOutcome, BucketState<T>)
    requires Live(cfg, b)
  {
    var pow2 := GrownPow2(currentCapacityPow2);
    assert ix < |b.data| ==> StorageOk(b.data[ix], ix);
    if ix < |b.data| && pow2 < b.data[ix].pow2 then (GrowPanicked, b)
    else if b.active > 0 then (GrowPanicked, b.(active := b.active + 1))
    else (Parked, b.(active := 1, parkedData := Some((ix, GrownData(b.data, ix, pow2, b.zero)))))
  }

  /** Park a re-hashed index, unless the index has already grown since the report. */
  function GrowIndex<T>(cfg: Config, b: BucketState<T>, currentCapacityPow2: nat, seeds: seq<u64>)
    : (r: (GrowOutcome, BucketState<T>, seq<u64>))
    ensures |r.2| <= |seeds|
  {
    if b.index.pow2 != currentCapacityPow2 then (Ignored, b, seeds)
    else
      var (fit, rest) := FirstFit(cfg, b.index, 1, seeds);
      if fit.None? then (OutOfSeeds, b, rest)
      else (if b.active > 0 then GrowPanicked else Parked, b.(active := b.active + 1, parkedIndex := fit), rest)
  }

  function Grow<T>(cfg: Config, b: BucketState<T>, err: BucketMapError, seeds: seq<u64>)
    : (r: (GrowOutcome, BucketState<T>, seq<u64>))
    requires Live(cfg, b)
    ensures |r.2| <= |seeds|
  {
    match err
    case DataNoSpace(ix, pow2) => var (g, b') := GrowData(cfg, b, ix, pow2); (g, b', seeds)
    case IndexNoSpace(pow2) => GrowIndex(cfg, b, pow2, seeds)
  }

  /** Install the one growth that is waiting, if exactly one was announced. */
  function HandleDelayedGrows<T>(cfg: Config, b: BucketState<T>): BucketState<T>
    requires Inv(cfg, b)
  {
    if b.active != 1 then b
    else
      match b.parkedIndex
      case Some((seed, index)) =>
        b.(index := index, random := seed, active := 0, parkedIndex := None, parkedData := None)
      case None =>
        var (ix, s) := b.parkedData.value;
        b.(data := ApplyGrowData(b.data, ix, s, b.zero), active := 0, parkedIndex := None, parkedData := None)
  }

  /** The capacity a growth would give is not below the present one, or the class is still missing. */
  ghost predicate Current<T>(b: BucketState<T>, err: BucketMapError) {
    match err
    case DataNoSpace(ix, pow2) => ix < |b.data| ==> b.data[ix].pow2 <= pow2 + 1 || b.data[ix].pow2 <= 5
    case IndexNoSpace(pow2) => pow2 == b.index.pow2
  }

  /** The growth gets as far as announcing its result. */
  ghost predicate GrowthIsComputed<T>(cfg: Config, b: BucketState<T>, err: BucketMapError, seeds: seq<u64>) {
    Current(b, err) && (err.IndexNoSpace? ==> FirstFit(cfg, b.index, 1, seeds).0.Some?)
  }

  /**
   * Growing parks a storage and touches nothing that is in use. It parks when it is computed and no
   * other growth was announced, and panics when it is computed after another or its report is outdated.
   */
  lemma GrowKeeps<T>(cfg: Config, b: BucketState<T>, err: BucketMapError, seeds: seq<u64>)
    requires Inv(cfg, b)
    ensures var (g, b', rest) := Grow(cfg, b, err, seeds);
            var computed := GrowthIsComputed(cfg, b, err, seeds);
            && Inv(cfg, b') && Abs(cfg, b') == Abs(cfg, b)
            && b' == b.(active := b'.active, parkedIndex := b'.parkedIndex, parkedData := b'.parkedData)
            && (g == Parked <==> b.active == 0 && computed)
            && (g == GrowPanicked <==> (b.active > 0 && computed) || (err.DataNoSpace? && !Current(b, err)))
            && (g == Ignored <==> err.IndexNoSpace? && !Current(b, err))
            && b'.active == b.active + (if computed then 1 else 0)
  {
    match err
    case DataNoSpace(ix, pow2) =>
      if ix < |b.data| {
        assert StorageOk(b.data[ix], ix);
      }
    case IndexNoSpace(pow2) =>
      if b.index.pow2 == pow2 {
        var n := FirstFitIsFirst(cfg, b.index, 1, seeds);
        if n < |seeds| {
          AttemptKeeps(cfg, b.index, b.random, 1 + n, seeds[n]);
        }
      }
  }

  /**
   * A data growth parks a storage of twice the reported capacity, and of 32 cells at least. An index
   * growth tries the capacities from twice the present one on, each twice the one before and with the
   * next seed, and parks the first that fits.
   */
  lemma ParkedIsLarger<T>(cfg: Config, b: BucketState<T>, err: BucketMapError, seeds: seq<u64>) returns (n: nat)
    requires Inv(cfg, b) && Grow(cfg, b, err, seeds).0 == Parked
    ensures var (_, b', rest) := Grow(cfg, b, err, seeds);
            match err
            case DataNoSpace(ix, pow2) =>
              && b'.parkedData.Some? && b'.parkedData.value.0 == ix && rest == seeds
              && |b'.parkedData.value.1.cells| == if pow2 < 4 then 32 else 2 * Pow2(pow2)
            case IndexNoSpace(_) =>
              && n < |seeds| && rest == seeds[n + 1..]
              && b'.parkedIndex.Some? && b'.parkedIndex.value.0 == seeds[n]
              && Some(b'.parkedIndex.value.1) == Attempt(cfg, b.index, 1 + n, seeds[n])
              && |b'.parkedIndex.value.1.cells| == Pow2(b.index.pow2 + 1 + n)
              && forall n' :: 0 <= n' < n ==> Attempt(cfg, b.index, 1 + n', seeds[n']).None?
  {
    n := 0;
    match err
    case DataNoSpace(ix, pow2) =>
      assert ix < |b.data| ==> StorageOk(b.data[ix], ix);
      assert Pow2(5) == 32;
    case IndexNoSpace(pow2) => n := FirstFitIsFirst(cfg, b.index, 1, seeds);
  }

  /**
   * Applying a data growth installs it, adds empty storages of 32 cells for the classes below that are
   * missing, and touches no other. Applying an index growth installs it together with its seed.
   */
  lemma InstalledIsParked<T>(cfg: Config, b: BucketState<T>)
    requires Inv(cfg, b) && b.active == 1
    ensures var b' := HandleDelayedGrows(cfg, b);
            if b.parkedIndex.Some? then b'.data == b.data && Some((b'.random, b'.index)) == b.parkedIndex
            else
              var (ix, s) := b.parkedData.value;
              && b'.index == b.index && b'.random == b.random
              && |b'.data| == (if ix < |b.data| then |b.data| else ix + 1) && b'.data[ix] == s
              && forall i :: 0 <= i < |b'.data| && i != ix ==>
                   if i < |b.data| then b'.data[i] == b.data[i]
                   else |b'.data[i].cells| == 32 && LockedCells(b'.data[i]) == {}
  {
    hide IndexInv, DataInv;
    if b.parkedIndex.None? {
      var (ix, s) := b.parkedData.value;
      var data := ApplyGrowData(b.data, ix, s, b.zero);
      forall i | |b.data| <= i < ix
        ensures |data[i].cells| == 32 && LockedCells(data[i]) == {}
      {
        GapAt(|b.data|, ix, b.zero, i - |b.data|);
        assert data[i] == FreshData(5, i, b.zero) && Pow2(5) == 32;
      }
    }
  }

  /** Applying what is parked changes no answer. */
  lemma HandleKeeps<T>(cfg: Config, b: BucketState<T>)
    requires Inv(cfg, b)
    ensures var b' := HandleDelayedGrows(cfg, b);
            && Inv(cfg, b') && Abs(cfg, b') == Abs(cfg, b)
            && b'.active == (if b.active == 1 then 0 else b.active)
            && b'.index.used == b.index.used
  {
    if b.active == 1 {
      if b.parkedIndex.Some? {
        UsedCountsKeys(cfg, b.index, b.random);
        UsedCountsKeys(cfg, b.parkedIndex.value.1, b.parkedIndex.value.0);
      } else {
        var (ix, s) := b.parkedData.value;
        ApplyKeepsMeaning(cfg, Entries(b.index), b.data, ix, s.pow2, b.zero);
      }
    }
  }

  // ---- insert

  datatype InsertOutcome = Done | InsertPanicked | OutOfDraws

  /** A write does not disturb what is parked, because nothing can be parked when it runs. */
  lemma TryWriteInv<T>(cfg: Config, b: BucketState<T>, key: Pubkey, slots: seq<T>, rc: u64, draw: u64)
    requires Inv(cfg, b) && b.active != 1
    ensures var (r, b') := TryWrite(cfg, b, key, slots, rc, draw);
            && Inv(cfg, b') && b'.active == b.active && WriteMeets(cfg, b, key, slots, rc, draw, r, b')
            && (r.Err? ==> Current(b', r.error))
  {
    hide IndexInv, Meaning, TryWrite;
    var r, b' := TryWriteRefines(cfg, b, key, slots, rc, draw);
  }

  /** One round of the insert loop. */
  datatype Round<T> =
    | Wrote(next: BucketState<T>, rest: seq<u64>)
    | Halted(outcome: InsertOutcome, next: BucketState<T>, rest: seq<u64>)
    | Retry(error: BucketMapError, next: BucketState<T>, rest: seq<u64>)

  /**
   * Write, and on failure grow and apply the growth. A write takes one random number for its start
   * cell; a growth of the index takes one per re-hash.
   */
  function InsertRound<T>(cfg: Config, b: BucketState<T>, key: Pubkey, slots: seq<T>, rc: u64, draws: seq<u64>)
    : (r: Round<T>)
    requires Inv(cfg, b) && b.active != 1 && draws != []
    ensures |r.rest| < |draws| && Inv(cfg, r.next) && r.next.active != 1
  {
    TryWriteInv(cfg, b, key, slots, rc, draws[0]);
    var (w, b1) := TryWrite(cfg, b, key, slots, rc, draws[0]);
    if w.Ok? then Wrote(b1, draws[1..])
    else
      GrowKeeps(cfg, b1, w.error, draws[1..]);
      var (g, b2, rest) := Grow(cfg, b1, w.error, draws[1..]);
      if g == GrowPanicked then Halted(InsertPanicked, b2, rest)
      else if g == OutOfSeeds then Halted(OutOfDraws, b2, rest)
      else
        HandleKeeps(cfg, b2);
        Retry(w.error, HandleDelayedGrows(cfg, b2), rest)
  }

  /** Rounds until one writes. `OutOfDraws` is a call still running when the random numbers given are used up. */
  function Insert<T>(cfg: Config, b: BucketState<T>, key: Pubkey, slots: seq<T>, rc: u64, draws: seq<u64>)
    : (r: (InsertOutcome, BucketState<T>, seq<u64>))
    requires Inv(cfg, b) && b.active != 1
    decreases |draws|
  {
    if draws == [] then (OutOfDraws, b, [])
    else
      match InsertRound(cfg, b, key, slots, rc, draws)
      case Wrote(next, rest) => (Done, next, rest)
      case Halted(outcome, next, rest) => (outcome, next, rest)
      case Retry(_, next, rest) => Insert(cfg, next, key, slots, rc, rest)
  }

  /** What a round does: the map changes as the write's outcome says, and growing changes nothing more. */
  lemma RoundRefines<T>(cfg: Config, b: BucketState<T>, key: Pubkey, slots: seq<T>, rc: u64, draws: seq<u64>)
    requires Inv(cfg, b) && b.active != 1 && draws != []
    ensures var r := InsertRound(cfg, b, key, slots, rc, draws);
            var w := WriteVerdict(cfg, b, key, slots, draws[0]);
            && (w.Ok? <==> r.Wrote?)
            && (r.Retry? ==> w == Err(r.error))
            && Abs(cfg, r.next) == WriteEffect(Abs(cfg, b), key, slots, rc, w)
            && (b.active == 0 ==> r.next.active == 0 && !(r.Halted? && r.outcome == InsertPanicked))
            && (r.Halted? ==> r.outcome != Done)
  {
    hide IndexInv, DataInv, Meaning;
    TryWriteInv(cfg, b, key, slots, rc, draws[0]);
    var (w, b1) := TryWrite(cfg, b, key, slots, rc, draws[0]);
    if w.Err? {
      GrowKeeps(cfg, b1, w.error, draws[1..]);
      var (g, b2, rest) := Grow(cfg, b1, w.error, draws[1..]);
      HandleKeeps(cfg, b2);
    }
  }

  /** What a write that found its data storage full leaves behind. */
  function CountOnly<T>(m: map<Pubkey, Value<T>>, key: Pubkey, rc: u64): map<Pubkey, Value<T>> {
    m[key := (if key in m then m[key].0 else [], rc)]
  }

  /** A finished insert sets the key and nothing else; an unfinished one has touched that key at most. */
  ghost predicate InsertMeets<T>(m: map<Pubkey, Value<T>>, key: Pubkey, slots: seq<T>, rc: u64,
                                 outcome: InsertOutcome, m': map<Pubkey, Value<T>>)
  {
    if outcome == Done then m' == m[key := (slots, rc)] else m' == m || m' == CountOnly(m, key, rc)
  }

  lemma {:induction false} InsertRefines<T>(cfg: Config, b: BucketState<T>, key: Pubkey, slots: seq<T>, rc: u64,
                                            draws: seq<u64>)
    requires Inv(cfg, b) && b.active != 1
    ensures var (o, b', _) := Insert(cfg, b, key, slots, rc, draws);
            && Inv(cfg, b') && b'.active != 1
            && InsertMeets(Abs(cfg, b), key, slots, rc, o, Abs(cfg, b'))
            && (b.active == 0 ==> o != InsertPanicked && b'.active == 0)
    decreases |draws|
  {
    if draws != [] {
      RoundRefines(cfg, b, key, slots, rc, draws);
      var r := InsertRound(cfg, b, key, slots, rc, draws);
      if r.Retry? {
        InsertRefines(cfg, r.next, key, slots, rc, r.rest);
        RetryComposes(Abs(cfg, b), key, slots, rc);
      }
    }
  }

  lemma RetryComposes<T>(m: map<Pubkey, Value<T>>, key: Pubkey, slots: seq<T>, rc: u64)
    ensures CountOnly(m, key, rc)[key := (slots, rc)] == m[key := (slots, rc)]
    ensures CountOnly(CountOnly(m, key, rc), key, rc) == CountOnly(m, key, rc)
  {
  }
}
