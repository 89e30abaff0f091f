/**
 * Why one data growth per insert needs a window of two cells: with a window of one cell the random start can
 * meet the same locked cell again after the storage has grown.
 */
module NarrowWindow {
  import opened Wrappers
  import opened PowersOfTwo
  import opened StorageModel
  import opened IndexModel
  import opened DataModel
  import opened DataGrowth
  import opened BucketModel
  import opened GrowthModel
  import opened Crowding
  import opened InsertProgress
  import opened ApiModel
  import opened HonestGrowth

  /** With a window of one cell the storage is full for a start exactly when that cell is locked. */
  lemma OneCellDecides<T>(cfg: Config, data: seq<DataStorage<T>>, slots: seq<T>, draw: u64)
    requires cfg.maxSearch == 1 && DataBucketFromNumSlots(|slots|) < |data|
    requires |data[DataBucketFromNumSlots(|slots|)].cells| > 0
    ensures var cells := data[DataBucketFromNumSlots(|slots|)].cells;
            DataFull(cfg, data, slots, draw) <==> cells[draw % |cells|].uid != UID_UNLOCKED
  {
    var cells := data[DataBucketFromNumSlots(|slots|)].cells;
    hide InWindow;
    OnlyTheStart(draw, |cells|);
  }

  lemma OnlyTheStart(h: nat, n: nat)
    requires n > 0
    ensures forall i :: InWindow(h, 1, n, i) <==> i == h % n
  {
    StartIsIn(h, h, 1, n);
    forall i | InWindow(h, 1, n, i)
      ensures i == h % n
    {
      Divided(i - h, n);
      ThreeMultiples(n, 0, (i - h) / n, 0);
      SameRemainder(h, n, -((i - h) / n), i);
    }
  }

  /** The data storages after a round that grew the one of the smallest class. */
  lemma DataAfterRound<T>(cfg: Config, b: BucketState<T>, key: Pubkey, x: T, draws: seq<u64>)
    requires Inv(cfg, b) && b.active == 0 && draws != [] && |b.data| == 1 && key in Abs(cfg, b)
    requires WriteVerdict(cfg, b, key, [x], draws[0]) == Err(DataNoSpace(0, b.data[0].pow2))
    ensures var r := InsertRound(cfg, b, key, [x], 1, draws);
            && r.Retry? && r.error.DataNoSpace? && r.rest == draws[1..] && r.next.active == 0
            && b.data[0].pow2 >= DEFAULT_CAPACITY_POW2 && b.data[0].Valid()
            && r.next.data == [GrownData(b.data, 0, b.data[0].pow2 + 1, b.zero)]
            && key in Abs(cfg, r.next) && Abs(cfg, r.next)[key].0 == Abs(cfg, b)[key].0
  {
    hide IndexInv, DistinctCells, Meaning, TryWrite;
    assert StorageOk(b.data[0], 0);
    RoundRefines(cfg, b, key, [x], 1, draws);
    var w, b1 := TryWriteRefines(cfg, b, key, [x], 1, draws[0]);
    GrowKeeps(cfg, b1, w.error, draws[1..]);
  }

  /** The start meets a locked cell of the one storage, and the key's list is not the one in it. */
  ghost predicate MeetsLocked<T>(cfg: Config, b: BucketState<T>, key: Pubkey, x: T, draw: u64) {
    && Inv(cfg, b) && b.active == 0 && |b.data| == 1 && key in Abs(cfg, b)
    && WriteVerdict(cfg, b, key, [x], draw) == Err(DataNoSpace(0, b.data[0].pow2))
  }

  lemma VerdictOf<T>(cfg: Config, b: BucketState<T>, key: Pubkey, x: T, draw: u64)
    requires Live(cfg, b) && cfg.maxSearch == 1 && |b.data| == 1 && key in Abs(cfg, b)
    ensures var cells := b.data[0].cells;
            && |cells| == Pow2(b.data[0].pow2) && b.data[0].pow2 >= DEFAULT_CAPACITY_POW2
            && WriteVerdict(cfg, b, key, [x], draw)
               == if cells[draw % |cells|].uid != UID_UNLOCKED && |Abs(cfg, b)[key].0| != 1
                  then Err(DataNoSpace(0, b.data[0].pow2)) else Ok(())
  {
    hide IndexInv, DistinctCells, FirstFree;
    assert StorageOk(b.data[0], 0) && DataBucketFromNumSlots(1) == 0;
    OneCellDecides(cfg, b.data, [x], draw);
    OneStorageOneSlot(cfg, b, key);
  }

  /** With the smallest storage alone, a list that is not empty has one slot. */
  lemma OneStorageOneSlot<T>(cfg: Config, b: BucketState<T>, key: Pubkey)
    requires Live(cfg, b) && |b.data| == 1 && key in Abs(cfg, b)
    ensures |Abs(cfg, b)[key].0| <= 1
  {
    SlotsLength(cfg, b, key);
    assert EntryOk(cfg, key, Entries(b.index)[key], b.data);
  }

  /** After the growth the cell is still locked, twice as far in. */
  lemma MeetsItAgain<T>(cfg: Config, b: BucketState<T>, key: Pubkey, x: T, draws: seq<u64>)
    requires cfg.maxSearch == 1 && |draws| >= 2 && MeetsLocked(cfg, b, key, x, draws[0])
    requires b.data[0].pow2 == DEFAULT_CAPACITY_POW2
    requires draws[1] == 2 * (draws[0] % Pow2(DEFAULT_CAPACITY_POW2))
    ensures var r := InsertRound(cfg, b, key, [x], 1, draws);
            && r.Retry? && r.error.DataNoSpace? && r.rest == draws[1..]
            && MeetsLocked(cfg, r.next, key, x, draws[1]) && r.next.data[0].pow2 == DEFAULT_CAPACITY_POW2 + 1
  {
    hide IndexInv, DataInv, Meaning, WriteVerdict, InsertRound, GrownData;
    var s, loc := b.data[0], draws[0] % Pow2(DEFAULT_CAPACITY_POW2);
    VerdictOf(cfg, b, key, x, draws[0]);
    DataAfterRound(cfg, b, key, x, draws);
    var next := InsertRound(cfg, b, key, [x], 1, draws).next;
    VerdictOf(cfg, next, key, x, draws[1]);
    CellDoubles(b, loc);
    assert Pow2(6) == 2 * Pow2(5);
    assert draws[1] % Pow2(6) == draws[1];
  }

  lemma CellDoubles<T>(b: BucketState<T>, loc: nat)
    requires |b.data| == 1 && b.data[0].Valid() && loc < |b.data[0].cells|
    ensures var s := GrownData(b.data, 0, b.data[0].pow2 + 1, b.zero);
            && s.pow2 == b.data[0].pow2 + 1 && |s.cells| == 2 * |b.data[0].cells|
            && s.cells[2 * loc] == b.data[0].cells[loc]
  {
    GrownCellAt(b.data[0], b.data[0].pow2 + 1, seq(Pow2(0), _ => b.zero), Pow2(0), loc);
    assert Pow2(1) == 2;
  }

  lemma OddCellIsFree<T>(b: BucketState<T>)
    requires |b.data| == 1 && b.data[0].Valid()
    ensures var cells := GrownData(b.data, 0, b.data[0].pow2 + 1, b.zero).cells;
            |cells| > 1 && 1 % |cells| == 1 && cells[1].uid == UID_UNLOCKED
  {
    hide GrownData;
    GrownOddCellsFree(b.data, 0, b.data[0].pow2 + 1, b.zero);
    CellDoubles(b, 0);
  }

  /** An odd start after a growth meets a free cell. */
  lemma OddStartWrites<T>(cfg: Config, b: BucketState<T>, key: Pubkey, x: T, draws: seq<u64>)
    requires cfg.maxSearch == 1 && |draws| == 2 && MeetsLocked(cfg, b, key, x, draws[0]) && draws[1] == 1
    ensures var r := InsertRound(cfg, b, key, [x], 1, draws);
            && r.Retry? && r.error.DataNoSpace? && r.rest == draws[1..] && r.next.active == 0
            && InsertRound(cfg, r.next, key, [x], 1, draws[1..]).Wrote?
  {
    hide IndexInv, DataInv, Meaning, WriteVerdict, InsertRound, GrownData, Abs;
    DataAfterRound(cfg, b, key, x, draws);
    var next := InsertRound(cfg, b, key, [x], 1, draws).next;
    OddCellIsFree(b);
    VerdictOf(cfg, next, key, x, 1);
    RoundRefines(cfg, next, key, [x], 1, draws[1..]);
  }

  /** One insert that grows the data twice before it finishes. */
  lemma GrowsTwice<T>(cfg: Config, b: BucketState<T>, key: Pubkey, x: T, draw: u64) returns (draws: seq<u64>)
    requires cfg.maxSearch == 1 && MeetsLocked(cfg, b, key, x, draw) && b.data[0].pow2 == DEFAULT_CAPACITY_POW2
    ensures DataGrowths(cfg, b, key, [x], 1, draws) == 2 && GrowthModel.Insert(cfg, b, key, [x], 1, draws).0 == Done
  {
    hide IndexInv, DataInv, Meaning, WriteVerdict, InsertRound;
    var loc := draw % Pow2(DEFAULT_CAPACITY_POW2);
    draws := [draw, 2 * loc, 1];
    MeetsItAgain(cfg, b, key, x, draws);
    var r1 := InsertRound(cfg, b, key, [x], 1, draws);
    assert draws[1..] == [2 * loc, 1];
    OddStartWrites(cfg, r1.next, key, x, draws[1..]);
    var r2 := InsertRound(cfg, r1.next, key, [x], 1, draws[1..]);
    assert draws[1..][1..] == [1];
    assert DataGrowths(cfg, r2.next, key, [x], 1, [1]) == 0;
    assert DataGrowths(cfg, r1.next, key, [x], 1, draws[1..]) == 1;
    assert GrowthModel.Insert(cfg, r2.next, key, [x], 1, [1]).0 == Done;
  }

  /** A run on a new bucket after which one insert grows the data twice. */
  lemma OneCellIsTooFew<T>(cfg: Config, zero: T, seed: u64, key: Pubkey, x: T, draw: u64)
    returns (calls: seq<(u64, Op<T>)>, draws: seq<u64>)
    requires cfg.maxSearch == 1
    ensures var s := StateAt(cfg, ApiState(None, Free, zero), calls, |calls|);
            && s.access == Free && s.bucket.Some? && Inv(cfg, s.bucket.value) && s.bucket.value.active == 0
            && DataGrowths(cfg, s.bucket.value, key, [x], 1, draws) == 2
            && GrowthModel.Insert(cfg, s.bucket.value, key, [x], 1, draws).0 == Done
  {
    hide IndexInv, DataInv, Meaning, WriteVerdict, DataGrowths, GrowthModel.Insert, Run, StateAt, Opening, WindowFull;
    var a, first := ApiState(None, Free, zero), Opening(seed, key, x, draw);
    Created(cfg, zero, seed, key, x, draw);
    var fill := FillsUp(cfg, StateAt(cfg, a, first, 4), seed, key, x, draw);
    RunJoins(cfg, a, first, fill);
    calls := first + fill;
    var s := StateAt(cfg, a, calls, |calls|);
    draws := GrowsTwice(cfg, s.bucket.value, key, x, draw);
  }
}
