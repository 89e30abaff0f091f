/** How many data cells a run leaves behind: one for each write that shrinks a one-slot list to nothing. */
module OrphanRuns {
  import opened Wrappers
  import opened StorageModel
  import opened IndexModel
  import opened DataModel
  import opened BucketModel
  import opened GrowthModel
  import opened InsertProgress
  import opened Orphans
  import opened ApiModel

  ghost function OrphanCount<T>(a: ApiState<T>): nat {
    if a.bucket.None? then 0 else |OrphansOf(a.bucket.value)|
  }

  /** A list of one slot is replaced by an empty one. */
  predicate ShrinksToNone<T>(was: Option<Value<T>>, slots: seq<T>) {
    was.Some? && |was.value.0| == 1 && |slots| == 0
  }

  /** The operation sets a list of one slot to the empty list, and is given a random number to start with. */
  predicate AsksToShrink<T>(op: Op<T>, was: Option<Value<T>>) {
    match op
    case Insert(_, slots, _, draws) => draws != [] && ShrinksToNone(was, slots)
    case Update(_, updatefn, draws) =>
      var val := updatefn(was);
      draws != [] && val.Some? && ShrinksToNone(was, val.value.0)
    case TryInsert(_, slots, _, _) => ShrinksToNone(was, slots)
    case _ => false
  }

  /** The call gets the lock and shrinks a one-slot list to nothing; this is known before the call. */
  ghost predicate Shrinks<T>(cfg: Config, a: ApiState<T>, op: Op<T>)
    requires ApiInv(cfg, a)
  {
    op.IsWrite() && Admits(a.access, op) && AsksToShrink(op, Lookup(ApiAbs(cfg, a), op.key))
  }

  lemma WriteBucketOrphans<T>(cfg: Config, a: ApiState<T>, seed: u64)
    requires ApiInv(cfg, a)
    ensures |OrphansOf(WriteBucket(cfg, a, seed))| == OrphanCount(a)
  {
    if a.bucket.None? {
      NewBucketHasNone(seed, a.zero);
    } else {
      HandleOrphans(cfg, a.bucket.value);
    }
  }

  lemma NewBucketHasNone<T>(seed: u64, zero: T)
    ensures OrphansOf(NewBucket(seed, zero)) == {}
  {
  }

  /** Emptying a one-slot list takes one round, which cannot fail. */
  lemma ShrinkingFinishes<T>(cfg: Config, b: BucketState<T>, key: Pubkey, slots: seq<T>, rc: u64, draws: seq<u64>)
    requires Inv(cfg, b) && b.active != 1 && Leaks(cfg, b, key, slots)
    ensures GrowthModel.Insert(cfg, b, key, slots, rc, draws).0 == if draws != [] then Done else OutOfDraws
  {
    hide IndexInv, DataInv, Meaning, InsertRound;
    if draws != [] {
      RoundRefines(cfg, b, key, slots, rc, draws);
      OneSlotFitsInPlace(cfg, b, key, slots);
    }
  }

  lemma InsertLeaves<T>(cfg: Config, b: BucketState<T>, key: Pubkey, slots: seq<T>, rc: u64, draws: seq<u64>)
    requires Inv(cfg, b) && b.active != 1
    ensures |OrphansOf(GrowthModel.Insert(cfg, b, key, slots, rc, draws).1)|
            == |OrphansOf(b)| + if draws != [] && ShrinksToNone(Lookup(Abs(cfg, b), key), slots) then 1 else 0
  {
    hide IndexInv, DataInv, Meaning, OrphansOf, GrowthModel.Insert;
    InsertOrphans(cfg, b, key, slots, rc, draws);
    if Leaks(cfg, b, key, slots) {
      ShrinkingFinishes(cfg, b, key, slots, rc, draws);
    }
  }

  lemma WriteOrphans<T>(cfg: Config, b: BucketState<T>, op: Op<T>)
    requires Inv(cfg, b) && b.active != 1 && op.IsWrite()
    ensures |OrphansOf(WriteOp(cfg, b, op).1)|
            == |OrphansOf(b)| + if AsksToShrink(op, Lookup(Abs(cfg, b), op.key)) then 1 else 0
  {
    hide IndexInv, DataInv, Meaning, OrphansOf, TryWrite, GrowthModel.Insert;
    match op
    case Insert(key, slots, rc, draws) => InsertLeaves(cfg, b, key, slots, rc, draws);
    case Update(key, updatefn, draws) =>
      FoundEntry(cfg, b, key);
      var val := updatefn(ReadValue(cfg, b, key));
      if val.Some? {
        InsertLeaves(cfg, b, key, val.value.0, val.value.1, draws);
      } else {
        DeleteOrphans(cfg, b, key);
      }
    case Delete(key) => DeleteOrphans(cfg, b, key);
    case AddRef(key) => SetCountOrphans(cfg, b, key, Increment);
    case UnRef(key) => SetCountOrphans(cfg, b, key, Decrement);
    case TryInsert(key, slots, rc, draw) => TryInsertOrphans(cfg, b, op);
  }

  /** A failed write shrinks nothing, since a one-slot list is emptied in place. */
  lemma TryInsertOrphans<T>(cfg: Config, b: BucketState<T>, op: Op<T>)
    requires Live(cfg, b) && op.TryInsert?
    ensures var (r, b') := TryWrite(cfg, b, op.key, op.slots, op.rc, op.draw);
            && (Leaks(cfg, b, op.key, op.slots) ==> r.Ok?)
            && |OrphansOf(b')| == |OrphansOf(b)| + if Leaks(cfg, b, op.key, op.slots) then 1 else 0
  {
    hide IndexInv, DataInv, Meaning, OrphansOf, TryWrite;
    TryWriteOrphans(cfg, b, op.key, op.slots, op.rc, op.draw);
    var r, b' := TryWriteRefines(cfg, b, op.key, op.slots, op.rc, op.draw);
    OneSlotFitsInPlace(cfg, b, op.key, op.slots);
  }

  /** A call leaves one more cell behind if and only if it is such a write; no call gives one back. */
  lemma OrphanStep<T>(cfg: Config, a: ApiState<T>, seed: u64, op: Op<T>)
    requires ApiInv(cfg, a)
    ensures OrphanCount(ApiStep(cfg, a, seed, op).1)
            == OrphanCount(a) + if Shrinks(cfg, a, op) then 1 else 0
  {
    hide IndexInv, DataInv, Meaning, OrphansOf, WriteOp;
    if Admits(a.access, op) {
      if op.IsWrite() {
        WriteBucketKeeps(cfg, a, seed);
        WriteBucketOrphans(cfg, a, seed);
        WriteOrphans(cfg, WriteBucket(cfg, a, seed), op);
      } else if op.GrowFor? && a.bucket.Some? {
        GrowKeeps(cfg, a.bucket.value, op.err, op.seeds);
        GrowOrphans(cfg, a.bucket.value, op.err, op.seeds);
      }
    }
  }

  lemma GrowOrphans<T>(cfg: Config, b: BucketState<T>, err: BucketMapError, seeds: seq<u64>)
    requires Inv(cfg, b)
    ensures OrphansOf(Grow(cfg, b, err, seeds).1) == OrphansOf(b)
  {
    GrowKeeps(cfg, b, err, seeds);
  }

  /** How many of the first `n` calls of a run shrink a one-slot list to nothing. */
  ghost function ShrinkCount<T>(cfg: Config, a: ApiState<T>, calls: seq<(u64, Op<T>)>, n: nat): nat
    requires ApiInv(cfg, a) && n <= |calls|
  {
    if n == 0 then 0
    else
      ShrinkCount(cfg, a, calls, n - 1)
      + if Shrinks(cfg, StateAt(cfg, a, calls, n - 1), calls[n - 1].1) then 1 else 0
  }

  /** A run on a new bucket leaves behind exactly as many cells as it makes such writes. */
  lemma {:induction false} OrphansOfRun<T>(cfg: Config, zero: T, calls: seq<(u64, Op<T>)>, n: nat)
    requires n <= |calls|
    ensures var a := ApiState(None, Free, zero);
            OrphanCount(StateAt(cfg, a, calls, n)) == ShrinkCount(cfg, a, calls, n)
  {
    hide ApiStep, Shrinks;
    if n > 0 {
      var a := ApiState(None, Free, zero);
      OrphansOfRun(cfg, zero, calls, n - 1);
      OrphanStep(cfg, StateAt(cfg, a, calls, n - 1), calls[n - 1].0, calls[n - 1].1);
    }
  }

  /** A run ends with every locked data cell owned if and only if none of its calls is such a write. */
  lemma {:induction false} NoOrphansExactly<T>(cfg: Config, zero: T, calls: seq<(u64, Op<T>)>, n: nat)
    requires n <= |calls|
    ensures var a := ApiState(None, Free, zero);
            OrphanCount(StateAt(cfg, a, calls, n)) == 0 <==>
              forall i :: 0 <= i < n ==> !Shrinks(cfg, StateAt(cfg, a, calls, i), calls[i].1)
  {
    hide ApiStep, Shrinks, StateAt, OrphanCount, Inv;
    OrphansOfRun(cfg, zero, calls, n);
    if n > 0 {
      OrphansOfRun(cfg, zero, calls, n - 1);
      NoOrphansExactly(cfg, zero, calls, n - 1);
    }
  }

  /** Inserting one slot and then an empty list leaves a cell behind, on every new bucket. */
  lemma ShrinkingLeaks<T>(cfg: Config, seed: u64, zero: T, key: Pubkey, x: T, rc: u64, draws: seq<u64>,
                          draws': seq<u64>)
    requires cfg.maxSearch >= 2 && |draws| >= 5 && |draws'| >= 2
    ensures var a := ApiState(None, Free, zero);
            var calls := [(seed, Insert(key, [x], rc, draws)), (seed, Insert(key, [], rc, draws'))];
            && Run(cfg, a, calls) == [Nothing, Nothing]
            && OrphanCount(StateAt(cfg, a, calls, 1)) == 0 && OrphanCount(StateAt(cfg, a, calls, 2)) == 1
            && ApiAbs(cfg, StateAt(cfg, a, calls, 2)) == map[key := ([], rc)]
  {
    hide IndexInv, DataInv, Meaning, OrphansOf, GrowthModel.Insert;
    var a := ApiState(None, Free, zero);
    var calls := [(seed, Insert(key, [x], rc, draws)), (seed, Insert(key, [], rc, draws'))];
    assert StateAt(cfg, a, calls, 0) == a;
    var b := NewBucket(seed, zero);
    NewBucketIsEmpty(cfg, seed, zero);
    FewKeysFinish(cfg, b, key, [x], rc, draws);
    InsertRefines(cfg, b, key, [x], rc, draws);
    var b1 := GrowthModel.Insert(cfg, b, key, [x], rc, draws).1;
    InsertFinishes(cfg, b1, key, [], rc, draws');
    InsertRefines(cfg, b1, key, [], rc, draws');
    var s1 := ApiState(Some(b1), Free, zero);
    assert ApiStep(cfg, a, seed, Insert(key, [x], rc, draws)) == (Nothing, s1);
    assert StateAt(cfg, a, calls, 1) == s1;
    AnswerAt(cfg, a, calls, 0);
    AnswerAt(cfg, a, calls, 1);
    OrphanStep(cfg, a, seed, calls[0].1);
    OrphanStep(cfg, s1, seed, calls[1].1);
  }
}
