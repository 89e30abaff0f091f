/** What can go wrong over whole runs of a bucket, and the shortest runs on which it does. */
module ApiSafety {
  import opened Wrappers
  import opened StorageModel
  import opened IndexModel
  import opened IndexGrowth
  import opened DataModel
  import opened BucketModel
  import opened GrowthModel
  import opened ApiModel

  // ---- panics

  /** The insert has to grow the bucket, and the growth is computed. */
  ghost predicate NeedsGrowth<T>(cfg: Config, b: BucketState<T>, key: Pubkey, slots: seq<T>, draws: seq<u64>)
    requires Live(cfg, b)
  {
    && draws != []
    && var w := WriteVerdict(cfg, b, key, slots, draws[0]);
    w.Err? && (w.error.IndexNoSpace? ==> FirstFit(cfg, b.index, 1, draws[1..]).0.Some?)
  }

  lemma InsertPanicsExactly<T>(cfg: Config, b: BucketState<T>, key: Pubkey, slots: seq<T>, rc: u64, draws: seq<u64>)
    requires Inv(cfg, b) && b.active != 1
    ensures GrowthModel.Insert(cfg, b, key, slots, rc, draws).0 == InsertPanicked <==>
              b.active >= 2 && NeedsGrowth(cfg, b, key, slots, draws)
  {
    hide IndexInv, DataInv, Meaning, TryWrite, FirstFit;
    InsertRefines(cfg, b, key, slots, rc, draws);
    if draws != [] && b.active >= 2 {
      TryWriteInv(cfg, b, key, slots, rc, draws[0]);
      var w, b1 := TryWriteRefines(cfg, b, key, slots, rc, draws[0]);
      if w.Err? {
        GrowKeeps(cfg, b1, w.error, draws[1..]);
      }
    }
  }

  /** When a call panics. */
  ghost predicate WillPanic<T>(cfg: Config, a: ApiState<T>, op: Op<T>)
    requires ApiInv(cfg, a)
  {
    match op
    case AddRef(key) => key in ApiAbs(cfg, a) && ApiAbs(cfg, a)[key].1 == 0xFFFF_FFFF_FFFF_FFFF
    case UnRef(key) => key in ApiAbs(cfg, a) && ApiAbs(cfg, a)[key].1 == 0
    case Insert(key, slots, _, draws) => Wedged(a) && NeedsGrowth(cfg, a.bucket.value, key, slots, draws)
    case Update(key, updatefn, draws) =>
      && Wedged(a)
      && var val := updatefn(Lookup(ApiAbs(cfg, a), key));
      val.Some? && NeedsGrowth(cfg, a.bucket.value, key, val.value.0, draws)
    case GrowFor(err, seeds) =>
      && a.bucket.Some?
      && (|| (err.DataNoSpace? && !Current(a.bucket.value, err))
          || ((Waiting(a) || Wedged(a)) && GrowthIsComputed(cfg, a.bucket.value, err, seeds)))
    case _ => false
  }

  /**
   * A call panics if and only if a reference count would leave its range, an insert has to grow a
   * bucket on which two growths have collided, or a growth is outdated or meets another one.
   */
  lemma PanicsExactly<T>(cfg: Config, a: ApiState<T>, seed: u64, op: Op<T>)
    requires ApiInv(cfg, a)
    ensures ApiStep(cfg, a, seed, op).0.Panics? <==> Admits(a.access, op) && WillPanic(cfg, a, op)
  {
    hide IndexInv, DataInv, Meaning, TryWrite, FirstFit, GrowthModel.Insert;
    if op.GrowFor? {
      if a.bucket.Some? {
        GrowKeeps(cfg, a.bucket.value, op.err, op.seeds);
      }
    } else if op.IsWrite() {
      WriteBucketKeeps(cfg, a, seed);
      WritePanicsExactly(cfg, a, seed, op);
    }
  }

  lemma WritePanicsExactly<T>(cfg: Config, a: ApiState<T>, seed: u64, op: Op<T>)
    requires ApiInv(cfg, a) && op.IsWrite()
    requires var b := WriteBucket(cfg, a, seed); Inv(cfg, b) && b.active != 1 && Abs(cfg, b) == ApiAbs(cfg, a)
    ensures WriteOp(cfg, WriteBucket(cfg, a, seed), op).0.0.Panics? <==> WillPanic(cfg, a, op)
  {
    hide IndexInv, DataInv, Meaning, TryWrite, FirstFit, GrowthModel.Insert;
    var b := WriteBucket(cfg, a, seed);
    match op
    case Insert(key, slots, rc, draws) => InsertPanicsExactly(cfg, b, key, slots, rc, draws);
    case Update(key, updatefn, draws) =>
      FoundEntry(cfg, b, key);
      var val := updatefn(ReadValue(cfg, b, key));
      if val.Some? {
        InsertPanicsExactly(cfg, b, key, val.value.0, val.value.1, draws);
      }
    case AddRef(key) => SetCountRefines(cfg, b, key, Increment);
    case UnRef(key) => SetCountRefines(cfg, b, key, Decrement);
    case Delete(_) =>
    case TryInsert(_, _, _, _) =>
  }

  // ---- the lock over whole runs

  /** A write that does not come back takes the lock with it. */
  ghost predicate TakesLock<T>(op: Op<T>, ans: Answer<T>) {
    op.IsWrite() && (ans.Panics? || ans.NoReturn?)
  }

  /** A growth that does not come back keeps the read lock. */
  ghost predicate KeepsReadLock<T>(op: Op<T>, ans: Answer<T>) {
    op.GrowFor? && ans.NoReturn?
  }

  lemma LockStep<T>(cfg: Config, a: ApiState<T>, seed: u64, op: Op<T>)
    requires ApiInv(cfg, a)
    ensures var (ans, a') := ApiStep(cfg, a, seed, op);
            && (ans.Blocked? <==> !Admits(a.access, op))
            && (if TakesLock(op, ans) then a'.access == Poisoned || a'.access == Held
                else a'.access == if KeepsReadLock(op, ans) then ReadHeld else a.access)
  {
    hide IndexInv, DataInv, Meaning, TryWrite, GrowthModel.Insert, DeleteKey, SetCount, Grow, HandleDelayedGrows;
    ApiStepInv(cfg, a, seed, op);
  }

  ghost predicate SomeTookLock<T>(calls: seq<(u64, Op<T>)>, answers: seq<Answer<T>>, n: nat)
    requires n <= |calls| == |answers|
  {
    exists j :: 0 <= j < n && TakesLock(calls[j].1, answers[j])
  }

  ghost predicate SomeKeepsReadLock<T>(calls: seq<(u64, Op<T>)>, answers: seq<Answer<T>>, n: nat)
    requires n <= |calls| == |answers|
  {
    exists j :: 0 <= j < n && KeepsReadLock(calls[j].1, answers[j])
  }

  lemma {:induction false} AccessAt<T>(cfg: Config, a: ApiState<T>, calls: seq<(u64, Op<T>)>, n: nat)
    requires ApiInv(cfg, a) && a.access == Free && n <= |calls|
    ensures var answers := Run(cfg, a, calls);
            var access := StateAt(cfg, a, calls, n).access;
            && (access == Poisoned || access == Held <==> SomeTookLock(calls, answers, n))
            && (access == ReadHeld ==> SomeKeepsReadLock(calls, answers, n))
            && (access == Free ==> !SomeKeepsReadLock(calls, answers, n))
  {
    hide ApiInv, ApiStep, Run;
    if n > 0 {
      AccessAt(cfg, a, calls, n - 1);
      AnswerAt(cfg, a, calls, n - 1);
      LockStep(cfg, StateAt(cfg, a, calls, n - 1), calls[n - 1].0, calls[n - 1].1);
      var answers := Run(cfg, a, calls);
      assert SomeTookLock(calls, answers, n)
        <==> SomeTookLock(calls, answers, n - 1) || TakesLock(calls[n - 1].1, answers[n - 1]);
      assert SomeKeepsReadLock(calls, answers, n)
        <==> SomeKeepsReadLock(calls, answers, n - 1) || KeepsReadLock(calls[n - 1].1, answers[n - 1]);
    }
  }

  /**
   * A read is refused exactly when an earlier write of the run took the lock with it; a write is
   * refused exactly then, or when an earlier growth never returned.
   */
  lemma BlockedExactly<T>(cfg: Config, a: ApiState<T>, calls: seq<(u64, Op<T>)>, i: nat)
    requires ApiInv(cfg, a) && a.access == Free && i < |calls|
    ensures var answers := Run(cfg, a, calls);
            answers[i].Blocked? <==>
              || SomeTookLock(calls, answers, i)
              || (calls[i].1.IsWrite() && SomeKeepsReadLock(calls, answers, i))
  {
    hide ApiInv, ApiStep, Run, TakesLock, KeepsReadLock, SomeTookLock, SomeKeepsReadLock;
    AccessAt(cfg, a, calls, i);
    AnswerAt(cfg, a, calls, i);
    LockStep(cfg, StateAt(cfg, a, calls, i), calls[i].0, calls[i].1);
  }

  // ---- waiting and collided growths over whole runs

  /** How many growths have been announced and not applied. */
  ghost function Announced<T>(a: ApiState<T>): nat {
    if a.bucket.None? then 0 else a.bucket.value.active
  }

  /** The call is a growth that gets as far as announcing its result. */
  ghost predicate Announces<T>(cfg: Config, a: ApiState<T>, op: Op<T>) {
    && Admits(a.access, op) && op.GrowFor? && a.bucket.Some?
    && GrowthIsComputed(cfg, a.bucket.value, op.err, op.seeds)
  }

  /** The call takes the write lock. */
  ghost predicate Applies<T>(a: ApiState<T>, op: Op<T>) {
    op.IsWrite() && Admits(a.access, op)
  }

  /** A write applies one waiting growth and cannot clear a collision; only growths announce. */
  lemma AnnouncedStep<T>(cfg: Config, a: ApiState<T>, seed: u64, op: Op<T>)
    requires ApiInv(cfg, a)
    ensures var n, n' := Announced(a), Announced(ApiStep(cfg, a, seed, op).1);
            if Applies(a, op) then (n <= 1 ==> n' == 0) && (n >= 2 ==> n' >= 2)
            else n' == n + if Announces(cfg, a, op) then 1 else 0
  {
    hide IndexInv, DataInv, Meaning, TryWrite, FirstFit;
    if Applies(a, op) {
      WriteBucketKeeps(cfg, a, seed);
      WriteKeepsAnnounced(cfg, WriteBucket(cfg, a, seed), op);
    } else if op.GrowFor? && a.bucket.Some? {
      GrowKeeps(cfg, a.bucket.value, op.err, op.seeds);
    }
  }

  lemma WriteKeepsAnnounced<T>(cfg: Config, b: BucketState<T>, op: Op<T>)
    requires Inv(cfg, b) && b.active != 1 && op.IsWrite()
    ensures var n' := WriteOp(cfg, b, op).1.active;
            if b.active == 0 then n' == 0 else n' >= 2
  {
    hide IndexInv, DataInv, Meaning, TryWrite;
    match op
    case Insert(key, slots, rc, draws) => InsertKeepsAnnounced(cfg, b, key, slots, rc, draws);
    case Update(key, updatefn, draws) =>
      var val := updatefn(ReadValue(cfg, b, key));
      if val.Some? {
        InsertKeepsAnnounced(cfg, b, key, val.value.0, val.value.1, draws);
      } else {
        DeleteKeepsCapacities(cfg, b, key);
      }
    case Delete(key) => DeleteKeepsCapacities(cfg, b, key);
    case AddRef(key) => SetCountRefines(cfg, b, key, Increment);
    case UnRef(key) => SetCountRefines(cfg, b, key, Decrement);
    case TryInsert(key, slots, rc, draw) => TryWriteInv(cfg, b, key, slots, rc, draw);
  }

  lemma InsertKeepsAnnounced<T>(cfg: Config, b: BucketState<T>, key: Pubkey, slots: seq<T>, rc: u64, draws: seq<u64>)
    requires Inv(cfg, b) && b.active != 1
    ensures var n' := GrowthModel.Insert(cfg, b, key, slots, rc, draws).1.active;
            if b.active == 0 then n' == 0 else n' >= 2
  {
    hide IndexInv, DataInv, Meaning;
    if b.active == 0 {
      InsertRefines(cfg, b, key, slots, rc, draws);
    } else {
      WedgedInsert(cfg, b, key, slots, rc, draws);
    }
  }

  ghost predicate AnnouncesAt<T>(cfg: Config, a: ApiState<T>, calls: seq<(u64, Op<T>)>, i: nat)
    requires ApiInv(cfg, a) && i < |calls|
  {
    Announces(cfg, StateAt(cfg, a, calls, i), calls[i].1)
  }

  ghost predicate AppliesAt<T>(cfg: Config, a: ApiState<T>, calls: seq<(u64, Op<T>)>, i: nat)
    requires ApiInv(cfg, a) && i < |calls|
  {
    Applies(StateAt(cfg, a, calls, i), calls[i].1)
  }

  /** Call `i` announced a growth and no write has come between it and call `n`. */
  ghost predicate Pending<T>(cfg: Config, a: ApiState<T>, calls: seq<(u64, Op<T>)>, i: nat, n: nat)
    requires ApiInv(cfg, a) && n <= |calls|
  {
    i < n && AnnouncesAt(cfg, a, calls, i) && forall k: nat :: i < k < n ==> !AppliesAt(cfg, a, calls, k)
  }

  ghost predicate SomePending<T>(cfg: Config, a: ApiState<T>, calls: seq<(u64, Op<T>)>, n: nat)
    requires ApiInv(cfg, a) && n <= |calls|
  {
    exists i: nat :: Pending(cfg, a, calls, i, n)
  }

  /** Two growths of the first `n` calls were announced without a write between them. */
  ghost predicate Collided<T>(cfg: Config, a: ApiState<T>, calls: seq<(u64, Op<T>)>, n: nat)
    requires ApiInv(cfg, a) && n <= |calls|
  {
    exists j: nat :: j < n && AnnouncesAt(cfg, a, calls, j) && SomePending(cfg, a, calls, j)
  }

  lemma PendingStep<T>(cfg: Config, a: ApiState<T>, calls: seq<(u64, Op<T>)>, n: nat)
    requires ApiInv(cfg, a) && n < |calls|
    ensures SomePending(cfg, a, calls, n + 1) <==>
              || AnnouncesAt(cfg, a, calls, n)
              || (SomePending(cfg, a, calls, n) && !AppliesAt(cfg, a, calls, n))
  {
    hide ApiInv, StateAt, AnnouncesAt, AppliesAt;
    if AnnouncesAt(cfg, a, calls, n) {
      assert Pending(cfg, a, calls, n, n + 1);
    }
    if SomePending(cfg, a, calls, n) && !AppliesAt(cfg, a, calls, n) {
      var i: nat :| Pending(cfg, a, calls, i, n);
      assert Pending(cfg, a, calls, i, n + 1);
    }
    if SomePending(cfg, a, calls, n + 1) && !AnnouncesAt(cfg, a, calls, n) {
      var i: nat :| Pending(cfg, a, calls, i, n + 1);
      assert Pending(cfg, a, calls, i, n);
    }
  }

  /**
   * A run wedges the bucket if and only if it announces two growths with no write between them; one
   * growth waits if and only if it was announced and no write has come since.
   */
  lemma {:induction false} WedgedExactly<T>(cfg: Config, a: ApiState<T>, calls: seq<(u64, Op<T>)>, n: nat)
    requires ApiInv(cfg, a) && Announced(a) == 0 && n <= |calls|
    ensures var s := StateAt(cfg, a, calls, n);
            && (Wedged(s) <==> Collided(cfg, a, calls, n))
            && (Waiting(s) <==> SomePending(cfg, a, calls, n) && !Collided(cfg, a, calls, n))
  {
    hide ApiInv, ApiStep, Pending, SomePending, Announces, Applies;
    if n == 0 {
      NothingPending(cfg, a, calls);
    } else {
      WedgedExactly(cfg, a, calls, n - 1);
      AnnouncedStep(cfg, StateAt(cfg, a, calls, n - 1), calls[n - 1].0, calls[n - 1].1);
      PendingStep(cfg, a, calls, n - 1);
      NotBoth(StateAt(cfg, a, calls, n - 1), calls[n - 1].1, cfg);
      assert Collided(cfg, a, calls, n) <==>
          Collided(cfg, a, calls, n - 1) || (AnnouncesAt(cfg, a, calls, n - 1) && SomePending(cfg, a, calls, n - 1));
    }
  }

  lemma NothingPending<T>(cfg: Config, a: ApiState<T>, calls: seq<(u64, Op<T>)>)
    requires ApiInv(cfg, a)
    ensures !SomePending(cfg, a, calls, 0)
  {
  }

  lemma NotBoth<T>(a: ApiState<T>, op: Op<T>, cfg: Config)
    ensures !(Announces(cfg, a, op) && Applies(a, op))
  {
  }

  /** On a run without explicit growth from a new bucket, only reference counts leaving their range panic. */
  lemma SettledRun<T>(cfg: Config, zero: T, calls: seq<(u64, Op<T>)>, i: nat)
    requires i < |calls| && forall j :: 0 <= j < |calls| ==> !calls[j].1.GrowFor?
    ensures var a := ApiState(None, Free, zero);
            Run(cfg, a, calls)[i].Panics? ==>
              var m := ApiAbs(cfg, StateAt(cfg, a, calls, i));
              || (calls[i].1.AddRef? && calls[i].1.key in m && m[calls[i].1.key].1 == 0xFFFF_FFFF_FFFF_FFFF)
              || (calls[i].1.UnRef? && calls[i].1.key in m && m[calls[i].1.key].1 == 0)
  {
    var a := ApiState(None, Free, zero);
    assert ApiInv(cfg, a);
    hide ApiInv, ApiStep, Run;
    AnswerAt(cfg, a, calls, i);
    PanicsExactly(cfg, StateAt(cfg, a, calls, i), calls[i].0, calls[i].1);
    WedgedExactly(cfg, a, calls, i);
    assert forall j: nat :: j < |calls| ==> !AnnouncesAt(cfg, a, calls, j);
  }

  // ---- the shortest failing runs

  /** A growth while another one waits collides with it, if and only if it gets as far as announcing its result. */
  lemma CollisionWedges<T>(cfg: Config, a: ApiState<T>, seed: u64, op: Op<T>)
    requires ApiInv(cfg, a) && op.GrowFor? && Admits(a.access, op) && Waiting(a)
    ensures Wedged(ApiStep(cfg, a, seed, op).1) <==> GrowthIsComputed(cfg, a.bucket.value, op.err, op.seeds)
  {
    hide ApiStep;
    AnnouncedStep(cfg, a, seed, op);
  }

  /** One failed write answered by two growths wedges a new bucket. */
  lemma NewBucketWedges<T>(cfg: Config, zero: T, seed: u64, key: Pubkey, x: T, draw: u64)
    ensures var a := ApiState(None, Free, zero);
            var grow := (seed, GrowFor(DataNoSpace(0, 0), []));
            var calls := [(seed, TryInsert(key, [x], 1, draw)), grow, grow];
            && Run(cfg, a, calls) == [Writes(Err(DataNoSpace(0, 0))), Grows(true), Panics]
            && Wedged(StateAt(cfg, a, calls, 3))
  {
    hide IndexInv, DataInv, Meaning;
    var a := ApiState(None, Free, zero);
    var grow := (seed, GrowFor(DataNoSpace(0, 0), []));
    var calls := [(seed, TryInsert(key, [x], 1, draw)), grow, grow];
    assert StateAt(cfg, a, calls, 0) == a;
    var step := ApiStep(cfg, a, seed, TryInsert(key, [x], 1, draw));
    assert step == (Writes(Err(DataNoSpace(0, 0))), ApiState(Some(NewBucket(seed, zero)), Free, zero));
    var s1 := StateAt(cfg, a, calls, 1);
    var s2 := StateAt(cfg, a, calls, 2);
    assert s1 == ApiState(Some(NewBucket(seed, zero)), Free, zero);
    GrowKeeps(cfg, s1.bucket.value, DataNoSpace(0, 0), []);
    GrowKeeps(cfg, s2.bucket.value, DataNoSpace(0, 0), []);
    AnswerAt(cfg, a, calls, 0);
    AnswerAt(cfg, a, calls, 1);
    AnswerAt(cfg, a, calls, 2);
  }

  /** A bucket with at most the smallest data storage: growing that and writing leaves it with one of the new size. */
  lemma GrownAndApplied<T>(cfg: Config, s: ApiState<T>, seed: u64, key: Pubkey, current: nat)
    requires ApiInv(cfg, s) && s.access == Free && s.bucket.Some? && s.bucket.value.active == 0
    requires var data := s.bucket.value.data; |data| <= 1 && (data != [] ==> data[0].pow2 <= GrownPow2(current))
    ensures var (grown, s') := ApiStep(cfg, s, seed, GrowFor(DataNoSpace(0, current), []));
            && grown == Grows(true) && ApiInv(cfg, s')
            && var (deleted, s'') := ApiStep(cfg, s', seed, Delete(key));
            && deleted == Nothing && ApiInv(cfg, s'') && s''.access == Free && s''.bucket.Some?
            && s''.bucket.value.active == 0 && |s''.bucket.value.data| == 1
            && s''.bucket.value.data[0].pow2 == GrownPow2(current)
            && ApiAbs(cfg, s'') == ApiAbs(cfg, s) - {key}
  {
    hide IndexInv, DataInv, Meaning, DeleteKey;
    var err := DataNoSpace(0, current);
    GrowKeeps(cfg, s.bucket.value, err, []);
    var s' := ApiStep(cfg, s, seed, GrowFor(err, [])).1;
    HandleKeeps(cfg, s'.bucket.value);
    var b := HandleDelayedGrows(cfg, s'.bucket.value);
    assert |b.data| == 1 && b.data[0].pow2 == GrownPow2(current);
    DeleteKeepsCapacities(cfg, b, key);
    DeleteKeyRefines(cfg, b, key);
    ApiStepInv(cfg, s', seed, Delete(key));
  }

  lemma DeleteOnNew<T>(cfg: Config, zero: T, seed: u64, key: Pubkey)
    ensures var (ans, s) := ApiStep(cfg, ApiState(None, Free, zero), seed, Delete(key));
            && ans == Nothing && ApiInv(cfg, s) && s.access == Free && s.bucket.Some?
            && s.bucket.value.active == 0 && s.bucket.value.data == []
  {
    hide IndexInv, DataInv, Meaning, DeleteKey;
    NewBucketIsEmpty(cfg, seed, zero);
    DeleteKeepsCapacities(cfg, NewBucket(seed, zero), key);
    ApiStepInv(cfg, ApiState(None, Free, zero), seed, Delete(key));
  }

  lemma OutdatedPanics<T>(cfg: Config, s: ApiState<T>, seed: u64)
    requires ApiInv(cfg, s) && s.access == Free && s.bucket.Some?
    requires |s.bucket.value.data| == 1 && s.bucket.value.data[0].pow2 == 6
    ensures ApiStep(cfg, s, seed, GrowFor(DataNoSpace(0, 0), [])).0 == Panics
  {
    hide IndexInv, DataInv, Meaning;
    GrowKeeps(cfg, s.bucket.value, DataNoSpace(0, 0), []);
  }

  lemma NoBucketIsOk<T>(cfg: Config, a: ApiState<T>)
    requires a.bucket.None?
    ensures ApiInv(cfg, a)
  {
  }

  /** A growth reported before the storage was created panics once the storage has grown beyond its first size. */
  lemma OutdatedGrowthPanics<T>(cfg: Config, zero: T, seed: u64, key: Pubkey)
    ensures var a := ApiState(None, Free, zero);
            var calls := [(seed, Delete(key)), (seed, GrowFor(DataNoSpace(0, 5), [])),
                          (seed, Delete(key)), (seed, GrowFor(DataNoSpace(0, 0), []))];
            Run(cfg, a, calls) == [Nothing, Grows(true), Nothing, Panics]
  {
    var a := ApiState(None, Free, zero);
    hide ApiInv, ApiStep, Run;
    NoBucketIsOk(cfg, a);
    var calls := [(seed, Delete(key)), (seed, GrowFor(DataNoSpace(0, 5), [])),
                  (seed, Delete(key)), (seed, GrowFor(DataNoSpace(0, 0), []))];
    assert StateAt(cfg, a, calls, 0) == a;
    DeleteOnNew(cfg, zero, seed, key);
    var s1 := StateAt(cfg, a, calls, 1);
    GrownAndApplied(cfg, s1, seed, key, 5);
    var s2, s3 := StateAt(cfg, a, calls, 2), StateAt(cfg, a, calls, 3);
    assert s2 == ApiStep(cfg, s1, seed, GrowFor(DataNoSpace(0, 5), [])).1;
    assert s3 == ApiStep(cfg, s2, seed, Delete(key)).1;
    OutdatedPanics(cfg, s3, seed);
    AnswerAt(cfg, a, calls, 0);
    AnswerAt(cfg, a, calls, 1);
    AnswerAt(cfg, a, calls, 2);
    AnswerAt(cfg, a, calls, 3);
  }
}
