/**
 * An outdated growth among honest callers: every growth answers a report that a failed write gave, and no
 * report is used twice. Two writers are told that a storage is missing; one of them has it created, the
 * storage fills up and grows, and then the other one asks for the growth it was told to ask for.
 */
module HonestGrowth {
  import opened Wrappers
  import opened PowersOfTwo
  import opened StorageModel
  import opened IndexModel
  import opened IndexGrowth
  import opened Crowding
  import opened DataModel
  import opened BucketModel
  import opened GrowthModel
  import opened Orphans
  import opened OrphanRuns
  import opened ApiModel
  import opened ApiSafety

  // ---- runs put together

  /** A run after a run. */
  lemma {:induction false} RunJoins<T>(cfg: Config, a: ApiState<T>, first: seq<(u64, Op<T>)>, next: seq<(u64, Op<T>)>)
    requires ApiInv(cfg, a)
    ensures var s := StateAt(cfg, a, first, |first|);
            && Run(cfg, a, first + next) == Run(cfg, a, first) + Run(cfg, s, next)
            && StateAt(cfg, a, first + next, |first + next|) == StateAt(cfg, s, next, |next|)
    decreases |first|
  {
    hide ApiInv, ApiStep;
    var all := first + next;
    if first == [] {
      assert all == next;
    } else {
      var (seed, op) := first[0];
      ApiStepInv(cfg, a, seed, op);
      assert all[0] == first[0] && all[1..] == first[1..] + next;
      RunJoins(cfg, ApiStep(cfg, a, seed, op).1, first[1..], next);
      StateAfterFirst(cfg, a, first, |first|);
      StateAfterFirst(cfg, a, all, |all|);
    }
  }

  lemma RunOfOne<T>(cfg: Config, a: ApiState<T>, call: (u64, Op<T>))
    requires ApiInv(cfg, a)
    ensures var (ans, s) := ApiStep(cfg, a, call.0, call.1);
            ApiInv(cfg, s) && Run(cfg, a, [call]) == [ans] && StateAt(cfg, a, [call], 1) == s
  {
    hide ApiInv, ApiStep;
    ApiStepInv(cfg, a, call.0, call.1);
    assert [call][1..] == [];
    assert StateAt(cfg, a, [call], 0) == a;
  }

  /** A call before a run. */
  lemma RunStarts<T>(cfg: Config, a: ApiState<T>, call: (u64, Op<T>), next: seq<(u64, Op<T>)>)
    requires ApiInv(cfg, a)
    ensures var (ans, s) := ApiStep(cfg, a, call.0, call.1);
            && ApiInv(cfg, s) && Run(cfg, a, [call] + next) == [ans] + Run(cfg, s, next)
            && StateAt(cfg, a, [call] + next, |next| + 1) == StateAt(cfg, s, next, |next|)
  {
    hide ApiInv, ApiStep, Run, StateAt;
    RunOfOne(cfg, a, call);
    RunJoins(cfg, a, [call], next);
  }

  lemma RunOfFour<T>(cfg: Config, a: ApiState<T>, calls: seq<(u64, Op<T>)>)
    requires ApiInv(cfg, a) && |calls| == 4
    ensures var (ans0, s0) := ApiStep(cfg, a, calls[0].0, calls[0].1);
            && ApiInv(cfg, s0)
            && var (ans1, s1) := ApiStep(cfg, s0, calls[1].0, calls[1].1);
            && ApiInv(cfg, s1)
            && var (ans2, s2) := ApiStep(cfg, s1, calls[2].0, calls[2].1);
            && ApiInv(cfg, s2)
            && var (ans3, s3) := ApiStep(cfg, s2, calls[3].0, calls[3].1);
            Run(cfg, a, calls) == [ans0, ans1, ans2, ans3] && StateAt(cfg, a, calls, 4) == s3
  {
    hide ApiInv, ApiStep, Run, StateAt;
    RunStarts(cfg, a, calls[0], calls[1..]);
    var s0 := ApiStep(cfg, a, calls[0].0, calls[0].1).1;
    RunStarts(cfg, s0, calls[1], calls[2..]);
    var s1 := ApiStep(cfg, s0, calls[1].0, calls[1].1).1;
    RunStarts(cfg, s1, calls[2], [calls[3]]);
    RunOfOne(cfg, ApiStep(cfg, s1, calls[2].0, calls[2].1).1, calls[3]);
    assert calls == [calls[0]] + calls[1..] && calls[1..] == [calls[1]] + calls[2..];
    assert calls[2..] == [calls[2]] + [calls[3]];
  }

  // ---- filling up a storage with one key

  /** One data storage, of the first size, and nothing waiting. */
  ghost predicate FirstSize<T>(cfg: Config, s: ApiState<T>) {
    && ApiInv(cfg, s) && s.access == Free && s.bucket.Some? && s.bucket.value.active == 0
    && |s.bucket.value.data| == 1 && s.bucket.value.data[0].pow2 == DEFAULT_CAPACITY_POW2
  }

  ghost predicate HasIndexRoom<T>(cfg: Config, s: ApiState<T>, key: Pubkey)
    requires FirstSize(cfg, s)
  {
    key in ApiAbs(cfg, s) || !WindowFull(cfg, s.bucket.value, key)
  }

  const FULL: BucketMapError := DataNoSpace(0, DEFAULT_CAPACITY_POW2)

  lemma {:induction false} SecondsCount(cells: set<(int, int)>)
    requires forall p :: p in cells ==> p.0 == 0
    ensures |set p | p in cells :: p.1| == |cells|
    decreases |cells|
  {
    if cells != {} {
      var p :| p in cells;
      var rest := cells - {p};
      SecondsCount(rest);
      assert (set q | q in cells :: q.1) == (set q | q in rest :: q.1) + {p.1};
      assert p.1 !in set q | q in rest :: q.1;
    }
  }

  /** There are at most as many cells left behind as there are cells. */
  lemma OrphansFit<T>(cfg: Config, s: ApiState<T>)
    requires FirstSize(cfg, s)
    ensures OrphanCount(s) <= Pow2(DEFAULT_CAPACITY_POW2)
  {
    hide IndexInv, Owned, DistinctCells;
    var b := s.bucket.value;
    assert StorageOk(b.data[0], 0);
    var cells := OrphansOf(b);
    SecondsCount(cells);
    SubsetSize(set p | p in cells :: p.1, LockedCells(b.data[0]));
    LockedFit(b.data[0]);
  }

  /** The key is stored, and writing one slot from the same start would report a full storage again. */
  ghost predicate RefusesAgain<T>(cfg: Config, s: ApiState<T>, key: Pubkey, x: T, draw: u64)
    requires FirstSize(cfg, s)
  {
    key in ApiAbs(cfg, s) && WriteVerdict(cfg, s.bucket.value, key, [x], draw) == Err(FULL)
  }

  /** Writing one slot succeeds or reports that the storage is full, and keeps the storage's size. */
  lemma OneSlotWrites<T>(cfg: Config, s: ApiState<T>, seed: u64, key: Pubkey, x: T, draw: u64)
    requires FirstSize(cfg, s) && HasIndexRoom(cfg, s, key)
    ensures var (ans, s') := ApiStep(cfg, s, seed, TryInsert(key, [x], 1, draw));
            && FirstSize(cfg, s') && (ans == Writes(Ok(())) || ans == Writes(Err(FULL)))
            && (ans == Writes(Ok(())) ==> ApiAbs(cfg, s') == ApiAbs(cfg, s)[key := ([x], 1)])
            && (ans == Writes(Err(FULL)) ==> RefusesAgain(cfg, s', key, x, draw))
            && OrphanCount(s') == OrphanCount(s)
  {
    hide IndexInv, DataInv, Meaning, TryWrite, OrphansOf;
    var b, op := s.bucket.value, TryInsert(key, [x], 1, draw);
    OrphanStep(cfg, s, seed, op);
    ApiStepInv(cfg, s, seed, op);
    TryWriteInv(cfg, b, key, [x], 1, draw);
    WriteKeepsCapacities(cfg, b, key, [x], 1, draw);
  }

  /** Emptying the one-slot list succeeds and leaves its cell behind. */
  lemma NoSlotWrites<T>(cfg: Config, s: ApiState<T>, seed: u64, key: Pubkey, draw: u64)
    requires FirstSize(cfg, s) && key in ApiAbs(cfg, s) && |ApiAbs(cfg, s)[key].0| == 1
    ensures var (ans, s') := ApiStep(cfg, s, seed, TryInsert(key, [], 1, draw));
            && FirstSize(cfg, s') && ans == Writes(Ok(())) && key in ApiAbs(cfg, s')
            && OrphanCount(s') == OrphanCount(s) + 1
  {
    hide IndexInv, DataInv, Meaning, TryWrite, OrphansOf;
    var b, op := s.bucket.value, TryInsert(key, [], 1, draw);
    OrphanStep(cfg, s, seed, op);
    ApiStepInv(cfg, s, seed, op);
    TryWriteInv(cfg, b, key, [], 1, draw);
    WriteKeepsCapacities(cfg, b, key, [], 1, draw);
    TryInsertOrphans(cfg, b, op);
  }

  /** One slot and then none, in turn, to one key. */
  function Alternating<T>(i: nat, seed: u64, key: Pubkey, x: T, draw: u64): (u64, Op<T>) {
    (seed, TryInsert(key, if i % 2 == 0 then [x] else [], 1, draw))
  }

  /** The run writes one slot and none in turn, and ends with a write that was told that the storage is full. */
  ghost predicate EndsFull<T>(cfg: Config, s: ApiState<T>, calls: seq<(u64, Op<T>)>,
                              seed: u64, key: Pubkey, x: T, draw: u64)
    requires ApiInv(cfg, s)
  {
    && |calls| % 2 == 1
    && (forall i :: 0 <= i < |calls| ==> calls[i] == Alternating(i, seed, key, x, draw))
    && Run(cfg, s, calls)[|calls| - 1] == Writes(Err(FULL))
    && var end := StateAt(cfg, s, calls, |calls|);
    FirstSize(cfg, end) && RefusesAgain(cfg, end, key, x, draw)
  }

  /** Writing one slot and then none to one key, over and over, fills the storage with cells left behind. */
  lemma {:induction false} FillsUp<T>(cfg: Config, s: ApiState<T>, seed: u64, key: Pubkey, x: T, draw: u64)
    returns (calls: seq<(u64, Op<T>)>)
    requires FirstSize(cfg, s) && HasIndexRoom(cfg, s, key)
    ensures EndsFull(cfg, s, calls, seed, key, x, draw)
    decreases Pow2(DEFAULT_CAPACITY_POW2) - OrphanCount(s)
  {
    hide ApiStep, Run, StateAt, EndsFull, WindowFull, OrphanCount, ApiAbs, RefusesAgain;
    OneSlotWrites(cfg, s, seed, key, x, draw);
    var (ans, s1) := ApiStep(cfg, s, seed, TryInsert(key, [x], 1, draw));
    if ans == Writes(Err(FULL)) {
      FillEnds(cfg, s, seed, key, x, draw);
      calls := [Alternating(0, seed, key, x, draw)];
    } else {
      NoSlotWrites(cfg, s1, seed, key, draw);
      var s2 := ApiStep(cfg, s1, seed, TryInsert(key, [], 1, draw)).1;
      OrphansFit(cfg, s2);
      var rest := FillsUp(cfg, s2, seed, key, x, draw);
      FillStarts(cfg, s, rest, seed, key, x, draw);
      calls := [Alternating(0, seed, key, x, draw)] + ([Alternating(1, seed, key, x, draw)] + rest);
    }
  }

  lemma FillEnds<T>(cfg: Config, s: ApiState<T>, seed: u64, key: Pubkey, x: T, draw: u64)
    requires ApiInv(cfg, s)
    requires var (ans, s') := ApiStep(cfg, s, seed, TryInsert(key, [x], 1, draw));
             ans == Writes(Err(FULL)) && FirstSize(cfg, s') && RefusesAgain(cfg, s', key, x, draw)
    ensures EndsFull(cfg, s, [Alternating(0, seed, key, x, draw)], seed, key, x, draw)
  {
    hide ApiInv, ApiStep, FirstSize, RefusesAgain, Run, StateAt;
    RunOfOne(cfg, s, Alternating(0, seed, key, x, draw));
  }

  lemma FillStarts<T>(cfg: Config, s: ApiState<T>, rest: seq<(u64, Op<T>)>, seed: u64, key: Pubkey, x: T, draw: u64)
    requires ApiInv(cfg, s)
    requires var s1 := ApiStep(cfg, s, seed, TryInsert(key, [x], 1, draw)).1;
             && ApiInv(cfg, s1)
             && var s2 := ApiStep(cfg, s1, seed, TryInsert(key, [], 1, draw)).1;
             ApiInv(cfg, s2) && EndsFull(cfg, s2, rest, seed, key, x, draw)
    ensures EndsFull(cfg, s, [Alternating(0, seed, key, x, draw)] + ([Alternating(1, seed, key, x, draw)] + rest),
                     seed, key, x, draw)
  {
    hide ApiInv, ApiStep, FirstSize, RefusesAgain, Run, StateAt;
    var write, empty := Alternating(0, seed, key, x, draw), Alternating(1, seed, key, x, draw);
    var calls := [write] + ([empty] + rest);
    RunStarts(cfg, s, write, [empty] + rest);
    RunStarts(cfg, ApiStep(cfg, s, write.0, write.1).1, empty, rest);
    forall i | 0 <= i < |calls|
      ensures calls[i] == Alternating(i, seed, key, x, draw)
    {
      if i >= 2 {
        assert calls[i] == rest[i - 2];
      }
    }
  }

  // ---- the run

  /** Every growth answers its own report: `of[i]` is the failed write that growth `i` answers. */
  ghost predicate Honest<T>(calls: seq<(u64, Op<T>)>, answers: seq<Answer<T>>, of: seq<nat>)
    requires |calls| == |answers|
  {
    && |of| == |calls|
    && (forall i :: 0 <= i < |calls| && calls[i].1.GrowFor? ==>
          of[i] < i && calls[of[i]].1.TryInsert? && answers[of[i]] == Writes(Err(calls[i].1.err)))
    && (forall i, j :: 0 <= i < j < |calls| && calls[i].1.GrowFor? && calls[j].1.GrowFor? ==> of[i] != of[j])
  }

  const MISSING: BucketMapError := DataNoSpace(0, 0)

  lemma FirstWriteFails<T>(cfg: Config, zero: T, seed: u64, key: Pubkey, x: T, draw: u64)
    ensures var write, s := TryInsert(key, [x], 1, draw), ApiState(Some(NewBucket(seed, zero)), Free, zero);
            && ApiInv(cfg, s)
            && ApiStep(cfg, ApiState(None, Free, zero), seed, write) == (Writes(Err(MISSING)), s)
            && ApiStep(cfg, s, seed, write) == (Writes(Err(MISSING)), s)
  {
    hide IndexInv, DataInv, Meaning;
    NewBucketIsEmpty(cfg, seed, zero);
    assert DataBucketFromNumSlots(1) == 0;
  }

  /** An empty index has room for any key. */
  lemma EmptyHasRoom<T>(cfg: Config, b: BucketState<T>, key: Pubkey)
    requires Live(cfg, b) && cfg.maxSearch >= 1 && Abs(cfg, b) == map[]
    ensures !WindowFull(cfg, b, key)
  {
    hide DataInv;
    assert Abs(cfg, b).Keys == Entries(b.index).Keys;
    FewAreUncrowded(cfg, {key}, |b.index.cells|, b.random);
    RoomIfUncrowded(cfg, b.index, b.random, {key}, key);
  }

  lemma CreatedSteps<T>(cfg: Config, zero: T, seed: u64, key: Pubkey)
    requires cfg.maxSearch >= 1
    ensures var s1 := ApiState(Some(NewBucket(seed, zero)), Free, zero);
            && ApiInv(cfg, s1)
            && var (grown, s2) := ApiStep(cfg, s1, seed, GrowFor(MISSING, []));
            && grown == Grows(true) && ApiInv(cfg, s2)
            && var (applied, s3) := ApiStep(cfg, s2, seed, Delete(key));
            applied == Nothing && FirstSize(cfg, s3) && HasIndexRoom(cfg, s3, key)
  {
    NewBucketIsEmpty(cfg, seed, zero);
    var s1 := ApiState(Some(NewBucket(seed, zero)), Free, zero);
    assert ApiInv(cfg, s1) && ApiAbs(cfg, s1) == map[];
    hide IndexInv, DataInv, Meaning, ApiStep, WindowFull;
    GrownAndApplied(cfg, s1, seed, key, 0);
    var s3 := ApiStep(cfg, ApiStep(cfg, s1, seed, GrowFor(MISSING, [])).1, seed, Delete(key)).1;
    assert ApiAbs(cfg, s3) == map[];
    EmptyHasRoom(cfg, s3.bucket.value, key);
  }

  /** Two writers are told that the storage is missing, one asks for it, and a write installs it. */
  function Opening<T>(seed: u64, key: Pubkey, x: T, draw: u64): (calls: seq<(u64, Op<T>)>)
    ensures |calls| == 4
  {
    var write := (seed, TryInsert(key, [x], 1, draw));
    [write, write, (seed, GrowFor(MISSING, [])), (seed, Delete(key))]
  }

  /** The full storage grows, and a write installs it. */
  function Closing<T>(seed: u64, key: Pubkey): (calls: seq<(u64, Op<T>)>)
    ensures |calls| == 2
  {
    [(seed, GrowFor(FULL, [])), (seed, Delete(key))]
  }

  /** The other writer asks for what it was told is missing. */
  function Late<T>(seed: u64): (u64, Op<T>) {
    (seed, GrowFor(MISSING, []))
  }

  /** Two writers are told that the storage is missing, one has it created, and a write installs it. */
  lemma Created<T>(cfg: Config, zero: T, seed: u64, key: Pubkey, x: T, draw: u64)
    requires cfg.maxSearch >= 1
    ensures var a, calls := ApiState(None, Free, zero), Opening(seed, key, x, draw);
            var s := StateAt(cfg, a, calls, 4);
            && Run(cfg, a, calls) == [Writes(Err(MISSING)), Writes(Err(MISSING)), Grows(true), Nothing]
            && FirstSize(cfg, s) && HasIndexRoom(cfg, s, key)
  {
    var a, calls := ApiState(None, Free, zero), Opening(seed, key, x, draw);
    assert ApiInv(cfg, a);
    assert calls[0] == calls[1] == (seed, TryInsert(key, [x], 1, draw));
    assert calls[2] == (seed, GrowFor(MISSING, [])) && calls[3] == (seed, Delete(key));
    hide *;
    var s1 := ApiState(Some(NewBucket(seed, zero)), Free, zero);
    FirstWriteFails(cfg, zero, seed, key, x, draw);
    CreatedSteps(cfg, zero, seed, key);
    RunOfFour(cfg, a, calls);
  }

  /** Nothing waits, and the report names a capacity that the storage has left behind. */
  ghost predicate IsOutdated<T>(s: ApiState<T>, err: BucketMapError) {
    s.bucket.Some? && Announced(s) == 0 && err.DataNoSpace? && !Current(s.bucket.value, err)
  }

  lemma Outdated<T>(cfg: Config, s: ApiState<T>, seed: u64, key: Pubkey)
    requires FirstSize(cfg, s)
    ensures var end := StateAt(cfg, s, Closing(seed, key), 2);
            && Run(cfg, s, Closing(seed, key)) == [Grows(true), Nothing]
            && IsOutdated(end, MISSING) && Run(cfg, end, [Late(seed)]) == [Panics]
  {
    hide ApiStep, Run, StateAt, IndexInv, DataInv;
    var grow, apply := (seed, GrowFor(FULL, [])), (seed, Delete(key));
    GrownAndApplied(cfg, s, seed, key, DEFAULT_CAPACITY_POW2);
    var s1 := ApiStep(cfg, s, seed, grow.1).1;
    var s2 := ApiStep(cfg, s1, seed, apply.1).1;
    OutdatedPanics(cfg, s2, seed);
    RunStarts(cfg, s, grow, [apply]);
    RunOfOne(cfg, s1, apply);
    RunOfOne(cfg, s2, Late(seed));
    assert [grow] + [apply] == Closing(seed, key);
  }

  /**
   * Every growth answers a report of its own, and the last call is a growth that panics although nothing
   * waits: its report is outdated.
   */
  ghost predicate PanicsHonestly<T>(cfg: Config, a: ApiState<T>, calls: seq<(u64, Op<T>)>, of: seq<nat>)
    requires ApiInv(cfg, a)
  {
    var answers, last := Run(cfg, a, calls), |calls| - 1;
    && Honest(calls, answers, of)
    && calls != [] && calls[last].1.GrowFor? && answers[last].Panics?
    && IsOutdated(StateAt(cfg, a, calls, last), calls[last].1.err)
  }

  /** A run of honest callers that ends with a growth that panics because its report is outdated. */
  lemma HonestGrowthPanics<T>(cfg: Config, zero: T, seed: u64, key: Pubkey, x: T, draw: u64)
    returns (calls: seq<(u64, Op<T>)>, of: seq<nat>)
    requires cfg.maxSearch >= 1
    ensures PanicsHonestly(cfg, ApiState(None, Free, zero), calls, of)
  {
    var a, first := ApiState(None, Free, zero), Opening(seed, key, x, draw);
    assert ApiInv(cfg, a);
    hide *;
    Created(cfg, zero, seed, key, x, draw);
    var fill := FillsUp(cfg, StateAt(cfg, a, first, 4), seed, key, x, draw);
    calls := first + (fill + Closing(seed, key)) + [Late(seed)];
    of := Assemble(cfg, a, fill, seed, key, x, draw);
  }

  lemma Assemble<T>(cfg: Config, a: ApiState<T>, fill: seq<(u64, Op<T>)>, seed: u64, key: Pubkey, x: T, draw: u64)
    returns (of: seq<nat>)
    requires ApiInv(cfg, a)
    requires var first := Opening(seed, key, x, draw);
             && Run(cfg, a, first) == [Writes(Err(MISSING)), Writes(Err(MISSING)), Grows(true), Nothing]
             && EndsFull(cfg, StateAt(cfg, a, first, 4), fill, seed, key, x, draw)
    ensures PanicsHonestly(cfg, a, Opening(seed, key, x, draw) + (fill + Closing(seed, key)) + [Late(seed)], of)
  {
    hide ApiInv, ApiStep, Run, StateAt, FirstSize, Honest, Opening, Closing, IsOutdated, RefusesAgain;
    var first, close, late := Opening(seed, key, x, draw), Closing<T>(seed, key), Late<T>(seed);
    var before := first + (fill + close);
    var s := StateAt(cfg, a, first, 4);
    Outdated(cfg, StateAt(cfg, s, fill, |fill|), seed, key);
    RunJoins(cfg, s, fill, close);
    RunJoins(cfg, a, first, fill + close);
    RunJoins(cfg, a, before, [late]);
    StateAtPrefix(cfg, a, before, [late], |before|);
    of := ReportOf(|fill|);
    PutTogether(before + [late], Run(cfg, a, before + [late]), fill, Run(cfg, s, fill), of, seed, key, x, draw);
  }

  /** Which failed write each growth of the run answers, when `m` calls fill the storage. */
  function ReportOf(m: nat): (of: seq<nat>)
    ensures |of| == m + 7
    ensures forall i :: 0 <= i < |of| ==> of[i] == if i == m + 4 then m + 3 else if i == m + 6 then 1 else 0
  {
    seq(m + 7, i => if i == m + 4 then m + 3 else if i == m + 6 then 1 else 0)
  }

  lemma PutTogether<T>(calls: seq<(u64, Op<T>)>, answers: seq<Answer<T>>, fill: seq<(u64, Op<T>)>,
                       filled: seq<Answer<T>>, of: seq<nat>, seed: u64, key: Pubkey, x: T, draw: u64)
    requires fill != [] && |filled| == |fill| && filled[|fill| - 1] == Writes(Err(FULL))
    requires forall i :: 0 <= i < |fill| ==> fill[i].1.TryInsert?
    requires calls == Opening(seed, key, x, draw) + (fill + Closing(seed, key)) + [Late(seed)]
    requires answers == [Writes(Err(MISSING)), Writes(Err(MISSING)), Grows(true), Nothing]
                        + (filled + [Grows(true), Nothing]) + [Panics]
    requires of == ReportOf(|fill|)
    ensures Honest(calls, answers, of) && answers[|calls| - 1].Panics?
  {
    hide ReportOf;
    var m := |fill|;
    forall i | 4 <= i < m + 4
      ensures calls[i] == fill[i - 4]
    {
    }
    assert forall i :: 0 <= i < |calls| && calls[i].1.GrowFor? ==> i == 2 || i == m + 4 || i == m + 6;
    assert calls[m + 3] == fill[m - 1] && answers[m + 3] == filled[m - 1];
  }
}
