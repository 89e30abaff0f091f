/** Whole runs on the sharded map: each shard goes its own way, so what one bucket's runs promise holds for the map. */
module MapRuns {
  import opened StorageModel
  import opened IndexModel
  import opened ApiModel
  import opened ApiSafety
  import opened OrphanRuns
  import opened MapModel

  /** The state after the first `n` calls of a run. */
  function MapStateAt<T>(cfg: Config, s: MapState<T>, calls: seq<Call<T>>, n: nat): (r: MapState<T>)
    requires MapInv(cfg, s) && n <= |calls|
    ensures MapInv(cfg, r) && r.maxBucketsPow2 == s.maxBucketsPow2 && |r.buckets| == |s.buckets|
  {
    if n == 0 then s
    else
      var prev := MapStateAt(cfg, s, calls, n - 1);
      MapStepRefines(cfg, prev, calls[n - 1]);
      MapStepTo(cfg, prev, calls[n - 1]).1
  }

  lemma {:induction false} MapStateAfterFirst<T>(cfg: Config, s: MapState<T>, calls: seq<Call<T>>, n: nat)
    requires MapInv(cfg, s) && 0 < n <= |calls|
    ensures var s' := MapStepTo(cfg, s, calls[0]).1;
            MapInv(cfg, s') && MapStateAt(cfg, s, calls, n) == MapStateAt(cfg, s', calls[1..], n - 1)
  {
    hide MapInv, MapStepTo;
    MapStepRefines(cfg, s, calls[0]);
    if n == 1 {
      assert MapStateAt(cfg, s, calls, 0) == s;
    } else {
      MapStateAfterFirst(cfg, s, calls, n - 1);
    }
  }

  /** Each answer of a run is that of its call in the state the calls before it have left. */
  lemma {:induction false} MapAnswerAt<T>(cfg: Config, s: MapState<T>, calls: seq<Call<T>>, i: nat)
    requires MapInv(cfg, s) && i < |calls|
    ensures MapRun(cfg, s, calls)[i] == MapStepTo(cfg, MapStateAt(cfg, s, calls, i), calls[i]).0
    decreases |calls|
  {
    hide MapInv, MapStepTo;
    MapStepRefines(cfg, s, calls[0]);
    if i > 0 {
      MapStateAfterFirst(cfg, s, calls, i);
      MapAnswerAt(cfg, MapStepTo(cfg, s, calls[0]).1, calls[1..], i - 1);
    }
  }

  /** The calls of a run that go to one shard. */
  function ToShard<T>(p: nat, calls: seq<Call<T>>, i: nat): seq<(u64, Op<T>)>
    requires p <= 64
  {
    if calls == [] then []
    else
      var last := calls[|calls| - 1];
      ToShard(p, calls[..|calls| - 1], i) + (if ShardOfCall(p, last) == i then [(last.seed, last.op)] else [])
  }

  /** One call steps its own shard and no other; a shard out of range panics. */
  lemma OneShardSteps<T>(cfg: Config, s: MapState<T>, call: Call<T>, i: nat)
    requires MapInv(cfg, s) && i < |s.buckets|
    ensures ApiInv(cfg, s.buckets[i])
    ensures var (ans, s') := MapStepTo(cfg, s, call);
            && |s'.buckets| == |s.buckets|
            && if ShardOfCall(s.maxBucketsPow2, call) == i
               then (ans, s'.buckets[i]) == ApiStep(cfg, s.buckets[i], call.seed, call.op)
               else s'.buckets[i] == s.buckets[i]
  {
    hide ApiStep, ApiInv, ApiAbs;
  }

  /** What a run leaves in a shard is what the calls to that shard alone leave there. */
  lemma {:induction false} ShardRunsAlone<T>(cfg: Config, s: MapState<T>, calls: seq<Call<T>>, n: nat, i: nat)
    requires MapInv(cfg, s) && n <= |calls| && i < |s.buckets|
    ensures ApiInv(cfg, s.buckets[i])
    ensures var mine := ToShard(s.maxBucketsPow2, calls[..n], i);
            MapStateAt(cfg, s, calls, n).buckets[i] == StateAt(cfg, s.buckets[i], mine, |mine|)
  {
    hide ApiStep, MapStepTo, ApiInv;
    if n > 0 {
      var p := s.maxBucketsPow2;
      var prev, last := MapStateAt(cfg, s, calls, n - 1), calls[n - 1];
      ShardRunsAlone(cfg, s, calls, n - 1, i);
      OneShardSteps(cfg, prev, last, i);
      assert calls[..n][..n - 1] == calls[..n - 1];
      var before := ToShard(p, calls[..n - 1], i);
      var mine := ToShard(p, calls[..n], i);
      if ShardOfCall(p, last) == i {
        StateAtPrefix(cfg, s.buckets[i], before, [(last.seed, last.op)], |before|);
        assert mine == before + [(last.seed, last.op)];
      } else {
        assert mine == before;
      }
    }
  }

  /** A call answers as the last of the calls to its shard alone. */
  lemma ShardAnswers<T>(cfg: Config, s: MapState<T>, calls: seq<Call<T>>, j: nat)
    requires MapInv(cfg, s) && j < |calls| && ShardOfCall(s.maxBucketsPow2, calls[j]) < |s.buckets|
    ensures var i := ShardOfCall(s.maxBucketsPow2, calls[j]);
            var mine := ToShard(s.maxBucketsPow2, calls[..j + 1], i);
            && ApiInv(cfg, s.buckets[i]) && mine != []
            && MapRun(cfg, s, calls)[j] == Run(cfg, s.buckets[i], mine)[|mine| - 1]
  {
    hide ApiStep, MapStepTo, ApiInv, Run, MapRun;
    var p, i, c := s.maxBucketsPow2, ShardOfCall(s.maxBucketsPow2, calls[j]), calls[j];
    MapAnswerAt(cfg, s, calls, j);
    ShardRunsAlone(cfg, s, calls, j, i);
    OneShardSteps(cfg, MapStateAt(cfg, s, calls, j), c, i);
    assert calls[..j + 1][..j] == calls[..j];
    var before := ToShard(p, calls[..j], i);
    var mine := ToShard(p, calls[..j + 1], i);
    assert mine == before + [(c.seed, c.op)];
    StateAtPrefix(cfg, s.buckets[i], before, [(c.seed, c.op)], |before|);
    AnswerAt(cfg, s.buckets[i], mine, |before|);
  }

  // ---- refusals and panics

  ghost predicate ShardTookLock<T>(p: nat, calls: seq<Call<T>>, answers: seq<Answer<T>>, n: nat, i: nat)
    requires p <= 64 && n <= |calls| == |answers|
  {
    exists j :: 0 <= j < n && ShardOfCall(p, calls[j]) == i && TakesLock(calls[j].op, answers[j])
  }

  ghost predicate ShardKeepsReadLock<T>(p: nat, calls: seq<Call<T>>, answers: seq<Answer<T>>, n: nat, i: nat)
    requires p <= 64 && n <= |calls| == |answers|
  {
    exists j :: 0 <= j < n && ShardOfCall(p, calls[j]) == i && KeepsReadLock(calls[j].op, answers[j])
  }

  lemma {:induction false} ShardAccessAt<T>(cfg: Config, s: MapState<T>, calls: seq<Call<T>>, n: nat, i: nat)
    requires MapInv(cfg, s) && n <= |calls| && i < |s.buckets| && s.buckets[i].access == Free
    ensures var answers := MapRun(cfg, s, calls);
            var access := MapStateAt(cfg, s, calls, n).buckets[i].access;
            var p := s.maxBucketsPow2;
            && (access == Poisoned || access == Held <==> ShardTookLock(p, calls, answers, n, i))
            && (access == ReadHeld ==> ShardKeepsReadLock(p, calls, answers, n, i))
            && (access == Free ==> !ShardKeepsReadLock(p, calls, answers, n, i))
  {
    hide ApiInv, ApiStep, MapStepTo, MapRun, ShardOfCall;
    if n > 0 {
      var p, answers, m := s.maxBucketsPow2, MapRun(cfg, s, calls), n - 1;
      ShardAccessAt(cfg, s, calls, m, i);
      MapAnswerAt(cfg, s, calls, m);
      OneShardSteps(cfg, MapStateAt(cfg, s, calls, m), calls[m], i);
      LockStep(cfg, MapStateAt(cfg, s, calls, m).buckets[i], calls[m].seed, calls[m].op);
      assert ShardTookLock(p, calls, answers, n, i) <==>
          || ShardTookLock(p, calls, answers, m, i)
          || (ShardOfCall(p, calls[m]) == i && TakesLock(calls[m].op, answers[m]));
      assert ShardKeepsReadLock(p, calls, answers, n, i) <==>
          || ShardKeepsReadLock(p, calls, answers, m, i)
          || (ShardOfCall(p, calls[m]) == i && KeepsReadLock(calls[m].op, answers[m]));
    }
  }

  /** A call is refused exactly when earlier calls to the same shard have kept its lock. */
  lemma MapBlockedExactly<T>(cfg: Config, s: MapState<T>, calls: seq<Call<T>>, j: nat)
    requires MapInv(cfg, s) && j < |calls| && forall i :: 0 <= i < |s.buckets| ==> s.buckets[i].access == Free
    ensures var answers, i := MapRun(cfg, s, calls), ShardOfCall(s.maxBucketsPow2, calls[j]);
            answers[j].Blocked? <==>
              && i < |s.buckets|
              && (|| ShardTookLock(s.maxBucketsPow2, calls, answers, j, i)
                  || (calls[j].op.IsWrite() && ShardKeepsReadLock(s.maxBucketsPow2, calls, answers, j, i)))
  {
    var now, i := MapStateAt(cfg, s, calls, j), ShardOfCall(s.maxBucketsPow2, calls[j]);
    MapAnswerAt(cfg, s, calls, j);
    if i < |s.buckets| {
      hide ApiInv, ApiStep, MapStepTo, MapRun, ShardOfCall, ShardTookLock, ShardKeepsReadLock, TakesLock, KeepsReadLock;
      ShardAccessAt(cfg, s, calls, j, i);
      OneShardSteps(cfg, now, calls[j], i);
      LockStep(cfg, now.buckets[i], calls[j].seed, calls[j].op);
    }
  }

  /** A call panics exactly when its shard does not exist, or lets the call in and panics on its own. */
  lemma MapPanicsExactly<T>(cfg: Config, s: MapState<T>, calls: seq<Call<T>>, j: nat)
    requires MapInv(cfg, s) && j < |calls|
    ensures var now, i := MapStateAt(cfg, s, calls, j), ShardOfCall(s.maxBucketsPow2, calls[j]);
            MapRun(cfg, s, calls)[j].Panics? <==>
              || i >= |s.buckets|
              || (Admits(now.buckets[i].access, calls[j].op) && WillPanic(cfg, now.buckets[i], calls[j].op))
  {
    var now, i := MapStateAt(cfg, s, calls, j), ShardOfCall(s.maxBucketsPow2, calls[j]);
    MapAnswerAt(cfg, s, calls, j);
    if i < |s.buckets| {
      OneShardSteps(cfg, now, calls[j], i);
      hide ApiStep, MapStepTo, MapRun, WillPanic;
      PanicsExactly(cfg, now.buckets[i], calls[j].seed, calls[j].op);
    }
  }

  // ---- cells left behind

  ghost function TotalOrphans<T>(buckets: seq<ApiState<T>>): nat {
    if buckets == [] then 0 else TotalOrphans(buckets[..|buckets| - 1]) + OrphanCount(buckets[|buckets| - 1])
  }

  lemma {:induction false} TotalUpdates<T>(buckets: seq<ApiState<T>>, i: nat, a: ApiState<T>)
    requires i < |buckets|
    ensures TotalOrphans(buckets[i := a]) == TotalOrphans(buckets) - OrphanCount(buckets[i]) + OrphanCount(a)
    decreases |buckets|
  {
    hide OrphanCount;
    var last := |buckets| - 1;
    if i < last {
      TotalUpdates(buckets[..last], i, a);
      assert buckets[i := a][..last] == buckets[..last][i := a];
    } else {
      assert buckets[i := a][..last] == buckets[..last];
    }
  }

  /** The call shrinks a one-slot list of its shard to nothing. */
  ghost predicate ShrinksShard<T>(cfg: Config, s: MapState<T>, call: Call<T>)
    requires MapInv(cfg, s)
  {
    var i := ShardOfCall(s.maxBucketsPow2, call);
    i < |s.buckets| && Shrinks(cfg, s.buckets[i], call.op)
  }

  lemma MapOrphanStep<T>(cfg: Config, s: MapState<T>, call: Call<T>)
    requires MapInv(cfg, s)
    ensures TotalOrphans(MapStepTo(cfg, s, call).1.buckets)
            == TotalOrphans(s.buckets) + if ShrinksShard(cfg, s, call) then 1 else 0
  {
    var i := ShardOfCall(s.maxBucketsPow2, call);
    if i < |s.buckets| {
      hide ApiStep, OrphanCount, Shrinks, ApiAbs;
      OrphanStep(cfg, s.buckets[i], call.seed, call.op);
      TotalUpdates(s.buckets, i, ApiStep(cfg, s.buckets[i], call.seed, call.op).1);
    }
  }

  ghost function MapShrinkCount<T>(cfg: Config, s: MapState<T>, calls: seq<Call<T>>, n: nat): nat
    requires MapInv(cfg, s) && n <= |calls|
  {
    if n == 0 then 0
    else
      MapShrinkCount(cfg, s, calls, n - 1)
      + if ShrinksShard(cfg, MapStateAt(cfg, s, calls, n - 1), calls[n - 1]) then 1 else 0
  }

  /** All shards together: a run leaves behind as many cells as it shrinks one-slot lists to nothing. */
  lemma {:induction false} MapOrphansOfRun<T>(cfg: Config, s: MapState<T>, calls: seq<Call<T>>, n: nat)
    requires MapInv(cfg, s) && n <= |calls|
    ensures TotalOrphans(MapStateAt(cfg, s, calls, n).buckets)
            == TotalOrphans(s.buckets) + MapShrinkCount(cfg, s, calls, n)
  {
    hide MapInv, MapStepTo, ShrinksShard, TotalOrphans;
    if n > 0 {
      MapOrphansOfRun(cfg, s, calls, n - 1);
      MapOrphanStep(cfg, MapStateAt(cfg, s, calls, n - 1), calls[n - 1]);
    }
  }
}
