/** The whole bucket map: one locked bucket per shard, which together are one plain map. */
module MapModel {
  import opened Wrappers
  import opened PowersOfTwo
  import opened StorageModel
  import opened DataModel
  import opened Sharding
  import opened ApiModel
  import opened IndexModel

  /** `2^maxBucketsPow2` buckets. */
  datatype MapState<T> = MapState(maxBucketsPow2: nat, buckets: seq<ApiState<T>>)

  /** Creating a map fails unless the number of buckets is a power of two. */
  function NewMap<T>(maxBuckets: nat, zero: T): (r: Outcome<MapState<T>>)
    ensures r.Returned? ==> |r.value.buckets| == maxBuckets
  {
    if maxBuckets == 0 || Pow2(Log2(maxBuckets)) != maxBuckets then Panicked
    else Returned(MapState(Log2(maxBuckets), seq(maxBuckets, _ => ApiState(None, Free, zero))))
  }

  /** Every bucket is consistent and holds keys of its own shard only. */
  ghost predicate MapInv<T>(cfg: Config, s: MapState<T>) {
    && s.maxBucketsPow2 <= 64 && |s.buckets| == Pow2(s.maxBucketsPow2)
    && (forall i :: 0 <= i < |s.buckets| ==> ApiInv(cfg, s.buckets[i]))
    && (forall i, k :: 0 <= i < |s.buckets| && k in ApiAbs(cfg, s.buckets[i]) ==> BucketIx(s.maxBucketsPow2, k) == i)
  }

  ghost function AllKeys<T>(cfg: Config, s: MapState<T>): set<Pubkey>
    requires MapInv(cfg, s)
  {
    set i, k | 0 <= i < |s.buckets| && k in ApiAbs(cfg, s.buckets[i]) :: k
  }

  function Shard<T>(s: MapState<T>, key: Pubkey): (i: nat)
    requires s.maxBucketsPow2 <= 64 && |s.buckets| == Pow2(s.maxBucketsPow2)
    ensures i < |s.buckets| && i == BucketIx(s.maxBucketsPow2, key)
  {
    BucketIxInRange(s.maxBucketsPow2, key);
    BucketIx(s.maxBucketsPow2, key)
  }

  /** The one map all the buckets stand for. */
  ghost function MapAbs<T>(cfg: Config, s: MapState<T>): map<Pubkey, Value<T>>
    requires MapInv(cfg, s)
  {
    map k | k in AllKeys(cfg, s) :: ApiAbs(cfg, s.buckets[Shard(s, k)])[k]
  }

  /** Looking a key up in the whole is looking it up in its shard. */
  lemma LookupInShard<T>(cfg: Config, s: MapState<T>, k: Pubkey)
    requires MapInv(cfg, s)
    ensures Lookup(MapAbs(cfg, s), k) == Lookup(ApiAbs(cfg, s.buckets[Shard(s, k)]), k)
  {
  }

  // ---- steps

  /** A call on the whole map: by key, or on one bucket by its number. */
  datatype Call<!T> = Call(bucket: nat, seed: u64, op: Op<T>)

  /** The shard a call goes to. */
  function ShardOfCall<T>(p: nat, call: Call<T>): nat
    requires p <= 64
  {
    if call.op.HasKey() then BucketIx(p, call.op.key) else call.bucket
  }

  /** A bucket number out of range panics before any lock is taken. */
  function MapStepTo<T>(cfg: Config, s: MapState<T>, call: Call<T>): (Answer<T>, MapState<T>)
    requires MapInv(cfg, s)
  {
    var i := ShardOfCall(s.maxBucketsPow2, call);
    if i >= |s.buckets| then (Panics, s)
    else
      var (ans, a) := ApiStep(cfg, s.buckets[i], call.seed, call.op);
      (ans, s.(buckets := s.buckets[i := a]))
  }

  /** The keys of one shard. */
  ghost function ShardOf<T>(p: nat, m: map<Pubkey, Value<T>>, i: nat): map<Pubkey, Value<T>>
    requires p <= 64
  {
    map k | k in m && BucketIx(p, k) == i :: m[k]
  }

  /** What a call may answer and leave behind, in terms of the one map. */
  ghost predicate WholeStep<T>(p: nat, m: map<Pubkey, Value<T>>, call: Call<T>, ans: Answer<T>,
                               m': map<Pubkey, Value<T>>)
    requires p <= 64
  {
    if call.op.HasKey() then MapStep(call.op, m, ans, m')
    else m' == m && if call.bucket < Pow2(p) then ScanStep(call.op, ShardOf(p, m, call.bucket), ans) else ans.Panics?
  }

  lemma ShardIsItsBucket<T>(cfg: Config, s: MapState<T>, i: nat)
    requires MapInv(cfg, s) && i < |s.buckets|
    ensures ShardOf(s.maxBucketsPow2, MapAbs(cfg, s), i) == ApiAbs(cfg, s.buckets[i])
  {
    var whole, part := MapAbs(cfg, s), ApiAbs(cfg, s.buckets[i]);
    forall k | k in part
      ensures k in whole && BucketIx(s.maxBucketsPow2, k) == i && whole[k] == part[k]
    {
      assert k in AllKeys(cfg, s);
    }
  }

  /** Replacing one bucket by one that differs at one of its own keys only. */
  lemma OneBucketSteps<T>(cfg: Config, s: MapState<T>, i: nat, a: ApiState<T>, key: Pubkey)
    requires MapInv(cfg, s) && i < |s.buckets| && ApiInv(cfg, a) && BucketIx(s.maxBucketsPow2, key) == i
    requires SameElsewhere(ApiAbs(cfg, s.buckets[i]), ApiAbs(cfg, a), key)
    ensures var s' := s.(buckets := s.buckets[i := a]);
            && MapInv(cfg, s') && SameElsewhere(MapAbs(cfg, s), MapAbs(cfg, s'), key)
            && Lookup(MapAbs(cfg, s), key) == Lookup(ApiAbs(cfg, s.buckets[i]), key)
            && Lookup(MapAbs(cfg, s'), key) == Lookup(ApiAbs(cfg, a), key)
  {
    var s' := s.(buckets := s.buckets[i := a]);
    BucketStaysInShard(cfg, s, i, a, key);
    LookupInShard(cfg, s, key);
    LookupInShard(cfg, s', key);
    forall k | k != key
      ensures Lookup(MapAbs(cfg, s'), k) == Lookup(MapAbs(cfg, s), k)
    {
      LookupInShard(cfg, s, k);
      LookupInShard(cfg, s', k);
    }
  }

  lemma BucketStaysInShard<T>(cfg: Config, s: MapState<T>, i: nat, a: ApiState<T>, key: Pubkey)
    requires MapInv(cfg, s) && i < |s.buckets| && ApiInv(cfg, a) && BucketIx(s.maxBucketsPow2, key) == i
    requires SameElsewhere(ApiAbs(cfg, s.buckets[i]), ApiAbs(cfg, a), key)
    ensures MapInv(cfg, s.(buckets := s.buckets[i := a]))
  {
    var s' := s.(buckets := s.buckets[i := a]);
    forall j, k | 0 <= j < |s'.buckets| && k in ApiAbs(cfg, s'.buckets[j])
      ensures BucketIx(s.maxBucketsPow2, k) == j
    {
      if j == i && k != key {
        assert Lookup(ApiAbs(cfg, a), k) == Lookup(ApiAbs(cfg, s.buckets[i]), k);
        assert k in ApiAbs(cfg, s.buckets[i]);
      }
    }
  }

  /** Every call on the whole map answers and acts as one plain map does. */
  lemma MapStepRefines<T>(cfg: Config, s: MapState<T>, call: Call<T>)
    requires MapInv(cfg, s)
    ensures var (ans, s') := MapStepTo(cfg, s, call);
            && MapInv(cfg, s') && s'.maxBucketsPow2 == s.maxBucketsPow2
            && WholeStep(s.maxBucketsPow2, MapAbs(cfg, s), call, ans, MapAbs(cfg, s'))
  {
    hide ApiInv, ApiAbs, ScanStep, ValueStep, ApiStep;
    var i := ShardOfCall(s.maxBucketsPow2, call);
    if call.op.HasKey() {
      BucketIxInRange(s.maxBucketsPow2, call.op.key);
    }
    if i < |s.buckets| {
      ApiStepRefines(cfg, s.buckets[i], call.seed, call.op);
      var (ans, a) := ApiStep(cfg, s.buckets[i], call.seed, call.op);
      if call.op.HasKey() {
        OneBucketSteps(cfg, s, i, a, call.op.key);
      } else {
        ShardIsItsBucket(cfg, s, i);
        SameBucketSteps(cfg, s, i, a);
      }
    }
  }

  lemma SameBucketSteps<T>(cfg: Config, s: MapState<T>, i: nat, a: ApiState<T>)
    requires MapInv(cfg, s) && i < |s.buckets| && ApiInv(cfg, a) && ApiAbs(cfg, a) == ApiAbs(cfg, s.buckets[i])
    ensures var s' := s.(buckets := s.buckets[i := a]); MapInv(cfg, s') && MapAbs(cfg, s') == MapAbs(cfg, s)
  {
    hide ApiInv, ApiAbs;
    var s' := s.(buckets := s.buckets[i := a]);
    forall k
      ensures Lookup(MapAbs(cfg, s'), k) == Lookup(MapAbs(cfg, s), k)
    {
      LookupInShard(cfg, s, k);
      LookupInShard(cfg, s', k);
    }
    LookupsDecide(MapAbs(cfg, s'), MapAbs(cfg, s));
  }

  lemma LookupsDecide<K(!new), V>(m: map<K, V>, m': map<K, V>)
    requires forall k :: Lookup(m, k) == Lookup(m', k)
    ensures m == m'
  {
    assert forall k :: k in m <==> Lookup(m, k).Some?;
    assert forall k :: k in m' <==> Lookup(m', k).Some?;
    assert forall k :: k in m ==> Lookup(m, k) == Some(m[k]) && Lookup(m', k) == Some(m'[k]);
  }

  /** A new map is created exactly for the bucket counts that are powers of two, and is empty. */
  lemma NewMapIsEmpty<T>(cfg: Config, maxBuckets: nat, zero: T)
    requires maxBuckets <= Pow2(64)
    ensures var r := NewMap(maxBuckets, zero);
            && (r.Returned? <==> maxBuckets > 0 && IsPowerOfTwo(maxBuckets))
            && (r.Returned? ==> MapInv(cfg, r.value) && MapAbs(cfg, r.value) == map[])
  {
    hide Pow2, Log2, BucketIx;
    if maxBuckets > 0 {
      Log2Exact(maxBuckets);
      if Log2(maxBuckets) > 64 {
        Pow2StrictlyIncreases(64, Log2(maxBuckets));
      }
    }
  }

  // ---- runs

  function MapRun<T>(cfg: Config, s: MapState<T>, calls: seq<Call<T>>): (answers: seq<Answer<T>>)
    requires MapInv(cfg, s)
    ensures |answers| == |calls|
    decreases |calls|
  {
    if calls == [] then []
    else
      MapStepRefines(cfg, s, calls[0]);
      var (ans, s') := MapStepTo(cfg, s, calls[0]);
      [ans] + MapRun(cfg, s', calls[1..])
  }

  ghost predicate ExplainsWhole<T(!new)>(p: nat, m: map<Pubkey, Value<T>>, calls: seq<Call<T>>, answers: seq<Answer<T>>)
    requires p <= 64 && |answers| == |calls|
    decreases |calls|
  {
    calls == []
      || exists m' :: WholeStep(p, m, calls[0], answers[0], m') && ExplainsWhole(p, m', calls[1..], answers[1..])
  }

  /** Every run on the whole map answers as one plain map does, whichever buckets the keys fall into. */
  lemma {:induction false} MapRunRefines<T(!new)>(cfg: Config, s: MapState<T>, calls: seq<Call<T>>)
    requires MapInv(cfg, s)
    ensures ExplainsWhole(s.maxBucketsPow2, MapAbs(cfg, s), calls, MapRun(cfg, s, calls))
    decreases |calls|
  {
    if calls != [] {
      MapStepRefines(cfg, s, calls[0]);
      var (ans, s') := MapStepTo(cfg, s, calls[0]);
      MapRunRefines(cfg, s', calls[1..]);
      assert MapRun(cfg, s, calls)[1..] == MapRun(cfg, s', calls[1..]);
      assert WholeStep(s.maxBucketsPow2, MapAbs(cfg, s), calls[0], MapRun(cfg, s, calls)[0], MapAbs(cfg, s'));
    }
  }
}
