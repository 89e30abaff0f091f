/** The bucket map as an object: every method is delegated to the bucket of its key. */
module BucketMaps {
  import opened Wrappers
  import opened PowersOfTwo
  import opened StorageModel
  import opened IndexModel
  import opened DataModel
  import opened BucketModel
  import opened Sharding
  import opened ApiModel
  import opened MapModel
  import opened BucketApis

  class BucketMap<T> {
    const cfg: Config
    const maxBucketsPow2: nat
    const buckets: seq<BucketApi<T>>

    ghost var repr: set<object>
    ghost var view: MapState<T>

    ghost predicate Valid()
      reads this, repr
    {
      && this in repr && |view.buckets| == |buckets| && view.maxBucketsPow2 == maxBucketsPow2
      && (forall i :: 0 <= i < |buckets| ==>
            && buckets[i] in repr && buckets[i] in buckets[i].repr && buckets[i].repr <= repr
            && this !in buckets[i].repr
            && buckets[i].cfg == cfg && buckets[i].Valid() && view.buckets[i] == buckets[i].view)
      && (forall i, j :: 0 <= i < j < |buckets| ==> buckets[i].repr !! buckets[j].repr)
      && MapInv(cfg, view)
    }

    constructor (cfg: Config, zero: T, maxBuckets: nat, buckets: seq<BucketApi<T>>, ghost all: set<object>)
      requires 0 < maxBuckets <= Pow2(64) && IsPowerOfTwo(maxBuckets) && |buckets| == maxBuckets
      requires forall i :: 0 <= i < |buckets| ==>
                 && buckets[i] in buckets[i].repr && buckets[i].repr <= all && buckets[i].cfg == cfg
                 && buckets[i].Valid()
                 && buckets[i].view == ApiState(None, Free, zero)
      requires forall i, j :: 0 <= i < j < |buckets| ==> buckets[i].repr !! buckets[j].repr
      ensures Valid() && this.cfg == cfg && NewMap(maxBuckets, zero) == Returned(view)
      ensures MapAbs(cfg, view) == map[] && repr == {this} + all
    {
      hide BucketApi.Valid, MapInv, MapAbs, Pow2, Log2;
      this.cfg, this.maxBucketsPow2, this.buckets := cfg, Log2(maxBuckets), buckets;
      NewMapIsEmpty(cfg, maxBuckets, zero);
      Log2Exact(maxBuckets);
      view := MapState(Log2(maxBuckets), seq(maxBuckets, _ => ApiState(None, Free, zero)));
      repr := {this} + all;
    }

    /** The bucket of a key. */
    method BucketIxOf(key: Pubkey) returns (ix: nat)
      requires Valid()
      ensures ix < |buckets| && ix == Shard(view, key)
    {
      ix := BucketIx(maxBucketsPow2, key);
      BucketIxInRange(maxBucketsPow2, key);
    }

    method Insert(key: Pubkey, slots: seq<T>, rc: u64, random: u64, draws: seq<u64>) returns (ans: Answer<T>)
      requires Valid()
      modifies repr
      ensures Valid() && fresh(repr - old(repr))
      ensures (ans, view) == MapStepTo(cfg, old(view), Call(0, random, Op.Insert(key, slots, rc, draws)))
    {
      hide BucketApi.Valid, MapInv, ApiStep, ApiInv;
      ghost var call := Call(0, random, Op.Insert(key, slots, rc, draws));
      MapStepRefines(cfg, view, call);
      var ix := BucketIxOf(key);
      ans := buckets[ix].Insert(key, slots, rc, random, draws);
      repr, view := repr + buckets[ix].repr, MapStepTo(cfg, view, call).1;
    }

    method TryInsert(key: Pubkey, slots: seq<T>, rc: u64, random: u64, draw: u64) returns (ans: Answer<T>)
      requires Valid()
      modifies repr
      ensures Valid() && fresh(repr - old(repr))
      ensures (ans, view) == MapStepTo(cfg, old(view), Call(0, random, Op.TryInsert(key, slots, rc, draw)))
    {
      hide BucketApi.Valid, MapInv, ApiStep, ApiInv;
      ghost var call := Call(0, random, Op.TryInsert(key, slots, rc, draw));
      MapStepRefines(cfg, view, call);
      var ix := BucketIxOf(key);
      ans := buckets[ix].TryWrite(key, slots, rc, random, draw);
      repr, view := repr + buckets[ix].repr, MapStepTo(cfg, view, call).1;
    }

    method Update(key: Pubkey, updatefn: Option<Value<T>> -> Option<Value<T>>, random: u64, draws: seq<u64>)
      returns (ans: Answer<T>)
      requires Valid()
      modifies repr
      ensures Valid() && fresh(repr - old(repr))
      ensures (ans, view) == MapStepTo(cfg, old(view), Call(0, random, Op.Update(key, updatefn, draws)))
    {
      hide BucketApi.Valid, MapInv, ApiStep, ApiInv;
      ghost var call := Call(0, random, Op.Update(key, updatefn, draws));
      MapStepRefines(cfg, view, call);
      var ix := BucketIxOf(key);
      ans := buckets[ix].Update(key, updatefn, random, draws);
      repr, view := repr + buckets[ix].repr, MapStepTo(cfg, view, call).1;
    }

    method DeleteKey(key: Pubkey, random: u64) returns (ans: Answer<T>)
      requires Valid()
      modifies repr
      ensures Valid() && fresh(repr - old(repr))
      ensures (ans, view) == MapStepTo(cfg, old(view), Call(0, random, Op.Delete(key)))
    {
      hide BucketApi.Valid, MapInv, ApiStep, ApiInv;
      ghost var call := Call(0, random, Op.Delete(key));
      MapStepRefines(cfg, view, call);
      var ix := BucketIxOf(key);
      ans := buckets[ix].DeleteKey(key, random);
      repr, view := repr + buckets[ix].repr, MapStepTo(cfg, view, call).1;
    }

    method AddRef(key: Pubkey, random: u64) returns (ans: Answer<T>)
      requires Valid()
      modifies repr
      ensures Valid() && fresh(repr - old(repr))
      ensures (ans, view) == MapStepTo(cfg, old(view), Call(0, random, Op.AddRef(key)))
    {
      hide BucketApi.Valid, MapInv, ApiStep, ApiInv;
      ghost var call := Call(0, random, Op.AddRef(key));
      MapStepRefines(cfg, view, call);
      var ix := BucketIxOf(key);
      ans := buckets[ix].AddRef(key, random);
      repr, view := repr + buckets[ix].repr, MapStepTo(cfg, view, call).1;
    }

    method UnRef(key: Pubkey, random: u64) returns (ans: Answer<T>)
      requires Valid()
      modifies repr
      ensures Valid() && fresh(repr - old(repr))
      ensures (ans, view) == MapStepTo(cfg, old(view), Call(0, random, Op.UnRef(key)))
    {
      hide BucketApi.Valid, MapInv, ApiStep, ApiInv;
      ghost var call := Call(0, random, Op.UnRef(key));
      MapStepRefines(cfg, view, call);
      var ix := BucketIxOf(key);
      ans := buckets[ix].UnRef(key, random);
      repr, view := repr + buckets[ix].repr, MapStepTo(cfg, view, call).1;
    }

    method ReadValue(key: Pubkey) returns (ans: Answer<T>)
      requires Valid()
      ensures (ans, view) == MapStepTo(cfg, view, Call(0, 0, Op.Read(key)))
    {
      hide BucketApi.Valid, ApiStep;
      var ix := BucketIxOf(key);
      ans := buckets[ix].ReadValue(key);
      assert view.buckets[ix := view.buckets[ix]] == view.buckets;
    }
  }

  /** A map with `maxBuckets` empty buckets; nothing is created unless that is a power of two. */
  method NewBucketMap<T>(cfg: Config, zero: T, maxBuckets: nat) returns (m: BucketMap?<T>)
    requires maxBuckets <= Pow2(64)
    ensures m == null <==> NewMap(maxBuckets, zero).Panicked?
    ensures m != null ==> m.Valid() && fresh(m.repr) && m.cfg == cfg && MapAbs(cfg, m.view) == map[]
    ensures m != null ==> NewMap(maxBuckets, zero) == Returned(m.view)
  {
    hide Pow2, Log2, MapInv, MapAbs;
    NewMapIsEmpty(cfg, maxBuckets, zero);
    if maxBuckets == 0 || Pow2(Log2(maxBuckets)) != maxBuckets {
      return null;
    }
    var buckets: seq<BucketApi<T>> := [];
    ghost var all: set<object> := {};
    while |buckets| < maxBuckets
      invariant |buckets| <= maxBuckets && fresh(all)
      invariant forall i :: 0 <= i < |buckets| ==>
                  && buckets[i] in buckets[i].repr && buckets[i].cfg == cfg && buckets[i].Valid()
                  && buckets[i].repr <= all
                  && buckets[i].view == ApiState(None, Free, zero)
      invariant forall i, j :: 0 <= i < j < |buckets| ==> buckets[i].repr !! buckets[j].repr
    {
      var b := new BucketApi(cfg, zero);
      buckets, all := buckets + [b], all + b.repr;
    }
    m := new BucketMap(cfg, zero, maxBuckets, buckets, all);
  }
}
