/** A bucket behind a lock, as an object: each method is one step of the locked bucket's value. */
module BucketApis {
  import opened Wrappers
  import opened StorageModel
  import opened IndexModel
  import opened DataModel
  import opened BucketModel
  import opened GrowthModel
  import opened Scans
  import opened ApiModel
  import opened Buckets

  class BucketApi<T> {
    const cfg: Config
    const zero: T
    var bucket: Bucket?<T>
    var access: Access

    ghost var repr: set<object>
    ghost var view: ApiState<T>

    ghost predicate Valid()
      reads this, repr
    {
      && this in repr
      && (bucket != null ==>
            && bucket in repr && bucket.repr <= repr && this !in bucket.repr
            && bucket.cfg == cfg && bucket.Valid())
      && view == ApiState(if bucket == null then None else Some(bucket.view), access, zero)
    }

    constructor (cfg: Config, zero: T)
      ensures Valid() && fresh(repr) && this.cfg == cfg && view == ApiState(None, Free, zero)
    {
      this.cfg, this.zero, bucket, access := cfg, zero, null, Free;
      repr, view := {this}, ApiState(None, Free, zero);
    }

    /** The bucket to write to: created if missing, with any waiting growth applied. */
    method GetWriteBucket(random: u64) returns (b: Bucket<T>)
      requires Valid()
      modifies repr
      ensures Valid() && this in repr && fresh(repr - old(repr)) && b == bucket && b in b.repr && access == old(access)
      ensures ApiInv(cfg, old(view)) && b.view == WriteBucket(cfg, old(view), random) && b.view.active != 1
    {
      if bucket == null {
        bucket := new Bucket(cfg, zero, random);
      } else {
        bucket.HandleDelayedGrows();
      }
      b := bucket;
      repr, view := repr + bucket.repr, view.(bucket := Some(bucket.view));
    }

    method Insert(key: Pubkey, slots: seq<T>, rc: u64, random: u64, draws: seq<u64>) returns (ans: Answer<T>)
      requires Valid()
      modifies repr
      ensures Valid() && this in repr && fresh(repr - old(repr))
      ensures ApiInv(cfg, old(view))
      ensures (ans, view) == ApiStep(cfg, old(view), random, Op.Insert(key, slots, rc, draws))
    {
      hide Bucket.Shape, Live, ParkedOk, WriteBucket, GrowthModel.Insert;
      WriteBucketKeeps(cfg, view, random);
      if access != Free {
        return Blocked;
      }
      var b := GetWriteBucket(random);
      var o, rest := b.Insert(key, slots, rc, draws);
      var result: (Answer<T>, Access) := InsertAnswer(o);
      ans, access := result.0, result.1;
      repr, view := repr + bucket.repr, ApiState(Some(bucket.view), access, zero);
    }

    method Update(key: Pubkey, updatefn: Option<Value<T>> -> Option<Value<T>>, random: u64, draws: seq<u64>)
      returns (ans: Answer<T>)
      requires Valid()
      modifies repr
      ensures Valid() && this in repr && fresh(repr - old(repr))
      ensures ApiInv(cfg, old(view))
      ensures (ans, view) == ApiStep(cfg, old(view), random, Op.Update(key, updatefn, draws))
    {
      hide Bucket.Shape, Live, ParkedOk, WriteBucket, GrowthModel.Insert, BucketModel.DeleteKey, BucketModel.ReadValue;
      WriteBucketKeeps(cfg, view, random);
      if access != Free {
        return Blocked;
      }
      var b := GetWriteBucket(random);
      var o := b.Update(key, updatefn, draws);
      var result: (Answer<T>, Access) := InsertAnswer(o);
      ans, access := result.0, result.1;
      repr, view := repr + bucket.repr, ApiState(Some(bucket.view), access, zero);
    }

    method DeleteKey(key: Pubkey, random: u64) returns (ans: Answer<T>)
      requires Valid()
      modifies repr
      ensures Valid() && this in repr && fresh(repr - old(repr))
      ensures ApiInv(cfg, old(view))
      ensures (ans, view) == ApiStep(cfg, old(view), random, Op.Delete(key))
    {
      hide Bucket.Shape, Live, ParkedOk, WriteBucket, BucketModel.DeleteKey;
      WriteBucketKeeps(cfg, view, random);
      if access != Free {
        return Blocked;
      }
      var b := GetWriteBucket(random);
      b.DeleteKey(key);
      ans := Nothing;
      repr, view := repr + bucket.repr, ApiState(Some(bucket.view), access, zero);
    }

    method AddRef(key: Pubkey, random: u64) returns (ans: Answer<T>)
      requires Valid()
      modifies repr
      ensures Valid() && this in repr && fresh(repr - old(repr))
      ensures ApiInv(cfg, old(view))
      ensures (ans, view) == ApiStep(cfg, old(view), random, Op.AddRef(key))
    {
      hide Bucket.Shape, Live, ParkedOk, WriteBucket, SetCount, BucketModel.AddRef, BucketModel.UnRef;
      WriteBucketKeeps(cfg, view, random);
      if access != Free {
        return Blocked;
      }
      var b := GetWriteBucket(random);
      var o := b.AddRef(key);
      var result: (Answer<T>, Access) := CountAnswer(o);
      ans, access := result.0, result.1;
      repr, view := repr + bucket.repr, ApiState(Some(bucket.view), access, zero);
    }

    method UnRef(key: Pubkey, random: u64) returns (ans: Answer<T>)
      requires Valid()
      modifies repr
      ensures Valid() && this in repr && fresh(repr - old(repr))
      ensures ApiInv(cfg, old(view))
      ensures (ans, view) == ApiStep(cfg, old(view), random, Op.UnRef(key))
    {
      hide Bucket.Shape, Live, ParkedOk, WriteBucket, SetCount, BucketModel.AddRef, BucketModel.UnRef;
      WriteBucketKeeps(cfg, view, random);
      if access != Free {
        return Blocked;
      }
      var b := GetWriteBucket(random);
      var o := b.UnRef(key);
      var result: (Answer<T>, Access) := CountAnswer(o);
      ans, access := result.0, result.1;
      repr, view := repr + bucket.repr, ApiState(Some(bucket.view), access, zero);
    }

    method TryWrite(key: Pubkey, slots: seq<T>, rc: u64, random: u64, draw: u64) returns (ans: Answer<T>)
      requires Valid()
      modifies repr
      ensures Valid() && this in repr && fresh(repr - old(repr))
      ensures ApiInv(cfg, old(view))
      ensures (ans, view) == ApiStep(cfg, old(view), random, Op.TryInsert(key, slots, rc, draw))
    {
      hide Bucket.Shape, Live, ParkedOk, WriteBucket, BucketModel.TryWrite;
      WriteBucketKeeps(cfg, view, random);
      if access != Free {
        return Blocked;
      }
      var b := GetWriteBucket(random);
      var r := b.TryWrite(key, slots, rc, draw);
      ans := Writes(r);
      repr, view := repr + bucket.repr, ApiState(Some(bucket.view), access, zero);
    }

    /** Grow under the read lock; the result waits for the next write. */
    method Grow(err: BucketMapError, seeds: seq<u64>) returns (ans: Answer<T>)
      requires Valid()
      modifies repr
      ensures Valid() && this in repr && fresh(repr - old(repr))
      ensures ApiInv(cfg, old(view))
      ensures (ans, view) == ApiStep(cfg, old(view), 0, Op.GrowFor(err, seeds))
    {
      hide Live, ParkedOk, GrowthModel.Grow, Bucket.Shape, WriteOp, WriteBucket, Abs;
      if access == Poisoned || access == Held {
        return Blocked;
      }
      if bucket == null {
        return Nothing;
      }
      var g, rest := bucket.Grow(err, seeds);
      ans := GrowAnswer(g);
      if ans.NoReturn? {
        access := ReadHeld;
      }
      repr, view := repr + bucket.repr, ApiState(Some(bucket.view), access, zero);
    }

    method ReadValue(key: Pubkey) returns (ans: Answer<T>)
      requires Valid()
      ensures ApiInv(cfg, view) && (ans, view) == ApiStep(cfg, view, 0, Op.Read(key))
    {
      if access == Poisoned || access == Held {
        return Blocked;
      }
      if bucket == null {
        return Reads(None);
      }
      var value := bucket.ReadValue(key);
      ans := Reads(value);
    }

    method BucketLen() returns (ans: Answer<T>)
      requires Valid()
      ensures ApiInv(cfg, view) && (ans, view) == ApiStep(cfg, view, 0, Op.Length)
    {
      hide IndexInv, DataInv, Meaning, Abs, Bucket.Shape, ParkedOk, HandleDelayedGrows, WriteOp;
      if access == Poisoned || access == Held {
        return Blocked;
      }
      if bucket == null {
        return Len(0);
      }
      var n := bucket.BucketLen();
      ans := Len(n);
    }

    method Keys() returns (ans: Answer<T>)
      requires Valid()
      ensures ApiInv(cfg, view) && (ans, view) == ApiStep(cfg, view, 0, Op.ListKeys)
    {
      if access == Poisoned || access == Held {
        return Blocked;
      }
      if bucket == null {
        return KeyList([]);
      }
      var keys := bucket.Keys();
      ans := KeyList(keys);
    }

    method ItemsInRange(range: KeyRange) returns (ans: Answer<T>)
      requires Valid()
      ensures ApiInv(cfg, view) && (ans, view) == ApiStep(cfg, view, 0, Op.ListItems(range))
    {
      if access == Poisoned || access == Held {
        return Blocked;
      }
      if bucket == null {
        return ItemList([]);
      }
      var items := bucket.ItemsInRange(range);
      ans := ItemList(items);
    }
  }
}
