/** A run on which the last insert never returns. */
module InsertRuns {
  import opened Wrappers
  import opened StorageModel
  import opened IndexModel
  import opened DataModel
  import opened BucketModel
  import opened GrowthModel
  import opened InsertProgress
  import opened ApiModel

  /** Insert the keys one after the other. */
  function Inserts<T>(keys: seq<Pubkey>, slots: seq<T>, rc: u64, seed: u64, draws: seq<seq<u64>>)
    : (calls: seq<(u64, Op<T>)>)
    requires |draws| == |keys|
    ensures |calls| == |keys|
  {
    seq(|keys|, i requires 0 <= i < |keys| => (seed, Op.Insert(keys[i], slots, rc, draws[i])))
  }

  ghost function KeysOf(keys: seq<Pubkey>): set<Pubkey> {
    set k | k in keys
  }

  lemma {:induction false} DistinctCount(keys: seq<Pubkey>)
    requires forall i, j :: 0 <= i < j < |keys| ==> keys[i] != keys[j]
    ensures |KeysOf(keys)| == |keys|
  {
    if keys != [] {
      var n := |keys| - 1;
      DistinctCount(keys[..n]);
      assert KeysOf(keys) == KeysOf(keys[..n]) + {keys[n]};
    }
  }

  /** After `n` of the inserts exactly their keys are stored. */
  ghost predicate HoldsFirst<T>(cfg: Config, a: ApiState<T>, keys: seq<Pubkey>, n: nat)
    requires n <= |keys|
  {
    && ApiInv(cfg, a) && a.access == Free && ApiAbs(cfg, a).Keys == KeysOf(keys[..n])
    && (a.bucket.Some? ==> a.bucket.value.active == 0)
  }

  /** With fewer keys than a window has cells, an insert stores its key. */
  lemma OneMoreStored<T>(cfg: Config, b: BucketState<T>, key: Pubkey, slots: seq<T>, rc: u64, draws: seq<u64>)
    requires Inv(cfg, b) && b.active == 0 && cfg.maxSearch >= 2 && |draws| >= 5 && |Abs(cfg, b).Keys| < cfg.maxSearch
    ensures var (o, b', _) := GrowthModel.Insert(cfg, b, key, slots, rc, draws);
            o == Done && Inv(cfg, b') && b'.active == 0 && Abs(cfg, b').Keys == Abs(cfg, b).Keys + {key}
  {
    hide IndexInv, DataInv, Meaning, GrowthModel.Insert;
    assert |Abs(cfg, b)| == |Abs(cfg, b).Keys|;
    FewKeysFinish(cfg, b, key, slots, rc, draws);
    InsertRefines(cfg, b, key, slots, rc, draws);
  }

  lemma FirstKeys(keys: seq<Pubkey>, n: nat)
    requires n < |keys| && forall i, j :: 0 <= i < j < |keys| ==> keys[i] != keys[j]
    ensures |KeysOf(keys[..n])| == n && KeysOf(keys[..n + 1]) == KeysOf(keys[..n]) + {keys[n]}
    ensures keys[n] !in KeysOf(keys[..n])
  {
    DistinctCount(keys[..n]);
    assert keys[..n + 1] == keys[..n] + [keys[n]];
  }

  lemma InsertReturns<T>(cfg: Config, a: ApiState<T>, keys: seq<Pubkey>, n: nat, slots: seq<T>, rc: u64,
                         seed: u64, draws: seq<u64>)
    requires n < |keys| && n < cfg.maxSearch && cfg.maxSearch >= 2 && |draws| >= 5
    requires forall i, j :: 0 <= i < j < |keys| ==> keys[i] != keys[j]
    requires HoldsFirst(cfg, a, keys, n)
    ensures var (ans, a') := ApiStep(cfg, a, seed, Op.Insert(keys[n], slots, rc, draws));
            ans.Nothing? && HoldsFirst(cfg, a', keys, n + 1)
  {
    hide IndexInv, DataInv, Meaning, GrowthModel.Insert, KeysOf;
    WriteBucketKeeps(cfg, a, seed);
    FirstKeys(keys, n);
    OneMoreStored(cfg, WriteBucket(cfg, a, seed), keys[n], slots, rc, draws);
  }

  lemma NoneHeld<T>(cfg: Config, zero: T, keys: seq<Pubkey>)
    ensures HoldsFirst(cfg, ApiState(None, Free, zero), keys, 0)
  {
    assert keys[..0] == [];
  }

  lemma {:induction false} FirstInsertsReturn<T>(cfg: Config, zero: T, keys: seq<Pubkey>, slots: seq<T>, rc: u64,
                                                 seed: u64, draws: seq<seq<u64>>, n: nat)
    requires n <= |keys| == |draws| && n <= cfg.maxSearch && cfg.maxSearch >= 2
    requires forall i :: 0 <= i < n ==> |draws[i]| >= 5
    requires forall i, j :: 0 <= i < j < |keys| ==> keys[i] != keys[j]
    ensures var a := ApiState(None, Free, zero);
            var calls := Inserts(keys, slots, rc, seed, draws);
            && HoldsFirst(cfg, StateAt(cfg, a, calls, n), keys, n)
            && forall i :: 0 <= i < n ==> Run(cfg, a, calls)[i].Nothing?
  {
    hide HoldsFirst, ApiStep, Run;
    var a := ApiState(None, Free, zero);
    var calls := Inserts(keys, slots, rc, seed, draws);
    if n == 0 {
      NoneHeld(cfg, zero, keys);
    } else {
      FirstInsertsReturn(cfg, zero, keys, slots, rc, seed, draws, n - 1);
      InsertReturns(cfg, StateAt(cfg, a, calls, n - 1), keys, n - 1, slots, rc, seed, draws[n - 1]);
      AnswerAt(cfg, a, calls, n - 1);
    }
  }

  /**
   * From a new bucket, as many inserts of keys with one uid return as a window has cells, and one
   * more never does, whatever the random numbers.
   */
  lemma SharedUidRun<T>(cfg: Config, zero: T, keys: seq<Pubkey>, slots: seq<T>, rc: u64, seed: u64,
                        draws: seq<seq<u64>>)
    requires |keys| == |draws| == cfg.maxSearch + 1 && cfg.maxSearch >= 2
    requires forall i :: 0 <= i < cfg.maxSearch ==> |draws[i]| >= 5
    requires forall i, j :: 0 <= i < j < |keys| ==> keys[i] != keys[j]
    requires forall i :: 0 <= i < |keys| ==> KeyUid(cfg, keys[i]) == KeyUid(cfg, keys[0])
    ensures var answers := Run(cfg, ApiState(None, Free, zero), Inserts(keys, slots, rc, seed, draws));
            (forall i :: 0 <= i < cfg.maxSearch ==> answers[i].Nothing?) && answers[cfg.maxSearch].NoReturn?
  {
    hide IndexInv, DataInv, Meaning, GrowthModel.Insert, Run;
    var a := ApiState(None, Free, zero);
    var calls := Inserts(keys, slots, rc, seed, draws);
    var m := cfg.maxSearch;
    FirstInsertsReturn(cfg, zero, keys, slots, rc, seed, draws, m);
    AnswerAt(cfg, a, calls, m);
    var s := StateAt(cfg, a, calls, m);
    WriteBucketKeeps(cfg, s, seed);
    FirstKeys(keys, m);
    SharedUidNeverFinishes(cfg, WriteBucket(cfg, s, seed), KeysOf(keys[..m]), keys[m], slots, rc, draws[m]);
  }
}
