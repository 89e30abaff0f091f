/**
 * A bucket behind its lock. Write operations create the bucket or apply a waiting growth first; a
 * growth is computed under a read lock. The reference is a plain map from key to value.
 */
module ApiModel {
  import opened Wrappers
  import opened StorageModel
  import opened IndexModel
  import opened DataModel
  import opened BucketModel
  import opened GrowthModel
  import opened Scans

  /**
   * A panic under the write lock poisons it, and a write that never returns holds it. A growth that
   * never returns holds the read lock, which keeps writes out and lets other reads in.
   */
  datatype Access = Free | ReadHeld | Poisoned | Held

  predicate Admits<T>(access: Access, op: Op<T>) {
    access == Free || (access == ReadHeld && !op.IsWrite())
  }

  datatype ApiState<T> = ApiState(bucket: Option<BucketState<T>>, access: Access, zero: T)

  datatype Op<!T> =
    | Read(key: Pubkey)
    | Insert(key: Pubkey, slots: seq<T>, rc: u64, draws: seq<u64>)
    | Update(key: Pubkey, updatefn: Option<Value<T>> -> Option<Value<T>>, draws: seq<u64>)
    | Delete(key: Pubkey)
    | AddRef(key: Pubkey)
    | UnRef(key: Pubkey)
    | TryInsert(key: Pubkey, slots: seq<T>, rc: u64, draw: u64)
    | GrowFor(err: BucketMapError, seeds: seq<u64>)
    | Length
    | ListKeys
    | ListItems(range: KeyRange)
  {
    predicate HasKey() {
      Read? || IsWrite()
    }

    predicate IsWrite() {
      Insert? || Update? || Delete? || AddRef? || UnRef? || TryInsert?
    }
  }

  /** `NoReturn`: still running when its random numbers were used up. `Blocked`: the lock cannot be taken. */
  datatype Answer<T> =
    | Nothing
    | Reads(value: Option<Value<T>>)
    | Counts(count: Option<u64>)
    | Writes(result: Result<(), BucketMapError>)
    | Grows(parked: bool)
    | Len(n: int)
    | KeyList(keys: seq<Pubkey>)
    | ItemList(items: seq<BucketItem<T>>)
    | Panics
    | NoReturn
    | Blocked

  ghost predicate ApiInv<T>(cfg: Config, a: ApiState<T>) {
    a.bucket.Some? ==> Inv(cfg, a.bucket.value)
  }

  ghost function ApiAbs<T>(cfg: Config, a: ApiState<T>): map<Pubkey, Value<T>>
    requires ApiInv(cfg, a)
  {
    if a.bucket.None? then map[] else Abs(cfg, a.bucket.value)
  }

  // ---- the implementation

  /** The bucket a write operation works on. */
  function WriteBucket<T>(cfg: Config, a: ApiState<T>, seed: u64): BucketState<T>
    requires ApiInv(cfg, a)
  {
    match a.bucket
    case None => NewBucket(seed, a.zero)
    case Some(b) => HandleDelayedGrows(cfg, b)
  }

  lemma WriteBucketKeeps<T>(cfg: Config, a: ApiState<T>, seed: u64)
    requires ApiInv(cfg, a)
    ensures var b := WriteBucket(cfg, a, seed);
            && Inv(cfg, b) && b.active != 1 && Abs(cfg, b) == ApiAbs(cfg, a)
            && (a.bucket.None? ==> b.random == seed)
  {
    NewBucketIsEmpty(cfg, seed, a.zero);
    if a.bucket.Some? {
      HandleKeeps(cfg, a.bucket.value);
    }
  }

  function InsertAnswer<T>(o: InsertOutcome): (Answer<T>, Access) {
    match o
    case Done => (Nothing, Free)
    case InsertPanicked => (Panics, Poisoned)
    case OutOfDraws => (NoReturn, Held)
  }

  function CountAnswer<T>(o: Outcome<Option<u64>>): (Answer<T>, Access) {
    match o
    case Returned(c) => (Counts(c), Free)
    case Panicked => (Panics, Poisoned)
  }

  function GrowAnswer<T>(g: GrowOutcome): Answer<T> {
    match g
    case Parked => Grows(true)
    case Ignored => Grows(false)
    case GrowPanicked => Panics
    case OutOfSeeds => NoReturn
  }

  /** A write operation on the bucket it works on. */
  function WriteOp<T>(cfg: Config, b: BucketState<T>, op: Op<T>): (r: ((Answer<T>, Access), BucketState<T>))
    requires Inv(cfg, b) && b.active != 1 && op.IsWrite()
  {
    match op
    case Insert(key, slots, rc, draws) =>
      var (o, b', _) := GrowthModel.Insert(cfg, b, key, slots, rc, draws);
      (InsertAnswer(o), b')
    case Update(key, updatefn, draws) =>
      (match updatefn(ReadValue(cfg, b, key))
       case None => ((Nothing, Free), DeleteKey(cfg, b, key))
       case Some((slots, rc)) =>
         var (o, b', _) := GrowthModel.Insert(cfg, b, key, slots, rc, draws);
         (InsertAnswer(o), b'))
    case Delete(key) => ((Nothing, Free), DeleteKey(cfg, b, key))
    case AddRef(key) => var (o, b') := BucketModel.AddRef(cfg, b, key); (CountAnswer(o), b')
    case UnRef(key) => var (o, b') := BucketModel.UnRef(cfg, b, key); (CountAnswer(o), b')
    case TryInsert(key, slots, rc, draw) =>
      var (r, b') := TryWrite(cfg, b, key, slots, rc, draw);
      ((Writes(r), Free), b')
  }

  /** An operation under the read lock, on a bucket that exists. */
  function ReadOp<T>(cfg: Config, b: BucketState<T>, op: Op<T>): (Answer<T>, BucketState<T>)
    requires Inv(cfg, b) && !op.IsWrite()
  {
    match op
    case Read(key) => (Reads(ReadValue(cfg, b, key)), b)
    case GrowFor(err, seeds) =>
      var (g, b', _) := Grow(cfg, b, err, seeds);
      (GrowAnswer(g), b')
    case Length => (Len(b.index.used), b)
    case ListKeys => (KeyList(Keys(b)), b)
    case ListItems(range) => (ItemList(ItemsInRange(cfg, b, range)), b)
  }

  /** An operation under the read lock when there is no bucket yet. */
  function EmptyAnswer<T>(op: Op<T>): Answer<T>
    requires !op.IsWrite()
  {
    match op
    case Read(_) => Reads(None)
    case GrowFor(_, _) => Nothing
    case Length => Len(0)
    case ListKeys => KeyList([])
    case ListItems(_) => ItemList([])
  }

  /** One call on the locked bucket; `seed` is the random seed a new bucket would get. */
  function ApiStep<T>(cfg: Config, a: ApiState<T>, seed: u64, op: Op<T>): (r: (Answer<T>, ApiState<T>))
    requires ApiInv(cfg, a)
  {
    if !Admits(a.access, op) then (Blocked, a)
    else if op.IsWrite() then
      WriteBucketKeeps(cfg, a, seed);
      var ((ans, access), b') := WriteOp(cfg, WriteBucket(cfg, a, seed), op);
      (ans, a.(bucket := Some(b'), access := access))
    else if a.bucket.None? then (EmptyAnswer(op), a)
    else
      var (ans, b') := ReadOp(cfg, a.bucket.value, op);
      (ans, a.(bucket := Some(b'), access := if ans.NoReturn? then ReadHeld else a.access))
  }

  // ---- the reference: a plain map

  function Lookup<K, V>(m: map<K, V>, k: K): Option<V> {
    if k in m then Some(m[k]) else None
  }

  ghost predicate SameElsewhere<K(!new), V>(m: map<K, V>, m': map<K, V>, k: K) {
    forall k' :: k' != k ==> Lookup(m', k') == Lookup(m, k')
  }

  function SlotsOr<T>(was: Option<Value<T>>): seq<T> {
    if was.Some? then was.value.0 else []
  }

  /** Setting one key of a plain map; a call that does not return may have set the count alone. */
  predicate SetStep<T(==)>(was: Option<Value<T>>, slots: seq<T>, rc: u64, ans: Answer<T>, now: Option<Value<T>>) {
    if ans.Nothing? then now == Some((slots, rc))
    else (ans.Panics? || ans.NoReturn?) && (now == was || now == Some((SlotsOr(was), rc)))
  }

  /** Moving the count of one key; a count outside 64 bits panics and stays. */
  predicate CountStep<T(==)>(was: Option<Value<T>>, step: int, ans: Answer<T>, now: Option<Value<T>>) {
    if was.None? then ans == Counts(None) && now == None
    else
      var rc := was.value.1 + step;
      if 0 <= rc < 0x1_0000_0000_0000_0000 then ans == Counts(Some(rc)) && now == Some((was.value.0, rc))
      else ans.Panics? && now == was
  }

  /** What an operation on one key may answer and leave behind, given what the key held. */
  predicate ValueStep<T(==)>(op: Op<T>, was: Option<Value<T>>, ans: Answer<T>, now: Option<Value<T>>)
    requires op.HasKey()
  {
    if ans.Blocked? then now == was
    else
      match op
      case Read(_) => ans == Reads(was) && now == was
      case Insert(_, slots, rc, _) => SetStep(was, slots, rc, ans, now)
      case Update(_, updatefn, _) =>
        (match updatefn(was)
         case None => ans.Nothing? && now == None
         case Some((slots, rc)) => SetStep(was, slots, rc, ans, now))
      case Delete(_) => ans.Nothing? && now == None
      case AddRef(_) => CountStep(was, 1, ans, now)
      case UnRef(_) => CountStep(was, -1, ans, now)
      case TryInsert(_, slots, rc, _) =>
        && ans.Writes?
        && match ans.result
           case Ok(_) => now == Some((slots, rc))
           case Err(IndexNoSpace(_)) => now == was
           case Err(DataNoSpace(_, pow2)) => now == if pow2 == 0 then was else Some((SlotsOr(was), rc))
  }

  /** What a listing of the map may answer. */
  ghost predicate ScanStep<T>(op: Op<T>, m: map<Pubkey, Value<T>>, ans: Answer<T>)
    requires !op.HasKey()
  {
    ans.Blocked? ||
    match op
    case GrowFor(_, _) => ans.Nothing? || ans.Grows? || ans.Panics? || ans.NoReturn?
    case Length => ans == Len(|m|)
    case ListKeys => ans.KeyList? && NoDuplicates(ans.keys) && forall k :: k in ans.keys <==> k in m
    case ListItems(range) =>
      && ans.ItemList? && NoDuplicates(Pubkeys(ans.items))
      && (forall k :: k in Pubkeys(ans.items) <==> k in m && (range.None? || range.value(k)))
      && (forall item :: item in ans.items ==> item.pubkey in m && m[item.pubkey] == (item.slotList, item.refCount))
  }

  /** One step of the plain map. */
  ghost predicate MapStep<T>(op: Op<T>, m: map<Pubkey, Value<T>>, ans: Answer<T>, m': map<Pubkey, Value<T>>) {
    if op.HasKey() then
      SameElsewhere(m, m', op.key) && ValueStep(op, Lookup(m, op.key), ans, Lookup(m', op.key))
    else m' == m && ScanStep(op, m, ans)
  }

  // ---- refinement

  lemma InsertSteps<T>(m: map<Pubkey, Value<T>>, key: Pubkey, slots: seq<T>, rc: u64, o: InsertOutcome,
                       m': map<Pubkey, Value<T>>)
    requires InsertMeets(m, key, slots, rc, o, m')
    ensures SameElsewhere(m, m', key) && SetStep(Lookup(m, key), slots, rc, InsertAnswer(o).0, Lookup(m', key))
  {
  }

  lemma RemoveSteps<K(!new), V>(m: map<K, V>, k: K)
    ensures SameElsewhere(m, m - {k}, k) && Lookup(m - {k}, k) == None
  {
  }

  lemma InsertOpRefines<T>(cfg: Config, b: BucketState<T>, key: Pubkey, slots: seq<T>, rc: u64, draws: seq<u64>)
    requires Inv(cfg, b) && b.active != 1
    ensures var (o, b', _) := GrowthModel.Insert(cfg, b, key, slots, rc, draws);
            && Inv(cfg, b') && SameElsewhere(Abs(cfg, b), Abs(cfg, b'), key)
            && SetStep(Lookup(Abs(cfg, b), key), slots, rc, InsertAnswer(o).0, Lookup(Abs(cfg, b'), key))
  {
    hide IndexInv, DataInv, Meaning;
    InsertRefines(cfg, b, key, slots, rc, draws);
    var (o, b', _) := GrowthModel.Insert(cfg, b, key, slots, rc, draws);
    InsertSteps(Abs(cfg, b), key, slots, rc, o, Abs(cfg, b'));
  }

  lemma DeleteOpRefines<T>(cfg: Config, b: BucketState<T>, key: Pubkey)
    requires Inv(cfg, b) && b.active != 1
    ensures var b' := DeleteKey(cfg, b, key);
            Inv(cfg, b') && SameElsewhere(Abs(cfg, b), Abs(cfg, b'), key) && Lookup(Abs(cfg, b'), key) == None
  {
    hide IndexInv, DataInv, Meaning;
    DeleteKeyRefines(cfg, b, key);
    RemoveSteps(Abs(cfg, b), key);
  }

  lemma CountOpRefines<T>(cfg: Config, b: BucketState<T>, key: Pubkey, up: bool)
    requires Inv(cfg, b) && b.active != 1
    ensures var (o, b') := if up then BucketModel.AddRef(cfg, b, key) else BucketModel.UnRef(cfg, b, key);
            && Inv(cfg, b') && SameElsewhere(Abs(cfg, b), Abs(cfg, b'), key)
            && CountStep(Lookup(Abs(cfg, b), key), if up then 1 else -1, CountAnswer(o).0, Lookup(Abs(cfg, b'), key))
  {
    hide IndexInv, DataInv, Meaning, SetCount;
    AddRefRefines(cfg, b, key);
    UnRefRefines(cfg, b, key);
    SetCountRefines(cfg, b, key, if up then Increment else Decrement);
  }

  lemma TryInsertRefines<T>(cfg: Config, b: BucketState<T>, op: Op<T>)
    requires Inv(cfg, b) && b.active != 1 && op.TryInsert?
    ensures var (r, b') := TryWrite(cfg, b, op.key, op.slots, op.rc, op.draw);
            Inv(cfg, b') && MapStep(op, Abs(cfg, b), Writes(r), Abs(cfg, b'))
  {
    hide IndexInv, DataInv, Meaning;
    TryWriteInv(cfg, b, op.key, op.slots, op.rc, op.draw);
  }

  lemma WriteOpRefines<T>(cfg: Config, b: BucketState<T>, op: Op<T>)
    requires Inv(cfg, b) && b.active != 1 && op.IsWrite()
    ensures var ((ans, access), b') := WriteOp(cfg, b, op);
            Inv(cfg, b') && MapStep(op, Abs(cfg, b), ans, Abs(cfg, b'))
  {
    hide IndexInv, DataInv, Meaning, SameElsewhere, CountStep, SetStep;
    match op
    case Insert(key, slots, rc, draws) => InsertOpRefines(cfg, b, key, slots, rc, draws);
    case Update(key, updatefn, draws) =>
      DeleteOpRefines(cfg, b, key);
      var val := updatefn(ReadValue(cfg, b, key));
      if val.Some? {
        InsertOpRefines(cfg, b, key, val.value.0, val.value.1, draws);
      }
    case Delete(key) => DeleteOpRefines(cfg, b, key);
    case AddRef(key) => CountOpRefines(cfg, b, key, true);
    case UnRef(key) => CountOpRefines(cfg, b, key, false);
    case TryInsert(key, slots, rc, draw) => TryInsertRefines(cfg, b, op);
  }

  lemma ReadOpRefines<T>(cfg: Config, b: BucketState<T>, op: Op<T>)
    requires Inv(cfg, b) && !op.IsWrite()
    ensures var (ans, b') := ReadOp(cfg, b, op);
            Inv(cfg, b') && MapStep(op, Abs(cfg, b), ans, Abs(cfg, b'))
  {
    hide IndexInv, DataInv, Meaning;
    match op
    case Read(_) =>
    case GrowFor(err, seeds) => GrowKeeps(cfg, b, err, seeds);
    case Length => KeysExact(cfg, b);
    case ListKeys => KeysExact(cfg, b);
    case ListItems(range) => ItemsExact(cfg, b, range);
  }

  /** Every call answers and acts as the plain map does. */
  lemma ApiStepRefines<T>(cfg: Config, a: ApiState<T>, seed: u64, op: Op<T>)
    requires ApiInv(cfg, a)
    ensures var (ans, a') := ApiStep(cfg, a, seed, op);
            ApiInv(cfg, a') && MapStep(op, ApiAbs(cfg, a), ans, ApiAbs(cfg, a'))
  {
    if Admits(a.access, op) {
      if op.IsWrite() {
        WriteBucketKeeps(cfg, a, seed);
        WriteOpRefines(cfg, WriteBucket(cfg, a, seed), op);
      } else if a.bucket.Some? {
        ReadOpRefines(cfg, a.bucket.value, op);
      }
    }
  }

  // ---- runs

  lemma ApiStepInv<T>(cfg: Config, a: ApiState<T>, seed: u64, op: Op<T>)
    requires ApiInv(cfg, a)
    ensures ApiInv(cfg, ApiStep(cfg, a, seed, op).1)
  {
    ApiStepRefines(cfg, a, seed, op);
  }

  /** The answers of a run of calls, one seed each. */
  function Run<T>(cfg: Config, a: ApiState<T>, calls: seq<(u64, Op<T>)>): (answers: seq<Answer<T>>)
    requires ApiInv(cfg, a)
    ensures |answers| == |calls|
    decreases |calls|
  {
    if calls == [] then []
    else
      ApiStepInv(cfg, a, calls[0].0, calls[0].1);
      var (ans, a') := ApiStep(cfg, a, calls[0].0, calls[0].1);
      [ans] + Run(cfg, a', calls[1..])
  }

  /** The state after the first `n` calls of a run. */
  function StateAt<T>(cfg: Config, a: ApiState<T>, calls: seq<(u64, Op<T>)>, n: nat): (s: ApiState<T>)
    requires ApiInv(cfg, a) && n <= |calls|
    ensures ApiInv(cfg, s)
  {
    if n == 0 then a
    else
      var s := StateAt(cfg, a, calls, n - 1);
      ApiStepInv(cfg, s, calls[n - 1].0, calls[n - 1].1);
      ApiStep(cfg, s, calls[n - 1].0, calls[n - 1].1).1
  }

  lemma {:induction false} StateAfterFirst<T>(cfg: Config, a: ApiState<T>, calls: seq<(u64, Op<T>)>, n: nat)
    requires ApiInv(cfg, a) && 0 < n <= |calls|
    ensures var s := ApiStep(cfg, a, calls[0].0, calls[0].1).1;
            ApiInv(cfg, s) && StateAt(cfg, a, calls, n) == StateAt(cfg, s, calls[1..], n - 1)
  {
    hide ApiInv, ApiStep;
    ApiStepInv(cfg, a, calls[0].0, calls[0].1);
    if n == 1 {
      assert StateAt(cfg, a, calls, 0) == a;
    } else {
      StateAfterFirst(cfg, a, calls, n - 1);
    }
  }

  /** Each answer of a run is the answer of its call in the state the calls before it have left. */
  lemma {:induction false} AnswerAt<T>(cfg: Config, a: ApiState<T>, calls: seq<(u64, Op<T>)>, i: nat)
    requires ApiInv(cfg, a) && i < |calls|
    ensures Run(cfg, a, calls)[i] == ApiStep(cfg, StateAt(cfg, a, calls, i), calls[i].0, calls[i].1).0
    decreases |calls|
  {
    hide ApiInv, ApiStep;
    ApiStepInv(cfg, a, calls[0].0, calls[0].1);
    if i > 0 {
      StateAfterFirst(cfg, a, calls, i);
      AnswerAt(cfg, ApiStep(cfg, a, calls[0].0, calls[0].1).1, calls[1..], i - 1);
    }
  }

  lemma {:induction false} StateAtPrefix<T>(cfg: Config, a: ApiState<T>, calls: seq<(u64, Op<T>)>,
                                            more: seq<(u64, Op<T>)>, n: nat)
    requires ApiInv(cfg, a) && n <= |calls|
    ensures StateAt(cfg, a, calls + more, n) == StateAt(cfg, a, calls, n)
  {
    hide ApiInv, ApiStep;
    if n > 0 {
      StateAtPrefix(cfg, a, calls, more, n - 1);
    }
  }

  /** A plain map that starts as `m` can give these answers to these calls. */
  ghost predicate Explains<T(!new)>(m: map<Pubkey, Value<T>>, calls: seq<(u64, Op<T>)>, answers: seq<Answer<T>>)
    requires |answers| == |calls|
    decreases |calls|
  {
    calls == [] || exists m' :: MapStep(calls[0].1, m, answers[0], m') && Explains(m', calls[1..], answers[1..])
  }

  lemma {:induction false} RunRefinesFrom<T(!new)>(cfg: Config, a: ApiState<T>, calls: seq<(u64, Op<T>)>)
    requires ApiInv(cfg, a)
    ensures Explains(ApiAbs(cfg, a), calls, Run(cfg, a, calls))
    decreases |calls|
  {
    if calls != [] {
      ApiStepRefines(cfg, a, calls[0].0, calls[0].1);
      var (ans, a') := ApiStep(cfg, a, calls[0].0, calls[0].1);
      RunRefinesFrom(cfg, a', calls[1..]);
      assert Run(cfg, a, calls)[1..] == Run(cfg, a', calls[1..]);
      var m' := ApiAbs(cfg, a');
      assert MapStep(calls[0].1, ApiAbs(cfg, a), Run(cfg, a, calls)[0], m');
    }
  }

  /** Every run on a new bucket, growths in between included, answers as a plain map does. */
  lemma RunRefines<T(!new)>(cfg: Config, zero: T, calls: seq<(u64, Op<T>)>)
    ensures Explains(map[], calls, Run(cfg, ApiState(None, Free, zero), calls))
  {
    RunRefinesFrom(cfg, ApiState(None, Free, zero), calls);
  }

  // ---- waiting and collided growths

  /** Two growths were announced without a write in between. */
  ghost predicate Wedged<T>(a: ApiState<T>) {
    a.bucket.Some? && a.bucket.value.active >= 2
  }

  /** A write waits to apply a growth. */
  ghost predicate Waiting<T>(a: ApiState<T>) {
    a.bucket.Some? && a.bucket.value.active == 1
  }

  ghost predicate SameCapacities<T>(b: BucketState<T>, b': BucketState<T>) {
    && b'.index.pow2 == b.index.pow2 && |b'.data| == |b.data|
    && forall i :: 0 <= i < |b.data| ==> b'.data[i].pow2 == b.data[i].pow2
  }

  lemma MoveKeepsPow2<T>(data: seq<DataStorage<T>>, e: IndexEntry, uid: Uid, ix: nat, slots: seq<T>)
    requires Placed(e, data) && uid != UID_UNLOCKED
    requires e.numSlots > 0 ==> CellOf(e, data).uid == uid && SizeClass(e) != DataBucketFromNumSlots(|slots|)
    requires var b := DataBucketFromNumSlots(|slots|);
             && b < |data| && ix < |data[b].cells| && data[b].cells[ix].uid == UID_UNLOCKED
             && |slots| <= |data[b].cells[ix].payload|
    ensures var data' := MoveCell(data, e, uid, ix, slots);
            |data'| == |data| && forall i :: 0 <= i < |data| ==> data'[i].pow2 == data[i].pow2
  {
  }

  lemma WriteAtKeepsPow2<T>(cfg: Config, b: BucketState<T>, key: Pubkey, i: nat, slots: seq<T>, rc: u64, draw: u64,
                            j: nat)
    requires Live(cfg, b) && HoldsEntry(cfg, b, key, i) && DataBucketFromNumSlots(|slots|) < |b.data| && j < |b.data|
    ensures var b' := WriteAt(cfg, b, key, i, slots, rc, draw).1;
            b'.index.pow2 == b.index.pow2 && |b'.data| == |b.data| && b'.data[j].pow2 == b.data[j].pow2
  {
    hide IndexInv, Meaning, FirstFree, MoveCell, DistinctCells;
    var e := Entries(b.index)[key];
    var best := DataBucketFromNumSlots(|slots|);
    assert EntryOk(cfg, key, e, b.data) && StorageOk(b.data[best], best);
    if !(best == SizeClass(e) && e.numSlots > 0) {
      var r := FirstFree(b.data[best].cells, draw % |b.data[best].cells|, 0, cfg.maxSearch);
      if r.Some? {
        SlotsFit(b.data, best, r.value, |slots|);
        MoveKeepsPow2(b.data, e, KeyUid(cfg, key), r.value, slots);
      }
    }
  }

  lemma WriteAtKeepsCapacities<T>(cfg: Config, b: BucketState<T>, key: Pubkey, i: nat, slots: seq<T>, rc: u64,
                                  draw: u64)
    requires Live(cfg, b) && HoldsEntry(cfg, b, key, i) && DataBucketFromNumSlots(|slots|) < |b.data|
    ensures SameCapacities(b, WriteAt(cfg, b, key, i, slots, rc, draw).1)
  {
    hide IndexInv, DataInv, Meaning, WriteAt;
    WriteAtKeepsPow2(cfg, b, key, i, slots, rc, draw, 0);
    forall j | 0 <= j < |b.data|
      ensures WriteAt(cfg, b, key, i, slots, rc, draw).1.data[j].pow2 == b.data[j].pow2
    {
      WriteAtKeepsPow2(cfg, b, key, i, slots, rc, draw, j);
    }
  }

  lemma WriteKeepsCapacities<T>(cfg: Config, b: BucketState<T>, key: Pubkey, slots: seq<T>, rc: u64, draw: u64)
    requires Live(cfg, b)
    ensures SameCapacities(b, TryWrite(cfg, b, key, slots, rc, draw).1)
  {
    hide IndexInv, DataInv, Meaning, WriteAt;
    FoundEntry(cfg, b, key);
    if DataBucketFromNumSlots(|slots|) < |b.data| {
      if key in Abs(cfg, b) {
        WriteAtKeepsCapacities(cfg, b, key, FindEntry(cfg, b.index, key, b.random).value, slots, rc, draw);
      } else {
        KeyCreated(cfg, b, key);
        var r := CreateKey(cfg, b.index, BlankEntry(key), KeyUid(cfg, key), b.random);
        if r.Ok? {
          WriteAtKeepsCapacities(cfg, b.(index := r.value.1), key, r.value.0, slots, rc, draw);
        }
      }
    }
  }

  lemma DeleteKeepsCapacities<T>(cfg: Config, b: BucketState<T>, key: Pubkey)
    requires Live(cfg, b)
    ensures SameCapacities(b, DeleteKey(cfg, b, key)) && DeleteKey(cfg, b, key).active == b.active
  {
    hide IndexInv, DataInv, Meaning;
    FoundEntry(cfg, b, key);
  }

  lemma WedgedInsert<T>(cfg: Config, b: BucketState<T>, key: Pubkey, slots: seq<T>, rc: u64, draws: seq<u64>)
    requires Inv(cfg, b) && b.active >= 2
    ensures var b' := GrowthModel.Insert(cfg, b, key, slots, rc, draws).1;
            b'.active >= 2 && SameCapacities(b, b')
  {
    hide IndexInv, DataInv, Meaning, TryWrite;
    if draws != [] {
      TryWriteInv(cfg, b, key, slots, rc, draws[0]);
      WriteKeepsCapacities(cfg, b, key, slots, rc, draws[0]);
      var (r, b1) := TryWrite(cfg, b, key, slots, rc, draws[0]);
      if r.Err? {
        GrowKeeps(cfg, b1, r.error, draws[1..]);
      }
    }
  }

  /** It never grows again: no later call changes a capacity or un-wedges it. */
  lemma WedgedForever<T>(cfg: Config, a: ApiState<T>, seed: u64, op: Op<T>)
    requires ApiInv(cfg, a) && Wedged(a)
    ensures var a' := ApiStep(cfg, a, seed, op).1;
            Wedged(a') && SameCapacities(a.bucket.value, a'.bucket.value)
  {
    hide IndexInv, DataInv, Meaning, TryWrite;
    var b := a.bucket.value;
    match op
    case Insert(key, slots, rc, draws) => WedgedInsert(cfg, b, key, slots, rc, draws);
    case Update(key, updatefn, draws) =>
      var val := updatefn(ReadValue(cfg, b, key));
      if val.Some? {
        WedgedInsert(cfg, b, key, val.value.0, val.value.1, draws);
      } else {
        DeleteKeepsCapacities(cfg, b, key);
      }
    case Delete(key) => DeleteKeepsCapacities(cfg, b, key);
    case AddRef(key) => SetCountRefines(cfg, b, key, Increment);
    case UnRef(key) => SetCountRefines(cfg, b, key, Decrement);
    case TryInsert(key, slots, rc, draw) =>
      TryWriteInv(cfg, b, key, slots, rc, draw);
      WriteKeepsCapacities(cfg, b, key, slots, rc, draw);
    case GrowFor(err, seeds) => GrowKeeps(cfg, b, err, seeds);
    case Read(_) =>
    case Length =>
    case ListKeys =>
    case ListItems(_) =>
  }
}
