/** One bucket: an index storage, its data storages, and a growth that may be waiting to be applied. */
module BucketModel {
  import opened Wrappers
  import opened StorageModel
  import opened IndexModel
  import opened IndexGrowth
  import opened DataModel
  import opened DataGrowth

  const MAX_REF_COUNT: u64 := 0xFFFF_FFFF_FFFF_FFFF

  /**
   * `active` counts the growths that were announced and not yet applied; `zero` is the element a
   * fresh data cell holds.
   */
  datatype BucketState<T> = BucketState(
    index: Storage<IndexEntry>,
    random: u64,
    data: seq<DataStorage<T>>,
    zero: T,
    active: nat,
    parkedIndex: Option<(u64, Storage<IndexEntry>)>,
    parkedData: Option<(nat, DataStorage<T>)>)

  // ---- invariant and abstraction

  /** The storages in use are consistent. */
  ghost predicate Live<T>(cfg: Config, b: BucketState<T>) {
    && IndexInv(cfg, b.index, b.random)
    && DataInv(cfg, Entries(b.index), b.data)
  }

  /** The index waiting to be installed means what the current one means. */
  ghost predicate ParkedIndexOk<T>(cfg: Config, b: BucketState<T>) {
    && b.parkedIndex.Some? && b.parkedData.None?
    && IndexInv(cfg, b.parkedIndex.value.1, b.parkedIndex.value.0)
    && Entries(b.parkedIndex.value.1) == Entries(b.index)
    && b.parkedIndex.value.1.pow2 > b.index.pow2
  }

  /** The data storage waiting to be installed is the current one, spread out. */
  ghost predicate ParkedDataOk<T>(b: BucketState<T>) {
    && b.parkedIndex.None? && b.parkedData.Some?
    && var (ix, s) := b.parkedData.value;
    && s.pow2 >= DEFAULT_CAPACITY_POW2
    && (ix < |b.data| ==> b.data[ix].Valid() && b.data[ix].pow2 <= s.pow2)
    && s == GrownData(b.data, ix, s.pow2, b.zero)
  }

  /** More than one announced growth is never applied, so nothing is required of it. */
  ghost predicate ParkedOk<T>(cfg: Config, b: BucketState<T>) {
    && (b.active == 0 ==> b.parkedIndex.None? && b.parkedData.None?)
    && (b.active == 1 ==> ParkedIndexOk(cfg, b) || ParkedDataOk(b))
  }

  ghost predicate Inv<T>(cfg: Config, b: BucketState<T>) {
    Live(cfg, b) && ParkedOk(cfg, b)
  }

  ghost function Abs<T>(cfg: Config, b: BucketState<T>): map<Pubkey, Value<T>>
    requires Live(cfg, b)
  {
    Meaning(cfg, Entries(b.index), b.data)
  }

  function NewBucket<T>(seed: u64, zero: T): BucketState<T> {
    BucketState(Fresh(DEFAULT_CAPACITY_POW2, 1, ZeroEntry()), seed, [], zero, 0, None, None)
  }

  lemma NewBucketIsEmpty<T>(cfg: Config, seed: u64, zero: T)
    ensures Inv(cfg, NewBucket(seed, zero)) && Abs(cfg, NewBucket(seed, zero)) == map[]
    ensures |NewBucket(seed, zero).index.cells| == 32 && NewBucket(seed, zero).data == []
    ensures NewBucket(seed, zero).random == seed
  {
    var b := NewBucket(seed, zero);
    assert LockedCells(b.index) == {};
  }

  // ---- reading

  /** A found entry is the stored one, and its slots can be read. */
  lemma FoundEntry<T>(cfg: Config, b: BucketState<T>, key: Pubkey)
    requires Live(cfg, b)
    ensures b.index.Valid()
    ensures var r := FindEntry(cfg, b.index, key, b.random);
            && (r.Some? <==> key in Abs(cfg, b))
            && (r.Some? ==>
                  var e := b.index.cells[r.value].payload;
                  && HoldsEntry(cfg, b, key, r.value) && EntryOk(cfg, key, e, b.data)
                  && Abs(cfg, b)[key] == (SlotsOf(e, b.data), e.refCount))
  {
    FindEntryExact(cfg, b.index, key, b.random);
    var r := FindEntry(cfg, b.index, key, b.random);
    if r.Some? {
      assert EntryOk(cfg, key, Entries(b.index)[key], b.data);
    }
  }

  function ReadValue<T>(cfg: Config, b: BucketState<T>, key: Pubkey): (r: Option<Value<T>>)
    requires Live(cfg, b)
    ensures r == if key in Abs(cfg, b) then Some(Abs(cfg, b)[key]) else None
  {
    FoundEntry(cfg, b, key);
    match FindEntry(cfg, b.index, key, b.random)
    case None => None
    case Some(i) =>
      var e := b.index.cells[i].payload;
      Some((SlotsOf(e, b.data), e.refCount))
  }

  // ---- writing

  /**
   * What the code asserts of an entry before it touches its slots: the entry is found under its own
   * uid, its storage exists and is not smaller than when the entry was placed, and its cell is in
   * range and, if the entry has slots, stamped with that uid and owned by no other key.
   */
  lemma EntriesAreSound<T>(cfg: Config, b: BucketState<T>, key: Pubkey, other: Pubkey)
    requires Live(cfg, b) && key in Abs(cfg, b)
    ensures var found := FindEntry(cfg, b.index, key, b.random);
            && found.Some? && b.index.cells[found.value].uid == KeyUid(cfg, key)
            && var e := b.index.cells[found.value].payload;
            && SizeClass(e) < |b.data| && e.createdPow2 <= b.data[SizeClass(e)].pow2
            && var s := b.data[SizeClass(e)];
            && DataLoc(e, s) < |s.cells|
            && (e.numSlots > 0 ==> s.cells[DataLoc(e, s)].uid == KeyUid(cfg, key))
            && (e.numSlots > 0 && other in Abs(cfg, b) && other != key ==>
                  !OwnsCell(Entries(b.index)[other], b.data, SizeClass(e), DataLoc(e, s)))
  {
    hide IndexInv;
    FoundEntry(cfg, b, key);
    var e := Entries(b.index)[key];
    assert EntryOk(cfg, key, e, b.data);
    if e.numSlots > 0 {
      assert OwnsCell(e, b.data, SizeClass(e), DataLoc(e, b.data[SizeClass(e)]));
    }
  }

  /** Index cell `i` holds the entry of `key`. */
  ghost predicate HoldsEntry<T>(cfg: Config, b: BucketState<T>, key: Pubkey, i: nat) {
    && key in Entries(b.index)
    && b.index.IsLocked(i) && b.index.cells[i] == Cell(KeyUid(cfg, key), Entries(b.index)[key])
  }

  /** Write at the index cell `i`, which holds the key's entry. */
  function WriteAt<T>(cfg: Config, b: BucketState<T>, key: Pubkey, i: nat, slots: seq<T>, rc: u64, draw: u64)
    : (r: (Result<(), BucketMapError>, BucketState<T>))
    requires Live(cfg, b) && HoldsEntry(cfg, b, key, i)
    requires DataBucketFromNumSlots(|slots|) < |b.data|
  {
    var best := DataBucketFromNumSlots(|slots|);
    var e := b.index.cells[i].payload;
    var uid := b.index.cells[i].uid;
    assert EntryOk(cfg, key, e, b.data);
    var c := SizeClass(e);
    var loc := DataLoc(e, b.data[c]);
    if best == c && e.numSlots > 0 then
      InPlaceWrite(cfg, Entries(b.index), b.data, key, slots, rc);
      assert b.data[c].cells[loc].uid == uid;
      (Ok(()), b.(index := Put(b.index, i, e.(numSlots := |slots|, refCount := rc)),
                  data := WriteCell(b.data, c, loc, slots)))
    else
      assert StorageOk(b.data[best], best);
      match FirstFree(b.data[best].cells, draw % |b.data[best].cells|, 0, cfg.maxSearch)
      case None =>
        (Err(DataNoSpace(best, b.data[best].pow2)), b.(index := Put(b.index, i, e.(refCount := rc))))
      case Some(ix) =>
        SlotsFit(b.data, best, ix, |slots|);
        (Ok(()), b.(index := Put(b.index, i, IndexEntry(key, rc, ix, b.data[best].pow2, |slots|)),
                    data := MoveCell(b.data, e, uid, ix, slots)))
  }

  function TryWrite<T>(cfg: Config, b: BucketState<T>, key: Pubkey, slots: seq<T>, rc: u64, draw: u64)
    : (r: (Result<(), BucketMapError>, BucketState<T>))
    requires Live(cfg, b)
  {
    var best := DataBucketFromNumSlots(|slots|);
    if best >= |b.data| then
      // fail early, before an index entry is allocated
      (Err(DataNoSpace(best, 0)), b)
    else
      FoundEntry(cfg, b, key);
      match FindEntry(cfg, b.index, key, b.random)
      case Some(i) => WriteAt(cfg, b, key, i, slots, rc, draw)
      case None =>
        var created := CreateKey(cfg, b.index, BlankEntry(key), KeyUid(cfg, key), b.random);
        if created.Err? then (Err(created.error), b)
        else
          KeyCreated(cfg, b, key);
          WriteAt(cfg, b.(index := created.value.1), key, created.value.0, slots, rc, draw)
  }

  /** Creating the index entry of a new key gives it an empty slot list. */
  lemma KeyCreated<T>(cfg: Config, b: BucketState<T>, key: Pubkey)
    requires Live(cfg, b) && |b.data| > 0 && key !in Abs(cfg, b)
    ensures var r := CreateKey(cfg, b.index, BlankEntry(key), KeyUid(cfg, key), b.random);
            r.Ok? ==>
              var b' := b.(index := r.value.1);
              && Live(cfg, b') && Abs(cfg, b') == Abs(cfg, b)[key := ([], 0)]
              && HoldsEntry(cfg, b', key, r.value.0)
  {
    CreateKeyAdds(cfg, b.index, b.random, BlankEntry(key));
    AddBlank(cfg, Entries(b.index), b.data, key);
  }

  /** The write would reuse the key's own cell. */
  ghost predicate FitsInPlace<T>(cfg: Config, b: BucketState<T>, key: Pubkey, slots: seq<T>)
    requires Live(cfg, b)
  {
    && key in Abs(cfg, b) && |Abs(cfg, b)[key].0| > 0
    && DataBucketFromNumSlots(|Abs(cfg, b)[key].0|) == DataBucketFromNumSlots(|slots|)
  }

  lemma SlotsLength<T>(cfg: Config, b: BucketState<T>, key: Pubkey)
    requires Live(cfg, b) && (key in Entries(b.index) || key in Abs(cfg, b))
    ensures key in Entries(b.index) && key in Abs(cfg, b)
    ensures |Abs(cfg, b)[key].0| == Entries(b.index)[key].numSlots
  {
    assert EntryOk(cfg, key, Entries(b.index)[key], b.data);
    var e := Entries(b.index)[key];
    assert StorageOk(b.data[SizeClass(e)], SizeClass(e));
  }

  /** Every index cell of the window that starts at the hash of the key's uid and the seed is locked. */
  ghost predicate WindowFull<T>(cfg: Config, b: BucketState<T>, key: Pubkey)
    requires b.index.Valid()
  {
    forall i :: InWindow(cfg.ixHash(KeyUid(cfg, key), b.random), cfg.maxSearch, |b.index.cells|, i) ==>
      b.index.cells[i].uid != 0
  }

  /** Every cell of the window that starts at `draw`, in the storage for lists of this length, is locked. */
  ghost predicate DataFull<T>(cfg: Config, data: seq<DataStorage<T>>, slots: seq<T>, draw: u64)
    requires DataBucketFromNumSlots(|slots|) < |data| && |data[DataBucketFromNumSlots(|slots|)].cells| > 0
  {
    var cells := data[DataBucketFromNumSlots(|slots|)].cells;
    forall i :: InWindow(draw, cfg.maxSearch, |cells|, i) ==> cells[i].uid != 0
  }

  lemma WindowFullIs<T>(cfg: Config, b: BucketState<T>, key: Pubkey)
    requires b.index.Valid()
    ensures CreateKey(cfg, b.index, BlankEntry(key), KeyUid(cfg, key), b.random).Err? <==> WindowFull(cfg, b, key)
  {
    hide InWindow;
    FirstFreeExact(b.index.cells, cfg.ixHash(KeyUid(cfg, key), b.random), cfg.maxSearch);
  }

  lemma DataFullIs<T>(cfg: Config, data: seq<DataStorage<T>>, slots: seq<T>, draw: u64)
    requires DataBucketFromNumSlots(|slots|) < |data| && |data[DataBucketFromNumSlots(|slots|)].cells| > 0
    ensures var cells := data[DataBucketFromNumSlots(|slots|)].cells;
            FirstFree(cells, draw % |cells|, 0, cfg.maxSearch).None? <==> DataFull(cfg, data, slots, draw)
  {
    hide InWindow;
    FirstFreeExact(data[DataBucketFromNumSlots(|slots|)].cells, draw, cfg.maxSearch);
  }

  /** The write succeeds and sets the key, or it finds the data storage full and sets the count only. */
  lemma WriteAtRefines<T>(cfg: Config, b: BucketState<T>, key: Pubkey, i: nat, slots: seq<T>, rc: u64, draw: u64)
    returns (r: Result<(), BucketMapError>, b': BucketState<T>)
    requires Live(cfg, b) && HoldsEntry(cfg, b, key, i)
    requires DataBucketFromNumSlots(|slots|) < |b.data|
    ensures (r, b') == WriteAt(cfg, b, key, i, slots, rc, draw)
    ensures Live(cfg, b') && b' == b.(index := b'.index, data := b'.data) && b'.index.pow2 == b.index.pow2
    ensures StorageOk(b.data[DataBucketFromNumSlots(|slots|)], DataBucketFromNumSlots(|slots|))
    ensures var best := DataBucketFromNumSlots(|slots|);
            r == if DataFull(cfg, b.data, slots, draw) && !FitsInPlace(cfg, b, key, slots)
                 then Err(DataNoSpace(best, b.data[best].pow2)) else Ok(())
    ensures r.Ok? ==> Abs(cfg, b') == Abs(cfg, b)[key := (slots, rc)]
    ensures r.Err? ==> Abs(cfg, b') == Abs(cfg, b)[key := (Abs(cfg, b)[key].0, rc)] && b'.data == b.data
  {
    hide IndexInv, DataFull;
    var entries := Entries(b.index);
    var e := entries[key];
    var best := DataBucketFromNumSlots(|slots|);
    assert EntryOk(cfg, key, e, b.data) && StorageOk(b.data[best], best);
    SlotsLength(cfg, b, key);
    DataFullIs(cfg, b.data, slots, draw);
    var result := WriteAt(cfg, b, key, i, slots, rc, draw);
    r, b' := result.0, result.1;
    if best == SizeClass(e) && e.numSlots > 0 {
      InPlaceWrite(cfg, entries, b.data, key, slots, rc);
      PutEntry(cfg, b.index, b.random, i, e.(numSlots := |slots|, refCount := rc));
    } else if DataFull(cfg, b.data, slots, draw) {
      SetRefCount(cfg, entries, b.data, key, rc);
      PutEntry(cfg, b.index, b.random, i, e.(refCount := rc));
    } else {
      var ix := FirstFree(b.data[best].cells, draw % |b.data[best].cells|, 0, cfg.maxSearch).value;
      SlotsFit(b.data, best, ix, |slots|);
      MoveWrite(cfg, entries, b.data, key, ix, slots, rc);
      PutEntry(cfg, b.index, b.random, i, IndexEntry(key, rc, ix, b.data[best].pow2, |slots|));
    }
  }

  /** Which of its four outcomes a write has. */
  ghost function WriteVerdict<T>(cfg: Config, b: BucketState<T>, key: Pubkey, slots: seq<T>, draw: u64)
    : Result<(), BucketMapError>
    requires Live(cfg, b)
  {
    var best := DataBucketFromNumSlots(|slots|);
    if best >= |b.data| then Err(DataNoSpace(best, 0))
    else if key !in Abs(cfg, b) && WindowFull(cfg, b, key) then Err(IndexNoSpace(b.index.pow2))
    else
      assert StorageOk(b.data[best], best);
      if DataFull(cfg, b.data, slots, draw) && !FitsInPlace(cfg, b, key, slots)
      then Err(DataNoSpace(best, b.data[best].pow2))
      else Ok(())
  }

  /** What a write with this outcome does to the map. */
  function WriteEffect<T>(m: map<Pubkey, Value<T>>, key: Pubkey, slots: seq<T>, rc: u64, r: Result<(), BucketMapError>)
    : map<Pubkey, Value<T>>
  {
    match r
    case Ok(_) => m[key := (slots, rc)]
    case Err(IndexNoSpace(_)) => m
    case Err(DataNoSpace(_, pow2)) =>
      if pow2 == 0 then m else m[key := (if key in m then m[key].0 else [], rc)]
  }

  /** The new state of a write is live, differs as the outcome says, and the outcome is the expected one. */
  ghost predicate WriteMeets<T>(cfg: Config, b: BucketState<T>, key: Pubkey, slots: seq<T>, rc: u64, draw: u64,
                                r: Result<(), BucketMapError>, b': BucketState<T>)
    requires Live(cfg, b)
  {
    && Live(cfg, b') && b' == b.(index := b'.index, data := b'.data)
    && b'.index.pow2 == b.index.pow2 && (r.Err? ==> b'.data == b.data)
    && r == WriteVerdict(cfg, b, key, slots, draw)
    && Abs(cfg, b') == WriteEffect(Abs(cfg, b), key, slots, rc, r)
  }

  lemma TryWriteRefines<T>(cfg: Config, b: BucketState<T>, key: Pubkey, slots: seq<T>, rc: u64, draw: u64)
    returns (r: Result<(), BucketMapError>, b': BucketState<T>)
    requires Live(cfg, b)
    ensures (r, b') == TryWrite(cfg, b, key, slots, rc, draw)
    ensures WriteMeets(cfg, b, key, slots, rc, draw, r, b')
    ensures r.Err? && (r.error.IndexNoSpace? || r.error.currentCapacityPow2 == 0) ==> b' == b
  {
    hide WindowFull, DataFull;
    var best := DataBucketFromNumSlots(|slots|);
    if best >= |b.data| {
      r, b' := Err(DataNoSpace(best, 0)), b;
    } else if key in Abs(cfg, b) {
      r, b' := OldKeyRefines(cfg, b, key, slots, rc, draw);
    } else if WindowFull(cfg, b, key) {
      FoundEntry(cfg, b, key);
      WindowFullIs(cfg, b, key);
      r, b' := Err(IndexNoSpace(b.index.pow2)), b;
    } else {
      r, b' := NewKeyRefines(cfg, b, key, slots, rc, draw);
    }
  }

  lemma OldKeyRefines<T>(cfg: Config, b: BucketState<T>, key: Pubkey, slots: seq<T>, rc: u64, draw: u64)
    returns (r: Result<(), BucketMapError>, b': BucketState<T>)
    requires Live(cfg, b) && key in Abs(cfg, b) && DataBucketFromNumSlots(|slots|) < |b.data|
    ensures (r, b') == TryWrite(cfg, b, key, slots, rc, draw)
    ensures WriteMeets(cfg, b, key, slots, rc, draw, r, b')
    ensures r.Err? ==> r.error.DataNoSpace? && r.error.currentCapacityPow2 > 0
  {
    hide Abs, IndexInv, DataInv, WriteAt, DataFull, FitsInPlace;
    FoundEntry(cfg, b, key);
    assert b.index.Valid();
    r, b' := WriteAtRefines(cfg, b, key, FindEntry(cfg, b.index, key, b.random).value, slots, rc, draw);
    assert r == WriteVerdict(cfg, b, key, slots, draw);
    assert Abs(cfg, b') == WriteEffect(Abs(cfg, b), key, slots, rc, r);
  }

  lemma NewKeyRefines<T>(cfg: Config, b: BucketState<T>, key: Pubkey, slots: seq<T>, rc: u64, draw: u64)
    returns (r: Result<(), BucketMapError>, b': BucketState<T>)
    requires Live(cfg, b) && key !in Abs(cfg, b) && DataBucketFromNumSlots(|slots|) < |b.data|
             && !WindowFull(cfg, b, key)
    ensures (r, b') == TryWrite(cfg, b, key, slots, rc, draw)
    ensures WriteMeets(cfg, b, key, slots, rc, draw, r, b')
    ensures r.Err? ==> r.error.DataNoSpace? && r.error.currentCapacityPow2 > 0
  {
    hide IndexInv, DataInv, Meaning, WriteAt, DataFull, WindowFull, TryWrite;
    var i, b1 := NewKeyWrites(cfg, b, key, slots, rc, draw);
    r, b' := WriteAtRefines(cfg, b1, key, i, slots, rc, draw);
    assert !FitsInPlace(cfg, b1, key, slots);
    UpdateTwice(Abs(cfg, b), key, ([], 0), if r.Ok? then (slots, rc) else ([], rc));
  }

  /** With a free cell in its window, a new key is first given an entry without slots. */
  lemma NewKeyWrites<T>(cfg: Config, b: BucketState<T>, key: Pubkey, slots: seq<T>, rc: u64, draw: u64)
    returns (i: nat, b1: BucketState<T>)
    requires Live(cfg, b) && key !in Abs(cfg, b) && DataBucketFromNumSlots(|slots|) < |b.data|
             && !WindowFull(cfg, b, key)
    ensures b1 == b.(index := b1.index) && b1.index.pow2 == b.index.pow2
    ensures PlacesKey(cfg, b.index.cells, b1.index.cells, key, b.random, i)
    ensures Live(cfg, b1) && HoldsEntry(cfg, b1, key, i) && Abs(cfg, b1) == Abs(cfg, b)[key := ([], 0)]
    ensures TryWrite(cfg, b, key, slots, rc, draw) == WriteAt(cfg, b1, key, i, slots, rc, draw)
  {
    hide IndexInv, DataInv, Meaning, WriteAt, WindowFull, FirstFree, PlacesKey;
    FoundEntry(cfg, b, key);
    WindowFullIs(cfg, b, key);
    KeyCreated(cfg, b, key);
    CreateKeyPlaces(cfg, b.index, BlankEntry(key), b.random);
    var created := CreateKey(cfg, b.index, BlankEntry(key), KeyUid(cfg, key), b.random).value;
    i, b1 := created.0, b.(index := created.1);
  }

  /** Writing an entry changes its own index cell only, and neither its lock word nor its key. */
  lemma WriteAtKeepsPlace<T>(cfg: Config, b: BucketState<T>, key: Pubkey, i: nat, slots: seq<T>, rc: u64, draw: u64)
    requires Live(cfg, b) && HoldsEntry(cfg, b, key, i) && DataBucketFromNumSlots(|slots|) < |b.data|
    ensures var cells, cells' := b.index.cells, WriteAt(cfg, b, key, i, slots, rc, draw).1.index.cells;
            && |cells'| == |cells| && cells' == cells[i := cells'[i]]
            && cells'[i].uid == cells[i].uid && cells'[i].payload.key == key
  {
    hide IndexInv, Meaning, FirstFree, DistinctCells;
    assert EntryOk(cfg, key, b.index.cells[i].payload, b.data);
    assert StorageOk(b.data[DataBucketFromNumSlots(|slots|)], DataBucketFromNumSlots(|slots|));
  }

  /** A new key is written to the free index cell closest behind the hash of its uid and the seed. */
  lemma NewKeyPlaced<T>(cfg: Config, b: BucketState<T>, key: Pubkey, slots: seq<T>, rc: u64, draw: u64)
    returns (i: nat)
    requires Live(cfg, b) && key !in Abs(cfg, b) && DataBucketFromNumSlots(|slots|) < |b.data|
             && !WindowFull(cfg, b, key)
    ensures PlacesKey(cfg, b.index.cells, TryWrite(cfg, b, key, slots, rc, draw).1.index.cells, key, b.random, i)
  {
    hide IndexInv, DataInv, Meaning, WriteAt, WindowFull, TryWrite, CreateKey, Abs, PlacesKey;
    var b1;
    i, b1 := NewKeyWrites(cfg, b, key, slots, rc, draw);
    WriteAtKeepsPlace(cfg, b1, key, i, slots, rc, draw);
    PlaceIsKept(cfg, b.index.cells, b1.index.cells, WriteAt(cfg, b1, key, i, slots, rc, draw).1.index.cells, key,
                b.random, i);
  }

  lemma PlaceIsKept(cfg: Config, cells: seq<Cell<IndexEntry>>, cells1: seq<Cell<IndexEntry>>,
                    cells': seq<Cell<IndexEntry>>, key: Pubkey, seed: u64, i: nat)
    requires PlacesKey(cfg, cells, cells1, key, seed, i)
    requires |cells'| == |cells1| && i < |cells'| && cells' == cells1[i := cells'[i]]
    requires cells'[i].uid == cells1[i].uid && cells'[i].payload.key == key
    ensures PlacesKey(cfg, cells, cells', key, seed, i)
  {
    hide ClosestFree;
  }

  // ---- deleting and reference counts

  function DeleteKey<T>(cfg: Config, b: BucketState<T>, key: Pubkey): (b': BucketState<T>)
    requires Live(cfg, b)
  {
    FoundEntry(cfg, b, key);
    match FindEntry(cfg, b.index, key, b.random)
    case None => b
    case Some(i) =>
      var e := b.index.cells[i].payload;
      var uid := b.index.cells[i].uid;
      var c := SizeClass(e);
      b.(index := Unlock(b.index, i, uid),
         data := if e.numSlots > 0 then FreeCell(b.data, c, DataLoc(e, b.data[c]), uid) else b.data)
  }

  lemma DeleteKeyRefines<T>(cfg: Config, b: BucketState<T>, key: Pubkey)
    requires Live(cfg, b)
    ensures var b' := DeleteKey(cfg, b, key);
            && Live(cfg, b') && b' == b.(index := b'.index, data := b'.data)
            && Abs(cfg, b') == Abs(cfg, b) - {key}
            && (key !in Abs(cfg, b) ==> b' == b)
  {
    hide IndexInv, DataInv, Meaning, CellOf;
    FoundEntry(cfg, b, key);
    var found := FindEntry(cfg, b.index, key, b.random);
    if found.Some? {
      FreeRemoves(cfg, b.index, b.random, found.value);
      var entries := Entries(b.index);
      if entries[key].numSlots > 0 {
        ReleaseAndDrop(cfg, entries, b.data, key);
      } else {
        DropKey(cfg, entries, b.data, key);
      }
    } else {
      assert Abs(cfg, b) - {key} == Abs(cfg, b);
    }
  }

  /** Replace the reference count of a stored key; `None` stands for an overflow check that fails. */
  function SetCount<T>(cfg: Config, b: BucketState<T>, key: Pubkey, f: u64 -> Option<u64>)
    : (r: (Outcome<Option<u64>>, BucketState<T>))
    requires Live(cfg, b)
  {
    match FindEntry(cfg, b.index, key, b.random)
    case None => (Returned(None), b)
    case Some(i) =>
      var e := b.index.cells[i].payload;
      match f(e.refCount)
      case None => (Panicked, b)
      case Some(rc) => (Returned(Some(rc)), b.(index := Put(b.index, i, e.(refCount := rc))))
  }

  function Increment(rc: u64): Option<u64> {
    if rc == MAX_REF_COUNT then None else Some(rc + 1)
  }

  function Decrement(rc: u64): Option<u64> {
    if rc == 0 then None else Some(rc - 1)
  }

  function AddRef<T>(cfg: Config, b: BucketState<T>, key: Pubkey): (Outcome<Option<u64>>, BucketState<T>)
    requires Live(cfg, b)
  {
    SetCount(cfg, b, key, Increment)
  }

  function UnRef<T>(cfg: Config, b: BucketState<T>, key: Pubkey): (Outcome<Option<u64>>, BucketState<T>)
    requires Live(cfg, b)
  {
    SetCount(cfg, b, key, Decrement)
  }

  lemma SetCountRefines<T>(cfg: Config, b: BucketState<T>, key: Pubkey, f: u64 -> Option<u64>)
    requires Live(cfg, b)
    ensures var (r, b') := SetCount(cfg, b, key, f);
            && Live(cfg, b') && b' == b.(index := b'.index)
            && (if key !in Abs(cfg, b) then r == Returned(None) && b' == b
                else
                  match f(Abs(cfg, b)[key].1)
                  case None => r == Panicked && b' == b
                  case Some(rc) =>
                    && r == Returned(Some(rc))
                    && Abs(cfg, b') == Abs(cfg, b)[key := (Abs(cfg, b)[key].0, rc)])
  {
    FoundEntry(cfg, b, key);
    var found := FindEntry(cfg, b.index, key, b.random);
    if found.Some? {
      var e := b.index.cells[found.value].payload;
      if f(e.refCount).Some? {
        var rc := f(e.refCount).value;
        PutEntry(cfg, b.index, b.random, found.value, e.(refCount := rc));
        SetRefCount(cfg, Entries(b.index), b.data, key, rc);
      }
    }
  }

  /** The count of a stored key moves by `step`, or, if it would leave 64 bits, the call panics and nothing moves. */
  ghost predicate Recounts<T>(cfg: Config, b: BucketState<T>, key: Pubkey, step: int, r: Outcome<Option<u64>>,
                              b': BucketState<T>)
    requires Live(cfg, b)
  {
    && Live(cfg, b') && b' == b.(index := b'.index)
    && if key !in Abs(cfg, b) then r == Returned(None) && b' == b
       else
         var (slots, was) := Abs(cfg, b)[key];
         if 0 <= was + step < 0x1_0000_0000_0000_0000
         then r == Returned(Some(was + step)) && Abs(cfg, b') == Abs(cfg, b)[key := (slots, was + step)]
         else r == Panicked && b' == b
  }

  lemma AddRefRefines<T>(cfg: Config, b: BucketState<T>, key: Pubkey)
    requires Live(cfg, b)
    ensures Recounts(cfg, b, key, 1, AddRef(cfg, b, key).0, AddRef(cfg, b, key).1)
  {
    hide IndexInv, DataInv, Meaning, SetCount;
    SetCountRefines(cfg, b, key, Increment);
  }

  lemma UnRefRefines<T>(cfg: Config, b: BucketState<T>, key: Pubkey)
    requires Live(cfg, b)
    ensures Recounts(cfg, b, key, -1, UnRef(cfg, b, key).0, UnRef(cfg, b, key).1)
  {
    hide IndexInv, DataInv, Meaning, SetCount;
    SetCountRefines(cfg, b, key, Decrement);
  }
}
