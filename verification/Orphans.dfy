/**
 * Data cells that stay locked although no entry owns them. Shrinking a one-slot list to nothing in
 * place leaves its cell behind; nothing else does, and nothing ever gives such a cell back.
 */
module Orphans {
  import opened Wrappers
  import opened PowersOfTwo
  import opened StorageModel
  import opened IndexModel
  import opened DataModel
  import opened DataGrowth
  import opened BucketModel
  import opened GrowthModel

  ghost predicate Owned<T>(entries: map<Pubkey, IndexEntry>, data: seq<DataStorage<T>>, b: int, loc: int) {
    exists k :: k in entries && OwnsCell(entries[k], data, b, loc)
  }

  /** Cell `loc` of storage `b` is locked, and no stored key owns it. */
  ghost predicate Orphan<T>(entries: map<Pubkey, IndexEntry>, data: seq<DataStorage<T>>, b: int, loc: int) {
    0 <= b < |data| && data[b].IsLocked(loc) && !Owned(entries, data, b, loc)
  }

  /** All of them, as storage and cell. */
  ghost function OrphanCells<T>(entries: map<Pubkey, IndexEntry>, data: seq<DataStorage<T>>): set<(int, int)> {
    set b, loc | 0 <= b < |data| && 0 <= loc < |data[b].cells| && Orphan(entries, data, b, loc) :: (b, loc)
  }

  ghost function OrphansOf<T>(b: BucketState<T>): set<(int, int)> {
    OrphanCells(Entries(b.index), b.data)
  }

  lemma SameOrphans<T>(entries: map<Pubkey, IndexEntry>, data: seq<DataStorage<T>>,
                       entries': map<Pubkey, IndexEntry>, data': seq<DataStorage<T>>)
    requires forall c, l :: Orphan(entries', data', c, l) <==> Orphan(entries, data, c, l)
    ensures OrphanCells(entries', data') == OrphanCells(entries, data)
  {
    hide Owned;
    forall p: (int, int)
      ensures p in OrphanCells(entries', data') <==> p in OrphanCells(entries, data)
    {
      assert Orphan(entries', data', p.0, p.1) <==> Orphan(entries, data, p.0, p.1);
    }
  }

  lemma OneMoreOrphan<T>(entries: map<Pubkey, IndexEntry>, data: seq<DataStorage<T>>,
                         entries': map<Pubkey, IndexEntry>, data': seq<DataStorage<T>>, b: int, loc: int)
    requires forall c, l :: Orphan(entries', data', c, l) <==> Orphan(entries, data, c, l) || (c == b && l == loc)
    ensures OrphanCells(entries', data') == OrphanCells(entries, data) + {(b, loc)}
  {
    hide Owned;
    forall p: (int, int)
      ensures p in OrphanCells(entries', data') <==> p in OrphanCells(entries, data) + {(b, loc)}
    {
      assert Orphan(entries', data', p.0, p.1) <==> Orphan(entries, data, p.0, p.1) || (p.0 == b && p.1 == loc);
    }
  }

  // ---- changing one cell or one entry

  /** Re-pointing a key around one cell keeps the owner of every other cell. */
  lemma OtherOwnersSame<T>(cfg: Config, entries: map<Pubkey, IndexEntry>, data: seq<DataStorage<T>>,
                           data': seq<DataStorage<T>>, b: nat, loc: nat, k: Pubkey, e: IndexEntry, c: int, l: int)
    requires DataInv(cfg, entries, data) && DataOk(data') && OneCellDiffers(data, data', b, loc)
    requires k in entries ==> !OwnsCell(entries[k], data, c, l)
    requires !OwnsCell(e, data', c, l)
    ensures Owned(entries[k := e], data', c, l) <==> Owned(entries, data, c, l)
  {
    hide DistinctCells, OneCellDiffers, OwnsCell;
    var entries' := entries[k := e];
    if Owned(entries, data, c, l) {
      var k' :| k' in entries && OwnsCell(entries[k'], data, c, l);
      assert EntryOk(cfg, k', entries[k'], data);
      OneCellKeepsEntry(data, data', b, loc, entries[k']);
      assert k' in entries' && OwnsCell(entries'[k'], data', c, l);
    }
    if Owned(entries', data', c, l) {
      var k' :| k' in entries' && OwnsCell(entries'[k'], data', c, l);
      assert EntryOk(cfg, k', entries[k'], data);
      OneCellKeepsEntry(data, data', b, loc, entries[k']);
      assert k' in entries && OwnsCell(entries[k'], data, c, l);
    }
  }

  /** Re-pointing a key around one cell leaves every other cell as it was. */
  lemma OtherCellsSame<T>(cfg: Config, entries: map<Pubkey, IndexEntry>, data: seq<DataStorage<T>>,
                          data': seq<DataStorage<T>>, b: nat, loc: nat, k: Pubkey, e: IndexEntry)
    requires DataInv(cfg, entries, data) && DataOk(data') && OneCellDiffers(data, data', b, loc)
    requires k in entries ==> forall c, l :: OwnsCell(entries[k], data, c, l) ==> c == b && l == loc
    requires forall c, l :: OwnsCell(e, data', c, l) ==> c == b && l == loc
    ensures forall c, l :: !(c == b && l == loc) ==>
              (Orphan(entries[k := e], data', c, l) <==> Orphan(entries, data, c, l))
  {
    hide DataInv, Owned, OwnsCell;
    forall c, l | !(c == b && l == loc)
      ensures Orphan(entries[k := e], data', c, l) <==> Orphan(entries, data, c, l)
    {
      OtherOwnersSame(cfg, entries, data, data', b, loc, k, e, c, l);
    }
  }

  /** In place, the cell stays locked: it is left behind exactly when the new list is empty. */
  lemma InPlaceOrphans<T>(cfg: Config, entries: map<Pubkey, IndexEntry>, data: seq<DataStorage<T>>,
                          k: Pubkey, slots: seq<T>, rc: u64)
    requires DataInv(cfg, entries, data) && k in entries && entries[k].numSlots > 0
    requires DataBucketFromNumSlots(|slots|) == SizeClass(entries[k])
    requires EntryOk(cfg, k, entries[k], data) && |slots| <= |CellOf(entries[k], data).payload|
    ensures var e := entries[k].(numSlots := |slots|, refCount := rc);
            var b := SizeClass(entries[k]);
            var loc := DataLoc(entries[k], data[b]);
            var now := OrphanCells(entries[k := e], WriteCell(data, b, loc, slots));
            && (b, loc) !in OrphanCells(entries, data)
            && now == OrphanCells(entries, data) + (if |slots| == 0 then {(b, loc)} else {})
  {
    var e := entries[k].(numSlots := |slots|, refCount := rc);
    var b := SizeClass(entries[k]);
    var loc := DataLoc(entries[k], data[b]);
    var data' := WriteCell(data, b, loc, slots);
    var entries' := entries[k := e];
    InPlaceWrite(cfg, entries, data, k, slots, rc);
    assert OwnsCell(entries[k], data, b, loc) && OneCellDiffers(data, data', b, loc);
    OwnsSameCell(entries[k], e, data, data', b, loc);
    hide Meaning, DistinctCells, OneCellDiffers, StorageOk, Orphan, OrphanCells, WriteCell, OwnsCell;
    OtherCellsSame(cfg, entries, data, data', b, loc, k, e);
    InPlaceOwner(cfg, entries, data, data', b, loc, k, e);
    NotAmongOrphans(entries, data, b, loc);
    if |slots| == 0 {
      OneMoreOrphan(entries, data, entries', data', b, loc);
    } else {
      SameOrphans(entries, data, entries', data');
    }
  }

  /** An entry that changes within its size class keeps its cell, or gives it up when it has no slots left. */
  lemma OwnsSameCell<T>(was: IndexEntry, e: IndexEntry, data: seq<DataStorage<T>>, data': seq<DataStorage<T>>, b: nat,
                        loc: nat)
    requires OwnsCell(was, data, b, loc) && OneCellDiffers(data, data', b, loc)
    requires e.storageOffset == was.storageOffset && e.createdPow2 == was.createdPow2 && SizeClass(e) == SizeClass(was)
    ensures forall c, l :: OwnsCell(was, data, c, l) ==> c == b && l == loc
    ensures forall c, l :: OwnsCell(e, data', c, l) ==> c == b && l == loc
    ensures e.numSlots > 0 ==> OwnsCell(e, data', b, loc)
  {
    hide DataBucketFromNumSlots;
    assert DataLoc(e, data'[b]) == DataLoc(was, data[b]);
  }

  lemma NotAmongOrphans<T>(entries: map<Pubkey, IndexEntry>, data: seq<DataStorage<T>>, b: int, loc: int)
    ensures (b, loc) in OrphanCells(entries, data) ==> Orphan(entries, data, b, loc)
  {
  }

  /** The cell a key owned is owned afterwards exactly when its new entry has slots. */
  lemma InPlaceOwner<T>(cfg: Config, entries: map<Pubkey, IndexEntry>, data: seq<DataStorage<T>>,
                        data': seq<DataStorage<T>>, b: nat, loc: nat, k: Pubkey, e: IndexEntry)
    requires DataInv(cfg, entries, data) && DataOk(data') && OneCellDiffers(data, data', b, loc)
    requires k in entries && OwnsCell(entries[k], data, b, loc) && data'[b].cells[loc].uid == data[b].cells[loc].uid
    requires EntryOk(cfg, k, entries[k], data)
    requires e.numSlots > 0 ==> OwnsCell(e, data', b, loc)
    ensures !Orphan(entries, data, b, loc)
    ensures Orphan(entries[k := e], data', b, loc) <==> e.numSlots == 0
  {
    var entries' := entries[k := e];
    if e.numSlots > 0 {
      assert entries'[k] == e && k in entries';
    } else {
      assert data[b].IsLocked(loc) && data'[b].IsLocked(loc);
      forall k' | k' in entries'
        ensures !OwnsCell(entries'[k'], data', b, loc)
      {
        if k' != k {
          assert EntryOk(cfg, k', entries[k'], data);
          OneCellKeepsEntry(data, data', b, loc, entries[k']);
        }
      }
    }
  }

  lemma ReleaseOrphans<T>(cfg: Config, entries: map<Pubkey, IndexEntry>, data: seq<DataStorage<T>>, k: Pubkey)
    requires DataInv(cfg, entries, data) && k in entries && entries[k].numSlots > 0
    requires EntryOk(cfg, k, entries[k], data)
    ensures var b := SizeClass(entries[k]);
            OrphanCells(entries[k := BlankEntry(k)], FreeCell(data, b, DataLoc(entries[k], data[b]), KeyUid(cfg, k)))
            == OrphanCells(entries, data)
  {
    var b := SizeClass(entries[k]);
    var loc := DataLoc(entries[k], data[b]);
    var data' := FreeCell(data, b, loc, KeyUid(cfg, k));
    Release(cfg, entries, data, k);
    assert OneCellDiffers(data, data', b, loc) && !data'[b].IsLocked(loc);
    OtherCellsSame(cfg, entries, data, data', b, loc, k, BlankEntry(k));
    assert OwnsCell(entries[k], data, b, loc) && !Orphan(entries, data, b, loc);
    SameOrphans(entries, data, entries[k := BlankEntry(k)], data');
  }

  lemma OccupyOrphans<T>(cfg: Config, entries: map<Pubkey, IndexEntry>, data: seq<DataStorage<T>>,
                         k: Pubkey, ix: nat, slots: seq<T>, rc: u64)
    requires DataInv(cfg, entries, data) && k in entries && entries[k].numSlots == 0
    requires var b := DataBucketFromNumSlots(|slots|);
             && b < |data| && ix < |data[b].cells| && data[b].cells[ix].uid == UID_UNLOCKED
             && |slots| <= |data[b].cells[ix].payload|
    ensures var b := DataBucketFromNumSlots(|slots|);
            var e := IndexEntry(k, rc, ix, data[b].pow2, |slots|);
            var data' := if |slots| > 0 then TakeCell(data, b, ix, KeyUid(cfg, k), slots) else data;
            OrphanCells(entries[k := e], data') == OrphanCells(entries, data)
  {
    var b := DataBucketFromNumSlots(|slots|);
    var e := IndexEntry(k, rc, ix, data[b].pow2, |slots|);
    var data' := if |slots| > 0 then TakeCell(data, b, ix, KeyUid(cfg, k), slots) else data;
    Occupy(cfg, entries, data, k, ix, slots, rc);
    TakenCellDiffers(data, b, ix, KeyUid(cfg, k), slots);
    assert e.numSlots == |slots| && entries[k := e][k] == e;
    assert |slots| > 0 ==> OwnsCell(e, data', b, ix);
    assert !Orphan(entries, data, b, ix) && !Orphan(entries[k := e], data', b, ix);
    hide Meaning, EntryOk, DistinctCells, OneCellDiffers, StorageOk, Orphan;
    OtherCellsSame(cfg, entries, data, data', b, ix, k, e);
    SameOrphans(entries, data, entries[k := e], data');
  }

  lemma TakenCellDiffers<T>(data: seq<DataStorage<T>>, b: nat, ix: nat, uid: Uid, slots: seq<T>)
    requires b < |data| && ix < |data[b].cells| && |slots| <= |data[b].cells[ix].payload|
    requires data[b].cells[ix].uid == UID_UNLOCKED != uid
    ensures OneCellDiffers(data, TakeCell(data, b, ix, uid, slots), b, ix) && OneCellDiffers(data, data, b, ix)
  {
  }

  lemma MoveOrphans<T>(cfg: Config, entries: map<Pubkey, IndexEntry>, data: seq<DataStorage<T>>,
                       k: Pubkey, ix: nat, slots: seq<T>, rc: u64)
    requires DataInv(cfg, entries, data) && k in entries && EntryOk(cfg, k, entries[k], data)
    requires var b := DataBucketFromNumSlots(|slots|);
             && b < |data| && ix < |data[b].cells| && data[b].cells[ix].uid == UID_UNLOCKED
             && |slots| <= |data[b].cells[ix].payload|
    requires entries[k].numSlots > 0 ==> SizeClass(entries[k]) != DataBucketFromNumSlots(|slots|)
    ensures var e := IndexEntry(k, rc, ix, data[DataBucketFromNumSlots(|slots|)].pow2, |slots|);
            OrphanCells(entries[k := e], MoveCell(data, entries[k], KeyUid(cfg, k), ix, slots))
            == OrphanCells(entries, data)
  {
    hide OrphanCells;
    if entries[k].numSlots > 0 {
      var c := SizeClass(entries[k]);
      var freed := FreeCell(data, c, DataLoc(entries[k], data[c]), KeyUid(cfg, k));
      Release(cfg, entries, data, k);
      ReleaseOrphans(cfg, entries, data, k);
      OccupyOrphans(cfg, entries[k := BlankEntry(k)], freed, k, ix, slots, rc);
      UpdateTwice(entries, k, BlankEntry(k),
                  IndexEntry(k, rc, ix, data[DataBucketFromNumSlots(|slots|)].pow2, |slots|));
    } else {
      OccupyOrphans(cfg, entries, data, k, ix, slots, rc);
    }
  }

  /** Re-pointing a key to an entry that owns the same cells. */
  lemma RenameOrphans<T>(entries: map<Pubkey, IndexEntry>, data: seq<DataStorage<T>>, k: Pubkey, e: IndexEntry)
    requires forall b, l :: OwnsCell(e, data, b, l) <==> k in entries && OwnsCell(entries[k], data, b, l)
    ensures OrphanCells(entries[k := e], data) == OrphanCells(entries, data)
  {
    var entries' := entries[k := e];
    forall b, loc
      ensures Owned(entries', data, b, loc) <==> Owned(entries, data, b, loc)
    {
      if Owned(entries, data, b, loc) {
        var k' :| k' in entries && OwnsCell(entries[k'], data, b, loc);
        assert k' in entries' && OwnsCell(entries'[k'], data, b, loc);
      }
      if Owned(entries', data, b, loc) {
        var k' :| k' in entries' && OwnsCell(entries'[k'], data, b, loc);
        assert k' in entries && OwnsCell(entries[k'], data, b, loc);
      }
    }
    SameOrphans(entries, data, entries', data);
  }

  lemma RecountOrphans<T>(entries: map<Pubkey, IndexEntry>, data: seq<DataStorage<T>>, k: Pubkey, rc: u64)
    requires k in entries
    ensures OrphanCells(entries[k := entries[k].(refCount := rc)], data) == OrphanCells(entries, data)
  {
    var e := entries[k].(refCount := rc);
    assert forall b, l :: OwnsCell(e, data, b, l) <==> OwnsCell(entries[k], data, b, l);
    RenameOrphans(entries, data, k, e);
  }

  lemma DropOrphans<T>(entries: map<Pubkey, IndexEntry>, data: seq<DataStorage<T>>, k: Pubkey)
    requires k in entries ==> entries[k].numSlots == 0
    ensures OrphanCells(entries - {k}, data) == OrphanCells(entries, data)
  {
    var entries' := entries - {k};
    forall b, loc
      ensures Owned(entries', data, b, loc) <==> Owned(entries, data, b, loc)
    {
      if Owned(entries, data, b, loc) {
        var k' :| k' in entries && OwnsCell(entries[k'], data, b, loc);
        assert k' in entries';
      }
    }
    SameOrphans(entries, data, entries', data);
  }

  // ---- the operations of a bucket

  /** The write shrinks a one-slot list to nothing. */
  ghost predicate Leaks<T>(cfg: Config, b: BucketState<T>, key: Pubkey, slots: seq<T>)
    requires Live(cfg, b)
  {
    key in Abs(cfg, b) && |Abs(cfg, b)[key].0| == 1 && |slots| == 0
  }

  /** The orphans of `b` are still there, and there is one more exactly when `leaks`. */
  ghost predicate OrphansGrow<T>(b: BucketState<T>, b': BucketState<T>, leaks: bool) {
    && OrphansOf(b) <= OrphansOf(b')
    && |OrphansOf(b')| == |OrphansOf(b)| + if leaks then 1 else 0
  }

  lemma InPlaceBranchOrphans<T>(cfg: Config, b: BucketState<T>, key: Pubkey, i: nat, slots: seq<T>, rc: u64, draw: u64)
    requires Live(cfg, b) && HoldsEntry(cfg, b, key, i)
    requires var e := Entries(b.index)[key];
             SizeClass(e) == DataBucketFromNumSlots(|slots|) < |b.data| && e.numSlots > 0
    ensures OrphansGrow(b, WriteAt(cfg, b, key, i, slots, rc, draw).1, |slots| == 0)
  {
    hide OrphanCells, IndexInv, Meaning, DataInv;
    var entries := Entries(b.index);
    var e := entries[key];
    InPlaceWrite(cfg, entries, b.data, key, slots, rc);
    InPlaceOrphans(cfg, entries, b.data, key, slots, rc);
    PutEntry(cfg, b.index, b.random, i, e.(numSlots := |slots|, refCount := rc));
  }

  lemma MoveBranchOrphans<T>(cfg: Config, b: BucketState<T>, key: Pubkey, i: nat, slots: seq<T>, rc: u64, draw: u64)
    requires Live(cfg, b) && HoldsEntry(cfg, b, key, i) && DataBucketFromNumSlots(|slots|) < |b.data|
    requires var e := Entries(b.index)[key]; !(SizeClass(e) == DataBucketFromNumSlots(|slots|) && e.numSlots > 0)
    ensures OrphansOf(WriteAt(cfg, b, key, i, slots, rc, draw).1) == OrphansOf(b)
  {
    hide OrphanCells, IndexInv, Meaning, FirstFree, DataFull;
    var entries := Entries(b.index);
    var e := entries[key];
    var best := DataBucketFromNumSlots(|slots|);
    assert EntryOk(cfg, key, e, b.data) && StorageOk(b.data[best], best);
    DataFullIs(cfg, b.data, slots, draw);
    if DataFull(cfg, b.data, slots, draw) {
      RecountOrphans(entries, b.data, key, rc);
      PutEntry(cfg, b.index, b.random, i, e.(refCount := rc));
    } else {
      var ix := FirstFree(b.data[best].cells, draw % |b.data[best].cells|, 0, cfg.maxSearch).value;
      SlotsFit(b.data, best, ix, |slots|);
      MoveOrphans(cfg, entries, b.data, key, ix, slots, rc);
      PutEntry(cfg, b.index, b.random, i, IndexEntry(key, rc, ix, b.data[best].pow2, |slots|));
    }
  }

  lemma WriteAtOrphans<T>(cfg: Config, b: BucketState<T>, key: Pubkey, i: nat, slots: seq<T>, rc: u64, draw: u64)
    requires Live(cfg, b) && HoldsEntry(cfg, b, key, i)
    requires DataBucketFromNumSlots(|slots|) < |b.data|
    ensures OrphansGrow(b, WriteAt(cfg, b, key, i, slots, rc, draw).1, Leaks(cfg, b, key, slots))
  {
    hide OrphansOf, IndexInv, DataInv, Meaning, WriteAt;
    var e := Entries(b.index)[key];
    SlotsLength(cfg, b, key);
    if SizeClass(e) == DataBucketFromNumSlots(|slots|) && e.numSlots > 0 {
      InPlaceBranchOrphans(cfg, b, key, i, slots, rc, draw);
    } else {
      MoveBranchOrphans(cfg, b, key, i, slots, rc, draw);
    }
  }

  /** A write leaves one more cell behind if and only if it shrinks a one-slot list to nothing. */
  lemma TryWriteOrphans<T>(cfg: Config, b: BucketState<T>, key: Pubkey, slots: seq<T>, rc: u64, draw: u64)
    requires Live(cfg, b)
    ensures OrphansGrow(b, TryWrite(cfg, b, key, slots, rc, draw).1, Leaks(cfg, b, key, slots))
  {
    hide IndexInv, DataInv, Meaning, WriteAt, OrphanCells;
    FoundEntry(cfg, b, key);
    if DataBucketFromNumSlots(|slots|) < |b.data| {
      if key in Abs(cfg, b) {
        WriteAtOrphans(cfg, b, key, FindEntry(cfg, b.index, key, b.random).value, slots, rc, draw);
      } else {
        WindowFullIs(cfg, b, key);
        if !WindowFull(cfg, b, key) {
          NewKeyOrphans(cfg, b, key, slots, rc, draw);
        }
      }
    } else if key in Abs(cfg, b) {
      assert |b.data| > 0 && DataBucketFromNumSlots(0) == 0;
    }
  }

  lemma NewKeyOrphans<T>(cfg: Config, b: BucketState<T>, key: Pubkey, slots: seq<T>, rc: u64, draw: u64)
    requires Live(cfg, b) && key !in Abs(cfg, b)
    requires DataBucketFromNumSlots(|slots|) < |b.data| && !WindowFull(cfg, b, key)
    ensures OrphansGrow(b, TryWrite(cfg, b, key, slots, rc, draw).1, false)
  {
    WindowFullIs(cfg, b, key);
    hide IndexInv, DataInv, Meaning, WriteAt, OrphanCells, WindowFull;
    FoundEntry(cfg, b, key);
    KeyCreated(cfg, b, key);
    NewKeyAbsent(cfg, b, key);
    var (i, index) := CreateKey(cfg, b.index, BlankEntry(key), KeyUid(cfg, key), b.random).value;
    CreateKeyAdds(cfg, b.index, b.random, BlankEntry(key));
    RenameOrphans(Entries(b.index), b.data, key, BlankEntry(key));
    WriteAtOrphans(cfg, b.(index := index), key, i, slots, rc, draw);
  }

  lemma NewKeyAbsent<T>(cfg: Config, b: BucketState<T>, key: Pubkey)
    requires Live(cfg, b) && key !in Abs(cfg, b)
    ensures key !in Entries(b.index)
  {
  }

  /** Deleting a key releases its cell, and no other. */
  lemma DeleteOrphans<T>(cfg: Config, b: BucketState<T>, key: Pubkey)
    requires Live(cfg, b)
    ensures OrphansOf(DeleteKey(cfg, b, key)) == OrphansOf(b)
  {
    hide OrphanCells, IndexInv, DataInv, Meaning;
    FoundEntry(cfg, b, key);
    var found := FindEntry(cfg, b.index, key, b.random);
    if found.Some? {
      var entries := Entries(b.index);
      var data' := DeleteKey(cfg, b, key).data;
      FreeRemoves(cfg, b.index, b.random, found.value);
      if entries[key].numSlots > 0 {
        ReleaseOrphans(cfg, entries, b.data, key);
        DropOrphans(entries[key := BlankEntry(key)], data', key);
        RemoveUpdated(entries, key, BlankEntry(key));
      } else {
        DropOrphans(entries, b.data, key);
      }
    }
  }

  lemma SetCountOrphans<T>(cfg: Config, b: BucketState<T>, key: Pubkey, f: u64 -> Option<u64>)
    requires Live(cfg, b)
    ensures OrphansOf(SetCount(cfg, b, key, f).1) == OrphansOf(b)
  {
    hide OrphanCells, IndexInv, DataInv, Meaning;
    FoundEntry(cfg, b, key);
    var found := FindEntry(cfg, b.index, key, b.random);
    if found.Some? {
      var e := b.index.cells[found.value].payload;
      if f(e.refCount).Some? {
        PutEntry(cfg, b.index, b.random, found.value, e.(refCount := f(e.refCount).value));
        RecountOrphans(Entries(b.index), b.data, key, f(e.refCount).value);
      }
    }
  }

  // ---- growth

  /** A locked cell of a grown storage is the image of a locked cell. */
  lemma GrownLocked<T>(data: seq<DataStorage<T>>, b: nat, pow2: nat, zero: T, loc: nat)
    requires b < |data| && data[b].Valid() && data[b].pow2 <= pow2 && GrownData(data, b, pow2, zero).IsLocked(loc)
    ensures var step := Pow2(pow2 - data[b].pow2);
            loc == (loc / step) * step && data[b].IsLocked(loc / step)
  {
    var step := Pow2(pow2 - data[b].pow2);
    var blank := Cell(UID_UNLOCKED, seq(Pow2(b), _ => zero));
    assert GrownData(data, b, pow2, zero).cells == Spread(data[b].cells, Pow2(pow2), step, blank);
    hide Spread, Pow2, GrownData;
    SpreadLocked(data[b].cells, Pow2(pow2), step, blank.payload, loc);
    Divided(loc, step);
  }

  lemma SpreadLocked<E>(cells: seq<Cell<E>>, n: nat, step: nat, zero: E, loc: nat)
    requires step > 0 && loc < n && Spread(cells, n, step, Cell(UID_UNLOCKED, zero))[loc].uid != UID_UNLOCKED
    ensures loc % step == 0 && loc / step < |cells| && cells[loc / step].uid != UID_UNLOCKED
  {
  }

  /** Where a cell goes when storage `b` grows by `step`. */
  function Moved(p: (int, int), b: int, step: nat): (int, int) {
    if p.0 == b then (p.0, p.1 * step) else p
  }

  lemma MovedApart(p: (int, int), q: (int, int), b: int, step: nat)
    requires step > 0 && p != q
    ensures Moved(p, b, step) != Moved(q, b, step)
  {
    if p.0 == b == q.0 {
      if p.1 < q.1 {
        MultipleDistance(q.1, p.1, step);
      } else {
        MultipleDistance(p.1, q.1, step);
      }
    }
  }

  lemma {:induction false} MovedSize(cells: set<(int, int)>, b: int, step: nat)
    requires step > 0
    ensures |set p | p in cells :: Moved(p, b, step)| == |cells|
    decreases |cells|
  {
    if cells != {} {
      var p :| p in cells;
      var rest := cells - {p};
      MovedSize(rest, b, step);
      var moved := set q | q in rest :: Moved(q, b, step);
      forall q | q in rest
        ensures Moved(q, b, step) != Moved(p, b, step)
      {
        MovedApart(p, q, b, step);
      }
      assert Moved(p, b, step) !in moved;
      assert (set q | q in cells :: Moved(q, b, step)) == moved + {Moved(p, b, step)};
    }
  }

  /** An owned cell stays owned at its new place. */
  lemma GrownOwned<T>(cfg: Config, entries: map<Pubkey, IndexEntry>, data: seq<DataStorage<T>>,
                      b: nat, pow2: nat, zero: T, c: int, l: int)
    requires DataInv(cfg, entries, data)
    requires b < |data| && data[b].Valid() && data[b].pow2 <= pow2 && pow2 >= DEFAULT_CAPACITY_POW2
    ensures var step := Pow2(pow2 - data[b].pow2);
            var to := Moved((c, l), b, step);
            Owned(entries, data[b := GrownData(data, b, pow2, zero)], to.0, to.1) <==> Owned(entries, data, c, l)
  {
    var step := Pow2(pow2 - data[b].pow2);
    var to := Moved((c, l), b, step);
    var data' := data[b := GrownData(data, b, pow2, zero)];
    if Owned(entries, data, c, l) {
      var k :| k in entries && OwnsCell(entries[k], data, c, l);
      GrownEntry(entries[k], data, b, pow2, zero);
      assert OwnsCell(entries[k], data', to.0, to.1);
    }
    if Owned(entries, data', to.0, to.1) {
      var k :| k in entries && OwnsCell(entries[k], data', to.0, to.1);
      assert EntryOk(cfg, k, entries[k], data);
      GrownEntry(entries[k], data, b, pow2, zero);
      var loc := DataLoc(entries[k], data[SizeClass(entries[k])]);
      if (c, l) != (c, loc) {
        MovedApart((c, l), (c, loc), b, step);
      }
      assert OwnsCell(entries[k], data, c, l);
    }
  }

  lemma OrphanMoves<T>(cfg: Config, entries: map<Pubkey, IndexEntry>, data: seq<DataStorage<T>>,
                       b: nat, pow2: nat, zero: T, p: (int, int))
    requires DataInv(cfg, entries, data)
    requires b < |data| && data[b].Valid() && data[b].pow2 <= pow2 && pow2 >= DEFAULT_CAPACITY_POW2
    requires p in OrphanCells(entries, data)
    ensures Moved(p, b, Pow2(pow2 - data[b].pow2)) in OrphanCells(entries, data[b := GrownData(data, b, pow2, zero)])
  {
    hide DataInv, Owned;
    GrownOwned(cfg, entries, data, b, pow2, zero, p.0, p.1);
    if p.0 == b {
      GrownCellAt(data[b], pow2, seq(Pow2(b), _ => zero), Pow2(b), p.1);
    }
  }

  lemma OrphanCame<T>(cfg: Config, entries: map<Pubkey, IndexEntry>, data: seq<DataStorage<T>>,
                      b: nat, pow2: nat, zero: T, p: (int, int)) returns (q: (int, int))
    requires DataInv(cfg, entries, data)
    requires b < |data| && data[b].Valid() && data[b].pow2 <= pow2 && pow2 >= DEFAULT_CAPACITY_POW2
    requires p in OrphanCells(entries, data[b := GrownData(data, b, pow2, zero)])
    ensures q in OrphanCells(entries, data) && Moved(q, b, Pow2(pow2 - data[b].pow2)) == p
  {
    hide DataInv, Owned;
    q := p;
    if p.0 == b {
      GrownLocked(data, b, pow2, zero, p.1);
      q := (b, p.1 / Pow2(pow2 - data[b].pow2));
    }
    GrownOwned(cfg, entries, data, b, pow2, zero, q.0, q.1);
  }

  lemma GrowthOrphans<T>(cfg: Config, entries: map<Pubkey, IndexEntry>, data: seq<DataStorage<T>>,
                         b: nat, pow2: nat, zero: T)
    requires DataInv(cfg, entries, data)
    requires b < |data| && data[b].Valid() && data[b].pow2 <= pow2 && pow2 >= DEFAULT_CAPACITY_POW2
    ensures |OrphanCells(entries, data[b := GrownData(data, b, pow2, zero)])| == |OrphanCells(entries, data)|
  {
    hide DataInv, OrphanCells, Moved, Pow2, GrownData;
    var step := Pow2(pow2 - data[b].pow2);
    var data' := data[b := GrownData(data, b, pow2, zero)];
    var cells := OrphanCells(entries, data);
    var moved := set p | p in cells :: Moved(p, b, step);
    MovedSize(cells, b, step);
    forall p | p in cells
      ensures Moved(p, b, step) in OrphanCells(entries, data')
    {
      OrphanMoves(cfg, entries, data, b, pow2, zero, p);
    }
    forall p | p in OrphanCells(entries, data')
      ensures p in moved
    {
      var q := OrphanCame(cfg, entries, data, b, pow2, zero, p);
    }
    assert OrphanCells(entries, data') == moved;
  }

  lemma ExtensionOrphans<T>(cfg: Config, entries: map<Pubkey, IndexEntry>, data: seq<DataStorage<T>>,
                            b: nat, pow2: nat, zero: T)
    requires DataInv(cfg, entries, data) && b >= |data| && pow2 >= DEFAULT_CAPACITY_POW2
    ensures OrphanCells(entries, ApplyGrowData(data, b, GrownData(data, b, pow2, zero), zero))
            == OrphanCells(entries, data)
  {
    var data' := ApplyGrowData(data, b, GrownData(data, b, pow2, zero), zero);
    ApplyKeepsMeaning(cfg, entries, data, b, pow2, zero);
    assert data <= data';
    forall c, l
      ensures Orphan(entries, data', c, l) <==> Orphan(entries, data, c, l)
    {
      if |data| <= c < b {
        GapAt(|data|, b, zero, c - |data|);
      }
      if Owned(entries, data, c, l) {
        var k :| k in entries && OwnsCell(entries[k], data, c, l);
        assert OwnsCell(entries[k], data', c, l);
      }
      if Owned(entries, data', c, l) {
        var k :| k in entries && OwnsCell(entries[k], data', c, l);
        assert EntryOk(cfg, k, entries[k], data);
        assert OwnsCell(entries[k], data, c, l);
      }
    }
    SameOrphans(entries, data, entries, data');
  }

  /** Applying a growth leaves no cell behind and gives none back. */
  lemma HandleOrphans<T>(cfg: Config, b: BucketState<T>)
    requires Inv(cfg, b)
    ensures |OrphansOf(HandleDelayedGrows(cfg, b))| == |OrphansOf(b)|
  {
    hide IndexInv, DataInv, OrphanCells;
    if b.active == 1 && b.parkedIndex.None? {
      var (ix, s) := b.parkedData.value;
      if ix < |b.data| {
        GrowthOrphans(cfg, Entries(b.index), b.data, ix, s.pow2, b.zero);
      } else {
        ExtensionOrphans(cfg, Entries(b.index), b.data, ix, s.pow2, b.zero);
      }
    }
  }

  /** An insert leaves one more cell behind if and only if it completes and shrinks a one-slot list to nothing. */
  lemma {:induction false} InsertOrphans<T>(cfg: Config, b: BucketState<T>, key: Pubkey, slots: seq<T>, rc: u64,
                                            draws: seq<u64>)
    requires Inv(cfg, b) && b.active != 1
    ensures var (o, b', _) := Insert(cfg, b, key, slots, rc, draws);
            |OrphansOf(b')| == |OrphansOf(b)| + if o == Done && Leaks(cfg, b, key, slots) then 1 else 0
    decreases |draws|
  {
    hide IndexInv, DataInv, Meaning, OrphansOf, TryWrite;
    if draws != [] {
      var r := InsertRound(cfg, b, key, slots, rc, draws);
      RoundRefines(cfg, b, key, slots, rc, draws);
      TryWriteOrphans(cfg, b, key, slots, rc, draws[0]);
      if !r.Wrote? {
        FailedRoundOrphans(cfg, b, key, slots, rc, draws);
        if r.Retry? {
          InsertOrphans(cfg, r.next, key, slots, rc, r.rest);
        }
      }
    }
  }

  /** A round that fails leaves no cell behind, and the list it leaves is the one it found. */
  lemma FailedRoundOrphans<T>(cfg: Config, b: BucketState<T>, key: Pubkey, slots: seq<T>, rc: u64, draws: seq<u64>)
    requires Inv(cfg, b) && b.active != 1 && draws != [] && !InsertRound(cfg, b, key, slots, rc, draws).Wrote?
    ensures var r := InsertRound(cfg, b, key, slots, rc, draws);
            && |OrphansOf(r.next)| == |OrphansOf(b)|
            && !Leaks(cfg, b, key, slots) && !Leaks(cfg, r.next, key, slots)
  {
    hide IndexInv, DataInv, Meaning, TryWrite, OrphanCells;
    var r := InsertRound(cfg, b, key, slots, rc, draws);
    RoundRefines(cfg, b, key, slots, rc, draws);
    var w, b1 := TryWriteRefines(cfg, b, key, slots, rc, draws[0]);
    TryWriteOrphans(cfg, b, key, slots, rc, draws[0]);
    OneSlotFitsInPlace(cfg, b, key, slots);
    TryWriteInv(cfg, b, key, slots, rc, draws[0]);
    GrowKeeps(cfg, b1, w.error, draws[1..]);
    var (g, b2, rest) := Grow(cfg, b1, w.error, draws[1..]);
    assert OrphansOf(b2) == OrphansOf(b1);
    HandleOrphans(cfg, b2);
  }

  lemma OneSlotFitsInPlace<T>(cfg: Config, b: BucketState<T>, key: Pubkey, slots: seq<T>)
    requires Live(cfg, b)
    ensures Leaks(cfg, b, key, slots) ==> FitsInPlace(cfg, b, key, slots) && |b.data| > 0
  {
    if Leaks(cfg, b, key, slots) {
      assert EntryOk(cfg, key, Entries(b.index)[key], b.data);
    }
  }
}
