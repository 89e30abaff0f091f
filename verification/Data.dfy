/**
 * The data storages of a bucket: storage `b` has cells of `2^b` elements, and an index entry names
 * its cell by an offset that stays valid while the storage grows.
 */
module DataModel {
  import opened PowersOfTwo
  import opened StorageModel
  import opened IndexModel

  type DataStorage<T> = Storage<seq<T>>

  /** What a slot list reads as: its elements and the key's reference count. */
  type Value<T> = (seq<T>, u64)

  // ---- size classes

  /** Which data storage holds a list of `n` slots: the ceiling of the base-two logarithm, and 0 for 0. */
  function DataBucketFromNumSlots(n: nat): (b: nat)
    ensures n <= Pow2(b) && (b > 0 ==> Pow2(b - 1) < n)
  {
    if n <= 1 then 0 else 1 + DataBucketFromNumSlots((n + 1) / 2)
  }

  lemma SizeClassIsLeast(n: nat, b: nat)
    ensures n <= Pow2(b) <==> DataBucketFromNumSlots(n) <= b
  {
    var c := DataBucketFromNumSlots(n);
    if c <= b {
      Pow2Monotone(c, b);
    } else {
      Pow2Monotone(b, c - 1);
    }
  }

  function SizeClass(e: IndexEntry): nat {
    DataBucketFromNumSlots(e.numSlots)
  }

  // ---- addresses

  /** The cell an entry names in a storage that has grown to `2^pow2` cells since the entry was placed. */
  function Address(e: IndexEntry, pow2: nat): nat
    requires e.createdPow2 <= pow2
  {
    e.storageOffset * Pow2(pow2 - e.createdPow2)
  }

  function DataLoc<T>(e: IndexEntry, s: DataStorage<T>): nat
    requires e.createdPow2 <= s.pow2
  {
    Address(e, s.pow2)
  }

  lemma LocInRange<T>(e: IndexEntry, s: DataStorage<T>)
    requires e.createdPow2 <= s.pow2 && e.storageOffset < Pow2(e.createdPow2)
    ensures DataLoc(e, s) < Pow2(s.pow2)
  {
    var step := Pow2(s.pow2 - e.createdPow2);
    Pow2Adds(e.createdPow2, s.pow2 - e.createdPow2);
    MultipleDistance(Pow2(e.createdPow2), e.storageOffset, step);
  }

  // ---- invariant

  ghost predicate StorageOk<T>(s: DataStorage<T>, b: nat) {
    && s.Valid() && s.pow2 >= DEFAULT_CAPACITY_POW2 && s.numElems == Pow2(b)
    && forall i :: 0 <= i < |s.cells| ==> |s.cells[i].payload| == Pow2(b)
  }

  ghost predicate DataOk<T>(data: seq<DataStorage<T>>) {
    forall b :: 0 <= b < |data| ==> StorageOk(data[b], b)
  }

  /** The entry's storage exists and the entry's address lies inside it. */
  ghost predicate Placed<T>(e: IndexEntry, data: seq<DataStorage<T>>) {
    && SizeClass(e) < |data|
    && e.createdPow2 <= data[SizeClass(e)].pow2
    && DataLoc(e, data[SizeClass(e)]) < |data[SizeClass(e)].cells|
    && e.storageOffset < Pow2(e.createdPow2)
  }

  /** In sound storages the range of the address need not be asked for: it follows from where the entry was placed. */
  lemma PlacedExactly<T>(e: IndexEntry, data: seq<DataStorage<T>>)
    requires DataOk(data)
    ensures Placed(e, data) <==>
              && SizeClass(e) < |data| && e.createdPow2 <= data[SizeClass(e)].pow2
              && e.storageOffset < Pow2(e.createdPow2)
  {
    if SizeClass(e) < |data| && e.createdPow2 <= data[SizeClass(e)].pow2 && e.storageOffset < Pow2(e.createdPow2) {
      assert StorageOk(data[SizeClass(e)], SizeClass(e));
      LocInRange(e, data[SizeClass(e)]);
    }
  }

  function CellOf<T>(e: IndexEntry, data: seq<DataStorage<T>>): Cell<seq<T>>
    requires Placed(e, data)
  {
    var s := data[SizeClass(e)];
    s.cells[DataLoc(e, s)]
  }

  ghost predicate EntryOk<T>(cfg: Config, key: Pubkey, e: IndexEntry, data: seq<DataStorage<T>>) {
    && e.key == key
    && Placed(e, data)
    && (e.numSlots > 0 ==> CellOf(e, data).uid == KeyUid(cfg, key))
  }

  /** The entry has slots, and they live in cell `loc` of storage `b`. */
  ghost predicate OwnsCell<T>(e: IndexEntry, data: seq<DataStorage<T>>, b: int, loc: int) {
    e.numSlots > 0 && Placed(e, data) && SizeClass(e) == b && DataLoc(e, data[SizeClass(e)]) == loc
  }

  ghost predicate DistinctCells<T>(entries: map<Pubkey, IndexEntry>, data: seq<DataStorage<T>>) {
    forall k, k', b, loc ::
      k in entries && OwnsCell(entries[k], data, b, loc) && k' in entries && OwnsCell(entries[k'], data, b, loc) ==>
        k == k'
  }

  ghost predicate DataInv<T>(cfg: Config, entries: map<Pubkey, IndexEntry>, data: seq<DataStorage<T>>) {
    && DataOk(data)
    && (forall k :: k in entries ==> EntryOk(cfg, k, entries[k], data))
    && DistinctCells(entries, data)
  }

  // ---- abstraction

  function SlotsOf<T>(e: IndexEntry, data: seq<DataStorage<T>>): seq<T>
    requires DataOk(data) && Placed(e, data)
  {
    if e.numSlots > 0 then CellOf(e, data).payload[..e.numSlots] else []
  }

  /** The map from key to slot list and reference count that entries and data storages mean. */
  ghost function Meaning<T>(cfg: Config, entries: map<Pubkey, IndexEntry>, data: seq<DataStorage<T>>)
    : map<Pubkey, Value<T>>
    requires DataInv(cfg, entries, data)
  {
    map k | k in entries :: (SlotsOf(entries[k], data), entries[k].refCount)
  }

  // ---- changing one cell

  /** `data'` differs from `data` in cell `loc` of storage `b` only. */
  ghost predicate OneCellDiffers<T>(data: seq<DataStorage<T>>, data': seq<DataStorage<T>>, b: nat, loc: nat) {
    && |data'| == |data| && b < |data| && loc < |data[b].cells| == |data'[b].cells|
    && data' == data[b := data'[b]]
    && data'[b].pow2 == data[b].pow2 && data'[b].numElems == data[b].numElems
    && data'[b].cells == data[b].cells[loc := data'[b].cells[loc]]
    && |data'[b].cells[loc].payload| == |data[b].cells[loc].payload|
  }

  lemma OneCellKeepsOk<T>(data: seq<DataStorage<T>>, data': seq<DataStorage<T>>, b: nat, loc: nat)
    requires DataOk(data) && OneCellDiffers(data, data', b, loc)
    ensures DataOk(data')
  {
    forall b' | 0 <= b' < |data'|
      ensures StorageOk(data'[b'], b')
    {
      assert StorageOk(data[b'], b');
    }
  }

  /** Entries keep their addresses; those that do not own the changed cell keep their contents too. */
  lemma OneCellKeepsEntry<T>(data: seq<DataStorage<T>>, data': seq<DataStorage<T>>, b: nat, loc: nat, e: IndexEntry)
    requires DataOk(data) && DataOk(data') && OneCellDiffers(data, data', b, loc) && Placed(e, data)
    ensures Placed(e, data')
    ensures forall c, l :: OwnsCell(e, data', c, l) <==> OwnsCell(e, data, c, l)
    ensures e.numSlots > 0 && !OwnsCell(e, data, b, loc) ==> CellOf(e, data') == CellOf(e, data)
    ensures !OwnsCell(e, data, b, loc) ==> SlotsOf(e, data') == SlotsOf(e, data)
  {
  }

  /** An entry that keeps clear of the changed cell is unaffected. */
  lemma OneCellKeepsOther<T>(cfg: Config, k: Pubkey, e: IndexEntry, data: seq<DataStorage<T>>,
                             data': seq<DataStorage<T>>, b: nat, loc: nat)
    requires DataOk(data) && DataOk(data') && OneCellDiffers(data, data', b, loc)
    requires EntryOk(cfg, k, e, data) && !OwnsCell(e, data, b, loc)
    ensures EntryOk(cfg, k, e, data') && SlotsOf(e, data') == SlotsOf(e, data)
    ensures forall c, l :: OwnsCell(e, data', c, l) <==> OwnsCell(e, data, c, l)
  {
    OneCellKeepsEntry(data, data', b, loc, e);
  }

  /**
   * Re-pointing key `k` at `e` after changing one cell: the invariant survives if every other entry
   * keeps clear of that cell and of the cell `e` owns.
   */
  lemma OneCellUpdate<T>(cfg: Config, entries: map<Pubkey, IndexEntry>, data: seq<DataStorage<T>>,
                         data': seq<DataStorage<T>>, b: nat, loc: nat, k: Pubkey, e: IndexEntry)
    requires DataInv(cfg, entries, data) && OneCellDiffers(data, data', b, loc)
    requires EntryOk(cfg, k, e, data')
    requires forall k' :: k' in entries && k' != k ==> !OwnsCell(entries[k'], data, b, loc)
    requires forall k', c, l :: k' in entries && k' != k && OwnsCell(e, data', c, l) ==>
               !OwnsCell(entries[k'], data, c, l)
    ensures DataInv(cfg, entries[k := e], data')
    ensures Meaning(cfg, entries[k := e], data') == Meaning(cfg, entries, data)[k := (SlotsOf(e, data'), e.refCount)]
  {
    OneCellKeepsOk(data, data', b, loc);
    forall k' | k' in entries && k' != k
      ensures EntryOk(cfg, k', entries[k'], data') && SlotsOf(entries[k'], data') == SlotsOf(entries[k'], data)
      ensures forall c, l :: OwnsCell(entries[k'], data', c, l) <==> OwnsCell(entries[k'], data, c, l)
    {
      assert EntryOk(cfg, k', entries[k'], data);
      OneCellKeepsOther(cfg, k', entries[k'], data, data', b, loc);
    }
    RepointedStaysDistinct(entries, data, data', k, e);
  }

  lemma RepointedStaysDistinct<T>(entries: map<Pubkey, IndexEntry>, data: seq<DataStorage<T>>,
                                  data': seq<DataStorage<T>>, k: Pubkey, e: IndexEntry)
    requires DistinctCells(entries, data)
    requires forall k', c, l :: k' in entries && k' != k ==>
               (OwnsCell(entries[k'], data', c, l) <==> OwnsCell(entries[k'], data, c, l))
    requires forall k', c, l :: k' in entries && k' != k && OwnsCell(e, data', c, l) ==>
               !OwnsCell(entries[k'], data, c, l)
    ensures DistinctCells(entries[k := e], data')
  {
  }

  // ---- the writes

  /** Overwrite the first `|slots|` elements of a cell. */
  function WriteSlice<T>(s: DataStorage<T>, ix: nat, slots: seq<T>): DataStorage<T>
    requires ix < |s.cells| && |slots| <= |s.cells[ix].payload|
  {
    Put(s, ix, slots + s.cells[ix].payload[|slots|..])
  }

  /** Storage `b` with one cell's slots replaced. */
  function WriteCell<T>(data: seq<DataStorage<T>>, b: nat, loc: nat, slots: seq<T>): seq<DataStorage<T>>
    requires b < |data| && loc < |data[b].cells| && |slots| <= |data[b].cells[loc].payload|
  {
    data[b := WriteSlice(data[b], loc, slots)]
  }

  /** Storage `b` with one cell released. */
  function FreeCell<T>(data: seq<DataStorage<T>>, b: nat, loc: nat, uid: Uid): seq<DataStorage<T>>
    requires b < |data| && loc < |data[b].cells| && data[b].cells[loc].uid == uid != UID_UNLOCKED
  {
    data[b := Unlock(data[b], loc, uid)]
  }

  /** Storage `b` with one free cell taken and filled. */
  function TakeCell<T>(data: seq<DataStorage<T>>, b: nat, loc: nat, uid: Uid, slots: seq<T>): seq<DataStorage<T>>
    requires b < |data| && loc < |data[b].cells| && |slots| <= |data[b].cells[loc].payload|
    requires data[b].cells[loc].uid == UID_UNLOCKED != uid
  {
    data[b := WriteSlice(Lock(data[b], loc, uid), loc, slots)]
  }

  lemma FreeCellUnowned<T>(cfg: Config, entries: map<Pubkey, IndexEntry>, data: seq<DataStorage<T>>, b: nat, loc: nat)
    requires DataInv(cfg, entries, data)
    requires b < |data| && loc < |data[b].cells| && data[b].cells[loc].uid == UID_UNLOCKED
    ensures forall k :: k in entries ==> !OwnsCell(entries[k], data, b, loc)
  {
    forall k | k in entries
      ensures !OwnsCell(entries[k], data, b, loc)
    {
      assert EntryOk(cfg, k, entries[k], data);
    }
  }

  /** A list fits the cells of its own size class. */
  lemma SlotsFit<T>(data: seq<DataStorage<T>>, b: nat, loc: nat, n: nat)
    requires DataOk(data) && b < |data| && loc < |data[b].cells| && DataBucketFromNumSlots(n) == b
    ensures n <= |data[b].cells[loc].payload|
  {
    assert StorageOk(data[b], b);
  }

  /** The entry of a key that holds no slots yet. */
  lemma BlankPlaced<T>(cfg: Config, data: seq<DataStorage<T>>, k: Pubkey)
    requires DataOk(data) && |data| > 0
    ensures EntryOk(cfg, k, BlankEntry(k), data)
  {
    assert StorageOk(data[0], 0);
  }

  lemma AddBlank<T>(cfg: Config, entries: map<Pubkey, IndexEntry>, data: seq<DataStorage<T>>, k: Pubkey)
    requires DataInv(cfg, entries, data) && |data| > 0 && k !in entries
    ensures DataInv(cfg, entries[k := BlankEntry(k)], data)
    ensures Meaning(cfg, entries[k := BlankEntry(k)], data) == Meaning(cfg, entries, data)[k := ([], 0)]
  {
    BlankPlaced(cfg, data, k);
  }

  /** Changing only the reference count of a stored key. */
  lemma SetRefCount<T>(cfg: Config, entries: map<Pubkey, IndexEntry>, data: seq<DataStorage<T>>, k: Pubkey, rc: u64)
    requires DataInv(cfg, entries, data) && k in entries
    ensures var e := entries[k].(refCount := rc);
            && DataInv(cfg, entries[k := e], data)
            && Meaning(cfg, entries[k := e], data) == Meaning(cfg, entries, data)[k := (SlotsOf(entries[k], data), rc)]
  {
    var e := entries[k].(refCount := rc);
    assert EntryOk(cfg, k, entries[k], data);
    assert forall b, l :: OwnsCell(e, data, b, l) <==> OwnsCell(entries[k], data, b, l);
    RepointedStaysDistinct(entries, data, data, k, e);
  }

  lemma InPlaceWrite<T>(cfg: Config, entries: map<Pubkey, IndexEntry>, data: seq<DataStorage<T>>,
                        k: Pubkey, slots: seq<T>, rc: u64)
    requires DataInv(cfg, entries, data) && k in entries && entries[k].numSlots > 0
    requires DataBucketFromNumSlots(|slots|) == SizeClass(entries[k])
    ensures EntryOk(cfg, k, entries[k], data)
    ensures |slots| <= |CellOf(entries[k], data).payload|
    ensures var e := entries[k].(numSlots := |slots|, refCount := rc);
            var b := SizeClass(entries[k]);
            var data' := WriteCell(data, b, DataLoc(entries[k], data[b]), slots);
            && DataInv(cfg, entries[k := e], data')
            && Meaning(cfg, entries[k := e], data') == Meaning(cfg, entries, data)[k := (slots, rc)]
  {
    assert EntryOk(cfg, k, entries[k], data);
    var e := entries[k].(numSlots := |slots|, refCount := rc);
    var b := SizeClass(entries[k]);
    var loc := DataLoc(entries[k], data[b]);
    SlotsFit(data, b, loc, |slots|);
    var data' := WriteCell(data, b, loc, slots);
    assert OwnsCell(entries[k], data, b, loc);
    assert OneCellDiffers(data, data', b, loc);
    assert SlotsOf(e, data') == slots by {
      assert (slots + data[b].cells[loc].payload[|slots|..])[..|slots|] == slots;
    }
    OneCellUpdate(cfg, entries, data, data', b, loc, k, e);
  }

  /** First half of a move: the old cell is released, leaving the key without slots. */
  lemma Release<T>(cfg: Config, entries: map<Pubkey, IndexEntry>, data: seq<DataStorage<T>>, k: Pubkey)
    requires DataInv(cfg, entries, data) && k in entries && entries[k].numSlots > 0
    ensures EntryOk(cfg, k, entries[k], data)
    ensures var b := SizeClass(entries[k]);
            var data' := FreeCell(data, b, DataLoc(entries[k], data[b]), KeyUid(cfg, k));
            && DataInv(cfg, entries[k := BlankEntry(k)], data')
            && Meaning(cfg, entries[k := BlankEntry(k)], data') == Meaning(cfg, entries, data)[k := ([], 0)]
  {
    assert EntryOk(cfg, k, entries[k], data);
    var b := SizeClass(entries[k]);
    var loc := DataLoc(entries[k], data[b]);
    var data' := FreeCell(data, b, loc, KeyUid(cfg, k));
    assert OwnsCell(entries[k], data, b, loc);
    assert OneCellDiffers(data, data', b, loc);
    OneCellKeepsOk(data, data', b, loc);
    BlankPlaced(cfg, data', k);
    OneCellUpdate(cfg, entries, data, data', b, loc, k, BlankEntry(k));
  }

  /** Second half of a move: a key without slots takes a free cell of the right size class. */
  lemma Occupy<T>(cfg: Config, entries: map<Pubkey, IndexEntry>, data: seq<DataStorage<T>>,
                  k: Pubkey, ix: nat, slots: seq<T>, rc: u64)
    requires DataInv(cfg, entries, data) && k in entries
    requires DataBucketFromNumSlots(|slots|) < |data|
    requires var s := data[DataBucketFromNumSlots(|slots|)]; ix < |s.cells| && s.cells[ix].uid == UID_UNLOCKED
    ensures var b := DataBucketFromNumSlots(|slots|);
            var e := IndexEntry(k, rc, ix, data[b].pow2, |slots|);
            && |slots| <= |data[b].cells[ix].payload|
            && (var data' := if |slots| > 0 then TakeCell(data, b, ix, KeyUid(cfg, k), slots) else data;
                && DataInv(cfg, entries[k := e], data')
                && Meaning(cfg, entries[k := e], data') == Meaning(cfg, entries, data)[k := (slots, rc)])
  {
    var b := DataBucketFromNumSlots(|slots|);
    var e := IndexEntry(k, rc, ix, data[b].pow2, |slots|);
    SlotsFit(data, b, ix, |slots|);
    assert StorageOk(data[b], b);
    assert DataLoc(e, data[b]) == ix;
    var data' := if |slots| > 0 then TakeCell(data, b, ix, KeyUid(cfg, k), slots) else data;
    assert OneCellDiffers(data, data', b, ix);
    OneCellKeepsOk(data, data', b, ix);
    FreeCellUnowned(cfg, entries, data, b, ix);
    assert SlotsOf(e, data') == slots by {
      if |slots| > 0 {
        assert (slots + data[b].cells[ix].payload[|slots|..])[..|slots|] == slots;
      }
    }
    OneCellUpdate(cfg, entries, data, data', b, ix, k, e);
  }

  /** Release the entry's cell, if it has one, and store the new list, if it has any element, in cell `ix`. */
  function MoveCell<T>(data: seq<DataStorage<T>>, e: IndexEntry, uid: Uid, ix: nat, slots: seq<T>): seq<DataStorage<T>>
    requires Placed(e, data) && uid != UID_UNLOCKED
    requires e.numSlots > 0 ==> CellOf(e, data).uid == uid && SizeClass(e) != DataBucketFromNumSlots(|slots|)
    requires var b := DataBucketFromNumSlots(|slots|);
             && b < |data| && ix < |data[b].cells| && data[b].cells[ix].uid == UID_UNLOCKED
             && |slots| <= |data[b].cells[ix].payload|
  {
    var b := DataBucketFromNumSlots(|slots|);
    var c := SizeClass(e);
    var freed := if e.numSlots > 0 then FreeCell(data, c, DataLoc(e, data[c]), uid) else data;
    if |slots| > 0 then TakeCell(freed, b, ix, uid, slots) else freed
  }

  lemma MoveWrite<T>(cfg: Config, entries: map<Pubkey, IndexEntry>, data: seq<DataStorage<T>>,
                     k: Pubkey, ix: nat, slots: seq<T>, rc: u64)
    requires DataInv(cfg, entries, data) && k in entries
    requires var b := DataBucketFromNumSlots(|slots|);
             && b < |data| && ix < |data[b].cells| && data[b].cells[ix].uid == UID_UNLOCKED
             && |slots| <= |data[b].cells[ix].payload|
    requires entries[k].numSlots > 0 ==> SizeClass(entries[k]) != DataBucketFromNumSlots(|slots|)
    ensures EntryOk(cfg, k, entries[k], data)
    ensures var e := IndexEntry(k, rc, ix, data[DataBucketFromNumSlots(|slots|)].pow2, |slots|);
            var data' := MoveCell(data, entries[k], KeyUid(cfg, k), ix, slots);
            && DataInv(cfg, entries[k := e], data')
            && Meaning(cfg, entries[k := e], data') == Meaning(cfg, entries, data)[k := (slots, rc)]
  {
    assert EntryOk(cfg, k, entries[k], data);
    if entries[k].numSlots > 0 {
      ReleaseAndOccupy(cfg, entries, data, k, ix, slots, rc);
    } else {
      Occupy(cfg, entries, data, k, ix, slots, rc);
    }
  }

  lemma ReleaseAndOccupy<T>(cfg: Config, entries: map<Pubkey, IndexEntry>, data: seq<DataStorage<T>>,
                            k: Pubkey, ix: nat, slots: seq<T>, rc: u64)
    requires DataInv(cfg, entries, data) && k in entries && EntryOk(cfg, k, entries[k], data)
    requires var b := DataBucketFromNumSlots(|slots|);
             && b < |data| && ix < |data[b].cells| && data[b].cells[ix].uid == UID_UNLOCKED
             && |slots| <= |data[b].cells[ix].payload|
    requires entries[k].numSlots > 0 && SizeClass(entries[k]) != DataBucketFromNumSlots(|slots|)
    ensures var e := IndexEntry(k, rc, ix, data[DataBucketFromNumSlots(|slots|)].pow2, |slots|);
            var data' := MoveCell(data, entries[k], KeyUid(cfg, k), ix, slots);
            && DataInv(cfg, entries[k := e], data')
            && Meaning(cfg, entries[k := e], data') == Meaning(cfg, entries, data)[k := (slots, rc)]
  {
    var c := SizeClass(entries[k]);
    var freed := FreeCell(data, c, DataLoc(entries[k], data[c]), KeyUid(cfg, k));
    Release(cfg, entries, data, k);
    var released := entries[k := BlankEntry(k)];
    Occupy(cfg, released, freed, k, ix, slots, rc);
    var e := IndexEntry(k, rc, ix, data[DataBucketFromNumSlots(|slots|)].pow2, |slots|);
    UpdateTwice(entries, k, BlankEntry(k), e);
    UpdateTwice(Meaning(cfg, entries, data), k, ([], 0), (slots, rc));
  }

  lemma UpdateTwice<K, V>(m: map<K, V>, k: K, v: V, w: V)
    ensures m[k := v][k := w] == m[k := w]
  {
  }

  /** Dropping a key, whose cell (if it has one) must have been released. */
  lemma DropKey<T>(cfg: Config, entries: map<Pubkey, IndexEntry>, data: seq<DataStorage<T>>, k: Pubkey)
    requires DataInv(cfg, entries, data)
    ensures DataInv(cfg, entries - {k}, data)
    ensures Meaning(cfg, entries - {k}, data) == Meaning(cfg, entries, data) - {k}
  {
    var entries' := entries - {k};
    forall k' | k' in entries'
      ensures EntryOk(cfg, k', entries'[k'], data)
    {
      assert EntryOk(cfg, k', entries[k'], data);
    }
  }

  lemma ReleaseAndDrop<T>(cfg: Config, entries: map<Pubkey, IndexEntry>, data: seq<DataStorage<T>>, k: Pubkey)
    requires DataInv(cfg, entries, data) && k in entries && entries[k].numSlots > 0
    ensures EntryOk(cfg, k, entries[k], data)
    ensures var b := SizeClass(entries[k]);
            var data' := FreeCell(data, b, DataLoc(entries[k], data[b]), KeyUid(cfg, k));
            && DataInv(cfg, entries - {k}, data')
            && Meaning(cfg, entries - {k}, data') == Meaning(cfg, entries, data) - {k}
  {
    Release(cfg, entries, data, k);
    var b := SizeClass(entries[k]);
    DropKey(cfg, entries[k := BlankEntry(k)], FreeCell(data, b, DataLoc(entries[k], data[b]), KeyUid(cfg, k)), k);
    RemoveUpdated(entries, k, BlankEntry(k));
    RemoveUpdated(Meaning(cfg, entries, data), k, ([], 0));
  }

  lemma RemoveUpdated<K, V>(m: map<K, V>, k: K, v: V)
    ensures m[k := v] - {k} == m - {k}
  {
  }
}
