/** A bucket as an object, each method proved against what it does to the bucket's value. */
module Buckets {
  import opened Wrappers
  import opened PowersOfTwo
  import opened StorageModel
  import opened IndexModel
  import opened IndexGrowth
  import opened DataModel
  import opened DataGrowth
  import opened BucketModel
  import opened GrowthModel
  import opened Scans
  import opened BucketStorages

  type IndexStorage = BucketStorage<IndexEntry>
  type SlotStorage<T> = BucketStorage<seq<T>>

  // ---- index storages

  /** Probe the window of `key` for the locked cell that holds it. */
  method BucketFindEntry(cfg: Config, index: IndexStorage, key: Pubkey, random: u64) returns (r: Option<nat>)
    requires index.View().Valid()
    ensures r == FindEntry(cfg, index.View(), key, random)
  {
    var ix := Home(cfg, index.cells.Length, key, random);
    var d := 0;
    while d < cfg.maxSearch
      invariant 0 <= d <= cfg.maxSearch
      invariant FindKey(index.cells[..], key, ix, 0, cfg.maxSearch)
                == FindKey(index.cells[..], key, ix, d, cfg.maxSearch)
    {
      var ii := Slot(ix, d, index.cells.Length);
      var uid := index.Uid(ii);
      if uid != UID_UNLOCKED {
        var elem := index.Get(ii);
        if elem.key == key {
          return Some(ii);
        }
      }
      d := d + 1;
    }
    return None;
  }

  /** Lock the first free cell of the window of `key` and write a blank entry there. */
  method BucketCreateKey(cfg: Config, index: IndexStorage, key: Pubkey, uid: Uid, random: u64)
    returns (r: Result<nat, BucketMapError>)
    requires index.View().Valid() && uid != UID_UNLOCKED
    modifies index, index.cells
    ensures match CreateKey(cfg, old(index.View()), BlankEntry(key), uid, random)
            case Err(e) => r == Err(e) && index.View() == old(index.View())
            case Ok((ii, s)) => r == Ok(ii) && ii < index.cells.Length && index.View() == s
  {
    var ix := Home(cfg, index.cells.Length, key, random);
    var d := 0;
    while d < cfg.maxSearch
      invariant 0 <= d <= cfg.maxSearch && index.View() == old(index.View())
      invariant FirstFree(index.cells[..], ix, 0, cfg.maxSearch) == FirstFree(index.cells[..], ix, d, cfg.maxSearch)
    {
      var ii := Slot(ix, d, index.cells.Length);
      var current := index.Uid(ii);
      if current == UID_UNLOCKED {
        var locked := index.Allocate(ii, uid);
        assert locked.Ok?;
        index.Set(ii, BlankEntry(key));
        return Ok(ii);
      }
      d := d + 1;
    }
    return Err(IndexNoSpace(index.pow2));
  }

  /** Creating a blank entry and overwriting it is creating the entry. */
  lemma CreateThenPut(cfg: Config, s: Storage<IndexEntry>, entry: IndexEntry, uid: Uid, seed: u64)
    requires s.Valid() && uid != UID_UNLOCKED
    ensures match CreateKey(cfg, s, BlankEntry(entry.key), uid, seed)
            case Err(e) => CreateKey(cfg, s, entry, uid, seed) == Err(e)
            case Ok((ii, s')) => ii < |s'.cells| && CreateKey(cfg, s, entry, uid, seed) == Ok((ii, Put(s', ii, entry)))
  {
    var r := CreateKey(cfg, s, BlankEntry(entry.key), uid, seed);
    if r.Ok? {
      var (ii, s') := r.value;
      assert Put(Lock(s, ii, uid), ii, entry).cells == Put(s', ii, entry).cells;
    }
  }

  /** Copy every locked cell of `from` into `into` under a new seed; stop at the first that finds no room. */
  method RehashInto(cfg: Config, from: IndexStorage, into: IndexStorage, random: u64) returns (valid: bool)
    requires from.View().Valid() && into.View().Valid() && from != into && from.cells != into.cells
    modifies into, into.cells
    ensures match Rehash(cfg, from.View(), 0, old(into.View()), random)
            case None => !valid
            case Some(s) => valid && into.View() == s
  {
    valid := true;
    ghost var src := from.View();
    ghost var goal := Rehash(cfg, src, 0, into.View(), random);
    var ix := 0;
    while ix < from.cells.Length
      invariant 0 <= ix <= from.cells.Length && from.View() == src && into.View().Valid()
      invariant goal == Rehash(cfg, src, ix, into.View(), random)
    {
      var uid := from.Uid(ix);
      if UID_UNLOCKED != uid {
        var elem := from.Get(ix);
        ghost var before := into.View();
        CreateThenPut(cfg, before, elem, uid, random);
        var newIx := BucketCreateKey(cfg, into, elem.key, uid, random);
        if newIx.Err? {
          valid := false;
          return;
        }
        into.Set(newIx.value, elem);
      }
      ix := ix + 1;
    }
  }

  // ---- the bucket

  lemma EntryHeld<T>(cfg: Config, b: BucketState<T>, key: Pubkey, i: nat, best: nat)
    requires Live(cfg, b) && HoldsEntry(cfg, b, key, i) && best < |b.data|
    ensures EntryOk(cfg, key, b.index.cells[i].payload, b.data) && DataOk(b.data)
    ensures |b.data[best].cells| > 0
  {
    assert StorageOk(b.data[best], best);
  }

  class Bucket<T> {
    const cfg: Config
    const zero: T
    var index: IndexStorage
    var random: u64
    var data: seq<SlotStorage<T>>
    var active: nat
    var parkedIndex: Option<(u64, IndexStorage)>
    var parkedData: Option<(nat, SlotStorage<T>)>

    /** The objects the bucket is made of, and its value. */
    ghost var repr: set<object>
    ghost var view: BucketState<T>

    /** The storages in use are distinct objects of the bucket. */
    ghost predicate Separate()
      reads this
    {
      && this in repr && index in repr && index.cells in repr
      && (forall i :: 0 <= i < |data| ==> data[i] in repr && data[i].cells in repr)
      && (forall i :: 0 <= i < |data| ==> data[i] as object != index && data[i].cells as object != index.cells)
      && (forall i, j :: 0 <= i < j < |data| ==> data[i] != data[j] && data[i].cells != data[j].cells)
    }

    /** What is parked shares nothing with the storages in use. */
    ghost predicate ParkedSeparate()
      reads this
    {
      && (parkedIndex.Some? ==> Apart(parkedIndex.value.1, parkedIndex.value.1.cells))
      && (parkedData.Some? ==> Apart(parkedData.value.1, parkedData.value.1.cells))
      && (parkedIndex.Some? && parkedData.Some? ==>
            && parkedIndex.value.1 as object != parkedData.value.1
            && parkedIndex.value.1.cells as object != parkedData.value.1.cells)
    }

    ghost predicate Apart(s: object, cells: object)
      reads this
    {
      && s in repr && cells in repr && s != index && cells != index.cells && s != this && cells != this
      && forall i :: 0 <= i < |data| ==> data[i] as object != s && data[i].cells as object != cells
    }

    /** The value is that of the fields. */
    ghost predicate Represents()
      reads this, repr
      requires Separate() && ParkedSeparate()
    {
      && view.index == index.View() && view.random == random
      && |view.data| == |data| && (forall i :: 0 <= i < |data| ==> view.data[i] == data[i].View())
      && view.zero == zero && view.active == active
      && view.parkedIndex
         == (if parkedIndex.None? then None else Some((parkedIndex.value.0, parkedIndex.value.1.View())))
      && view.parkedData == (if parkedData.None? then None else Some((parkedData.value.0, parkedData.value.1.View())))
    }

    /** The fields are separate and the value is theirs. */
    ghost predicate Shape()
      reads this, repr
    {
      Separate() && ParkedSeparate() && Represents()
    }

    ghost predicate Valid()
      reads this, repr
    {
      Shape() && Inv(cfg, view)
    }

    constructor (cfg: Config, zero: T, random: u64)
      ensures Valid() && fresh(repr) && this.cfg == cfg
      ensures view == NewBucket(random, zero)
    {
      this.cfg, this.zero, this.random := cfg, zero, random;
      var index := new BucketStorage<IndexEntry>(1, DEFAULT_CAPACITY_POW2, ZeroEntry());
      this.index, data, active, parkedIndex, parkedData := index, [], 0, None, None;
      repr, view := {this, index, index.cells}, NewBucket(random, zero);
      NewBucketIsEmpty(cfg, random, zero);
    }

    method BucketLen() returns (n: int)
      requires Valid()
      ensures n == view.index.used == |Abs(cfg, view)|
    {
      KeysExact(cfg, view);
      n := index.used;
    }

    /** Every stored key, once. */
    method Keys() returns (rv: seq<Pubkey>)
      requires Valid()
      ensures rv == Scans.Keys(view)
      ensures NoDuplicates(rv) && forall k :: k in rv <==> k in Abs(cfg, view)
    {
      hide IndexInv, DataInv, Meaning;
      KeysExact(cfg, view);
      rv := [];
      for i := 0 to index.cells.Length
        invariant rv == KeysUpTo(view.index, i)
      {
        var uid := index.Uid(i);
        if uid == UID_UNLOCKED {
          continue;
        }
        var elem := index.Get(i);
        rv := rv + [elem.key];
      }
    }

    method FindEntryIx(key: Pubkey) returns (r: Option<nat>)
      requires Valid()
      ensures r == FindEntry(cfg, view.index, key, view.random)
    {
      r := BucketFindEntry(cfg, index, key, random);
    }

    /** The slots an entry of this bucket stands for. */
    method ReadSlots(elem: IndexEntry) returns (slots: seq<T>)
      requires Valid() && EntryOk(cfg, elem.key, elem, view.data)
      ensures slots == SlotsOf(elem, view.data)
    {
      var dataBucketIx := SizeClass(elem);
      var dataBucket := data[dataBucketIx];
      if elem.numSlots > 0 {
        var loc := Address(elem, dataBucket.pow2);
        var uid := dataBucket.Uid(loc);
        assert uid == KeyUid(cfg, elem.key);
        var cell := dataBucket.Get(loc);
        assert StorageOk(view.data[dataBucketIx], dataBucketIx);
        slots := cell[..elem.numSlots];
      } else {
        slots := [];
      }
    }

    method ReadValue(key: Pubkey) returns (r: Option<Value<T>>)
      requires Valid()
      ensures r == if key in Abs(cfg, view) then Some(Abs(cfg, view)[key]) else None
    {
      hide IndexInv, DataInv, Meaning;
      FoundEntry(cfg, view, key);
      var found := FindEntryIx(key);
      if found.None? {
        return None;
      }
      var elem := index.Get(found.value);
      var slots := ReadSlots(elem);
      return Some((slots, elem.refCount));
    }

    /** The items whose key is in range, each once, with what reading the key returns. */
    method ItemsInRange(range: KeyRange) returns (result: seq<BucketItem<T>>)
      requires Valid()
      ensures result == Scans.ItemsInRange(cfg, view, range)
      ensures NoDuplicates(Pubkeys(result))
      ensures forall k :: k in Pubkeys(result) <==> k in Abs(cfg, view) && (range.None? || range.value(k))
      ensures forall item :: item in result ==> ItemOk(cfg, view, item)
    {
      hide IndexInv, DataInv, Meaning, ParkedSeparate, ParkedOk, InRange, ItemOk;
      ItemsExact(cfg, view, range);
      result := [];
      for i := 0 to index.cells.Length
        invariant result == ItemsUpTo(cfg, view, range, i)
      {
        var uid := index.Uid(i);
        if uid == UID_UNLOCKED {
          continue;
        }
        var elem := index.Get(i);
        if InRange(range, elem.key) {
          LockedEntryOk(cfg, view, i);
          var slots := ReadSlots(elem);
          assert ItemAt(cfg, view, i) == BucketItem(elem.key, elem.refCount, slots);
          result := result + [BucketItem(elem.key, elem.refCount, slots)];
        }
      }
    }

    // ---- writing

    /** Overwrite an index entry. */
    method SetEntry(i: nat, e: IndexEntry)
      requires Shape() && i < index.cells.Length
      modifies this`view, index.cells
      ensures Shape() && view == old(view).(index := Put(old(view).index, i, e))
    {
      index.Set(i, e);
      view := view.(index := Put(view.index, i, e));
    }

    /** Overwrite the first elements of a data cell. */
    method SetSlots(b: nat, loc: nat, slots: seq<T>)
      requires Shape() && b < |data| && loc < data[b].cells.Length && |slots| <= |view.data[b].cells[loc].payload|
      modifies this`view, data[b].cells
      ensures Shape() && view == old(view).(data := WriteCell(old(view).data, b, loc, slots))
    {
      var cell := data[b].Get(loc);
      data[b].Set(loc, slots + cell[|slots|..]);
      view := view.(data := WriteCell(view.data, b, loc, slots));
    }

    method FreeDataCell(b: nat, loc: nat, uid: Uid)
      requires Shape() && b < |data| && loc < data[b].cells.Length && view.data[b].cells[loc].uid == uid != UID_UNLOCKED
      modifies this`view, data[b], data[b].cells
      ensures Shape() && view == old(view).(data := FreeCell(old(view).data, b, loc, uid))
    {
      data[b].Free(loc, uid);
      view := view.(data := FreeCell(view.data, b, loc, uid));
    }

    method LockDataCell(b: nat, loc: nat, uid: Uid)
      requires Shape() && b < |data| && loc < data[b].cells.Length && view.data[b].cells[loc].uid == UID_UNLOCKED != uid
      modifies this`view, data[b], data[b].cells
      ensures Shape() && view == old(view).(data := old(view).data[b := Lock(old(view).data[b], loc, uid)])
    {
      var locked := data[b].Allocate(loc, uid);
      assert locked.Ok?;
      view := view.(data := view.data[b := Lock(view.data[b], loc, uid)]);
    }

    method TakeDataCell(b: nat, loc: nat, uid: Uid, slots: seq<T>)
      requires Shape() && b < |data| && loc < data[b].cells.Length && |slots| <= |view.data[b].cells[loc].payload|
      requires view.data[b].cells[loc].uid == UID_UNLOCKED != uid
      modifies this`view, data[b], data[b].cells
      ensures Shape() && view == old(view).(data := TakeCell(old(view).data, b, loc, uid, slots))
    {
      LockDataCell(b, loc, uid);
      SetSlots(b, loc, slots);
    }

    /** Release the cell of an entry, if it has one, and store the new list, if it has any element, in cell `ix`. */
    method MoveSlots(elem: IndexEntry, uid: Uid, ix: nat, slots: seq<T>)
      requires Shape() && Placed(elem, view.data) && uid != UID_UNLOCKED
      requires elem.numSlots > 0 ==>
                 CellOf(elem, view.data).uid == uid && SizeClass(elem) != DataBucketFromNumSlots(|slots|)
      requires var b := DataBucketFromNumSlots(|slots|);
               b < |data| && ix < |view.data[b].cells| && view.data[b].cells[ix].uid == UID_UNLOCKED
               && |slots| <= |view.data[b].cells[ix].payload|
      modifies this`view, data[SizeClass(elem)], data[SizeClass(elem)].cells
      modifies data[DataBucketFromNumSlots(|slots|)], data[DataBucketFromNumSlots(|slots|)].cells
      ensures Shape() && view == old(view).(data := MoveCell(old(view).data, elem, uid, ix, slots))
    {
      var c := SizeClass(elem);
      if elem.numSlots > 0 {
        FreeDataCell(c, Address(elem, data[c].pow2), uid);
      }
      if |slots| > 0 {
        TakeDataCell(DataBucketFromNumSlots(|slots|), ix, uid, slots);
      }
    }

    /** Search for a free data cell from `pos` on. */
    method FindFreeCell(b: nat, pos: nat) returns (r: Option<nat>)
      requires Shape() && b < |data| && data[b].cells.Length > 0
      ensures r == FirstFree(view.data[b].cells, pos, 0, cfg.maxSearch)
    {
      var d := 0;
      while d < cfg.maxSearch
        invariant 0 <= d <= cfg.maxSearch
        invariant FirstFree(data[b].cells[..], pos, 0, cfg.maxSearch)
                  == FirstFree(data[b].cells[..], pos, d, cfg.maxSearch)
      {
        var ix := Slot(pos, d, data[b].cells.Length);
        var uid := data[b].Uid(ix);
        if uid == UID_UNLOCKED {
          return Some(ix);
        }
        d := d + 1;
      }
      return None;
    }

    /** Overwrite an entry's slots where they are. */
    method WriteInPlace(i: nat, elem: IndexEntry, uid: Uid, slots: seq<T>, rc: u64)
      requires Shape() && i < index.cells.Length && Placed(elem, view.data)
      requires CellOf(elem, view.data).uid == uid && |slots| <= |CellOf(elem, view.data).payload|
      modifies this`view, repr - {this}
      ensures Shape()
      ensures var c := SizeClass(elem);
              view == old(view).(index := Put(old(view).index, i, elem.(numSlots := |slots|, refCount := rc)),
                                 data := WriteCell(old(view).data, c, DataLoc(elem, old(view).data[c]), slots))
    {
      var c := SizeClass(elem);
      var loc := Address(elem, data[c].pow2);
      var cellUid := data[c].Uid(loc);
      assert cellUid == uid;
      SetEntry(i, elem.(numSlots := |slots|, refCount := rc));
      SetSlots(c, loc, slots);
    }

    /** Give the key of an entry a new cell for its slots. */
    method Relocate(i: nat, elem: IndexEntry, uid: Uid, ix: nat, slots: seq<T>, rc: u64)
      requires Shape() && i < index.cells.Length && Placed(elem, view.data) && uid != UID_UNLOCKED
      requires elem.numSlots > 0 ==>
                 CellOf(elem, view.data).uid == uid && SizeClass(elem) != DataBucketFromNumSlots(|slots|)
      requires var b := DataBucketFromNumSlots(|slots|);
               b < |data| && ix < |view.data[b].cells| && view.data[b].cells[ix].uid == UID_UNLOCKED
               && |slots| <= |view.data[b].cells[ix].payload|
      modifies this`view, repr - {this}
      ensures Shape()
      ensures var b := DataBucketFromNumSlots(|slots|);
              var e := IndexEntry(elem.key, rc, ix, old(view).data[b].pow2, |slots|);
              view == old(view).(index := Put(old(view).index, i, e),
                                 data := MoveCell(old(view).data, elem, uid, ix, slots))
    {
      SetEntry(i, IndexEntry(elem.key, rc, ix, data[DataBucketFromNumSlots(|slots|)].pow2, |slots|));
      MoveSlots(elem, uid, ix, slots);
    }

    /** Write at the index cell that holds the key's entry. */
    method WriteEntry(key: Pubkey, i: nat, slots: seq<T>, rc: u64, draw: u64) returns (r: Result<(), BucketMapError>)
      requires Shape() && Live(cfg, view) && HoldsEntry(cfg, view, key, i)
      requires DataBucketFromNumSlots(|slots|) < |data|
      modifies this`view, repr - {this}
      ensures Shape()
      ensures (r, view) == WriteAt(cfg, old(view), key, i, slots, rc, draw)
    {
      hide IndexInv, DataInv, Meaning, ParkedSeparate, ParkedOk, StorageOk;
      var best := DataBucketFromNumSlots(|slots|);
      EntryHeld(cfg, view, key, i, best);
      var elem := index.Get(i);
      var uid := index.Uid(i);
      if best == SizeClass(elem) && elem.numSlots > 0 {
        InPlaceWrite(cfg, Entries(view.index), view.data, key, slots, rc);
        WriteInPlace(i, elem, uid, slots, rc);
        r := Ok(());
      } else {
        var free := FindFreeCell(best, draw % data[best].cells.Length);
        if free.None? {
          SetEntry(i, elem.(refCount := rc));
          r := Err(DataNoSpace(best, data[best].pow2));
        } else {
          SlotsFit(view.data, best, free.value, |slots|);
          Relocate(i, elem, uid, free.value, slots, rc);
          r := Ok(());
        }
      }
    }

    /** Give `key` a blank entry in the index. */
    method CreateKeyIx(key: Pubkey) returns (r: Result<nat, BucketMapError>)
      requires Shape() && view.index.Valid()
      modifies this`view, index, index.cells
      ensures Shape()
      ensures match CreateKey(cfg, old(view).index, BlankEntry(key), KeyUid(cfg, key), view.random)
              case Err(e) => r == Err(e) && view == old(view)
              case Ok((ii, s)) => r == Ok(ii) && view == old(view).(index := s)
    {
      hide CreateKey, KeyUid;
      r := BucketCreateKey(cfg, index, key, KeyUid(cfg, key), random);
      view := view.(index := index.View());
    }

    method TryWrite(key: Pubkey, slots: seq<T>, rc: u64, draw: u64) returns (r: Result<(), BucketMapError>)
      requires Valid() && view.active != 1
      modifies this`view, repr - {this}
      ensures Valid()
      ensures (r, view) == BucketModel.TryWrite(cfg, old(view), key, slots, rc, draw)
    {
      hide IndexInv, DataInv, Meaning, ParkedSeparate, WriteAt, ParkedOk, WriteMeets, Current, CreateKey;
      TryWriteInv(cfg, view, key, slots, rc, draw);
      var best := DataBucketFromNumSlots(|slots|);
      if best >= |data| {
        // fail early, before an index entry is allocated
        return Err(DataNoSpace(best, 0));
      }
      FoundEntry(cfg, view, key);
      var found := FindEntryIx(key);
      if found.Some? {
        r := WriteEntry(key, found.value, slots, rc, draw);
      } else {
        KeyCreated(cfg, view, key);
        var created := CreateKeyIx(key);
        if created.Err? {
          return Err(created.error);
        }
        r := WriteEntry(key, created.value, slots, rc, draw);
      }
    }

    method DeleteKey(key: Pubkey)
      requires Valid() && view.active != 1
      modifies this`view, repr - {this}
      ensures Valid() && view == BucketModel.DeleteKey(cfg, old(view), key)
    {
      hide IndexInv, DataInv, Meaning, ParkedSeparate, FreeCell, Unlock;
      FoundEntry(cfg, view, key);
      DeleteKeyRefines(cfg, view, key);
      var found := FindEntryIx(key);
      if found.Some? {
        var elem := index.Get(found.value);
        var uid := index.Uid(found.value);
        RemoveEntry(found.value, elem, uid);
      }
    }

    /** Release an entry's data cell, if it has slots, and then the entry. */
    method RemoveEntry(i: nat, elem: IndexEntry, uid: Uid)
      requires Shape() && i < index.cells.Length && view.index.cells[i].uid == uid != UID_UNLOCKED
      requires Placed(elem, view.data) && (elem.numSlots > 0 ==> CellOf(elem, view.data).uid == uid)
      modifies this`view, repr - {this}
      ensures Shape()
      ensures var c := SizeClass(elem);
              view == old(view).(index := Unlock(old(view).index, i, uid),
                                 data := if elem.numSlots > 0
                                         then FreeCell(old(view).data, c, DataLoc(elem, old(view).data[c]), uid)
                                         else old(view).data)
    {
      if elem.numSlots > 0 {
        var c := SizeClass(elem);
        FreeDataCell(c, Address(elem, data[c].pow2), uid);
      }
      FreeEntry(i, uid);
    }

    method FreeEntry(i: nat, uid: Uid)
      requires Shape() && i < index.cells.Length && view.index.cells[i].uid == uid != UID_UNLOCKED
      modifies this`view, index, index.cells
      ensures Shape() && view == old(view).(index := Unlock(old(view).index, i, uid))
    {
      index.Free(i, uid);
      view := view.(index := Unlock(view.index, i, uid));
    }

    method AddRef(key: Pubkey) returns (r: Outcome<Option<u64>>)
      requires Valid() && view.active != 1
      modifies this`view, repr - {this}
      ensures Valid() && (r, view) == BucketModel.AddRef(cfg, old(view), key)
    {
      r := ChangeCount(key, Increment);
    }

    method UnRef(key: Pubkey) returns (r: Outcome<Option<u64>>)
      requires Valid() && view.active != 1
      modifies this`view, repr - {this}
      ensures Valid() && (r, view) == BucketModel.UnRef(cfg, old(view), key)
    {
      r := ChangeCount(key, Decrement);
    }

    method ChangeCount(key: Pubkey, f: u64 -> Option<u64>) returns (r: Outcome<Option<u64>>)
      requires Valid() && view.active != 1
      modifies this`view, repr - {this}
      ensures Valid() && (r, view) == SetCount(cfg, old(view), key, f)
    {
      hide IndexInv, DataInv, Meaning;
      SetCountRefines(cfg, view, key, f);
      var found := FindEntryIx(key);
      if found.None? {
        return Returned(None);
      }
      var elem := index.Get(found.value);
      var rc := f(elem.refCount);
      if rc.None? {
        return Panicked;
      }
      SetEntry(found.value, elem.(refCount := rc.value));
      return Returned(rc);
    }

    // ---- growing

    /** Park a larger copy of a data storage. */
    method GrowData(dataIndex: nat, currentCapacityPow2: nat) returns (g: GrowOutcome)
      requires Valid()
      modifies this`active, this`parkedData, this`repr, this`view
      ensures Valid() && fresh(repr - old(repr)) && old(repr) <= repr
      ensures (g, view) == GrowthModel.GrowData(cfg, old(view), dataIndex, currentCapacityPow2)
    {
      hide IndexInv, DataInv, Meaning, FirstFit, GrowthModel.GrowIndex;
      GrowKeeps(cfg, view, DataNoSpace(dataIndex, currentCapacityPow2), []);
      var pow2 := GrownPow2(currentCapacityPow2);
      if dataIndex < |data| && pow2 < data[dataIndex].pow2 {
        return GrowPanicked;
      }
      if active > 0 {
        active, view := active + 1, view.(active := view.active + 1);
        return GrowPanicked;
      }
      StoragesValid(cfg, view, dataIndex);
      var from := if dataIndex < |data| then Some(data[dataIndex]) else None;
      var s := NewResized(from, pow2, Pow2(dataIndex), seq(Pow2(dataIndex), _ => zero));
      ParkData(dataIndex, s);
      return Parked;
    }

    method ParkData(ix: nat, s: SlotStorage<T>)
      requires Shape() && parkedIndex.None? && s !in repr && s.cells !in repr
      modifies this`active, this`parkedData, this`repr, this`view
      ensures Shape() && repr == old(repr) + {s, s.cells}
      ensures view == old(view).(active := old(view).active + 1, parkedData := Some((ix, s.View())))
    {
      active, parkedData := active + 1, Some((ix, s));
      repr, view := repr + {s, s.cells}, view.(active := view.active + 1, parkedData := Some((ix, s.View())));
    }

    method ParkIndex(random: u64, s: IndexStorage)
      requires Shape() && s !in repr && s.cells !in repr
      modifies this`active, this`parkedIndex, this`repr, this`view
      ensures Shape() && repr == old(repr) + {s, s.cells}
      ensures view == old(view).(active := old(view).active + 1, parkedIndex := Some((random, s.View())))
    {
      active, parkedIndex := active + 1, Some((random, s));
      repr, view := repr + {s, s.cells}, view.(active := view.active + 1, parkedIndex := Some((random, s.View())));
    }

    /** Park an index re-hashed under the first seed that fits. */
    method GrowIndex(currentCapacityPow2: nat, seeds: seq<u64>) returns (g: GrowOutcome, rest: seq<u64>)
      requires Valid()
      modifies this`active, this`parkedIndex, this`repr, this`view
      ensures Valid() && fresh(repr - old(repr)) && old(repr) <= repr
      ensures (g, view, rest) == GrowthModel.GrowIndex(cfg, old(view), currentCapacityPow2, seeds)
    {
      hide IndexInv, DataInv, Meaning;
      GrowKeeps(cfg, view, IndexNoSpace(currentCapacityPow2), seeds);
      if index.pow2 != currentCapacityPow2 {
        return Ignored, seeds;
      }
      StoragesValid(cfg, view, 0);
      var fit: Option<(u64, IndexStorage)>;
      fit, rest := FirstFitting(cfg, index, seeds);
      if fit.None? {
        return OutOfSeeds, rest;
      }
      g := if active > 0 then GrowPanicked else Parked;
      ParkIndex(fit.value.0, fit.value.1);
    }

    /** Grow the piece that was reported full. */
    method Grow(err: BucketMapError, seeds: seq<u64>) returns (g: GrowOutcome, rest: seq<u64>)
      requires Valid()
      modifies this`active, this`parkedIndex, this`parkedData, this`repr, this`view
      ensures Valid() && fresh(repr - old(repr)) && old(repr) <= repr
      ensures (g, view, rest) == GrowthModel.Grow(cfg, old(view), err, seeds)
    {
      match err
      case DataNoSpace(dataIndex, currentCapacityPow2) =>
        g := GrowData(dataIndex, currentCapacityPow2);
        rest := seeds;
      case IndexNoSpace(currentCapacityPow2) =>
        g, rest := GrowIndex(currentCapacityPow2, seeds);
    }

    /** Add empty data storages for the classes below `ix` that are missing. */
    method PushGaps(ix: nat)
      requires Shape() && |data| <= ix
      modifies this`data, this`repr, this`view
      ensures Shape() && fresh(repr - old(repr)) && old(repr) <= repr && |data| == ix
      ensures view == old(view).(data := old(view).data + Gaps(|old(data)|, ix, zero))
    {
      ghost var n := |data|;
      ghost var before := view.data;
      assert before + Gaps(n, n, zero) == before;
      while |data| < ix
        invariant n <= |data| <= ix && Shape() && fresh(repr - old(repr)) && old(repr) <= repr
        invariant view == old(view).(data := before + Gaps(n, |data|, zero))
      {
        PushGap();
        GapsAppend(n, |data| - 1, zero);
      }
    }

    method PushGap()
      requires Shape()
      modifies this`data, this`repr, this`view
      ensures Shape() && fresh(repr - old(repr)) && old(repr) <= repr && |data| == |old(data)| + 1
      ensures view == old(view).(data := old(view).data + [FreshData(DEFAULT_CAPACITY_POW2, |old(data)|, zero)])
    {
      var i := |data|;
      var s := new BucketStorage<seq<T>>(Pow2(i), DEFAULT_CAPACITY_POW2, seq(Pow2(i), _ => zero));
      data := data + [s];
      repr, view := repr + {s, s.cells}, view.(data := view.data + [s.View()]);
    }

    /** Install the one growth that is waiting. */
    method HandleDelayedGrows()
      requires Valid()
      modifies this
      ensures Valid() && fresh(repr - old(repr)) && old(repr) <= repr && view.active != 1
      ensures view == GrowthModel.HandleDelayedGrows(cfg, old(view))
    {
      hide IndexInv, DataInv, Meaning;
      HandleKeeps(cfg, view);
      if active == 1 {
        if parkedIndex.Some? {
          ApplyGrowIndex();
        } else {
          var ix := parkedData.value.0;
          if ix < |data| {
            ReplaceData(ix);
          } else {
            PushGaps(ix);
            AppendData();
          }
        }
      }
    }

    method ApplyGrowIndex()
      requires Shape() && active == 1 && parkedIndex.Some?
      modifies this
      ensures Shape() && repr == old(repr)
      ensures view == old(view).(index := old(view).parkedIndex.value.1, random := old(view).parkedIndex.value.0,
                                 active := 0, parkedIndex := None, parkedData := None)
    {
      random, index := parkedIndex.value.0, parkedIndex.value.1;
      active, parkedIndex, parkedData := 0, None, None;
      view := view.(index := view.parkedIndex.value.1, random := view.parkedIndex.value.0,
                    active := 0, parkedIndex := None, parkedData := None);
    }

    method ReplaceData(ix: nat)
      requires Shape() && active == 1 && parkedIndex.None? && parkedData.Some? && ix == parkedData.value.0 < |data|
      modifies this
      ensures Shape() && repr == old(repr)
      ensures view == old(view).(data := old(view).data[ix := old(view).parkedData.value.1],
                                 active := 0, parkedIndex := None, parkedData := None)
    {
      data := data[ix := parkedData.value.1];
      active, parkedData := 0, None;
      view := view.(data := view.data[ix := view.parkedData.value.1],
                    active := 0, parkedIndex := None, parkedData := None);
    }

    method AppendData()
      requires Shape() && active == 1 && parkedIndex.None? && parkedData.Some?
      modifies this
      ensures Shape() && repr == old(repr)
      ensures view == old(view).(data := old(view).data + [old(view).parkedData.value.1],
                                 active := 0, parkedIndex := None, parkedData := None)
    {
      data := data + [parkedData.value.1];
      active, parkedData := 0, None;
      view := view.(data := view.data + [view.parkedData.value.1],
                    active := 0, parkedIndex := None, parkedData := None);
    }

    // ---- insert and update

    /** One round of the insert loop; no outcome means that it has to be repeated. */
    method TryInsert(key: Pubkey, slots: seq<T>, rc: u64, draws: seq<u64>)
      returns (o: Option<InsertOutcome>, rest: seq<u64>)
      requires Valid() && view.active != 1 && draws != []
      modifies repr
      ensures Valid() && fresh(repr - old(repr)) && old(repr) <= repr && view.active != 1
      ensures match InsertRound(cfg, old(view), key, slots, rc, draws)
              case Wrote(next, more) => o == Some(Done) && view == next && rest == more
              case Halted(outcome, next, more) => o == Some(outcome) && view == next && rest == more
              case Retry(_, next, more) => o == None && view == next && rest == more
    {
      hide IndexInv, DataInv, Meaning, Represents, ParkedSeparate;
      TryWriteInv(cfg, view, key, slots, rc, draws[0]);
      var r := TryWrite(key, slots, rc, draws[0]);
      if r.Ok? {
        return Some(Done), draws[1..];
      }
      GrowKeeps(cfg, view, r.error, draws[1..]);
      var g: GrowOutcome;
      g, rest := Grow(r.error, draws[1..]);
      if g == GrowPanicked {
        return Some(InsertPanicked), rest;
      }
      if g == OutOfSeeds {
        return Some(OutOfDraws), rest;
      }
      HandleDelayedGrows();
      return None, rest;
    }

    /** Write, and on failure grow and try again. */
    method Insert(key: Pubkey, slots: seq<T>, rc: u64, draws: seq<u64>) returns (o: InsertOutcome, rest: seq<u64>)
      requires Valid() && view.active != 1
      modifies repr
      ensures Valid() && fresh(repr - old(repr)) && view.active != 1
      ensures (o, view, rest) == GrowthModel.Insert(cfg, old(view), key, slots, rc, draws)
    {
      hide Inv, InsertRound, Separate, ParkedSeparate;
      rest := draws;
      while rest != []
        invariant Valid() && fresh(repr - old(repr)) && old(repr) <= repr && view.active != 1
        invariant GrowthModel.Insert(cfg, old(view), key, slots, rc, draws)
                  == GrowthModel.Insert(cfg, view, key, slots, rc, rest)
        decreases |rest|
      {
        var done: Option<InsertOutcome>;
        done, rest := TryInsert(key, slots, rc, rest);
        if done.Some? {
          return done.value, rest;
        }
      }
      return OutOfDraws, [];
    }

    /** Replace a key's value by what `updatefn` makes of it; nothing deletes the key. */
    method Update(key: Pubkey, updatefn: Option<Value<T>> -> Option<Value<T>>, draws: seq<u64>)
      returns (o: InsertOutcome)
      requires Valid() && view.active != 1
      modifies repr
      ensures Valid() && fresh(repr - old(repr)) && view.active != 1
      ensures match updatefn(BucketModel.ReadValue(cfg, old(view), key))
              case None => o == Done && view == BucketModel.DeleteKey(cfg, old(view), key)
              case Some((slots, rc)) => (o, view) == (GrowthModel.Insert(cfg, old(view), key, slots, rc, draws).0,
                                                      GrowthModel.Insert(cfg, old(view), key, slots, rc, draws).1)
    {
      var current := ReadValue(key);
      var val := updatefn(current);
      if val.None? {
        DeleteKey(key);
        return Done;
      }
      var rest: seq<u64>;
      o, rest := Insert(key, val.value.0, val.value.1, draws);
    }
  }

  lemma {:induction false} GapsAppend<T>(from: nat, until: nat, zero: T)
    requires from <= until
    ensures Gaps(from, until + 1, zero) == Gaps(from, until, zero) + [FreshData(DEFAULT_CAPACITY_POW2, until, zero)]
    decreases until - from
  {
    if from < until {
      GapsAppend(from + 1, until, zero);
    }
  }

  lemma StoragesValid<T>(cfg: Config, b: BucketState<T>, ix: nat)
    requires Live(cfg, b)
    ensures b.index.Valid() && (ix < |b.data| ==> b.data[ix].Valid())
  {
    assert ix < |b.data| ==> StorageOk(b.data[ix], ix);
  }

  /** Re-hash into ever larger tables, one seed each, until every entry finds room. */
  method FirstFitting(cfg: Config, index: IndexStorage, seeds: seq<u64>)
    returns (fit: Option<(u64, IndexStorage)>, rest: seq<u64>)
    requires index.View().Valid()
    ensures fit.Some? ==> fresh(fit.value.1) && fresh(fit.value.1.cells)
    ensures FirstFit(cfg, index.View(), 1, seeds)
            == (if fit.Some? then Some((fit.value.0, fit.value.1.View())) else None, rest)
  {
    rest := seeds;
    var i := 1;
    while rest != []
      invariant i >= 1 && FirstFit(cfg, index.View(), 1, seeds) == FirstFit(cfg, index.View(), i, rest)
      decreases |rest|
    {
      var into := new BucketStorage<IndexEntry>(1, index.pow2 + i, ZeroEntry());
      var random := rest[0];
      rest := rest[1..];
      var valid := RehashInto(cfg, index, into, random);
      if valid {
        return Some((random, into)), rest;
      }
      i := i + 1;
    }
    return None, [];
  }
}
