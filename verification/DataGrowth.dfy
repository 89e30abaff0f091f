/** Data growth: old cells are spread out, and entries find them again by scaling their offsets. */
module DataGrowth {
  import opened Wrappers
  import opened PowersOfTwo
  import opened StorageModel
  import opened IndexModel
  import opened DataModel

  /** Contents of a data storage of class `b` that has just been created. */
  function FreshData<T>(pow2: nat, b: nat, zero: T): DataStorage<T> {
    Fresh(pow2, Pow2(b), seq(Pow2(b), _ => zero))
  }

  /** Contents of the storage that replaces class `b` when it grows to `2^pow2` cells. */
  function GrownData<T>(data: seq<DataStorage<T>>, b: nat, pow2: nat, zero: T): (s: DataStorage<T>)
    requires b < |data| ==> data[b].Valid() && data[b].pow2 <= pow2
  {
    Resized(if b < |data| then Some(data[b]) else None, pow2, Pow2(b), seq(Pow2(b), _ => zero))
  }

  /** Empty storages of the classes from `from` up to, not including, `until`. */
  function Gaps<T>(from: nat, until: nat, zero: T): (r: seq<DataStorage<T>>)
    ensures |r| == if from < until then until - from else 0
    decreases until - from
  {
    if from >= until then []
    else [FreshData(DEFAULT_CAPACITY_POW2, from, zero)] + Gaps(from + 1, until, zero)
  }

  /** Install a grown storage, first adding empty storages for the classes that are still missing. */
  function ApplyGrowData<T>(data: seq<DataStorage<T>>, b: nat, s: DataStorage<T>, zero: T): (r: seq<DataStorage<T>>)
    ensures b < |r| && r[b] == s && |r| == if b < |data| then |data| else b + 1
  {
    if b < |data| then data[b := s] else data + Gaps(|data|, b, zero) + [s]
  }

  lemma {:induction false} GapsOk<T>(from: nat, until: nat, zero: T, i: nat)
    requires from + i < until
    ensures StorageOk(Gaps(from, until, zero)[i], from + i)
    decreases until - from
  {
    if i > 0 {
      GapsOk(from + 1, until, zero, i - 1);
    }
  }

  lemma {:induction false} GapAt<T>(from: nat, until: nat, zero: T, i: nat)
    requires from + i < until
    ensures Gaps(from, until, zero)[i] == FreshData(5, from + i, zero)
    decreases until - from
  {
    if i > 0 {
      GapAt(from + 1, until, zero, i - 1);
    }
  }

  // ---- growing an existing class

  /** Cell `i` of the old storage is cell `i << increment` of the new one. */
  lemma GrownCellAt<T>(s: DataStorage<T>, pow2: nat, zero: seq<T>, numElems: nat, i: nat)
    requires s.Valid() && s.pow2 <= pow2 && i < |s.cells|
    ensures var s' := Resized(Some(s), pow2, numElems, zero);
            && i * Pow2(pow2 - s.pow2) < |s'.cells|
            && s'.cells[i * Pow2(pow2 - s.pow2)] == s.cells[i]
  {
    Pow2Adds(s.pow2, pow2 - s.pow2);
    SpreadAt(s.cells, Pow2(pow2), Pow2(pow2 - s.pow2), Cell(UID_UNLOCKED, zero), i);
  }

  lemma GrownOk<T>(data: seq<DataStorage<T>>, b: nat, pow2: nat, zero: T)
    requires DataOk(data) && pow2 >= DEFAULT_CAPACITY_POW2
    requires b < |data| ==> data[b].pow2 <= pow2
    ensures b < |data| ==> StorageOk(data[b], b)
    ensures StorageOk(GrownData(data, b, pow2, zero), b)
  {
    assert b < |data| ==> StorageOk(data[b], b);
  }

  /** Lazy re-addressing agrees with the copy: scaling the offset is scaling the cell number. */
  lemma AddressesScale<T>(e: IndexEntry, s: DataStorage<T>, s': DataStorage<T>)
    requires e.createdPow2 <= s.pow2 <= s'.pow2
    ensures DataLoc(e, s') == DataLoc(e, s) * Pow2(s'.pow2 - s.pow2)
  {
    var x, y := s.pow2 - e.createdPow2, s'.pow2 - s.pow2;
    Pow2Adds(x, y);
    MulAssociates(e.storageOffset, Pow2(x), Pow2(y));
  }

  lemma MulAssociates(a: int, b: int, c: int)
    ensures a * (b * c) == a * b * c
  {
  }

  /** Every entry reads the same cell contents before and after its storage has grown. */
  lemma GrownEntry<T>(e: IndexEntry, data: seq<DataStorage<T>>, b: nat, pow2: nat, zero: T)
    requires DataOk(data) && b < |data| && data[b].pow2 <= pow2 && pow2 >= DEFAULT_CAPACITY_POW2 && Placed(e, data)
    ensures StorageOk(data[b], b)
    ensures var data' := data[b := GrownData(data, b, pow2, zero)];
            && DataOk(data') && Placed(e, data')
            && CellOf(e, data') == CellOf(e, data) && SlotsOf(e, data') == SlotsOf(e, data)
            && (SizeClass(e) == b ==> DataLoc(e, data'[b]) == DataLoc(e, data[b]) * Pow2(pow2 - data[b].pow2))
  {
    GrownOk(data, b, pow2, zero);
    var s' := GrownData(data, b, pow2, zero);
    var data' := data[b := s'];
    forall b' | 0 <= b' < |data'|
      ensures StorageOk(data'[b'], b')
    {
      assert b' != b ==> StorageOk(data[b'], b');
    }
    if SizeClass(e) == b {
      AddressesScale(e, data[b], s');
      GrownCellAt(data[b], pow2, seq(Pow2(b), _ => zero), Pow2(b), DataLoc(e, data[b]));
    }
  }

  lemma GrowthKeepsMeaning<T>(cfg: Config, entries: map<Pubkey, IndexEntry>, data: seq<DataStorage<T>>,
                              b: nat, pow2: nat, zero: T)
    requires DataInv(cfg, entries, data) && b < |data| && data[b].pow2 <= pow2 && pow2 >= DEFAULT_CAPACITY_POW2
    ensures StorageOk(data[b], b)
    ensures var data' := data[b := GrownData(data, b, pow2, zero)];
            && DataInv(cfg, entries, data')
            && Meaning(cfg, entries, data') == Meaning(cfg, entries, data)
  {
    GrownOk(data, b, pow2, zero);
    var data' := data[b := GrownData(data, b, pow2, zero)];
    assert DataOk(data') by {
      forall b' | 0 <= b' < |data'|
        ensures StorageOk(data'[b'], b')
      {
        assert b' != b ==> StorageOk(data[b'], b');
      }
    }
    var step := Pow2(pow2 - data[b].pow2);
    forall k | k in entries
      ensures EntryOk(cfg, k, entries[k], data') && SlotsOf(entries[k], data') == SlotsOf(entries[k], data)
    {
      assert EntryOk(cfg, k, entries[k], data);
      GrownEntry(entries[k], data, b, pow2, zero);
    }
    assert DistinctCells(entries, data') by {
      forall k, k', c, loc | k in entries && k' in entries && OwnsCell(entries[k], data', c, loc)
        && OwnsCell(entries[k'], data', c, loc)
        ensures k == k'
      {
        GrownStaysDistinct(cfg, entries, data, b, pow2, zero, k, k', c, loc);
      }
    }
  }

  lemma GrownStaysDistinct<T>(cfg: Config, entries: map<Pubkey, IndexEntry>, data: seq<DataStorage<T>>,
                              b: nat, pow2: nat, zero: T, k: Pubkey, k': Pubkey, c: int, loc: int)
    requires DataInv(cfg, entries, data) && b < |data| && data[b].pow2 <= pow2 && pow2 >= DEFAULT_CAPACITY_POW2
    requires data[b].Valid() && k in entries && k' in entries
    requires var data' := data[b := GrownData(data, b, pow2, zero)];
             OwnsCell(entries[k], data', c, loc) && OwnsCell(entries[k'], data', c, loc)
    ensures k == k'
  {
    assert EntryOk(cfg, k, entries[k], data) && EntryOk(cfg, k', entries[k'], data);
    var e, e' := entries[k], entries[k'];
    GrownEntry(e, data, b, pow2, zero);
    GrownEntry(e', data, b, pow2, zero);
    var l, l' := DataLoc(e, data[c]), DataLoc(e', data[c]);
    if c == b {
      var step := Pow2(pow2 - data[b].pow2);
      DivisionIsUnique(loc, step, l, 0, l', 0);
    }
    assert OwnsCell(e, data, c, l) && OwnsCell(e', data, c, l);
  }

  // ---- adding a missing class

  lemma ExtensionKeepsEntry<T>(cfg: Config, k: Pubkey, e: IndexEntry, data: seq<DataStorage<T>>,
                               data': seq<DataStorage<T>>)
    requires EntryOk(cfg, k, e, data) && DataOk(data) && DataOk(data') && data <= data'
    ensures EntryOk(cfg, k, e, data') && SlotsOf(e, data') == SlotsOf(e, data)
    ensures forall b, l :: OwnsCell(e, data', b, l) <==> OwnsCell(e, data, b, l)
  {
    assert data'[SizeClass(e)] == data[SizeClass(e)];
  }

  lemma ExtensionKeepsMeaning<T>(cfg: Config, entries: map<Pubkey, IndexEntry>, data: seq<DataStorage<T>>,
                                 data': seq<DataStorage<T>>)
    requires DataInv(cfg, entries, data) && DataOk(data') && data <= data'
    ensures DataInv(cfg, entries, data')
    ensures Meaning(cfg, entries, data') == Meaning(cfg, entries, data)
  {
    hide OwnsCell, SlotsOf;
    forall k | k in entries
      ensures EntryOk(cfg, k, entries[k], data') && SlotsOf(entries[k], data') == SlotsOf(entries[k], data)
      ensures forall b, l :: OwnsCell(entries[k], data', b, l) <==> OwnsCell(entries[k], data, b, l)
    {
      assert EntryOk(cfg, k, entries[k], data);
      ExtensionKeepsEntry(cfg, k, entries[k], data, data');
    }
  }

  lemma ExtensionOk<T>(data: seq<DataStorage<T>>, b: nat, s: DataStorage<T>, zero: T)
    requires DataOk(data) && StorageOk(s, b)
    ensures DataOk(ApplyGrowData(data, b, s, zero))
  {
    var data' := ApplyGrowData(data, b, s, zero);
    forall i | 0 <= i < |data'|
      ensures StorageOk(data'[i], i)
    {
      if i != b && i < |data| {
        assert StorageOk(data[i], i);
      } else if i != b {
        GapsOk(|data|, b, zero, i - |data|);
      }
    }
  }

  /** Applying a grown storage changes no key's slots and no reference count. */
  lemma ApplyKeepsMeaning<T>(cfg: Config, entries: map<Pubkey, IndexEntry>, data: seq<DataStorage<T>>,
                             b: nat, pow2: nat, zero: T)
    requires DataInv(cfg, entries, data) && pow2 >= DEFAULT_CAPACITY_POW2
    requires b < |data| ==> data[b].Valid() && data[b].pow2 <= pow2
    ensures var data' := ApplyGrowData(data, b, GrownData(data, b, pow2, zero), zero);
            && DataInv(cfg, entries, data')
            && Meaning(cfg, entries, data') == Meaning(cfg, entries, data)
  {
    if b < |data| {
      GrowthKeepsMeaning(cfg, entries, data, b, pow2, zero);
    } else {
      var s := GrownData(data, b, pow2, zero);
      GrownOk(data, b, pow2, zero);
      ExtensionOk(data, b, s, zero);
      ExtensionKeepsMeaning(cfg, entries, data, ApplyGrowData(data, b, s, zero));
    }
  }

  // ---- growth makes room

  /** Every odd cell is free. */
  ghost predicate OddCellsFree<T>(s: DataStorage<T>) {
    forall i :: 0 <= i < |s.cells| && i % 2 == 1 ==> s.cells[i].uid == UID_UNLOCKED
  }

  lemma GrownOddCellsFree<T>(data: seq<DataStorage<T>>, b: nat, pow2: nat, zero: T)
    requires b < |data| ==> data[b].Valid() && data[b].pow2 < pow2
    ensures OddCellsFree(GrownData(data, b, pow2, zero))
  {
    if b < |data| {
      var step := Pow2(pow2 - data[b].pow2);
      forall i | 0 <= i && i % 2 == 1
        ensures i % step != 0
      {
        ModParity(i, step);
      }
    }
  }

  /** Reducing modulo an even number keeps parity. */
  lemma ModParity(x: nat, n: nat)
    requires n > 0 && n % 2 == 0
    ensures (x % n) % 2 == x % 2
  {
    var q, r := x / n, x % n;
    assert x == q * n + r;
    assert q * n == 2 * (q * (n / 2));
  }

  /** One of two neighbouring cells is odd. */
  lemma OddSlot(start: nat, n: nat) returns (d: nat)
    requires n > 0 && n % 2 == 0
    ensures d < 2 && Slot(start, d, n) % 2 == 1
  {
    d := if start % 2 == 1 then 0 else 1;
    ModParity(start + d, n);
  }

  /** With a window of two or more cells, the window has a free cell from any start. */
  lemma OddCellsServe<T>(s: DataStorage<T>, start: nat, m: nat)
    requires s.Valid() && s.pow2 > 0 && OddCellsFree(s) && m >= 2
    ensures exists i :: InWindow(start, m, |s.cells|, i) && s.cells[i].uid == 0
  {
    var n := |s.cells|;
    var d := OddSlot(start % n, n);
    SlotIsInWindow(start, d, n);
    RemainderBelow(d, n);
    assert InWindow(start, m, n, Slot(start % n, d, n));
  }
}
