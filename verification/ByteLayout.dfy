/** Where cells, headers and slot lists lie in the bytes of a storage file. */
module ByteLayout {
  import opened PowersOfTwo
  import opened StorageModel
  import opened IndexModel
  import opened DataModel
  import opened BucketStorages

  const HEADER_SIZE: nat := 8

  function CellSize(elemSize: nat, numElems: nat): (size: nat) {
    elemSize * numElems + HEADER_SIZE
  }

  lemma CellInBounds(size: nat, ix: nat, n: nat)
    requires ix < n
    ensures ix * size + size <= n * size
  {
    MultipleDistance(n, ix, size);
  }

  /** Elements that fit the cell's size class end before the next cell. */
  lemma ElementsFit(elemSize: nat, len: nat, numElems: nat, ix: nat, n: nat)
    requires len <= numElems && ix < n
    ensures var size := CellSize(elemSize, numElems);
            size * ix == ix * size && ix * size + HEADER_SIZE + elemSize * len <= ix * size + size <= n * size
  {
    var size := CellSize(elemSize, numElems);
    CellInBounds(size, ix, n);
    assert elemSize * len <= elemSize * numElems;
  }

  // ---- slot lists in their cells

  /** First byte of a slot list. */
  function SliceStart<T>(e: IndexEntry, data: seq<DataStorage<T>>, elemSize: nat): nat
    requires Placed(e, data)
  {
    var s := data[SizeClass(e)];
    CellSize(elemSize, s.numElems) * DataLoc(e, s) + HEADER_SIZE
  }

  function SliceEnd<T>(e: IndexEntry, data: seq<DataStorage<T>>, elemSize: nat): nat
    requires Placed(e, data)
  {
    SliceStart(e, data, elemSize) + elemSize * e.numSlots
  }

  /** A stored slot list lies behind its own header and ends inside its own cell, which lies inside the file. */
  lemma SliceInOwnCell<T>(cfg: Config, entries: map<Pubkey, IndexEntry>, data: seq<DataStorage<T>>, key: Pubkey,
                          elemSize: nat)
    requires DataInv(cfg, entries, data) && key in entries
    ensures var e := entries[key];
            var s := data[SizeClass(e)];
            var size := CellSize(elemSize, s.numElems);
            && size == elemSize * Pow2(SizeClass(e)) + 8
            && DataLoc(e, s) * size + 8 == SliceStart(e, data, elemSize)
            && SliceEnd(e, data, elemSize) == SliceStart(e, data, elemSize) + elemSize * e.numSlots
            && SliceEnd(e, data, elemSize) <= DataLoc(e, s) * size + size <= |s.cells| * size
  {
    var e := entries[key];
    assert EntryOk(cfg, key, e, data);
    hide DataLoc, CellSize, DistinctCells;
    var s := data[SizeClass(e)];
    assert StorageOk(s, SizeClass(e));
    assert e.numSlots <= s.numElems;
    ElementsFit(elemSize, e.numSlots, s.numElems, DataLoc(e, s), |s.cells|);
  }

  /** The slot lists of two keys never share a byte of a file. */
  lemma SlicesAreApart<T>(cfg: Config, entries: map<Pubkey, IndexEntry>, data: seq<DataStorage<T>>, k: Pubkey,
                          k': Pubkey, elemSize: nat)
    requires DataInv(cfg, entries, data) && k in entries && k' in entries && k != k'
    requires entries[k].numSlots > 0 && entries[k'].numSlots > 0 && SizeClass(entries[k]) == SizeClass(entries[k'])
    ensures || SliceEnd(entries[k], data, elemSize) <= SliceStart(entries[k'], data, elemSize)
            || SliceEnd(entries[k'], data, elemSize) <= SliceStart(entries[k], data, elemSize)
  {
    var e, e' := entries[k], entries[k'];
    SliceInOwnCell(cfg, entries, data, k, elemSize);
    SliceInOwnCell(cfg, entries, data, k', elemSize);
    var s := data[SizeClass(e)];
    var i, i', size := DataLoc(e, s), DataLoc(e', s), CellSize(elemSize, s.numElems);
    assert i != i' by {
      assert OwnsCell(e, data, SizeClass(e), i);
      assert i == i' ==> OwnsCell(e', data, SizeClass(e), i);
    }
    if i < i' {
      MultipleDistance(i', i, size);
    } else {
      MultipleDistance(i, i', size);
    }
  }

  // ---- copying a file

  function Blank(size: nat): seq<byte> {
    seq(size, _ => 0)
  }

  function CellBytes(file: seq<byte>, size: nat, ix: nat): (r: seq<byte>)
    requires ix * size + size <= |file|
    ensures |r| == size
  {
    file[ix * size..ix * size + size]
  }

  /** The cells a file is made of. */
  function CellsOf(file: seq<byte>, size: nat, n: nat): (r: seq<seq<byte>>)
    requires |file| == n * size
    ensures |r| == n
  {
    seq(n, ix requires 0 <= ix < n => CellInBounds(size, ix, n); CellBytes(file, size, ix))
  }

  /** Overwriting exactly the bytes of one cell replaces that cell and no other. */
  lemma OneCellWritten(prev: seq<byte>, file: seq<byte>, size: nat, n: nat, ix: nat, cell: seq<byte>)
    requires |prev| == |file| == n * size && ix < n && |cell| == size
    requires ix * size + size <= |file|
    requires forall p :: 0 <= p < |file| ==>
                           file[p] == if ix * size <= p < ix * size + size then cell[p - ix * size] else prev[p]
    ensures CellsOf(file, size, n) == CellsOf(prev, size, n)[ix := cell]
  {
    var a, b := CellsOf(file, size, n), CellsOf(prev, size, n)[ix := cell];
    forall j | 0 <= j < n
      ensures a[j] == b[j]
    {
      CellInBounds(size, j, n);
      if j < ix {
        MultipleDistance(ix, j, size);
      } else if j > ix {
        MultipleDistance(j, ix, size);
      }
    }
  }

  lemma BlankCell(file: seq<byte>, size: nat, n: nat, j: nat)
    requires |file| == n * size && j < n && forall p :: 0 <= p < |file| ==> file[p] == 0
    ensures CellsOf(file, size, n)[j] == Blank(size)
  {
    CellInBounds(size, j, n);
    var start := j * size;
    assert CellsOf(file, size, n)[j] == file[start..start + size];
  }

  lemma EmptySpread<C>(n: nat, step: nat, blank: C, j: nat)
    requires step > 0 && j < n
    ensures Spread([], n, step, blank)[j] == blank
  {
  }

  lemma BlankFile(file: seq<byte>, size: nat, n: nat, step: nat)
    requires |file| == n * size && step > 0 && forall p :: 0 <= p < |file| ==> file[p] == 0
    ensures CellsOf(file, size, n) == Spread([], n, step, Blank(size))
  {
    hide CellsOf, Spread, Blank;
    var a, b := CellsOf(file, size, n), Spread([], n, step, Blank(size));
    forall j | 0 <= j < n
      ensures a[j] == b[j]
    {
      BlankCell(file, size, n, j);
      EmptySpread(n, step, Blank(size), j);
    }
  }

  lemma SameProduct(i: nat, size: nat, step: nat)
    ensures (i * size) * step == (i * step) * size
  {
  }

  /** The byte range copied for cell `i` is the whole of cell `i << increment` of the new file. */
  method CopyCell(from: array<byte>, oldCap: nat, file: array<byte>, ghost newCap: nat, size: nat, i: nat,
                  indexGrow: nat)
    requires from != file && from.Length == oldCap * size && file.Length == newCap * size
    requires i < oldCap && i * indexGrow < newCap
    modifies file
    ensures CellsOf(file[..], size, newCap)
            == CellsOf(old(file[..]), size, newCap)[i * indexGrow := CellsOf(from[..], size, oldCap)[i]]
  {
    CellInBounds(size, i, oldCap);
    CellInBounds(size, i * indexGrow, newCap);
    SameProduct(i, size, indexGrow);
    var oldIx := i * size;
    var newIx := oldIx * indexGrow;
    forall k | 0 <= k < size {
      file[newIx + k] := from[oldIx + k];
    }
    OneCellWritten(old(file[..]), file[..], size, newCap, i * indexGrow, from[oldIx..oldIx + size]);
  }

  /** Copying byte ranges moves whole cells: cell `i` of the old file becomes cell `i << increment` of the new one. */
  method CopyFile(from: array<byte>, fromPow2: nat, file: array<byte>, pow2: nat, size: nat)
    requires from != file && fromPow2 <= pow2
    requires from.Length == Pow2(fromPow2) * size && file.Length == Pow2(pow2) * size
    requires forall p :: 0 <= p < file.Length ==> file[p] == 0
    modifies file
    ensures CellsOf(file[..], size, Pow2(pow2))
            == Spread(CellsOf(from[..], size, Pow2(fromPow2)), Pow2(pow2), Pow2(pow2 - fromPow2), Blank(size))
  {
    hide Spread, Pow2, CellsOf;
    var indexGrow, oldCap := Pow2(pow2 - fromPow2), Pow2(fromPow2);
    ghost var src := CellsOf(from[..], size, oldCap);
    ghost var n := Pow2(pow2);
    ghost var blank := Blank(size);
    Pow2Adds(fromPow2, pow2 - fromPow2);
    BlankFile(file[..], size, n, indexGrow);
    var i := 0;
    assert src[..i] == [];
    while i < oldCap
      invariant 0 <= i <= oldCap
      invariant CellsOf(file[..], size, n) == Spread(src[..i], n, indexGrow, blank)
    {
      SpreadGrows(src, n, indexGrow, blank, i);
      CopyCell(from, oldCap, file, n, size, i, indexGrow);
      i := i + 1;
    }
    assert src[..i] == src;
  }
}
