/** A storage file as an object: cells updated in place, a count of the locked ones. */
module BucketStorages {
  import opened Wrappers
  import opened PowersOfTwo
  import opened StorageModel

  datatype BucketStorageError = AlreadyAllocated

  class BucketStorage<E> {
    const pow2: nat
    const numElems: nat
    const cells: array<Cell<E>>
    var used: int

    ghost function View(): Storage<E>
      reads this, cells
    {
      Storage(pow2, numElems, cells[..], used)
    }

    constructor (numElems: nat, pow2: nat, zero: E)
      ensures fresh(cells)
      ensures View() == Fresh(pow2, numElems, zero)
    {
      this.numElems, this.pow2, used := numElems, pow2, 0;
      cells := new Cell<E>[Pow2(pow2)](_ => Cell(UID_UNLOCKED, zero));
    }

    method Uid(ix: nat) returns (uid: Uid)
      requires ix < cells.Length
      ensures uid == View().cells[ix].uid
    {
      uid := cells[ix].uid;
    }

    /** Take the header of cell `ix` if it is free. */
    method Allocate(ix: nat, uid: Uid) returns (r: Result<(), BucketStorageError>)
      requires ix < cells.Length && uid != UID_UNLOCKED
      modifies this, cells
      ensures r.Ok? <==> old(View()).cells[ix].uid == UID_UNLOCKED
      ensures View() == if r.Ok? then Lock(old(View()), ix, uid) else old(View())
    {
      r := Err(AlreadyAllocated);
      if cells[ix].uid == UID_UNLOCKED {
        cells[ix] := cells[ix].(uid := uid);
        r := Ok(());
        used := used + 1;
      }
    }

    /** Release the header of cell `ix`, which must hold `uid`. */
    method Free(ix: nat, uid: Uid)
      requires ix < cells.Length && View().cells[ix].uid == uid != UID_UNLOCKED
      modifies this, cells
      ensures View() == Unlock(old(View()), ix, uid)
    {
      var previousUid := cells[ix].uid;
      cells[ix] := cells[ix].(uid := UID_UNLOCKED);
      assert previousUid == uid;
      used := used - 1;
    }

    method Get(ix: nat) returns (payload: E)
      requires ix < cells.Length
      ensures payload == View().cells[ix].payload
    {
      payload := cells[ix].payload;
    }

    /** Overwrite what follows the header of cell `ix`. */
    method Set(ix: nat, payload: E)
      requires ix < cells.Length
      modifies cells
      ensures View() == Put(old(View()), ix, payload)
    {
      cells[ix] := cells[ix].(payload := payload);
    }

    /** Copy every cell of `from` to the cell `1 << increment` times as far in. */
    method CopyContents(from: BucketStorage<E>, zero: E)
      requires from.cells != cells
      requires from.View().Valid() && from.pow2 <= pow2 && View() == Fresh(pow2, numElems, zero)
      modifies cells
      ensures View() == Resized(Some(from.View()), pow2, numElems, zero)
    {
      var indexGrow := Pow2(pow2 - from.pow2);
      ghost var blank := Cell(UID_UNLOCKED, zero);
      ghost var src := from.cells[..];
      Pow2Adds(from.pow2, pow2 - from.pow2);
      var i := 0;
      assert cells[..] == Spread(src[..0], cells.Length, indexGrow, blank);
      while i < from.cells.Length
        invariant 0 <= i <= from.cells.Length && from.cells[..] == src
        invariant cells[..] == Spread(src[..i], cells.Length, indexGrow, blank)
      {
        SpreadGrows(src, cells.Length, indexGrow, blank, i);
        cells[i * indexGrow] := from.cells[i];
        i := i + 1;
      }
      assert src[..i] == src;
    }
  }

  /** Copying one more cell. */
  lemma SpreadGrows<C>(src: seq<C>, n: nat, step: nat, blank: C, i: nat)
    requires step > 0 && i < |src| && n == |src| * step
    ensures i * step < n
    ensures Spread(src[..i + 1], n, step, blank) == Spread(src[..i], n, step, blank)[i * step := src[i]]
  {
    SpreadAt(src, n, step, blank, i);
    var a, b := Spread(src[..i + 1], n, step, blank), Spread(src[..i], n, step, blank)[i * step := src[i]];
    forall j | 0 <= j < n
      ensures a[j] == b[j]
    {
      MultipleDivides(i, step);
      assert j == (j / step) * step + j % step;
    }
  }

  /** A storage of `2^pow2` cells with the contents of `from`, if there is one. */
  method NewResized<E>(from: Option<BucketStorage<E>>, pow2: nat, numElems: nat, zero: E) returns (s: BucketStorage<E>)
    requires from.Some? ==> from.value.View().Valid() && from.value.pow2 <= pow2
    ensures fresh(s) && fresh(s.cells)
    ensures s.View() == Resized(if from.Some? then Some(from.value.View()) else None, pow2, numElems, zero)
  {
    s := new BucketStorage(numElems, pow2, zero);
    if from.Some? {
      s.CopyContents(from.value, zero);
    }
  }
}
