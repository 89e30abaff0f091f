/** Values stored by the bucket map, and what each storage operation does to a storage's contents. */
module StorageModel {
  import opened Wrappers
  import opened PowersOfTwo

  type byte = x: int | 0 <= x < 0x100
  type u64 = x: int | 0 <= x < 0x1_0000_0000_0000_0000

  /** A public key: thirty-two bytes. */
  type Pubkey = bytes: seq<byte> | |bytes| == 32 witness seq(32, _ => 0)

  type Uid = u64

  /** A header holding this uid is unlocked. */
  const UID_UNLOCKED: Uid := 0

  const DEFAULT_CAPACITY_POW2: nat := 5

  /** One cell: its header's lock word and what follows the header. */
  datatype Cell<E> = Cell(uid: Uid, payload: E)

  /** The contents of one storage file: `2^pow2` cells, each holding `numElems` elements. */
  datatype Storage<E> = Storage(pow2: nat, numElems: nat, cells: seq<Cell<E>>, used: int) {

    predicate Valid() {
      |cells| == Pow2(pow2)
    }

    predicate IsLocked(i: int) {
      0 <= i < |cells| && cells[i].uid != UID_UNLOCKED
    }
  }

  /** A new file is all zero, hence unlocked everywhere. */
  function Fresh<E>(pow2: nat, numElems: nat, zero: E): (s: Storage<E>)
    ensures s.Valid()
  {
    Storage(pow2, numElems, seq(Pow2(pow2), _ => Cell(UID_UNLOCKED, zero)), 0)
  }

  ghost function LockedCells<E>(s: Storage<E>): set<int> {
    set i | 0 <= i < |s.cells| && s.cells[i].uid != UID_UNLOCKED
  }

  /** Take a free header. */
  function Lock<E>(s: Storage<E>, ix: nat, uid: Uid): Storage<E>
    requires ix < |s.cells| && s.cells[ix].uid == UID_UNLOCKED && uid != UID_UNLOCKED
  {
    s.(cells := s.cells[ix := s.cells[ix].(uid := uid)], used := s.used + 1)
  }

  /** Release a header that is known to hold `uid`. */
  function Unlock<E>(s: Storage<E>, ix: nat, uid: Uid): Storage<E>
    requires ix < |s.cells| && s.cells[ix].uid == uid != UID_UNLOCKED
  {
    s.(cells := s.cells[ix := s.cells[ix].(uid := UID_UNLOCKED)], used := s.used - 1)
  }

  /** Overwrite the payload of a cell, leaving its header alone. */
  function Put<E>(s: Storage<E>, ix: nat, payload: E): Storage<E>
    requires ix < |s.cells|
  {
    s.(cells := s.cells[ix := s.cells[ix].(payload := payload)])
  }

  /** The locked-cell count moves by one with each lock and unlock, which is what `used` tracks. */
  lemma LockedCellsMove<E>(s: Storage<E>, ix: nat, uid: Uid)
    requires ix < |s.cells| && uid != UID_UNLOCKED
    ensures s.cells[ix].uid == UID_UNLOCKED ==>
              LockedCells(Lock(s, ix, uid)) == LockedCells(s) + {ix} && ix !in LockedCells(s)
    ensures s.cells[ix].uid == uid ==>
              LockedCells(Unlock(s, ix, uid)) == LockedCells(s) - {ix} && ix in LockedCells(s)
  {
  }

  lemma PutKeepsLocks<E>(s: Storage<E>, ix: nat, payload: E)
    requires ix < |s.cells|
    ensures LockedCells(Put(s, ix, payload)) == LockedCells(s)
  {
  }

  /** The `d`-th cell of a window that starts at `start` and wraps around `n` cells. */
  function Slot(start: nat, d: nat, n: nat): (r: nat)
    requires n > 0
    ensures r < n
  {
    (start + d) % n
  }

  /** `i` is one of the `m` cells from position `start` on, counted around `n` cells. */
  ghost predicate InWindow(start: int, m: nat, n: nat, i: int)
    requires n > 0
  {
    0 <= i < n && (i - start) % n < m
  }

  /** The probed cells are those of the window: the `d`-th is `d` cells behind the start. */
  lemma SlotIsInWindow(h: nat, d: nat, n: nat)
    requires n > 0
    ensures (Slot(h % n, d, n) - h) % n == d % n
  {
    var r, i := h % n, Slot(h % n, d, n);
    Divided(h, n);
    Divided(r + d, n);
    Divided(d, n);
    ThreeMultiples(n, d / n, h / n, (r + d) / n);
    SameRemainder(i - h, n, d / n - h / n - (r + d) / n, d % n);
  }

  lemma Divided(x: int, n: nat)
    requires n > 0
    ensures x == n * (x / n) + x % n
  {
  }

  lemma ThreeMultiples(n: int, a: int, b: int, c: int)
    ensures (a - b - c) * n == n * a - n * b - n * c
  {
  }

  lemma SameRemainder(x: int, n: nat, q: int, r: nat)
    requires r < n && x == q * n + r
    ensures x % n == r && x / n == q
  {
    Divided(x, n);
    DivisionIsUnique(x, n, q, r, x / n, x % n);
  }

  lemma WindowIsSlots(h: nat, n: nat, i: int)
    requires 0 <= i < n
    ensures Slot(h % n, (i - h) % n, n) == i
  {
    var r, d := h % n, (i - h) % n;
    Divided(h, n);
    Divided(i - h, n);
    ThreeMultiples(n, 0, h / n, (i - h) / n);
    SameRemainder(r + d, n, 0 - h / n - (i - h) / n, i);
  }

  /** First free cell among those probed from distance `d` on. */
  function FirstFree<E>(cells: seq<Cell<E>>, start: nat, d: nat, m: nat): (r: Option<nat>)
    requires |cells| > 0
    ensures r.Some? ==> r.value < |cells| && cells[r.value].uid == UID_UNLOCKED
    decreases m - d
  {
    if d >= m then None
    else
      var ii := Slot(start, d, |cells|);
      if cells[ii].uid == UID_UNLOCKED then Some(ii) else FirstFree(cells, start, d + 1, m)
  }

  /** The search stops at the first free cell, if the window has any. */
  lemma {:induction false} FirstFreeAt<E>(cells: seq<Cell<E>>, start: nat, d: nat, m: nat) returns (at: nat)
    requires |cells| > 0 && d <= m
    ensures d <= at <= m && forall d': nat :: d <= d' < at ==> cells[Slot(start, d', |cells|)].uid != UID_UNLOCKED
    ensures var r := FirstFree(cells, start, d, m);
            if at < m then cells[Slot(start, at, |cells|)].uid == UID_UNLOCKED && r == Some(Slot(start, at, |cells|))
            else r == None
    decreases m - d
  {
    if d == m || cells[Slot(start, d, |cells|)].uid == UID_UNLOCKED {
      at := d;
    } else {
      at := FirstFreeAt(cells, start, d + 1, m);
    }
  }

  /**
   * The search from position `h` fails exactly when every cell of the window is locked. Otherwise it
   * returns the free cell that is closest behind `h`.
   */
  lemma FirstFreeExact<E>(cells: seq<Cell<E>>, h: nat, m: nat)
    requires |cells| > 0
    ensures match FirstFree(cells, h % |cells|, 0, m)
            case None => forall i :: InWindow(h, m, |cells|, i) ==> cells[i].uid != 0
            case Some(ix) =>
              && InWindow(h, m, |cells|, ix) && cells[ix].uid == 0
              && forall i :: InWindow(h, (ix - h) % |cells|, |cells|, i) ==> cells[i].uid != 0
  {
    hide Slot;
    var n := |cells|;
    var at := FirstFreeAt(cells, h % n, 0, m);
    SlotIsInWindow(h, at, n);
    RemainderBelow(at, n);
    forall i | InWindow(h, at, n, i)
      ensures cells[i].uid != 0
    {
      WindowIsSlots(h, n, i);
    }
  }

  lemma RemainderBelow(x: nat, n: nat)
    requires n > 0
    ensures x % n <= x
  {
    assert x == n * (x / n) + x % n;
  }

  /**
   * Contents of the storage that replaces `prev` when it grows to `2^pow2` cells: the old cell `i`
   * lands on cell `i << increment`, everything else is zero.
   */
  function Resized<E>(prev: Option<Storage<E>>, pow2: nat, numElems: nat, zero: E): (s: Storage<E>)
    requires prev.Some? ==> prev.value.Valid() && prev.value.pow2 <= pow2
    ensures s.Valid() && s.pow2 == pow2 && s.numElems == numElems
  {
    match prev
    case None => Fresh(pow2, numElems, zero)
    case Some(o) =>
      Storage(pow2, numElems, Spread(o.cells, Pow2(pow2), Pow2(pow2 - o.pow2), Cell(UID_UNLOCKED, zero)), 0)
  }

  /** `n` cells whose multiples of `step` come from `prev`, in order. */
  function Spread<C>(prev: seq<C>, n: nat, step: nat, blank: C): (r: seq<C>)
    requires step > 0
    ensures |r| == n
  {
    seq(n, i requires 0 <= i => if i % step == 0 && i / step < |prev| then prev[i / step] else blank)
  }

  lemma SpreadAt<C>(prev: seq<C>, n: nat, step: nat, blank: C, i: nat)
    requires step > 0 && i < |prev| && n == |prev| * step
    ensures i * step < n && Spread(prev, n, step, blank)[i * step] == prev[i]
  {
    assert (i + 1) * step <= |prev| * step;
    assert (i * step) % step == 0 && (i * step) / step == i by {
      MultipleDivides(i, step);
    }
  }

  lemma MultipleDivides(i: nat, step: nat)
    requires step > 0
    ensures (i * step) % step == 0 && (i * step) / step == i
  {
    DivisionIsUnique(i * step, step, i, 0, (i * step) / step, (i * step) % step);
  }

  lemma DivisionIsUnique(x: int, step: nat, q: int, r: nat, q': int, r': nat)
    requires step > 0 && r < step && r' < step
    requires x == q * step + r == q' * step + r'
    ensures q == q' && r == r'
  {
    if q > q' {
      MultipleDistance(q, q', step);
    } else if q < q' {
      MultipleDistance(q', q, step);
    }
  }

  /** Distinct multiples of `step` are at least `step` apart. */
  lemma MultipleDistance(a: int, b: int, step: nat)
    requires a > b
    ensures a * step >= b * step + step
  {
    var d := a - b - 1;
    assert a * step == b * step + step + d * step;
  }
}
