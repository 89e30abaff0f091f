/**
 * The index storage of a bucket: an open-addressed table probed linearly over a window of
 * `maxSearch` cells. Its invariant makes it a map from key to index entry.
 */
module IndexModel {
  import opened Wrappers
  import opened StorageModel

  datatype IndexEntry = IndexEntry(
    key: Pubkey, refCount: u64, storageOffset: nat, createdPow2: nat, numSlots: nat)

  datatype BucketMapError =
    | DataNoSpace(bucketIx: nat, currentCapacityPow2: nat)
    | IndexNoSpace(currentCapacityPow2: nat)

  /** The two hash computations, taken as arbitrary functions, and the window length. */
  datatype Config = Config(keyHash: Pubkey -> u64, ixHash: (Uid, u64) -> u64, maxSearch: nat)

  /** Never zero, because zero marks an unlocked header. */
  function KeyUid(cfg: Config, key: Pubkey): (uid: Uid)
    ensures uid != UID_UNLOCKED
  {
    if cfg.keyHash(key) < 1 then 1 else cfg.keyHash(key)
  }

  /** Two keys have the same uid exactly when their hashes agree, where 0 and 1 count as one. */
  lemma SharedUidExactly(cfg: Config, key: Pubkey, key': Pubkey)
    ensures KeyUid(cfg, key) == KeyUid(cfg, key') <==>
              cfg.keyHash(key) == cfg.keyHash(key') || (cfg.keyHash(key) <= 1 && cfg.keyHash(key') <= 1)
    ensures cfg.keyHash(key) >= 1 ==> KeyUid(cfg, key) == cfg.keyHash(key)
  {
  }

  /** The cell at which the search for `key` starts. */
  function Home(cfg: Config, n: nat, key: Pubkey, seed: u64): (r: nat)
    requires n > 0
    ensures r < n
  {
    cfg.ixHash(KeyUid(cfg, key), seed) % n
  }

  /** First locked cell holding `key` among those probed from distance `d` on. */
  function FindKey(cells: seq<Cell<IndexEntry>>, key: Pubkey, start: nat, d: nat, m: nat): (r: Option<nat>)
    requires |cells| > 0
    ensures r.Some? ==> r.value < |cells| && cells[r.value].uid != UID_UNLOCKED && cells[r.value].payload.key == key
    decreases m - d
  {
    if d >= m then None
    else
      var ii := Slot(start, d, |cells|);
      if cells[ii].uid != UID_UNLOCKED && cells[ii].payload.key == key then Some(ii)
      else FindKey(cells, key, start, d + 1, m)
  }

  /** The search fails exactly when no cell of the window holds the key. */
  lemma {:induction false} FindKeyExact(cells: seq<Cell<IndexEntry>>, key: Pubkey, start: nat, d: nat, m: nat)
    requires |cells| > 0
    ensures FindKey(cells, key, start, d, m).None? <==>
              forall d': nat :: d <= d' < m ==>
                || cells[Slot(start, d', |cells|)].uid == UID_UNLOCKED
                || cells[Slot(start, d', |cells|)].payload.key != key
    decreases m - d
  {
    if d < m {
      var c := cells[Slot(start, d, |cells|)];
      if c.uid == UID_UNLOCKED || c.payload.key != key {
        FindKeyExact(cells, key, start, d + 1, m);
      }
    }
  }

  function FindEntry(cfg: Config, s: Storage<IndexEntry>, key: Pubkey, seed: u64): (r: Option<nat>)
    requires s.Valid()
    ensures r.Some? ==> s.IsLocked(r.value) && s.cells[r.value].payload.key == key
  {
    FindKey(s.cells, key, Home(cfg, |s.cells|, key, seed), 0, cfg.maxSearch)
  }

  /** The entry written into a newly locked index cell. */
  function BlankEntry(key: Pubkey): IndexEntry {
    IndexEntry(key, 0, 0, 0, 0)
  }

  /** Lock the first free cell of the key's window and write `entry` there. */
  function CreateKey(cfg: Config, s: Storage<IndexEntry>, entry: IndexEntry, uid: Uid, seed: u64)
    : (r: Result<(nat, Storage<IndexEntry>), BucketMapError>)
    requires s.Valid() && uid != UID_UNLOCKED
    ensures r.Err? ==> r.error == IndexNoSpace(s.pow2)
    ensures r.Ok? ==> r.value.1.Valid() && r.value.1.pow2 == s.pow2 && r.value.1.numElems == s.numElems
  {
    match FirstFree(s.cells, Home(cfg, |s.cells|, entry.key, seed), 0, cfg.maxSearch)
    case None => Err(IndexNoSpace(s.pow2))
    case Some(ii) => Ok((ii, Put(Lock(s, ii, uid), ii, entry)))
  }

  // ---- representation invariant

  /** A locked cell carries its key's uid and lies in the window that starts at the hash of uid and seed. */
  ghost predicate CellOk(cfg: Config, s: Storage<IndexEntry>, seed: u64, i: int)
    requires s.IsLocked(i)
  {
    && s.cells[i].uid == KeyUid(cfg, s.cells[i].payload.key)
    && InWindow(cfg.ixHash(KeyUid(cfg, s.cells[i].payload.key), seed), cfg.maxSearch, |s.cells|, i)
  }

  ghost predicate DistinctKeys(s: Storage<IndexEntry>) {
    forall i, j :: s.IsLocked(i) && s.IsLocked(j) && s.cells[i].payload.key == s.cells[j].payload.key ==> i == j
  }

  ghost predicate IndexInv(cfg: Config, s: Storage<IndexEntry>, seed: u64) {
    && s.Valid()
    && (forall i :: s.IsLocked(i) ==> CellOk(cfg, s, seed, i))
    && DistinctKeys(s)
    && s.used == |LockedCells(s)|
  }

  // ---- abstraction

  ghost function StoredKeys(s: Storage<IndexEntry>): set<Pubkey> {
    set i | i in LockedCells(s) :: s.cells[i].payload.key
  }

  ghost function Where(s: Storage<IndexEntry>, key: Pubkey): (i: int)
    requires key in StoredKeys(s)
    ensures s.IsLocked(i) && s.cells[i].payload.key == key
  {
    var i :| i in LockedCells(s) && s.cells[i].payload.key == key;
    i
  }

  /** What the index means: each stored key with its entry. */
  ghost function Entries(s: Storage<IndexEntry>): map<Pubkey, IndexEntry> {
    map k | k in StoredKeys(s) :: s.cells[Where(s, k)].payload
  }

  lemma EntryAt(s: Storage<IndexEntry>, i: int)
    requires DistinctKeys(s) && s.IsLocked(i)
    ensures s.cells[i].payload.key in Entries(s)
    ensures Entries(s)[s.cells[i].payload.key] == s.cells[i].payload
    ensures Where(s, s.cells[i].payload.key) == i
  {
    assert i in LockedCells(s);
  }

  /** The map a table must mean, given what each of its locked cells holds. */
  lemma EntriesAre(s: Storage<IndexEntry>, m: map<Pubkey, IndexEntry>)
    requires DistinctKeys(s)
    requires forall i :: s.IsLocked(i) ==>
               s.cells[i].payload.key in m && m[s.cells[i].payload.key] == s.cells[i].payload
    requires forall k :: k in m ==> exists i :: s.IsLocked(i) && s.cells[i].payload.key == k
    ensures Entries(s) == m
  {
    forall k | k in m
      ensures k in Entries(s)
    {
      var i :| s.IsLocked(i) && s.cells[i].payload.key == k;
      EntryAt(s, i);
    }
    forall k | k in Entries(s)
      ensures k in m && m[k] == Entries(s)[k]
    {
      assert s.IsLocked(Where(s, k));
    }
  }

  // ---- the search is exact

  lemma FindEntryExact(cfg: Config, s: Storage<IndexEntry>, key: Pubkey, seed: u64)
    requires IndexInv(cfg, s, seed)
    ensures var r := FindEntry(cfg, s, key, seed);
            && (r.Some? <==> key in Entries(s))
            && (r.Some? ==> s.cells[r.value].payload == Entries(s)[key] && s.cells[r.value].uid == KeyUid(cfg, key))
  {
    var r := FindEntry(cfg, s, key, seed);
    FindKeyExact(s.cells, key, Home(cfg, |s.cells|, key, seed), 0, cfg.maxSearch);
    if key in Entries(s) {
      assert CellOk(cfg, s, seed, Where(s, key));
      WindowIsSlots(cfg.ixHash(KeyUid(cfg, key), seed), |s.cells|, Where(s, key));
    }
    if r.Some? {
      EntryAt(s, r.value);
      assert CellOk(cfg, s, seed, r.value);
    }
  }

  // ---- what each operation does to the map

  lemma PutEntry(cfg: Config, s: Storage<IndexEntry>, seed: u64, i: nat, entry: IndexEntry)
    requires IndexInv(cfg, s, seed) && s.IsLocked(i) && s.cells[i].payload.key == entry.key
    ensures IndexInv(cfg, Put(s, i, entry), seed)
    ensures Entries(Put(s, i, entry)) == Entries(s)[entry.key := entry]
  {
    PutKeepsLocks(s, i, entry);
    CellRewritten(cfg, s, seed, Put(s, i, entry), i);
  }

  lemma CellRewritten(cfg: Config, s: Storage<IndexEntry>, seed: u64, s': Storage<IndexEntry>, i: nat)
    requires IndexInv(cfg, s, seed) && s.IsLocked(i)
    requires s'.pow2 == s.pow2 && s'.used == s.used && |s'.cells| == |s.cells| && s'.cells == s.cells[i := s'.cells[i]]
    requires s'.cells[i].uid == s.cells[i].uid && s'.cells[i].payload.key == s.cells[i].payload.key
    requires LockedCells(s') == LockedCells(s)
    ensures IndexInv(cfg, s', seed)
    ensures Entries(s') == Entries(s)[s'.cells[i].payload.key := s'.cells[i].payload]
  {
    var entry := s'.cells[i].payload;
    var m := Entries(s)[entry.key := entry];
    forall j | s'.IsLocked(j)
      ensures s.IsLocked(j) && s'.cells[j].payload.key == s.cells[j].payload.key && CellOk(cfg, s', seed, j)
      ensures s'.cells[j].payload.key in m && m[s'.cells[j].payload.key] == s'.cells[j].payload
    {
      assert CellOk(cfg, s, seed, j);
      EntryAt(s, j);
    }
    forall k | k in m
      ensures exists j :: s'.IsLocked(j) && s'.cells[j].payload.key == k
    {
      var j := if k == entry.key then i else Where(s, k);
      assert s'.IsLocked(j) && s'.cells[j].payload.key == k;
    }
    EntriesAre(s', m);
  }

  /** Cell `i` is free and less than `m` cells behind position `h`, and every cell closer behind `h` is locked. */
  ghost predicate ClosestFree(cells: seq<Cell<IndexEntry>>, h: nat, m: nat, i: int) {
    && 0 <= i < |cells| && (i - h) % |cells| < m && cells[i].uid == 0
    && forall j :: 0 <= j < |cells| && (j - h) % |cells| < (i - h) % |cells| ==> cells[j].uid != 0
  }

  /** `cells'` is `cells` with `key` in the free cell closest behind the hash of its uid and the seed. */
  ghost predicate PlacesKey(cfg: Config, cells: seq<Cell<IndexEntry>>, cells': seq<Cell<IndexEntry>>, key: Pubkey,
                            seed: u64, i: int)
  {
    var uid := if cfg.keyHash(key) == 0 then 1 else cfg.keyHash(key);
    && ClosestFree(cells, cfg.ixHash(uid, seed), cfg.maxSearch, i)
    && |cells'| == |cells| && cells' == cells[i := cells'[i]]
    && cells'[i].uid == uid && cells'[i].payload.key == key
  }

  /** A new entry goes to the free cell closest behind its hash, and is refused exactly when the window is locked. */
  lemma CreateKeyPlaces(cfg: Config, s: Storage<IndexEntry>, entry: IndexEntry, seed: u64)
    requires s.Valid()
    ensures match CreateKey(cfg, s, entry, KeyUid(cfg, entry.key), seed)
            case Err(e) =>
              var h, n := cfg.ixHash(KeyUid(cfg, entry.key), seed), |s.cells|;
              && e == IndexNoSpace(s.pow2)
              && forall i :: 0 <= i < n && (i - h) % n < cfg.maxSearch ==> s.cells[i].uid != 0
            case Ok((ii, s')) =>
              PlacesKey(cfg, s.cells, s'.cells, entry.key, seed, ii) && s'.cells[ii].payload == entry
  {
    var h, n := cfg.ixHash(KeyUid(cfg, entry.key), seed), |s.cells|;
    FirstFreeExact(s.cells, h, cfg.maxSearch);
    var r := CreateKey(cfg, s, entry, KeyUid(cfg, entry.key), seed);
    var m := if r.Ok? then (r.value.0 - h) % n else cfg.maxSearch;
    forall i | 0 <= i < n && (i - h) % n < m
      ensures s.cells[i].uid != 0
    {
      assert InWindow(h, m, n, i);
    }
  }

  lemma CreateKeyAdds(cfg: Config, s: Storage<IndexEntry>, seed: u64, entry: IndexEntry)
    requires IndexInv(cfg, s, seed) && entry.key !in Entries(s)
    ensures var r := CreateKey(cfg, s, entry, KeyUid(cfg, entry.key), seed);
            r.Ok? ==>
              && r.value.1.IsLocked(r.value.0)
              && r.value.1.cells[r.value.0] == Cell(KeyUid(cfg, entry.key), entry)
              && IndexInv(cfg, r.value.1, seed)
              && Entries(r.value.1) == Entries(s)[entry.key := entry]
  {
    var uid := KeyUid(cfg, entry.key);
    var r := CreateKey(cfg, s, entry, uid, seed);
    FirstFreeExact(s.cells, cfg.ixHash(uid, seed), cfg.maxSearch);
    if r.Ok? {
      var (ii, s') := r.value;
      LockedCellsMove(s, ii, uid);
      PutKeepsLocks(Lock(s, ii, uid), ii, entry);
      CellAdded(cfg, s, seed, s', ii);
    }
  }

  /** The table is as before, except that cell `ii`, which was free, now holds a new key. */
  ghost predicate OneCellAdded(s: Storage<IndexEntry>, s': Storage<IndexEntry>, ii: nat) {
    && ii < |s.cells| && !s.IsLocked(ii) && s'.IsLocked(ii) && s'.cells == s.cells[ii := s'.cells[ii]]
    && s'.cells[ii].payload.key !in Entries(s)
  }

  /** Adding one cell of a new key inside its window. */
  lemma CellAdded(cfg: Config, s: Storage<IndexEntry>, seed: u64, s': Storage<IndexEntry>, ii: nat)
    requires IndexInv(cfg, s, seed) && OneCellAdded(s, s', ii)
    requires s'.pow2 == s.pow2 && s'.used == s.used + 1 && CellOk(cfg, s', seed, ii)
    requires LockedCells(s') == LockedCells(s) + {ii}
    ensures IndexInv(cfg, s', seed)
    ensures Entries(s') == Entries(s)[s'.cells[ii].payload.key := s'.cells[ii].payload]
  {
    hide Entries, Where;
    forall j | s'.IsLocked(j) && j != ii
      ensures CellOk(cfg, s', seed, j)
    {
      assert CellOk(cfg, s, seed, j);
    }
    AddedKeyDiffers(s, s', ii);
    AddedEntries(s, s', ii);
  }

  lemma AddedKeyDiffers(s: Storage<IndexEntry>, s': Storage<IndexEntry>, ii: nat)
    requires DistinctKeys(s) && OneCellAdded(s, s', ii)
    ensures DistinctKeys(s')
    ensures forall j :: s'.IsLocked(j) && j != ii ==>
                          && s'.cells[j] == s.cells[j] && s'.cells[j].payload.key in Entries(s)
                          && Entries(s)[s'.cells[j].payload.key] == s'.cells[j].payload
  {
    forall j | s'.IsLocked(j) && j != ii
      ensures s.IsLocked(j) && s'.cells[j] == s.cells[j]
      ensures s'.cells[j].payload.key in Entries(s) && Entries(s)[s'.cells[j].payload.key] == s'.cells[j].payload
    {
      EntryAt(s, j);
    }
  }

  lemma AddedEntries(s: Storage<IndexEntry>, s': Storage<IndexEntry>, ii: nat)
    requires DistinctKeys(s) && OneCellAdded(s, s', ii)
    ensures Entries(s') == Entries(s)[s'.cells[ii].payload.key := s'.cells[ii].payload]
  {
    var entry := s'.cells[ii].payload;
    var m := Entries(s)[entry.key := entry];
    AddedKeyDiffers(s, s', ii);
    forall k | k in m
      ensures exists j :: s'.IsLocked(j) && s'.cells[j].payload.key == k
    {
      var j := if k == entry.key then ii else Where(s, k);
      assert s'.IsLocked(j) && s'.cells[j].payload.key == k;
    }
    hide Entries;
    EntriesAre(s', m);
  }

  /** Freeing a cell removes its key and hides no other, since the search skips free cells. */
  lemma FreeRemoves(cfg: Config, s: Storage<IndexEntry>, seed: u64, i: nat)
    requires IndexInv(cfg, s, seed) && s.IsLocked(i)
    ensures var s' := Unlock(s, i, s.cells[i].uid);
            && IndexInv(cfg, s', seed)
            && Entries(s') == Entries(s) - {s.cells[i].payload.key}
  {
    LockedCellsMove(s, i, s.cells[i].uid);
    CellRemoved(cfg, s, seed, Unlock(s, i, s.cells[i].uid), i);
  }

  lemma CellOkAlike(cfg: Config, s: Storage<IndexEntry>, s': Storage<IndexEntry>, seed: u64, j: int)
    requires s.IsLocked(j) && CellOk(cfg, s, seed, j) && |s'.cells| == |s.cells| && s'.cells[j] == s.cells[j]
    ensures CellOk(cfg, s', seed, j)
  {
  }

  lemma CellRemoved(cfg: Config, s: Storage<IndexEntry>, seed: u64, s': Storage<IndexEntry>, i: nat)
    requires IndexInv(cfg, s, seed) && s.IsLocked(i)
    requires s'.pow2 == s.pow2 && s'.used == s.used - 1
    requires |s'.cells| == |s.cells| && s'.cells == s.cells[i := s'.cells[i]] && !s'.IsLocked(i)
    requires LockedCells(s') == LockedCells(s) - {i}
    ensures IndexInv(cfg, s', seed)
    ensures Entries(s') == Entries(s) - {s.cells[i].payload.key}
  {
    assert i in LockedCells(s) && |LockedCells(s')| == |LockedCells(s)| - 1;
    hide Entries, CellOk, LockedCells;
    forall j | s'.IsLocked(j)
      ensures s.IsLocked(j) && s'.cells[j] == s.cells[j] && CellOk(cfg, s', seed, j)
    {
      assert CellOk(cfg, s, seed, j);
      CellOkAlike(cfg, s, s', seed, j);
    }
    RemovedEntries(s, s', i);
  }

  lemma RemovedEntries(s: Storage<IndexEntry>, s': Storage<IndexEntry>, i: nat)
    requires DistinctKeys(s) && s.IsLocked(i) && |s'.cells| == |s.cells| && s'.cells == s.cells[i := s'.cells[i]]
             && !s'.IsLocked(i)
    ensures Entries(s') == Entries(s) - {s.cells[i].payload.key}
  {
    var m := Entries(s) - {s.cells[i].payload.key};
    forall j | s'.IsLocked(j)
      ensures s.IsLocked(j) && j != i && s'.cells[j] == s.cells[j]
      ensures s'.cells[j].payload.key in m && m[s'.cells[j].payload.key] == s'.cells[j].payload
    {
      EntryAt(s, j);
    }
    forall k | k in m
      ensures exists j :: s'.IsLocked(j) && s'.cells[j].payload.key == k
    {
      assert s'.IsLocked(Where(s, k)) && s'.cells[Where(s, k)].payload.key == k;
    }
    hide Entries;
    EntriesAre(s', m);
  }

  /** `used` counts the stored keys. */
  lemma UsedCountsKeys(cfg: Config, s: Storage<IndexEntry>, seed: u64)
    requires IndexInv(cfg, s, seed)
    ensures s.used == |Entries(s)|
  {
    ImageSize(s, LockedCells(s));
    assert Entries(s).Keys == StoredKeys(s);
  }

  lemma {:induction false} ImageSize(s: Storage<IndexEntry>, cells: set<int>)
    requires DistinctKeys(s) && cells <= LockedCells(s)
    ensures |set i | i in cells :: s.cells[i].payload.key| == |cells|
    decreases |cells|
  {
    if cells != {} {
      var i :| i in cells;
      var rest := cells - {i};
      ImageSize(s, rest);
      var keys := set j | j in rest :: s.cells[j].payload.key;
      assert s.IsLocked(i) && forall j :: j in rest ==> s.IsLocked(j);
      assert s.cells[i].payload.key !in keys;
      assert (set j | j in cells :: s.cells[j].payload.key) == keys + {s.cells[i].payload.key};
    }
  }
}
