# Verified models of five components

This project models five components of the repository in Dafny and proves what each of them is
for. `dafny verify dfyconfig.toml` checks everything.

**The bucket map** (`bucket_map/`) is a map from public keys to slot lists and reference counts that
lives in storage files. A bucket has an index that is probed linearly over a wrapping window, and
one data storage per size class, whose cells hold a power of two of slots. The index grows by
re-hashing under a new random seed; a data storage grows by moving cell `i` to cell `i << increment`,
and old entries are re-addressed only when they are read. Both growths are computed under a read
lock, parked, and applied under the next write lock. The main result is that every run of calls,
growths in between included, answers as one plain map does.

- `Storage`, `Index`, `IndexGrowth`, `Crowding`, `Data`, `DataGrowth`: contents of storages, the index
  table, its re-hash and when it succeeds, ownership of data cells and the growth of their storages.
- `ByteLayout`: where cells and slot lists lie in the bytes of a file.
- `Bucket`, `BucketGrowth`, `InsertProgress`, `Orphans`, `Scans`: one bucket as a value, its writes,
  growths and listings, when an insert finishes, and which cells can be left without an owner.
- `Api`, `ApiSafety`, `OrphanRuns`, `InsertRuns`, `HonestGrowth`, `NarrowWindow`: the bucket behind its
  lock, and over whole runs its answers, panics, refusals, colliding and outdated growths, cells left
  behind and inserts that never return or grow the data twice.
- `Sharding`, `Map`, `MapRuns`: from one bucket to the sharded map and its runs.
- `BucketStorageClass`, `BucketClass`, `BucketApiClass`, `BucketMapClass`: the objects that update
  storages in place, each method proved to compute the function that specifies it.

**Funding of benchmark accounts** (`bench-tps/`) is `Funding`: a tree of transfers with fan-out four.

**The Bloom filters** (`bloom/`) are `BitWords`, `Bloom` and `BloomConcurrency`: the flat filter, the
filter on atomic words, the conversions, and any interleaving of concurrent adds.

**The publishing order of crates** (`ci/`) is `CrateOrder`. **Token amounts as decimal strings**
(`account-decoder/`) are `TokenAmount`.

How the models read:

- Hash functions are arbitrary functions in a configuration value. Random numbers are parameters:
  a call takes as many as it needs from the sequence it is given, and a call that is still running
  when the sequence is used up is reported as such. A claim for all sequences is therefore a claim
  for all random choices and for any number of retries.
- A panic of a modelled operation is an outcome. A panic under the write lock poisons the lock; a
  write that never returns keeps it, and a growth that never returns keeps the read lock.
- Inner steps that the code guards by an assertion (a cell number in range, the uid of a cell about
  to be freed) carry that assertion as a precondition, which their callers are proved to meet.
- Overflow of reference counts and of funding amounts is modelled as in a build with overflow checks:
  it panics. Storage files start out all zero, hence unlocked.
- A concurrent add to the atomic filter is a set of atomic fetch-or steps, and an execution is any
  sequence of the steps of all threads. Since a word depends on the order of its own steps alone, this
  covers relaxed ordering, which fixes one order per word and nothing else.

Where the code falls short of what one would expect, the model keeps the code, and when it does so is
proved:

- Shrinking a one-slot list to the empty list in place leaves its data cell locked without an owner.
  Nothing else does, and such a cell is never given back: their number is the number of such writes
  (`OrphanRuns.OrphansOfRun`, `OrphanRuns.NoOrphansExactly`, `OrphanRuns.ShrinkingLeaks`).
- Two growths announced with no write between them collide and stop the bucket from ever growing
  again, and nothing else does that (`ApiSafety.WedgedExactly`, `ApiModel.WedgedForever`,
  `ApiSafety.NewBucketWedges`); `Bucket::insert` never causes it (`GrowthModel.InsertRefines`).
- A data growth requested with an outdated report panics, exactly when the new capacity would be
  below the present one (`GrowthModel.GrowKeeps`), also among callers who only ask for what a failed
  write told them to (`HonestGrowth.HonestGrowthPanics`).
- An insert never finishes once a window is full of keys that share its uid, whatever the seeds
  (`InsertProgress.SharedUidNeverFinishes`, `InsertRuns.SharedUidRun`). With seeds that keep different
  uids apart that is the only obstacle (`InsertProgress.SeparatingSeedsDecide`), and seeds under which
  all keys find room are enough in general (`InsertProgress.FittingSeedsFinish`). Under other seeds an
  attempt may be rejected any number of times. Every attempt after a rejected one asks for a larger
  capacity; the capacity at which creating the file panics instead is not modelled.
- With a window of one cell an insert can grow the data more than once (`NarrowWindow.OneCellIsTooFew`);
  with two cells or more it cannot (`InsertProgress.AtMostOneDataGrowth`).
- The publishing script looks at dependencies with the prefix `solana` only. A cycle through another
  crate is not seen, and such a crate may be published too late (`CrateOrder.UnseenCycle`,
  `CrateOrder.WrongOrder`). The result is right for the workspace exactly when a cycle is recorded or
  every dropped dependency lies less deep, or as deep and is listed first (`CrateOrder.GetPackages`);
  when no dependency is dropped it always is (`CrateOrder.NothingDropped`).
- Funding panics exactly when the keys do not fill whole layers or the total lacks a balance and a fee
  for some sender; the key generator avoids both (`Funding.FundableExactly`, `Funding.FundingIsExact`).
- Two concurrent adds of one absent item can both be told that it was new, and an add that starts with
  its item absent can be told that it was not; the exact condition is whether the add is the first to
  touch some clear bit (`BloomConcurrency.ThreadIsTold`, `BloomConcurrency.BothCanBeTold`,
  `BloomConcurrency.AbsentCanBeDenied`).

## Model

| member | source | states |
|---|---|---|
| `ApiModel.RunRefines` | bucket_map/src/bucket_map.rs:372-528 | every run of calls on a new bucket, growths in between included, gives answers that a plain map from key to slot list and count also gives |
| `ApiModel.ApiStepRefines` | bucket_map/src/bucket_api.rs:45-147 | every single call keeps the representation invariant and steps the abstract map as the plain map steps, whatever growth is waiting |
| `ApiModel.WriteOpRefines` | bucket_map/src/bucket_api.rs:84-147 | the same for the operations under the write lock |
| `ApiModel.WriteBucketKeeps` | bucket_map/src/bucket_api.rs:91-105 | taking the write lock creates an empty bucket or applies the waiting growth, and changes no answer |
| `ApiSafety.PanicsExactly` | bucket_map/src/bucket_api.rs:107-147 | a call panics if and only if it gets the lock and a count would leave its range, an insert has to grow a bucket on which growths have collided, or a growth is outdated or meets another one |
| `BucketModel.EntriesAreSound` | bucket_map/src/bucket.rs:258-311 | what the code asserts before it touches the slots of a stored key: its index cell holds its uid, its storage exists and has not shrunk, its cell is in range, stamped with its uid and owned by no other key |
| `ApiSafety.InsertPanicsExactly` | bucket_map/src/bucket.rs:464-476 | an insert panics if and only if growths have collided and it needs one more |
| `ApiModel.WedgedForever` | bucket_map/src/bucket.rs:46-62 | once two growths have collided no later call changes a capacity or clears the collision |
| `ApiSafety.AnnouncedStep` | bucket_map/src/bucket.rs:46-62 | a write applies a waiting growth and cannot clear a collision, and only a computed growth announces one more |
| `ApiSafety.SettledRun` | bucket_map/src/bucket.rs:464-490 | on every run without explicit growth, only a reference count leaving its range panics |
| `ApiSafety.BlockedExactly` | bucket_map/src/bucket_api.rs:91-147 | a read of a run is refused if and only if an earlier write panicked or never returned; a write is refused if and only if that is so or an earlier growth never returned |
| `ApiSafety.CollisionWedges` | bucket_map/src/bucket.rs:46-54 | a growth requested while another one waits collides with it, if and only if its report is current and, for the index, some seed fits |
| `ApiSafety.WedgedExactly` | bucket_map/src/bucket.rs:46-62 | a run makes growths collide if and only if it announces two with no write between them, and one waits if and only if no write has come since |
| `ApiSafety.NewBucketWedges` | bucket_map/src/bucket_api.rs:124-147 | the shortest run that makes growths collide: a failed write answered by two growths |
| `ApiSafety.OutdatedGrowthPanics` | bucket_map/src/bucket.rs:404-417 | the shortest run on which a growth with an outdated report panics |
| `HonestGrowth.HonestGrowthPanics` | bucket_map/src/bucket.rs:404-417 | the same among honest callers: every growth answers a report of its own that a failed write gave, and the last one panics although nothing waits, because the storage has outgrown its report |
| `HonestGrowth.FillsUp` | bucket_map/src/bucket.rs:262-296 | writing one slot and then none to one key, over and over, ends with the report that the storage is full, and the same write would be refused again |
| `ApiModel.AnswerAt` | bucket_map/src/bucket_api.rs:45-147 | each answer of a run is that of its call in the state the calls before it have left |
| `OrphanRuns.OrphansOfRun` | bucket_map/src/bucket.rs:262-269 | a run on a new bucket leaves behind exactly as many locked data cells without an owner as it makes calls that shrink a one-slot list to none, which is known before each call |
| `OrphanRuns.NoOrphansExactly` | bucket_map/src/bucket.rs:262-269 | a run ends with every locked data cell owned if and only if it makes no such call |
| `OrphanRuns.OrphanStep` | bucket_map/src/bucket_api.rs:84-147 | one call of any kind leaves one more cell behind if and only if it gets the lock and sets a one-slot list to none, and no call gives a cell back |
| `OrphanRuns.ShrinkingLeaks` | bucket_map/src/bucket.rs:262-269 | the shortest such run: one slot, and then none |
| `MapModel.MapRunRefines` | bucket_map/src/bucket_map.rs:124-182 | every run on the sharded map, single-bucket calls and bucket numbers out of range included, is a run of one single map |
| `MapModel.MapStepRefines` | bucket_map/src/bucket_map.rs:124-182 | one call on one shard steps the single map that all shards together mean, and leaves the other shards alone |
| `MapModel.NewMapIsEmpty` | bucket_map/src/bucket_map.rs:59-111 | construction succeeds exactly for a positive power of two, and the result means the empty map |
| `MapRuns.ShardRunsAlone` | bucket_map/src/bucket_map.rs:124-182 | what a run on the map leaves in a shard is what the calls to that shard alone leave there |
| `MapRuns.ShardAnswers` | bucket_map/src/bucket_map.rs:124-182 | a call on the map answers as the last of the calls to its shard alone |
| `MapRuns.MapBlockedExactly` | bucket_map/src/bucket_map.rs:124-182 | a call is refused if and only if earlier calls to the same shard have kept its lock |
| `MapRuns.MapPanicsExactly` | bucket_map/src/bucket_map.rs:124-182 | a call panics if and only if its shard does not exist, or lets it in and panics on its own |
| `MapRuns.MapOrphansOfRun` | bucket_map/src/bucket_map.rs:124-182 | all shards together are left with as many more cells without an owner as the run shrinks one-slot lists to none |
| `Sharding.BucketIxInRange` | bucket_map/src/bucket_map.rs:161-168 | the shard index is below the number of buckets for every key and every bucket count |
| `Sharding.BucketIxMonotone` | bucket_map/src/bucket_map.rs:161-189 | keys in big-endian order have shard indices in order |
| `Sharding.ShardsAreContiguous` | bucket_map/src/bucket_map.rs:161-189 | a key between two keys of one shard is in that shard |
| `Sharding.ShardRange` | bucket_map/src/bucket_map.rs:161-168 | a key is in shard i of 2^p if and only if the number its first eight bytes spell lies in the i-th of 2^p equal ranges of the 64-bit numbers |
| `Sharding.FirstEightBytes` | bucket_map/src/bucket_map.rs:186-189 | that number is the sum of the eight bytes times descending powers of 256 |
| `Sharding.EveryShardHasKeys` | bucket_map/src/bucket_map.rs:161-168 | every shard is the shard of some key |
| `Sharding.BigEndianOrdered` | bucket_map/src/bucket_map.rs:186-189 | reading bytes big-endian keeps their lexicographic order |
| `Sharding.Log2Exact` | bucket_map/src/bucket_map.rs:101-107 | the logarithm used for the bucket count is exact if and only if the count is a power of two |
| `IndexModel.FindEntryExact` | bucket_map/src/bucket.rs:151-187 | the search finds an entry if and only if the key is stored, and then it finds the entry of that key under its own uid |
| `IndexModel.FindKeyExact` | bucket_map/src/bucket.rs:170-187 | probing fails exactly when no locked cell of the window holds the key; free cells in between do not stop it |
| `IndexModel.CreateKeyAdds` | bucket_map/src/bucket.rs:189-214 | taking the first free cell of the window stores exactly one new key and keeps the table invariant |
| `IndexModel.CreateKeyPlaces` | bucket_map/src/bucket.rs:189-214 | a new key goes to the free cell that is closest behind the hash of its uid and the seed, counted around the table, and is refused if and only if every cell less than a window behind that hash is locked |
| `BucketModel.NewKeyPlaced` | bucket_map/src/bucket.rs:249-266 | the same of a whole write: the index changes in that one cell only, which then holds the key under its uid |
| `StorageModel.FirstFreeExact` | bucket_map/src/bucket.rs:189-214 | the search for a free cell returns the free cell closest behind its start, and fails if and only if every cell of the wrapped window is locked |
| `IndexModel.PutEntry` | bucket_map/src/bucket_storage.rs:206-215 | overwriting a stored entry changes that key and no other |
| `IndexModel.FreeRemoves` | bucket_map/src/bucket.rs:299-311 | freeing a cell removes its key and hides no other key |
| `IndexModel.UsedCountsKeys` | bucket_map/src/bucket_storage.rs:136-170 | the use counter of the index equals the number of stored keys |
| `IndexModel.KeyUid` | bucket_map/src/index_entry.rs:62-66 | a key never gets the uid that means unlocked |
| `IndexModel.SharedUidExactly` | bucket_map/src/index_entry.rs:62-66 | two keys share a uid if and only if their hashes are equal or both at most one |
| `StorageModel.LockedCellsMove` | bucket_map/src/bucket_storage.rs:136-170 | locking and unlocking add and remove exactly one locked cell |
| `IndexGrowth.AttemptKeeps` | bucket_map/src/bucket.rs:313-378 | a completed re-hash under a new seed and capacity holds the same entries, each less than a window behind the hash of its uid and the new seed, and counts the same number of cells |
| `IndexGrowth.RehashKeeps` | bucket_map/src/bucket.rs:331-353 | the loop over the old cells carries every entry over |
| `IndexGrowth.AttemptInTurn` | bucket_map/src/bucket.rs:331-353 | entries are placed in the order of the old cells: every cell that an entry was placed behind, in its window, holds an entry from an earlier old cell |
| `IndexGrowth.FirstFitIsFirst` | bucket_map/src/bucket.rs:317-365 | the result comes from the first attempt that fits; rejected attempts leave no trace |
| `Crowding.RoomIfUncrowded` | bucket_map/src/bucket.rs:189-214 | a key finds a free cell if fewer other keys have windows that meet its own than its window has cells |
| `Crowding.WindowsMeet` | bucket_map/src/bucket.rs:189-214 | two windows have a cell in common if and only if one of their starts lies less than a window behind the other |
| `Crowding.AttemptFits` | bucket_map/src/bucket.rs:322-353 | re-hashing succeeds for every set of keys that is uncrowded under the seed, in whatever order they come |
| `Crowding.UncrowdedGrows` | bucket_map/src/bucket.rs:419-430 | keys that are uncrowded in one table are uncrowded in every larger one |
| `IndexGrowth.SharedUidBound` | bucket_map/src/bucket.rs:419-430 | a table can hold at most as many keys of one uid as a window has cells, under any seed |
| `DataModel.SizeClassIsLeast` | bucket_map/src/index_entry.rs:29-35 | the size class of n slots is the least b with n at most two to the b |
| `DataModel.LocInRange` | bucket_map/src/index_entry.rs:43-45 | a re-addressed entry points inside the storage it points into |
| `DataModel.PlacedExactly` | bucket_map/src/index_entry.rs:43-45 | in sound storages an entry is placed if and only if its storage exists, has not shrunk and held its offset when it was placed |
| `DataModel.InPlaceWrite` | bucket_map/src/bucket.rs:262-269 | overwriting the slots where they are sets this key and disturbs no other |
| `DataModel.MoveWrite` | bucket_map/src/bucket.rs:270-291 | freeing the old cell and taking a new one sets this key, keeps all owned cells distinct and stamped with their uid, and disturbs no other key |
| `DataModel.ReleaseAndDrop` | bucket_map/src/bucket.rs:299-311 | freeing the data cell and dropping the entry removes this key and no other |
| `DataModel.OneCellUpdate` | bucket_map/src/bucket.rs:238-297 | any change confined to one cell that no other key owns changes the meaning of one key at most |
| `DataGrowth.AddressesScale` | bucket_map/src/index_entry.rs:43-45 | lazy re-addressing after further growth multiplies the address exactly as the copy moved the cell |
| `DataGrowth.GrownEntry` | bucket_map/src/bucket_storage.rs:286-308 | after a growth every entry still reads its own cell, uid and slots at its scaled address |
| `DataGrowth.GrowthKeepsMeaning` | bucket_map/src/bucket.rs:404-417 | replacing a data storage by its grown copy changes no key, uid or slot list |
| `DataGrowth.ApplyKeepsMeaning` | bucket_map/src/bucket.rs:384-400 | installing a grown or new storage, gap storages included, keeps every size class and changes no answer |
| `DataGrowth.GrownOddCellsFree` | bucket_map/src/bucket.rs:404-417 | after a growth every odd cell is free |
| `DataGrowth.OddCellsServe` | bucket_map/src/bucket.rs:270-296 | with the odd cells free and a window of two or more cells a free cell is found from any start |
| `StorageModel.SpreadAt` | bucket_map/src/bucket_storage.rs:286-308 | copying puts cell i at i shifted by the increment |
| `ByteLayout.SliceInOwnCell` | bucket_map/src/bucket_storage.rs:192-229 | in every valid state the bytes of a slot list start eight bytes into their own cell and end inside it, and a cell takes eight bytes and its class of elements |
| `ByteLayout.SlicesAreApart` | bucket_map/src/bucket_storage.rs:192-229 | the slot lists of two keys share no byte |
| `ByteLayout.CopyFile` | bucket_map/src/bucket_storage.rs:286-308 | copying byte ranges moves whole cells, in bounds, and leaves everything else zero |
| `ByteLayout.CopyCell` | bucket_map/src/bucket_storage.rs:293-304 | the byte range written for cell i is exactly the destination cell |
| `BucketModel.NewBucketIsEmpty` | bucket_map/src/bucket.rs:80-101 | a new bucket satisfies the invariant, means the empty map, and has an index of 32 cells and no data storage |
| `BucketModel.FoundEntry` | bucket_map/src/bucket.rs:143-187 | in a valid bucket the index search, the abstract map and the entry agree |
| `BucketModel.TryWriteRefines` | bucket_map/src/bucket.rs:238-297 | which of the three outcomes a write has, decided before it runs, and its exact effect: nothing on a full index or a missing storage, only the count on a full storage, the key otherwise |
| `BucketModel.OldKeyRefines` | bucket_map/src/bucket.rs:249-297 | the same for a key that is already stored |
| `BucketModel.NewKeyRefines` | bucket_map/src/bucket.rs:249-297 | the same for a new key, which appears with an empty list when its data storage is full |
| `BucketModel.WriteAtRefines` | bucket_map/src/bucket.rs:258-297 | the write at the found entry, in place or moved |
| `BucketModel.DeleteKeyRefines` | bucket_map/src/bucket.rs:299-311 | deleting removes the key and nothing else, and is harmless for a missing key |
| `BucketModel.AddRefRefines` | bucket_map/src/bucket.rs:216-220 | the count of a stored key goes up by one and is returned, or the call panics at 2^64 - 1 and changes nothing; a missing key gives none |
| `BucketModel.UnRefRefines` | bucket_map/src/bucket.rs:222-226 | the count of a stored key goes down by one and is returned, or the call panics at zero and changes nothing; a missing key gives none |
| `GrowthModel.GrowKeeps` | bucket_map/src/bucket.rs:404-445 | growing under the read lock touches nothing in use; it parks exactly when it is computed and no other is announced, panics exactly when it is computed after another or outdated, and is ignored exactly when the index has grown since |
| `GrowthModel.ParkedIsLarger` | bucket_map/src/bucket.rs:313-417 | a data growth parks twice the reported capacity and 32 cells at least; an index growth tries twice the present capacity first and doubles with every rejected seed, and parks the first attempt that fits |
| `GrowthModel.HandleKeeps` | bucket_map/src/bucket.rs:448-462 | applying what was parked changes no answer, so deferred growth neither loses nor revives an update |
| `GrowthModel.InstalledIsParked` | bucket_map/src/bucket.rs:384-400 | applying a data growth installs it, adds empty storages of 32 cells for missing classes below and touches no other; applying an index growth installs it with its seed |
| `GrowthModel.TryWriteInv` | bucket_map/src/bucket.rs:238-297 | a write cannot disturb what is parked, and a failed write reports a capacity that is current |
| `GrowthModel.RoundRefines` | bucket_map/src/bucket.rs:464-476 | one round of the insert loop: the write decides the effect, growth adds none |
| `GrowthModel.InsertRefines` | bucket_map/src/bucket.rs:464-476 | a finished insert sets exactly this key, an unfinished one has set its count at most, and without a collision none panics |
| `InsertProgress.AtMostOneDataGrowth` | bucket_map/src/bucket.rs:464-476 | with windows of two or more cells one insert performs at most one data growth, whatever the random positions and seeds |
| `NarrowWindow.GrowsTwice` | bucket_map/src/bucket.rs:270-296 | with windows of one cell an insert whose start meets a locked cell can meet it again after the growth, and grow the data twice before it finishes |
| `NarrowWindow.OneCellIsTooFew` | bucket_map/src/bucket.rs:464-476 | a run from a new bucket to a state in which one insert does so |
| `InsertProgress.RetryMakesRoom` | bucket_map/src/bucket.rs:464-476 | a data growth leaves room for the retry and an index growth leaves the data alone |
| `InsertProgress.InsertFinishes` | bucket_map/src/bucket.rs:464-476 | with index room for the key two attempts are enough |
| `InsertProgress.FittingSeedsFinish` | bucket_map/src/bucket.rs:464-476 | an insert that has to grow the index finishes once its random numbers hold three seeds in a row under which all keys find room |
| `InsertProgress.SeparatingSeedsDecide` | bucket_map/src/bucket.rs:313-373 | with seeds under which the hashes of different uids lie at least a window apart modulo the capacity, an insert finishes if and only if its key is stored or fewer keys share its uid than a window has cells |
| `InsertProgress.FewKeysFinish` | bucket_map/src/bucket.rs:464-476 | with fewer keys than a window has cells every insert finishes |
| `InsertRuns.SharedUidRun` | bucket_map/src/bucket.rs:313-373 | from a new bucket, as many inserts of keys with one uid return as a window has cells, and one more never does |
| `InsertProgress.SharedUidNeverFinishes` | bucket_map/src/bucket.rs:313-373 | once a window is full of keys with one uid, the insert of one more never finishes, whatever the seeds |
| `InsertProgress.SharedUidIsFull` | bucket_map/src/bucket.rs:189-214 | as many stored keys of one uid as a window has cells fill the window of every further key with that uid |
| `Orphans.TryWriteOrphans` | bucket_map/src/bucket.rs:238-297 | a write keeps every cell without an owner and adds one if and only if it shrinks a one-slot list to none |
| `Orphans.InsertOrphans` | bucket_map/src/bucket.rs:464-476 | the same count, if and only if, for the whole insert loop with its growths, from any state it can start in |
| `Orphans.DeleteOrphans` | bucket_map/src/bucket.rs:299-311 | deleting a key leaves no cell behind and gives none back |
| `Orphans.SetCountOrphans` | bucket_map/src/bucket.rs:216-226 | changing a reference count leaves no cell behind and gives none back |
| `Orphans.HandleOrphans` | bucket_map/src/bucket.rs:448-462 | applying a growth moves the cells without an owner and keeps their number |
| `Scans.KeysExact` | bucket_map/src/bucket.rs:103-117 | keys lists each stored key once, and the reported length is their number |
| `Scans.ItemsExact` | bucket_map/src/bucket.rs:119-141 | items_in_range lists exactly the stored keys in range, once each, with what reading each gives |
| `BucketStorages.BucketStorage.constructor` | bucket_map/src/bucket_storage.rs:84-103 | a new storage is unlocked everywhere |
| `BucketStorages.BucketStorage.Uid` | bucket_map/src/bucket_storage.rs:126-134 | reads the lock word of a cell |
| `BucketStorages.BucketStorage.Allocate` | bucket_map/src/bucket_storage.rs:136-151 | locks a cell if and only if it was free |
| `BucketStorages.BucketStorage.Free` | bucket_map/src/bucket_storage.rs:153-170 | unlocks a cell held by the given uid |
| `BucketStorages.BucketStorage.Get` | bucket_map/src/bucket_storage.rs:172-181 | reads what follows a header |
| `BucketStorages.BucketStorage.Set` | bucket_map/src/bucket_storage.rs:206-229 | overwrites what follows a header and no lock |
| `BucketStorages.BucketStorage.CopyContents` | bucket_map/src/bucket_storage.rs:286-308 | the copying loop produces the spread contents |
| `BucketStorages.NewResized` | bucket_map/src/bucket_storage.rs:311-337 | a resized storage holds the spread contents, or is empty without a predecessor |
| `Buckets.BucketFindEntry` | bucket_map/src/bucket.rs:170-187 | the probing loop computes the specified search |
| `Buckets.BucketCreateKey` | bucket_map/src/bucket.rs:189-214 | the allocating loop computes the specified insertion, or changes nothing |
| `Buckets.RehashInto` | bucket_map/src/bucket.rs:331-353 | the re-hashing loop computes the specified re-hash or reports failure |
| `Buckets.FirstFitting` | bucket_map/src/bucket.rs:317-365 | the retry loop stops at the first attempt that fits |
| `Buckets.Bucket.constructor` | bucket_map/src/bucket.rs:80-101 | creates the new bucket of the model |
| `Buckets.Bucket.BucketLen` | bucket_map/src/bucket.rs:103-105 | returns the number of stored keys |
| `Buckets.Bucket.Keys` | bucket_map/src/bucket.rs:107-117 | lists every stored key once |
| `Buckets.Bucket.ItemsInRange` | bucket_map/src/bucket.rs:119-141 | lists the stored keys in range with their values |
| `Buckets.Bucket.ReadValue` | bucket_map/src/bucket.rs:232-236 | returns what the abstract map holds, and none of its uid assertions can fail |
| `Buckets.Bucket.WriteEntry` | bucket_map/src/bucket.rs:258-297 | the in-place and the moving branch, on storages updated in place |
| `Buckets.Bucket.TryWrite` | bucket_map/src/bucket.rs:238-297 | refines the write of the model and keeps the object invariant |
| `Buckets.Bucket.DeleteKey` | bucket_map/src/bucket.rs:299-311 | refines the deletion of the model |
| `Buckets.Bucket.AddRef` | bucket_map/src/bucket.rs:216-220 | refines the count change of the model |
| `Buckets.Bucket.UnRef` | bucket_map/src/bucket.rs:222-226 | refines the count change of the model |
| `Buckets.Bucket.GrowData` | bucket_map/src/bucket.rs:404-417 | parks a grown storage made of new objects and touches none in use |
| `Buckets.Bucket.GrowIndex` | bucket_map/src/bucket.rs:313-373 | parks a re-hashed index made of new objects and touches none in use |
| `Buckets.Bucket.Grow` | bucket_map/src/bucket.rs:434-445 | refines the growth of the model |
| `Buckets.Bucket.HandleDelayedGrows` | bucket_map/src/bucket.rs:448-462 | installs the parked storage |
| `Buckets.Bucket.ApplyGrowIndex` | bucket_map/src/bucket.rs:375-378 | installs the parked index with its seed |
| `Buckets.Bucket.PushGaps` | bucket_map/src/bucket.rs:386-396 | fills missing size classes with empty storages |
| `Buckets.Bucket.TryInsert` | bucket_map/src/bucket.rs:464-476 | one round of the insert loop |
| `Buckets.Bucket.Insert` | bucket_map/src/bucket.rs:464-476 | the insert loop refines the insert of the model |
| `Buckets.Bucket.Update` | bucket_map/src/bucket.rs:478-490 | deletes or inserts what the update function makes of the present value |
| `BucketApis.BucketApi.GetWriteBucket` | bucket_map/src/bucket_api.rs:91-105 | creates the bucket or applies the waiting growth before any write |
| `BucketApis.BucketApi.Insert` | bucket_map/src/bucket_api.rs:119-122 | refines the step of the model |
| `BucketApis.BucketApi.Update` | bucket_map/src/bucket_api.rs:132-138 | refines the step of the model |
| `BucketApis.BucketApi.DeleteKey` | bucket_map/src/bucket_api.rs:84-89 | refines the step of the model |
| `BucketApis.BucketApi.AddRef` | bucket_map/src/bucket_api.rs:107-111 | refines the step of the model |
| `BucketApis.BucketApi.UnRef` | bucket_map/src/bucket_api.rs:113-117 | refines the step of the model |
| `BucketApis.BucketApi.TryWrite` | bucket_map/src/bucket_api.rs:140-147 | refines the step of the model |
| `BucketApis.BucketApi.Grow` | bucket_map/src/bucket_api.rs:124-130 | refines the step of the model; a missing bucket is left missing |
| `BucketApis.BucketApi.ReadValue` | bucket_map/src/bucket_api.rs:67-73 | refines the step of the model and changes nothing |
| `BucketApis.BucketApi.BucketLen` | bucket_map/src/bucket_api.rs:75-82 | refines the step of the model and changes nothing |
| `BucketApis.BucketApi.Keys` | bucket_map/src/bucket_api.rs:58-64 | refines the step of the model and changes nothing |
| `BucketApis.BucketApi.ItemsInRange` | bucket_map/src/bucket_api.rs:45-55 | refines the step of the model and changes nothing |
| `BucketMaps.NewBucketMap` | bucket_map/src/bucket_map.rs:59-111 | creates the empty map, or fails exactly when the bucket count is not a positive power of two |
| `BucketMaps.BucketMap.BucketIxOf` | bucket_map/src/bucket_map.rs:161-168 | returns the shard of a key, always in range |
| `BucketMaps.BucketMap.Insert` | bucket_map/src/bucket_map.rs:135-137 | refines the step of the sharded model |
| `BucketMaps.BucketMap.TryInsert` | bucket_map/src/bucket_map.rs:140-142 | refines the step of the sharded model |
| `BucketMaps.BucketMap.Update` | bucket_map/src/bucket_map.rs:145-150 | refines the step of the sharded model |
| `BucketMaps.BucketMap.DeleteKey` | bucket_map/src/bucket_map.rs:130-132 | refines the step of the sharded model |
| `BucketMaps.BucketMap.AddRef` | bucket_map/src/bucket_map.rs:171-175 | refines the step of the sharded model |
| `BucketMaps.BucketMap.UnRef` | bucket_map/src/bucket_map.rs:178-182 | refines the step of the sharded model |
| `BucketMaps.BucketMap.ReadValue` | bucket_map/src/bucket_map.rs:125-127 | refines the step of the sharded model and changes nothing |
| `Funding.GenerateKeypairs` | bench-tps/src/bench.rs:868-882 | the key count is the least whole number of layers of a fan-out-four tree that covers the request, extra is the number of its senders, and it panics exactly when the key count exceeds 64 bits |
| `Funding.TreeUnfolds` | bench-tps/src/bench.rs:868-882 | how the numbers of keys and senders grow with a layer |
| `Funding.FundsSplit` | bench-tps/src/bench.rs:918-921 | the total of a tree is one account, one fee and four exact totals of the subtrees, so each division by four is exact |
| `Funding.FundableExactly` | bench-tps/src/bench.rs:690-730 | funding goes through if and only if the keys fill whole layers and the total holds a balance and a fee for each sender |
| `Funding.PlanRound` | bench-tps/src/bench.rs:702-712 | each funded key takes the last four keys left, and the drain panics exactly when there are too few |
| `Funding.FundRound` | bench-tps/src/bench.rs:701-729 | one round moves the same amount from each sender to each of its four keys, for any amount |
| `Funding.GainedAt` | bench-tps/src/bench.rs:690-730 | what an account of each layer has gained after any number of rounds, for any total |
| `Funding.FundKeys` | bench-tps/src/bench.rs:690-730 | for any keys and any total: panics exactly when it cannot go through, in the first round that asks for too much, leaves each account what the finished rounds gave it, and otherwise pays every key exactly once |
| `Funding.FundingIsExact` | bench-tps/src/bench.rs:690-730 | with the total the generator asks for every division is exact and every account gains the wanted amount, senders with the unspent part of their fee on top |
| `Funding.FundsConserved` | bench-tps/src/bench.rs:918-921 | the total equals the shares left behind plus one fee per transaction |
| `Funding.GenerateAndFundKeypairs` | bench-tps/src/bench.rs:884-947 | returns the requested keys, or panics exactly when none is asked for, an amount exceeds 64 bits or the funding account falls short without a faucet; the balance of every account afterwards, funded unless the first and the last key still hold four fifths |
| `BitWords.OrBitIsUpdate` | bloom/src/bloom.rs:166-187 | or-ing the mask into its word sets that bit of the flat vector and no other |
| `BitWords.LowBits` | bloom/src/bloom.rs:166-175 | masking with 63 is the remainder by 64 |
| `BitWords.BitIsDigit` | bloom/src/bloom.rs:166-175 | testing a word with a mask reads the binary digit at that place |
| `BitWords.PackRoundTrip` | bloom/src/bloom.rs:149-163 | packing into words and reading back is the identity, with clear padding |
| `BitWords.TotalOnesPadded` | bloom/src/bloom.rs:217-234 | counting ones word by word counts the set bits of the flat vector when the padding is clear |
| `BloomFilter.SetAllAt` | bloom/src/bloom.rs:110-118 | after an add a bit is set if and only if it was set or is one of the positions |
| `BloomFilter.Bloom.constructor` | bloom/src/bloom.rs:66-74 | a new filter has no bit set |
| `BloomFilter.Bloom.Clear` | bloom/src/bloom.rs:106-109 | clears every bit and the count, keeps the keys |
| `BloomFilter.Bloom.Add` | bloom/src/bloom.rs:110-118 | a bit is set afterwards if and only if it was set or is a hash of the item modulo the number of bits, and the count stays equal to the number of set bits; panics without any bit |
| `BloomFilter.Bloom.Contains` | bloom/src/bloom.rs:119-127 | true if and only if the bit at every hash of the item modulo the number of bits is set |
| `BloomFilter.AtomicPosIs` | bloom/src/bloom.rs:166-175 | the word index and mask address the position that the flat filter uses |
| `BloomFilter.AtomicBloom.FetchOr` | bloom/src/bloom.rs:179-187 | the atomic step: returns the old word and sets the mask |
| `BloomFilter.AtomicBloom.Add` | bloom/src/bloom.rs:179-187 | run alone, sets exactly the bits at the hashes of the item and returns true if and only if the item was not contained before |
| `BloomFilter.AtomicBloom.Contains` | bloom/src/bloom.rs:189-195 | true if and only if the bit at every hash of the item modulo the number of bits is set |
| `BloomFilter.IntoAtomic` | bloom/src/bloom.rs:149-163 | same keys, same bits, clear padding |
| `BloomFilter.FromAtomic` | bloom/src/bloom.rs:217-234 | same keys, same bits, and a count equal to the number of set bits |
| `BloomFilter.FlatRoundTrip` | bloom/src/bloom.rs:149-234 | from flat to words and back is the identity, and the count survives |
| `BloomFilter.WordsRoundTrip` | bloom/src/bloom.rs:149-234 | for every valid atomic filter, from words to flat and back is the identity |
| `BloomConcurrency.RunBits` | bloom/src/bloom.rs:179-187 | after any interleaving of steps a bit is set if and only if it was set or some step touched it |
| `BloomConcurrency.ConcurrentAdds` | bloom/src/bloom.rs:179-195 | any execution of any number of concurrent adds ends in exactly the bits of the flat adds in any order, with clear padding and every item contained |
| `BloomConcurrency.OwnWordDecides` | bloom/src/bloom.rs:179-187 | a word, and so what a step on it reports, depends on the order of its own steps alone, as relaxed ordering has it |
| `BloomConcurrency.JoinExecutes` | bloom/src/bloom.rs:179-187 | every choice of one order for each word that holds the steps of every thread is an execution of the threads |
| `BloomConcurrency.JoinKeepsOrders` | bloom/src/bloom.rs:179-187 | in that execution each word has the order chosen for it |
| `BloomConcurrency.ReportsFirst` | bloom/src/bloom.rs:179-187 | a step reports its bit as new if and only if the bit was clear and no earlier step touched it |
| `BloomConcurrency.ReportedAtMostOnce` | bloom/src/bloom.rs:179-187 | no bit is reported twice |
| `BloomConcurrency.ReportedIffNew` | bloom/src/bloom.rs:179-187 | a bit is reported by some step if and only if it is newly set |
| `BloomConcurrency.ThreadIsTold` | bloom/src/bloom.rs:177-187 | a concurrent add returns true if and only if some bit of its item was clear and it was the first to touch it |
| `BloomConcurrency.SomeThreadIsTold` | bloom/src/bloom.rs:179-187 | some thread is told that it added something if and only if some item was not contained before |
| `BloomConcurrency.BothCanBeTold` | bloom/src/bloom.rs:177-187 | two threads adding one absent item with two bits can both be told that it was new |
| `BloomConcurrency.AbsentCanBeDenied` | bloom/src/bloom.rs:177-187 | a thread whose item with two bits is absent when it starts can be told that it was not new |
| `BloomConcurrency.LookupFindsAdded` | bloom/src/bloom.rs:189-195 | a lookup whose loads come after a completed add of its item never misses it, whatever adds interleave with the loads |
| `BloomConcurrency.LookupExactly` | bloom/src/bloom.rs:189-195 | a lookup finds an item if and only if each bit was set before the run or by a step before its load |
| `CrateOrder.GetPackages` | ci/order-crates-for-publishing.py:24-72 | an order comes out if and only if the recorded graph is acyclic; it lists every package once, as last listed, behind every package with the wanted prefix that it needs, by depth and then first listing. A direct cycle is reported, with exactly its pairs, if and only if two packages with the prefix need each other; when the guard fires the listed crates are exactly those that cannot be ordered. For the whole workspace: an order comes out if and only if every cycle runs through a dropped dependency, and the result is right if and only if a cycle is recorded or every dropped dependency is published first |
| `CrateOrder.CyclesKept` | ci/order-crates-for-publishing.py:29-46 | the recorded graph is acyclic if and only if every cycle of the workspace runs through a dependency without the prefix |
| `CrateOrder.RespectsExactly` | ci/order-crates-for-publishing.py:48-72 | the listed order is an order of the workspace if and only if each dropped dependency lies less deep, or as deep and is listed first |
| `CrateOrder.NothingDropped` | ci/order-crates-for-publishing.py:29-33 | when every dependency on a listed package has the prefix, the recorded graph decides for the workspace |
| `CrateOrder.UnseenCycle` | ci/order-crates-for-publishing.py:29-46 | two crates that depend on each other, one without the prefix: a cycle that is not seen |
| `CrateOrder.WrongOrder` | ci/order-crates-for-publishing.py:29-72 | a crate listed before one without the prefix that it depends on: the workspace has an order, and another one comes out |
| `CrateOrder.LayerIsDepth` | ci/order-crates-for-publishing.py:59-69 | a round lists exactly the crates whose longest chain of recorded dependencies has the number of rounds before it |
| `CrateOrder.OrderLayers` | ci/order-crates-for-publishing.py:48-72 | the layered loop, with its guard of the square of the number of crates |
| `CrateOrder.ReadPackages` | ci/order-crates-for-publishing.py:29-33 | builds the graph and the manifest table |
| `CrateOrder.RecordedIsLast` | ci/order-crates-for-publishing.py:29-33 | a package is recorded as its last listing gives it, with exactly the dependencies that are the wanted prefix and some rest |
| `CrateOrder.GraphEdges` | ci/order-crates-for-publishing.py:29-33 | the recorded graph has an edge if and only if one last listing names another and the name has the prefix |
| `CrateOrder.OrderPublishes` | ci/order-crates-for-publishing.py:48-72 | in an order of the recorded graph every last listing stands once, with its own manifest, behind those with the prefix that it names |
| `CrateOrder.DirectCycles` | ci/order-crates-for-publishing.py:35-46 | collects exactly the pairs of crates that depend on each other |
| `CrateOrder.Layer` | ci/order-crates-for-publishing.py:59-67 | one round lists exactly the crates that wait for none that remains |
| `CrateOrder.RoundAdvances` | ci/order-crates-for-publishing.py:50-69 | a round lists nothing if and only if every remaining crate waits for another |
| `CrateOrder.GuardIsRight` | ci/order-crates-for-publishing.py:53-55 | when the guard fires the remaining crates wait for one another, and every set of such crates is among them |
| `CrateOrder.StuckIsCyclic` | ci/order-crates-for-publishing.py:53-55 | crates that wait for one another contain a dependency cycle |
| `CrateOrder.OrderedIsAcyclic` | ci/order-crates-for-publishing.py:48-72 | a graph that has an order has no cycle |
| `TokenAmount.RealNumberString` | account-decoder/src/parse_token.rs:179-190 | padding and inserting the point print the whole part and exactly the wanted number of fraction digits |
| `TokenAmount.RealStringDigits` | account-decoder/src/parse_token.rs:179-190 | the whole part is written without leading zeros, then a point, then the digit of each decimal place |
| `TokenAmount.RealStringReadsBack` | account-decoder/src/parse_token.rs:179-190 | the printed string reads back as the amount with the same number of decimals |
| `TokenAmount.RealNumberStringTrimmed` | account-decoder/src/parse_token.rs:192-199 | prints the number in lowest terms, and reads back as that number with the fewest fraction digits |
| `TokenAmount.TrimmedIsReduced` | account-decoder/src/parse_token.rs:192-199 | the trimmed string is the plain print of the number in lowest terms |
| `TokenAmount.TrimmedReadsBack` | account-decoder/src/parse_token.rs:192-199 | the trimmed string still reads as the same number, with the fewest fraction digits |
| `TokenAmount.TrimmedIsCanonical` | account-decoder/src/parse_token.rs:192-199 | two amounts print alike if and only if they are the same number |
| `TokenAmount.DecimalParses` | account-decoder/src/parse_token.rs:210-228 | a printed amount parses back to itself |
| `TokenAmount.ParseExactly` | account-decoder/src/parse_token.rs:211-222 | a string parses to a number if and only if it is digits of that value, possibly behind a plus sign, and the value fits 64 bits |
| `TokenAmount.TokenAmountToUiAmount` | account-decoder/src/parse_token.rs:230-240 | the amount field is the decimal digits of the amount without sign or leading zeros, and the record shows the amount in every field; the number itself is given exactly up to nineteen decimals |
| `TokenAmount.UiRealNumberString` | account-decoder/src/parse_token.rs:211-216 | prints the amount the record shows, and zero for an unreadable one |
| `TokenAmount.UiRealNumberStringTrimmed` | account-decoder/src/parse_token.rs:218-227 | gives the same string whether or not the sender filled in the printed form |

## Left out

- Memory-mapped files, drives, temporary directories, removal of files, pointer casts, timing and statistics of the bucket map.
- `BucketApi` counter of keys: it is stored before the operation runs and lags behind.
- Use counter of data storages: a growth does not carry it over and nothing reads it.
- Widths of capacities: the exponent and the capacity are unbounded here, so their overflow in `u8` and `u64` is not modelled.
- DataModel.SizeClassIsLeast: the floating-point logarithm is replaced by the integer ceiling, so its rounding for lists of 2^32 slots and more is not modelled.
- ApiSafety.PanicsExactly: does not cover the overflow of capacities, because their widths are not modelled.
- MapRuns.MapPanicsExactly: the same.
- InsertProgress.SharedUidNeverFinishes: the retries go on without bound, because the capacity at which creating the file panics is not modelled.
- InsertRuns.SharedUidRun: the same.
- InsertProgress.FittingSeedsFinish: also counts a fitting seed that comes only beyond that capacity.
- InsertProgress.SeparatingSeedsDecide: the same.
- Wrap-around of reference counts in builds without overflow checks.
- Exact value of the growth counter once two growths have collided, and the poisoning of the mutex around parked storages.
- Scheduling inside one call: calls under the lock are atomic steps, in any order.
- Internals of the hash functions, and how likely a random seed is to fit.
- Fairness of the lock: a waiting write does not keep later reads out.
- InsertProgress.InsertFinishes: covers the inserts that need no index growth; those that do are the subject of `InsertProgress.FittingSeedsFinish`.
- Funding.FundKeys: assumes distinct keys, a source that holds the total, and a fee of at most the maximum.
- Funding.FundRound: assumes senders that can pay, because what the client does about a rejected transaction is not modelled.
- BloomConcurrency.LookupFindsAdded: assumes that the loads are ordered after the add, which relaxed ordering does not give without other synchronisation.
- BloomConcurrency.LookupExactly: places each load in the order of the word it reads; which places are possible is not modelled.
- Threads, retries, signing, verification and blockhashes of the benchmark client: a round applies all its transfers, each for the same fee.
- Airdrops: an airdrop tops the account up to the wanted balance.
- Random construction, sizing formulas and false-positive rates of the Bloom filter.
- Saturation of the count of set bits, and clearing or cloning of the atomic filter outside its operations.
- Loading of cargo metadata, and the text and order of printed cycle messages: a direct cycle is reported as a set of pairs.
- TokenAmount.TokenAmountToUiAmount: gives the number itself, without the rounding of the floating-point quotient.
- Other account parsers, the command line, the clients and servers, and the remaining build scripts: plumbing over libraries, with little to prove.
