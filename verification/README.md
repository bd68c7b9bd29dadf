# FreeAmp: what its stores, buffers, lists and histories promise

This project models four parts of the FreeAmp player and proves what they are for.

**The database (`lib/gdbm`).** A file of key/data records with extendible hashing. A directory of
bucket addresses is indexed by the top bits of a 31-bit hash; every bucket is a linear-probing table
with a small table of free extents; full buckets split, sometimes several times, and may double the
directory; a write-back cache of buckets and a one-record data cache per slot sit on top; free file
space is kept in the current bucket, in the header, and in a stack of tables in the file. The main
result is in `Gdbm.dfy`: on an open database, store, delete and fetch behave as updates and lookup
of a plain map (`content`), every call leaves everything on disk, and a file opened again stands for
the same map. Under it are

- `Extents`, `Falloc`, `FallocRuns`: free space counted byte by byte, so that conservation over every
  run excludes handing out a byte twice; sorted tables; `FallocPlaces`: which table an extent goes to and
  comes from; `FallocCapacity`, `FallocOverrun`: how full the
  header's table gets, when a pop overruns it, and a run that does;
- `AvailTables`: the same routines on arrays shifted in place and on the linked stack in the file;
- `Probing`: placing and deleting in a probing table, with termination of the back-shift on a table
  without any other empty slot; `Directory`: prefixes of hashes, doubling, splitting;
- `Content`: how buckets represent a map, and that splitting, storing and deleting change it as they
  should; `Ownership`, `Accounts`: every byte of the file has
  exactly one owner; `Pages`: what the file holds,
  where a write destroys whatever it overlaps, and the stack of tables linked through its blocks;
- `Database`, `CacheSteps`, `SplitSteps`, `EntrySteps`, `DiskSteps`: the fields of the open database as
  one value, its invariant, and one lemma per step; `SplitTermination`, `Lookup`: when the split loop
  ends, and what the search may conclude; `OpenNew`: creating a file.

**The stream buffers (`io/src`, `base/include/queue.h`).** `PullBuffer` is a ring with an overflow area
between one producer and one consumer; its methods are proved against the sequence of unread bytes and
may interleave in any order. `Queue` is the linked queue. `EventBuffer` queues events against places in
the byte stream, which it must recover from two ring indices.

**Playlist and undo (`base/src`).** `Playlist` keeps two orderings of the same items and one index whose
meaning depends on the shuffle mode; `ItemLists` has the facts about lists. `Undo` is a linear history
with a cursor that wraps around.

**The catalogue record (`base/src/musiccatalog.cpp`).** `Catalog` prints and parses the length-prefixed
record of a track.

## Where the code does less than one would expect

- The header's free table can be overrun by one entry when a table is popped from the stack: the code
  pops when its table is at most half full, and an even capacity then lacks room for the block itself.
  `FallocOverrun.PopOverruns` is a run of 147 requests from a new file that ends so;
  `DiskSteps.CapacityIsEven` shows that every power-of-two block size gives an even capacity.
  `FallocCapacity.PopRoomExactly` is the exact condition of one pop. It needs a table of half the
  capacity on the stack, and `FallocCapacity.PushStarvesExactly` says which push leaves one. The model
  keeps both as history: `past.overrun` is set by a pop without room, `past.starved` by such a push.
  What is claimed of an allocation, a split or a store holds while `past.overrun` is false, and the
  table is then within its array; once it is set the model's table is longer than the array, and no
  further call is claimed to do anything. `Gdbm.Dbf.Store` also says what a caller can check for the
  call to be free of it.
- The split loop does not end if every entry of the full bucket has the hash to be inserted:
  `SplitTermination.LoopEndsExactly` shows that it ends exactly when some entry differs, and
  `KeyHash.CollidingKeys` that more than enough keys have one hash. `Gdbm.Dbf.Store` therefore asks that
  a full bucket hold another hash.
- After a resize that leaves the ring exactly full, the write index is the size of the ring, which the
  other calls assert never happens (`PullBuffers.PullBuffer.Resize`).
- An event accepted while the ring is full stops the reader before its bytes
  (`EventBuffers.FullRingStopsTheReader`); this is the only case (`EventBuffers.DistanceIsExact`).
- A block moved within the playlist can land behind the item it should be in front of
  (`Playlists.LandsBehind`); `Playlists.BlockLandsInPlace` says exactly when it does not.
- Setting a current index that is no place of the master list leaves a non-empty list without a current
  item; every other operation keeps one.
- The comment of `gdbm_store` gives 0 as its result when a key must not be replaced; the code returns 1,
  and so does the model.


## Model

| member | source | states |
|---|---|---|
| `Gdbm.Dbf.Store` | lib/gdbm/gdbmstore.c:49-170 | unless a pop on the way had no room in the header's table: the map gains exactly this key and data, or is unchanged with -1 (not a writer) or 1 (key present, no replacing); every invariant holds again, the table is within its array and everything is on disk; such a pop takes a full half on the stack, and is excluded when there is none, the table is not full and the bucket needs no split; no byte loses its owner and the file does not shrink |
| `Gdbm.Dbf.Delete` | lib/gdbm/gdbmdelete.c:40-119 | the map loses exactly this key; -1 and no change for a reader or an absent key; no byte loses its owner |
| `Gdbm.Dbf.Fetch` | lib/gdbm/gdbmfetch.c:40-76 | the result is lookup in the map, although caches and file may change on the way |
| `Gdbm.Dbf.FindKey` | lib/gdbm/findkey.c:90-160 | a slot is reported if and only if the key is in the map; it carries the key, and the bytes returned are its data |
| `Gdbm.Dbf.Search` | lib/gdbm/findkey.c:119-158 | the walk along the probe chain finds the entry of the key or there is none in the bucket |
| `Gdbm.Dbf.TestSlot` | lib/gdbm/findkey.c:123-147 | the comparison in stages, reading the record only for a candidate, decides whether the slot carries the key |
| `Gdbm.Dbf.ReadEntry` | lib/gdbm/findkey.c:39-81 | the bytes of the entry's record, from the data cache or the file; the cache then repeats that entry |
| `Gdbm.Dbf.SplitBucket` | lib/gdbm/bucket.c:128-315 | ends with room for the hash in the current bucket; same map, same records; terminates when some entry has another hash; the header's table is within its array unless a pop had no room, which is recorded; no byte loses its owner |
| `Gdbm.Dbf.SplitOnce` | lib/gdbm/bucket.c:169-310 | one turn of the loop keeps invariant and map, uses one more hash bit, makes the bucket of the hash current |
| `Gdbm.Dbf.PrepareSplit` | lib/gdbm/bucket.c:171-245 | two clean cache slots, fresh blocks, a directory large enough, and the entries dealt out |
| `Gdbm.Dbf.ReplaceBucket` | lib/gdbm/bucket.c:265-308 | the new buckets take the place of the old one in directory and cache, the old block is free space of the other one |
| `Gdbm.Dbf.GrowDirectory` | lib/gdbm/bucket.c:200-227 | the directory doubles, its old block is kept to be freed, the map is unchanged |
| `Gdbm.Dbf.FreeOldDirectories` | lib/gdbm/bucket.c:312-314 | the outgrown directories return to free space, no byte loses its owner, the map is unchanged |
| `Gdbm.DoubleDirectory` | lib/gdbm/bucket.c:207-212 | every slot is copied twice, as the specification of doubling says |
| `Gdbm.Redirect` | lib/gdbm/bucket.c:265-273 | exactly the slots of the old bucket are redirected, lower half and upper half |
| `Gdbm.NextSlot` | lib/gdbm/bucket.c:172-177 | the slot next in turn, or the one after it if that is the current one |
| `Gdbm.Dbf.GetBucket` | lib/gdbm/bucket.c:66-121 | the current bucket holds the latest contents of the directory slot's address, from cache or file; nothing else changes meaning |
| `Gdbm.Dbf.LoadBucket` | lib/gdbm/bucket.c:100-117 | the slot next in turn is written back if changed and then holds the bucket read |
| `Gdbm.Dbf.Evict` | lib/gdbm/bucket.c:102-103 | the slot is clean afterwards and no bucket lost its latest contents |
| `Gdbm.Dbf.WriteBucket` | lib/gdbm/bucket.c:321-338 | the slot's bucket is in the file, the slot clean, its data cache empty |
| `Gdbm.Dbf.InitCache` | lib/gdbm/gdbmopen.c:405-441 | all slots empty, invariant kept |
| `Gdbm.Dbf.EndUpdate` | lib/gdbm/update.c:60-110 | buckets, directory and header are all in the file: nothing changed in memory only is left |
| `Gdbm.Dbf.Alloc` | lib/gdbm/falloc.c:61-103 | a block owned by nobody is taken; the stack block the allocator may write destroys nothing in use; the header's table is overrun exactly when the top of the stack is popped without room |
| `Gdbm.Dbf.ReadTop` | lib/gdbm/falloc.c:183-196 | the block read from the file is the top of the stack |
| `Gdbm.Dbf.LoadTables` | lib/gdbm/falloc.c:69-83 | the tables an allocation works on, a popped one read from the file |
| `Gdbm.Dbf.Free` | lib/gdbm/falloc.c:111-161 | a block in transit becomes free space, invariant and map kept; it overruns nothing |
| `Gdbm.Dbf.RemoveEntry` | lib/gdbm/gdbmdelete.c:72-96 | exactly the key of the slot leaves the map, all other entries stay reachable |
| `Gdbm.Dbf.DeleteFound` | lib/gdbm/gdbmdelete.c:72-117 | the found key leaves the map, its record stays owned as free space, everything is written |
| `Gdbm.Dbf.PutEntry` | lib/gdbm/gdbmstore.c:128-160 | entry and record are in place: the map gains key and data |
| `Gdbm.Dbf.StoreNew` | lib/gdbm/gdbmstore.c:116-164 | an absent key is stored, splitting first if the bucket is full; without a full half on the stack and without a split no pop overruns the header's table |
| `Gdbm.Dbf.NewRecord` | lib/gdbm/gdbmstore.c:116-122 | a block for the record; without a full half on the stack it has room for the pop |
| `Gdbm.Dbf.PlaceNew` | lib/gdbm/gdbmstore.c:131-164 | the entry goes to the first free slot from its home, and everything is written |
| `Gdbm.Dbf.StoreFound` | lib/gdbm/gdbmstore.c:93-164 | a present key gets the new data, at the old address if the size is the same; without a full half on the stack and with room in the table no pop overruns it |
| `Gdbm.Dbf.PlaceForReplacement` | lib/gdbm/gdbmstore.c:96-122 | an extent of the same size is reused as it is, another one freed and a new one found; one block of the new size is in transit |
| `Gdbm.Dbf.New` | lib/gdbm/gdbmopen.c:205-317 | a new database is empty and satisfies the whole invariant; its buckets and header table have as many entries as a block has room for and no more; the first blocks are header, directory, bucket and free space |
| `Gdbm.Dbf.Open` | lib/gdbm/gdbmopen.c:318-396 | a file left by any earlier use opens as a database for the same map and the same free space; the stack of tables is recovered from the file by following its links |
| `OpenNew.ChooseDirectory` | lib/gdbm/gdbmopen.c:228-236 | the doubling loop meets the block size if and only if it is 32 times a power of two; the directory has 2^bits slots |
| `OpenNew.Create` | lib/gdbm/gdbmopen.c:205-317 | a database is made exactly for the block sizes a directory can have, otherwise the block size error; it is empty |
| `KeyHash.ComputeHash` | lib/gdbm/hash.c:41-58 | the loop computes the 31-bit hash, signed bytes and wrap-around included: one linear congruence of the length and the shifted bytes |
| `KeyHash.HashIsLinear` | lib/gdbm/hash.c:50-57 | wrapping at 32 bits and masking after every byte come to the same as masking once |
| `Probing.FindFree` | lib/gdbm/gdbmstore.c:132-134 | the first empty slot forward from the home slot, with none empty before it; the probe ends |
| `Probing.PlaceReachable` | lib/gdbm/bucket.c:233-237 | an entry placed in that slot leaves every entry reachable from its home |
| `Probing.RemoveAt` | lib/gdbm/gdbmdelete.c:75-96 | the same entries without the removed one, all reachable again, also when no other slot was empty; terminates by total displacement, then distance to the hole |
| `Probing.MustMoveMeaning` | lib/gdbm/gdbmdelete.c:87-88 | the test of the code is: the entry's path from home crosses the hole |
| `Probing.MoveDisplacement` | lib/gdbm/gdbmdelete.c:91-93 | each move strictly lowers the total displacement |
| `Probing.MoveReachable` | lib/gdbm/gdbmdelete.c:91-93 | a move leaves at most the entries behind the new hole to check |
| `Probing.StopReachable` | lib/gdbm/gdbmdelete.c:82-83 | at an empty slot, or back at the hole, no entry crosses the hole |
| `Probing.SumIsMultiplicity` | lib/gdbm/gdbmdelete.c:72-96 | agreeing on all weights, the notion of same entries used, is agreeing on multiplicities |
| `Directory.DoublingKeepsDirectory` | lib/gdbm/bucket.c:200-212 | after doubling, slots share a bucket exactly when they share its bits |
| `Directory.DoublingKeepsHome` | lib/gdbm/bucket.c:200-212 | after doubling, each hash leads to the same bucket |
| `Directory.SplitRanges` | lib/gdbm/bucket.c:265-273 | the computed ranges are exactly the slots of the split bucket, halved by the next bit |
| `Directory.SplitKeepsDirectory` | lib/gdbm/bucket.c:265-273 | after a split, slots share a bucket exactly when they share its bits, for the new set of buckets |
| `Directory.SplitKeepsHome` | lib/gdbm/bucket.c:229-239 | after a split each hash leads where it led, or to the side its next bit selects |
| `Content.DoublingRepresents` | lib/gdbm/bucket.c:200-227 | doubling leaves the map represented unchanged |
| `Content.Deal` | lib/gdbm/bucket.c:229-239 | the loop deals each entry to the side of its next bit, nothing lost, every entry reachable |
| `Content.PlaceIn` | lib/gdbm/bucket.c:233-238 | an entry put into the first empty slot from its home keeps the others where they are and all reachable |
| `Content.SplitRepresents` | lib/gdbm/bucket.c:229-273 | a split preserves meaning: the new buckets represent the same map |
| `Content.RemoveRepresents` | lib/gdbm/gdbmdelete.c:72-96 | a table without an entry represents the map without its key |
| `Content.PutRepresents` | lib/gdbm/gdbmstore.c:132-144 | an entry for an absent key in a free slot represents the map with it |
| `Content.KeyPresent` | lib/gdbm/findkey.c:119-158 | a key is in the map if and only if the bucket its hash selects has an entry for it |
| `Content.KeyUnique` | lib/gdbm/findkey.c:119-158 | at most one slot carries a key |
| `Lookup.StagedTestIsExact` | lib/gdbm/findkey.c:125-147 | hash, size, first four bytes and full comparison together are equality of keys |
| `Lookup.DataCacheIsExact` | lib/gdbm/findkey.c:107-117 | the data-cache shortcut agrees with the search of the bucket |
| `Lookup.SearchComplete` | lib/gdbm/findkey.c:119-158 | the search may give up at an empty slot or back at home: no entry carries the key |
| `SplitTermination.StillMixed` | lib/gdbm/bucket.c:169-169 | a bucket still full after a split still holds another hash than the one to be inserted |
| `SplitTermination.MixedHasBits` | lib/gdbm/bucket.c:169-266 | such a bucket has hash bits left: the measure 31 - bucket_bits is positive |
| `SplitTermination.SplitStuck` | lib/gdbm/bucket.c:169-310 | if every hash equals the one to be inserted the new bucket is as full as the old and again all alike |
| `SplitTermination.LoopEndsExactly` | lib/gdbm/bucket.c:169-310 | followed until the bucket has room or all hash bits are used, the loop ends with room if and only if some entry had another hash; otherwise every turn leaves the bucket full |
| `SplitTermination.OneHashTableIsStuck` | lib/gdbm/bucket.c:169-310 | such a bucket exists: full of entries of different keys that all have the hash of one more key |
| `KeyHash.CollidingKeys` | lib/gdbm/hash.c:41-58 | 255 different keys of 25 bytes with one hash, more than the 22 slots of a 512-byte bucket |
| `Accounts.SplitFreeExact` | lib/gdbm/bucket.c:241-308 | the two free tables hold exactly the old extents, the old block and the fresh block; neither exceeds BUCKET_AVAIL |
| `Accounts.SplitSpace` | lib/gdbm/bucket.c:190-308 | ownership of every byte across a split: nothing is owned twice, nothing is lost |
| `Accounts.SplitFreeCover` | lib/gdbm/bucket.c:241-308 | bucket 1 starts with the fresh block, bucket 0 keeps the old extents but for one of a full table, and the old block goes to the one that does not become current |
| `Accounts.SplitOwns` | lib/gdbm/bucket.c:190-308 | byte by byte, two new buckets own what the old one owned and the three blocks held centrally |
| `Accounts.RemoveAccounted` | lib/gdbm/gdbmdelete.c:98-101 | a removed entry's record is not lost |
| `Accounts.PutAccounted` | lib/gdbm/gdbmstore.c:141-158 | a put entry's record is not lost |
| `Accounts.RemoveSpace` | lib/gdbm/gdbmdelete.c:98-101 | the record of a removed entry is in transit, nothing else changes owner |
| `Accounts.PutSpace` | lib/gdbm/gdbmstore.c:141-158 | the record in transit belongs to the new entry |
| `Ownership.OneOwner` | lib/gdbm/falloc.c:61-161 | a byte of the file not forgotten before it was opened has exactly one owner: held centrally, or of exactly one bucket |
| `Ownership.AllocAccounted` | lib/gdbm/falloc.c:61-103 | an allocation inside a bucket leaves no byte without an owner, growth of the file included |
| `Ownership.FreeAccounted` | lib/gdbm/falloc.c:111-161 | a free inside a bucket leaves no byte without an owner |
| `Ownership.AllocSpace` | lib/gdbm/falloc.c:61-103 | an allocation inside a bucket keeps every byte with one owner |
| `Ownership.FreeSpace` | lib/gdbm/falloc.c:111-161 | a free inside a bucket keeps every byte with one owner |
| `Database.AllocKeeps` | lib/gdbm/falloc.c:61-103 | the whole invariant across an allocation, its write of a stack block included |
| `Database.HeaderBounded` | lib/gdbm/falloc.c:73-80 | the header's table is within its array until a pop overruns it, which takes a push that left a full half |
| `Database.PagesFit` | lib/gdbm/bucket.c:321-338 | every bucket, the header's table and every block of the stack fit the block they are written to |
| `Database.StackFollows` | lib/gdbm/falloc.c:270-274 | after the allocator ran, every block of the stack is in the file, linked to the one below |
| `Database.FreeKeeps` | lib/gdbm/falloc.c:111-161 | the whole invariant across a free, its write of a stack block included |
| `Ownership.StackBlocksClear` | lib/gdbm/falloc.c:222-276 | two blocks of the stack share no byte |
| `Ownership.FixedStackClear` | lib/gdbm/falloc.c:222-276 | no block of the stack overlaps header, directory or a block in transit |
| `Ownership.BlockStackClear` | lib/gdbm/falloc.c:222-276 | no block of the stack overlaps a bucket |
| `Pages.StackPushed` | lib/gdbm/falloc.c:270-274 | writing a block on top of the stack leaves the blocks below readable |
| `CacheSteps.WriteBucketKeeps` | lib/gdbm/bucket.c:321-338 | write-back keeps the invariant and makes the slot clean |
| `CacheSteps.LoadKeeps` | lib/gdbm/bucket.c:100-117 | the bucket read from the file is the latest one, so loading keeps the cache coherent |
| `CacheSteps.ReadEntryKeeps` | lib/gdbm/findkey.c:50-80 | the data cache filled from the file repeats the entry |
| `CacheSteps.ReadsDataCache` | lib/gdbm/findkey.c:50-52 | a hit in the data cache is the record of that entry |
| `SplitSteps.DoubleKeeps` | lib/gdbm/bucket.c:200-227 | doubling keeps the whole invariant and the map |
| `SplitSteps.SplitKeeps` | lib/gdbm/bucket.c:241-308 | replacing a bucket keeps the whole invariant and the map |
| `SplitSteps.SplitAdvances` | lib/gdbm/bucket.c:169-310 | the loop's claim holds for one more turn: same map, at most one old directory for each bit used |
| `EntrySteps.RemoveKeeps` | lib/gdbm/gdbmdelete.c:72-101 | removing an entry keeps the whole invariant |
| `EntrySteps.HoleKeeps` | lib/gdbm/gdbmstore.c:93-112 | an entry about to be replaced keeps the whole invariant for the map without its key |
| `EntrySteps.PutKeeps` | lib/gdbm/gdbmstore.c:128-158 | putting an entry and writing its record keeps the whole invariant |
| `DiskSteps.ReopenKeeps` | lib/gdbm/gdbmopen.c:318-396 | durability: header, directory and linked stack blocks, read back, give a state for the same map |
| `DiskSteps.ReadStack` | lib/gdbm/falloc.c:183-208 | following the links from the top address in the header recovers the stack |
| `DiskSteps.NewDbOk` | lib/gdbm/gdbmopen.c:238-300 | the state written for a new file satisfies the whole invariant and is empty |
| `DiskSteps.ElemsFor` | lib/gdbm/gdbmopen.c:254-256 | as many entries as fit a block of this size, and not one more |
| `DiskSteps.CapacityFor` | lib/gdbm/gdbmopen.c:284-286 | as many free extents as fit a header of this size, and not one more |
| `DiskSteps.CapacityIsEven` | lib/gdbm/gdbmopen.c:285-287 | for every power-of-two block size from 512 on, the header's table has an even capacity |
| `DiskSteps.CapacityIsLarge` | lib/gdbm/gdbmopen.c:285-287 | it has at least 58 entries, the number for 512 bytes |
| `Falloc.AllocHeld` | lib/gdbm/falloc.c:61-103 | byte by byte: held afterwards plus handed out equals held before plus growth of the file |
| `Falloc.FreeHeld` | lib/gdbm/falloc.c:111-161 | byte by byte: freeing adds exactly the freed bytes, pushes and merges included |
| `FallocPlaces.FreeGoesToHeader` | lib/gdbm/falloc.c:127-157 | a whole block, any extent under central_free and any one the bucket's table has no room for are in the header's table, pushed before if full, and the header is to be written; then the tables are balanced |
| `FallocPlaces.FreeGoesToBucket` | lib/gdbm/falloc.c:138-157 | any other extent is in the bucket's table and the header is untouched; balanced only if the header was to be written anyway |
| `FallocPlaces.FreeIgnores` | lib/gdbm/falloc.c:119-121 | at most four bytes go nowhere |
| `FallocPlaces.AdjustFills` | lib/gdbm/falloc.c:445-457 | a bucket with fewer than two extents gets the header's last one; one with two to four is left alone |
| `FallocPlaces.AdjustSheds` | lib/gdbm/falloc.c:459-467 | a bucket with more than four gives its first ones to the header until four are left or the table is full |
| `FallocPlaces.HalveAlternates` | lib/gdbm/falloc.c:235-263 | entries 0, 2, 4, ... stay, entries 1, 3, 5, ... are in the block on top of the stack, the last of an odd number is dropped |
| `FallocPlaces.WholeBlocks` | lib/gdbm/falloc.c:417-426 | the file grows by whole blocks, one at least, and no more than the request needs |
| `FallocPlaces.AllocTakesFromBucket` | lib/gdbm/falloc.c:69-74 | if the bucket's table has an extent large enough the address is that of the smallest such |
| `FallocPlaces.AllocTakesFromHeader` | lib/gdbm/falloc.c:73-90 | otherwise that of one in the header's table, with the top of the stack popped into it if it was at most half full; otherwise the end of the file |
| `FallocPlaces.PopFillsHeader` | lib/gdbm/falloc.c:198-215 | after a pop the header's table has its own bytes, those of the popped entries and those of the block |
| `FallocCapacity.FreeGrows` | lib/gdbm/falloc.c:111-161 | the file never shrinks |
| `Falloc.PushHeld` | lib/gdbm/falloc.c:222-276 | a push moves bytes to the stack and loses at most the odd entry, which is accounted for |
| `Falloc.PopHeld` | lib/gdbm/falloc.c:173-217 | a pop changes no byte's holder count |
| `Falloc.FreeValid` | lib/gdbm/falloc.c:111-161 | every table entry stays larger than IGNORE_SIZE and the bucket's table within BUCKET_AVAIL |
| `Falloc.AllocValid` | lib/gdbm/falloc.c:61-103 | the same across an allocation, whose source extent is large enough |
| `FallocRuns.RunSafe` | lib/gdbm/falloc.c:61-276 | over every sequence of allocations, frees, new buckets and bucket switches every byte of the file is held exactly once; the header's table is within its array unless some pop had no room, and none lacks room as long as every push found its block in the table |
| `FallocRuns.AllocatedIsFresh` | lib/gdbm/falloc.c:61-103 | in any reachable state the extent handed out is below next_block, in no live extent and in no free table |
| `FallocRuns.LiveDisjoint` | lib/gdbm/falloc.c:61-276 | in any reachable state two live extents share no byte |
| `FallocRuns.NewFileOk` | lib/gdbm/gdbmopen.c:238-288 | the layout of a new file is such a state |
| `FallocRuns.FreeSorted` | lib/gdbm/falloc.c:111-161 | without coalescing, a free keeps every table sorted by size |
| `FallocRuns.AllocSorted` | lib/gdbm/falloc.c:61-103 | without coalescing, an allocation keeps every table sorted by size |
| `FallocRuns.PushSorted` | lib/gdbm/falloc.c:222-276 | a push keeps both halves sorted |
| `FallocRuns.PopSorted` | lib/gdbm/falloc.c:173-217 | a pop keeps the header's table sorted |
| `FallocCapacity.PushIsNotNested` | lib/gdbm/falloc.c:265-268 | the free inside a push finds room in the header: the mutual recursion ends after one push |
| `FallocCapacity.FreeFits` | lib/gdbm/falloc.c:111-161 | a free never overruns the header's table |
| `FallocCapacity.PopFitsExactly` | lib/gdbm/falloc.c:198-215 | a pop stays within the table if there is room for its entries and the block, without coalescing only then |
| `FallocCapacity.AllocFits` | lib/gdbm/falloc.c:61-103 | an allocation stays within the table unless it pops without room |
| `FallocCapacity.AllocFitsOdd` | lib/gdbm/falloc.c:74-80 | with an odd capacity the half-full test is enough |
| `FallocCapacity.PopRoomExactly` | lib/gdbm/falloc.c:73-80 | a pop lacks room exactly when the capacity is even and both the header's table and the popped one have half of it |
| `FallocCapacity.RoomyPops` | lib/gdbm/falloc.c:73-80 | if every table on the stack has fewer than half the capacity, every pop has room |
| `FallocCapacity.RoomyAllocates` | lib/gdbm/falloc.c:61-103 | in that case no allocation overruns the header's table |
| `FallocCapacity.PushStarvesExactly` | lib/gdbm/falloc.c:235-263 | a push of a full table leaves a table of half the capacity exactly when the capacity is even and no entry is large enough for the stack block |
| `FallocCapacity.AllocRoom` | lib/gdbm/falloc.c:61-103 | an allocation overruns the header's table exactly when it pops without room |
| `FallocCapacity.FreeRoom` | lib/gdbm/falloc.c:111-161 | a free overruns nothing; without a push it leaves the stack alone |
| `FallocCapacity.AllocBounded` | lib/gdbm/falloc.c:61-103 | kept by an allocation: within the array until overrun, and not overrun until a push has left a full half |
| `FallocCapacity.FreeBounded` | lib/gdbm/falloc.c:111-161 | the same kept by a free |
| `FallocOverrun.PopOverruns` | lib/gdbm/falloc.c:73-80 | from a new file of 512-byte blocks, 147 requests lead to a state, still within its array, whose next pop makes 59 entries in a table of 58 |
| `FallocOverrun.AfterRequests` | lib/gdbm/falloc.c:61-276 | the tables after each of these requests |
| `FallocRuns.FreeFlag` | lib/gdbm/falloc.c:127-157 | a free that leaves header_changed clear has not changed the header |
| `FallocRuns.AllocFlag` | lib/gdbm/falloc.c:73-98 | the same for an allocation |
| `FallocRuns.AllocWrites` | lib/gdbm/falloc.c:270-274 | at most one stack block is written, and it is the new top of the stack |
| `Extents.TakeCover` | lib/gdbm/falloc.c:287-321 | get_elem takes exactly the bytes of the extent it returns out of the table |
| `Extents.PutCover` | lib/gdbm/falloc.c:327-397 | putting adds exactly the bytes of the extent, merged or not |
| `Extents.MergeCover` | lib/gdbm/falloc.c:349-362 | a merged extent has exactly the bytes of the two |
| `Extents.PutSorted` | lib/gdbm/falloc.c:375-391 | without merging a sorted table stays sorted |
| `Extents.FirstFitIsBestFit` | lib/gdbm/falloc.c:300-305 | on a sorted table no entry that would do is smaller than the one found |
| `AvailTables.GetElem` | lib/gdbm/falloc.c:287-321 | in place on the array: the first fit is returned and taken out, the others keep their order |
| `AvailTables.PutAvElem` | lib/gdbm/falloc.c:327-397 | in place on the array: merged with the first neighbour or inserted at its place by size, small ones ignored |
| `AvailTables.InsertElem` | lib/gdbm/falloc.c:375-394 | the gap is opened and filled at the right place |
| `AvailTables.SplitTable` | lib/gdbm/falloc.c:255-263 | even entries stay, odd ones move out, in order |
| `AvailTables.LinkedElsewhere` | lib/gdbm/falloc.c:270-274 | writing a block of its own leaves the links of the stack as they are |
| `AvailTables.PushedBlockIsNew` | lib/gdbm/falloc.c:235-254 | the block taken for a push is none of the stack and not at address 0, which ends the links |
| `AvailTables.FreeSpace.constructor` | lib/gdbm/gdbmopen.c:284-288 | the empty tables of a new database |
| `AvailTables.FreeSpace.GetBlock` | lib/gdbm/falloc.c:410-433 | whole blocks from the end of the file, just enough |
| `AvailTables.FreeSpace.AdjustBucketAvail` | lib/gdbm/falloc.c:438-468 | the tables after balancing are those of the specification |
| `AvailTables.FreeSpace.ShedEntries` | lib/gdbm/falloc.c:459-467 | the smallest entries move to the header while the bucket is more than two thirds full |
| `AvailTables.FreeSpace.PushAvailBlock` | lib/gdbm/falloc.c:222-276 | the array is halved, the block written is linked as the new top; ends with room in the array |
| `AvailTables.FreeSpace.PopAvailBlock` | lib/gdbm/falloc.c:173-217 | given room, the entries of the linked top and the block itself are in the array, and the next block is the top |
| `AvailTables.FreeSpace.Free` | lib/gdbm/falloc.c:111-161 | the fields and arrays afterwards are those of the specification, for which conservation is proved |
| `AvailTables.FreeSpace.Alloc` | lib/gdbm/falloc.c:61-103 | the same for an allocation; the extent handed out is held by nobody and not at address 0 |
| `PullBuffers.WriteGrantedExactly` | io/src/pullbuffer.cpp:264-298 | a write is granted exactly when the free bytes suffice and it ends within the overflow area |
| `PullBuffers.ReadGrantedExactly` | io/src/pullbuffer.cpp:350-390 | a read is granted exactly when enough bytes are held and it ends within the overflow area |
| `PullBuffers.ShortRequestsNeverWrap` | io/src/pullbuffer.cpp:264-390 | for requests up to the overflow size the two tests are: free bytes suffice, bytes held suffice |
| `PullBuffers.WrapIsMod` | io/src/pullbuffer.cpp:426-426 | the wrapped index is the remainder the code computes |
| `PullBuffers.NoInterference` | io/src/pullbuffer.cpp:264-413 | a pending read's bytes, overflow copy included, meet neither the writer's bytes nor the move back; one side at most uses the overflow area |
| `PullBuffers.EndingWriteAppends` | io/src/pullbuffer.cpp:303-331 | after the move back the ring holds the old bytes and then those written, and a pending read still sees its bytes |
| `PullBuffers.CopyExposes` | io/src/pullbuffer.cpp:394-409 | after the copy the reader sees the oldest bytes in one piece |
| `PullBuffers.ReadingRemoves` | io/src/pullbuffer.cpp:418-436 | advancing the read index drops exactly the oldest bytes |
| `PullBuffers.ProducingIsInvisible` | io/src/pullbuffer.cpp:303-318 | what the producer stores in its space changes nothing that is readable or exposed |
| `PullBuffers.PullBuffer.constructor` | io/src/pullbuffer.cpp:41-63 | an empty buffer that satisfies the invariant |
| `PullBuffers.PullBuffer.BeginWrite` | io/src/pullbuffer.cpp:246-301 | granted exactly when there is room; contents and a pending read untouched |
| `PullBuffers.PullBuffer.EndWrite` | io/src/pullbuffer.cpp:303-332 | the contents grow by exactly the bytes stored |
| `PullBuffers.PullBuffer.BeginRead` | io/src/pullbuffer.cpp:334-416 | granted exactly when the bytes are held and fit; the bytes at the read index are the oldest; the writer's space is untouched |
| `PullBuffers.PullBuffer.EndRead` | io/src/pullbuffer.cpp:418-436 | the contents lose exactly the oldest bytes used |
| `PullBuffers.PullBuffer.MoveBack` | io/src/pullbuffer.cpp:311-318 | the overflow is copied to the front of the ring, the rest stays |
| `PullBuffers.PullBuffer.CopyToOverflow` | io/src/pullbuffer.cpp:400-408 | the front of the ring is copied to the overflow, the rest stays |
| `PullBuffers.PullBuffer.DiscardBytes` | io/src/pullbuffer.cpp:438-468 | the newest half buffer of bytes stays |
| `PullBuffers.PullBuffer.Resize` | io/src/pullbuffer.cpp:177-223 | contents kept; the buffer is again as the other calls assert if and only if the new ring is not exactly full |
| `PullBuffers.PullBuffer.Clear` | io/src/pullbuffer.cpp:83-108 | empty, end of stream cleared, unless shutting down |
| `Queues.Queue.Read` | base/include/queue.h:90-108 | the oldest element is taken from the linked list, none if empty |
| `Queues.Queue.Write` | base/include/queue.h:124-140 | the element is linked behind all others |
| `Queues.Queue.Peek` | base/include/queue.h:110-122 | the oldest element |
| `Queues.Queue.Clear` | base/include/queue.h:141-161 | empty |
| `EventBuffers.DistanceIsExact` | io/src/eventbuffer.cpp:56-73 | the distance of two ring indices is the number of bytes before the event if and only if that number is below the ring's size; otherwise it is 0 |
| `EventBuffers.PendingExactly` | io/src/eventbuffer.cpp:56-76 | a request is refused exactly when it reaches the oldest event, and one let through never reaches it |
| `EventBuffers.FullRingStopsTheReader` | io/src/eventbuffer.cpp:82-97 | an event accepted into a full ring of any size stops the reader at once, with every byte unread |
| `EventBuffers.ReadingKeepsPlaces` | io/src/eventbuffer.cpp:47-80 | reading in front of every event leaves each tag at its place in the stream |
| `EventBuffers.AcceptingPlaces` | io/src/eventbuffer.cpp:82-97 | a new event's tag is its place in the stream, behind all others |
| `EventBuffers.EventBuffer.ReachesEvent` | io/src/eventbuffer.cpp:47-76 | the refusal test, by places in the stream |
| `EventBuffers.EventBuffer.BeginRead` | io/src/eventbuffer.cpp:47-80 | no granted read reaches the oldest event; pending exactly when it would, if the ring was not full |
| `EventBuffers.EventBuffer.AcceptEvent` | io/src/eventbuffer.cpp:82-97 | the event is queued at the end of the bytes written |
| `EventBuffers.EventBuffer.GetEvent` | io/src/eventbuffer.cpp:99-115 | events come out in the order accepted, over the whole life of the buffer |
| `EventBuffers.EventBuffer.EndRead` | io/src/pullbuffer.cpp:418-436 | bytes are consumed, every event stays at its place |
| `EventBuffers.EventBuffer.BeginWrite` | io/src/pullbuffer.cpp:246-301 | granted exactly when there is room, otherwise the error the buffer gives; no event moves |
| `EventBuffers.EventBuffer.EndWrite` | io/src/pullbuffer.cpp:303-332 | bytes are added, every event stays at its place |
| `EventBuffers.EventBuffer.GetAllEvents` | io/src/eventbuffer.cpp:125-131 | every event is taken out, in order |
| `EventBuffers.EventBuffer.Clear` | io/src/eventbuffer.cpp:125-134 | all events are taken out in order, then the bytes and the end of stream dropped |
| `ItemLists.SomePickIsAdmissible` | base/src/playlist.cpp:448-457 | there is always an unused index the rejection test lets through: at most 19 are too close |
| `ItemLists.ShuffledMoves` | base/src/playlist.cpp:448-457 | a shuffled list of more than 50 items does not begin with one of the first ten |
| `ItemLists.LeftBetween` | base/src/playlist.cpp:448-457 | as many items are left at most as positions they lie between |
| `ItemLists.ErasedBlock` | base/src/playlist.cpp:1172-1173 | erasing a block of distinct items leaves all others in order |
| `ItemLists.InsertedKeepsOthers` | base/src/playlist.cpp:1500-1502 | inserting new items leaves the others in order |
| `ItemLists.SortedHolds` | base/src/playlist.cpp:1647-1648 | the stable sort is a permutation |
| `ItemLists.SortedAscends` | base/src/playlist.cpp:1647-1648 | it is ascending |
| `ItemLists.SortedIsStable` | base/src/playlist.cpp:1647-1648 | it keeps the order within each rank |
| `Playlists.OnePassPlaysEveryItemOnce` | base/src/playlist.cpp:526-565 | from index 0, stepping through the shuffled list plays each item of the master list exactly once before it starts over |
| `Playlists.PlayOnce` | base/src/playlist.cpp:526-565 | a loop of GotoNextItem from the first index plays each item of the master list exactly once, without reshuffling |
| `Playlists.BlockLandsInPlace` | base/src/playlist.cpp:1472-1502 | the items in front of the moved block are those that were in front of the index, without the moved ones, if and only if the k-th moved item in front of it was more than k places in front or only moved items were behind it |
| `Playlists.LandsInFront` | base/src/playlist.cpp:1472-1485 | the same as arithmetic on the running index |
| `Playlists.OthersInFront` | base/src/playlist.cpp:1472-1485 | how many items not moved were in front of the index |
| `Playlists.LandsBehind` | base/src/playlist.cpp:1472-1502 | a concrete list and move that lands one place too far back |
| `Playlists.PlaylistManager.ShuffleIt` | base/src/playlist.cpp:426-468 | an order of all places, each once; while more than 50 remain, consecutive picks are at least 10 places apart |
| `Playlists.PlaylistManager.constructor` | base/src/playlist.cpp:238-251 | both lists empty, no current index |
| `Playlists.PlaylistManager.GetCurrentItem` | base/src/playlist.cpp:475-490 | the item at the current index of the ordering in force |
| `Playlists.PlaylistManager.InternalIndexOf` | base/src/playlist.cpp:2342-2368 | the first place of the item, kInvalidIndex if there is none |
| `Playlists.PlaylistManager.SetCurrentIndex` | base/src/playlist.cpp:492-507 | the item at that place of the master list becomes current, in either mode; other indices leave no current item |
| `Playlists.PlaylistManager.SetShuffleMode` | base/src/playlist.cpp:626-651 | same current item, same items, in both directions; switched on, the list is shuffled: with more than 50 left each pick at least 10 places from the one before |
| `Playlists.PlaylistManager.GotoNextItem` | base/src/playlist.cpp:526-565 | the next index of the mode; the list is shuffled again exactly when starting over in shuffle mode |
| `Playlists.PlaylistManager.GotoPreviousItem` | base/src/playlist.cpp:567-605 | the previous index of the mode; the list is shuffled again exactly when wrapping in shuffle mode |
| `Playlists.PlaylistManager.AddItem` | base/src/playlist.cpp:807-839 | item at the end of both lists, current item kept |
| `Playlists.PlaylistManager.AddItemAt` | base/src/playlist.cpp:842-887 | item in front of the index, current item kept in either mode |
| `Playlists.PlaylistManager.AddItems` | base/src/playlist.cpp:889-944 | block at the end, a shuffled copy behind the shuffled list, current item kept |
| `Playlists.PlaylistManager.AddItemsAt` | base/src/playlist.cpp:948-1013 | block in front of the index, a shuffled copy behind the shuffled list, current item kept |
| `Playlists.PlaylistManager.RemoveItem` | base/src/playlist.cpp:1033-1108 | exactly this item leaves both lists; same current item unless it was this one, and which one then |
| `Playlists.PlaylistManager.RemoveBlock` | base/src/playlist.cpp:1110-1198 | exactly the block leaves both lists; current item as above |
| `Playlists.PlaylistManager.RemoveItems` | base/src/playlist.cpp:1200-1292 | exactly the items given leave both lists, null entries skipped; current item as above |
| `Playlists.PlaylistManager.RemoveAll` | base/src/playlist.cpp:1294-1349 | both lists empty, no current index |
| `Playlists.PlaylistManager.Reselect` | base/src/playlist.cpp:1077-1093 | same item current, or the one with the old index's number, or the last; none only for an empty list |
| `Playlists.PlaylistManager.MoveItems` | base/src/playlist.cpp:1452-1533 | the others in order with the block, in the order given, inserted at the place the running index gives; same current item |
| `Playlists.PlaylistManager.FindLanding` | base/src/playlist.cpp:1472-1485 | the first loop computes that place |
| `Playlists.PlaylistManager.Sort` | base/src/playlist.cpp:1638-1679 | the stable ascending sort, or some permutation for the random key; same current item; an error changes nothing |
| `UndoHistory.MultiInverts` | base/src/undomanager.cpp:173-187 | a multi-item whose parts invert their changes inverts the whole change |
| `UndoHistory.FirstIsRedoneFirst` | base/src/undomanager.cpp:181-187 | the first part of a multi-item is redone first |
| `UndoHistory.UndoMulti` | base/src/undomanager.cpp:173-179 | the parts are undone in reverse order |
| `UndoHistory.RedoMulti` | base/src/undomanager.cpp:181-187 | the parts are redone in order |
| `UndoHistory.CursorInRange` | base/src/undomanager.cpp:59-119 | undo and redo are offered exactly when there is such an item, and the wrapped cursor is then an index of it |
| `UndoHistory.UndoKeeps` | base/src/undomanager.cpp:59-73 | the document is the base with one item fewer carried out |
| `UndoHistory.RedoKeeps` | base/src/undomanager.cpp:75-89 | the document is the base with one item more carried out |
| `UndoHistory.AddKeeps` | base/src/undomanager.cpp:121-144 | a recorded change is the last item carried out |
| `UndoHistory.RedoThenUndo` | base/src/undomanager.cpp:59-89 | undo after a redo gives document and cursor back |
| `UndoHistory.UndoThenRedo` | base/src/undomanager.cpp:59-89 | redo after an undo gives document and cursor back |
| `UndoHistory.UndosThenRedos` | base/src/undomanager.cpp:59-89 | k undos and then k redos are the identity |
| `UndoHistory.UndoEverything` | base/src/undomanager.cpp:59-73 | undoing everything gives the base back after any history |
| `UndoHistory.UndoManager.Undo` | base/src/undomanager.cpp:59-73 | one item fewer is carried out, or nothing changes; the history stays linear |
| `UndoHistory.UndoManager.Redo` | base/src/undomanager.cpp:75-89 | one item more is carried out, or nothing changes; the history stays linear |
| `UndoHistory.UndoManager.AddItem` | base/src/undomanager.cpp:121-144 | exactly the items beyond the cursor are discarded, the new one is last; during an undo or redo nothing is recorded |
| `UndoHistory.UndoManager.Clear` | base/src/undomanager.cpp:146-155 | no items; the document stays |
| `CatalogRecords.StoredRoundTrip` | base/src/musiccatalog.cpp:1137-1303 | a record stored as a C string parses to the eleven fields printed if and only if no field has a NUL |
| `CatalogRecords.KindIsRead` | base/src/musiccatalog.cpp:690-695 | the letter is read back as a song or a stream, as stored |
| `CatalogRecords.RecordLayout` | base/src/musiccatalog.cpp:1149-1200 | the record written out: letter, 11, the eleven lengths, the eleven fields, in this order |
| `CatalogRecords.ParseOfRecord` | base/src/musiccatalog.cpp:1224-1303 | parsing undoes printing, for every width of the lengths and whatever the fields begin with |
| `CatalogRecords.LengthsAreRead` | base/src/musiccatalog.cpp:1235-1247 | the loop reads the lengths printed and stops exactly where the fields begin |
| `CatalogRecords.FieldsAreRead` | base/src/musiccatalog.cpp:1249-1303 | the loop cuts out the fields printed; empty ones keep their default |
| `CatalogRecords.ValueOfDecimal` | base/src/musiccatalog.cpp:1154-1178 | the digits printed for a number have its value |
| `CatalogRecords.ScanOfDecimal` | base/src/musiccatalog.cpp:1237-1238 | scanning printed digits after blanks gives the number, without a sign, and stops behind them |
| `CatalogRecords.WriteMetaData` | base/src/musiccatalog.cpp:1149-1201 | the string built by appending is the record; it begins with S for a stream and M for a file |
| `CatalogRecords.ReadMetaData` | base/src/musiccatalog.cpp:1224-1303 | the two loops compute the parse; none where the source would read undefined memory or throw |

## Left out

- Gdbm.Dbf.Store: requires that a full bucket of an absent key hold an entry with another hash, since otherwise the source does not return; addresses and sizes are unbounded integers, so files beyond 2^31 bytes are not limited.
- Gdbm.Dbf.Alloc: after a pop without room the model goes on with a longer table, where the source has written past its array; what it says then is not claimed of the source. The same holds for the splits and stores built on it.
- Gdbm.Dbf.Free: bytes the source forgets (remnants of at most four bytes, the last entry of an odd table that is halved) count as owned until the file is opened again; from then on they are listed as lost.
- Gdbm.Dbf.Open: the file is taken to be one an earlier call left without an overrun; magic number checks, truncation and locking are not modelled. The object keeps the tables of the stack as a value, proved equal at all times to the blocks linked in the file, and takes the top from there when it pops.
- Gdbm.Dbf.ReplaceBucket: bucket and cache contents are values in the cache's sequence and the new buckets are put into their slots at the end of a turn of the loop, where the source fills them in place through pointers.
- Probing.RemoveAt: the table of a bucket is a sequence the loop reassigns, not an array inside the bucket's block; the same holds for Content.Deal.
- Gdbm.Dbf.InitCache: allocation of memory cannot fail; the cache has at least three slots, as a split needs.
- Gdbm.Dbf.EndUpdate: writes are atomic and never fail, and there is no fsync, so nothing is said about a crash in the middle of an update.
- OpenNew.ChooseDirectory: block sizes are those of type int; the block size of the file system is taken to be at least 512.
- FallocRuns.AllocSorted: holds with coalescing off, as the tables' order is not kept when entries grow in place; conservation holds either way.
- FallocCapacity.PopFitsExactly: with coalescing on, room is sufficient but not necessary.
- AvailTables.FreeSpace.PopAvailBlock: requires room for the popped entries and block, which the source does not establish for even capacities.
- PullBuffers.PullBuffer.BeginWrite: requires a request to an empty ring to fit, as the source asserts; an overflow area of no bytes and WrapPointer are not part of this model.
- PullBuffers.PullBuffer.DiscardBytes: waiting until nothing is pending is a precondition, as in all calls that wait.
- EventBuffers.EventBuffer.BeginRead: looking at the queue and asking for bytes are one step, so an event accepted between the two by the other thread while the queue was empty is not considered.
- EventBuffers.EventBuffer.AcceptEvent: during shutdown the tag is an error number and events have no place.
- Playlists.PlaylistManager.RemoveBlock: requires the whole block to be in the list, since the source reads every index of it; an index that is no place returns the error.
- Playlists.PlaylistManager.RemoveItems: the items are distinct and in the list; the source erases at an invalid place otherwise.
- Playlists.PlaylistManager.MoveItems: the items are distinct, not null and in the list; null entries would be inserted into it.
- Playlists.PlaylistManager.AddItem: the item is not listed yet, as the lists are of distinct items throughout; an item listed twice has no one place.
- Playlists.PlaylistManager.AddItemAt: the same.
- Playlists.PlaylistManager.AddItems: the items are distinct and not listed yet.
- Playlists.PlaylistManager.AddItemsAt: the same.
- Playlists.PlaylistManager.Sort: the order is given by a rank; comparing metadata and descending sort, whose negated comparator is no ordering, are not part of this model.
- Playlists.PlaylistManager.ShuffleIt: the random number is any pick the rejection test lets through; that the loop finds one in time is not stated.
- Playlists.PlaylistManager.SetCurrentIndex: where the source looks up a null item, which its assertion forbids, the model gives kInvalidIndex.
- UndoHistory.UndoManager.AddItem: a history of 2^32 - 1 items is excluded.
- CatalogRecords.StoredRoundTrip: numbers and lengths are unbounded; the source's conversions hold for numbers below 2^31 and lengths of at most nine digits.
- CatalogRecords.ReadMetaData: overflow in the conversion of numbers the printer does not produce is not modelled.
- The file is a map from addresses to what was written there; system calls, locking, errno, memory and fatal errors are not part of this model, nor are gdbm_reorganize, gdbm_close, the sequential scan and setopt.
- MoveItem and SwapItems adjust the current index at their end points only; they are not part of this model, nor are playlists other than the master list, events sent to the target, metadata threads, URLs and formats.
- PullBuffer and EventBuffer mutexes are atomic steps; DiscardBytes and Resize on an event buffer bypass its queue and are not part of this model.
- The catalogue's artist and album tree, its counts and its table of GUIDs are not part of this model, nor are networking, downloads, plugins, preferences, themes and user interfaces.
