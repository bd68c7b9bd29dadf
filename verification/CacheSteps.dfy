/** The bucket cache: writing a slot back, finding a bucket in the cache or loading it, and reading
    a record into a slot's data cache (lib/gdbm/bucket.c:66-118, 321-338, lib/gdbm/findkey.c:39-81,
    lib/gdbm/gdbmopen.c:405-441). */
module CacheSteps {
  import opened Options
  import opened Extents
  import opened Probing
  import opened Directory
  import opened Ownership
  import opened Pages
  import opened Content
  import opened Database

  // ------------------------------------------------------------------ an empty cache

  function EmptySlot(): CacheElem {
    CacheElem(Bucket([], 0, 0, []), 0, false, NO_DATA)
  }

  function InitCacheDb(s: Db, size: nat): Db {
    s.(cache := seq(size, _ => EmptySlot()), cur := 0)
  }

  lemma InitCacheKeeps(s: Db, size: nat)
    requires Inv(s) && s.cache == [] && size >= 3
    requires s.lastRead == -1
    ensures Inv(InitCacheDb(s, size))
  {
    var s' := InitCacheDb(s, size);
    assert ViewOf(s) == s.live && ViewOf(s') == s.live;
    assert s.touched == -1;
    forall a | a in s.live ensures Holds(s.file, Extent(s.blockSize, a), BucketPage(s.live[a])) {
      assert !InMemory(s.cache, s.touched, a);
    }
  }

  // ------------------------------------------------------------------ writing back

  function WriteBucketDb(s: Db, i: nat): Db
    requires i < |s.cache|
  {
    var c := s.cache[i];
    s.(file := Written(s.file, Extent(s.blockSize, c.adr), BucketPage(c.bucket)),
       cache := s.cache[i := c.(changed := false, data := c.data.(hash := NO_HASH, elemLoc := -1))],
       touched := if s.touched == i then -1 else s.touched)
  }

  lemma WriteBucketMemory(s: Db, i: nat)
    requires Shape(s) && Memory(s) && i < |s.cache| && s.cache[i].adr != 0
    requires ClearOfBlocks(Extent(s.blockSize, s.cache[i].adr), s.live.Keys, s.blockSize, s.cache[i].adr)
    ensures Memory(WriteBucketDb(s, i))
  {
    WriteBucketCache(s, i);
    WriteBucketFile(s, i);
  }

  lemma WriteBucketCache(s: Db, i: nat)
    requires Memory(s) && i < |s.cache| && s.cache[i].adr != 0
    ensures var s' := WriteBucketDb(s, i);
      BucketsShaped(s'.live, s'.bucketElems) && CacheOk(s'.cache, s'.live) && DataOk(s'.cache, s'.touched, s'.recs)
  {
    hide Written, Holds;
  }

  lemma WriteBucketFile(s: Db, i: nat)
    requires BucketsOk(s.file, s.cache, s.touched, s.live, s.blockSize) && CacheOk(s.cache, s.live)
    requires s.blockSize > 0 && i < |s.cache| && s.cache[i].adr != 0
    requires ClearOfBlocks(Extent(s.blockSize, s.cache[i].adr), s.live.Keys, s.blockSize, s.cache[i].adr)
    ensures var s' := WriteBucketDb(s, i); BucketsOk(s'.file, s'.cache, s'.touched, s'.live, s'.blockSize)
  {
    hide Written;
    var s' := WriteBucketDb(s, i);
    var c := s.cache[i];
    var e := Extent(s.blockSize, c.adr);
    WrittenHolds(s.file, e, BucketPage(c.bucket));
    forall a | a in s.live && !InMemory(s'.cache, s'.touched, a)
      ensures Holds(s'.file, Extent(s.blockSize, a), BucketPage(s.live[a]))
    {
      if a != c.adr {
        if InMemory(s.cache, s.touched, a) {
          var j :| 0 <= j < |s.cache| && s.cache[j].adr == a && Dirty(s.cache, s.touched, j);
          SlotInMemory(s'.cache, s'.touched, j);
        } else {
          assert a in s.live.Keys;
          WriteKeeps(s.file, e, BucketPage(c.bucket), Extent(s.blockSize, a), BucketPage(s.live[a]));
        }
      }
    }
  }

  /** Writing a slot back keeps the invariant and makes the slot clean, its data cache empty. */
  lemma WriteBucketKeeps(s: Db, i: nat)
    requires Inv(s) && s.hole == -1 && i < |s.cache| && s.cache[i].adr != 0
    ensures Inv(WriteBucketDb(s, i))
  {
    hide SpaceOk, Accounted, Represents, RecordsOk, BucketsOk, DataOk, BucketsShaped, StackOk, Written, ClearOfStack;
    var s' := WriteBucketDb(s, i);
    var a := s.cache[i].adr;
    var e := Extent(s.blockSize, a);
    var page := BucketPage(s.cache[i].bucket);
    assert ViewOf(s) == s.live && ViewOf(s') == s.live;
    BucketHarmless(s.avail, Fixed(s), s.live, a);
    WriteBucketMemory(s, i);
    WriteKeepsRecords(s.file, e, page, s.live, s.recs);
    WriteBucketDisk(s, i);
  }

  /** Directory, header and stack survive the write of a bucket. */
  lemma WriteBucketDisk(s: Db, i: nat)
    requires Disk(s) && Shape(s) && Space(s) && Meaning(s) && ViewOf(s) == s.live
    requires i < |s.cache| && s.cache[i].adr in s.live
    ensures Disk(WriteBucketDb(s, i))
  {
    hide SpaceOk, Accounted, Represents, RecordsOk, StackOk, Written, ClearOfStack;
    var s' := WriteBucketDb(s, i);
    var a := s.cache[i].adr;
    var e := Extent(s.blockSize, a);
    var page := BucketPage(s.cache[i].bucket);
    FixedOwned(s.avail, Fixed(s), 0);
    FixedOwned(s.avail, Fixed(s), 1);
    CentralBlockClear(s.avail, Fixed(s), s.live, HeaderExtent(s), a);
    CentralBlockClear(s.avail, Fixed(s), s.live, DirExtent(s), a);
    DirNotEmpty(s);
    BlockStackClear(s.avail, Fixed(s), s.live, a);
    WriteKeepsStack(s.file, e, page, s.avail);
    DiskSurvives(s, s', e, page);
  }

  lemma DirNotEmpty(s: Db)
    requires Meaning(s)
    ensures |s.dir| > 0 && |s.dir| == Shl(1, s.dirBits)
  {
    ShlMonotone(0, 1, s.dirBits);
  }

  // ------------------------------------------------------------------ making a bucket current

  /** Advancing the replacement cursor matters to nothing else. */
  lemma LastReadKeeps(s: Db, k: int)
    requires Inv(s) && 0 <= k < |s.cache|
    ensures Inv(s.(lastRead := k)) && (Clean(s) ==> Clean(s.(lastRead := k)))
  {
    assert ViewOf(s.(lastRead := k)) == ViewOf(s);
  }

  lemma SlotsInRange(s: Db)
    requires Inv(s) && s.cache != []
    ensures |s.cache| >= 3 && s.cur < |s.cache| && -1 <= s.lastRead < |s.cache|
  {
  }

  lemma ChangedSlot(s: Db, k: nat)
    requires Inv(s) && k < |s.cache| && s.cache[k].changed
    ensures s.cache[k].adr != 0
  {
  }

  /** A directory slot holds the address of a live bucket, which is not 0. */
  lemma DirBucketIsLive(s: Db, i: nat)
    requires Shape(s) && Meaning(s) && Space(s) && s.hole == -1 && i < |s.dir|
    ensures s.dir[i] in s.live && s.dir[i] != 0
  {
    ZeroNotLive(s);
    assert ViewOf(s) == s.live;
  }

  function HitDb(s: Db, i: nat): Db {
    s.(cur := i)
  }

  lemma HitKeeps(s: Db, i: nat)
    requires Inv(s) && s.hole == -1 && s.touched == -1
    requires s.avail.bucketChanged ==> s.secondChanged
    requires i < |s.cache|
    ensures Inv(HitDb(s, i))
  {
    assert ViewOf(s) == s.live && ViewOf(HitDb(s, i)) == s.live;
  }

  /** No slot holds the bucket at `a`. */
  ghost predicate Uncached(cache: seq<CacheElem>, a: nat) {
    forall i :: 0 <= i < |cache| ==> cache[i].adr != a
  }

  /** Slots are as before but for slot `k`, which is clean and holds the same bucket. */
  ghost predicate Evicted(cache: seq<CacheElem>, cache': seq<CacheElem>, k: nat) {
    && |cache'| == |cache| && k < |cache|
    && !cache'[k].changed && cache'[k].adr == cache[k].adr
    && forall i :: 0 <= i < |cache| && i != k ==> cache'[i] == cache[i]
  }

  lemma StaysUncached(cache: seq<CacheElem>, cache': seq<CacheElem>, k: nat, a: nat)
    requires Evicted(cache, cache', k) && Uncached(cache, a)
    ensures Uncached(cache', a)
  {
  }

  lemma LoadClean(s: Db, k: nat, a: nat)
    requires k < |s.cache| && a in s.file && s.file[a].page.BucketPage? && Clean(s)
    ensures Clean(LoadDb(s, k, a))
  {
  }

  /** Slot `k` now holds the bucket read from address `a`. */
  function LoadDb(s: Db, k: nat, a: nat): Db
    requires k < |s.cache| && a in s.file && s.file[a].page.BucketPage?
  {
    s.(cache := s.cache[k := CacheElem(s.file[a].page.bucket, a, false, s.cache[k].data.(elemLoc := -1))],
       cur := k)
  }

  lemma LoadMemory(s: Db, k: nat, a: nat)
    requires Shape(s) && Memory(s) && s.touched == -1
    requires k < |s.cache| && !s.cache[k].changed
    requires a in s.live && a != 0 && Uncached(s.cache, a)
    ensures Holds(s.file, Extent(s.blockSize, a), BucketPage(s.live[a]))
    ensures Memory(LoadDb(s, k, a))
  {
    assert !InMemory(s.cache, s.touched, a);
    var s' := LoadDb(s, k, a);
    forall x | x in s.live && !InMemory(s'.cache, s'.touched, x)
      ensures Holds(s.file, Extent(s.blockSize, x), BucketPage(s.live[x]))
    {
      if InMemory(s.cache, s.touched, x) {
        var i :| 0 <= i < |s.cache| && s.cache[i].adr == x && Dirty(s.cache, s.touched, i);
        SlotInMemory(s'.cache, s'.touched, i);
        assert false;
      }
    }
  }

  /** Loading a bucket that is in no slot over a clean slot: the bucket read is the latest. */
  lemma LoadKeeps(s: Db, k: nat, a: nat)
    requires Inv(s) && s.hole == -1 && s.touched == -1
    requires s.avail.bucketChanged ==> s.secondChanged
    requires k < |s.cache| && !s.cache[k].changed
    requires a in s.live && a != 0 && Uncached(s.cache, a)
    ensures Holds(s.file, Extent(s.blockSize, a), BucketPage(s.live[a]))
    ensures Inv(LoadDb(s, k, a)) && HasCurrent(LoadDb(s, k, a))
  {
    LoadMemory(s, k, a);
    assert ViewOf(s) == s.live && ViewOf(LoadDb(s, k, a)) == s.live;
  }

  // ------------------------------------------------------------------ reading a record

  /** The bytes _gdbm_read_entry reads for an entry. */
  function ReadRecord(file: File, e: Element): Bytes {
    if e.keySize + e.dataSize == 0 then []
    else if e.dataPointer in file && file[e.dataPointer].page.RecordPage? then file[e.dataPointer].page.bytes
    else []
  }

  function ReadEntryDb(s: Db, loc: nat): Db
    requires s.cur < |s.cache| && loc < |CurBucket(s).table|
  {
    var e := CurBucket(s).table[loc];
    s.(cache := s.cache[s.cur := s.cache[s.cur].(data :=
         DataCache(e.hash, e.dataSize, e.keySize, Some(ReadRecord(s.file, e)), loc))])
  }

  lemma ReadEntryMemory(s: Db, loc: nat)
    requires Memory(s) && HasCurrent(s)
    requires loc < |CurBucket(s).table| && Used(CurBucket(s).table[loc])
    requires ReadRecord(s.file, CurBucket(s).table[loc]) == RecordBytes(s.recs, CurBucket(s).table[loc])
    ensures Memory(ReadEntryDb(s, loc))
  {
    var s' := ReadEntryDb(s, loc);
    forall a | a in s.live && !InMemory(s'.cache, s'.touched, a)
      ensures Holds(s.file, Extent(s.blockSize, a), BucketPage(s.live[a]))
    {
      if InMemory(s.cache, s.touched, a) {
        var i :| 0 <= i < |s.cache| && s.cache[i].adr == a && Dirty(s.cache, s.touched, i);
        SlotInMemory(s'.cache, s'.touched, i);
        assert false;
      }
    }
  }

  lemma ReadsRecord(s: Db, loc: nat)
    requires CurrentLive(s) && s.hole == -1 && RecordsOk(s.file, ViewOf(s), s.recs)
    requires loc < |CurBucket(s).table| && Used(CurBucket(s).table[loc])
    ensures ReadRecord(s.file, CurBucket(s).table[loc]) == RecordBytes(s.recs, CurBucket(s).table[loc])
  {
    ViewFacts(s);
    assert RecordOk(s.file, s.recs, s.live[CurAdr(s)].table[loc]);
  }

  /** Reading an entry fills the data cache with that entry's record. */
  lemma ReadEntryKeeps(s: Db, loc: nat)
    requires Inv(s) && HasCurrent(s) && s.hole == -1
    requires loc < |CurBucket(s).table| && Used(CurBucket(s).table[loc])
    ensures Inv(ReadEntryDb(s, loc)) && HasCurrent(ReadEntryDb(s, loc))
    ensures ReadRecord(s.file, CurBucket(s).table[loc]) == RecordBytes(s.recs, CurBucket(s).table[loc])
  {
    CurrentIsLive(s);
    ReadsRecord(s, loc);
    ReadEntryMemory(s, loc);
    assert ViewOf(s) == s.live && ViewOf(ReadEntryDb(s, loc)) == s.live;
  }

  /** A clean slot's data cache, when it names an entry, has that entry's record. */
  lemma ReadsDataCache(s: Db)
    requires Inv(s) && HasCurrent(s) && Clean(s) && s.cache[s.cur].data.elemLoc != -1
    ensures var d := s.cache[s.cur].data;
      && 0 <= d.elemLoc < |CurBucket(s).table|
      && d.dptr == Some(RecordBytes(s.recs, CurBucket(s).table[d.elemLoc]))
  {
    assert DataMatches(s.cache[s.cur], s.recs);
  }

  lemma CleanCurrent(s: Db)
    requires Clean(s) && HasCurrent(s)
    ensures s.touched == -1 && !s.cache[s.cur].changed
  {
  }

  lemma DirShape(s: Db)
    requires Inv(s)
    ensures s.dirBits <= HASH_BITS && |s.dir| == Shl(1, s.dirBits)
  {
  }

  // ------------------------------------------------------------------ clearing flags

  lemma TouchedIsCurrent(s: Db)
    requires Inv(s) && s.cache != []
    ensures s.touched == -1 || s.touched == s.cur
    ensures s.cur < |s.cache|
  {
  }

  /** Once the current slot is clean, only the second flag stands for changed slots. */
  lemma NothingElseChanged(s: Db)
    requires Inv(s) && s.cur < |s.cache| && !s.cache[s.cur].changed
    ensures forall i :: 0 <= i < |s.cache| && s.cache[i].changed ==> s.secondChanged
  {
  }

  lemma AvailFlag(s: Db, bucketChanged: bool)
    requires Space(s)
    ensures Space(s.(avail := s.avail.(bucketChanged := bucketChanged)))
  {
    var s' := s.(avail := s.avail.(bucketChanged := bucketChanged));
    SameOwners(s.avail, Fixed(s), s'.avail, Fixed(s'), ViewOf(s), s.lost);
  }

  lemma ClearBucketFlag(s: Db)
    requires Inv(s) && forall i :: 0 <= i < |s.cache| && s.cache[i].changed ==> s.secondChanged
    ensures Inv(s.(avail := s.avail.(bucketChanged := false)))
  {
    hide SpaceOk, Accounted, Represents, RecordsOk, BucketsOk, CacheOk, DataOk, BucketsShaped, StackOk;
    AvailFlag(s, false);
    StackTail(s.file, s.avail, s.avail.(bucketChanged := false));
    var s' := s.(avail := s.avail.(bucketChanged := false));
    assert ViewOf(s') == ViewOf(s);
  }

  lemma ClearSecondFlag(s: Db)
    requires Inv(s) && forall i :: 0 <= i < |s.cache| ==> !s.cache[i].changed
    ensures Inv(s.(secondChanged := false))
  {
    assert ViewOf(s.(secondChanged := false)) == ViewOf(s);
  }

  lemma NoneChanged(s: Db)
    requires Inv(s) && !s.secondChanged && !s.avail.bucketChanged
    ensures forall i :: 0 <= i < |s.cache| ==> !s.cache[i].changed
  {
  }
}
