/** The state of an open database and its invariant, with the steps the routines of lib/gdbm are
    made of.  Gdbm.dfy has the routines themselves, as methods on an object with these fields. */
module Database {
  import opened Extents
  import opened Probing
  import opened Directory
  import opened KeyHash
  import opened Ownership
  import opened Pages
  import opened Content
  import opened Accounts
  import Falloc
  import FallocCapacity
  import FallocRuns

  /** Bytes of `n` file addresses (off_t of four bytes). */
  function AddressBytes(n: nat): nat {
    4 * n
  }

  /** The fields of gdbm_file_info, and seven that exist for the proof: `live` maps the address of
      every bucket the directory uses to its latest contents, `recs` the address of every record
      to its bytes, `content` is the map the database stands for, `pending` are blocks allocated
      and not yet put to use (or given up and not yet freed), `touched` is the cache slot an
      unfinished update has changed, `hole` the table slot whose record is being replaced; these
      two are -1 when there is none.  `lost` are the bytes forgotten before the file was opened. */
  datatype Db = Db(
    blockSize: nat, bucketElems: nat,
    file: File,
    dir: seq<nat>, dirBits: nat, dirAdr: nat,
    avail: Falloc.Avail,
    cache: seq<CacheElem>, lastRead: int, cur: nat,
    secondChanged: bool, directoryChanged: bool,
    live: Live, recs: Records, content: Map,
    pending: seq<Extent>, touched: int, hole: int, lost: iset<nat>)

  // ------------------------------------------------------------------ views of the state

  ghost predicate HasCurrent(s: Db) {
    s.cur < |s.cache| && s.cache[s.cur].adr != 0
  }

  function CurAdr(s: Db): nat
    requires s.cur < |s.cache|
  {
    s.cache[s.cur].adr
  }

  function CurBucket(s: Db): Bucket
    requires s.cur < |s.cache|
  {
    s.cache[s.cur].bucket
  }

  function DirExtent(s: Db): Extent {
    Extent(AddressBytes(|s.dir|), s.dirAdr)
  }

  function HeaderExtent(s: Db): Extent {
    Extent(s.blockSize, 0)
  }

  /** The blocks that belong to no bucket: header, directory, and those in transit. */
  function Fixed(s: Db): seq<Extent> {
    [HeaderExtent(s), DirExtent(s)] + s.pending
  }

  /** What write_header puts into the file. */
  function CurrentHeader(s: Db): Header {
    Header(s.blockSize, s.dirAdr, s.dirBits, s.bucketElems, s.avail.nextBlock, s.avail.capacity, s.avail.header,
           AddressOf(s.avail.stack, 0))
  }

  /** The buckets without the entry that is being replaced. */
  function View(live: Live, a: nat, hole: int): Live {
    if hole < 0 || a !in live || hole >= |live[a].table| then live
    else live[a := live[a].(table := Erase(live[a].table, hole))]
  }

  function ViewOf(s: Db): Live {
    View(s.live, if s.cur < |s.cache| then s.cache[s.cur].adr else 0, s.hole)
  }

  // ------------------------------------------------------------------ the invariant

  ghost predicate Shape(s: Db) {
    && s.blockSize > IGNORE_SIZE && s.bucketElems > 0
    && BucketBytes(s.bucketElems) <= s.blockSize && HeaderBytes(s.avail.capacity) <= s.blockSize
    && Falloc.Valid(s.avail) && s.avail.blockSize == s.blockSize
    && s.avail.bucket == [] && s.avail.past.writes == [] && FallocCapacity.Bounded(s.avail)
    && (s.cache != [] ==> |s.cache| >= 3 && s.cur < |s.cache| && -1 <= s.lastRead < |s.cache|)
    && (s.touched == -1 || (s.touched == s.cur && HasCurrent(s)))
    && (s.hole == -1 || (s.touched == s.cur && HasCurrent(s) && 0 <= s.hole < |CurBucket(s).table|
                         && Used(CurBucket(s).table[s.hole])))
  }

  ghost predicate Memory(s: Db) {
    && BucketsShaped(s.live, s.bucketElems)
    && CacheOk(s.cache, s.live)
    && BucketsOk(s.file, s.cache, s.touched, s.live, s.blockSize)
    && DataOk(s.cache, s.touched, s.recs)
  }

  /** The buckets stand for the map, and their records are in the file. */
  ghost predicate Meaning(s: Db) {
    && Represents(s.dir, s.dirBits, ViewOf(s), s.recs, s.content)
    && RecordsOk(s.file, ViewOf(s), s.recs)
  }

  /** No byte has two owners, and none but those lost before is without one. */
  ghost predicate Space(s: Db) {
    && SpaceOk(s.avail, Fixed(s), ViewOf(s))
    && Accounted(s.avail, Fixed(s), ViewOf(s), s.lost)
  }

  /** Directory and header are in the file unless marked as changed; the blocks of the stack are,
      linked as the header's address of the top says. */
  ghost predicate Disk(s: Db) {
    && StackOk(s.file, s.avail)
    && (s.directoryChanged || Holds(s.file, DirExtent(s), DirPage(s.dir)))
    && (s.avail.headerChanged || Holds(s.file, HeaderExtent(s), HeaderPage(CurrentHeader(s))))
  }

  /** Whatever slot is marked changed will be written at the end of the update. */
  ghost predicate Flags(s: Db) {
    forall i :: 0 <= i < |s.cache| && s.cache[i].changed ==>
      s.cache[i].adr != 0 && (s.secondChanged || (i == s.cur && s.avail.bucketChanged))
  }

  ghost predicate Inv(s: Db) {
    var all := Shape(s) && Memory(s) && Meaning(s) && Space(s) && Disk(s) && Flags(s);
    all
  }

  /** While no pop has overrun it the header's table is within its array; a pop can overrun it only
      after a push has left a full half on the stack. */
  lemma HeaderBounded(s: Db)
    requires Inv(s)
    ensures FallocCapacity.Bounded(s.avail)
    ensures !s.avail.past.overrun ==> FallocCapacity.Fits(s.avail)
    ensures s.avail.past.overrun ==> s.avail.past.starved
  {
  }

  /** Every byte of the file not lost before has an owner. */
  ghost predicate NothingLost(s: Db) {
    Accounted(s.avail, Fixed(s), ViewOf(s), s.lost)
  }

  lemma KeepsAccount(s: Db)
    requires Inv(s)
    ensures NothingLost(s)
  {
  }

  /** What is in memory fits the block it is written to: every bucket with its entries and the key
      bytes kept there, the header with its table, and every block of the stack. */
  lemma PagesFit(s: Db)
    requires Inv(s) && s.hole == -1
    ensures forall a :: a in s.live ==>
      BucketBytes(|s.live[a].table|) <= s.blockSize && |s.live[a].av| <= Falloc.BUCKET_AVAIL
    ensures forall a, i :: a in s.live && 0 <= i < |s.live[a].table| && Used(s.live[a].table[i]) ==>
      |s.live[a].table[i].keyStart| <= SMALL
    ensures !s.avail.past.overrun ==> HeaderBytes(|s.avail.header|) <= s.blockSize
    ensures !s.avail.past.overrun ==> forall i :: 0 <= i < |s.avail.stack| ==>
      StackBytes(|s.avail.stack[i].table|) <= Falloc.StackSize(s.avail.capacity)
  {
    assert ViewOf(s) == s.live;
    forall a | a in s.live
      ensures BucketBytes(|s.live[a].table|) <= s.blockSize && |s.live[a].av| <= Falloc.BUCKET_AVAIL
    {
      assert BucketOk(s.live[a], s.bucketElems);
    }
    forall a, i | a in s.live && 0 <= i < |s.live[a].table| && Used(s.live[a].table[i])
      ensures |s.live[a].table[i].keyStart| <= SMALL
    {
      assert EntryOk(s.live[a].table[i], s.recs, s.content);
    }
  }

  /** Between two calls of the interface everything is in the file. */
  ghost predicate Clean(s: Db) {
    && s.pending == [] && s.touched == -1 && s.hole == -1
    && !s.secondChanged && !s.directoryChanged && !s.avail.headerChanged && !s.avail.bucketChanged
    && (forall i :: 0 <= i < |s.cache| ==> !s.cache[i].changed)
  }

  // ------------------------------------------------------------------ allocating and freeing

  /** A pop without room, or a push that may lead to one, is not forgotten, and the file does not
      shrink. */
  ghost predicate Remembers(s: Db, s': Db) {
    && s'.avail.nextBlock >= s.avail.nextBlock
    && (s.avail.past.overrun ==> s'.avail.past.overrun)
    && (s.avail.past.starved ==> s'.avail.past.starved)
  }

  /** The state after the allocator ran inside the current bucket and left `av`. */
  function Reloaded(s: Db, av: Falloc.Avail): Db
    requires s.cur < |s.cache|
  {
    var bucket := CurBucket(s).(av := av.bucket);
    s.(avail := Unloaded(av),
       file := StackWritten(s.file, av),
       cache := s.cache[s.cur := s.cache[s.cur].(bucket := bucket)],
       live := s.live[CurAdr(s) := bucket],
       touched := s.cur)
  }

  function AllocDb(s: Db, size: nat): (Db, nat)
    requires s.cur < |s.cache| && s.avail.blockSize > 0 && s.avail.capacity > 0
  {
    var (av, adr) := Falloc.Alloc(Loaded(s.avail, CurBucket(s)), size);
    (Reloaded(s, av).(pending := s.pending + [Extent(size, adr)]), adr)
  }

  /** Frees the last pending block. */
  function FreeDb(s: Db): Db
    requires s.cur < |s.cache| && s.avail.blockSize > 0 && s.avail.capacity > 0 && s.pending != []
  {
    var n := |s.pending| - 1;
    Reloaded(s, Falloc.Free(Loaded(s.avail, CurBucket(s)), s.pending[n])).(pending := s.pending[..n])
  }

  /** The current slot holds a live bucket. */
  ghost predicate CurrentLive(s: Db) {
    HasCurrent(s) && CurAdr(s) in s.live && s.live[CurAdr(s)] == CurBucket(s)
  }

  lemma CurrentIsLive(s: Db)
    requires CacheOk(s.cache, s.live) && HasCurrent(s)
    ensures CurrentLive(s)
  {
  }

  lemma ViewFacts(s: Db)
    requires CurrentLive(s)
    ensures var v := ViewOf(s); var a := CurAdr(s);
      && v.Keys == s.live.Keys
      && v[a].av == CurBucket(s).av && v[a].bits == CurBucket(s).bits
      && |v[a].table| == |CurBucket(s).table|
      && (forall x :: x in s.live && x != a ==> v[x] == s.live[x])
      && (s.hole == -1 ==> v == s.live)
  {
  }

  lemma LoadedValid(s: Db)
    requires Shape(s) && BucketsShaped(s.live, s.bucketElems) && CurrentLive(s)
    ensures Falloc.Valid(Loaded(s.avail, CurBucket(s)))
    ensures Loaded(s.avail, ViewOf(s)[CurAdr(s)]) == Loaded(s.avail, CurBucket(s))
  {
    ViewFacts(s);
    assert BucketOk(s.live[CurAdr(s)], s.bucketElems);
  }

  /** Only free extents of the current bucket differ. */
  lemma ReloadedView(s: Db, av: Falloc.Avail)
    requires CurrentLive(s)
    ensures var v := ViewOf(s); var v' := ViewOf(Reloaded(s, av)); var a := CurAdr(s);
      a in v && v' == v[a := v[a].(av := av.bucket)] && SameTables(v, v')
  {
    ViewFacts(s);
    var v, v', a := ViewOf(s), ViewOf(Reloaded(s, av)), CurAdr(s);
    assert v' == v[a := v[a].(av := av.bucket)];
  }

  /** The top of the stack may have been popped, and then one block written on top. */
  ghost predicate StackMoved(av0: Falloc.Avail, av: Falloc.Avail) {
    || FallocRuns.WroteTop([], av0.stack, av)
    || (av0.stack != [] && FallocRuns.WroteTop([], av0.stack[1..], av))
  }

  /** What the allocator guarantees of the state it leaves. */
  ghost predicate GoodReload(s: Db, av: Falloc.Avail) {
    && CurrentLive(s)
    && Falloc.Valid(av) && av.blockSize == s.blockSize && av.capacity == s.avail.capacity
    && FallocCapacity.Bounded(av)
    && StackMoved(s.avail, av)
    && (!av.headerChanged ==> !s.avail.headerChanged && FallocRuns.SameHeader(s.avail, av))
  }

  /** The current slot counts as dirty from here on; the file has not been written yet. */
  lemma ReloadMemory(s: Db, av: Falloc.Avail)
    requires Shape(s) && Memory(s) && CurrentLive(s) && Falloc.Valid(av)
    ensures var s' := Reloaded(s, av);
      && BucketsShaped(s'.live, s'.bucketElems)
      && CacheOk(s'.cache, s'.live)
      && DataOk(s'.cache, s'.touched, s'.recs)
  {
    assert BucketOk(s.live[CurAdr(s)], s.bucketElems);
  }

  lemma ReloadBuckets(s: Db, av: Falloc.Avail)
    requires Shape(s) && CurrentLive(s)
    requires BucketsOk(s.file, s.cache, s.touched, s.live, s.blockSize)
    ensures var s' := Reloaded(s, av); BucketsOk(s.file, s'.cache, s'.touched, s'.live, s'.blockSize)
  {
    var s' := Reloaded(s, av);
    SlotInMemory(s'.cache, s'.touched, s.cur);
    forall a | a in s'.live && !InMemory(s'.cache, s'.touched, a)
      ensures Holds(s.file, Extent(s.blockSize, a), BucketPage(s'.live[a]))
    {
      assert !InMemory(s.cache, s.touched, a) by {
        if InMemory(s.cache, s.touched, a) {
          var i :| 0 <= i < |s.cache| && s.cache[i].adr == a && Dirty(s.cache, s.touched, i);
          SlotInMemory(s'.cache, s'.touched, i);
        }
      }
    }
  }

  lemma RecordsSameTables(file: File, v: Live, v': Live, recs: Records)
    requires RecordsOk(file, v, recs) && SameTables(v, v')
    ensures RecordsOk(file, v', recs)
  {
  }

  /** A page written clear of everything in use leaves buckets and records readable. */
  lemma HarmlessWrite(file: File, e: Extent, page: Page, s: Db)
    requires BucketsOk(file, s.cache, s.touched, s.live, s.blockSize) && RecordsOk(file, ViewOf(s), s.recs)
    requires s.blockSize > 0 && 0 !in s.live
    requires ClearOfBlocks(e, s.live.Keys, s.blockSize, 0) && ClearOfRecords(e, ViewOf(s))
    ensures BucketsOk(Written(file, e, page), s.cache, s.touched, s.live, s.blockSize)
    ensures RecordsOk(Written(file, e, page), ViewOf(s), s.recs)
  {
    WriteKeepsRecords(file, e, page, ViewOf(s), s.recs);
    WriteKeepsBuckets(file, e, page, s.cache, s.touched, s.live, s.blockSize, 0);
  }

  lemma ZeroNotLive(s: Db)
    requires Shape(s) && Space(s)
    ensures 0 !in ViewOf(s)
  {
    FixedNotLive(s.avail, Fixed(s), ViewOf(s), 0);
  }

  /** The directory's and the header's page survive a write clear of both. */
  lemma DiskSurvives(s: Db, s': Db, e: Extent, page: Page)
    requires Disk(s) && s.blockSize > 0 && |s.dir| > 0
    requires Clear(e, HeaderExtent(s)) && Clear(e, DirExtent(s))
    requires s'.file == Written(s.file, e, page) || s'.file == s.file
    requires s'.dir == s.dir && s'.dirAdr == s.dirAdr && s'.dirBits == s.dirBits && s'.blockSize == s.blockSize
    requires s'.bucketElems == s.bucketElems
    requires s.directoryChanged ==> s'.directoryChanged
    requires s'.avail.capacity == s.avail.capacity && StackOk(s'.file, s'.avail)
    requires !s'.avail.headerChanged ==> !s.avail.headerChanged && FallocRuns.SameHeader(s.avail, s'.avail)
    ensures Disk(s')
  {
    if !s'.directoryChanged && s'.file != s.file {
      WriteKeeps(s.file, e, page, DirExtent(s), DirPage(s.dir));
    }
    if !s'.avail.headerChanged && s'.file != s.file {
      WriteKeeps(s.file, e, page, HeaderExtent(s), HeaderPage(CurrentHeader(s)));
    }
  }

  /** The block pushed is clear of everything in use, and not at address 0. */
  lemma StackTopClear(s: Db)
    requires Shape(s) && Space(s) && s.avail.stack != []
    ensures var e := StackExtent(s.avail, 0);
      && s.avail.stack[0].adr != 0
      && Clear(e, HeaderExtent(s)) && Clear(e, DirExtent(s))
      && ClearOfBlocks(e, ViewOf(s).Keys, s.blockSize, 0) && ClearOfRecords(e, ViewOf(s))
      && forall i :: 0 < i < |s.avail.stack| ==> Clear(e, StackExtent(s.avail, i))
  {
    var fixed, v := Fixed(s), ViewOf(s);
    StackOwned(s.avail, fixed, 0);
    CentralHarmless(s.avail, fixed, v, StackExtent(s.avail, 0), 0);
    FixedStackClear(s.avail, fixed, v, 0);
    FixedStackClear(s.avail, fixed, v, 1);
    assert fixed[0] == HeaderExtent(s) && fixed[1] == DirExtent(s);
    assert Clear(fixed[0], StackExtent(s.avail, 0)) && Clear(fixed[1], StackExtent(s.avail, 0));
    forall i | 0 < i < |s.avail.stack| ensures Clear(StackExtent(s.avail, 0), StackExtent(s.avail, i)) {
      StackBlocksClear(s.avail, fixed, v, 0, i);
    }
  }

  /** After the allocator ran, the blocks of the stack are in the file again. */
  lemma StackFollows(s: Db, av: Falloc.Avail, s': Db)
    requires StackOk(s.file, s.avail) && StackMoved(s.avail, av) && av.capacity == s.avail.capacity
    requires s'.avail == Unloaded(av) && s'.file == StackWritten(s.file, av)
    requires Shape(s') && Space(s')
    ensures StackOk(s'.file, s'.avail)
  {
    if av.past.writes == [] {
      StackTail(s.file, s.avail, s'.avail);
    } else {
      var below := av.stack[1..];
      StackTail(s.file, s.avail, s'.avail.(stack := below));
      StackTopClear(s');
      StackPushed(s.file, s'.avail, below);
      assert StackExtent(av, 0) == StackExtent(s'.avail, 0);
    }
  }

  /** The stack block written by the allocator destroys nothing that is in use. */
  lemma StackWriteKeeps(s: Db, av: Falloc.Avail, s': Db)
    requires Shape(s) && Disk(s) && GoodReload(s, av) && |s.dir| > 0
    requires s' == Reloaded(s, av).(pending := s'.pending)
    requires Space(s') && Shape(s') && ViewOf(s').Keys == s'.live.Keys
    requires BucketsOk(s.file, s'.cache, s'.touched, s'.live, s'.blockSize)
    requires RecordsOk(s.file, ViewOf(s'), s'.recs)
    ensures BucketsOk(s'.file, s'.cache, s'.touched, s'.live, s'.blockSize)
    ensures RecordsOk(s'.file, ViewOf(s'), s'.recs)
    ensures Disk(s')
  {
    hide SpaceOk, Accounted, BucketsOk, RecordsOk, StackOk, Represents;
    StackFollows(s, av, s');
    if av.past.writes != [] {
      var e, page := StackExtent(s'.avail, 0), StackPageOf(s'.avail.stack, 0);
      assert e == StackExtent(av, 0) && page == StackPageOf(av.stack, 0);
      StackTopClear(s');
      ZeroNotLive(s');
      HarmlessWrite(s.file, e, page, s');
      DiskSurvives(s, s', e, page);
    } else {
      DiskSurvives(s, s', Extent(0, 0), RecordPage([]));
    }
  }

  lemma ReloadMeaning(s: Db, av: Falloc.Avail, s': Db)
    requires Meaning(s) && CurrentLive(s)
    requires s' == Reloaded(s, av).(pending := s'.pending)
    ensures Represents(s'.dir, s'.dirBits, ViewOf(s'), s'.recs, s'.content)
    ensures RecordsOk(s.file, ViewOf(s'), s'.recs)
    ensures ViewOf(s').Keys == s'.live.Keys
  {
    ReloadedView(s, av);
    ViewFacts(s);
    var v, v' := ViewOf(s), ViewOf(s');
    assert v' == ViewOf(Reloaded(s, av));
    SameTablesRepresents(s.dir, s.dirBits, v, v', s.recs, s.content);
    RecordsSameTables(s.file, v, v', s.recs);
  }

  lemma ReloadShape(s: Db, av: Falloc.Avail, s': Db)
    requires Shape(s) && Flags(s) && CurrentLive(s) && Falloc.Valid(av) && av.blockSize == s.blockSize
    requires FallocCapacity.Bounded(av) && av.capacity == s.avail.capacity
    requires s' == Reloaded(s, av).(pending := s'.pending)
    requires s.avail.bucketChanged ==> av.bucketChanged
    ensures Shape(s') && Flags(s') && HasCurrent(s')
  {
  }

  /** Running the allocator inside the current bucket keeps the invariant. */
  lemma ReloadKeeps(s: Db, av: Falloc.Avail, s': Db)
    requires Inv(s) && GoodReload(s, av)
    requires s' == Reloaded(s, av).(pending := s'.pending)
    requires Space(s')
    requires s.avail.bucketChanged ==> av.bucketChanged
    ensures Inv(s') && HasCurrent(s')
  {
    ReloadMemory(s, av);
    ReloadBuckets(s, av);
    ReloadMeaning(s, av, s');
    ReloadShape(s, av, s');
    StackWriteKeeps(s, av, s');
  }

  lemma AllocGood(s: Db, size: nat)
    requires Shape(s) && CurrentLive(s) && BucketsShaped(s.live, s.bucketElems)
    ensures Falloc.Valid(Loaded(s.avail, CurBucket(s)))
    ensures var av := Falloc.Alloc(Loaded(s.avail, CurBucket(s)), size).0;
      GoodReload(s, av) && (s.avail.bucketChanged ==> av.bucketChanged)
  {
    LoadedValid(s);
    var al := Loaded(s.avail, CurBucket(s));
    Falloc.AllocValid(al, size);
    FallocCapacity.AllocBounded(al, size);
    FallocRuns.AllocWrites(al, size);
    FallocRuns.AllocFlag(al, size);
    FallocRuns.AllocBucketFlag(al, size);
  }

  lemma AllocSpaceDb(s: Db, size: nat)
    requires Shape(s) && CurrentLive(s) && BucketsShaped(s.live, s.bucketElems) && Space(s)
    ensures Space(AllocDb(s, size).0)
  {
    hide SpaceOk, Accounted, BucketOk, Falloc.Alloc, StackWritten;
    LoadedValid(s);
    var (s', adr) := AllocDb(s, size);
    ViewFacts(s);
    ReloadedView(s, Falloc.Alloc(Loaded(s.avail, CurBucket(s)), size).0);
    AllocSpace(s.avail, Fixed(s), ViewOf(s), CurAdr(s), size);
    AllocAccounted(s.avail, Fixed(s), ViewOf(s), CurAdr(s), size, s.lost);
    assert Fixed(s') == Fixed(s) + [Extent(size, adr)];
  }

  /** An allocation inside the current bucket: the new block is pending, everything else keeps its
      meaning and its place. */
  lemma AllocKeeps(s: Db, size: nat)
    requires Inv(s) && HasCurrent(s)
    ensures s.avail.blockSize > 0 && s.avail.capacity > 0
    ensures Inv(AllocDb(s, size).0) && HasCurrent(AllocDb(s, size).0)
  {
    CurrentIsLive(s);
    AllocGood(s, size);
    AllocSpaceDb(s, size);
    ReloadKeeps(s, Falloc.Alloc(Loaded(s.avail, CurBucket(s)), size).0, AllocDb(s, size).0);
  }

  lemma FreeGood(s: Db, e: Extent)
    requires Shape(s) && CurrentLive(s) && BucketsShaped(s.live, s.bucketElems)
    ensures Falloc.Valid(Loaded(s.avail, CurBucket(s)))
    ensures var av := Falloc.Free(Loaded(s.avail, CurBucket(s)), e);
      GoodReload(s, av) && (s.avail.bucketChanged ==> av.bucketChanged)
  {
    LoadedValid(s);
    var al := Loaded(s.avail, CurBucket(s));
    Falloc.FreeValid(al, e);
    FallocCapacity.FreeBounded(al, e);
    FallocRuns.FreeWrites(al, e);
    FallocRuns.FreeFlag(al, e);
    FallocRuns.FreeBucketFlag(al, e);
  }

  lemma FreeSpaceDb(s: Db)
    requires Shape(s) && CurrentLive(s) && BucketsShaped(s.live, s.bucketElems) && Space(s)
    requires s.pending != []
    ensures Space(FreeDb(s))
  {
    hide SpaceOk, Accounted, BucketOk, Falloc.Free, StackWritten;
    LoadedValid(s);
    var n := |s.pending| - 1;
    var e := s.pending[n];
    var s' := FreeDb(s);
    ViewFacts(s);
    ReloadedView(s, Falloc.Free(Loaded(s.avail, CurBucket(s)), e));
    assert s.pending == s.pending[..n] + [e];
    assert Fixed(s) == Fixed(s') + [e];
    FreeSpace(s.avail, Fixed(s'), e, ViewOf(s), CurAdr(s));
    FreeAccounted(s.avail, Fixed(s'), e, ViewOf(s), CurAdr(s), s.lost);
  }

  /** Freeing the last pending block from within the current bucket. */
  lemma FreeKeeps(s: Db)
    requires Inv(s) && HasCurrent(s) && s.pending != []
    ensures s.avail.blockSize > 0 && s.avail.capacity > 0
    ensures Inv(FreeDb(s)) && HasCurrent(FreeDb(s))
  {
    CurrentIsLive(s);
    var e := s.pending[|s.pending| - 1];
    FreeGood(s, e);
    FreeSpaceDb(s);
    ReloadKeeps(s, Falloc.Free(Loaded(s.avail, CurBucket(s)), e), FreeDb(s));
  }
}
