/** What is in the file between two calls: writing directory and header, creating a database and
    opening one again (lib/gdbm/update.c:58-110, lib/gdbm/gdbmopen.c:204-402). */
module DiskSteps {
  import opened Extents
  import opened Probing
  import opened Directory
  import opened KeyHash
  import opened Ownership
  import opened Pages
  import opened Content
  import opened Database
  import opened CacheSteps
  import Falloc
  import FallocCapacity

  // ------------------------------------------------------------------ writing directory and header

  function WriteDirDb(s: Db): Db {
    s.(file := Written(s.file, DirExtent(s), DirPage(s.dir)), directoryChanged := false)
  }

  function WriteHeaderDb(s: Db): Db {
    s.(file := Written(s.file, HeaderExtent(s), HeaderPage(CurrentHeader(s))),
       avail := s.avail.(headerChanged := false))
  }

  lemma FixedBlockHarmless(s: Db, k: nat, page: Page)
    requires Shape(s) && Space(s) && s.hole == -1 && k < |Fixed(s)| && StackOk(s.file, s.avail)
    requires BucketsOk(s.file, s.cache, s.touched, s.live, s.blockSize) && RecordsOk(s.file, ViewOf(s), s.recs)
    ensures BucketsOk(Written(s.file, Fixed(s)[k], page), s.cache, s.touched, s.live, s.blockSize)
    ensures RecordsOk(Written(s.file, Fixed(s)[k], page), ViewOf(s), s.recs)
    ensures StackOk(Written(s.file, Fixed(s)[k], page), s.avail)
  {
    assert ViewOf(s) == s.live;
    FixedStackClear(s.avail, Fixed(s), s.live, k);
    WriteKeepsStack(s.file, Fixed(s)[k], page, s.avail);
    FixedOwned(s.avail, Fixed(s), k);
    CentralHarmless(s.avail, Fixed(s), s.live, Fixed(s)[k], 0);
    ZeroNotLive(s);
    HarmlessWrite(s.file, Fixed(s)[k], page, s);
  }

  lemma WriteDirKeeps(s: Db)
    requires Inv(s) && s.hole == -1
    ensures Inv(WriteDirDb(s))
  {
    hide SpaceOk, Accounted, Represents, RecordsOk, BucketsOk, StackOk, Written;
    var s' := WriteDirDb(s);
    assert ViewOf(s) == s.live && ViewOf(s') == s'.live;
    assert Fixed(s)[1] == DirExtent(s) && Fixed(s)[0] == HeaderExtent(s);
    FixedBlockHarmless(s, 1, DirPage(s.dir));
    FixedClear(s.avail, Fixed(s), s.live, 0, 1);
    DirNotEmpty(s);
    WrittenHolds(s.file, DirExtent(s), DirPage(s.dir));
    if !s.avail.headerChanged {
      WriteKeeps(s.file, DirExtent(s), DirPage(s.dir), HeaderExtent(s), HeaderPage(CurrentHeader(s)));
    }
  }

  lemma WriteHeaderKeeps(s: Db)
    requires Inv(s) && s.hole == -1
    ensures Inv(WriteHeaderDb(s))
  {
    hide SpaceOk, Accounted, Represents, RecordsOk, BucketsOk, StackOk, Written;
    var s' := WriteHeaderDb(s);
    assert ViewOf(s) == s.live && ViewOf(s') == s'.live;
    assert Fixed(s)[1] == DirExtent(s) && Fixed(s)[0] == HeaderExtent(s);
    FixedBlockHarmless(s, 0, HeaderPage(CurrentHeader(s)));
    StackTail(s'.file, s.avail, s'.avail);
    FixedClear(s.avail, Fixed(s), s.live, 0, 1);
    DirNotEmpty(s);
    WrittenHolds(s.file, HeaderExtent(s), HeaderPage(CurrentHeader(s)));
    assert CurrentHeader(s') == CurrentHeader(s);
    if !s.directoryChanged {
      WriteKeeps(s.file, HeaderExtent(s), HeaderPage(CurrentHeader(s)), DirExtent(s), DirPage(s.dir));
    }
    HeaderFlagSpace(s);
  }

  lemma HeaderFlagSpace(s: Db)
    requires Space(s)
    ensures Space(WriteHeaderDb(s))
  {
    var s' := WriteHeaderDb(s);
    SameOwners(s.avail, Fixed(s), s'.avail, Fixed(s'), ViewOf(s), s.lost);
  }

  // ------------------------------------------------------------------ opening an existing database

  /** The free space of an opened file: what the header says, and the stack its top address leads to.
      A full half already on the stack counts as one that was pushed. */
  function OpenedAvail(header: Header, stack: seq<Falloc.StackBlock>): Falloc.Avail {
    var av := Falloc.Avail(header.blockSize, header.capacity, false, false, header.table, stack, header.nextBlock, [],
                           false, false, Falloc.NO_PAST);
    av.(past := Falloc.NO_PAST.(starved := !FallocCapacity.Roomy(av)))
  }

  /** The bytes a state has forgotten: remnants ignored and entries lost, now or before. */
  ghost function Forgotten(s: Db): iset<nat> {
    s.lost + iset b: nat | Cover(s.avail.past.crumbs, b) + Cover(s.avail.past.dropped, b) > 0
  }

  /** What gdbm_open builds from the header, the directory and the stack in the file. */
  ghost function OpenedDb(s: Db, header: Header, dir: seq<nat>, stack: seq<Falloc.StackBlock>): Db {
    Db(header.blockSize, header.bucketElems, s.file, dir, header.dirBits, header.dirAdr, OpenedAvail(header, stack),
       [], -1, 0, false, false, s.live, s.recs, s.content, [], -1, -1, Forgotten(s))
  }

  /** A block of the stack, read from the file. */
  function ReadStackBlock(file: File, adr: nat): (block: Falloc.StackBlock)
    requires adr in file && file[adr].page.StackPage?
  {
    Falloc.StackBlock(adr, file[adr].page.table)
  }

  lemma StackBlockIsInFile(file: File, av: Falloc.Avail, i: nat)
    requires StackOk(file, av) && i < |av.stack|
    ensures var adr := av.stack[i].adr;
      && adr != 0 && adr in file && file[adr].page.StackPage?
      && ReadStackBlock(file, adr) == av.stack[i] && file[adr].page.nextBlock == AddressOf(av.stack, i + 1)
  {
    assert Holds(file, StackExtent(av, i), StackPageOf(av.stack, i));
  }

  /** Only behind the last block is the address 0. */
  lemma EndOfStack(file: File, av: Falloc.Avail, i: nat)
    requires StackOk(file, av) && i <= |av.stack|
    ensures AddressOf(av.stack, i) == 0 <==> i == |av.stack|
  {
  }

  /** Following the links from the address of the top recovers the stack. */
  method ReadStack(file: File, top: nat, ghost av: Falloc.Avail) returns (stack: seq<Falloc.StackBlock>)
    requires StackOk(file, av) && top == AddressOf(av.stack, 0)
    ensures stack == av.stack
  {
    stack := [];
    var adr := top;
    while adr != 0
      invariant |stack| <= |av.stack| && stack == av.stack[..|stack|] && adr == AddressOf(av.stack, |stack|)
      decreases |av.stack| - |stack|
    {
      StackBlockIsInFile(file, av, |stack|);
      stack := stack + [ReadStackBlock(file, adr)];
      adr := file[adr].page.nextBlock;
    }
    EndOfStack(file, av, |stack|);
  }

  lemma OpenedBounded(s: Db)
    requires Shape(s) && !s.avail.past.overrun
    ensures var av := OpenedAvail(CurrentHeader(s), s.avail.stack);
      Falloc.Valid(av) && FallocCapacity.Bounded(av)
  {
  }

  lemma OpenedSpace(s: Db, s': Db)
    requires Shape(s) && Space(s) && Clean(s)
    requires s' == OpenedDb(s, CurrentHeader(s), s.dir, s.avail.stack)
    ensures Space(s')
  {
    assert ViewOf(s) == s.live && ViewOf(s') == s.live && Fixed(s') == Fixed(s);
    forall b: nat
      ensures ByteOk(s'.avail, Fixed(s'), s.live, b) && (b !in s'.lost ==> ByteOwned(s'.avail, Fixed(s'), s.live, b))
    {
      assert ByteOk(s.avail, Fixed(s), s.live, b);
      if b !in s'.lost {
        assert ByteOwned(s.avail, Fixed(s), s.live, b);
        assert CentralOwn(s'.avail, Fixed(s'), b) == CentralOwn(s.avail, Fixed(s), b);
      }
    }
  }

  /** Durability: the file as any call leaves it, opened again, is a database for the same map. */
  lemma ReopenKeeps(s: Db)
    requires Inv(s) && Clean(s) && !s.avail.past.overrun
    ensures 0 in s.file && s.file[0].page == HeaderPage(CurrentHeader(s))
    ensures s.dirAdr in s.file && s.file[s.dirAdr].page == DirPage(s.dir)
    ensures StackOk(s.file, s.avail)
    ensures var s' := OpenedDb(s, CurrentHeader(s), s.dir, s.avail.stack); Inv(s') && Clean(s')
  {
    var s' := OpenedDb(s, CurrentHeader(s), s.dir, s.avail.stack);
    OpenedBounded(s);
    OpenedSpace(s, s');
    StackTail(s.file, s.avail, s'.avail);
    assert ViewOf(s) == s.live && ViewOf(s') == s.live;
    forall a | a in s.live ensures Holds(s.file, Extent(s.blockSize, a), BucketPage(s.live[a])) {
      assert !InMemory(s.cache, s.touched, a);
    }
  }

  // ------------------------------------------------------------------ creating a database

  /** As many entries as a bucket of this size has room for. */
  function ElemsFor(blockSize: nat): (n: nat)
    requires blockSize >= HASH_BUCKET_SIZE
    ensures n > 0 && BucketBytes(n) <= blockSize < BucketBytes(n + 1)
  {
    (blockSize - HASH_BUCKET_SIZE) / BUCKET_ELEMENT_SIZE + 1
  }

  /** As many free extents as a header of this size has room for. */
  function CapacityFor(blockSize: nat): (n: nat)
    requires blockSize >= FILE_HEADER_SIZE
    ensures n > 0 && HeaderBytes(n) <= blockSize < HeaderBytes(n + 1)
  {
    (blockSize - FILE_HEADER_SIZE) / Falloc.AVAIL_ELEM_SIZE + 1
  }

  /** A block of at least 512 bytes gives the header's free table room for at least 58 entries, so
      the bound the allocator's capacity results ask for always holds. */
  lemma CapacityIsLarge(blockSize: nat)
    requires blockSize >= 512
    ensures CapacityFor(blockSize) >= CapacityFor(512) == 58
  {
  }

  /** With these sizes a power-of-two block always gives a table of even capacity: the case in
      which a pop can overrun it. */
  lemma {:induction false} CapacityIsEven(k: nat)
    requires k >= 9
    ensures Shl(1, k) >= 512 && Shl(1, k) % 16 == 0
    ensures CapacityFor(Shl(1, k)) % 2 == 0
  {
    if k == 9 {
      assert Shl(1, 9) == 512;
    } else {
      CapacityIsEven(k - 1);
    }
  }

  /** The one empty bucket of a new database. */
  function FirstBucket(blockSize: nat): Bucket
    requires blockSize >= HASH_BUCKET_SIZE
  {
    Bucket([Extent(blockSize, 3 * blockSize)], 0, 0, EmptyTable(ElemsFor(blockSize)))
  }

  function NewAvail(blockSize: nat): Falloc.Avail
    requires blockSize >= HASH_BUCKET_SIZE
  {
    Falloc.Avail(blockSize, CapacityFor(blockSize), false, false, [], [], 4 * blockSize, [], false, false, Falloc.NO_PAST)
  }

  function NewHeader(blockSize: nat, dirBits: nat): Header
    requires blockSize >= HASH_BUCKET_SIZE
  {
    Header(blockSize, blockSize, dirBits, ElemsFor(blockSize), 4 * blockSize, CapacityFor(blockSize), [], 0)
  }

  /** The file after the three writes of gdbm_open. */
  function NewFile(blockSize: nat, dir: seq<nat>, header: Header): File
    requires blockSize >= HASH_BUCKET_SIZE
  {
    Written(
      Written(
        Written(map[], Extent(blockSize, 0), HeaderPage(header)),
        Extent(blockSize, blockSize), DirPage(dir)),
      Extent(blockSize, 2 * blockSize), BucketPage(FirstBucket(blockSize)))
  }

  ghost function NewDb(blockSize: nat, dirBits: nat): Db
    requires blockSize >= HASH_BUCKET_SIZE
  {
    var dir := seq(Shl(1, dirBits), _ => 2 * blockSize);
    var header := NewHeader(blockSize, dirBits);
    Db(blockSize, ElemsFor(blockSize), NewFile(blockSize, dir, header), dir, dirBits, blockSize, NewAvail(blockSize),
       [], -1, 0, false, false, map[2 * blockSize := FirstBucket(blockSize)], map[], map[], [], -1, -1, iset{})
  }

  lemma NewDirOk(s: Db)
    requires s.blockSize >= HASH_BUCKET_SIZE && s.dirBits <= HASH_BITS && s == NewDb(s.blockSize, s.dirBits)
    ensures Represents(s.dir, s.dirBits, s.live, s.recs, s.content)
  {
    var d := s.dirBits;
    ShlMonotone(0, 1, d);
    assert s.dir[0] == 2 * s.blockSize;
    forall i, j | 0 <= i < |s.dir| && 0 <= j < |s.dir| ensures Shares(s.dir, d, s.live[s.dir[i]].bits, i, j) {
      ShrInterval(i, d, 0);
      ShrInterval(j, d, 0);
      ShlZero(d);
    }
    forall key: Bytes ensures KeyOk(s.dir, d, s.live, s.recs, s.content, key) {
      UnusedSum(FirstBucket(s.blockSize).table, HasKey(s.recs, key));
    }
  }

  lemma {:induction false} ShlZero(k: nat)
    ensures Shl(0, k) == 0
  {
    if k > 0 { ShlZero(k - 1); }
  }

  lemma NewSpaceOk(s: Db)
    requires s.blockSize >= HASH_BUCKET_SIZE && s == NewDb(s.blockSize, s.dirBits)
    requires s.blockSize == AddressBytes(Shl(1, s.dirBits))
    ensures Space(s)
  {
    var bs := s.blockSize;
    var bucket := FirstBucket(bs);
    var hdr, dir := Extent(bs, 0), Extent(bs, bs);
    assert Fixed(s) == [hdr] + [dir];
    forall b: nat ensures ByteOk(s.avail, Fixed(s), ViewOf(s), b) && ByteOwned(s.avail, Fixed(s), ViewOf(s), b) {
      CoverAppend([hdr], dir, b);
      CoverOne(hdr, b);
      CoverOne(bucket.av[0], b);
      UnusedSum(bucket.table, RecordCovers(b));
      assert 2 * bs in ViewOf(s) && ViewOf(s)[2 * bs] == bucket;
    }
  }

  lemma NewFileHolds(blockSize: nat, dir: seq<nat>, header: Header)
    requires blockSize >= HASH_BUCKET_SIZE
    ensures var f := NewFile(blockSize, dir, header);
      && Holds(f, Extent(blockSize, 0), HeaderPage(header))
      && Holds(f, Extent(blockSize, blockSize), DirPage(dir))
      && Holds(f, Extent(blockSize, 2 * blockSize), BucketPage(FirstBucket(blockSize)))
  {
  }

  /** A new database is empty and satisfies the invariant. */
  lemma NewDbOk(blockSize: nat, dirBits: nat)
    requires blockSize >= 512 && dirBits <= HASH_BITS
    requires blockSize == AddressBytes(Shl(1, dirBits))
    ensures Inv(NewDb(blockSize, dirBits)) && Clean(NewDb(blockSize, dirBits))
    ensures NewDb(blockSize, dirBits).content == map[]
  {
    hide SpaceOk, Accounted, Represents, NewFile;
    var s := NewDb(blockSize, dirBits);
    NewDirOk(s);
    NewSpaceOk(s);
    NewFileHolds(blockSize, s.dir, CurrentHeader(s));
    UnusedSum(FirstBucket(blockSize).table, One());
    assert BucketOk(FirstBucket(blockSize), s.bucketElems);
    assert ViewOf(s) == s.live;
  }
}
