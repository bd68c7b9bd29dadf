/** The database file as a map from addresses to what was written there.  A write destroys
    everything it overlaps, so what stays readable depends on the allocator. */
module Pages {
  import opened Options
  import opened Extents
  import opened Probing
  import opened Directory
  import opened Ownership
  import Falloc

  /** The file header (lib/gdbm/gdbmdefs.h:65-77).  Of the stack of free tables it has the address of
      the top block only. */
  datatype Header = Header(blockSize: nat, dirAdr: nat, dirBits: nat, bucketElems: nat, nextBlock: nat,
                           capacity: nat, table: seq<Extent>, top: nat)

  datatype Page =
    | HeaderPage(header: Header)
    | DirPage(dir: seq<nat>)
    | BucketPage(bucket: Bucket)
    | RecordPage(bytes: Bytes)
    | StackPage(table: seq<Extent>, nextBlock: nat)   // avail_block

  // Sizes of the C structures with four-byte off_t (lib/gdbm/gdbmdefs.h:48-125).
  const FILE_HEADER_SIZE: nat := 52
  const HASH_BUCKET_SIZE: nat := 80
  const BUCKET_ELEMENT_SIZE: nat := 20

  /** Bytes of a bucket with room for n entries; the structure has room for one. */
  function BucketBytes(n: nat): int {
    HASH_BUCKET_SIZE + (n - 1) * BUCKET_ELEMENT_SIZE
  }

  /** Bytes of a header with room for n free extents. */
  function HeaderBytes(n: nat): int {
    FILE_HEADER_SIZE + (n - 1) * Falloc.AVAIL_ELEM_SIZE
  }

  /** Bytes of a block of the stack with room for n free extents. */
  function StackBytes(n: nat): int {
    Falloc.AVAIL_BLOCK_SIZE + (n - 1) * Falloc.AVAIL_ELEM_SIZE
  }

  datatype Block = Block(size: nat, page: Page)

  type File = map<nat, Block>

  function Erased(file: File, e: Extent): File {
    map k | k in file && Clear(Extent(file[k].size, k), e) :: file[k]
  }

  /** The file after writing `page`, of e.size bytes, at e.adr; writing no bytes does nothing. */
  function Written(file: File, e: Extent, page: Page): File {
    if e.size == 0 then file else Erased(file, e)[e.adr := Block(e.size, page)]
  }

  predicate Holds(file: File, e: Extent, page: Page) {
    e.adr in file && file[e.adr] == Block(e.size, page)
  }

  lemma WrittenHolds(file: File, e: Extent, page: Page)
    requires e.size > 0
    ensures Holds(Written(file, e, page), e, page)
  {
  }

  /** What was written elsewhere stays. */
  lemma WriteKeeps(file: File, e: Extent, page: Page, x: Extent, p: Page)
    requires Holds(file, x, p) && x.size > 0 && Clear(x, e)
    ensures Holds(Written(file, e, page), x, p)
  {
  }

  // ------------------------------------------------------------------ the stack of free tables

  /** The address of the i-th block from the top; 0 behind the last. */
  function AddressOf(stack: seq<Falloc.StackBlock>, i: nat): nat {
    if i < |stack| then stack[i].adr else 0
  }

  /** The page of the i-th block: its entries, linked to the block below. */
  function StackPageOf(stack: seq<Falloc.StackBlock>, i: nat): Page
    requires i < |stack|
  {
    StackPage(stack[i].table, AddressOf(stack, i + 1))
  }

  /** Every block of the stack is in the file, and no link to one is mistaken for the end. */
  ghost predicate StackOk(file: File, av: Falloc.Avail) {
    forall i :: 0 <= i < |av.stack| ==>
      av.stack[i].adr != 0 && Holds(file, StackExtent(av, i), StackPageOf(av.stack, i))
  }

  /** The stack block the allocator has written during one call, if any, goes to the file. */
  function StackWritten(file: File, av: Falloc.Avail): File {
    if av.past.writes == [] || av.stack == [] then file
    else Written(file, StackExtent(av, 0), StackPageOf(av.stack, 0))
  }

  lemma WriteKeepsStack(file: File, e: Extent, page: Page, av: Falloc.Avail)
    requires StackOk(file, av) && ClearOfStack(e, av)
    ensures StackOk(Written(file, e, page), av)
  {
    forall i | 0 <= i < |av.stack|
      ensures Holds(Written(file, e, page), StackExtent(av, i), StackPageOf(av.stack, i))
    {
      WriteKeeps(file, e, page, StackExtent(av, i), StackPageOf(av.stack, i));
    }
  }

  lemma StackTail(file: File, av: Falloc.Avail, av': Falloc.Avail)
    requires StackOk(file, av) && av'.capacity == av.capacity
    requires av'.stack == av.stack || (av.stack != [] && av'.stack == av.stack[1..])
    ensures StackOk(file, av')
  {
    if av.stack != [] && av'.stack == av.stack[1..] {
      forall i | 0 <= i < |av'.stack|
        ensures av'.stack[i].adr != 0 && Holds(file, StackExtent(av', i), StackPageOf(av'.stack, i))
      {
        var j := i + 1;
        assert av.stack[j].adr != 0 && Holds(file, StackExtent(av, j), StackPageOf(av.stack, j));
      }
    }
  }

  /** A block put on top of the stack and written leaves the ones below as they were. */
  lemma StackPushed(file: File, av: Falloc.Avail, below: seq<Falloc.StackBlock>)
    requires av.stack != [] && av.stack[1..] == below && av.stack[0].adr != 0
    requires StackOk(file, av.(stack := below))
    requires forall i :: 0 < i < |av.stack| ==> Clear(StackExtent(av, 0), StackExtent(av, i))
    ensures StackOk(Written(file, StackExtent(av, 0), StackPageOf(av.stack, 0)), av)
  {
    var file' := Written(file, StackExtent(av, 0), StackPageOf(av.stack, 0));
    WrittenHolds(file, StackExtent(av, 0), StackPageOf(av.stack, 0));
    var low := av.(stack := below);
    forall i | 0 < i < |av.stack|
      ensures av.stack[i].adr != 0 && Holds(file', StackExtent(av, i), StackPageOf(av.stack, i))
    {
      var j := i - 1;
      assert low.stack[j] == av.stack[i];
      assert StackExtent(low, j) == StackExtent(av, i) && StackPageOf(low.stack, j) == StackPageOf(av.stack, i);
      assert Holds(file, StackExtent(low, j), StackPageOf(low.stack, j));
      WriteKeeps(file, StackExtent(av, 0), StackPageOf(av.stack, 0), StackExtent(av, i), StackPageOf(av.stack, i));
    }
  }

  // ------------------------------------------------------------------ records

  /** The contents of records, by address. */
  type Records = map<nat, Bytes>

  /** The bytes an entry stands for.  A record without bytes occupies no space at all. */
  function RecordBytes(recs: Records, e: Element): Bytes {
    if e.keySize + e.dataSize == 0 then []
    else if e.dataPointer in recs then recs[e.dataPointer]
    else []
  }

  predicate RecordOk(file: File, recs: Records, e: Element) {
    && |RecordBytes(recs, e)| == e.keySize + e.dataSize
    && (e.keySize + e.dataSize > 0 ==> Holds(file, RecordExtent(e), RecordPage(RecordBytes(recs, e))))
  }

  /** Every live entry's record is in the file. */
  ghost predicate RecordsOk(file: File, live: Live, recs: Records) {
    forall a, i :: a in live && 0 <= i < |live[a].table| && Used(live[a].table[i])
                   ==> RecordOk(file, recs, live[a].table[i])
  }

  // ------------------------------------------------------------------ the bucket cache

  datatype DataCache = DataCache(hash: int, dataSize: nat, keySize: nat, dptr: Option<Bytes>, elemLoc: int)

  const NO_DATA := DataCache(NO_HASH, 0, 0, None, -1)

  datatype CacheElem = CacheElem(bucket: Bucket, adr: nat, changed: bool, data: DataCache)

  /** Cache slots with an address hold the latest contents of distinct live buckets. */
  ghost predicate CacheOk(cache: seq<CacheElem>, live: Live) {
    && (forall i :: 0 <= i < |cache| && cache[i].adr != 0 ==>
          cache[i].adr in live && live[cache[i].adr] == cache[i].bucket)
    && (forall i, j :: 0 <= i < j < |cache| && cache[i].adr == cache[j].adr ==> cache[i].adr == 0)
  }

  /** A bucket whose latest contents are only in memory: in a slot marked changed, or in the
      current slot when an update has touched it (`touched` is -1 or the current slot). */
  predicate Dirty(cache: seq<CacheElem>, touched: int, i: nat)
    requires i < |cache|
  {
    cache[i].changed || i == touched
  }

  ghost predicate InMemory(cache: seq<CacheElem>, touched: int, a: nat) {
    exists i :: 0 <= i < |cache| && cache[i].adr == a && Dirty(cache, touched, i)
  }

  lemma SlotInMemory(cache: seq<CacheElem>, touched: int, i: nat)
    requires i < |cache| && Dirty(cache, touched, i)
    ensures InMemory(cache, touched, cache[i].adr)
  {
  }

  /** Every live bucket's latest contents are in memory or in the file. */
  ghost predicate BucketsOk(file: File, cache: seq<CacheElem>, touched: int, live: Live, blockSize: nat) {
    forall a :: a in live ==>
      InMemory(cache, touched, a) || Holds(file, Extent(blockSize, a), BucketPage(live[a]))
  }

  /** The one-record data cache of a slot repeats the entry it names. */
  predicate DataMatches(c: CacheElem, recs: Records) {
    && 0 <= c.data.elemLoc < |c.bucket.table|
    && var e := c.bucket.table[c.data.elemLoc];
       Used(e) && c.data.hash == e.hash && c.data.keySize == e.keySize && c.data.dataSize == e.dataSize
       && c.data.dptr == Some(RecordBytes(recs, e))
  }

  /** In slots that are not dirty the data cache is empty or right. */
  ghost predicate DataOk(cache: seq<CacheElem>, touched: int, recs: Records) {
    forall i :: 0 <= i < |cache| && cache[i].adr != 0 && !Dirty(cache, touched, i) ==>
      cache[i].data.elemLoc == -1 || DataMatches(cache[i], recs)
  }

  // ------------------------------------------------------------------ what a write leaves alone

  /** `e` overlaps the block of no live bucket other than `except`. */
  ghost predicate ClearOfBlocks(e: Extent, addresses: set<nat>, blockSize: nat, except: nat) {
    forall a :: a in addresses && a != except ==> Clear(e, Extent(blockSize, a))
  }

  /** `e` overlaps no record. */
  ghost predicate ClearOfRecords(e: Extent, live: Live) {
    forall a, i :: a in live && 0 <= i < |live[a].table| && Used(live[a].table[i])
                   ==> Clear(e, RecordExtent(live[a].table[i]))
  }

  lemma CentralHarmless(av: Falloc.Avail, fixed: seq<Extent>, live: Live, e: Extent, except: nat)
    requires SpaceOk(av, fixed, live) && OwnedCentrally(av, fixed, e)
    ensures ClearOfBlocks(e, live.Keys, av.blockSize, except) && ClearOfRecords(e, live)
  {
    forall a | a in live.Keys ensures Clear(e, Extent(av.blockSize, a)) {
      CentralBlockClear(av, fixed, live, e, a);
    }
    forall a, i | a in live && 0 <= i < |live[a].table| && Used(live[a].table[i])
      ensures Clear(e, RecordExtent(live[a].table[i]))
    {
      CentralRecordClear(av, fixed, live, e, a, i);
    }
  }

  lemma BucketHarmless(av: Falloc.Avail, fixed: seq<Extent>, live: Live, a: nat)
    requires SpaceOk(av, fixed, live) && a in live
    ensures ClearOfBlocks(Extent(av.blockSize, a), live.Keys, av.blockSize, a)
    ensures ClearOfRecords(Extent(av.blockSize, a), live)
  {
    forall x | x in live.Keys && x != a ensures Clear(Extent(av.blockSize, a), Extent(av.blockSize, x)) {
      BlocksClear(av, fixed, live, a, x);
    }
    forall x, i | x in live && 0 <= i < |live[x].table| && Used(live[x].table[i])
      ensures Clear(Extent(av.blockSize, a), RecordExtent(live[x].table[i]))
    {
      BlockRecordClear(av, fixed, live, a, x, i);
    }
  }

  lemma WriteKeepsRecords(file: File, e: Extent, page: Page, live: Live, recs: Records)
    requires RecordsOk(file, live, recs) && ClearOfRecords(e, live)
    ensures RecordsOk(Written(file, e, page), live, recs)
  {
    var file' := Written(file, e, page);
    forall a, i | a in live && 0 <= i < |live[a].table| && Used(live[a].table[i])
      ensures RecordOk(file', recs, live[a].table[i])
    {
      var el := live[a].table[i];
      assert RecordOk(file, recs, el);
      if el.keySize + el.dataSize > 0 {
        WriteKeeps(file, e, page, RecordExtent(el), RecordPage(RecordBytes(recs, el)));
      }
    }
  }

  lemma WriteKeepsBuckets(file: File, e: Extent, page: Page, cache: seq<CacheElem>, touched: int,
                          live: Live, blockSize: nat, except: nat)
    requires BucketsOk(file, cache, touched, live, blockSize)
    requires ClearOfBlocks(e, live.Keys, blockSize, except)
    requires blockSize > 0 && (except !in live || InMemory(cache, touched, except))
    ensures BucketsOk(Written(file, e, page), cache, touched, live, blockSize)
  {
    var file' := Written(file, e, page);
    forall a | a in live && !InMemory(cache, touched, a)
      ensures Holds(file', Extent(blockSize, a), BucketPage(live[a]))
    {
      assert a in live.Keys;
      WriteKeeps(file, e, page, Extent(blockSize, a), BucketPage(live[a]));
    }
  }
}
