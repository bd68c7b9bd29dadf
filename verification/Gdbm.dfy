/** An open database: the routines of lib/gdbm as methods on an object with the fields of
    gdbm_file_info, proved against the map the database stands for. */
module Gdbm {
  import opened Options
  import opened Extents
  import opened Probing
  import opened Directory
  import opened KeyHash
  import opened Ownership
  import opened Pages
  import opened Content
  import opened Accounts
  import opened Database
  import opened CacheSteps
  import opened SplitSteps
  import opened EntrySteps
  import opened DiskSteps
  import opened SplitTermination
  import opened Lookup
  import Falloc
  import FallocCapacity

  const DEFAULT_CACHESIZE: nat := 100

  // ------------------------------------------------------------------ loops over the directory

  /** The loop that fills a directory of twice the size (lib/gdbm/bucket.c:204-209). */
  method DoubleDirectory(dir: seq<nat>) returns (newDir: seq<nat>)
    ensures newDir == Doubled(dir)
  {
    newDir := [];
    for index := 0 to |dir|
      invariant |newDir| == 2 * index
      invariant forall i :: 0 <= i < |newDir| ==> newDir[i] == dir[i / 2]
    {
      newDir := newDir + [dir[index], dir[index]];
    }
  }

  /** The loops that redirect the slots of a split bucket (lib/gdbm/bucket.c:265-275). */
  method Redirect(dir: seq<nat>, lo: nat, mid: nat, hi: nat, a0: nat, a1: nat) returns (newDir: seq<nat>)
    requires lo <= mid <= hi <= |dir|
    ensures newDir == Redirected(dir, lo, mid, hi, a0, a1)
  {
    newDir := dir;
    for index := lo to mid
      invariant |newDir| == |dir|
      invariant forall i :: 0 <= i < |dir| ==> newDir[i] == if lo <= i < index then a0 else dir[i]
    {
      newDir := newDir[index := a0];
    }
    for index := mid to hi
      invariant |newDir| == |dir|
      invariant forall i :: 0 <= i < |dir| ==>
        newDir[i] == if lo <= i < mid then a0 else if mid <= i < index then a1 else dir[i]
    {
      newDir := newDir[index := a1];
    }
  }

  /** The do-while loops of the split that pick a cache slot (lib/gdbm/bucket.c:172-177, 181-186). */
  method NextSlot(lastRead: int, n: nat, cur: nat) returns (k: nat)
    requires n >= 3 && -1 <= lastRead < n && cur < n
    ensures k < n && k != cur && k != lastRead
    ensures var first := if lastRead + 1 == n then 0 else lastRead + 1;
      k == if first != cur then first else if first + 1 == n then 0 else first + 1
  {
    k := Next(if lastRead == -1 then n - 1 else lastRead, n);
    ghost var first := k;
    while k == cur
      invariant k < n && (k == first || (k == Next(first, n) && k != cur && first == cur))
      invariant k != lastRead
      decreases if k == first then 1 else 0
    {
      k := Next(k, n);
    }
  }

  lemma NextInTurn(lastRead: int, n: nat)
    requires n > 0 && -1 <= lastRead < n
    ensures (lastRead + 1) % n == if lastRead + 1 == n then 0 else lastRead + 1
  {
  }

  // ------------------------------------------------------------------ the object

  class Dbf {
    const writer: bool
    const blockSize: nat
    const bucketElems: nat
    var file: File
    var dir: seq<nat>
    var dirBits: nat
    var dirAdr: nat
    var avail: Falloc.Avail
    var cache: seq<CacheElem>     // [] until _gdbm_init_cache
    var lastRead: int
    var cur: nat                  // index of cache_entry; the current bucket is the one in that slot
    var bucketDir: nat
    var secondChanged: bool
    var directoryChanged: bool

    ghost var live: Live
    ghost var recs: Records
    ghost var content: Map
    ghost var pending: seq<Extent>
    ghost var touched: int
    ghost var hole: int
    ghost const lost: iset<nat>

    ghost function Snap(): Db
      reads this
    {
      Db(blockSize, bucketElems, file, dir, dirBits, dirAdr, avail, cache, lastRead, cur,
         secondChanged, directoryChanged, live, recs, content, pending, touched, hole, lost)
    }

    ghost predicate Valid()
      reads this
    {
      Inv(Snap()) && (cache == [] ==> lastRead == -1)
    }

    /** Everything is in the file. */
    ghost predicate Settled()
      reads this
    {
      Valid() && Clean(Snap())
    }

    /** The state between two calls of the interface.  Once a pop has overrun the header's array,
        `avail` no longer stands for what the code has, and nothing is claimed of further calls. */
    ghost predicate Ready()
      reads this
    {
      Settled() && !avail.past.overrun && FallocCapacity.Fits(avail)
    }

    /** A new, empty database (lib/gdbm/gdbmopen.c:225-317). */
    constructor New(blockSize: nat, dirBits: nat)
      requires blockSize >= 512 && dirBits <= HASH_BITS
      requires blockSize == AddressBytes(Shl(1, dirBits))
      ensures Ready() && content == map[] && writer && this.blockSize == blockSize
      ensures avail.stack == [] && !avail.past.starved
      ensures BucketBytes(bucketElems) <= blockSize < BucketBytes(bucketElems + 1)
      ensures HeaderBytes(avail.capacity) <= blockSize < HeaderBytes(avail.capacity + 1)
      ensures NothingLost(Snap()) && lost == iset{} && avail.nextBlock == 4 * blockSize
      ensures dirAdr == blockSize && (forall i :: 0 <= i < |dir| ==> dir[i] == 2 * blockSize) && |dir| == Shl(1, dirBits)
      ensures live.Keys == {2 * blockSize} && live[2 * blockSize].av == [Extent(blockSize, 3 * blockSize)]
      ensures !avail.centralFree && !avail.coalesce && avail.header == []
    {
      ghost var s := NewDb(blockSize, dirBits);
      var elems := ElemsFor(blockSize);
      var slots := seq(Shl(1, dirBits), _ => 2 * blockSize);
      this.writer := true;
      this.blockSize := blockSize;
      this.bucketElems := elems;
      this.dir := slots;
      this.dirBits := dirBits;
      this.dirAdr := blockSize;
      this.avail := NewAvail(blockSize);
      this.file := NewFile(blockSize, slots, NewHeader(blockSize, dirBits));
      this.cache, this.lastRead, this.cur, this.bucketDir := [], -1, 0, 0;
      this.secondChanged, this.directoryChanged := false, false;
      this.live, this.recs, this.content := s.live, s.recs, s.content;
      this.pending, this.touched, this.hole, this.lost := [], -1, -1, iset{};
      new;
      NewDbOk(blockSize, dirBits);
      assert Snap() == s;
    }

    /** Opening the file some earlier use left behind (lib/gdbm/gdbmopen.c:318-396): the database
        stands for the same map.  The header has the address of the top of the stack only; the blocks
        are those its links lead to. */
    constructor Open(file: File, writer: bool, ghost left: Db)
      requires Inv(left) && Clean(left) && !left.avail.past.overrun && left.file == file
      ensures Ready() && content == left.content && this.file == file && this.writer == writer
      ensures avail.stack == left.avail.stack && avail.header == left.avail.header
      ensures avail.past.starved <==> !FallocCapacity.Roomy(avail)
      ensures !avail.centralFree && !avail.coalesce && avail.nextBlock == left.avail.nextBlock
      ensures dir == left.dir && dirBits == left.dirBits && dirAdr == left.dirAdr && lost == Forgotten(left)
    {
      ReopenKeeps(left);
      var header := file[0].page.header;
      var stack := ReadStack(file, header.top, left.avail);
      this.writer := writer;
      this.blockSize := header.blockSize;
      this.bucketElems := header.bucketElems;
      this.file := file;
      this.dir := file[header.dirAdr].page.dir;
      this.dirBits := header.dirBits;
      this.dirAdr := header.dirAdr;
      this.avail := OpenedAvail(header, stack);
      this.cache, this.lastRead, this.cur, this.bucketDir := [], -1, 0, 0;
      this.secondChanged, this.directoryChanged := false, false;
      this.live, this.recs, this.content := left.live, left.recs, left.content;
      this.pending, this.touched, this.hole, this.lost := [], -1, -1, Forgotten(left);
      new;
      assert Snap() == OpenedDb(left, CurrentHeader(left), left.dir, left.avail.stack);
    }

    // ---------------------------------------------------------------- the bucket cache

    method InitCache(size: nat)
      requires Valid() && cache == [] && size >= 3
      modifies `cache, `cur
      ensures Valid() && |cache| == size && Snap() == InitCacheDb(old(Snap()), size)
    {
      InitCacheKeeps(Snap(), size);
      cache := seq(size, _ => EmptySlot());
      cur := 0;
    }

    method WriteBucket(i: nat)
      requires Valid() && hole == -1 && i < |cache| && cache[i].adr != 0
      modifies `file, `cache, `touched
      ensures Valid() && Snap() == WriteBucketDb(old(Snap()), i)
    {
      hide Memory, Meaning, Space, Disk, Flags;
      WriteBucketKeeps(Snap(), i);
      var c := cache[i];
      file := Written(file, Extent(blockSize, c.adr), BucketPage(c.bucket));
      cache := cache[i := c.(changed := false, data := c.data.(hash := NO_HASH, elemLoc := -1))];
      touched := if touched == i then -1 else touched;
    }

    /** Makes slot `k` free for another bucket: written back first if it was changed. */
    method Evict(k: nat)
      requires Valid() && hole == -1 && k < |cache|
      modifies `cache, `file, `touched
      ensures Valid() && Evicted(old(cache), cache, k)
      ensures touched == (if old(cache[k].changed) && old(touched) == k then -1 else old(touched))
      ensures old(Clean(Snap())) ==> Snap() == old(Snap())
    {
      hide Inv;
      if cache[k].changed {
        ChangedSlot(Snap(), k);
        WriteBucket(k);
      }
    }

    /** Reads a bucket that is in no slot over a clean slot. */
    method ReadBucket(k: nat, bucketAdr: nat)
      requires Valid() && hole == -1 && touched == -1 && (avail.bucketChanged ==> secondChanged)
      requires k < |cache| && !cache[k].changed
      requires bucketAdr in live && bucketAdr != 0 && Uncached(cache, bucketAdr)
      modifies `cache, `cur
      ensures Valid() && HasCurrent(Snap()) && CurAdr(Snap()) == bucketAdr
      ensures old(Clean(Snap())) ==> Clean(Snap())
      ensures |cache| == |old(cache)| && cur == k
    {
      hide Inv, Clean, Uncached;
      ghost var s := Snap();
      LoadKeeps(s, k, bucketAdr);
      if Clean(s) { LoadClean(s, k, bucketAdr); }
      cache := cache[k := CacheElem(file[bucketAdr].page.bucket, bucketAdr, false, cache[k].data.(elemLoc := -1))];
      cur := k;
      assert Snap() == LoadDb(s, k, bucketAdr);
    }

    /** The slot next in turn, evicted, takes the bucket. */
    method LoadBucket(bucketAdr: nat)
      requires Valid() && hole == -1 && touched == -1 && (avail.bucketChanged ==> secondChanged)
      requires cache != [] && bucketAdr in live && bucketAdr != 0
      requires Uncached(cache, bucketAdr)
      modifies `cache, `lastRead, `cur, `file, `touched
      ensures Valid() && HasCurrent(Snap()) && CurAdr(Snap()) == bucketAdr && touched == -1
      ensures old(Clean(Snap())) ==> Clean(Snap())
      ensures |cache| == |old(cache)| && cur == lastRead == if old(lastRead) + 1 == |cache| then 0 else old(lastRead) + 1
    {
      hide Inv, Clean, Uncached;
      SlotsInRange(Snap());
      NextInTurn(lastRead, |cache|);
      var k := (lastRead + 1) % |cache|;
      LastReadKeeps(Snap(), k);
      lastRead := k;
      ghost var slots := cache;
      Evict(k);
      StaysUncached(slots, cache, k, bucketAdr);
      ReadBucket(k, bucketAdr);
    }

    /** Makes the bucket of a directory slot current, from the cache or from the file. */
    method GetBucket(dirIndex: nat)
      requires Valid() && hole == -1 && touched == -1 && (avail.bucketChanged ==> secondChanged)
      requires dirIndex < |dir|
      modifies `cache, `lastRead, `cur, `bucketDir, `file, `touched
      ensures Valid() && HasCurrent(Snap()) && CurAdr(Snap()) == dir[dirIndex]
      ensures touched == -1 && bucketDir == dirIndex
      ensures old(Clean(Snap())) ==> Clean(Snap())
      ensures |cache| == if old(cache) == [] then 100 else |old(cache)|
    {
      hide Memory, Meaning, Space, Disk, Flags;
      bucketDir := dirIndex;
      var bucketAdr := dir[dirIndex];
      DirBucketIsLive(Snap(), dirIndex);
      if cache == [] {
        InitCache(DEFAULT_CACHESIZE);
      }
      if cache[cur].adr != bucketAdr {
        for index := 0 to |cache|
          invariant forall i :: 0 <= i < index ==> cache[i].adr != bucketAdr
        {
          if cache[index].adr == bucketAdr {
            HitKeeps(Snap(), index);
            cur := index;
            return;
          }
        }
        LoadBucket(bucketAdr);
      }
    }

    // ---------------------------------------------------------------- space

    /** Takes over the state the allocator left: the header's free space, the current bucket's table,
        and the stack block it may have written. */
    method Reload(av: Falloc.Avail)
      requires cur < |cache|
      modifies `avail, `file, `cache, `live, `touched
      ensures Snap() == Reloaded(old(Snap()), av)
    {
      hide StackWritten;
      var bucket := cache[cur].bucket.(av := av.bucket);
      file := StackWritten(file, av);
      avail := Unloaded(av);
      live := live[cache[cur].adr := bucket];
      cache := cache[cur := cache[cur].(bucket := bucket)];
      touched := cur;
    }

    /** The block at the top of the stack, as it is in the file. */
    method ReadTop() returns (block: Falloc.StackBlock)
      requires Valid() && avail.stack != []
      ensures block == avail.stack[0]
    {
      hide Shape, Memory, Meaning, Space, Flags;
      StackBlockIsInFile(file, avail, 0);
      block := ReadStackBlock(file, avail.stack[0].adr);
    }

    /** The tables an allocation of this size works on: the bucket's, the header's and, if it is to be
        popped, the one at the top of the stack. */
    method LoadTables(size: nat) returns (al: Falloc.Avail)
      requires Valid() && HasCurrent(Snap())
      ensures al == Loaded(avail, cache[cur].bucket)
    {
      hide Inv;
      al := Loaded(avail, cache[cur].bucket);
      if Falloc.WillPop(al, size) {
        var top := ReadTop();
        assert [top] + al.stack[1..] == al.stack;
        al := al.(stack := [top] + al.stack[1..]);
      }
    }

    /** _gdbm_alloc; the new block is pending.  A pop takes the entries the file has at the address of
        the top; it overruns the header's table exactly when that has no room for them. */
    method Alloc(size: nat) returns (adr: nat)
      requires Valid() && HasCurrent(Snap())
      modifies `avail, `file, `cache, `live, `touched, `pending
      ensures Valid() && HasCurrent(Snap())
      ensures old(avail).blockSize > 0 && old(avail).capacity > 0
      ensures Snap() == AllocDb(old(Snap()), size).0 && adr == AllocDb(old(Snap()), size).1
      ensures SameStore(old(Snap()), Snap()) && pending == old(pending) + [Extent(size, adr)] && touched == cur
      ensures avail.past.overrun <==> old(avail.past.overrun) || PopsWithoutRoom(old(Snap()), size)
      ensures FallocCapacity.Roomy(old(avail)) ==> avail.past.overrun == old(avail.past.overrun)
      ensures !avail.past.overrun ==> FallocCapacity.Fits(avail)
    {
      hide Inv, Falloc.Alloc, Reloaded, SameStore, PopsWithoutRoom, FallocCapacity.Roomy;
      AllocKeeps(Snap(), size);
      AllocStore(Snap(), size);
      var al := LoadTables(size);
      var (av, place) := Falloc.Alloc(al, size);
      Reload(av);
      pending := pending + [Extent(size, place)];
      adr := place;
      HeaderBounded(Snap());
    }

    /** _gdbm_free of the last pending block. */
    method Free(adr: nat, size: nat)
      requires Valid() && HasCurrent(Snap())
      requires pending != [] && pending[|pending| - 1] == Extent(size, adr)
      modifies `avail, `file, `cache, `live, `touched, `pending
      ensures Valid() && HasCurrent(Snap())
      ensures old(avail).blockSize > 0 && old(avail).capacity > 0
      ensures Snap() == FreeDb(old(Snap()))
      ensures SameStore(old(Snap()), Snap()) && touched == cur && pending == old(pending)[..|old(pending)| - 1]
      ensures avail.past.overrun == old(avail.past.overrun)
      ensures |old(avail).header| < old(avail).capacity ==>
        avail.stack == old(avail).stack && avail.capacity == old(avail).capacity
    {
      hide Inv, Falloc.Free, Reloaded, SameStore;
      FreeKeeps(Snap());
      FreeStore(Snap());
      Reload(Falloc.Free(Loaded(avail, cache[cur].bucket), Extent(size, adr)));
      pending := pending[..|pending| - 1];
    }

    // ---------------------------------------------------------------- looking up a key

    /** The record of the entry in slot `loc`, from the data cache if it is the one there. */
    method ReadEntry(loc: nat) returns (dptr: Bytes)
      requires Ready() && HasCurrent(Snap())
      requires loc < |cache[cur].bucket.table| && Used(cache[cur].bucket.table[loc])
      modifies `cache
      ensures Ready() && HasCurrent(Snap())
      ensures cache[cur].bucket == old(cache[cur].bucket) && cache[cur].adr == old(cache[cur].adr)
      ensures dptr == RecordBytes(recs, cache[cur].bucket.table[loc])
    {
      hide Inv;
      if cache[cur].data.elemLoc == loc {
        ReadsDataCache(Snap());
        return cache[cur].data.dptr.value;
      }
      ghost var s := Snap();
      ReadEntryKeeps(s, loc);
      var e := cache[cur].bucket.table[loc];
      dptr := ReadRecord(file, e);
      cache := cache[cur := cache[cur].(data := DataCache(e.hash, e.dataSize, e.keySize, Some(dptr), loc))];
      assert Snap() == ReadEntryDb(s, loc);
    }

    /** What a search reports: the slot that carries the key and the data, or -1. */
    ghost predicate Found(key: Bytes, loc: int, data: Bytes)
      reads this
    {
      && Ready() && AtKey(Snap(), key)
      && (loc == -1 <==> key !in content)
      && (loc != -1 ==> loc >= 0 && Carries(Snap(), key, loc) && data == content[key])
    }

    /** The staged comparison of one slot: hash, size and first bytes, then the record's key. */
    method TestSlot(key: Bytes, hash: nat, elem: nat) returns (found: bool, data: Bytes)
      requires Ready() && AtKey(Snap(), key) && hash == Hash(key)
      requires elem < |cache[cur].bucket.table| && Used(cache[cur].bucket.table[elem])
      modifies `cache
      ensures Ready() && AtKey(Snap(), key)
      ensures cache[cur].bucket == old(cache[cur].bucket)
      ensures found <==> Carries(Snap(), key, elem)
      ensures found ==> key in content && data == content[key]
    {
      hide Inv, Clean, BucketOf;
      StagedTestIsExact(Snap(), key, elem);
      found, data := false, [];
      if MayBe(cache[cur].bucket.table[elem], hash, key) {
        var dptr := ReadEntry(elem);
        if dptr[..|key|] == key {
          CarriedData(Snap(), key, elem);
          found, data := true, dptr[|key|..];
        }
      }
    }

    /** The part of _gdbm_findkey that walks the probe chain from the key's home slot. */
    method Search(key: Bytes, hash: nat) returns (loc: int, data: Bytes)
      requires Ready() && AtKey(Snap(), key) && hash == Hash(key)
      modifies `cache
      ensures Found(key, loc, data)
    {
      hide Inv, Clean, AtKey, Carries, Passed;
      CurrentEntries(Snap(), key);
      ghost var bucket := cache[cur].bucket;
      var n := |cache[cur].bucket.table|;
      var elem := hash % n;
      var home := elem;
      NothingPassed(Snap(), key, home);
      while Used(cache[cur].bucket.table[elem])
        invariant Ready() && AtKey(Snap(), key) && HasCurrent(Snap())
        invariant cache[cur].bucket == bucket
        invariant 0 <= elem < n && Passed(Snap(), key, home, elem)
        decreases n - Distance(home, elem, n)
      {
        ghost var s, last := Snap(), elem;
        var found, d := TestSlot(key, hash, elem);
        AtKeyCurrent(Snap(), key);
        if found {
          return elem, d;
        }
        SameSearch(s, Snap(), key, home, elem);
        elem := (elem + 1) % n;
        if elem == home {
          SearchComplete(Snap(), key, last);
          return -1, [];
        }
        PassedNext(Snap(), key, home, last);
      }
      NotCarried(Snap(), key, elem);
      SearchComplete(Snap(), key, elem);
      return -1, [];
    }

    /** _gdbm_findkey: afterwards the bucket of the key is current. */
    method FindKey(key: Bytes) returns (loc: int, data: Bytes, hash: nat)
      requires Ready()
      modifies `cache, `lastRead, `cur, `bucketDir, `file, `touched
      ensures Found(key, loc, data) && hash == Hash(key)
      ensures HashOk(hash) && bucketDir == Slot(hash, dirBits)
    {
      hide Inv, Carries;
      hash := ComputeHash(key);
      DirShape(Snap());
      SlotInRange(hash, dirBits);
      GetBucket(Shr(hash, HASH_BITS - dirBits));
      var d := cache[cur].data;
      if d.elemLoc != -1 && hash == d.hash && d.keySize == |key| && d.dptr.Some? {
        CleanCurrent(Snap());
        DataCacheIsExact(Snap(), key);
        if d.dptr.value[..|key|] == key {
          CarriedData(Snap(), key, d.elemLoc);
          return d.elemLoc, d.dptr.value[|key|..], hash;
        }
      }
      loc, data := Search(key, hash);
    }

    /** gdbm_fetch is lookup in the map. */
    method Fetch(key: Bytes) returns (r: Option<Bytes>)
      requires Ready()
      modifies `cache, `lastRead, `cur, `bucketDir, `file, `touched
      ensures Ready()
      ensures r == if key in content then Some(content[key]) else None
    {
      hide Inv, Clean, Carries, AtKey;
      var loc, findData, hash := FindKey(key);
      r := None;
      if loc >= 0 {
        AtKeyCurrent(Snap(), key);
        FetchedData(Snap(), key, loc);
        assert findData[..|findData|] == findData;
        r := Some(findData[..cache[cur].bucket.table[loc].dataSize]);
      }
    }

    // ---------------------------------------------------------------- the end of an update

    /** The current bucket goes to the file. */
    method WriteCurrent()
      requires Valid() && hole == -1 && HasCurrent(Snap())
      modifies `file, `cache, `touched, `avail
      ensures Valid() && touched == -1 && avail == old(avail).(bucketChanged := false)
      ensures |cache| == |old(cache)|
    {
      hide Inv;
      TouchedIsCurrent(Snap());
      WriteBucket(cur);
      NothingElseChanged(Snap());
      ClearBucketFlag(Snap());
      avail := avail.(bucketChanged := false);
    }

    /** The other changed buckets go to the file. */
    method WriteSecond()
      requires Valid() && hole == -1 && touched == -1 && !avail.bucketChanged
      modifies `file, `cache, `touched, `secondChanged
      ensures Valid() && touched == -1 && !secondChanged
      ensures forall i :: 0 <= i < |cache| ==> !cache[i].changed
    {
      hide Inv;
      if secondChanged {
        for index := 0 to |cache|
          invariant Valid() && touched == -1 && |cache| == |old(cache)|
          invariant forall i :: 0 <= i < index ==> !cache[i].changed
        {
          if cache[index].changed {
            ChangedSlot(Snap(), index);
            WriteBucket(index);
          }
        }
        ClearSecondFlag(Snap());
        secondChanged := false;
      }
      NoneChanged(Snap());
    }

    method WriteDir()
      requires Valid() && hole == -1
      modifies `file, `directoryChanged
      ensures Valid() && !directoryChanged
    {
      hide Inv;
      ghost var s := Snap();
      WriteDirKeeps(s);
      file := Written(file, Extent(AddressBytes(|dir|), dirAdr), DirPage(dir));
      directoryChanged := false;
      assert Snap() == WriteDirDb(s);
    }

    method WriteHeader()
      requires Valid() && hole == -1
      modifies `file, `avail
      ensures Valid() && avail == old(avail).(headerChanged := false)
    {
      hide Inv;
      ghost var s := Snap();
      WriteHeaderKeeps(s);
      file := Written(file, Extent(blockSize, 0),
                      HeaderPage(Header(blockSize, dirAdr, dirBits, bucketElems, avail.nextBlock, avail.capacity,
                                        avail.header, AddressOf(avail.stack, 0))));
      avail := avail.(headerChanged := false);
      assert Snap() == WriteHeaderDb(s);
    }

    /** _gdbm_end_update: everything changed in memory goes to the file. */
    method EndUpdate()
      requires Valid() && hole == -1 && pending == []
      requires avail.bucketChanged && HasCurrent(Snap())
      modifies `file, `cache, `touched, `avail, `secondChanged, `directoryChanged
      ensures Settled() && avail == old(avail).(headerChanged := false, bucketChanged := false)
    {
      hide Inv;
      WriteCurrent();
      WriteSecond();
      if directoryChanged {
        WriteDir();
      }
      if avail.headerChanged {
        WriteHeader();
      }
    }

    // ---------------------------------------------------------------- splitting a bucket

    /** The next cache slot in turn that is not the current one, evicted. */
    method TakeSlot() returns (k: nat)
      requires Valid() && hole == -1 && HasCurrent(Snap())
      modifies `lastRead, `cache, `file, `touched
      ensures Valid() && HasCurrent(Snap()) && Evicted(old(cache), cache, k)
      ensures k < |cache| && k != cur && lastRead == k && (0 <= old(lastRead) ==> k != old(lastRead))
      ensures cache[cur] == old(cache[cur])
    {
      hide Inv;
      SlotsInRange(Snap());
      k := NextSlot(lastRead, |cache|, cur);
      LastReadKeeps(Snap(), k);
      lastRead := k;
      Evict(k);
    }

    /** The header's fields for a directory twice the size (lib/gdbm/bucket.c:211-220). */
    method UpdateHeader(newAdr: nat)
      modifies `avail, `dirBits, `dirAdr
      ensures Snap() == old(Snap()).(dirBits := old(dirBits) + 1, dirAdr := newAdr,
                                     avail := old(avail).(headerChanged := true))
    {
      dirBits, dirAdr := dirBits + 1, newAdr;
      avail := avail.(headerChanged := true);
    }

    /** The object's fields for it (lib/gdbm/bucket.c:221-223). */
    method UpdateDirectory(newDir: seq<nat>, ghost oldDir: Extent)
      requires pending != []
      modifies `dir, `directoryChanged, `bucketDir, `pending
      ensures Snap() == old(Snap()).(dir := newDir, directoryChanged := true,
                                     pending := old(pending)[|old(pending)| - 1 := oldDir])
      ensures bucketDir == 2 * old(bucketDir)
    {
      dir := newDir;
      directoryChanged := true;
      bucketDir := 2 * bucketDir;
      pending := pending[|pending| - 1 := oldDir];
    }

    /** Doubles the directory; its old block is pending. */
    method GrowDirectory()
      requires Valid() && HasCurrent(Snap()) && hole == -1 && dirBits < HASH_BITS
      modifies `avail, `file, `cache, `live, `touched, `pending, `dir, `dirBits, `dirAdr, `directoryChanged, `bucketDir
      ensures Valid() && HasCurrent(Snap())
      ensures Grown(old(Snap()), Snap()) && bucketDir == 2 * old(bucketDir)
      ensures Remembers(old(Snap()), Snap()) && (!avail.past.overrun ==> FallocCapacity.Fits(avail))
    {
      hide Inv, AllocDb, SameStore, Grown, Doubled;
      ghost var before := Snap();
      var newSize := 2 * AddressBytes(|dir|);
      var newAdr := Alloc(newSize);
      AllocStore(before, newSize);
      ghost var s := Snap();
      GrowsDirectory(before, s, newSize);
      DoubleKeeps(s);
      var newDir := DoubleDirectory(dir);
      UpdateHeader(newAdr);
      UpdateDirectory(newDir, DirExtent(s));
      assert Snap() == DoubleDb(s, newDir);
      GrownRemembers(before, Snap());
      HeaderBounded(Snap());
    }

    /** The two new buckets take their cache slots; the old bucket's slot is given up. */
    method PlaceBuckets(p: Parts, b0: Bucket, b1: Bucket, currentIsOne: bool)
      requires cur < |cache| && p.s0 < |cache| && p.s1 < |cache|
      modifies `cache, `cur, `live, `touched
      ensures Snap() == old(Snap()).(cache := SplitCache(old(Snap()), p, b0, b1),
                                     cur := if currentIsOne then p.s1 else p.s0,
                                     live := (old(live) - {old(cache[cur].adr)})[p.a0 := b0][p.a1 := b1],
                                     touched := if currentIsOne then p.s1 else p.s0)
    {
      live := (live - {cache[cur].adr})[p.a0 := b0][p.a1 := b1];
      cache := cache[p.s0 := CacheElem(b0, p.a0, true, cache[p.s0].data)]
                    [p.s1 := CacheElem(b1, p.a1, true, cache[p.s1].data)]
                    [cur := cache[cur].(adr := 0, changed := false)];
      cur := if currentIsOne then p.s1 else p.s0;
      touched := cur;
    }

    method MarkSplit()
      modifies `avail, `secondChanged, `directoryChanged
      ensures Snap() == old(Snap()).(avail := old(avail).(bucketChanged := true),
                                     secondChanged := true, directoryChanged := true)
    {
      avail := avail.(bucketChanged := true);
      secondChanged := true;
      directoryChanged := true;
    }

    method SetDirectory(newDir: seq<nat>, ghost rest: seq<Extent>)
      modifies `dir, `pending
      ensures Snap() == old(Snap()).(dir := newDir, pending := rest)
    {
      dir := newDir;
      pending := rest;
    }

    /** The directory with the slots of the bucket being split redirected to its successors. */
    method RedirectSlots(a0: nat, a1: nat) returns (newDir: seq<nat>)
      requires Valid() && HasCurrent(Snap()) && hole == -1 && cache[cur].bucket.bits < dirBits
      requires bucketDir < |dir| && dir[bucketDir] == cache[cur].adr
      ensures SplitSlots(dir, newDir, dirBits, cache[cur].adr, cache[cur].bucket.bits + 1, a0, a1)
    {
      hide Inv, Redirected, SplitSlots, UpperStart, UpperEnd;
      DirBits(Snap(), bucketDir);
      DirShape(Snap());
      var newBits := cache[cur].bucket.bits + 1;
      var mid := UpperStart(bucketDir, dirBits, newBits);
      var hi := UpperEnd(bucketDir, dirBits, newBits);
      SplitRanges(bucketDir, dirBits, newBits, 0);
      UpperEndInRange(bucketDir, dirBits, newBits);
      RedirectsSlots(Snap(), bucketDir, a0, a1);
      newDir := Redirect(dir, mid - (hi - mid), mid, hi, a0, a1);
    }

    /** The directory's slots are redirected and the new buckets take the place of the current one;
        the one for the hash to be inserted becomes current. */
    method ReplaceBucket(p: Parts, nextInsert: nat, ghost rest: seq<Extent>)
      requires Valid() && Prepared(Snap(), p, rest)
      requires bucketDir < |dir| && dir[bucketDir] == cache[cur].adr
      requires dirBits <= HASH_BITS && |dir| == Shl(1, dirBits)
      requires HashOk(nextInsert) && HomeIs(dir, dirBits, nextInsert, cache[cur].adr)
      modifies `cache, `cur, `live, `touched, `dir, `avail, `secondChanged, `directoryChanged, `pending, `bucketDir
      ensures Valid() && HasCurrent(Snap())
      ensures Replaced(old(Snap()), Snap(), p, rest, nextInsert)
      ensures bucketDir == Slot(nextInsert, dirBits)
    {
      hide Inv, Prepared, SplitDb, Replaced, HomeIs, SplitCache, SplitSlots, NewBuckets;
      ghost var s, cur0 := Snap(), bucketDir;
      PreparedFacts(s, p, rest);
      DistinctAddresses(s, p, rest);
      var newDir := RedirectSlots(p.a0, p.a1);
      ReplacesBucket(s, p, rest, newDir, nextInsert);
      bucketDir := Shr(nextInsert, HASH_BITS - dirBits);
      var one := newDir[bucketDir] != p.a0;
      SplitKeeps(s, p, rest, cur0, newDir, one);
      var (b0, b1) := NewBuckets(cache[cur].bucket, cache[cur].adr, blockSize, p, one);
      PlaceBuckets(p, b0, b1, one);
      SetDirectory(newDir, rest);
      MarkSplit();
      SplitDbFields(s, p, rest, newDir, one);
      assert Snap() == SplitDb(s, p, rest, newDir, one);
    }

    /** The two slots the successors will use. */
    method TakeSlots() returns (s0: nat, s1: nat)
      requires Valid() && hole == -1 && HasCurrent(Snap())
      modifies `lastRead, `cache, `file, `touched
      ensures Valid() && cur < |cache|
      ensures Splitting(Snap(), old(cache[cur].adr), old(cache[cur].bucket.bits), old(cache[cur].bucket.table), s0, s1)
    {
      hide Inv;
      s0 := TakeSlot();
      s1 := TakeSlot();
    }

    /** The slots and blocks of the two successors. */
    method NewBlocks() returns (s0: nat, s1: nat, a0: nat, a1: nat)
      requires Valid() && hole == -1 && HasCurrent(Snap())
      modifies `lastRead, `cache, `file, `touched, `avail, `live, `pending
      ensures Valid()
      ensures Splitting(Snap(), old(cache[cur].adr), old(cache[cur].bucket.bits), old(cache[cur].bucket.table), s0, s1)
      ensures pending == old(pending) + [Extent(blockSize, a0)] + [Extent(blockSize, a1)]
      ensures Remembers(old(Snap()), Snap())
    {
      hide Inv, Splitting, SameStore, AllocDb, PopsWithoutRoom, Remembers, FallocCapacity.Roomy;
      ghost var s0' := Snap();
      ghost var adr, bits, table := cache[cur].adr, cache[cur].bucket.bits, cache[cur].bucket.table;
      s0, s1 := TakeSlots();
      ghost var s := Snap();
      SplittingFacts(s, adr, bits, table, s0, s1);
      a0 := Alloc(blockSize);
      StoreKeepsSplitting(s, Snap(), adr, bits, table, s0, s1);
      ghost var s2 := Snap();
      a1 := Alloc(blockSize);
      StoreKeepsSplitting(s2, Snap(), adr, bits, table, s0, s1);
      StoreRemembers(s0', s, s2);
      StoreRemembers(s0', s2, Snap());
    }

    /** The pending blocks in the order the replacement expects. */
    ghost method Reorder(p: Parts, rest: seq<Extent>, oldDir: seq<Extent>)
      requires Valid()
      requires pending == rest + [Extent(blockSize, p.a0)] + [Extent(blockSize, p.a1)] + oldDir
                          + [Extent(blockSize, p.spare)]
      modifies `pending
      ensures Valid()
      ensures Snap() == old(Snap()).(pending := rest + oldDir + [Extent(blockSize, p.a0), Extent(blockSize, p.a1),
                                                                 Extent(blockSize, p.spare)])
    {
      hide Inv;
      var e0, e1, e2 := Extent(blockSize, p.a0), Extent(blockSize, p.a1), Extent(blockSize, p.spare);
      var ordered := rest + oldDir + [e0, e1, e2];
      forall b: nat ensures Cover(ordered, b) == Cover(pending, b) {
        ReorderPending(rest, e0, e1, oldDir, e2, b);
      }
      PermuteKeeps(Snap(), ordered);
      pending := ordered;
    }

    /** Doubles the directory if the bucket uses all its bits; `oldDir` is then its old block, and
        empty otherwise. */
    method GrowIfNeeded(ghost adr: nat, ghost bits: nat, ghost table: seq<Element>, ghost s0: nat, ghost s1: nat,
                        ghost nextInsert: nat) returns (oldDir: seq<Extent>)
      requires Valid() && Splitting(Snap(), adr, bits, table, s0, s1) && SplitPlaced(Snap(), bucketDir, nextInsert)
      requires bits <= dirBits && bits < HASH_BITS
      modifies `avail, `file, `cache, `live, `touched, `pending, `dir, `dirBits, `dirAdr, `directoryChanged, `bucketDir
      ensures Valid() && Splitting(Snap(), adr, bits, table, s0, s1) && SplitPlaced(Snap(), bucketDir, nextInsert)
      ensures bits < dirBits <= HASH_BITS && |oldDir| <= 1 && pending == old(pending) + oldDir
      ensures Remembers(old(Snap()), Snap())
    {
      hide Inv, SplitPlaced, Splitting, Grown;
      ghost var s := Snap();
      SplittingFacts(s, adr, bits, table, s0, s1);
      DirShape(s);
      oldDir := [];
      if dirBits == cache[cur].bucket.bits {
        oldDir := [Extent(AddressBytes(|dir|), dirAdr)];
        GrowDirectory();
        GrownKeepsSplitting(s, Snap(), adr, bits, table, s0, s1, bucketDir / 2, nextInsert);
      }
    }

    /** The entries dealt out to two tables, and a block of free space for the second bucket. */
    method DealOut(ghost adr: nat, ghost bits: nat, ghost table: seq<Element>, ghost s0: nat, ghost s1: nat,
                   ghost nextInsert: nat) returns (t0: seq<Element>, t1: seq<Element>, spare: nat)
      requires Valid() && Splitting(Snap(), adr, bits, table, s0, s1) && SplitPlaced(Snap(), bucketDir, nextInsert)
      requires bits < HASH_BITS && |table| > 0
      requires forall i :: 0 <= i < |table| ==> Used(table[i]) && table[i].hash >= 0
      modifies `avail, `file, `cache, `live, `touched, `pending
      ensures Valid() && Splitting(Snap(), adr, bits, table, s0, s1) && SplitPlaced(Snap(), bucketDir, nextInsert)
      ensures Dealt(table, t0, t1, bits + 1) && pending == old(pending) + [Extent(blockSize, spare)]
      ensures Remembers(old(Snap()), Snap())
    {
      hide Inv, SplitPlaced, Splitting, SameStore, AllocDb, Dealt;
      ghost var s := Snap();
      SplittingFacts(s, adr, bits, table, s0, s1);
      t0, t1 := Deal(cache[cur].bucket.table, cache[cur].bucket.bits + 1);
      spare := Alloc(blockSize);
      StoreKeepsSplitting(s, Snap(), adr, bits, table, s0, s1);
      StorePlaced(s, Snap(), bucketDir, nextInsert);
    }

    /** Everything one iteration of the split needs. */
    method PrepareSplit(ghost nextInsert: nat) returns (p: Parts, oldDir: seq<Extent>)
      requires Valid() && SplitReady(Snap(), bucketDir, nextInsert)
      modifies `lastRead, `cache, `file, `touched, `avail, `live, `pending, `dir, `dirBits, `dirAdr, `directoryChanged, `bucketDir
      ensures Valid() && PreparedFrom(old(Snap()), Snap(), p, oldDir, bucketDir, nextInsert)
      ensures Remembers(old(Snap()), Snap()) && (!avail.past.overrun ==> FallocCapacity.Fits(avail))
    {
      hide Inv, SplitReady, SplitPlaced, Splitting, Dealt, PreparedFrom;
      ghost var s := Snap();
      SplitReadyFacts(s, bucketDir, nextInsert);
      PlacedFacts(s, bucketDir, nextInsert);
      ghost var adr, bits, table := CurAdr(s), CurBucket(s).bits, CurBucket(s).table;
      var s0, s1, a0, a1 := NewBlocks();
      SplittingPlaced(s, Snap(), adr, bits, table, s0, s1, bucketDir, nextInsert);
      oldDir := GrowIfNeeded(adr, bits, table, s0, s1, nextInsert);
      var t0, t1, spare := DealOut(adr, bits, table, s0, s1, nextInsert);
      p := Parts(s0, s1, a0, a1, spare, t0, t1);
      ReorderedPrepared(s, Snap(), p, adr, bits, table, oldDir, bucketDir, nextInsert);
      Reorder(p, s.pending, oldDir);
      HeaderBounded(Snap());
    }

    /** One iteration of the split loop. */
    method SplitOnce(nextInsert: nat, ghost s: Db, ghost oldDirs: seq<Extent>) returns (oldDir: seq<Extent>)
      requires Valid() && HasCurrent(s) && SplitSoFar(s, Snap(), oldDirs, bucketDir, nextInsert)
      requires SplitReady(Snap(), bucketDir, nextInsert)
      modifies `lastRead, `cache, `cur, `file, `touched, `avail, `live, `pending, `dir, `dirBits, `dirAdr,
               `directoryChanged, `secondChanged, `bucketDir
      ensures Valid() && SplitSoFar(s, Snap(), oldDirs + oldDir, bucketDir, nextInsert)
      ensures HasCurrent(old(Snap())) && HasCurrent(Snap())
      ensures cache[cur].bucket.bits == old(cache[cur].bucket.bits) + 1
      ensures !avail.past.overrun ==> FallocCapacity.Fits(avail)
    {
      hide Inv, SplitReady, SplitSoFar, SplitPlaced, PreparedFrom, Replaced, Prepared;
      ghost var s1, slot1 := Snap(), bucketDir;
      PlacedFacts(s1, slot1, nextInsert);
      var p;
      p, oldDir := PrepareSplit(nextInsert);
      ghost var s2, slot2 := Snap(), bucketDir;
      PreparedFromFacts(s1, s2, p, oldDir, slot2, nextInsert);
      ReplaceBucket(p, nextInsert, s1.pending + oldDir);
      SplitAdvances(s, s1, s2, Snap(), p, oldDirs, oldDir, slot1, slot2, bucketDir, nextInsert);
      HeaderBounded(Snap());
    }

    /** Gives back the blocks of the directories that were outgrown. */
    method FreeOldDirectories(oldDirs: seq<Extent>, ghost rest: seq<Extent>)
      requires Valid() && HasCurrent(Snap()) && pending == rest + oldDirs
      modifies `avail, `file, `cache, `live, `touched, `pending
      ensures Valid() && pending == rest && SameStore(old(Snap()), Snap())
      ensures NothingLost(Snap()) && Remembers(old(Snap()), Snap())
    {
      hide Inv, SameStore, FreeDb, NothingLost, Remembers;
      ghost var s := Snap();
      SameStoreReflexive(s, s.pending);
      for index := 0 to |oldDirs|
        invariant Valid() && HasCurrent(Snap()) && pending == rest + oldDirs[index..]
        invariant SameStore(s, Snap())
      {
        ghost var es := oldDirs[index..];
        forall b: nat ensures Cover(rest + es[1..] + [es[0]], b) == Cover(pending, b) {
          FirstLast(rest, es, b);
        }
        PermuteKeeps(Snap(), rest + es[1..] + [es[0]]);
        SameStoreReflexive(Snap(), rest + es[1..] + [es[0]]);
        SameStoreTransitive(s, Snap(), Snap().(pending := rest + es[1..] + [es[0]]));
        pending := rest + es[1..] + [es[0]];
        ghost var s1 := Snap();
        Free(oldDirs[index].adr, oldDirs[index].size);
        SameStoreTransitive(s, s1, Snap());
        assert pending == rest + oldDirs[index + 1..];
      }
      assert oldDirs[|oldDirs|..] == [];
      KeepsAccount(Snap());
      StoreRemembers(s, s, Snap());
    }

    /** _gdbm_split_bucket: splits until the bucket for the hash has room.  The map is unchanged; no
        more old directories accumulate than the array for them holds. */
    method SplitBucket(nextInsert: nat)
      requires Valid() && SplitPlaced(Snap(), bucketDir, nextInsert) && SlotIs(Snap(), bucketDir, nextInsert)
      requires cache[cur].bucket.count == bucketElems ==> Mixed(cache[cur].bucket.table, nextInsert)
      modifies `lastRead, `cache, `cur, `file, `touched, `avail, `live, `pending, `dir, `dirBits, `dirAdr,
               `directoryChanged, `secondChanged, `bucketDir
      ensures Valid() && SplitPlaced(Snap(), bucketDir, nextInsert) && SlotIs(Snap(), bucketDir, nextInsert)
      ensures cur < |cache| && cache[cur].bucket.count != bucketElems
      ensures content == old(content) && recs == old(recs) && pending == old(pending)
      ensures Remembers(old(Snap()), Snap()) && (!avail.past.overrun ==> FallocCapacity.Fits(avail))
      ensures NothingLost(Snap())
    {
      hide Inv, SplitReady, SplitSoFar, SplitPlaced, Mixed, SameStore, NothingLost;
      ghost var s := Snap();
      SplitBegins(s, bucketDir, nextInsert);
      var oldDirs := [];
      SplitGoesOn(s, Snap(), oldDirs, bucketDir, nextInsert);
      while cache[cur].bucket.count == bucketElems
        invariant Valid() && HasCurrent(Snap()) && SplitSoFar(s, Snap(), oldDirs, bucketDir, nextInsert)
        invariant cache[cur].bucket.count == bucketElems ==> SplitReady(Snap(), bucketDir, nextInsert)
        invariant cache[cur].bucket.bits <= HASH_BITS
        decreases HASH_BITS - cache[cur].bucket.bits
      {
        var oldDir := SplitOnce(nextInsert, s, oldDirs);
        oldDirs := oldDirs + oldDir;
        SplitGoesOn(s, Snap(), oldDirs, bucketDir, nextInsert);
      }
      ghost var s1 := Snap();
      SplitEnds(s, s1, oldDirs, bucketDir, nextInsert);
      assert |oldDirs| <= HASH_BITS;
      FreeOldDirectories(oldDirs, s.pending);
      StorePlaced(s1, Snap(), bucketDir, nextInsert);
      StoreCount(s1, Snap());
      HeaderBounded(Snap());
      KeepsAccount(Snap());
    }

    // ---------------------------------------------------------------- storing and deleting

    /** A new value of the current bucket, in its slot. */
    method SetBucket(bucket: Bucket)
      requires cur < |cache|
      modifies `cache, `live, `touched
      ensures Snap() == SetCurrent(old(Snap()), bucket)
    {
      live := live[cache[cur].adr := bucket];
      cache := cache[cur := cache[cur].(bucket := bucket)];
      touched := cur;
    }

    ghost method GiveUpRecord(e: Element)
      modifies `content, `pending
      ensures Snap() == old(Snap()).(content := old(content) - {KeyOf(recs, e)}, pending := old(pending) + [RecordExtent(e)])
    {
      content := content - {KeyOf(recs, e)};
      pending := pending + [RecordExtent(e)];
    }

    /** Takes the entry at `loc` out of the table and closes the gap (lib/gdbm/gdbmdelete.c:72-96). */
    method RemoveEntry(loc: nat)
      requires Valid() && Removable(Snap(), loc)
      modifies `cache, `live, `touched, `content, `pending
      ensures Valid() && HasCurrent(Snap()) && HasCurrent(old(Snap()))
      ensures loc < |old(cache[cur].bucket.table)| && hole == -1 && touched == cur
      ensures content == old(content) - {KeyOf(recs, old(cache[cur].bucket.table[loc]))}
      ensures pending == old(pending) + [RecordExtent(old(cache[cur].bucket.table[loc]))]
    {
      hide Inv, Removable, Lacks, Reachable;
      ghost var s := Snap();
      RemovableFacts(s, loc);
      var b := cache[cur].bucket;
      var t := RemoveAt(b.table, loc);
      RemovedLacks(b.table, t, loc);
      RemoveKeeps(s, loc, t);
      SetBucket(b.(count := if b.count > 0 then b.count - 1 else 0, table := t));
      GiveUpRecord(b.table[loc]);
      assert Snap() == RemoveDb(s, loc, t);
    }

    /** The current bucket has been changed; its data cache and flag are set accordingly. */
    method MarkCurrent(changed: bool, data: DataCache)
      requires Valid() && HasCurrent(Snap()) && touched == cur
      modifies `cache, `avail
      ensures Valid() && HasCurrent(Snap()) && avail == old(avail).(bucketChanged := true)
    {
      hide Inv;
      ghost var s := Snap();
      MarkKeeps(s, changed, data);
      cache := cache[cur := cache[cur].(changed := changed, data := data)];
      avail := avail.(bucketChanged := true);
      assert Snap() == MarkDb(s, changed, data);
    }

    /** gdbm_delete once the key has been found in slot `loc`. */
    method DeleteFound(loc: nat)
      requires Ready() && Removable(Snap(), loc)
      modifies `cache, `live, `touched, `content, `pending, `avail, `file, `secondChanged, `directoryChanged
      ensures Ready()
      ensures HasCurrent(old(Snap())) && loc < |old(cache[cur].bucket.table)|
      ensures content == old(content) - {KeyOf(recs, old(cache[cur].bucket.table[loc]))}
      ensures NothingLost(Snap()) && Remembers(old(Snap()), Snap())
    {
      hide Inv, Removable, FreeDb, SameStore, NothingLost;
      RemovableFacts(Snap(), loc);
      var elem := cache[cur].bucket.table[loc];
      RemoveEntry(loc);
      ghost var s := Snap();
      Free(elem.dataPointer, elem.keySize + elem.dataSize);
      StoreRemembers(s, s, Snap());
      MarkCurrent(cache[cur].changed, cache[cur].data.(hash := NO_HASH, keySize := 0, dptr := None, elemLoc := -1));
      EndUpdate();
      HeaderBounded(Snap());
      KeepsAccount(Snap());
    }

    /** gdbm_delete takes exactly the key out of the map. */
    method Delete(key: Bytes) returns (r: int)
      requires Ready()
      modifies `cache, `lastRead, `cur, `bucketDir, `file, `touched, `live, `content, `pending, `avail, `secondChanged,
               `directoryChanged
      ensures Ready()
      ensures content == if writer then old(content) - {key} else old(content)
      ensures r == if writer && key in old(content) then 0 else -1
      ensures NothingLost(Snap()) && Remembers(old(Snap()), Snap())
    {
      hide Inv, Clean, Carries, AtKey, Removable, NothingLost;
      KeepsAccount(Snap());
      if !writer {
        return -1;
      }
      var loc, findData, hash := FindKey(key);
      KeepsAccount(Snap());
      if loc == -1 {
        return -1;
      }
      FoundRemovable(Snap(), key, loc);
      DeleteFound(loc);
      return 0;
    }

    /** The record is written at the last pending block. */
    method WriteRecord(key: Bytes, data: Bytes, adr: nat)
      requires pending != [] && pending[|pending| - 1] == Extent(|key| + |data|, adr)
      modifies `file, `recs, `content
      ensures Snap() == old(Snap()).(file := Written(old(file), old(pending[|pending| - 1]), RecordPage(key + data)),
                                     recs := WithRecord(old(recs), adr, key + data),
                                     content := old(content)[key := data])
    {
      file := Written(file, Extent(|key| + |data|, adr), RecordPage(key + data));
      recs := WithRecord(recs, adr, key + data);
      content := content[key := data];
    }

    ghost method TakePending()
      requires pending != []
      modifies `pending, `hole
      ensures Snap() == old(Snap()).(pending := old(pending)[..|old(pending)| - 1], hole := -1)
    {
      pending := pending[..|pending| - 1];
      hole := -1;
    }

    /** The entry and its record are in place (lib/gdbm/gdbmstore.c:141-160). */
    method PutEntry(i: nat, key: Bytes, data: Bytes, adr: nat, hash: nat)
      requires Valid() && Placeable(Snap(), i, key, data) && pending[|pending| - 1].adr == adr && hash == Hash(key)
      modifies `cache, `live, `touched, `content, `recs, `file, `pending, `hole
      ensures Valid() && HasCurrent(Snap())
      ensures content == old(content)[key := data] && hole == -1 && touched == cur
      ensures |old(pending)| > 0 && pending == old(pending)[..|old(pending)| - 1]
    {
      hide Inv, Placeable, PutBucket, WithRecord, Written;
      ghost var s := Snap();
      PlaceableFacts(s, i, key, data);
      PutKeeps(s, i, key, data);
      var b := cache[cur].bucket;
      SetBucket(PutBucket(b, i, Element(hash, Prefix(key), adr, |key|, |data|)));
      WriteRecord(key, data, adr);
      TakePending();
      assert Snap() == PutDb(s, i, key, data);
    }

    /** The end of gdbm_store. */
    method FinishStore(i: nat, key: Bytes, data: Bytes, adr: nat, hash: nat)
      requires Valid() && Placeable(Snap(), i, key, data) && pending == [Extent(|key| + |data|, adr)] && hash == Hash(key)
      modifies `cache, `live, `touched, `content, `recs, `file, `pending, `hole, `avail, `secondChanged, `directoryChanged
      ensures Settled() && avail == old(avail).(headerChanged := false, bucketChanged := false)
      ensures content == old(content)[key := data]
    {
      hide Inv, Placeable;
      PutEntry(i, key, data, adr, hash);
      MarkCurrent(true, cache[cur].data);
      EndUpdate();
    }

    /** gdbm_store for a key that is not there.  If the bucket is full it is split first. */
    method StoreNew(key: Bytes, data: Bytes, hash: nat)
      requires Ready() && AtKey(Snap(), key) && key !in content
      requires hash == Hash(key) && bucketDir == Slot(hash, dirBits)
      requires cache[cur].bucket.count == bucketElems ==> Mixed(cache[cur].bucket.table, hash)
      modifies this
      ensures !avail.past.overrun ==> Ready() && content == old(content)[key := data]
      ensures avail.past.overrun ==> avail.past.starved
      ensures old(FallocCapacity.Roomy(avail)) && old(cache[cur].bucket.count) != bucketElems ==> !avail.past.overrun
      ensures NothingLost(Snap()) && Remembers(old(Snap()), Snap())
    {
      hide Inv, Clean, AtKey, SplitPlaced, SlotIs, Mixed, Placeable, FallocCapacity.Roomy, NothingLost;
      var adr := NewRecord(key, data, hash);
      if cache[cur].bucket.count == bucketElems {
        SplitBucket(hash);
      }
      PlaceNew(key, data, adr, hash);
      HeaderBounded(Snap());
      KeepsAccount(Snap());
    }

    /** A block for the new record. */
    method NewRecord(key: Bytes, data: Bytes, hash: nat) returns (adr: nat)
      requires Ready() && AtKey(Snap(), key) && hash == Hash(key) && bucketDir == Slot(hash, dirBits)
      modifies `avail, `file, `cache, `live, `touched, `pending
      ensures Valid() && SplitPlaced(Snap(), bucketDir, hash) && SlotIs(Snap(), bucketDir, hash)
      ensures pending == [Extent(|key| + |data|, adr)] && cur < |cache| && cur < |old(cache)|
      ensures cache[cur].bucket.count == old(cache[cur].bucket.count)
      ensures cache[cur].bucket.table == old(cache[cur].bucket.table)
      ensures old(FallocCapacity.Roomy(avail)) ==> !avail.past.overrun
      ensures Remembers(old(Snap()), Snap())
    {
      hide Inv, Clean, AtKey, SplitPlaced, SlotIs, SameStore, AllocDb, FallocCapacity.Roomy, PopsWithoutRoom;
      ReadyFacts(Snap());
      AtKeyPlaced(Snap(), key, bucketDir);
      ghost var s := Snap();
      adr := Alloc(|key| + |data|);
      StorePlaced(s, Snap(), bucketDir, hash);
      StoreCount(s, Snap());
      SlotStays(s, Snap(), bucketDir, hash);
      StoreRemembers(s, s, Snap());
    }

    /** The entry in the first free slot from its home. */
    method PlaceNew(key: Bytes, data: Bytes, adr: nat, hash: nat)
      requires Valid() && SplitPlaced(Snap(), bucketDir, hash) && SlotIs(Snap(), bucketDir, hash)
      requires hash == Hash(key) && key !in content && pending == [Extent(|key| + |data|, adr)]
      requires cur < |cache| && cache[cur].bucket.count != bucketElems
      modifies `cache, `live, `touched, `content, `recs, `file, `pending, `hole, `avail, `secondChanged, `directoryChanged
      ensures Settled() && avail == old(avail).(headerChanged := false, bucketChanged := false)
      ensures content == old(content)[key := data]
    {
      hide Inv, SplitPlaced, SlotIs, Placeable;
      HasRoom(Snap(), bucketDir, hash);
      var i := FindFree(cache[cur].bucket.table, hash);
      NewPlaceable(Snap(), bucketDir, i, key, data);
      FinishStore(i, key, data, adr, hash);
    }

    /** The record of the entry in slot `loc` is given up; its key leaves the map until the new record
        is in place. */
    ghost method BeginReplace(loc: nat)
      requires Valid() && Removable(Snap(), loc)
      modifies `hole, `touched, `content, `pending
      ensures Valid() && Snap() == old(HoleDb(Snap(), loc))
    {
      hide Inv, Removable;
      var s := Snap();
      RemovableFacts(s, loc);
      HoleKeeps(s, loc);
      HoleDbFields(s, loc);
      var e := cache[cur].bucket.table[loc];
      hole := loc;
      touched := cur;
      GiveUpRecord(e);
    }

    /** The address for the new record: the old one if the size is the same, else a fresh one
        (lib/gdbm/gdbmstore.c:96-125). */
    method PlaceForReplacement(freeAdr: nat, freeSize: nat, newSize: nat) returns (adr: nat)
      requires Valid() && HasCurrent(Snap()) && pending == [Extent(freeSize, freeAdr)]
      modifies `avail, `file, `cache, `live, `touched, `pending
      ensures Valid() && pending == [Extent(newSize, adr)]
      ensures SameStore(old(Snap()), Snap())
      ensures FallocCapacity.Roomy(old(avail)) && |old(avail).header| < old(avail).capacity ==>
        avail.past.overrun == old(avail.past.overrun)
      ensures freeSize == newSize && freeAdr != 0 ==> Snap() == old(Snap()) && adr == freeAdr
    {
      hide Inv, SameStore, AllocDb, FreeDb, PopsWithoutRoom;
      ghost var s := Snap();
      SameStoreReflexive(s, s.pending);
      adr := 0;
      if freeSize != newSize {
        Free(freeAdr, freeSize);
      } else {
        adr := freeAdr;
      }
      if adr == 0 {
        if freeSize == newSize {
          EmptyPending(Snap());
          PermuteKeeps(Snap(), []);
          SameStoreReflexive(Snap(), []);
          pending := [];
        }
        ghost var s1 := Snap();
        StoreCurrent(s, s1);
        adr := Alloc(newSize);
        SameStoreTransitive(s, s1, Snap());
      }
    }

    /** The old record is given up and a place for the new one found. */
    method ReplaceRecord(loc: nat, ghost key: Bytes, ghost data: Bytes, newSize: nat) returns (adr: nat)
      requires Ready() && AtKey(Snap(), key) && Carries(Snap(), key, loc) && newSize == |key| + |data|
      modifies `hole, `touched, `content, `pending, `avail, `file, `cache, `live
      ensures Valid() && Placeable(Snap(), loc, key, data) && pending == [Extent(newSize, adr)]
      ensures content == old(content) - {key} && Remembers(old(Snap()), Snap())
      ensures FallocCapacity.Roomy(old(avail)) && |old(avail).header| < old(avail).capacity ==>
        avail.past.overrun == old(avail.past.overrun)
    {
      hide Inv, Clean, AtKey, Carries, Removable, Placeable, SameStore, HoleDb, FallocCapacity.Roomy;
      ghost var s := Snap();
      ReadyFacts(s);
      FoundRemovable(s, key, loc);
      var e := cache[cur].bucket.table[loc];
      BeginReplace(loc);
      ghost var s1 := Snap();
      HoleFacts(s, key, loc);
      adr := PlaceForReplacement(e.dataPointer, e.keySize + e.dataSize, newSize);
      ReplacePlaceable(s, s1, Snap(), key, data, loc);
      StoreRemembers(s, s1, Snap());
    }

    /** gdbm_store for a key found in slot `loc`, replacing. */
    method StoreFound(loc: nat, key: Bytes, data: Bytes, hash: nat)
      requires Ready() && AtKey(Snap(), key) && Carries(Snap(), key, loc) && hash == Hash(key)
      modifies `cache, `live, `touched, `content, `recs, `file, `pending, `hole, `avail, `secondChanged, `directoryChanged
      ensures !avail.past.overrun ==> Ready() && content == old(content)[key := data]
      ensures avail.past.overrun ==> avail.past.starved
      ensures FallocCapacity.Roomy(old(avail)) && |old(avail).header| < old(avail).capacity ==> !avail.past.overrun
      ensures NothingLost(Snap()) && Remembers(old(Snap()), Snap())
    {
      hide Inv, Clean, AtKey, Carries, Placeable, FallocCapacity.Roomy, NothingLost;
      var adr := ReplaceRecord(loc, key, data, |key| + |data|);
      FinishStore(loc, key, data, adr, hash);
      HeaderBounded(Snap());
      KeepsAccount(Snap());
    }

    /** gdbm_store: the map gains the key, or nothing changes, unless a pop on the way had no room in
        the header's table; that takes a full half on the stack, and an ample state excludes it.  The
        condition on the key is what the split needs in order to end. */
    method Store(key: Bytes, data: Bytes, replace: bool) returns (r: int)
      requires Ready() && CanStore(Snap(), key)
      modifies this
      ensures !avail.past.overrun ==> Ready()
      ensures !avail.past.overrun ==> r == if !writer then -1 else if key in old(content) && !replace then 1 else 0
      ensures !avail.past.overrun ==> content == if r == 0 then old(content)[key := data] else old(content)
      ensures avail.past.overrun ==> avail.past.starved
      ensures old(Ample(Snap(), key)) ==> !avail.past.overrun
      ensures NothingLost(Snap()) && Remembers(old(Snap()), Snap())
    {
      hide Inv, Clean, AtKey, Carries, CanStore, Mixed, Ample, FallocCapacity.Roomy, NothingLost;
      KeepsAccount(Snap());
      if !writer {
        return -1;
      }
      ghost var s := Snap();
      var loc, temp, hash := FindKey(key);
      AmpleHere(s, Snap(), key);
      KeepsAccount(Snap());
      if loc != -1 {
        if !replace {
          return 1;
        }
        StoreFound(loc, key, data, hash);
      } else {
        CanStoreHere(s, Snap(), key);
        StoreNew(key, data, hash);
      }
      return 0;
    }
  }
}
