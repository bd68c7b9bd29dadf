/** One iteration of the loop that splits a full bucket, as steps on the state: doubling the
    directory, then replacing the current bucket by two (lib/gdbm/bucket.c:169-310). */
module SplitSteps {
  import opened Extents
  import opened Probing
  import opened Directory
  import opened Ownership
  import opened Pages
  import opened Content
  import opened Accounts
  import opened Database
  import opened SplitTermination
  import opened KeyHash
  import Falloc
  import FallocCapacity

  // ------------------------------------------------------------------ doubling the directory

  /** The doubled directory is in the last pending block; its old block is pending instead. */
  function DoubleDb(s: Db, newDir: seq<nat>): Db
    requires s.pending != []
  {
    var n := |s.pending| - 1;
    s.(dir := newDir, dirBits := s.dirBits + 1, dirAdr := s.pending[n].adr,
       avail := s.avail.(headerChanged := true), directoryChanged := true,
       pending := s.pending[n := DirExtent(s)])
  }

  lemma DoubleSpace(s: Db)
    requires Space(s) && s.pending != []
    requires s.pending[|s.pending| - 1].size == 2 * AddressBytes(|s.dir|)
    ensures Space(DoubleDb(s, Doubled(s.dir)))
  {
    var s' := DoubleDb(s, Doubled(s.dir));
    var n := |s.pending| - 1;
    assert DirExtent(s') == s.pending[n];
    assert Fixed(s') == Fixed(s)[1 := s.pending[n]][n + 2 := DirExtent(s)];
    forall b: nat ensures Cover(Fixed(s'), b) == Cover(Fixed(s), b) {
      CoverUpdate(Fixed(s), 1, s.pending[n], b);
      CoverUpdate(Fixed(s)[1 := s.pending[n]], n + 2, DirExtent(s), b);
    }
    SameOwners(s.avail, Fixed(s), s'.avail, Fixed(s'), ViewOf(s), s.lost);
  }

  /** Doubling the directory keeps the invariant and the map. */
  lemma DoubleKeeps(s: Db)
    requires Inv(s) && HasCurrent(s) && s.pending != [] && s.dirBits < HASH_BITS
    requires s.pending[|s.pending| - 1].size == 2 * AddressBytes(|s.dir|)
    ensures Inv(DoubleDb(s, Doubled(s.dir))) && HasCurrent(DoubleDb(s, Doubled(s.dir)))
  {
    hide SpaceOk, Accounted, Represents, RecordsOk, BucketsOk, CacheOk, DataOk;
    DoubleSpace(s);
    assert ViewOf(DoubleDb(s, Doubled(s.dir))) == ViewOf(s);
    DoublingRepresents(s.dir, s.dirBits, ViewOf(s), s.recs, s.content);
  }

  // ------------------------------------------------------------------ replacing the current bucket

  /** What one iteration has prepared: two clean cache slots, three fresh blocks (for the new
      buckets and for the free space of bucket 1), and the entries dealt out to two tables. */
  datatype Parts = Parts(s0: nat, s1: nat, a0: nat, a1: nat, spare: nat, t0: seq<Element>, t1: seq<Element>)

  ghost predicate Prepared(s: Db, p: Parts, rest: seq<Extent>) {
    && HasCurrent(s) && s.hole == -1
    && p.s0 < |s.cache| && p.s1 < |s.cache| && p.s0 != p.s1 && p.s0 != s.cur && p.s1 != s.cur
    && !s.cache[p.s0].changed && !s.cache[p.s1].changed
    && s.pending == rest + [Extent(s.blockSize, p.a0), Extent(s.blockSize, p.a1), Extent(s.blockSize, p.spare)]
    && CurBucket(s).bits < s.dirBits <= HASH_BITS
    && Dealt(CurBucket(s).table, p.t0, p.t1, CurBucket(s).bits + 1)
  }

  /** The successors of bucket `b` at address `adr`. */
  function NewBuckets(b: Bucket, adr: nat, blockSize: nat, p: Parts, currentIsOne: bool): (Bucket, Bucket) {
    var (av0, av1) := SplitFree(b.av, Extent(blockSize, p.spare), Extent(blockSize, adr), currentIsOne);
    (Bucket(av0, b.bits + 1, Count(p.t0), p.t0), Bucket(av1, b.bits + 1, Count(p.t1), p.t1))
  }

  function SplitCache(s: Db, p: Parts, b0: Bucket, b1: Bucket): seq<CacheElem>
    requires s.cur < |s.cache| && p.s0 < |s.cache| && p.s1 < |s.cache|
  {
    s.cache[p.s0 := CacheElem(b0, p.a0, true, s.cache[p.s0].data)]
           [p.s1 := CacheElem(b1, p.a1, true, s.cache[p.s1].data)]
           [s.cur := s.cache[s.cur].(adr := 0, changed := false)]
  }

  /** The state after the replacement; `rest` are the blocks still pending, `dir'` the redirected
      directory. */
  function SplitDb(s: Db, p: Parts, rest: seq<Extent>, dir': seq<nat>, currentIsOne: bool): Db
    requires s.cur < |s.cache| && p.s0 < |s.cache| && p.s1 < |s.cache|
  {
    var (b0, b1) := NewBuckets(CurBucket(s), CurAdr(s), s.blockSize, p, currentIsOne);
    var cur' := if currentIsOne then p.s1 else p.s0;
    s.(dir := dir',
       cache := SplitCache(s, p, b0, b1),
       cur := cur',
       avail := s.avail.(bucketChanged := true), secondChanged := true, directoryChanged := true,
       live := (s.live - {CurAdr(s)})[p.a0 := b0][p.a1 := b1],
       pending := rest, touched := cur')
  }

  lemma NewAddresses(s: Db, p: Parts, rest: seq<Extent>)
    requires Shape(s) && Space(s) && CurrentLive(s) && Prepared(s, p, rest)
    ensures p.a0 !in s.live && p.a1 !in s.live && p.a0 != p.a1 && p.a0 != 0 && p.a1 != 0
  {
    ViewFacts(s);
    var fixed, n := Fixed(s), |rest|;
    assert fixed[0] == HeaderExtent(s);
    assert fixed[n + 2] == Extent(s.blockSize, p.a0);
    assert fixed[n + 3] == Extent(s.blockSize, p.a1);
    FixedNotLive(s.avail, fixed, s.live, n + 2);
    FixedNotLive(s.avail, fixed, s.live, n + 3);
    FixedClear(s.avail, fixed, s.live, n + 2, n + 3);
    FixedClear(s.avail, fixed, s.live, 0, n + 2);
    FixedClear(s.avail, fixed, s.live, 0, n + 3);
  }

  lemma SplitIsSplit(s: Db, p: Parts, rest: seq<Extent>, dir': seq<nat>, one: bool)
    requires Shape(s) && Space(s) && CurrentLive(s) && Prepared(s, p, rest)
    ensures var s' := SplitDb(s, p, rest, dir', one);
      SplitBuckets(s.live, s'.live, CurAdr(s), p.a0, p.a1)
  {
    hide SpaceOk, Accounted, Dealt, SplitFree;
    NewAddresses(s, p, rest);
    var s' := SplitDb(s, p, rest, dir', one);
    assert s'.live.Keys == s.live.Keys - {CurAdr(s)} + {p.a0, p.a1};
  }

  lemma SplitSpaceDb(s: Db, p: Parts, rest: seq<Extent>, dir': seq<nat>, one: bool)
    requires Shape(s) && Space(s) && CurrentLive(s) && Prepared(s, p, rest)
    requires BucketsShaped(s.live, s.bucketElems) && |dir'| == |s.dir|
    ensures Space(SplitDb(s, p, rest, dir', one))
  {
    ViewFacts(s);
    NewAddresses(s, p, rest);
    SplitIsSplit(s, p, rest, dir', one);
    var s' := SplitDb(s, p, rest, dir', one);
    var fixed := Fixed(s');
    assert BucketOk(s.live[CurAdr(s)], s.bucketElems);
    assert Fixed(s) == fixed + [Extent(s.blockSize, p.a0), Extent(s.blockSize, p.a1), Extent(s.blockSize, p.spare)];
    SplitSpace(s.avail, fixed, s.live, s'.live, CurAdr(s), p.a0, p.a1, p.spare, one, s.lost);
    SameOwners(s.avail, fixed, s'.avail, fixed, s'.live, s.lost);
  }

  lemma SplitShaped(s: Db, p: Parts, rest: seq<Extent>, dir': seq<nat>, one: bool)
    requires Shape(s) && Space(s) && CurrentLive(s) && Prepared(s, p, rest)
    requires BucketsShaped(s.live, s.bucketElems)
    ensures BucketsShaped(SplitDb(s, p, rest, dir', one).live, s.bucketElems)
  {
    NewAddresses(s, p, rest);
    var s' := SplitDb(s, p, rest, dir', one);
    assert BucketOk(s.live[CurAdr(s)], s.bucketElems);
    SplitFreeExact(CurBucket(s).av, Extent(s.blockSize, p.spare), Extent(s.blockSize, CurAdr(s)), one);
    forall a | a in s'.live ensures BucketOk(s'.live[a], s.bucketElems) {
      if a != p.a0 && a != p.a1 {
        assert BucketOk(s.live[a], s.bucketElems);
      }
    }
  }

  lemma SplitCacheOk(s: Db, p: Parts, rest: seq<Extent>, dir': seq<nat>, one: bool)
    requires Shape(s) && Space(s) && CurrentLive(s) && Prepared(s, p, rest)
    requires CacheOk(s.cache, s.live)
    ensures var s' := SplitDb(s, p, rest, dir', one); CacheOk(s'.cache, s'.live)
  {
    NewAddresses(s, p, rest);
    var s' := SplitDb(s, p, rest, dir', one);
    forall i | 0 <= i < |s'.cache| && s'.cache[i].adr != 0
      ensures s'.cache[i].adr in s'.live && s'.live[s'.cache[i].adr] == s'.cache[i].bucket
    {
      if i != p.s0 && i != p.s1 {
        assert s'.cache[i] == s.cache[i] && s.cache[i].adr != CurAdr(s);
      }
    }
  }

  lemma SplitBucketsOk(s: Db, p: Parts, rest: seq<Extent>, dir': seq<nat>, one: bool)
    requires Shape(s) && Space(s) && CurrentLive(s) && Prepared(s, p, rest)
    requires BucketsOk(s.file, s.cache, s.touched, s.live, s.blockSize)
    ensures var s' := SplitDb(s, p, rest, dir', one);
      BucketsOk(s'.file, s'.cache, s'.touched, s'.live, s'.blockSize)
  {
    NewAddresses(s, p, rest);
    var s' := SplitDb(s, p, rest, dir', one);
    SlotInMemory(s'.cache, s'.touched, p.s0);
    SlotInMemory(s'.cache, s'.touched, p.s1);
    forall a | a in s'.live && !InMemory(s'.cache, s'.touched, a)
      ensures Holds(s'.file, Extent(s.blockSize, a), BucketPage(s'.live[a]))
    {
      if InMemory(s.cache, s.touched, a) {
        var i :| 0 <= i < |s.cache| && s.cache[i].adr == a && Dirty(s.cache, s.touched, i);
        assert i != p.s0 && i != p.s1 && i != s.cur;
        SlotInMemory(s'.cache, s'.touched, i);
        assert false;
      }
    }
  }

  lemma SplitDataOk(s: Db, p: Parts, rest: seq<Extent>, dir': seq<nat>, one: bool)
    requires Shape(s) && Prepared(s, p, rest) && DataOk(s.cache, s.touched, s.recs)
    ensures var s' := SplitDb(s, p, rest, dir', one); DataOk(s'.cache, s'.touched, s'.recs)
  {
    var s' := SplitDb(s, p, rest, dir', one);
    forall i | 0 <= i < |s'.cache| && s'.cache[i].adr != 0 && !Dirty(s'.cache, s'.touched, i)
      ensures s'.cache[i].data.elemLoc == -1 || DataMatches(s'.cache[i], s'.recs)
    {
      assert i != p.s0 && i != p.s1 && i != s.cur;
      assert !Dirty(s.cache, s.touched, i);
    }
  }

  lemma SplitRecords(s: Db, p: Parts, rest: seq<Extent>, dir': seq<nat>, one: bool)
    requires Shape(s) && Space(s) && CurrentLive(s) && Prepared(s, p, rest)
    requires RecordsOk(s.file, s.live, s.recs)
    ensures RecordsOk(s.file, SplitDb(s, p, rest, dir', one).live, s.recs)
  {
    SplitIsSplit(s, p, rest, dir', one);
    var live' := SplitDb(s, p, rest, dir', one).live;
    forall x, i | x in live' && 0 <= i < |live'[x].table| && Used(live'[x].table[i])
      ensures RecordOk(s.file, s.recs, live'[x].table[i])
    {
      var y, j := SplitEntry(s.live, live', CurAdr(s), p.a0, p.a1, x, i);
      assert RecordOk(s.file, s.recs, s.live[y].table[j]);
    }
  }

  lemma SplitShapeFlags(s: Db, p: Parts, rest: seq<Extent>, dir': seq<nat>, one: bool)
    requires Shape(s) && Flags(s) && Space(s) && CurrentLive(s) && Prepared(s, p, rest)
    ensures var s' := SplitDb(s, p, rest, dir', one); Shape(s') && Flags(s') && HasCurrent(s')
  {
    NewAddresses(s, p, rest);
  }

  lemma SplitMemory(s: Db, p: Parts, rest: seq<Extent>, dir': seq<nat>, one: bool)
    requires Shape(s) && Space(s) && CurrentLive(s) && Prepared(s, p, rest) && Memory(s)
    ensures Memory(SplitDb(s, p, rest, dir', one))
  {
    SplitShaped(s, p, rest, dir', one);
    SplitCacheOk(s, p, rest, dir', one);
    SplitBucketsOk(s, p, rest, dir', one);
    SplitDataOk(s, p, rest, dir', one);
  }

  lemma SplitViews(s: Db, p: Parts, rest: seq<Extent>, dir': seq<nat>, one: bool)
    requires Prepared(s, p, rest)
    ensures var s' := SplitDb(s, p, rest, dir', one); ViewOf(s) == s.live && ViewOf(s') == s'.live
  {
  }

  lemma SplitMeaning(s: Db, s': Db, cur: nat, a0: nat, a1: nat)
    requires Meaning(s) && ViewOf(s) == s.live && ViewOf(s') == s'.live
    requires cur < |s.dir| && s.live[s.dir[cur]].bits < s.dirBits
    requires SplitSlots(s.dir, s'.dir, s.dirBits, s.dir[cur], s.live[s.dir[cur]].bits + 1, a0, a1)
    requires SplitBuckets(s.live, s'.live, s.dir[cur], a0, a1)
    requires RecordsOk(s'.file, s'.live, s'.recs)
    requires s'.dirBits == s.dirBits && s'.recs == s.recs && s'.content == s.content
    ensures Meaning(s')
  {
    SplitRepresents(s.dir, s'.dir, s.dirBits, s.live, s'.live, cur, a0, a1, s.recs, s.content);
  }

  lemma SplitMeaningDb(s: Db, p: Parts, rest: seq<Extent>, cur: nat, dir': seq<nat>, one: bool)
    requires Shape(s) && Space(s) && CurrentLive(s) && Prepared(s, p, rest) && Meaning(s)
    requires cur < |s.dir| && s.dir[cur] == CurAdr(s)
    requires SplitSlots(s.dir, dir', s.dirBits, CurAdr(s), CurBucket(s).bits + 1, p.a0, p.a1)
    ensures Meaning(SplitDb(s, p, rest, dir', one))
  {
    hide SpaceOk, Accounted, Represents, RecordsOk, SplitSlots, SplitBuckets;
    SplitViews(s, p, rest, dir', one);
    SplitIsSplit(s, p, rest, dir', one);
    SplitRecords(s, p, rest, dir', one);
    SplitMeaning(s, SplitDb(s, p, rest, dir', one), cur, p.a0, p.a1);
  }

  /** One split keeps the invariant, and the map is unchanged. */
  lemma SplitKeeps(s: Db, p: Parts, rest: seq<Extent>, cur: nat, dir': seq<nat>, one: bool)
    requires Inv(s) && Prepared(s, p, rest)
    requires cur < |s.dir| && s.dir[cur] == CurAdr(s)
    requires SplitSlots(s.dir, dir', s.dirBits, CurAdr(s), CurBucket(s).bits + 1, p.a0, p.a1)
    ensures Inv(SplitDb(s, p, rest, dir', one)) && HasCurrent(SplitDb(s, p, rest, dir', one))
  {
    CurrentIsLive(s);
    SplitSpaceDb(s, p, rest, dir', one);
    SplitMemory(s, p, rest, dir', one);
    SplitMeaningDb(s, p, rest, cur, dir', one);
    SplitShapeFlags(s, p, rest, dir', one);
    SplitDisk(s, SplitDb(s, p, rest, dir', one));
  }

  lemma SplitDisk(s: Db, s': Db)
    requires Disk(s) && s'.directoryChanged && s'.file == s.file && s'.blockSize == s.blockSize
    requires s'.avail.headerChanged == s.avail.headerChanged && CurrentHeader(s') == CurrentHeader(s)
    requires s'.avail.stack == s.avail.stack && s'.avail.capacity == s.avail.capacity
    ensures Disk(s')
  {
    StackTail(s.file, s.avail, s'.avail);
  }

  // ------------------------------------------------------------------ preparing the replacement

  /** The bucket being split is current, and two other slots have been emptied for its successors. */
  ghost predicate Splitting(s: Db, adr: nat, bits: nat, t: seq<Element>, s0: nat, s1: nat) {
    && HasCurrent(s) && s.hole == -1
    && CurAdr(s) == adr && CurBucket(s).bits == bits && CurBucket(s).table == t
    && s0 < |s.cache| && s1 < |s.cache| && s0 != s1 && s0 != s.cur && s1 != s.cur
    && !s.cache[s0].changed && !s.cache[s1].changed
  }

  /** The parts of the state that allocating and freeing leave alone. */
  ghost predicate SameStore(s: Db, s': Db) {
    && s'.blockSize == s.blockSize && s'.bucketElems == s.bucketElems
    && s'.dir == s.dir && s'.dirBits == s.dirBits && s'.dirAdr == s.dirAdr
    && s'.recs == s.recs && s'.content == s.content && s'.hole == s.hole && s'.cur == s.cur
    && |s'.cache| == |s.cache| && s.cur < |s.cache|
    && Remembers(s, s')
    && s'.cache[s.cur].adr == s.cache[s.cur].adr
    && s'.cache[s.cur].bucket.table == s.cache[s.cur].bucket.table
    && s'.cache[s.cur].bucket.bits == s.cache[s.cur].bucket.bits
    && s'.cache[s.cur].bucket.count == s.cache[s.cur].bucket.count
    && forall i :: 0 <= i < |s.cache| && i != s.cur ==> s'.cache[i] == s.cache[i]
  }

  lemma AllocStore(s: Db, size: nat)
    requires s.cur < |s.cache| && s.avail.blockSize > 0 && s.avail.capacity > 0
    ensures var (s', adr) := AllocDb(s, size);
      && SameStore(s, s') && s'.pending == s.pending + [Extent(size, adr)] && s'.touched == s.cur
      && (s'.avail.past.overrun <==> s.avail.past.overrun || PopsWithoutRoom(s, size))
      && (FallocCapacity.Roomy(s.avail) ==> s'.avail.past.overrun == s.avail.past.overrun)
  {
    hide Falloc.Alloc;
    var al := Loaded(s.avail, CurBucket(s));
    FallocCapacity.AllocRoom(al, size);
    FallocCapacity.AllocGrows(al, size);
    if FallocCapacity.Roomy(al) && Falloc.WillPop(al, size) {
      FallocCapacity.RoomyPops(al, size);
    }
  }

  /** An allocation of this size pops the top of the stack into a table that has no room for it. */
  predicate PopsWithoutRoom(s: Db, size: nat)
    requires s.cur < |s.cache|
  {
    var al := Loaded(s.avail, CurBucket(s));
    Falloc.WillPop(al, size) && !Falloc.PopFits(al)
  }

  lemma FreeStore(s: Db)
    requires s.cur < |s.cache| && s.avail.blockSize > 0 && s.avail.capacity > 0 && s.pending != []
    ensures var s' := FreeDb(s);
      && SameStore(s, s') && s'.pending == s.pending[..|s.pending| - 1] && s'.touched == s.cur
      && s'.avail.past.overrun == s.avail.past.overrun
      && (|s.avail.header| < s.avail.capacity ==> s'.avail.stack == s.avail.stack && s'.avail.capacity == s.avail.capacity)
  {
    hide Falloc.Free;
    FallocCapacity.FreeRoom(Loaded(s.avail, CurBucket(s)), s.pending[|s.pending| - 1]);
    FallocCapacity.FreeGrows(Loaded(s.avail, CurBucket(s)), s.pending[|s.pending| - 1]);
  }

  lemma StoreRemembers(s: Db, s1: Db, s2: Db)
    requires Remembers(s, s1) && SameStore(s1, s2)
    ensures Remembers(s, s2)
  {
  }

  lemma StoreKeepsSplitting(s: Db, s': Db, adr: nat, bits: nat, t: seq<Element>, s0: nat, s1: nat)
    requires Splitting(s, adr, bits, t, s0, s1) && SameStore(s, s')
    ensures Splitting(s', adr, bits, t, s0, s1)
  {
  }

  /** The directory has doubled; its old block is the last one pending. */
  ghost predicate Grown(s: Db, s': Db) {
    && SameStore(s.(dir := s'.dir, dirBits := s'.dirBits, dirAdr := s'.dirAdr), s')
    && s'.dir == Doubled(s.dir) && s'.dirBits == s.dirBits + 1
    && s'.pending == s.pending + [DirExtent(s)]
  }

  lemma GrownRemembers(s: Db, s': Db)
    requires Grown(s, s')
    ensures Remembers(s, s')
  {
  }

  lemma GrowsDirectory(s: Db, s1: Db, size: nat)
    requires SameStore(s, s1) && s1.pending != []
    requires s1.pending == s.pending + [Extent(size, s1.pending[|s1.pending| - 1].adr)]
    requires size == 2 * AddressBytes(|s.dir|)
    ensures s1.dir == s.dir && s1.dirBits == s.dirBits && HasCurrent(s) ==> HasCurrent(s1)
    ensures s1.pending[|s1.pending| - 1].size == 2 * AddressBytes(|s1.dir|)
    ensures Grown(s, DoubleDb(s1, Doubled(s1.dir)))
  {
  }

  lemma PreparedFacts(s: Db, p: Parts, rest: seq<Extent>)
    requires Prepared(s, p, rest)
    ensures HasCurrent(s) && s.hole == -1 && p.s0 < |s.cache| && p.s1 < |s.cache|
    ensures CurBucket(s).bits < s.dirBits <= HASH_BITS
  {
  }

  lemma DirBits(s: Db, i: nat)
    requires Inv(s) && HasCurrent(s) && s.hole == -1 && i < |s.dir| && s.dir[i] == CurAdr(s)
    ensures DirOk(s.dir, s.dirBits, s.live)
    ensures s.live[s.dir[i]].bits == CurBucket(s).bits
  {
    CurrentIsLive(s);
    assert ViewOf(s) == s.live;
  }

  lemma RedirectsSlots(s: Db, cur: nat, a0: nat, a1: nat)
    requires DirOk(s.dir, s.dirBits, s.live) && cur < |s.dir| && s.live[s.dir[cur]].bits < s.dirBits
    ensures var nb := s.live[s.dir[cur]].bits + 1;
      var mid := UpperStart(cur, s.dirBits, nb); var hi := UpperEnd(cur, s.dirBits, nb);
      && 0 <= mid - (hi - mid)
      && SplitSlots(s.dir, Redirected(s.dir, mid - (hi - mid), mid, hi, a0, a1), s.dirBits, s.dir[cur], nb, a0, a1)
  {
    RedirectedIsSplit(s.dir, s.dirBits, s.live, cur, a0, a1);
    SplitRanges(cur, s.dirBits, s.live[s.dir[cur]].bits + 1, 0);
    var nb := s.live[s.dir[cur]].bits + 1;
    var mid, hi := UpperStart(cur, s.dirBits, nb), UpperEnd(cur, s.dirBits, nb);
    assert mid - (hi - mid) == 2 * mid - hi;
  }

  lemma SplitDbFields(s: Db, p: Parts, rest: seq<Extent>, dir': seq<nat>, one: bool)
    requires s.cur < |s.cache| && p.s0 < |s.cache| && p.s1 < |s.cache|
    ensures var (b0, b1) := NewBuckets(CurBucket(s), CurAdr(s), s.blockSize, p, one); var c := if one then p.s1 else p.s0;
      SplitDb(s, p, rest, dir', one)
      == s.(cache := SplitCache(s, p, b0, b1), cur := c,
            live := (s.live - {CurAdr(s)})[p.a0 := b0][p.a1 := b1], touched := c,
            dir := dir', pending := rest,
            avail := s.avail.(bucketChanged := true), secondChanged := true, directoryChanged := true)
  {
  }

  /** What a split leaves: the current bucket holds the side of the entries that `hash` belongs to,
      one more bit is used, and the map is the same. */
  ghost predicate Replaced(s: Db, s': Db, p: Parts, rest: seq<Extent>, hash: nat)
    requires s.cur < |s.cache| && s'.cur < |s'.cache|
  {
    && s'.pending == rest && s'.hole == -1 && s'.dirBits == s.dirBits && |s'.dir| == |s.dir|
    && s'.content == s.content && s'.recs == s.recs && s'.bucketElems == s.bucketElems && Remembers(s, s')
    && s'.touched == s'.cur && |s'.cache| == |s.cache|
    && CurBucket(s').bits == CurBucket(s).bits + 1
    && CurBucket(s).bits < HASH_BITS
    && CurBucket(s').table == (if Select(hash, CurBucket(s).bits + 1) == 0 then p.t0 else p.t1)
    && CurBucket(s').count == Count(CurBucket(s').table)
    && (forall b: nat :: Cover(CurBucket(s').av, b) <= Cover(CurBucket(s).av, b) + In(Extent(s.blockSize, p.spare), b))
    && s'.dirBits <= HASH_BITS && |s'.dir| == Shl(1, s'.dirBits)
    && HomeIs(s'.dir, s'.dirBits, hash, CurAdr(s'))
  }

  lemma DistinctAddresses(s: Db, p: Parts, rest: seq<Extent>)
    requires Inv(s) && Prepared(s, p, rest)
    ensures p.a0 != p.a1 && Big(CurBucket(s).av) && s.blockSize > IGNORE_SIZE
  {
    CurrentIsLive(s);
    assert BucketOk(s.live[CurAdr(s)], s.bucketElems);
    NewAddresses(s, p, rest);
  }

  /** The slot of `hash` holds the address of the side its next bit selects. */
  lemma SideOfHash(dir: seq<nat>, dir': seq<nat>, d: nat, a: nat, newBits: nat, a0: nat, a1: nat, hash: nat)
    requires newBits <= d <= HASH_BITS && |dir| == Shl(1, d) && a0 != a1
    requires HomeIs(dir, d, hash, a) && SplitSlots(dir, dir', d, a, newBits, a0, a1)
    ensures Slot(hash, d) < |dir'|
    ensures dir'[Slot(hash, d)] != a0 <==> Select(hash, newBits) != 0
  {
    SlotInRange(hash, d);
    ShrAdd(hash, HASH_BITS - d, d - newBits);
  }

  /** The free space of the bucket that becomes current: none of the old bucket's block. */
  lemma CurrentFree(s: Db, p: Parts, rest: seq<Extent>, dir': seq<nat>, one: bool)
    requires Prepared(s, p, rest) && Big(CurBucket(s).av) && s.blockSize > IGNORE_SIZE
    ensures var s' := SplitDb(s, p, rest, dir', one);
      forall b: nat :: Cover(CurBucket(s').av, b) <= Cover(CurBucket(s).av, b) + In(Extent(s.blockSize, p.spare), b)
  {
    forall b: nat {
      SplitFreeCover(CurBucket(s).av, Extent(s.blockSize, p.spare), Extent(s.blockSize, CurAdr(s)), one, b);
    }
  }

  lemma ReplacesBucket(s: Db, p: Parts, rest: seq<Extent>, dir': seq<nat>, hash: nat)
    requires Prepared(s, p, rest) && |s.dir| == Shl(1, s.dirBits) && p.a0 != p.a1
    requires Big(CurBucket(s).av) && s.blockSize > IGNORE_SIZE
    requires HomeIs(s.dir, s.dirBits, hash, CurAdr(s))
    requires SplitSlots(s.dir, dir', s.dirBits, CurAdr(s), CurBucket(s).bits + 1, p.a0, p.a1)
    ensures Slot(hash, s.dirBits) < |dir'|
    ensures var one := dir'[Slot(hash, s.dirBits)] != p.a0;
      Replaced(s, SplitDb(s, p, rest, dir', one), p, rest, hash)
  {
    hide Select, Dealt, SplitFree;
    SlotInRange(hash, s.dirBits);
    SideOfHash(s.dir, dir', s.dirBits, CurAdr(s), CurBucket(s).bits + 1, p.a0, p.a1, hash);
    CurrentFree(s, p, rest, dir', dir'[Slot(hash, s.dirBits)] != p.a0);
  }

  /** The current bucket is the one slot `slot` and the hash to be inserted lead to. */
  ghost predicate SplitPlaced(s: Db, slot: nat, hash: nat) {
    && HasCurrent(s) && s.hole == -1
    && s.dirBits <= HASH_BITS && |s.dir| == Shl(1, s.dirBits)
    && slot < |s.dir| && s.dir[slot] == CurAdr(s)
    && HashOk(hash) && HomeIs(s.dir, s.dirBits, hash, CurAdr(s))
  }

  /** It is full, and some entry differs in hash. */
  ghost predicate SplitReady(s: Db, slot: nat, hash: nat) {
    && SplitPlaced(s, slot, hash)
    && CurBucket(s).count == s.bucketElems && Mixed(CurBucket(s).table, hash)
  }

  lemma SplitReadyFacts(s: Db, slot: nat, hash: nat)
    requires Inv(s) && SplitReady(s, slot, hash)
    ensures |CurBucket(s).table| > 0 && CurBucket(s).bits < HASH_BITS && CurBucket(s).bits <= s.dirBits
    ensures Count(CurBucket(s).table) == |CurBucket(s).table| == s.bucketElems
    ensures forall i :: 0 <= i < |CurBucket(s).table| ==> Used(CurBucket(s).table[i]) && CurBucket(s).table[i].hash >= 0
  {
    CurrentIsLive(s);
    ViewFacts(s);
    assert BucketOk(s.live[CurAdr(s)], s.bucketElems);
    CountBound(CurBucket(s).table);
    MixedHasBits(s.dir, s.dirBits, s.live, CurAdr(s), hash);
    forall i | 0 <= i < |CurBucket(s).table| ensures CurBucket(s).table[i].hash >= 0 {
      assert EntryOk(s.live[CurAdr(s)].table[i], s.recs, s.content);
    }
  }

  lemma SplittingFacts(s: Db, adr: nat, bits: nat, t: seq<Element>, s0: nat, s1: nat)
    requires Splitting(s, adr, bits, t, s0, s1)
    ensures HasCurrent(s) && s.hole == -1 && CurAdr(s) == adr && CurBucket(s).bits == bits && CurBucket(s).table == t
  {
  }

  lemma PlacedFacts(s: Db, slot: nat, hash: nat)
    requires SplitReady(s, slot, hash)
    ensures SplitPlaced(s, slot, hash) && HasCurrent(s) && s.hole == -1 && s.dirBits <= HASH_BITS
  {
  }

  lemma SplittingPlaced(s: Db, s': Db, adr: nat, bits: nat, t: seq<Element>, s0: nat, s1: nat, slot: nat, hash: nat)
    requires SplitPlaced(s, slot, hash) && CurAdr(s) == adr && Splitting(s', adr, bits, t, s0, s1)
    requires s'.dir == s.dir && s'.dirBits == s.dirBits
    ensures SplitPlaced(s', slot, hash)
  {
  }

  lemma StorePlaced(s: Db, s': Db, slot: nat, hash: nat)
    requires SplitPlaced(s, slot, hash) && SameStore(s, s')
    ensures SplitPlaced(s', slot, hash) && s'.content == s.content && s'.recs == s.recs && Remembers(s, s')
  {
  }

  lemma GrownKeepsSplitting(s: Db, s': Db, adr: nat, bits: nat, t: seq<Element>, s0: nat, s1: nat, slot: nat, hash: nat)
    requires Splitting(s, adr, bits, t, s0, s1) && Grown(s, s') && s.dirBits < HASH_BITS
    requires SplitPlaced(s, slot, hash)
    ensures Splitting(s', adr, bits, t, s0, s1) && SplitPlaced(s', 2 * slot, hash)
    ensures s'.pending == s.pending + [DirExtent(s)] && s'.dirBits == s.dirBits + 1
    ensures s'.content == s.content && s'.recs == s.recs && Remembers(s, s')
  {
    DoublingKeepsHome(s.dir, s.dirBits, hash, adr);
  }

  lemma ReorderPending(rest: seq<Extent>, e0: Extent, e1: Extent, oldDir: seq<Extent>, e2: Extent, b: nat)
    ensures Cover(rest + oldDir + [e0, e1, e2], b) == Cover(rest + [e0] + [e1] + oldDir + [e2], b)
  {
    CoverAppend(rest + [e0] + [e1] + oldDir, e2, b);
    CoverConcat(rest + [e0] + [e1], oldDir, b);
    CoverAppend(rest + [e0], e1, b);
    CoverAppend(rest, e0, b);
    assert rest + oldDir + [e0, e1, e2] == rest + oldDir + [e0] + [e1] + [e2];
    CoverAppend(rest + oldDir + [e0] + [e1], e2, b);
    CoverAppend(rest + oldDir + [e0], e1, b);
    CoverAppend(rest + oldDir, e0, b);
    CoverConcat(rest, oldDir, b);
  }

  /** From a state ready to split to one in which everything for the replacement is prepared. */
  ghost predicate PreparedFrom(s: Db, s': Db, p: Parts, oldDir: seq<Extent>, slot: nat, hash: nat)
    requires HasCurrent(s)
  {
    && SplitPlaced(s', slot, hash)
    && |oldDir| <= 1 && Prepared(s', p, s.pending + oldDir)
    && s'.content == s.content && s'.recs == s.recs && s'.bucketElems == s.bucketElems && Remembers(s, s')
    && CurBucket(s').bits == CurBucket(s).bits && CurBucket(s').table == CurBucket(s).table
  }

  lemma ReorderedPrepared(s: Db, s1: Db, p: Parts, adr: nat, bits: nat, t: seq<Element>, oldDir: seq<Extent>,
                          slot: nat, hash: nat)
    requires HasCurrent(s) && CurAdr(s) == adr && CurBucket(s).bits == bits && CurBucket(s).table == t
    requires Splitting(s1, adr, bits, t, p.s0, p.s1) && bits < s1.dirBits && SplitPlaced(s1, slot, hash)
    requires Dealt(t, p.t0, p.t1, bits + 1)
    requires s1.content == s.content && s1.recs == s.recs && s1.bucketElems == s.bucketElems && Remembers(s, s1)
    requires |oldDir| <= 1
    ensures var e0, e1, e2 := Extent(s1.blockSize, p.a0), Extent(s1.blockSize, p.a1), Extent(s1.blockSize, p.spare);
      PreparedFrom(s, s1.(pending := s.pending + oldDir + [e0, e1, e2]), p, oldDir, slot, hash)
  {
  }

  // ------------------------------------------------------------------ the loop

  /** After some iterations that began in state `s`: the map is as it was, the old directories are
      pending, at most one for every bit used, and a bucket still full still has a mixture of hashes. */
  ghost predicate SplitSoFar(s: Db, s': Db, oldDirs: seq<Extent>, slot: nat, hash: nat)
    requires HasCurrent(s)
  {
    && SplitPlaced(s', slot, hash)
    && s'.content == s.content && s'.recs == s.recs && s'.bucketElems == s.bucketElems && Remembers(s, s')
    && s'.pending == s.pending + oldDirs
    && CurBucket(s').bits <= HASH_BITS
    && |oldDirs| + CurBucket(s).bits <= CurBucket(s').bits
    && (CurBucket(s').count == s'.bucketElems ==> Mixed(CurBucket(s').table, hash))
    && SlotIs(s', slot, hash)
  }

  ghost predicate SlotIs(s: Db, slot: nat, hash: nat) {
    s.dirBits <= HASH_BITS && slot == Slot(hash, s.dirBits)
  }

  lemma SplitBegins(s: Db, slot: nat, hash: nat)
    requires Inv(s) && SplitPlaced(s, slot, hash) && SlotIs(s, slot, hash)
    requires CurBucket(s).count == s.bucketElems ==> Mixed(CurBucket(s).table, hash)
    ensures HasCurrent(s) && SplitSoFar(s, s, [], slot, hash)
  {
    CurrentIsLive(s);
    ViewFacts(s);
    assert SplitPlaced(s, slot, hash);
    assert s.live[CurAdr(s)].bits <= s.dirBits;
  }

  lemma SplitGoesOn(s: Db, s1: Db, oldDirs: seq<Extent>, slot1: nat, hash: nat)
    requires HasCurrent(s) && SplitSoFar(s, s1, oldDirs, slot1, hash)
    ensures SplitPlaced(s1, slot1, hash) && HasCurrent(s1)
    ensures CurBucket(s1).count == s1.bucketElems ==> SplitReady(s1, slot1, hash)
    ensures CurBucket(s1).bits <= HASH_BITS
  {
  }

  /** One more iteration. */
  lemma SplitAdvances(s: Db, s1: Db, s2: Db, s3: Db, p: Parts, oldDirs: seq<Extent>, oldDir: seq<Extent>,
                      slot1: nat, slot2: nat, slot3: nat, hash: nat)
    requires Inv(s1) && HasCurrent(s) && SplitSoFar(s, s1, oldDirs, slot1, hash) && SplitReady(s1, slot1, hash)
    requires PreparedFrom(s1, s2, p, oldDir, slot2, hash)
    requires HasCurrent(s2) && HasCurrent(s3) && Replaced(s2, s3, p, s1.pending + oldDir, hash)
    requires SlotIs(s3, slot3, hash)
    ensures SplitSoFar(s, s3, oldDirs + oldDir, slot3, hash)
    ensures CurBucket(s3).bits == CurBucket(s1).bits + 1
  {
    hide Inv;
    SplitReadyFacts(s1, slot1, hash);
    StillMixed(CurBucket(s1).table, p.t0, p.t1, CurBucket(s1).bits + 1, hash);
    SlotInRange(hash, s3.dirBits);
    assert s3.pending == s.pending + (oldDirs + oldDir);
  }

  lemma SameStoreTransitive(s: Db, s1: Db, s2: Db)
    requires SameStore(s, s1) && SameStore(s1, s2)
    ensures SameStore(s, s2)
  {
  }

  lemma SameStoreReflexive(s: Db, pending: seq<Extent>)
    requires HasCurrent(s)
    ensures SameStore(s, s.(pending := pending))
  {
  }

  lemma FirstLast(rest: seq<Extent>, es: seq<Extent>, b: nat)
    requires es != []
    ensures Cover(rest + es[1..] + [es[0]], b) == Cover(rest + es, b)
  {
    CoverAppend(rest + es[1..], es[0], b);
    CoverConcat(rest, es[1..], b);
    CoverConcat(rest, es, b);
  }

  lemma PreparedFromFacts(s: Db, s': Db, p: Parts, oldDir: seq<Extent>, slot: nat, hash: nat)
    requires HasCurrent(s) && PreparedFrom(s, s', p, oldDir, slot, hash)
    ensures HasCurrent(s') && Prepared(s', p, s.pending + oldDir)
    ensures CurBucket(s').bits == CurBucket(s).bits && CurBucket(s').table == CurBucket(s).table
    ensures s'.dirBits <= HASH_BITS && |s'.dir| == Shl(1, s'.dirBits)
    ensures slot < |s'.dir| && s'.dir[slot] == CurAdr(s')
    ensures HashOk(hash) && HomeIs(s'.dir, s'.dirBits, hash, CurAdr(s'))
  {
  }

  lemma SplitEnds(s: Db, s': Db, oldDirs: seq<Extent>, slot: nat, hash: nat)
    requires HasCurrent(s) && SplitSoFar(s, s', oldDirs, slot, hash)
    ensures SplitPlaced(s', slot, hash) && SlotIs(s', slot, hash) && HasCurrent(s')
    ensures s'.content == s.content && s'.recs == s.recs && s'.pending == s.pending + oldDirs && Remembers(s, s')
    ensures |oldDirs| <= HASH_BITS
  {
  }

  lemma StoreCount(s: Db, s': Db)
    requires SameStore(s, s')
    ensures s'.cur < |s'.cache| && CurBucket(s').count == CurBucket(s).count && CurBucket(s').table == CurBucket(s).table
    ensures s'.dirBits == s.dirBits && s'.content == s.content && s'.recs == s.recs
  {
  }
}
