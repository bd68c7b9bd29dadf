/** Taking an entry out of the current bucket and putting one in, as steps on the state
    (lib/gdbm/gdbmdelete.c:72-114, lib/gdbm/gdbmstore.c:93-164). */
module EntrySteps {
  import opened Extents
  import opened Probing
  import opened Directory
  import opened KeyHash
  import opened Ownership
  import opened Pages
  import opened Content
  import opened Accounts
  import opened Database

  // ------------------------------------------------------------------ changing the current bucket

  /** The current bucket replaced, in its slot and as the latest contents of its address. */
  function SetCurrent(s: Db, bucket: Bucket): Db
    requires s.cur < |s.cache|
  {
    s.(cache := s.cache[s.cur := s.cache[s.cur].(bucket := bucket)],
       live := s.live[CurAdr(s) := bucket],
       touched := s.cur)
  }

  lemma SetCurrentMemory(s: Db, bucket: Bucket)
    requires Memory(s) && CurrentLive(s) && BucketOk(bucket, s.bucketElems)
    requires s.touched == -1 || s.touched == s.cur
    ensures Memory(SetCurrent(s, bucket))
  {
    SetCurrentCache(s, bucket);
    SetCurrentBuckets(s, bucket);
  }

  lemma SetCurrentCache(s: Db, bucket: Bucket)
    requires BucketsShaped(s.live, s.bucketElems) && CacheOk(s.cache, s.live) && DataOk(s.cache, s.touched, s.recs)
    requires CurrentLive(s) && BucketOk(bucket, s.bucketElems)
    requires s.touched == -1 || s.touched == s.cur
    ensures var s' := SetCurrent(s, bucket);
      BucketsShaped(s'.live, s'.bucketElems) && CacheOk(s'.cache, s'.live) && DataOk(s'.cache, s'.touched, s'.recs)
  {
  }

  /** The changed bucket is in memory; every other one is where it was. */
  lemma SetCurrentBuckets(s: Db, bucket: Bucket)
    requires BucketsOk(s.file, s.cache, s.touched, s.live, s.blockSize) && CurrentLive(s)
    requires s.touched == -1 || s.touched == s.cur
    ensures var s' := SetCurrent(s, bucket); BucketsOk(s'.file, s'.cache, s'.touched, s'.live, s'.blockSize)
  {
    var s' := SetCurrent(s, bucket);
    SlotInMemory(s'.cache, s'.touched, s.cur);
    forall a | a in s'.live && !InMemory(s'.cache, s'.touched, a)
      ensures Holds(s'.file, Extent(s.blockSize, a), BucketPage(s'.live[a]))
    {
      if InMemory(s.cache, s.touched, a) {
        var i :| 0 <= i < |s.cache| && s.cache[i].adr == a && Dirty(s.cache, s.touched, i);
        SlotInMemory(s'.cache, s'.touched, i);
        assert false;
      }
    }
  }

  // ------------------------------------------------------------------ removing

  /** The entry at `loc` is gone and `t` is the repaired table; the record is pending. */
  function RemoveDb(s: Db, loc: nat, t: seq<Element>): Db
    requires s.cur < |s.cache| && loc < |CurBucket(s).table|
  {
    var b := CurBucket(s);
    var e := b.table[loc];
    SetCurrent(s, b.(count := if b.count > 0 then b.count - 1 else 0, table := t))
      .(content := s.content - {KeyOf(s.recs, e)}, pending := s.pending + [RecordExtent(e)])
  }

  /** The entry at `loc` is about to be replaced: the map is without its key, the record pending. */
  function HoleDb(s: Db, loc: nat): Db
    requires s.cur < |s.cache| && loc < |CurBucket(s).table|
  {
    var e := CurBucket(s).table[loc];
    SetCurrent(s, CurBucket(s))
      .(hole := loc, content := s.content - {KeyOf(s.recs, e)}, pending := s.pending + [RecordExtent(e)])
  }

  /** The key of the entry at `loc` belongs to the current bucket. */
  ghost predicate Removable(s: Db, loc: nat) {
    && HasCurrent(s) && s.hole == -1
    && loc < |CurBucket(s).table| && Used(CurBucket(s).table[loc])
    && KeyOf(s.recs, CurBucket(s).table[loc]) in s.content
    && s.dirBits <= HASH_BITS && |s.dir| == Shl(1, s.dirBits)
    && BucketOf(s.dir, s.dirBits, KeyOf(s.recs, CurBucket(s).table[loc])) == CurAdr(s)
  }

  lemma RecordsWithout(file: File, live: Live, live': Live, recs: Records, a: nat, t: seq<Element>, e: Element)
    requires RecordsOk(file, live, recs)
    requires a in live && WithTable(live, live', a, t) && Lacks(live[a].table, t, e)
    ensures RecordsOk(file, live', recs)
  {
    forall x, i | x in live' && 0 <= i < |live'[x].table| && Used(live'[x].table[i])
      ensures RecordOk(file, recs, live'[x].table[i])
    {
      if x == a {
        var j := LacksEntry(live[a].table, t, e, i);
        assert RecordOk(file, recs, live[a].table[j]);
      } else {
        assert RecordOk(file, recs, live[x].table[i]);
      }
    }
  }

  /** Meaning and space once an entry has gone from the view of the current bucket. */
  lemma TakenOut(s: Db, s': Db, loc: nat, t: seq<Element>)
    requires Meaning(s) && Space(s) && CurrentLive(s) && Removable(s, loc) && ViewOf(s) == s.live
    requires Lacks(CurBucket(s).table, t, CurBucket(s).table[loc])
    requires WithTable(s.live, ViewOf(s'), CurAdr(s), t)
    requires s'.dir == s.dir && s'.dirBits == s.dirBits && s'.recs == s.recs && s'.file == s.file
    requires s'.avail == s.avail && s'.blockSize == s.blockSize && s'.dirAdr == s.dirAdr && s'.lost == s.lost
    requires s'.content == s.content - {KeyOf(s.recs, CurBucket(s).table[loc])}
    requires s'.pending == s.pending + [RecordExtent(CurBucket(s).table[loc])]
    ensures Meaning(s') && Space(s')
  {
    var e := CurBucket(s).table[loc];
    RemoveRepresents(s.dir, s.dirBits, s.live, ViewOf(s'), s.recs, s.content, CurAdr(s), t, e);
    RecordsWithout(s.file, s.live, ViewOf(s'), s.recs, CurAdr(s), t, e);
    RemoveSpace(s.avail, Fixed(s), s.live, ViewOf(s'), CurAdr(s), t, e);
    RemoveAccounted(s.avail, Fixed(s), s.live, ViewOf(s'), CurAdr(s), t, e, s.lost);
    assert Fixed(s') == Fixed(s) + [RecordExtent(e)];
  }

  lemma CountAfterRemoval(t: seq<Element>, t': seq<Element>, e: Element)
    requires Lacks(t, t', e)
    ensures Count(t') + 1 == Count(t)
  {
    assert Sum(t', One()) + One()(e) == Sum(t, One());
  }

  /** Deleting an entry keeps the invariant; exactly its key leaves the map. */
  lemma RemoveKeeps(s: Db, loc: nat, t: seq<Element>)
    requires Inv(s) && Removable(s, loc) && Reachable(t)
    requires Lacks(CurBucket(s).table, t, CurBucket(s).table[loc])
    ensures Inv(RemoveDb(s, loc, t)) && HasCurrent(RemoveDb(s, loc, t))
  {
    hide SpaceOk, Accounted, Represents, RecordsOk, Lacks, Reachable;
    CurrentIsLive(s);
    var s' := RemoveDb(s, loc, t);
    RemoveShapes(s, loc, t);
    assert ViewOf(s) == s.live && ViewOf(s') == s'.live;
    TakenOut(s, s', loc, t);
  }

  lemma RemoveShapes(s: Db, loc: nat, t: seq<Element>)
    requires Shape(s) && Memory(s) && Disk(s) && Flags(s) && CurrentLive(s) && Removable(s, loc) && Reachable(t)
    requires Lacks(CurBucket(s).table, t, CurBucket(s).table[loc])
    ensures var s' := RemoveDb(s, loc, t); Shape(s') && Memory(s') && Disk(s') && Flags(s') && HasCurrent(s')
  {
    assert BucketOk(s.live[CurAdr(s)], s.bucketElems);
    RemoveBucketOk(CurBucket(s), s.bucketElems, loc, t);
    RemoveMemory(s, loc, t);
    RemoveRest(s, loc, t);
  }

  lemma RemoveBucketOk(b: Bucket, n: nat, loc: nat, t: seq<Element>)
    requires BucketOk(b, n) && loc < |b.table| && Reachable(t) && Lacks(b.table, t, b.table[loc])
    ensures b.count > 0 && BucketOk(b.(count := b.count - 1, table := t), n)
  {
    CountAfterRemoval(b.table, t, b.table[loc]);
  }

  lemma RemoveMemory(s: Db, loc: nat, t: seq<Element>)
    requires Memory(s) && CurrentLive(s) && loc < |CurBucket(s).table|
    requires s.touched == -1 || s.touched == s.cur
    requires CurBucket(s).count > 0
    requires BucketOk(CurBucket(s).(count := CurBucket(s).count - 1, table := t), s.bucketElems)
    ensures Memory(RemoveDb(s, loc, t))
  {
    SetCurrentMemory(s, CurBucket(s).(count := CurBucket(s).count - 1, table := t));
  }

  lemma RemoveRest(s: Db, loc: nat, t: seq<Element>)
    requires Shape(s) && Disk(s) && Flags(s) && CurrentLive(s) && Removable(s, loc)
    ensures var s' := RemoveDb(s, loc, t); Shape(s') && Disk(s') && Flags(s') && HasCurrent(s')
  {
  }

  lemma HoleShapes(s: Db, loc: nat)
    requires Shape(s) && Memory(s) && Disk(s) && Flags(s) && CurrentLive(s) && Removable(s, loc)
    ensures var s' := HoleDb(s, loc);
      Shape(s') && Memory(s') && Disk(s') && Flags(s') && HasCurrent(s')
  {
    assert BucketOk(s.live[CurAdr(s)], s.bucketElems);
    SetCurrentMemory(s, CurBucket(s));
  }

  lemma HoleView(s: Db, loc: nat)
    requires CurrentLive(s) && Removable(s, loc)
    ensures ViewOf(s) == s.live
    ensures WithTable(s.live, ViewOf(HoleDb(s, loc)), CurAdr(s), Erase(CurBucket(s).table, loc))
  {
  }

  /** Beginning a replacement keeps the invariant; the map is without the key for the moment. */
  lemma HoleKeeps(s: Db, loc: nat)
    requires Inv(s) && Removable(s, loc)
    ensures Inv(HoleDb(s, loc)) && HasCurrent(HoleDb(s, loc))
  {
    CurrentIsLive(s);
    HoleShapes(s, loc);
    HoleView(s, loc);
    ErasedLacks(CurBucket(s).table, loc);
    TakenOut(s, HoleDb(s, loc), loc, Erase(CurBucket(s).table, loc));
  }

  // ------------------------------------------------------------------ putting an entry in

  function PutBucket(b: Bucket, i: nat, e: Element): Bucket
    requires i < |b.table|
  {
    b.(count := if Used(b.table[i]) then b.count else b.count + 1, table := b.table[i := e])
  }

  /** The entry for `key` is in slot `i` and its record, so far the last pending block, is written. */
  function PutDb(s: Db, i: nat, key: Bytes, data: Bytes): Db
    requires s.cur < |s.cache| && i < |CurBucket(s).table| && s.pending != []
  {
    var n := |s.pending| - 1;
    var adr := s.pending[n].adr;
    SetCurrent(s, PutBucket(CurBucket(s), i, NewEntry(key, data, adr)))
      .(file := Written(s.file, s.pending[n], RecordPage(key + data)),
        recs := WithRecord(s.recs, adr, key + data), content := s.content[key := data],
        pending := s.pending[..n], hole := -1)
  }

  /** Slot `i` can take the entry: it is the slot being replaced, with the key's hash, or the first
      free slot from the key's home. */
  ghost predicate Placeable(s: Db, i: nat, key: Bytes, data: Bytes) {
    && HasCurrent(s) && i < |CurBucket(s).table|
    && s.pending != [] && s.pending[|s.pending| - 1].size == |key| + |data|
    && key !in s.content
    && s.dirBits <= HASH_BITS && |s.dir| == Shl(1, s.dirBits)
    && BucketOf(s.dir, s.dirBits, key) == CurAdr(s)
    && var t := CurBucket(s).table;
       if Used(t[i]) then s.hole == i && t[i].hash == Hash(key)
       else s.hole == -1 &&
            forall k :: 0 <= k < |t| && Between(Home(Hash(key), |t|), k, i) ==> Used(t[k])
  }

  lemma PutBucketOk(s: Db, i: nat, key: Bytes, data: Bytes, adr: nat)
    requires Placeable(s, i, key, data) && BucketOk(CurBucket(s), s.bucketElems)
    ensures BucketOk(PutBucket(CurBucket(s), i, NewEntry(key, data, adr)), s.bucketElems)
  {
    var t := CurBucket(s).table;
    var e := NewEntry(key, data, adr);
    SumUpdate(t, i, e, One());
    if Used(t[i]) {
      assert Reachable(t[i := e]);
    } else {
      PlaceReachable(t, i, e);
    }
  }

  /** Slots other than the current one keep right data caches: no record of theirs was written. */
  lemma PutDataOk(s: Db, i: nat, key: Bytes, data: Bytes)
    requires Memory(s) && CurrentLive(s) && s.pending != [] && i < |CurBucket(s).table|
    requires key + data == [] || FreshAddress(ViewOf(s), s.pending[|s.pending| - 1].adr)
    requires s.touched == -1 || s.touched == s.cur
    ensures var s' := PutDb(s, i, key, data); DataOk(s'.cache, s'.touched, s'.recs)
  {
    var s' := PutDb(s, i, key, data);
    ViewFacts(s);
    var v, adr := ViewOf(s), s.pending[|s.pending| - 1].adr;
    forall j | 0 <= j < |s'.cache| && s'.cache[j].adr != 0 && !Dirty(s'.cache, s'.touched, j)
      ensures s'.cache[j].data.elemLoc == -1 || DataMatches(s'.cache[j], s'.recs)
    {
      assert s'.cache[j] == s.cache[j] && !Dirty(s.cache, s.touched, j);
      var a := s.cache[j].adr;
      assert a in s.live && a != CurAdr(s) && v[a] == s.cache[j].bucket;
      if s.cache[j].data.elemLoc != -1 {
        OtherRecords(v, s.recs, adr, key + data, a, s.cache[j].data.elemLoc);
      }
    }
  }

  /** What the pending block gives: an address no entry uses, clear of all that is in use. */
  lemma PendingFacts(s: Db, key: Bytes, data: Bytes)
    requires Shape(s) && Space(s) && CurrentLive(s) && s.pending != []
    requires s.pending[|s.pending| - 1].size == |key| + |data|
    ensures var e := s.pending[|s.pending| - 1];
      && (key + data == [] || FreshAddress(ViewOf(s), e.adr))
      && ClearOfBlocks(e, s.live.Keys, s.blockSize, 0) && ClearOfRecords(e, ViewOf(s))
      && Clear(e, HeaderExtent(s)) && Clear(e, DirExtent(s)) && ClearOfStack(e, s.avail)
      && 0 !in s.live
  {
    var n := |s.pending| - 1;
    var e := s.pending[n];
    var fixed := Fixed(s);
    var rest := [HeaderExtent(s), DirExtent(s)] + s.pending[..n];
    ViewFacts(s);
    assert fixed[n + 2] == e;
    assert fixed == rest + [e];
    FixedOwned(s.avail, fixed, n + 2);
    CentralHarmless(s.avail, fixed, ViewOf(s), e, 0);
    FixedClear(s.avail, fixed, ViewOf(s), 0, n + 2);
    FixedClear(s.avail, fixed, ViewOf(s), 1, n + 2);
    FixedStackClear(s.avail, fixed, ViewOf(s), n + 2);
    ZeroNotLive(s);
    if e.size > 0 {
      PendingIsFresh(s.avail, rest, ViewOf(s), e);
    }
  }

  lemma PutSets(s: Db, i: nat, key: Bytes, data: Bytes)
    requires Shape(s) && Memory(s) && CurrentLive(s) && Placeable(s, i, key, data)
    ensures Memory(SetCurrent(s, PutBucket(CurBucket(s), i, NewEntry(key, data, s.pending[|s.pending| - 1].adr))))
  {
    var adr := s.pending[|s.pending| - 1].adr;
    assert BucketOk(s.live[CurAdr(s)], s.bucketElems);
    PutBucketOk(s, i, key, data, adr);
    SetCurrentMemory(s, PutBucket(CurBucket(s), i, NewEntry(key, data, adr)));
  }

  lemma PutMemory(s: Db, i: nat, key: Bytes, data: Bytes)
    requires Shape(s) && Memory(s) && Space(s) && CurrentLive(s) && Placeable(s, i, key, data)
    ensures Memory(PutDb(s, i, key, data))
  {
    hide SpaceOk, Accounted, BucketOk;
    var s' := PutDb(s, i, key, data);
    var e := s.pending[|s.pending| - 1];
    PendingFacts(s, key, data);
    PutSets(s, i, key, data);
    PutDataOk(s, i, key, data);
    assert s'.live.Keys == s.live.Keys;
    WriteKeepsBuckets(s.file, e, RecordPage(key + data), s'.cache, s'.touched, s'.live, s.blockSize, 0);
  }

  lemma PutView(s: Db, i: nat, key: Bytes, data: Bytes)
    requires Shape(s) && CurrentLive(s) && Placeable(s, i, key, data)
    ensures var v := ViewOf(s); var s' := PutDb(s, i, key, data); var a := CurAdr(s);
      && a in v && i < |v[a].table| && !Used(v[a].table[i])
      && WithTable(v, ViewOf(s'), a, v[a].table[i := NewEntry(key, data, s.pending[|s.pending| - 1].adr)])
  {
    ViewFacts(s);
    var v, s' := ViewOf(s), PutDb(s, i, key, data);
    assert ViewOf(s') == s'.live;
    assert s'.live[CurAdr(s)].table == v[CurAdr(s)].table[i := NewEntry(key, data, s.pending[|s.pending| - 1].adr)];
  }

  lemma PutRecords(s: Db, i: nat, key: Bytes, data: Bytes)
    requires Shape(s) && CurrentLive(s) && Space(s) && Placeable(s, i, key, data)
    requires RecordsOk(s.file, ViewOf(s), s.recs)
    ensures var s' := PutDb(s, i, key, data); RecordsOk(s'.file, ViewOf(s'), s'.recs)
  {
    var s' := PutDb(s, i, key, data);
    var v, v', a := ViewOf(s), ViewOf(s'), CurAdr(s);
    var ext := s.pending[|s.pending| - 1];
    PendingFacts(s, key, data);
    PutView(s, i, key, data);
    WriteKeepsRecords(s.file, ext, RecordPage(key + data), v, s.recs);
    NewEntryOk(key, data, ext.adr, s.recs, map[key := data]);
    forall x, j | x in v' && 0 <= j < |v'[x].table| && Used(v'[x].table[j])
      ensures RecordOk(s'.file, s'.recs, v'[x].table[j])
    {
      if x == a && j == i {
        assert v'[x].table[j] == NewEntry(key, data, ext.adr);
        if ext.size > 0 { WrittenHolds(s.file, ext, RecordPage(key + data)); }
      } else {
        assert RecordOk(s'.file, s.recs, v[x].table[j]);
        OtherRecords(v, s.recs, ext.adr, key + data, x, j);
      }
    }
  }

  lemma PutMeaningSpace(s: Db, i: nat, key: Bytes, data: Bytes)
    requires Shape(s) && Meaning(s) && Space(s) && CurrentLive(s) && Placeable(s, i, key, data)
    ensures Meaning(PutDb(s, i, key, data)) && Space(PutDb(s, i, key, data))
  {
    var s' := PutDb(s, i, key, data);
    var n := |s.pending| - 1;
    var e := NewEntry(key, data, s.pending[n].adr);
    PendingFacts(s, key, data);
    PutView(s, i, key, data);
    PutRecords(s, i, key, data);
    PutRepresents(s.dir, s.dirBits, ViewOf(s), ViewOf(s'), s.recs, s.content, CurAdr(s), i, key, data, s.pending[n].adr);
    assert RecordExtent(e) == s.pending[n];
    assert Fixed(s) == Fixed(s') + [RecordExtent(e)];
    PutSpace(s.avail, Fixed(s'), ViewOf(s), ViewOf(s'), CurAdr(s), i, e);
    PutAccounted(s.avail, Fixed(s'), ViewOf(s), ViewOf(s'), CurAdr(s), i, e, s.lost);
  }

  /** Storing an entry keeps the invariant; the map gains exactly this key and data. */
  lemma PutKeeps(s: Db, i: nat, key: Bytes, data: Bytes)
    requires Inv(s) && Placeable(s, i, key, data)
    ensures Inv(PutDb(s, i, key, data)) && HasCurrent(PutDb(s, i, key, data))
  {
    CurrentIsLive(s);
    PutMemory(s, i, key, data);
    PutMeaningSpace(s, i, key, data);
    PutDisk(s, i, key, data);
  }

  lemma PutDisk(s: Db, i: nat, key: Bytes, data: Bytes)
    requires Shape(s) && Space(s) && Disk(s) && Flags(s) && CurrentLive(s) && Placeable(s, i, key, data)
    ensures var s' := PutDb(s, i, key, data); Shape(s') && Disk(s') && Flags(s') && HasCurrent(s')
  {
    hide SpaceOk, Accounted, StackOk, ClearOfStack, ClearOfBlocks, ClearOfRecords, FreshAddress, Written, Clear, Holds, NewEntry;
    PendingFacts(s, key, data);
    ShlMonotone(0, 1, s.dirBits);
    WriteKeepsStack(s.file, s.pending[|s.pending| - 1], RecordPage(key + data), s.avail);
    DiskSurvives(s, PutDb(s, i, key, data), s.pending[|s.pending| - 1], RecordPage(key + data));
  }

  // ------------------------------------------------------------------ bookkeeping

  /** The pending blocks in another order, or without empty ones. */
  lemma PermuteKeeps(s: Db, pending: seq<Extent>)
    requires Inv(s)
    requires forall b: nat :: Cover(pending, b) == Cover(s.pending, b)
    ensures Inv(s.(pending := pending))
  {
    var s' := s.(pending := pending);
    forall b: nat ensures Cover(Fixed(s'), b) == Cover(Fixed(s), b) {
      CoverConcat([HeaderExtent(s), DirExtent(s)], pending, b);
      CoverConcat([HeaderExtent(s), DirExtent(s)], s.pending, b);
    }
    assert ViewOf(s') == ViewOf(s);
    SameOwners(s.avail, Fixed(s), s.avail, Fixed(s'), ViewOf(s), s.lost);
  }

  /** The current slot's flags and data cache set, during an update of its bucket. */
  function MarkDb(s: Db, changed: bool, data: DataCache): Db
    requires s.cur < |s.cache|
  {
    s.(cache := s.cache[s.cur := s.cache[s.cur].(changed := changed, data := data)],
       avail := s.avail.(bucketChanged := true))
  }

  lemma MarkMemory(s: Db, changed: bool, data: DataCache)
    requires Memory(s) && HasCurrent(s) && s.touched == s.cur
    ensures Memory(MarkDb(s, changed, data))
  {
    var s' := MarkDb(s, changed, data);
    forall a | a in s'.live && !InMemory(s'.cache, s'.touched, a)
      ensures Holds(s'.file, Extent(s.blockSize, a), BucketPage(s'.live[a]))
    {
      if InMemory(s.cache, s.touched, a) {
        var i :| 0 <= i < |s.cache| && s.cache[i].adr == a && Dirty(s.cache, s.touched, i);
        SlotInMemory(s'.cache, s'.touched, i);
        assert false;
      }
    }
  }

  lemma MarkSpace(s: Db, changed: bool, data: DataCache)
    requires Space(s) && s.cur < |s.cache|
    ensures Space(MarkDb(s, changed, data))
  {
    var s' := MarkDb(s, changed, data);
    assert ViewOf(s') == ViewOf(s);
    SameOwners(s.avail, Fixed(s), s'.avail, Fixed(s'), ViewOf(s), s.lost);
  }

  lemma MarkDisk(s: Db, changed: bool, data: DataCache)
    requires Shape(s) && Disk(s) && Flags(s) && HasCurrent(s)
    ensures var s' := MarkDb(s, changed, data); Shape(s') && Disk(s') && Flags(s')
  {
    hide Holds;
    StackTail(s.file, s.avail, MarkDb(s, changed, data).avail);
  }

  lemma MarkKeeps(s: Db, changed: bool, data: DataCache)
    requires Inv(s) && HasCurrent(s) && s.touched == s.cur
    ensures Inv(MarkDb(s, changed, data)) && HasCurrent(MarkDb(s, changed, data))
  {
    hide SpaceOk, Accounted, Represents, RecordsOk, BucketsOk, CacheOk, DataOk, BucketsShaped, StackOk;
    MarkMemory(s, changed, data);
    MarkSpace(s, changed, data);
    MarkDisk(s, changed, data);
    assert ViewOf(MarkDb(s, changed, data)) == ViewOf(s);
  }
}
