/** Why the staged search for a key agrees with a search of the map (lib/gdbm/findkey.c:103-158). */
module Lookup {
  import opened Probing
  import opened Directory
  import opened Ownership
  import opened Extents
  import opened KeyHash
  import opened Pages
  import opened Content
  import opened Database
  import opened EntrySteps
  import opened SplitSteps
  import opened SplitTermination
  import FallocCapacity

  /** The current bucket is the one the key's hash selects. */
  ghost predicate AtKey(s: Db, key: Bytes) {
    && HasCurrent(s) && s.hole == -1
    && s.dirBits <= HASH_BITS && |s.dir| == Shl(1, s.dirBits)
    && CurAdr(s) == BucketOf(s.dir, s.dirBits, key)
  }

  /** The entry in slot `i` carries the key. */
  ghost predicate Carries(s: Db, key: Bytes, i: nat)
    requires HasCurrent(s)
  {
    i < |CurBucket(s).table| && Used(CurBucket(s).table[i]) && KeyOf(s.recs, CurBucket(s).table[i]) == key
  }

  /** The comparison made before the record is read: hash, size, and the first bytes of the key. */
  predicate MayBe(e: Element, hash: int, key: Bytes) {
    e.hash == hash && e.keySize == |key| && e.keyStart == Prefix(key)
  }

  lemma CurrentEntries(s: Db, key: Bytes)
    requires Inv(s) && AtKey(s, key)
    ensures s.live == ViewOf(s) && CurrentLive(s)
    ensures Reachable(CurBucket(s).table) && |CurBucket(s).table| == s.bucketElems > 0
    ensures forall i :: 0 <= i < |CurBucket(s).table| && Used(CurBucket(s).table[i]) ==>
      EntryOk(CurBucket(s).table[i], s.recs, s.content)
  {
    CurrentIsLive(s);
    assert s.live == ViewOf(s);
    assert BucketOk(s.live[CurAdr(s)], s.bucketElems);
  }

  /** Comparing hash, size, first bytes and then the record's key decides exactly whether the entry
      carries the key. */
  lemma StagedTestIsExact(s: Db, key: Bytes, i: nat)
    requires Inv(s) && AtKey(s, key) && i < |CurBucket(s).table| && Used(CurBucket(s).table[i])
    ensures var e := CurBucket(s).table[i]; var bytes := RecordBytes(s.recs, e);
      && |bytes| == e.keySize + e.dataSize
      && (Carries(s, key, i) <==> MayBe(e, Hash(key), key) && bytes[..|key|] == key)
  {
    CurrentEntries(s, key);
  }

  /** An entry that carries the key has its data. */
  lemma CarriedData(s: Db, key: Bytes, i: nat)
    requires Inv(s) && AtKey(s, key) && Carries(s, key, i)
    ensures key in s.content
    ensures var e := CurBucket(s).table[i];
      && e.keySize == |key| && |RecordBytes(s.recs, e)| == |key| + e.dataSize
      && s.content[key] == RecordBytes(s.recs, e)[|key|..]
  {
    CurrentEntries(s, key);
  }

  lemma FetchedData(s: Db, key: Bytes, i: nat)
    requires Inv(s) && AtKey(s, key) && Carries(s, key, i)
    ensures key in s.content && i < |CurBucket(s).table|
    ensures |s.content[key]| == CurBucket(s).table[i].dataSize
  {
    CurrentEntries(s, key);
  }

  /** The one-record data cache answers as the bucket would. */
  lemma DataCacheIsExact(s: Db, key: Bytes)
    requires Inv(s) && AtKey(s, key) && s.touched == -1 && !s.cache[s.cur].changed
    requires var d := s.cache[s.cur].data;
      d.elemLoc != -1 && d.hash == Hash(key) && d.keySize == |key| && d.dptr.Some?
    ensures var d := s.cache[s.cur].data;
      && 0 <= d.elemLoc < |CurBucket(s).table|
      && |d.dptr.value| >= |key|
      && (Carries(s, key, d.elemLoc) <==> d.dptr.value[..|key|] == key)
      && d.dptr.value == RecordBytes(s.recs, CurBucket(s).table[d.elemLoc])
  {
    CurrentEntries(s, key);
    assert DataMatches(s.cache[s.cur], s.recs);
    assert EntryOk(CurBucket(s).table[s.cache[s.cur].data.elemLoc], s.recs, s.content);
  }

  /** No slot from `home` up to `elem` carries the key. */
  ghost predicate Passed(s: Db, key: Bytes, home: nat, elem: nat)
    requires HasCurrent(s)
  {
    forall k :: 0 <= k < |CurBucket(s).table| && Between(home, k, elem) ==> !Carries(s, key, k)
  }

  lemma CarriedSomewhere(s: Db, key: Bytes)
    requires Inv(s) && AtKey(s, key)
    ensures key in s.content <==> exists i :: Carries(s, key, i)
  {
    CurrentEntries(s, key);
    KeyPresent(s.dir, s.dirBits, s.live, s.recs, s.content, key);
    if key in s.content {
      var t := CurBucket(s).table;
      var i :| 0 <= i < |t| && Used(t[i]) && KeyOf(s.recs, t[i]) == key;
      assert Carries(s, key, i);
    } else {
      forall i: nat ensures !Carries(s, key, i) {}
    }
  }

  lemma CarriedOnChain(s: Db, key: Bytes, i: nat, elem: nat)
    requires Inv(s) && AtKey(s, key) && Carries(s, key, i) && elem < |CurBucket(s).table|
    ensures Between(Home(Hash(key), |CurBucket(s).table|), elem, i) ==> Used(CurBucket(s).table[elem])
  {
    CurrentEntries(s, key);
    assert EntryOk(CurBucket(s).table[i], s.recs, s.content);
  }

  /** The search may stop at an empty slot, or when it is back at the key's home. */
  lemma SearchComplete(s: Db, key: Bytes, elem: nat)
    requires Inv(s) && AtKey(s, key) && elem < |CurBucket(s).table|
    requires var home := Home(Hash(key), |CurBucket(s).table|);
      Passed(s, key, home, elem) && !Carries(s, key, elem)
      && (!Used(CurBucket(s).table[elem]) || Next(elem, |CurBucket(s).table|) == home)
    ensures key !in s.content
  {
    hide Inv;
    CarriedSomewhere(s, key);
    forall i: nat ensures !Carries(s, key, i) {
      if Carries(s, key, i) {
        CarriedOnChain(s, key, i, elem);
      }
    }
  }

  /** An entry found belongs to the bucket the directory selects, so it may be replaced or removed. */
  lemma FoundIsInMap(s: Db, key: Bytes, i: nat)
    requires Inv(s) && AtKey(s, key) && Carries(s, key, i)
    ensures key in s.content && CurBucket(s).table[i].hash == Hash(key)
  {
    CurrentEntries(s, key);
    assert EntryOk(CurBucket(s).table[i], s.recs, s.content);
  }

  // ------------------------------------------------------------------ steps of the search

  lemma AtKeyCurrent(s: Db, key: Bytes)
    requires AtKey(s, key)
    ensures HasCurrent(s)
  {
  }

  lemma NothingPassed(s: Db, key: Bytes, home: nat)
    requires HasCurrent(s)
    ensures Passed(s, key, home, home)
  {
  }

  lemma NotCarried(s: Db, key: Bytes, i: nat)
    requires HasCurrent(s) && (i < |CurBucket(s).table| ==> !Used(CurBucket(s).table[i]))
    ensures !Carries(s, key, i)
  {
  }

  lemma PassedNext(s: Db, key: Bytes, home: nat, elem: nat)
    requires HasCurrent(s) && elem < |CurBucket(s).table| && home < |CurBucket(s).table|
    requires Passed(s, key, home, elem) && !Carries(s, key, elem)
    requires Next(elem, |CurBucket(s).table|) != home
    ensures Passed(s, key, home, Next(elem, |CurBucket(s).table|))
    ensures Distance(home, Next(elem, |CurBucket(s).table|), |CurBucket(s).table|)
         == Distance(home, elem, |CurBucket(s).table|) + 1
  {
  }

  /** Reading a record leaves the search where it was. */
  lemma SameSearch(s: Db, s': Db, key: Bytes, home: nat, elem: nat)
    requires HasCurrent(s) && HasCurrent(s') && CurBucket(s') == CurBucket(s) && s'.recs == s.recs
    ensures Passed(s, key, home, elem) ==> Passed(s', key, home, elem)
    ensures Carries(s', key, elem) <==> Carries(s, key, elem)
  {
  }

  // ------------------------------------------------------------------ what a search allows

  lemma FoundRemovable(s: Db, key: Bytes, i: nat)
    requires Inv(s) && AtKey(s, key) && Carries(s, key, i)
    ensures Removable(s, i) && HasCurrent(s) && i < |CurBucket(s).table|
    ensures KeyOf(s.recs, CurBucket(s).table[i]) == key
  {
    FoundIsInMap(s, key, i);
  }

  lemma RemovableFacts(s: Db, i: nat)
    requires Inv(s) && Removable(s, i)
    ensures HasCurrent(s) && s.hole == -1 && i < |CurBucket(s).table|
    ensures Used(CurBucket(s).table[i]) && Reachable(CurBucket(s).table)
  {
    CurrentIsLive(s);
    assert BucketOk(s.live[CurAdr(s)], s.bucketElems);
  }

  lemma RemovedLacks(t: seq<Element>, t': seq<Element>, i: nat)
    requires i < |t| && Used(t[i]) && |t'| == |t|
    requires forall w: Element -> nat :: Sum(t', w) + w(t[i]) == Sum(t, w)
    ensures Lacks(t, t', t[i])
  {
  }

  lemma ReadyFacts(s: Db)
    requires Clean(s)
    ensures s.pending == [] && s.touched == -1 && s.hole == -1
  {
  }

  lemma PlaceableFacts(s: Db, i: nat, key: Bytes, data: Bytes)
    requires Placeable(s, i, key, data)
    ensures HasCurrent(s) && i < |CurBucket(s).table| && s.pending != []
    ensures s.pending[|s.pending| - 1] == Extent(|key| + |data|, s.pending[|s.pending| - 1].adr)
  {
  }

  lemma AtKeyPlaced(s: Db, key: Bytes, slot: nat)
    requires Inv(s) && AtKey(s, key) && slot == Slot(Hash(key), s.dirBits)
    ensures SplitPlaced(s, slot, Hash(key)) && SlotIs(s, slot, Hash(key)) && HasCurrent(s)
  {
    SlotInRange(Hash(key), s.dirBits);
  }

  lemma SlotStays(s: Db, s': Db, slot: nat, hash: nat)
    requires SlotIs(s, slot, hash) && s'.dirBits == s.dirBits
    ensures SlotIs(s', slot, hash)
  {
  }

  /** A bucket that is not full has a free slot. */
  lemma HasRoom(s: Db, slot: nat, hash: nat)
    requires Inv(s) && SplitPlaced(s, slot, hash) && CurBucket(s).count != s.bucketElems
    ensures HasCurrent(s) && Count(CurBucket(s).table) < |CurBucket(s).table|
  {
    CurrentIsLive(s);
    assert BucketOk(s.live[CurAdr(s)], s.bucketElems);
    CountBound(CurBucket(s).table);
  }

  lemma NewPlaceable(s: Db, slot: nat, i: nat, key: Bytes, data: Bytes)
    requires Inv(s) && SplitPlaced(s, slot, Hash(key)) && SlotIs(s, slot, Hash(key)) && key !in s.content
    requires s.pending != [] && s.pending[|s.pending| - 1].size == |key| + |data|
    requires i < |CurBucket(s).table| && !Used(CurBucket(s).table[i])
    requires forall k :: 0 <= k < |CurBucket(s).table| && Between(Home(Hash(key), |CurBucket(s).table|), k, i)
                         ==> Used(CurBucket(s).table[k])
    ensures Placeable(s, i, key, data)
  {
  }

  /** A split that may be needed for the key comes to an end. */
  ghost predicate CanStore(s: Db, key: Bytes) {
    && s.dirBits <= HASH_BITS && |s.dir| == Shl(1, s.dirBits)
    && var a := BucketOf(s.dir, s.dirBits, key);
       a in s.live && (key !in s.content && s.live[a].count == s.bucketElems ==> Mixed(s.live[a].table, Hash(key)))
  }

  /** What a caller can check for a store to have room for every pop: no full half is on the stack, the
      header's table is not full, and the bucket need not be split. */
  ghost predicate Ample(s: Db, key: Bytes) {
    && FallocCapacity.Roomy(s.avail) && |s.avail.header| < s.avail.capacity
    && s.dirBits <= HASH_BITS && |s.dir| == Shl(1, s.dirBits)
    && var a := BucketOf(s.dir, s.dirBits, key);
       a in s.live && (key in s.content || s.live[a].count != s.bucketElems)
  }

  lemma AmpleHere(s: Db, s': Db, key: Bytes)
    requires Inv(s') && AtKey(s', key)
    requires s'.dir == s.dir && s'.dirBits == s.dirBits && s'.live == s.live && s'.content == s.content
    requires s'.bucketElems == s.bucketElems && s'.avail == s.avail
    ensures HasCurrent(s')
    ensures Ample(s, key) ==> FallocCapacity.Roomy(s'.avail) && |s'.avail.header| < s'.avail.capacity
    ensures Ample(s, key) && key !in s.content ==> CurBucket(s').count != s'.bucketElems
  {
    CurrentIsLive(s');
  }

  lemma CanStoreHere(s: Db, s': Db, key: Bytes)
    requires CanStore(s, key) && Inv(s') && AtKey(s', key) && key !in s'.content
    requires s'.dir == s.dir && s'.dirBits == s.dirBits && s'.live == s.live && s'.content == s.content
    requires s'.bucketElems == s.bucketElems
    ensures HasCurrent(s')
    ensures CurBucket(s').count == s'.bucketElems ==> Mixed(CurBucket(s').table, Hash(key))
  {
    CurrentIsLive(s');
  }

  lemma HoleDbFields(s: Db, i: nat)
    requires CurrentLive(s) || (Inv(s) && HasCurrent(s))
    requires i < |CurBucket(s).table|
    ensures var e := CurBucket(s).table[i];
      HoleDb(s, i) == s.(hole := i, touched := s.cur, content := s.content - {KeyOf(s.recs, e)},
                         pending := s.pending + [RecordExtent(e)])
  {
    if !CurrentLive(s) { CurrentIsLive(s); }
    assert s.cache[s.cur := s.cache[s.cur].(bucket := CurBucket(s))] == s.cache;
    assert s.live[CurAdr(s) := CurBucket(s)] == s.live;
  }

  lemma HoleFacts(s: Db, key: Bytes, i: nat)
    requires Inv(s) && AtKey(s, key) && Carries(s, key, i) && s.pending == []
    ensures var s' := HoleDb(s, i); var e := CurBucket(s).table[i];
      && HasCurrent(s') && s'.pending == [RecordExtent(e)] && s'.content == s.content - {key}
  {
  }

  lemma StoreCurrent(s: Db, s': Db)
    requires HasCurrent(s) && SameStore(s, s')
    ensures HasCurrent(s')
  {
  }

  /** A record at address 0 has no bytes: byte 0 belongs to the header. */
  lemma EmptyPending(s: Db)
    requires Inv(s) && |s.pending| == 1 && s.pending[0].adr == 0
    ensures forall b: nat :: Cover([], b) == Cover(s.pending, b)
  {
    assert Fixed(s)[0] == HeaderExtent(s) && Fixed(s)[2] == s.pending[0];
    FixedClear(s.avail, Fixed(s), ViewOf(s), 0, 2);
    forall b: nat ensures Cover([], b) == Cover(s.pending, b) {
      CoverOne(s.pending[0], b);
      assert s.pending == [s.pending[0]];
    }
  }

  lemma ReplacePlaceable(s: Db, s1: Db, s2: Db, key: Bytes, data: Bytes, i: nat)
    requires Inv(s) && AtKey(s, key) && Carries(s, key, i)
    requires s1 == HoleDb(s, i) && SameStore(s1, s2)
    requires |s2.pending| == 1 && s2.pending[0].size == |key| + |data|
    ensures Placeable(s2, i, key, data) && s2.content == s.content - {key}
  {
    FoundIsInMap(s, key, i);
  }
}
