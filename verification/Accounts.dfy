/** Who owns which byte when a bucket gains or loses an entry, or is split. */
module Accounts {
  import opened Extents
  import opened Probing
  import opened Directory
  import opened Ownership
  import opened Content
  import Falloc

  /** An entry taken out of a bucket leaves its record to the central holdings. */
  lemma RemoveSpace(av: Falloc.Avail, fixed: seq<Extent>, live: Live, live': Live, a: nat,
                    t: seq<Element>, e: Element)
    requires SpaceOk(av, fixed, live)
    requires a in live && WithTable(live, live', a, t) && Lacks(live[a].table, t, e)
    ensures SpaceOk(av, fixed + [RecordExtent(e)], live')
  {
    var fixed' := fixed + [RecordExtent(e)];
    assert live' == live[a := live'[a]];
    forall b: nat ensures ByteOk(av, fixed', live', b) {
      assert ByteOk(av, fixed, live, b);
      CoverAppend(fixed, RecordExtent(e), b);
      assert Sum(t, RecordCovers(b)) + RecordCovers(b)(e) == Sum(live[a].table, RecordCovers(b));
      MoveOneBucket(av, fixed, live, av, fixed', a, live'[a], b);
    }
  }

  lemma RemoveAccounted(av: Falloc.Avail, fixed: seq<Extent>, live: Live, live': Live, a: nat,
                        t: seq<Element>, e: Element, lost: iset<nat>)
    requires Accounted(av, fixed, live, lost)
    requires a in live && WithTable(live, live', a, t) && Lacks(live[a].table, t, e)
    ensures Accounted(av, fixed + [RecordExtent(e)], live', lost)
  {
    var fixed' := fixed + [RecordExtent(e)];
    assert live' == live[a := live'[a]];
    forall b: nat | b !in lost ensures ByteOwned(av, fixed', live', b) {
      assert ByteOwned(av, fixed, live, b);
      CoverAppend(fixed, RecordExtent(e), b);
      assert Sum(t, RecordCovers(b)) + RecordCovers(b)(e) == Sum(live[a].table, RecordCovers(b));
      OwnedAfterMove(av, fixed, live, av, fixed', a, live'[a], b);
    }
  }

  /** An entry put into a free slot takes over its record from the central holdings. */
  lemma PutSpace(av: Falloc.Avail, fixed: seq<Extent>, live: Live, live': Live, a: nat, i: nat, e: Element)
    requires SpaceOk(av, fixed + [RecordExtent(e)], live)
    requires a in live && i < |live[a].table| && !Used(live[a].table[i]) && Used(e)
    requires WithTable(live, live', a, live[a].table[i := e])
    ensures SpaceOk(av, fixed, live')
  {
    var fixed' := fixed + [RecordExtent(e)];
    assert live' == live[a := live'[a]];
    forall b: nat ensures ByteOk(av, fixed, live', b) {
      assert ByteOk(av, fixed', live, b);
      CoverAppend(fixed, RecordExtent(e), b);
      SumUpdate(live[a].table, i, e, RecordCovers(b));
      MoveOneBucket(av, fixed', live, av, fixed, a, live'[a], b);
    }
  }

  lemma PutAccounted(av: Falloc.Avail, fixed: seq<Extent>, live: Live, live': Live, a: nat, i: nat, e: Element,
                     lost: iset<nat>)
    requires Accounted(av, fixed + [RecordExtent(e)], live, lost)
    requires a in live && i < |live[a].table| && !Used(live[a].table[i]) && Used(e)
    requires WithTable(live, live', a, live[a].table[i := e])
    ensures Accounted(av, fixed, live', lost)
  {
    var fixed' := fixed + [RecordExtent(e)];
    assert live' == live[a := live'[a]];
    forall b: nat | b !in lost ensures ByteOwned(av, fixed, live', b) {
      assert ByteOwned(av, fixed', live, b);
      CoverAppend(fixed, RecordExtent(e), b);
      SumUpdate(live[a].table, i, e, RecordCovers(b));
      OwnedAfterMove(av, fixed', live, av, fixed, a, live'[a], b);
    }
  }

  /** A centrally held block is at no entry's address. */
  lemma PendingIsFresh(av: Falloc.Avail, fixed: seq<Extent>, live: Live, e: Extent)
    requires SpaceOk(av, fixed + [e], live) && e.size > 0
    ensures FreshAddress(live, e.adr)
  {
    var all := fixed + [e];
    FixedOwned(av, all, |fixed|);
    forall a, i | a in live && 0 <= i < |live[a].table| && Used(live[a].table[i])
      ensures live[a].table[i].keySize + live[a].table[i].dataSize > 0 ==> live[a].table[i].dataPointer != e.adr
    {
      CentralRecordClear(av, all, live, e, a, i);
    }
  }

  /** The old bucket's free extents stay on side 0, except that a full table first gives one to
      side 1, which starts with the fresh block `spare` (lib/gdbm/bucket.c:241-263). */
  function HandOver(av0: seq<Extent>, spare: Extent): (seq<Extent>, seq<Extent>) {
    if |av0| == Falloc.BUCKET_AVAIL then (av0[1..], Put([spare], av0[0], false)) else (av0, [spare])
  }

  /** The free tables of the two new buckets: the block of the old bucket goes to the bucket that
      does not become current (lib/gdbm/bucket.c:286-308). */
  function SplitFree(av0: seq<Extent>, spare: Extent, oldBlock: Extent, currentIsOne: bool)
    : (seq<Extent>, seq<Extent>)
  {
    var (zero, one) := HandOver(av0, spare);
    if currentIsOne then (Put(zero, oldBlock, false), one) else (zero, Put(one, oldBlock, false))
  }

  lemma PutMultiset(t: seq<Extent>, e: Extent)
    requires e.size > IGNORE_SIZE
    ensures multiset(Put(t, e, false)) == multiset(t) + multiset{e}
  {
    var i := FirstFit(t, e.size);
    assert t == t[..i] + t[i..];
  }

  lemma HandOverExact(av0: seq<Extent>, spare: Extent)
    requires Big(av0) && |av0| <= Falloc.BUCKET_AVAIL && spare.size > IGNORE_SIZE
    ensures var (zero, one) := HandOver(av0, spare);
      && multiset(zero) + multiset(one) == multiset(av0) + multiset{spare}
      && Big(zero) && Big(one)
      && |zero| < Falloc.BUCKET_AVAIL && |one| < Falloc.BUCKET_AVAIL
  {
    if |av0| == Falloc.BUCKET_AVAIL {
      PutMultiset([spare], av0[0]);
      PutBig([spare], av0[0], false);
      PutLength([spare], av0[0], false);
      assert av0 == [av0[0]] + av0[1..];
    }
  }

  /** Free space is handed over without loss and without overflow: the two tables together hold
      exactly the old bucket's extents, its own block and the fresh block, and neither is overfull. */
  lemma SplitFreeExact(av0: seq<Extent>, spare: Extent, oldBlock: Extent, currentIsOne: bool)
    requires Big(av0) && |av0| <= Falloc.BUCKET_AVAIL
    requires spare.size > IGNORE_SIZE && oldBlock.size > IGNORE_SIZE
    ensures var (zero, one) := SplitFree(av0, spare, oldBlock, currentIsOne);
      && multiset(zero) + multiset(one) == multiset(av0) + multiset{spare} + multiset{oldBlock}
      && Big(zero) && Big(one)
      && |zero| <= Falloc.BUCKET_AVAIL && |one| <= Falloc.BUCKET_AVAIL
  {
    HandOverExact(av0, spare);
    var (zero, one) := HandOver(av0, spare);
    var t := if currentIsOne then zero else one;
    PutMultiset(t, oldBlock);
    PutBig(t, oldBlock, false);
    PutLength(t, oldBlock, false);
  }

  /** What goes where: bucket 1 starts with the fresh block and gets the first extent of a full table,
      bucket 0 keeps the others; the old bucket's block goes to the one that does not become current. */
  lemma SplitFreeCover(av0: seq<Extent>, spare: Extent, oldBlock: Extent, currentIsOne: bool, b: nat)
    requires Big(av0) && spare.size > IGNORE_SIZE && oldBlock.size > IGNORE_SIZE
    ensures var (zero, one) := SplitFree(av0, spare, oldBlock, currentIsOne);
      && Cover(zero, b) == Cover(if |av0| == 6 then av0[1..] else av0, b) + (if currentIsOne then In(oldBlock, b) else 0)
      && Cover(one, b) == In(spare, b) + (if |av0| == 6 then In(av0[0], b) else 0)
                          + (if currentIsOne then 0 else In(oldBlock, b))
      && Cover(zero, b) + Cover(one, b) == Cover(av0, b) + In(spare, b) + In(oldBlock, b)
  {
    var (zero, one) := HandOver(av0, spare);
    CoverOne(spare, b);
    if |av0| == Falloc.BUCKET_AVAIL {
      PutCover([spare], av0[0], false, b);
    }
    PutCover(zero, oldBlock, false, b);
    PutCover(one, oldBlock, false, b);
  }

  /** Byte by byte: the two new blocks and the fresh block, so far held centrally, and everything the
      old bucket owned, belong to the two new buckets. */
  lemma SplitOwns(av: Falloc.Avail, fixed: seq<Extent>, live: Live, live': Live, a: nat, a0: nat, a1: nat,
                  spare: nat, currentIsOne: bool, b: nat)
    requires av.blockSize > IGNORE_SIZE
    requires a in live && Big(live[a].av) && SplitBuckets(live, live', a, a0, a1)
    requires (live'[a0].av, live'[a1].av)
          == SplitFree(live[a].av, Extent(av.blockSize, spare), Extent(av.blockSize, a), currentIsOne)
    ensures
      var all := fixed + [Extent(av.blockSize, a0), Extent(av.blockSize, a1), Extent(av.blockSize, spare)];
      CentralOwn(av, fixed, b) + Own(av.blockSize, a0, live'[a0], b) + Own(av.blockSize, a1, live'[a1], b)
      == CentralOwn(av, all, b) + Own(av.blockSize, a, live[a], b)
  {
    var e0, e1, ef := Extent(av.blockSize, a0), Extent(av.blockSize, a1), Extent(av.blockSize, spare);
    assert fixed + [e0, e1, ef] == fixed + [e0] + [e1] + [ef];
    CoverAppend(fixed + [e0] + [e1], ef, b);
    CoverAppend(fixed + [e0], e1, b);
    CoverAppend(fixed, e0, b);
    SplitFreeCover(live[a].av, ef, Extent(av.blockSize, a), currentIsOne, b);
    assert Sum(live'[a0].table, RecordCovers(b)) + Sum(live'[a1].table, RecordCovers(b))
        == Sum(live[a].table, RecordCovers(b));
  }

  /** Space across a split: nothing is owned twice, and nothing is lost. */
  lemma SplitSpace(av: Falloc.Avail, fixed: seq<Extent>, live: Live, live': Live, a: nat, a0: nat, a1: nat,
                   spare: nat, currentIsOne: bool, lost: iset<nat>)
    requires av.blockSize > IGNORE_SIZE
    requires a in live && Big(live[a].av) && SplitBuckets(live, live', a, a0, a1)
    requires
      var all := fixed + [Extent(av.blockSize, a0), Extent(av.blockSize, a1), Extent(av.blockSize, spare)];
      SpaceOk(av, all, live) && Accounted(av, all, live, lost)
    requires (live'[a0].av, live'[a1].av)
          == SplitFree(live[a].av, Extent(av.blockSize, spare), Extent(av.blockSize, a), currentIsOne)
    ensures SpaceOk(av, fixed, live') && Accounted(av, fixed, live', lost)
  {
    var all := fixed + [Extent(av.blockSize, a0), Extent(av.blockSize, a1), Extent(av.blockSize, spare)];
    forall b: nat ensures ByteOk(av, fixed, live', b) && (b !in lost ==> ByteOwned(av, fixed, live', b)) {
      assert ByteOk(av, all, live, b);
      SplitOwns(av, fixed, live, live', a, a0, a1, spare, currentIsOne, b);
      MoveSplit(av, all, live, fixed, live', a, a0, a1, b);
      if b !in lost {
        assert ByteOwned(av, all, live, b);
        OwnedAfterSplit(av, all, live, fixed, live', a, a0, a1, b);
      }
    }
  }
}
