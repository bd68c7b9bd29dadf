/** Who owns which byte of a database file: the allocator's tables, the blocks held centrally, and
    for every live bucket its block, its own free extents and its records. */
module Ownership {
  import opened Extents
  import opened Probing
  import opened Directory
  import Falloc

  function RecordExtent(e: Element): Extent {
    Extent(e.keySize + e.dataSize, e.dataPointer)
  }

  function RecordCovers(b: nat): Element -> nat {
    (e: Element) => In(RecordExtent(e), b)
  }

  /** How often the live bucket at address `a` owns byte `b`. */
  function Own(blockSize: nat, a: nat, bucket: Bucket, b: nat): nat {
    In(Extent(blockSize, a), b) + Cover(bucket.av, b) + Sum(bucket.table, RecordCovers(b))
  }

  /** How often byte `b` is owned by no bucket: by the allocator's central tables or as one of the
      blocks in `fixed`. */
  function CentralOwn(av: Falloc.Avail, fixed: seq<Extent>, b: nat): nat {
    Falloc.Central(av, b) + Cover(fixed, b)
  }

  ghost predicate ByteOk(av: Falloc.Avail, fixed: seq<Extent>, live: Live, b: nat) {
    && CentralOwn(av, fixed, b) <= 1
    && (CentralOwn(av, fixed, b) > 0 ==> b < av.nextBlock)
    && (forall a :: a in live ==>
          && Own(av.blockSize, a, live[a], b) + CentralOwn(av, fixed, b) <= 1
          && (Own(av.blockSize, a, live[a], b) > 0 ==> b < av.nextBlock))
    && (forall x, y :: x in live && y in live && x != y ==>
          Own(av.blockSize, x, live[x], b) + Own(av.blockSize, y, live[y], b) <= 1)
  }

  /** No byte of the file has two owners and none beyond its end has one. */
  ghost predicate SpaceOk(av: Falloc.Avail, fixed: seq<Extent>, live: Live) {
    forall b: nat :: ByteOk(av, fixed, live, b)
  }

  // ------------------------------------------------------------------ moving ownership

  /** Ownership may move between the central holdings and one bucket, and the file may grow. */
  lemma MoveOneBucket(av: Falloc.Avail, fixed: seq<Extent>, live: Live,
                      av': Falloc.Avail, fixed': seq<Extent>, a: nat, bucket': Bucket, b: nat)
    requires ByteOk(av, fixed, live, b) && a in live
    requires av'.blockSize == av.blockSize && av'.nextBlock >= av.nextBlock
    requires CentralOwn(av', fixed', b) + Own(av.blockSize, a, bucket', b)
          <= CentralOwn(av, fixed, b) + Own(av.blockSize, a, live[a], b) + Falloc.Fresh(av, av', b)
    ensures ByteOk(av', fixed', live[a := bucket'], b)
  {
    var live' := live[a := bucket'];
    forall x | x in live'
      ensures Own(av'.blockSize, x, live'[x], b) + CentralOwn(av', fixed', b) <= 1
      ensures Own(av'.blockSize, x, live'[x], b) > 0 ==> b < av'.nextBlock
    {
      assert x in live;
      if x != a {
        assert Own(av.blockSize, x, live[x], b) + Own(av.blockSize, a, live[a], b) <= 1;
      }
    }
    forall x, y | x in live' && y in live' && x != y
      ensures Own(av'.blockSize, x, live'[x], b) + Own(av'.blockSize, y, live'[y], b) <= 1
    {
      assert Own(av.blockSize, x, live[x], b) + Own(av.blockSize, y, live[y], b) <= 1;
    }
  }

  /** One bucket may be replaced by two that together own no more. */
  lemma MoveSplit(av: Falloc.Avail, fixed: seq<Extent>, live: Live, fixed': seq<Extent>,
                  live': Live, a: nat, a0: nat, a1: nat, b: nat)
    requires ByteOk(av, fixed, live, b) && a in live && SplitLive(live, live', a, a0, a1)
    requires CentralOwn(av, fixed', b)
             + Own(av.blockSize, a0, live'[a0], b) + Own(av.blockSize, a1, live'[a1], b)
          <= CentralOwn(av, fixed, b) + Own(av.blockSize, a, live[a], b)
    ensures ByteOk(av, fixed', live', b)
  {
    forall x | x in live'
      ensures Own(av.blockSize, x, live'[x], b) + CentralOwn(av, fixed', b) <= 1
      ensures Own(av.blockSize, x, live'[x], b) > 0 ==> b < av.nextBlock
    {
      if x != a0 && x != a1 {
        assert x in live && x != a;
        assert Own(av.blockSize, x, live[x], b) + Own(av.blockSize, a, live[a], b) <= 1;
      }
    }
    forall x, y | x in live' && y in live' && x != y
      ensures Own(av.blockSize, x, live'[x], b) + Own(av.blockSize, y, live'[y], b) <= 1
    {
      if x != a0 && x != a1 {
        assert x in live && x != a;
        assert Own(av.blockSize, x, live[x], b) + Own(av.blockSize, a, live[a], b) <= 1;
      }
      if y != a0 && y != a1 {
        assert y in live && y != a;
        assert Own(av.blockSize, y, live[y], b) + Own(av.blockSize, a, live[a], b) <= 1;
      }
    }
  }

  /** The allocator state with the table of bucket `a` loaded as the current one. */
  function Loaded(av: Falloc.Avail, bucket: Bucket): Falloc.Avail {
    av.(bucket := bucket.av, past := av.past.(writes := []))
  }

  function Unloaded(av: Falloc.Avail): Falloc.Avail {
    av.(bucket := [], past := av.past.(writes := []))
  }

  /** Allocating from within bucket `a` moves the new extent to the blocks held centrally. */
  lemma AllocSpace(av: Falloc.Avail, fixed: seq<Extent>, live: Live, a: nat, size: nat)
    requires SpaceOk(av, fixed, live) && a in live && Falloc.Valid(Loaded(av, live[a]))
    ensures var (av', adr) := Falloc.Alloc(Loaded(av, live[a]), size);
      SpaceOk(Unloaded(av'), fixed + [Extent(size, adr)], live[a := live[a].(av := av'.bucket)])
  {
    var al := Loaded(av, live[a]);
    var (av', adr) := Falloc.Alloc(al, size);
    var fixed' := fixed + [Extent(size, adr)];
    var bucket' := live[a].(av := av'.bucket);
    var un, live' := Unloaded(av'), live[a := bucket'];
    Falloc.AllocValid(al, size);
    forall b: nat ensures ByteOk(un, fixed', live', b) {
      Falloc.AllocHeld(al, size, b);
      CoverAppend(fixed, Extent(size, adr), b);
      assert ByteOk(av, fixed, live, b);
      MoveOneBucket(av, fixed, live, Unloaded(av'), fixed', a, bucket', b);
    }
  }

  /** Freeing the last of the centrally held blocks from within bucket `a`. */
  lemma FreeSpace(av: Falloc.Avail, fixed: seq<Extent>, e: Extent, live: Live, a: nat)
    requires SpaceOk(av, fixed + [e], live) && a in live && Falloc.Valid(Loaded(av, live[a]))
    ensures var av' := Falloc.Free(Loaded(av, live[a]), e);
      SpaceOk(Unloaded(av'), fixed, live[a := live[a].(av := av'.bucket)])
  {
    var al := Loaded(av, live[a]);
    var av' := Falloc.Free(al, e);
    var bucket' := live[a].(av := av'.bucket);
    var un, live' := Unloaded(av'), live[a := bucket'];
    Falloc.FreeValid(al, e);
    forall b: nat ensures ByteOk(un, fixed, live', b) {
      Falloc.FreeHeld(al, e, b);
      CoverAppend(fixed, e, b);
      assert ByteOk(av, fixed + [e], live, b);
      MoveOneBucket(av, fixed + [e], live, Unloaded(av'), fixed, a, bucket', b);
    }
  }

  // ------------------------------------------------------------------ no byte is lost

  /** A byte below the end of the file has an owner. */
  ghost predicate ByteOwned(av: Falloc.Avail, fixed: seq<Extent>, live: Live, b: nat) {
    b < av.nextBlock ==>
      CentralOwn(av, fixed, b) > 0 || exists a :: a in live && Own(av.blockSize, a, live[a], b) > 0
  }

  /** Every byte of the file has an owner, but for those in `lost`. */
  ghost predicate Accounted(av: Falloc.Avail, fixed: seq<Extent>, live: Live, lost: iset<nat>) {
    forall b: nat :: b !in lost ==> ByteOwned(av, fixed, live, b)
  }

  lemma OwnedAfterMove(av: Falloc.Avail, fixed: seq<Extent>, live: Live,
                       av': Falloc.Avail, fixed': seq<Extent>, a: nat, bucket': Bucket, b: nat)
    requires ByteOwned(av, fixed, live, b) && a in live
    requires av'.blockSize == av.blockSize
    requires CentralOwn(av', fixed', b) + Own(av.blockSize, a, bucket', b)
          >= CentralOwn(av, fixed, b) + Own(av.blockSize, a, live[a], b) + Falloc.Fresh(av, av', b)
    ensures ByteOwned(av', fixed', live[a := bucket'], b)
  {
    var live' := live[a := bucket'];
    if b < av'.nextBlock && CentralOwn(av', fixed', b) == 0 {
      if Own(av.blockSize, a, bucket', b) > 0 {
        assert a in live' && Own(av'.blockSize, a, live'[a], b) > 0;
      } else {
        assert b < av.nextBlock;
        var x :| x in live && Own(av.blockSize, x, live[x], b) > 0;
        assert x != a && x in live' && Own(av'.blockSize, x, live'[x], b) > 0;
      }
    }
  }

  lemma OwnedAfterSplit(av: Falloc.Avail, fixed: seq<Extent>, live: Live, fixed': seq<Extent>,
                        live': Live, a: nat, a0: nat, a1: nat, b: nat)
    requires ByteOwned(av, fixed, live, b) && a in live && SplitLive(live, live', a, a0, a1)
    requires CentralOwn(av, fixed', b)
             + Own(av.blockSize, a0, live'[a0], b) + Own(av.blockSize, a1, live'[a1], b)
          >= CentralOwn(av, fixed, b) + Own(av.blockSize, a, live[a], b)
    ensures ByteOwned(av, fixed', live', b)
  {
    if b < av.nextBlock && CentralOwn(av, fixed', b) == 0 {
      if Own(av.blockSize, a0, live'[a0], b) > 0 {
        assert a0 in live';
      } else if Own(av.blockSize, a1, live'[a1], b) > 0 {
        assert a1 in live';
      } else {
        var x :| x in live && Own(av.blockSize, x, live[x], b) > 0;
        assert x != a && x in live' && Own(av.blockSize, x, live'[x], b) > 0;
      }
    }
  }

  lemma AllocAccounted(av: Falloc.Avail, fixed: seq<Extent>, live: Live, a: nat, size: nat, lost: iset<nat>)
    requires Accounted(av, fixed, live, lost) && a in live && Falloc.Valid(Loaded(av, live[a]))
    ensures var (av', adr) := Falloc.Alloc(Loaded(av, live[a]), size);
      Accounted(Unloaded(av'), fixed + [Extent(size, adr)], live[a := live[a].(av := av'.bucket)], lost)
  {
    var al := Loaded(av, live[a]);
    var (av', adr) := Falloc.Alloc(al, size);
    var fixed' := fixed + [Extent(size, adr)];
    var bucket' := live[a].(av := av'.bucket);
    var un, live' := Unloaded(av'), live[a := bucket'];
    Falloc.AllocValid(al, size);
    forall b: nat | b !in lost ensures ByteOwned(un, fixed', live', b) {
      Falloc.AllocHeld(al, size, b);
      CoverAppend(fixed, Extent(size, adr), b);
      assert ByteOwned(av, fixed, live, b);
      OwnedAfterMove(av, fixed, live, un, fixed', a, bucket', b);
    }
  }

  lemma FreeAccounted(av: Falloc.Avail, fixed: seq<Extent>, e: Extent, live: Live, a: nat, lost: iset<nat>)
    requires Accounted(av, fixed + [e], live, lost) && a in live && Falloc.Valid(Loaded(av, live[a]))
    ensures var av' := Falloc.Free(Loaded(av, live[a]), e);
      Accounted(Unloaded(av'), fixed, live[a := live[a].(av := av'.bucket)], lost)
  {
    var al := Loaded(av, live[a]);
    var av' := Falloc.Free(al, e);
    var bucket' := live[a].(av := av'.bucket);
    var un, live' := Unloaded(av'), live[a := bucket'];
    Falloc.FreeValid(al, e);
    forall b: nat | b !in lost ensures ByteOwned(un, fixed, live', b) {
      Falloc.FreeHeld(al, e, b);
      CoverAppend(fixed, e, b);
      assert ByteOwned(av, fixed + [e], live, b);
      OwnedAfterMove(av, fixed + [e], live, un, fixed, a, bucket', b);
    }
  }

  /** The same owners: only flags of the allocator, or the order of the blocks held centrally, differ. */
  lemma SameOwners(av: Falloc.Avail, fixed: seq<Extent>, av': Falloc.Avail, fixed': seq<Extent>, live: Live, lost: iset<nat>)
    requires SpaceOk(av, fixed, live) && Accounted(av, fixed, live, lost)
    requires av'.blockSize == av.blockSize && av'.nextBlock == av.nextBlock && av'.capacity == av.capacity
    requires av'.header == av.header && av'.stack == av.stack && av'.past == av.past
    requires forall b: nat :: Cover(fixed', b) == Cover(fixed, b)
    ensures SpaceOk(av', fixed', live) && Accounted(av', fixed', live, lost)
  {
    forall b: nat ensures ByteOk(av', fixed', live, b) && (b !in lost ==> ByteOwned(av', fixed', live, b)) {
      assert ByteOk(av, fixed, live, b);
      assert b !in lost ==> ByteOwned(av, fixed, live, b);
      assert Falloc.Central(av', b) == Falloc.Central(av, b);
      assert CentralOwn(av', fixed', b) == CentralOwn(av, fixed, b);
    }
  }

  /** Of all live buckets exactly the one at `x` owns byte `b`. */
  ghost predicate OnlyOwner(blockSize: nat, live: Live, x: nat, b: nat) {
    x in live && forall a :: a in live ==> Own(blockSize, a, live[a], b) == if a == x then 1 else 0
  }

  ghost predicate NoOwner(blockSize: nat, live: Live, b: nat) {
    forall a :: a in live ==> Own(blockSize, a, live[a], b) == 0
  }

  /** A byte of the file that is not in `lost` has exactly one owner: it is held centrally, or one
      bucket owns it and no other. */
  lemma OneOwner(av: Falloc.Avail, fixed: seq<Extent>, live: Live, lost: iset<nat>, b: nat)
    requires SpaceOk(av, fixed, live) && Accounted(av, fixed, live, lost)
    requires b < av.nextBlock && b !in lost
    ensures (CentralOwn(av, fixed, b) == 1 && NoOwner(av.blockSize, live, b))
         || (CentralOwn(av, fixed, b) == 0 && exists x :: OnlyOwner(av.blockSize, live, x, b))
  {
    hide Own, CentralOwn;
    assert ByteOk(av, fixed, live, b) && ByteOwned(av, fixed, live, b);
    if CentralOwn(av, fixed, b) == 0 {
      var x :| x in live && Own(av.blockSize, x, live[x], b) > 0;
      forall a | a in live ensures Own(av.blockSize, a, live[a], b) == if a == x then 1 else 0 {
        if a != x {
          assert Own(av.blockSize, a, live[a], b) + Own(av.blockSize, x, live[x], b) <= 1;
        }
      }
      assert OnlyOwner(av.blockSize, live, x, b);
    }
  }

  // ------------------------------------------------------------------ consequences: disjointness

  predicate Clear(x: Extent, y: Extent) {
    x.size == 0 || y.size == 0 || x.adr + x.size <= y.adr || y.adr + y.size <= x.adr
  }

  /** The byte that two overlapping extents share. */
  function Common(x: Extent, y: Extent): (b: nat)
    ensures !Clear(x, y) ==> In(x, b) == 1 && In(y, b) == 1
  {
    if x.adr <= y.adr then y.adr else x.adr
  }

  lemma RecordIsCovered(t: seq<Element>, i: nat, b: nat)
    requires i < |t| && Used(t[i])
    ensures In(RecordExtent(t[i]), b) <= Sum(t, RecordCovers(b))
  {
    SumSplit(t, i, RecordCovers(b));
  }

  lemma BlocksClear(av: Falloc.Avail, fixed: seq<Extent>, live: Live, x: nat, y: nat)
    requires SpaceOk(av, fixed, live) && x in live && y in live && x != y
    ensures Clear(Extent(av.blockSize, x), Extent(av.blockSize, y))
  {
    var b := Common(Extent(av.blockSize, x), Extent(av.blockSize, y));
    assert ByteOk(av, fixed, live, b);
    assert Own(av.blockSize, x, live[x], b) + Own(av.blockSize, y, live[y], b) <= 1;
  }

  lemma BlockRecordClear(av: Falloc.Avail, fixed: seq<Extent>, live: Live, x: nat, y: nat, i: nat)
    requires SpaceOk(av, fixed, live) && x in live && y in live
    requires i < |live[y].table| && Used(live[y].table[i])
    ensures Clear(Extent(av.blockSize, x), RecordExtent(live[y].table[i]))
  {
    var r := RecordExtent(live[y].table[i]);
    var b := Common(Extent(av.blockSize, x), r);
    assert ByteOk(av, fixed, live, b);
    RecordIsCovered(live[y].table, i, b);
    if x != y {
      assert Own(av.blockSize, x, live[x], b) + Own(av.blockSize, y, live[y], b) <= 1;
    } else {
      assert Own(av.blockSize, x, live[x], b) + CentralOwn(av, fixed, b) <= 1;
    }
  }

  /** `e` is owned centrally: some byte count of the tables or of `fixed` includes it. */
  ghost predicate OwnedCentrally(av: Falloc.Avail, fixed: seq<Extent>, e: Extent) {
    forall b: nat :: In(e, b) <= CentralOwn(av, fixed, b)
  }

  lemma CentralBlockClear(av: Falloc.Avail, fixed: seq<Extent>, live: Live, e: Extent, x: nat)
    requires SpaceOk(av, fixed, live) && OwnedCentrally(av, fixed, e) && x in live
    ensures Clear(e, Extent(av.blockSize, x))
  {
    var b := Common(e, Extent(av.blockSize, x));
    assert ByteOk(av, fixed, live, b);
    assert Own(av.blockSize, x, live[x], b) + CentralOwn(av, fixed, b) <= 1;
  }

  lemma CentralRecordClear(av: Falloc.Avail, fixed: seq<Extent>, live: Live, e: Extent, y: nat, i: nat)
    requires SpaceOk(av, fixed, live) && OwnedCentrally(av, fixed, e) && y in live
    requires i < |live[y].table| && Used(live[y].table[i])
    ensures Clear(e, RecordExtent(live[y].table[i]))
  {
    var b := Common(e, RecordExtent(live[y].table[i]));
    assert ByteOk(av, fixed, live, b);
    RecordIsCovered(live[y].table, i, b);
    assert Own(av.blockSize, y, live[y], b) + CentralOwn(av, fixed, b) <= 1;
  }

  lemma FixedOwned(av: Falloc.Avail, fixed: seq<Extent>, k: nat)
    requires k < |fixed|
    ensures OwnedCentrally(av, fixed, fixed[k])
  {
    forall b: nat ensures In(fixed[k], b) <= CentralOwn(av, fixed, b) {
      CoverSplit(fixed, k, b);
    }
  }

  /** The file's bytes of the i-th block of the stack. */
  function StackExtent(av: Falloc.Avail, i: nat): Extent
    requires i < |av.stack|
  {
    Extent(Falloc.StackSize(av.capacity), av.stack[i].adr)
  }

  lemma StackOwned(av: Falloc.Avail, fixed: seq<Extent>, i: nat)
    requires i < |av.stack|
    ensures OwnedCentrally(av, fixed, StackExtent(av, i))
  {
    forall b: nat ensures In(StackExtent(av, i), b) <= CentralOwn(av, fixed, b) {
      Falloc.StackCovers(av.stack, Falloc.StackSize(av.capacity), i, b);
    }
  }

  /** `e` overlaps no block of the stack. */
  ghost predicate ClearOfStack(e: Extent, av: Falloc.Avail) {
    forall i :: 0 <= i < |av.stack| ==> Clear(e, StackExtent(av, i))
  }

  lemma FixedStackClear(av: Falloc.Avail, fixed: seq<Extent>, live: Live, k: nat)
    requires SpaceOk(av, fixed, live) && k < |fixed|
    ensures ClearOfStack(fixed[k], av)
  {
    forall i | 0 <= i < |av.stack| ensures Clear(fixed[k], StackExtent(av, i)) {
      var b := Common(fixed[k], StackExtent(av, i));
      assert ByteOk(av, fixed, live, b);
      CoverSplit(fixed, k, b);
      Falloc.StackCovers(av.stack, Falloc.StackSize(av.capacity), i, b);
    }
  }

  lemma BlockStackClear(av: Falloc.Avail, fixed: seq<Extent>, live: Live, a: nat)
    requires SpaceOk(av, fixed, live) && a in live
    ensures ClearOfStack(Extent(av.blockSize, a), av)
  {
    forall i | 0 <= i < |av.stack| ensures Clear(Extent(av.blockSize, a), StackExtent(av, i)) {
      StackOwned(av, fixed, i);
      CentralBlockClear(av, fixed, live, StackExtent(av, i), a);
    }
  }

  /** Two blocks of the stack do not overlap. */
  lemma StackBlocksClear(av: Falloc.Avail, fixed: seq<Extent>, live: Live, i: nat, j: nat)
    requires SpaceOk(av, fixed, live) && i < j < |av.stack|
    ensures Clear(StackExtent(av, i), StackExtent(av, j))
  {
    var b := Common(StackExtent(av, i), StackExtent(av, j));
    assert ByteOk(av, fixed, live, b);
    Falloc.StackCoversTwo(av.stack, Falloc.StackSize(av.capacity), i, j, b);
  }

  lemma FixedClear(av: Falloc.Avail, fixed: seq<Extent>, live: Live, j: nat, k: nat)
    requires SpaceOk(av, fixed, live) && j < k < |fixed|
    ensures Clear(fixed[j], fixed[k])
  {
    var b := Common(fixed[j], fixed[k]);
    assert ByteOk(av, fixed, live, b);
    CoverTwo(fixed, j, k, b);
  }

  /** A block held centrally is not the address of a live bucket. */
  lemma FixedNotLive(av: Falloc.Avail, fixed: seq<Extent>, live: Live, k: nat)
    requires SpaceOk(av, fixed, live) && k < |fixed|
    requires fixed[k].size > 0 && av.blockSize > 0
    ensures fixed[k].adr !in live
  {
    if fixed[k].adr in live {
      FixedOwned(av, fixed, k);
      CentralBlockClear(av, fixed, live, fixed[k], fixed[k].adr);
    }
  }
}
