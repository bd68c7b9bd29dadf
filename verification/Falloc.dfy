/** The three-level free-space allocator of lib/gdbm/falloc.c: the current bucket's table,
    the header's table, and an on-disk stack of tables split off the header's.

    This module gives the allocator as functions on a value and proves what every run of it
    keeps.  AvailTables.dfy proves that the routines working in place on arrays and on the
    linked blocks of the file compute these functions. */
module Falloc {
  import opened Extents

  // Sizes of the C structures with four-byte off_t (lib/gdbm/gdbmdefs.h:48-63).
  const AVAIL_ELEM_SIZE: nat := 8
  const AVAIL_BLOCK_SIZE: nat := 20

  const BUCKET_AVAIL: nat := 6

  datatype StackBlock = StackBlock(adr: nat, table: seq<Extent>)

  /** History that the code does not keep: `crumbs` are the remnants it ignored, `dropped` the
      entries lost when an odd-sized table was split, `writes` the extents of the file it wrote
      stack blocks to, `overrun` that a pop wrote past the end of the header's array, and `starved`
      that a push left a half on the stack which a half-full header table would have no room for. */
  datatype Past = Past(crumbs: seq<Extent>, dropped: seq<Extent>, writes: seq<Extent>, overrun: bool, starved: bool)

  const NO_PAST := Past([], [], [], false, false)

  /** `header`, `stack` and `nextBlock` are the header's free-space fields, `bucket` the table of
      the current bucket.  Once `past.overrun` is set, `header` is longer than the array of the code,
      and the value no longer stands for what the code has. */
  datatype Avail = Avail(
    blockSize: nat, capacity: nat, centralFree: bool, coalesce: bool,
    header: seq<Extent>, stack: seq<StackBlock>, nextBlock: nat, bucket: seq<Extent>,
    headerChanged: bool, bucketChanged: bool, past: Past)

  /** Bytes of one block of the on-disk stack. */
  function StackSize(capacity: nat): (n: nat)
    ensures n > IGNORE_SIZE
  {
    capacity * AVAIL_ELEM_SIZE / 2 + AVAIL_BLOCK_SIZE
  }

  ghost predicate Valid(a: Avail) {
    && a.capacity > 0
    && a.blockSize > 0
    && Big(a.header)
    && Big(a.bucket)
    && (forall i :: 0 <= i < |a.stack| ==> Big(a.stack[i].table))
    && |a.bucket| <= BUCKET_AVAIL
    && (forall i :: 0 <= i < |a.past.crumbs| ==> a.past.crumbs[i].size <= IGNORE_SIZE)
  }

  /** Parameters fixed when the file is opened. */
  predicate SameParameters(a: Avail, a': Avail) {
    && a'.blockSize == a.blockSize
    && a'.capacity == a.capacity
    && a'.centralFree == a.centralFree
    && a'.coalesce == a.coalesce
  }

  // ------------------------------------------------------------------ the routines

  /** Whole blocks enough for `size` bytes, at least one: what get_block adds to the file. */
  function BlockBytes(blockSize: nat, size: nat): (n: nat)
    requires blockSize > 0
    ensures n >= blockSize && n >= size
    ensures n > blockSize ==> n < size + blockSize
  {
    if size <= blockSize then blockSize else blockSize + BlockBytes(blockSize, size - blockSize)
  }

  function GetBlock(a: Avail, size: nat): (Avail, Extent)
    requires a.blockSize > 0
  {
    var n := BlockBytes(a.blockSize, size);
    (a.(nextBlock := a.nextBlock + n, headerChanged := true), Extent(n, a.nextBlock))
  }

  /** An extent of at least `size` bytes from the header's table, else from the end of the file. */
  function FromHeader(a: Avail, size: nat): (r: (Avail, Extent))
    requires a.blockSize > 0
    ensures r.1.size >= size
  {
    var i := FirstFit(a.header, size);
    if i < |a.header| then (a.(header := TakeFit(a.header, size)), a.header[i])
    else GetBlock(a, size)
  }

  function Evens(t: seq<Extent>): (r: seq<Extent>)
    ensures |r| == |t| / 2
  {
    if |t| < 2 then [] else [t[0]] + Evens(t[2..])
  }

  function Odds(t: seq<Extent>): (r: seq<Extent>)
    ensures |r| == |t| / 2
  {
    if |t| < 2 then [] else [t[1]] + Odds(t[2..])
  }

  /** The entry that the halving of an odd-sized table loses. */
  function OddOne(t: seq<Extent>): seq<Extent> {
    if |t| % 2 == 1 then [t[|t| - 1]] else []
  }

  /** A table that a header's table half full has no room for, together with the block it came in. */
  predicate FullHalf(t: seq<Extent>, capacity: nat) {
    capacity / 2 + |t| + 1 > capacity
  }

  /** Room in the header's table for the popped entries and the popped block itself. */
  predicate PopFits(a: Avail)
    requires a.stack != []
  {
    |a.header| + |a.stack[0].table| + 1 <= a.capacity
  }

  /** What halving the header's table and writing the other half to `block` adds to the history. */
  function HalvedPast(a: Avail, block: Extent): Past {
    a.past.(dropped := a.past.dropped + OddOne(a.header),
            writes := a.past.writes + [block],
            starved := a.past.starved || FullHalf(Odds(a.header), a.capacity))
  }

  /** push_avail_block up to, and without, giving back the rest of the extent it took. */
  function Halve(a: Avail): (r: (Avail, Extent))
    requires a.blockSize > 0
    ensures |r.0.header| <= |a.header| / 2
    ensures r.1.size >= StackSize(a.capacity)
    ensures SameParameters(a, r.0)
  {
    var ss := StackSize(a.capacity);
    var (a1, loc) := FromHeader(a, ss);
    (a1.(header := Evens(a1.header),
         stack := [StackBlock(loc.adr, Odds(a1.header))] + a1.stack,
         past := HalvedPast(a1, Extent(ss, loc.adr))),
     loc)
  }

  /** What is left of `loc` after its first `size` bytes are used. */
  function Rest(loc: Extent, size: nat): Extent
    requires loc.size >= size
  {
    Extent(loc.size - size, loc.adr + size)
  }

  function Push(a: Avail): Avail
    requires a.blockSize > 0 && a.capacity > 0 && |a.header| == a.capacity
    decreases 1
  {
    var (a1, loc) := Halve(a);
    Free(a1, Rest(loc, StackSize(a.capacity)))
  }

  function Free(a: Avail, e: Extent): Avail
    requires a.blockSize > 0 && a.capacity > 0
    decreases if |a.header| == a.capacity then 2 else 0
  {
    if e.size <= IGNORE_SIZE then a.(past := a.past.(crumbs := a.past.crumbs + [e]))
    else
      var a2 :=
        if e.size >= a.blockSize || a.centralFree || |a.bucket| >= BUCKET_AVAIL then
          var a1 := if |a.header| == a.capacity then Push(a) else a;
          a1.(header := Put(a1.header, e, a1.coalesce), headerChanged := true)
        else
          a.(bucket := Put(a.bucket, e, a.coalesce));
      if a2.headerChanged then Adjust(a2) else a2
  }

  /** adjust_bucket_avail: keep the current bucket's table between a third and two thirds full. */
  function Adjust(a: Avail): Avail {
    if |a.bucket| < BUCKET_AVAIL / 3 then
      if |a.header| > 0 then
        a.(header := a.header[..|a.header| - 1],
           bucket := Put(a.bucket, a.header[|a.header| - 1], a.coalesce),
           bucketChanged := true)
      else a
    else Shed(a)
  }

  /** The loop of adjust_bucket_avail that moves the bucket's smallest entries to the header. */
  function Shed(a: Avail): Avail
    decreases |a.bucket|
  {
    if |a.bucket| > BUCKET_AVAIL - BUCKET_AVAIL / 3 && |a.header| < a.capacity then
      Shed(a.(header := Put(a.header, a.bucket[0], a.coalesce),
              bucket := a.bucket[1..],
              bucketChanged := true))
    else a
  }

  function Pop(a: Avail): Avail
    requires a.stack != []
  {
    var top := a.stack[0];
    a.(header := Put(PutAll(a.header, top.table, a.coalesce),
                     Extent(StackSize(a.capacity), top.adr), a.coalesce),
       stack := a.stack[1..],
       headerChanged := true,
       past := a.past.(overrun := a.past.overrun || !PopFits(a)))
  }

  /** The condition under which _gdbm_alloc takes the top block off the stack. */
  predicate WillPop(a: Avail, size: nat) {
    && FirstFit(a.bucket, size) == |a.bucket|
    && |a.header| <= a.capacity / 2
    && a.stack != []
  }

  /** The extent _gdbm_alloc carves the request from. */
  function Source(a: Avail, size: nat): (r: (Avail, Extent))
    requires a.blockSize > 0
    ensures r.1.size >= size
  {
    var i := FirstFit(a.bucket, size);
    if i < |a.bucket| then (a.(bucket := TakeFit(a.bucket, size)), a.bucket[i])
    else
      var (a1, e) := FromHeader(if WillPop(a, size) then Pop(a) else a, size);
      (a1.(headerChanged := true), e)
  }

  function Alloc(a: Avail, size: nat): (Avail, nat)
    requires a.blockSize > 0 && a.capacity > 0
  {
    var (a1, e) := Source(a, size);
    (Free(a1, Rest(e, size)), e.adr)
  }

  // ------------------------------------------------------------------ byte accounting

  function StackCover(st: seq<StackBlock>, blockBytes: nat, b: nat): nat {
    if st == [] then 0
    else In(Extent(blockBytes, st[0].adr), b) + Cover(st[0].table, b) + StackCover(st[1..], blockBytes, b)
  }

  lemma {:induction false} StackCovers(st: seq<StackBlock>, blockBytes: nat, i: nat, b: nat)
    requires i < |st|
    ensures In(Extent(blockBytes, st[i].adr), b) <= StackCover(st, blockBytes, b)
  {
    if i > 0 {
      StackCovers(st[1..], blockBytes, i - 1, b);
    }
  }

  lemma {:induction false} StackCoversTwo(st: seq<StackBlock>, blockBytes: nat, i: nat, j: nat, b: nat)
    requires i < j < |st|
    ensures In(Extent(blockBytes, st[i].adr), b) + In(Extent(blockBytes, st[j].adr), b)
         <= StackCover(st, blockBytes, b)
  {
    if i == 0 {
      StackCovers(st[1..], blockBytes, j - 1, b);
    } else {
      StackCoversTwo(st[1..], blockBytes, i - 1, j - 1, b);
    }
  }

  /** How often byte `b` is held by the header's table, the stack, or history. */
  function Central(a: Avail, b: nat): nat {
    Cover(a.header, b) + StackCover(a.stack, StackSize(a.capacity), b)
    + Cover(a.past.crumbs, b) + Cover(a.past.dropped, b)
  }

  function Held(a: Avail, b: nat): nat {
    Central(a, b) + Cover(a.bucket, b)
  }

  /** 1 exactly for the bytes by which the file grew. */
  function Fresh(a: Avail, a': Avail, b: nat): nat {
    if a.nextBlock <= b < a'.nextBlock then 1 else 0
  }

  lemma {:induction false} HalvesCover(t: seq<Extent>, b: nat)
    ensures Cover(Evens(t), b) + Cover(Odds(t), b) + Cover(OddOne(t), b) == Cover(t, b)
  {
    if |t| == 1 {
      assert OddOne(t) == t;
    } else if |t| >= 2 {
      HalvesCover(t[2..], b);
      assert t[1..][1..] == t[2..];
      assert OddOne(t[2..]) == OddOne(t);
      assert Evens(t)[1..] == Evens(t[2..]) && Odds(t)[1..] == Odds(t[2..]);
    }
  }

  lemma {:induction false} HalvesBig(t: seq<Extent>)
    requires Big(t)
    ensures Big(Evens(t)) && Big(Odds(t))
  {
    if |t| >= 2 {
      HalvesBig(t[2..]);
    }
  }

  // ------------------------------------------------------------------ well-formedness

  lemma FromHeaderValid(a: Avail, size: nat)
    requires Valid(a)
    ensures var (a', e) := FromHeader(a, size);
      Valid(a') && SameParameters(a, a') && a'.nextBlock >= a.nextBlock && e.size > 0
  {
  }

  lemma HalveValid(a: Avail)
    requires Valid(a)
    ensures var (a', loc) := Halve(a); Valid(a') && a'.nextBlock >= a.nextBlock
  {
    var ss := StackSize(a.capacity);
    FromHeaderValid(a, ss);
    var a1 := FromHeader(a, ss).0;
    HalvesBig(a1.header);
    var st := Halve(a).0.stack;
    assert st[1..] == a.stack;
    forall i | 0 <= i < |st| ensures Big(st[i].table) {
      if i > 0 { assert st[i] == a.stack[i - 1]; }
    }
  }

  lemma {:induction false} ShedValid(a: Avail)
    requires Valid(a)
    ensures var a' := Shed(a);
      Valid(a') && SameParameters(a, a') && a'.nextBlock == a.nextBlock
    decreases |a.bucket|
  {
    if |a.bucket| > BUCKET_AVAIL - BUCKET_AVAIL / 3 && |a.header| < a.capacity {
      PutBig(a.header, a.bucket[0], a.coalesce);
      ShedValid(a.(header := Put(a.header, a.bucket[0], a.coalesce),
                   bucket := a.bucket[1..], bucketChanged := true));
    }
  }

  lemma AdjustValid(a: Avail)
    requires Valid(a)
    ensures var a' := Adjust(a);
      Valid(a') && SameParameters(a, a') && a'.nextBlock == a.nextBlock
  {
    if |a.bucket| < BUCKET_AVAIL / 3 {
      if |a.header| > 0 {
        var e := a.header[|a.header| - 1];
        PutBig(a.bucket, e, a.coalesce);
        PutLength(a.bucket, e, a.coalesce);
      }
    } else {
      ShedValid(a);
    }
  }

  lemma {:induction false} FreeValid(a: Avail, e: Extent)
    requires Valid(a)
    ensures var a' := Free(a, e); Valid(a') && SameParameters(a, a') && a'.nextBlock >= a.nextBlock
    decreases if |a.header| == a.capacity then 2 else 0
  {
    if e.size <= IGNORE_SIZE {
    } else if e.size >= a.blockSize || a.centralFree || |a.bucket| >= BUCKET_AVAIL {
      var a1 := a;
      if |a.header| == a.capacity {
        PushValid(a);
        a1 := Push(a);
      }
      PutBig(a1.header, e, a1.coalesce);
      AdjustValid(a1.(header := Put(a1.header, e, a1.coalesce), headerChanged := true));
    } else {
      PutBig(a.bucket, e, a.coalesce);
      PutLength(a.bucket, e, a.coalesce);
      AdjustValid(a.(bucket := Put(a.bucket, e, a.coalesce)));
    }
  }

  lemma {:induction false} PushValid(a: Avail)
    requires Valid(a) && |a.header| == a.capacity
    ensures var a' := Push(a); Valid(a') && SameParameters(a, a') && a'.nextBlock >= a.nextBlock
    decreases 1
  {
    HalveValid(a);
    var (a1, loc) := Halve(a);
    FreeValid(a1, Rest(loc, StackSize(a.capacity)));
  }

  lemma PopValid(a: Avail)
    requires Valid(a) && a.stack != []
    ensures Valid(Pop(a)) && SameParameters(a, Pop(a))
  {
    var top := a.stack[0];
    PutAllBig(a.header, top.table, a.coalesce);
    PutBig(PutAll(a.header, top.table, a.coalesce), Extent(StackSize(a.capacity), top.adr), a.coalesce);
  }

  lemma SourceValid(a: Avail, size: nat)
    requires Valid(a)
    ensures var (a', e) := Source(a, size);
      Valid(a') && SameParameters(a, a') && a'.nextBlock >= a.nextBlock && e.size > 0
  {
    if FirstFit(a.bucket, size) == |a.bucket| {
      if WillPop(a, size) {
        PopValid(a);
      }
      FromHeaderValid(if WillPop(a, size) then Pop(a) else a, size);
    }
  }

  lemma AllocValid(a: Avail, size: nat)
    requires Valid(a)
    ensures var a' := Alloc(a, size).0; Valid(a') && SameParameters(a, a') && a'.nextBlock >= a.nextBlock
  {
    SourceValid(a, size);
    var (a1, e) := Source(a, size);
    FreeValid(a1, Rest(e, size));
  }

  // ------------------------------------------------------------------ conservation

  lemma FromHeaderHeld(a: Avail, size: nat, b: nat)
    requires a.blockSize > 0
    ensures var (a', e) := FromHeader(a, size);
      Held(a', b) + In(e, b) == Held(a, b) + Fresh(a, a', b)
  {
    if FirstFit(a.header, size) < |a.header| {
      TakeCover(a.header, size, b);
    }
  }

  lemma HalveHeld(a: Avail, b: nat)
    requires a.blockSize > 0
    ensures var (a', loc) := Halve(a);
      Held(a', b) + In(Rest(loc, StackSize(a.capacity)), b) == Held(a, b) + Fresh(a, a', b)
  {
    var ss := StackSize(a.capacity);
    FromHeaderHeld(a, ss, b);
    var (a1, loc) := FromHeader(a, ss);
    HalvesCover(a1.header, b);
    CoverConcat(a1.past.dropped, OddOne(a1.header), b);
    var a' := Halve(a).0;
    assert a'.stack[1..] == a1.stack;
  }

  lemma {:induction false} ShedHeld(a: Avail, b: nat)
    requires Valid(a)
    ensures Held(Shed(a), b) == Held(a, b)
    decreases |a.bucket|
  {
    if |a.bucket| > BUCKET_AVAIL - BUCKET_AVAIL / 3 && |a.header| < a.capacity {
      PutCover(a.header, a.bucket[0], a.coalesce, b);
      PutBig(a.header, a.bucket[0], a.coalesce);
      ShedHeld(a.(header := Put(a.header, a.bucket[0], a.coalesce),
                  bucket := a.bucket[1..], bucketChanged := true), b);
    }
  }

  lemma AdjustHeld(a: Avail, b: nat)
    requires Valid(a)
    ensures Held(Adjust(a), b) == Held(a, b)
  {
    if |a.bucket| < BUCKET_AVAIL / 3 {
      if |a.header| > 0 {
        var n := |a.header| - 1;
        var e := a.header[n];
        assert a.header == a.header[..n] + [e];
        CoverAppend(a.header[..n], e, b);
        PutCover(a.bucket, e, a.coalesce, b);
      }
    } else {
      ShedHeld(a, b);
    }
  }

  /** Freeing adds exactly the freed bytes to what is held (or remembered as lost), whatever
      table they end up in and whatever blocks are pushed or merged on the way. */
  lemma {:induction false} FreeHeld(a: Avail, e: Extent, b: nat)
    requires Valid(a)
    ensures Held(Free(a, e), b) == Held(a, b) + In(e, b) + Fresh(a, Free(a, e), b)
    decreases if |a.header| == a.capacity then 2 else 0
  {
    if e.size <= IGNORE_SIZE {
      CoverAppend(a.past.crumbs, e, b);
    } else if e.size >= a.blockSize || a.centralFree || |a.bucket| >= BUCKET_AVAIL {
      var a1 := a;
      if |a.header| == a.capacity {
        PushHeld(a, b);
        PushValid(a);
        a1 := Push(a);
      }
      PutHeaderHeld(a1, e, b);
    } else {
      PutBucketHeld(a, e, b);
    }
  }

  lemma PutHeaderHeld(a: Avail, e: Extent, b: nat)
    requires Valid(a) && e.size > IGNORE_SIZE
    ensures var a' := a.(header := Put(a.header, e, a.coalesce), headerChanged := true);
      Held(Adjust(a'), b) == Held(a, b) + In(e, b) && Adjust(a').nextBlock == a.nextBlock
  {
    PutCover(a.header, e, a.coalesce, b);
    PutBig(a.header, e, a.coalesce);
    var a' := a.(header := Put(a.header, e, a.coalesce), headerChanged := true);
    AdjustHeld(a', b);
    AdjustValid(a');
  }

  lemma PutBucketHeld(a: Avail, e: Extent, b: nat)
    requires Valid(a) && e.size > IGNORE_SIZE && |a.bucket| < BUCKET_AVAIL
    ensures var a' := a.(bucket := Put(a.bucket, e, a.coalesce));
      && Held(a', b) == Held(a, b) + In(e, b)
      && Held(Adjust(a'), b) == Held(a', b) && Adjust(a').nextBlock == a.nextBlock
  {
    PutCover(a.bucket, e, a.coalesce, b);
    PutBig(a.bucket, e, a.coalesce);
    PutLength(a.bucket, e, a.coalesce);
    var a' := a.(bucket := Put(a.bucket, e, a.coalesce));
    AdjustHeld(a', b);
    AdjustValid(a');
  }

  lemma {:induction false} PushHeld(a: Avail, b: nat)
    requires Valid(a) && |a.header| == a.capacity
    ensures Held(Push(a), b) == Held(a, b) + Fresh(a, Push(a), b)
    decreases 1
  {
    HalveHeld(a, b);
    HalveValid(a);
    var (a1, loc) := Halve(a);
    FreeHeld(a1, Rest(loc, StackSize(a.capacity)), b);
    FreeValid(a1, Rest(loc, StackSize(a.capacity)));
  }

  lemma PopHeld(a: Avail, b: nat)
    requires Valid(a) && a.stack != []
    ensures Held(Pop(a), b) == Held(a, b)
  {
    var top := a.stack[0];
    var h := PutAll(a.header, top.table, a.coalesce);
    PutAllCover(a.header, top.table, a.coalesce, b);
    PutCover(h, Extent(StackSize(a.capacity), top.adr), a.coalesce, b);
  }

  lemma SourceHeld(a: Avail, size: nat, b: nat)
    requires Valid(a)
    ensures var (a', e) := Source(a, size);
      Held(a', b) + In(e, b) == Held(a, b) + Fresh(a, a', b)
  {
    if FirstFit(a.bucket, size) < |a.bucket| {
      TakeCover(a.bucket, size, b);
    } else {
      var a0 := a;
      if WillPop(a, size) {
        PopHeld(a, b);
        a0 := Pop(a);
      }
      FromHeaderHeld(a0, size, b);
    }
  }

  /** The conservation law of an allocation: byte by byte, what is held afterwards together with
      the extent handed out is what was held before together with the growth of the file. */
  lemma AllocHeld(a: Avail, size: nat, b: nat)
    requires Valid(a)
    ensures var (a', adr) := Alloc(a, size);
      Held(a', b) + In(Extent(size, adr), b) == Held(a, b) + Fresh(a, a', b)
  {
    SourceHeld(a, size, b);
    SourceValid(a, size);
    var (a1, e) := Source(a, size);
    FreeHeld(a1, Rest(e, size), b);
    FreeValid(a1, Rest(e, size));
  }
}
