/** How full the header's table of free extents gets: when a pop writes past its array, and what a
    push has to find for that never to happen (lib/gdbm/falloc.c:73-80, 173-276). */
module FallocCapacity {
  import opened Extents
  import opened Falloc

  /** The header's table and the halves on the stack are within their arrays. */
  ghost predicate Fits(a: Avail) {
    && |a.header| <= a.capacity
    && (forall i :: 0 <= i < |a.stack| ==> |a.stack[i].table| <= a.capacity / 2)
  }

  lemma {:induction false} ShedFits(a: Avail)
    requires Fits(a)
    ensures Fits(Shed(a)) && |Shed(a).header| <= |a.header| + 2 + (if |a.bucket| > 6 then |a.bucket| - 6 else 0)
    decreases |a.bucket|
  {
    if |a.bucket| > BUCKET_AVAIL - BUCKET_AVAIL / 3 && |a.header| < a.capacity {
      PutLength(a.header, a.bucket[0], a.coalesce);
      ShedFits(a.(header := Put(a.header, a.bucket[0], a.coalesce),
                  bucket := a.bucket[1..], bucketChanged := true));
    }
  }

  lemma AdjustFits(a: Avail)
    requires Fits(a)
    ensures Fits(Adjust(a)) && (|a.bucket| <= BUCKET_AVAIL ==> |Adjust(a).header| <= |a.header| + 2)
  {
    if |a.bucket| >= BUCKET_AVAIL / 3 {
      ShedFits(a);
    }
  }

  /** A free that does not push keeps the table within its array and adds at most three entries. */
  lemma FreeFitsDirect(a: Avail, e: Extent)
    requires Valid(a) && Fits(a) && |a.header| < a.capacity
    ensures Fits(Free(a, e)) && |Free(a, e).header| <= |a.header| + 3
  {
    if e.size <= IGNORE_SIZE {
    } else if e.size >= a.blockSize || a.centralFree || |a.bucket| >= BUCKET_AVAIL {
      PutLength(a.header, e, a.coalesce);
      AdjustFits(a.(header := Put(a.header, e, a.coalesce), headerChanged := true));
    } else {
      PutLength(a.bucket, e, a.coalesce);
      AdjustFits(a.(bucket := Put(a.bucket, e, a.coalesce)));
    }
  }

  /** The free nested in a push never pushes again: halving left room for it. */
  lemma PushIsNotNested(a: Avail)
    requires Valid(a) && Fits(a) && |a.header| == a.capacity
    ensures Halve(a).0.header != [] ==> |Halve(a).0.header| < a.capacity
    ensures |Halve(a).0.header| <= a.capacity / 2 < a.capacity
    ensures Fits(Halve(a).0)
    ensures |Push(a).header| <= a.capacity / 2 + 3 && (a.capacity >= 7 ==> |Push(a).header| < a.capacity)
    ensures Fits(Push(a))
  {
    var (a1, loc) := Halve(a);
    var st := a1.stack;
    forall i | 0 <= i < |st| ensures |st[i].table| <= a.capacity / 2 {
      if i > 0 { assert st[i] == a.stack[i - 1]; }
    }
    HalveValid(a);
    FreeFitsDirect(a1, Rest(loc, StackSize(a.capacity)));
  }

  /** Freeing never overruns the header's table (files have room for at least 7 entries). */
  lemma FreeFits(a: Avail, e: Extent)
    requires Valid(a) && Fits(a) && a.capacity >= 7
    ensures Fits(Free(a, e))
  {
    if |a.header| < a.capacity {
      FreeFitsDirect(a, e);
    } else if e.size > IGNORE_SIZE {
      if e.size >= a.blockSize || a.centralFree || |a.bucket| >= BUCKET_AVAIL {
        PushIsNotNested(a);
        PushValid(a);
        var a1 := Push(a);
        PutLength(a1.header, e, a1.coalesce);
        AdjustFits(a1.(header := Put(a1.header, e, a1.coalesce), headerChanged := true));
      } else {
        AdjustFits(a.(bucket := Put(a.bucket, e, a.coalesce)));
      }
    }
  }

  /** Popping keeps the header's table within its array when there is room, and with coalescing
      off exactly then. */
  lemma PopFitsExactly(a: Avail)
    requires Valid(a) && Fits(a) && a.stack != []
    ensures PopFits(a) ==> Fits(Pop(a))
    ensures !a.coalesce ==> (Fits(Pop(a)) <==> PopFits(a))
    ensures |a.header| <= a.capacity / 2 && a.capacity % 2 == 1 ==> PopFits(a)
  {
    var top := a.stack[0];
    assert Big(top.table);
    PutAllLength(a.header, top.table, a.coalesce);
    PutLength(PutAll(a.header, top.table, a.coalesce), Extent(StackSize(a.capacity), top.adr), a.coalesce);
  }

  /** An allocation keeps the header's table within its array unless it pops without room. */
  lemma AllocFits(a: Avail, size: nat)
    requires Valid(a) && Fits(a) && a.capacity >= 7
    requires WillPop(a, size) ==> PopFits(a)
    ensures Fits(Alloc(a, size).0)
  {
    if WillPop(a, size) {
      PopFitsExactly(a);
      PopValid(a);
    }
    SourceValid(a, size);
    var (a1, e) := Source(a, size);
    assert Fits(a1);
    FreeFits(a1, Rest(e, size));
  }

  /** When the table holds an odd number of entries no allocation can overrun it: the two halves
      and the popped block always fit. */
  lemma AllocFitsOdd(a: Avail, size: nat)
    requires Valid(a) && Fits(a) && a.capacity >= 7 && a.capacity % 2 == 1
    ensures Fits(Alloc(a, size).0)
  {
    if WillPop(a, size) {
      PopFitsExactly(a);
    }
    AllocFits(a, size);
  }

  // ------------------------------------------------------------------ when a pop has room

  /** No table on the stack is too long to be popped into a half-full header table. */
  predicate Roomy(a: Avail) {
    forall i :: 0 <= i < |a.stack| ==> !FullHalf(a.stack[i].table, a.capacity)
  }

  /** A pop without room takes a half-full table and a full half: the one case that can fail. */
  lemma PopRoomExactly(a: Avail, size: nat)
    requires Fits(a) && WillPop(a, size)
    ensures PopFits(a) <==> !(a.capacity % 2 == 0 && |a.header| == a.capacity / 2 == |a.stack[0].table|)
    ensures FullHalf(a.stack[0].table, a.capacity) <==> a.capacity % 2 == 0 && |a.stack[0].table| == a.capacity / 2
  {
    assert |a.stack[0].table| <= a.capacity / 2;
  }

  /** With no full half on the stack every pop has room. */
  lemma RoomyPops(a: Avail, size: nat)
    requires Roomy(a) && WillPop(a, size)
    ensures PopFits(a)
  {
    assert !FullHalf(a.stack[0].table, a.capacity);
  }

  /** A push of a full table of even capacity leaves a full half exactly when no entry of the header's
      table is large enough for the block that is pushed; one of odd capacity never does. */
  lemma PushStarvesExactly(a: Avail)
    requires a.blockSize > 0 && |a.header| == a.capacity
    ensures Halve(a).0.past.starved
      <==> a.past.starved || (a.capacity % 2 == 0 && FirstFit(a.header, StackSize(a.capacity)) == |a.header|)
    ensures !Halve(a).0.past.starved && Roomy(a) ==> Roomy(Halve(a).0)
  {
    var st := Halve(a).0.stack;
    assert forall i :: 0 < i < |st| ==> st[i] == a.stack[i - 1];
  }

  lemma {:induction false} ShedRoom(a: Avail)
    ensures var a' := Shed(a);
      a'.past.overrun == a.past.overrun && a'.past.starved == a.past.starved && a'.stack == a.stack && a'.capacity == a.capacity
    decreases |a.bucket|
  {
    if |a.bucket| > BUCKET_AVAIL - BUCKET_AVAIL / 3 && |a.header| < a.capacity {
      ShedRoom(a.(header := Put(a.header, a.bucket[0], a.coalesce),
                  bucket := a.bucket[1..], bucketChanged := true));
    }
  }

  lemma AdjustRoom(a: Avail)
    ensures var a' := Adjust(a);
      a'.past.overrun == a.past.overrun && a'.past.starved == a.past.starved && a'.stack == a.stack && a'.capacity == a.capacity
  {
    if |a.bucket| >= BUCKET_AVAIL / 3 {
      ShedRoom(a);
    }
  }

  /** A free overruns nothing; it leaves no full half behind unless it says so, and without a push
      it leaves the stack alone. */
  lemma {:induction false} FreeRoom(a: Avail, e: Extent)
    requires a.blockSize > 0 && a.capacity > 0
    ensures var a' := Free(a, e);
      && a'.past.overrun == a.past.overrun && (a.past.starved ==> a'.past.starved) && a'.capacity == a.capacity
      && (Roomy(a) && !a'.past.starved ==> Roomy(a'))
      && (|a.header| < a.capacity ==> a'.stack == a.stack && a'.past.starved == a.past.starved)
    decreases if |a.header| == a.capacity then 2 else 0
  {
    if e.size <= IGNORE_SIZE {
    } else if e.size >= a.blockSize || a.centralFree || |a.bucket| >= BUCKET_AVAIL {
      var a1 := a;
      if |a.header| == a.capacity {
        PushRoom(a);
        a1 := Push(a);
      }
      AdjustRoom(a1.(header := Put(a1.header, e, a1.coalesce), headerChanged := true));
    } else {
      AdjustRoom(a.(bucket := Put(a.bucket, e, a.coalesce)));
    }
  }

  lemma {:induction false} PushRoom(a: Avail)
    requires a.blockSize > 0 && a.capacity > 0 && |a.header| == a.capacity
    ensures var a' := Push(a);
      && a'.past.overrun == a.past.overrun && (a.past.starved ==> a'.past.starved) && a'.capacity == a.capacity
      && (Roomy(a) && !a'.past.starved ==> Roomy(a'))
    decreases 1
  {
    PushStarvesExactly(a);
    var (a1, loc) := Halve(a);
    FreeRoom(a1, Rest(loc, StackSize(a.capacity)));
  }

  lemma SourceRoom(a: Avail, size: nat)
    requires a.blockSize > 0
    ensures var a' := Source(a, size).0;
      && (a'.past.overrun <==> a.past.overrun || (WillPop(a, size) && !PopFits(a)))
      && a'.past.starved == a.past.starved && a'.capacity == a.capacity && a'.blockSize == a.blockSize
      && (Roomy(a) ==> Roomy(a'))
  {
    hide FullHalf, Pop, FromHeader, Roomy;
    var a0 := a;
    if WillPop(a, size) {
      PopRoom(a);
      a0 := Pop(a);
    }
    FromHeaderRoom(a0, size);
    RoomyStack(a, a.(bucket := TakeFit(a.bucket, size)));
    RoomyStack(a0, Source(a, size).0);
  }

  lemma RoomyStack(a: Avail, a': Avail)
    ensures a'.stack == a.stack && a'.capacity == a.capacity && Roomy(a) ==> Roomy(a')
  {
  }

  lemma PopRoom(a: Avail)
    requires a.stack != []
    ensures var a' := Pop(a);
      && (a'.past.overrun <==> a.past.overrun || !PopFits(a))
      && a'.past.starved == a.past.starved && a'.capacity == a.capacity && a'.blockSize == a.blockSize
      && a'.bucket == a.bucket && (Roomy(a) ==> Roomy(a'))
  {
    hide FullHalf, Put, PutAll;
    var st := Pop(a).stack;
    assert forall i :: 0 <= i < |st| ==> st[i] == a.stack[i + 1];
  }

  lemma FromHeaderRoom(a: Avail, size: nat)
    requires a.blockSize > 0
    ensures var a' := FromHeader(a, size).0;
      a'.past == a.past && a'.stack == a.stack && a'.capacity == a.capacity && a'.blockSize == a.blockSize
  {
  }

  lemma {:induction false} ShedSameEnd(a: Avail)
    ensures Shed(a).nextBlock == a.nextBlock
    decreases |a.bucket|
  {
    if |a.bucket| > BUCKET_AVAIL - BUCKET_AVAIL / 3 && |a.header| < a.capacity {
      ShedSameEnd(a.(header := Put(a.header, a.bucket[0], a.coalesce),
                     bucket := a.bucket[1..], bucketChanged := true));
    }
  }

  /** The file never shrinks. */
  lemma {:induction false} FreeGrows(a: Avail, e: Extent)
    requires a.blockSize > 0 && a.capacity > 0
    ensures Free(a, e).nextBlock >= a.nextBlock
    decreases if |a.header| == a.capacity then 2 else 0
  {
    hide Shed, Put;
    if e.size <= IGNORE_SIZE {
    } else if e.size >= a.blockSize || a.centralFree || |a.bucket| >= BUCKET_AVAIL {
      var a1 := a;
      if |a.header| == a.capacity {
        FreeGrows(Halve(a).0, Rest(Halve(a).1, StackSize(a.capacity)));
        a1 := Push(a);
      }
      ShedSameEnd(a1.(header := Put(a1.header, e, a1.coalesce), headerChanged := true));
    } else {
      ShedSameEnd(a.(bucket := Put(a.bucket, e, a.coalesce)));
    }
  }

  lemma AllocGrows(a: Avail, size: nat)
    requires a.blockSize > 0 && a.capacity > 0
    ensures Alloc(a, size).0.nextBlock >= a.nextBlock
  {
    hide Free;
    var (a1, e) := Source(a, size);
    FreeGrows(a1, Rest(e, size));
  }

  /** An allocation overruns the header's table exactly when it pops without room. */
  lemma AllocRoom(a: Avail, size: nat)
    requires a.blockSize > 0 && a.capacity > 0
    ensures var a' := Alloc(a, size).0;
      && a'.capacity == a.capacity
      && (a'.past.overrun <==> a.past.overrun || (WillPop(a, size) && !PopFits(a)))
      && (a.past.starved ==> a'.past.starved)
      && (Roomy(a) && !a'.past.starved ==> Roomy(a'))
  {
    hide Source, Free, Roomy;
    SourceRoom(a, size);
    var (a1, e) := Source(a, size);
    FreeRoom(a1, Rest(e, size));
  }

  // ------------------------------------------------------------------ what every run keeps

  /** While no pop has overrun it the header's table is within its array; and while no push has
      left a full half behind, no pop can overrun it. */
  ghost predicate Bounded(a: Avail) {
    && a.capacity >= 7
    && (!a.past.overrun ==> Fits(a))
    && (!a.past.starved ==> Roomy(a) && !a.past.overrun)
  }

  lemma FreeBounded(a: Avail, e: Extent)
    requires Valid(a) && Bounded(a)
    ensures Bounded(Free(a, e))
  {
    FreeRoom(a, e);
    if !a.past.overrun {
      FreeFits(a, e);
    }
  }

  lemma AllocBounded(a: Avail, size: nat)
    requires Valid(a) && Bounded(a)
    ensures Bounded(Alloc(a, size).0)
  {
    AllocRoom(a, size);
    if !Alloc(a, size).0.past.overrun {
      AllocFits(a, size);
    }
    if !a.past.starved && WillPop(a, size) {
      RoomyPops(a, size);
    }
  }

  /** What a caller can check before an allocation: without a full half on the stack it has room. */
  lemma RoomyAllocates(a: Avail, size: nat)
    requires Valid(a) && Fits(a) && a.capacity >= 7 && Roomy(a)
    ensures Fits(Alloc(a, size).0) && Alloc(a, size).0.past.overrun == a.past.overrun
  {
    AllocRoom(a, size);
    if WillPop(a, size) {
      RoomyPops(a, size);
    }
    AllocFits(a, size);
  }
}
