/** What every run of the allocator keeps: no byte is ever held twice, the header's table stays
    within its array until a pop overruns it, and tables stay sorted. */
module FallocRuns {
  import opened Extents
  import opened Falloc
  import opened FallocCapacity

  // ------------------------------------------------------------------ runs

  /** The allocator together with the extents its callers hold and the tables of the buckets
      that are not current. */
  datatype World = World(a: Avail, live: seq<Extent>, parked: seq<seq<Extent>>)

  datatype Request =
    | AllocReq(size: nat)
    | FreeReq(i: nat)       // give back the i-th live extent
    | SwitchReq(i: nat)     // make the bucket with the i-th parked table current
    | BucketReq(i: nat)     // the i-th live extent is the free space of another, new bucket
    | FlushReq              // end of an update: the header has been written

  function Without<T>(s: seq<T>, i: nat): seq<T>
    requires i < |s|
  {
    s[..i] + s[i + 1..]
  }

  function Step(w: World, r: Request): World
    requires w.a.blockSize > 0 && w.a.capacity > 0
  {
    match r
    case AllocReq(size) =>
      var (a', adr) := Alloc(w.a, size);
      w.(a := a', live := w.live + [Extent(size, adr)])
    case FreeReq(i) =>
      if i < |w.live| then World(Free(w.a, w.live[i]), Without(w.live, i), w.parked) else w
    case SwitchReq(i) =>
      if i < |w.parked| then
        w.(a := w.a.(bucket := w.parked[i]), parked := w.parked[i := w.a.bucket])
      else w
    case BucketReq(i) =>
      if i < |w.live| && w.live[i].size > IGNORE_SIZE then
        World(w.a, Without(w.live, i), w.parked + [[w.live[i]]])
      else w
    case FlushReq => w.(a := w.a.(headerChanged := false, bucketChanged := false))
  }

  function ParkedCover(parked: seq<seq<Extent>>, b: nat): nat {
    if parked == [] then 0 else Cover(parked[0], b) + ParkedCover(parked[1..], b)
  }

  /** Every byte of the file is held exactly once, every byte beyond its end not at all. */
  ghost predicate Partitioned(w: World, b: nat) {
    Held(w.a, b) + Cover(w.live, b) + ParkedCover(w.parked, b) == if b < w.a.nextBlock then 1 else 0
  }

  ghost predicate WorldOk(w: World) {
    && Valid(w.a) && Bounded(w.a)
    && (forall i :: 0 <= i < |w.parked| ==> Big(w.parked[i]) && |w.parked[i]| <= BUCKET_AVAIL)
    && (forall b: nat :: Partitioned(w, b))
  }

  lemma {:induction false} ParkedUpdate(parked: seq<seq<Extent>>, i: nat, t: seq<Extent>, b: nat)
    requires i < |parked|
    ensures ParkedCover(parked[i := t], b) + Cover(parked[i], b) == ParkedCover(parked, b) + Cover(t, b)
  {
    if i == 0 {
      assert parked[i := t][1..] == parked[1..];
    } else {
      ParkedUpdate(parked[1..], i - 1, t, b);
      assert parked[i := t][1..] == parked[1..][i - 1 := t];
    }
  }

  lemma {:induction false} ParkedAppend(parked: seq<seq<Extent>>, t: seq<Extent>, b: nat)
    ensures ParkedCover(parked + [t], b) == ParkedCover(parked, b) + Cover(t, b)
  {
    if parked == [] {
      assert (parked + [t])[1..] == [];
    } else {
      ParkedAppend(parked[1..], t, b);
      assert (parked + [t])[1..] == parked[1..] + [t];
    }
  }

  lemma WithoutCover(live: seq<Extent>, i: nat, b: nat)
    requires i < |live|
    ensures Cover(Without(live, i), b) + In(live[i], b) == Cover(live, b)
  {
    CoverSplit(live, i, b);
    CoverConcat(live[..i], live[i + 1..], b);
  }

  lemma StepPartitioned(w: World, r: Request, b: nat)
    requires Valid(w.a) && Partitioned(w, b)
    ensures Partitioned(Step(w, r), b)
  {
    match r
    case AllocReq(size) =>
      var (a', adr) := Alloc(w.a, size);
      AllocHeld(w.a, size, b);
      AllocValid(w.a, size);
      CoverAppend(w.live, Extent(size, adr), b);
    case FreeReq(i) =>
      if i < |w.live| {
        FreeHeld(w.a, w.live[i], b);
        FreeValid(w.a, w.live[i]);
        WithoutCover(w.live, i, b);
      }
    case SwitchReq(i) =>
      if i < |w.parked| {
        ParkedUpdate(w.parked, i, w.a.bucket, b);
      }
    case BucketReq(i) =>
      if i < |w.live| && w.live[i].size > IGNORE_SIZE {
        WithoutCover(w.live, i, b);
        ParkedAppend(w.parked, [w.live[i]], b);
        CoverOne(w.live[i], b);
      }
    case FlushReq =>
  }

  lemma StepOk(w: World, r: Request)
    requires WorldOk(w)
    ensures WorldOk(Step(w, r))
  {
    forall b: nat ensures Partitioned(Step(w, r), b) {
      StepPartitioned(w, r, b);
    }
    match r
    case AllocReq(size) =>
      AllocValid(w.a, size);
      AllocBounded(w.a, size);
    case FreeReq(i) =>
      if i < |w.live| {
        FreeValid(w.a, w.live[i]);
        FreeBounded(w.a, w.live[i]);
      }
    case SwitchReq(i) =>
    case BucketReq(i) =>
    case FlushReq =>
  }

  ghost function Run(w: World, rs: seq<Request>): World
    requires WorldOk(w)
    decreases rs
  {
    if rs == [] then w
    else
      StepOk(w, rs[0]);
      Run(Step(w, rs[0]), rs[1..])
  }

  lemma StepGoesOn(w: World, r: Request)
    requires Valid(w.a)
    ensures var w' := Step(w, r);
      && w'.a.capacity == w.a.capacity && (w.a.past.overrun ==> w'.a.past.overrun) && (w.a.past.starved ==> w'.a.past.starved)
  {
    match r
    case AllocReq(size) =>
      AllocValid(w.a, size);
      AllocRoom(w.a, size);
    case FreeReq(i) =>
      if i < |w.live| {
        FreeRoom(w.a, w.live[i]);
      }
    case SwitchReq(i) =>
    case BucketReq(i) =>
    case FlushReq =>
  }

  /** Allocator safety over every run: however extents are taken, given back, pushed, popped,
      merged and moved between tables, every byte of the file stays held exactly once; the header's
      table is within its array unless some pop on the way had no room, and as long as every push of
      a full table found its block there, none can. */
  lemma {:induction false} RunSafe(w: World, rs: seq<Request>)
    requires WorldOk(w)
    ensures var w' := Run(w, rs);
      && WorldOk(w') && w'.a.capacity == w.a.capacity
      && (!w'.a.past.overrun ==> Fits(w'.a)) && (!w'.a.past.starved ==> !w'.a.past.overrun)
      && (w.a.past.overrun ==> w'.a.past.overrun) && (w.a.past.starved ==> w'.a.past.starved)
    decreases rs
  {
    if rs == [] {
    } else {
      StepOk(w, rs[0]);
      StepGoesOn(w, rs[0]);
      RunSafe(Step(w, rs[0]), rs[1..]);
    }
  }

  /** Consequence for one allocation: the bytes handed out lie below the end of the file, belong
      to no extent the callers already hold, and are in no free table afterwards. */
  lemma AllocatedIsFresh(w: World, size: nat, b: nat)
    requires WorldOk(w)
    requires In(Extent(size, Alloc(w.a, size).1), b) == 1
    ensures b < Alloc(w.a, size).0.nextBlock
    ensures Cover(w.live, b) == 0 && ParkedCover(w.parked, b) == 0 && Held(Alloc(w.a, size).0, b) == 0
  {
    var r := AllocReq(size);
    StepOk(w, r);
    assert Partitioned(Step(w, r), b);
    CoverAppend(w.live, Extent(size, Alloc(w.a, size).1), b);
  }

  /** In every reachable state two extents the callers hold have no byte in common. */
  lemma LiveDisjoint(w: World, i: nat, j: nat, b: nat)
    requires WorldOk(w) && i < j < |w.live|
    ensures In(w.live[i], b) + In(w.live[j], b) <= 1
  {
    assert Partitioned(w, b);
    CoverTwo(w.live, i, j, b);
  }

  /** The state gdbm_open leaves in a new file: header, directory and bucket occupy the first
      three blocks, the fourth is the bucket's free space. */
  function NewFile(blockSize: nat, capacity: nat): World {
    World(Avail(blockSize, capacity, false, false, [], [], 4 * blockSize,
                [Extent(blockSize, 3 * blockSize)], false, false, NO_PAST),
          [Extent(blockSize, 0), Extent(blockSize, blockSize), Extent(blockSize, 2 * blockSize)], [])
  }

  lemma NewFileOk(blockSize: nat, capacity: nat)
    requires blockSize > IGNORE_SIZE && capacity >= 7
    ensures WorldOk(NewFile(blockSize, capacity))
  {
    var w := NewFile(blockSize, capacity);
    forall b: nat ensures Partitioned(w, b) {
      CoverOne(w.a.bucket[0], b);
      assert w.live == [w.live[0]] + [w.live[1]] + [w.live[2]];
      CoverAppend([w.live[0]] + [w.live[1]], w.live[2], b);
      CoverAppend([w.live[0]], w.live[1], b);
      CoverOne(w.live[0], b);
    }
  }

  // ------------------------------------------------------------------ order by size

  ghost predicate SortedTables(a: Avail) {
    && !a.coalesce
    && Sorted(a.header) && Sorted(a.bucket)
    && (forall i :: 0 <= i < |a.stack| ==> Sorted(a.stack[i].table))
  }

  lemma {:induction false} HalvesAt(t: seq<Extent>, k: nat)
    requires k < |t| / 2
    ensures Evens(t)[k] == t[2 * k] && Odds(t)[k] == t[2 * k + 1]
  {
    if k > 0 {
      HalvesAt(t[2..], k - 1);
    }
  }

  lemma HalvesSorted(t: seq<Extent>)
    requires Sorted(t)
    ensures Sorted(Evens(t)) && Sorted(Odds(t))
  {
    hide Evens, Odds;
    forall i, j | 0 <= i < j < |t| / 2
      ensures Evens(t)[i].size <= Evens(t)[j].size && Odds(t)[i].size <= Odds(t)[j].size
    {
      HalvesAt(t, i);
      HalvesAt(t, j);
    }
  }

  lemma HalveSorted(a: Avail)
    requires a.blockSize > 0 && SortedTables(a)
    ensures SortedTables(Halve(a).0)
  {
    hide Evens, Odds, HalvedPast;
    var a1 := FromHeader(a, StackSize(a.capacity)).0;
    TakeSorted(a.header, StackSize(a.capacity));
    HalvesSorted(a1.header);
    var st := Halve(a).0.stack;
    forall i | 0 <= i < |st| ensures Sorted(st[i].table) {
      if i > 0 { assert st[i] == a.stack[i - 1]; }
    }
  }

  lemma {:induction false} ShedSorted(a: Avail)
    requires SortedTables(a)
    ensures SortedTables(Shed(a))
    decreases |a.bucket|
  {
    if |a.bucket| > BUCKET_AVAIL - BUCKET_AVAIL / 3 && |a.header| < a.capacity {
      PutSorted(a.header, a.bucket[0]);
      ShedSorted(a.(header := Put(a.header, a.bucket[0], a.coalesce),
                    bucket := a.bucket[1..], bucketChanged := true));
    }
  }

  lemma AdjustSorted(a: Avail)
    requires SortedTables(a)
    ensures SortedTables(Adjust(a))
  {
    hide Put, Shed;
    if |a.bucket| < BUCKET_AVAIL / 3 {
      if |a.header| > 0 {
        PutSorted(a.bucket, a.header[|a.header| - 1]);
      }
    } else {
      ShedSorted(a);
    }
  }

  /** With coalescing off, every table is sorted by size after a free, pushes included. */
  lemma {:induction false} FreeSorted(a: Avail, e: Extent)
    requires a.blockSize > 0 && a.capacity > 0 && SortedTables(a)
    ensures SortedTables(Free(a, e))
    decreases if |a.header| == a.capacity then 2 else 0
  {
    if e.size <= IGNORE_SIZE {
    } else if e.size >= a.blockSize || a.centralFree || |a.bucket| >= BUCKET_AVAIL {
      var a1 := a;
      if |a.header| == a.capacity {
        PushSorted(a);
        a1 := Push(a);
      }
      PutSorted(a1.header, e);
      AdjustSorted(a1.(header := Put(a1.header, e, a1.coalesce), headerChanged := true));
    } else {
      PutSorted(a.bucket, e);
      AdjustSorted(a.(bucket := Put(a.bucket, e, a.coalesce)));
    }
  }

  lemma {:induction false} PushSorted(a: Avail)
    requires a.blockSize > 0 && a.capacity > 0 && |a.header| == a.capacity && SortedTables(a)
    ensures SortedTables(Push(a))
    decreases 1
  {
    HalveSorted(a);
    var (a1, loc) := Halve(a);
    FreeSorted(a1, Rest(loc, StackSize(a.capacity)));
  }

  lemma PopSorted(a: Avail)
    requires SortedTables(a) && a.stack != []
    ensures SortedTables(Pop(a))
  {
    var top := a.stack[0];
    PutAllSorted(a.header, top.table);
    PutSorted(PutAll(a.header, top.table, false), Extent(StackSize(a.capacity), top.adr));
  }

  lemma AllocSorted(a: Avail, size: nat)
    requires a.blockSize > 0 && a.capacity > 0 && SortedTables(a)
    ensures SortedTables(Alloc(a, size).0)
  {
    var a0 := a;
    if WillPop(a, size) {
      PopSorted(a);
      a0 := Pop(a);
    }
    TakeSorted(a.bucket, size);
    TakeSorted(a0.header, size);
    var (a1, e) := Source(a, size);
    FreeSorted(a1, Rest(e, size));
  }

  // ------------------------------------------------------------------ what the allocator writes

  /** Either nothing was written and the stack is `below`, or one stack block was written, and it is
      now on top of `below`. */
  ghost predicate WroteTop(writes: seq<Extent>, below: seq<StackBlock>, a': Avail) {
    || (a'.past.writes == writes && a'.stack == below)
    || (a'.stack != [] && a'.stack[1..] == below
        && a'.past.writes == writes + [Extent(StackSize(a'.capacity), a'.stack[0].adr)])
  }

  lemma {:induction false} ShedKeeps(a: Avail)
    ensures Shed(a).past.writes == a.past.writes && Shed(a).stack == a.stack && Shed(a).capacity == a.capacity
    decreases |a.bucket|
  {
    if |a.bucket| > BUCKET_AVAIL - BUCKET_AVAIL / 3 && |a.header| < a.capacity {
      ShedKeeps(a.(header := Put(a.header, a.bucket[0], a.coalesce),
                   bucket := a.bucket[1..], bucketChanged := true));
    }
  }

  lemma AdjustKeeps(a: Avail)
    ensures Adjust(a).past.writes == a.past.writes && Adjust(a).stack == a.stack && Adjust(a).capacity == a.capacity
  {
    if |a.bucket| >= BUCKET_AVAIL / 3 {
      ShedKeeps(a);
    }
  }

  lemma {:induction false} FreeWrites(a: Avail, e: Extent)
    requires a.blockSize > 0 && a.capacity > 0
    ensures WroteTop(a.past.writes, a.stack, Free(a, e)) && Free(a, e).capacity == a.capacity
    ensures |a.header| < a.capacity ==> Free(a, e).past.writes == a.past.writes && Free(a, e).stack == a.stack
    decreases if |a.header| == a.capacity then 2 else 0
  {
    if e.size <= IGNORE_SIZE {
    } else if e.size >= a.blockSize || a.centralFree || |a.bucket| >= BUCKET_AVAIL {
      var a1 := a;
      if |a.header| == a.capacity {
        var (a0, loc) := Halve(a);
        FreeWrites(a0, Rest(loc, StackSize(a.capacity)));
        a1 := Push(a);
      }
      AdjustKeeps(a1.(header := Put(a1.header, e, a1.coalesce), headerChanged := true));
    } else {
      AdjustKeeps(a.(bucket := Put(a.bucket, e, a.coalesce)));
    }
  }

  lemma SourceWrites(a: Avail, size: nat)
    requires a.blockSize > 0
    ensures var a1 := Source(a, size).0;
      && a1.past.writes == a.past.writes && a1.capacity == a.capacity && a1.blockSize == a.blockSize
      && a1.stack == if WillPop(a, size) then a.stack[1..] else a.stack
  {
    hide FirstFit, TakeFit, Put, PutAll, PopFits, BlockBytes;
  }

  /** An allocation takes at most the top off the stack and then writes at most one block on it. */
  lemma AllocWrites(a: Avail, size: nat)
    requires a.blockSize > 0 && a.capacity > 0
    ensures Alloc(a, size).0.capacity == a.capacity
    ensures WroteTop(a.past.writes, if WillPop(a, size) then a.stack[1..] else a.stack, Alloc(a, size).0)
  {
    hide Source, Free;
    SourceWrites(a, size);
    var (a1, e) := Source(a, size);
    FreeWrites(a1, Rest(e, size));
  }

  // ------------------------------------------------------------------ the header's changed flag

  lemma {:induction false} ShedFlag(a: Avail)
    ensures Shed(a).headerChanged == a.headerChanged
    decreases |a.bucket|
  {
    if |a.bucket| > BUCKET_AVAIL - BUCKET_AVAIL / 3 && |a.header| < a.capacity {
      ShedFlag(a.(header := Put(a.header, a.bucket[0], a.coalesce),
                  bucket := a.bucket[1..], bucketChanged := true));
    }
  }

  lemma AdjustFlag(a: Avail)
    ensures Adjust(a).headerChanged == a.headerChanged
  {
    if |a.bucket| >= BUCKET_AVAIL / 3 {
      ShedFlag(a);
    }
  }

  ghost predicate SameHeader(a: Avail, a': Avail) {
    a'.header == a.header && a'.stack == a.stack && a'.nextBlock == a.nextBlock
  }

  /** A free that leaves the header's changed flag clear has not changed the header. */
  lemma FreeFlag(a: Avail, e: Extent)
    requires a.blockSize > 0 && a.capacity > 0
    ensures a.headerChanged ==> Free(a, e).headerChanged
    ensures !Free(a, e).headerChanged ==> SameHeader(a, Free(a, e))
  {
    if e.size <= IGNORE_SIZE {
    } else if e.size >= a.blockSize || a.centralFree || |a.bucket| >= BUCKET_AVAIL {
      var a1 := if |a.header| == a.capacity then Push(a) else a;
      AdjustFlag(a1.(header := Put(a1.header, e, a1.coalesce), headerChanged := true));
    } else {
      AdjustFlag(a.(bucket := Put(a.bucket, e, a.coalesce)));
    }
  }

  /** The same for an allocation: what is on disk needs rewriting only if the flag is set. */
  lemma AllocFlag(a: Avail, size: nat)
    requires a.blockSize > 0 && a.capacity > 0
    ensures a.headerChanged ==> Alloc(a, size).0.headerChanged
    ensures !Alloc(a, size).0.headerChanged ==> SameHeader(a, Alloc(a, size).0)
  {
    var (a1, e) := Source(a, size);
    FreeFlag(a1, Rest(e, size));
  }

  lemma {:induction false} ShedBucketFlag(a: Avail)
    ensures a.bucketChanged ==> Shed(a).bucketChanged
    decreases |a.bucket|
  {
    if |a.bucket| > BUCKET_AVAIL - BUCKET_AVAIL / 3 && |a.header| < a.capacity {
      ShedBucketFlag(a.(header := Put(a.header, a.bucket[0], a.coalesce),
                        bucket := a.bucket[1..], bucketChanged := true));
    }
  }

  lemma {:induction false} FreeBucketFlag(a: Avail, e: Extent)
    requires a.blockSize > 0 && a.capacity > 0
    ensures a.bucketChanged ==> Free(a, e).bucketChanged
    decreases if |a.header| == a.capacity then 2 else 0
  {
    if e.size <= IGNORE_SIZE {
    } else if e.size >= a.blockSize || a.centralFree || |a.bucket| >= BUCKET_AVAIL {
      var a1 := a;
      if |a.header| == a.capacity {
        var (a0, loc) := Halve(a);
        FreeBucketFlag(a0, Rest(loc, StackSize(a.capacity)));
        a1 := Push(a);
      }
      ShedBucketFlag(a1.(header := Put(a1.header, e, a1.coalesce), headerChanged := true));
    } else {
      ShedBucketFlag(a.(bucket := Put(a.bucket, e, a.coalesce)));
    }
  }

  lemma AllocBucketFlag(a: Avail, size: nat)
    requires a.blockSize > 0 && a.capacity > 0
    ensures a.bucketChanged ==> Alloc(a, size).0.bucketChanged
  {
    var (a1, e) := Source(a, size);
    FreeBucketFlag(a1, Rest(e, size));
  }
}
