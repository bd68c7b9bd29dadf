/** Where the allocator puts what it is given and takes what it hands out (lib/gdbm/falloc.c:61-161,
    222-276, 410-468), table by table and byte by byte. */
module FallocPlaces {
  import opened Extents
  import opened Falloc
  import opened FallocRuns

  // ------------------------------------------------------------------ freeing

  /** `a1` is `a` with the extent in the header's table, which is to be written. */
  ghost predicate InHeader(a: Avail, e: Extent, a1: Avail) {
    && a1 == a.(header := a1.header, headerChanged := true)
    && forall b: nat :: Cover(a1.header, b) == Cover(a.header, b) + In(e, b)
  }

  /** `a1` is `a` with the extent in the current bucket's table. */
  ghost predicate InBucket(a: Avail, e: Extent, a1: Avail) {
    && a1 == a.(bucket := a1.bucket)
    && forall b: nat :: Cover(a1.bucket, b) == Cover(a.bucket, b) + In(e, b)
  }

  /** A remnant of at most four bytes goes nowhere. */
  lemma FreeIgnores(a: Avail, e: Extent)
    requires a.blockSize > 0 && a.capacity > 0 && e.size <= 4
    ensures Free(a, e) == a.(past := a.past.(crumbs := a.past.crumbs + [e]))
  {
  }

  /** A whole block, any extent if all free space is kept centrally, and any extent the bucket's table
      has no room for go to the header's table, half of which was pushed before if it was full; the
      header is to be written.  Then the tables are balanced. */
  lemma FreeGoesToHeader(a: Avail, e: Extent)
    requires a.blockSize > 0 && a.capacity > 0 && e.size > 4
    requires e.size >= a.blockSize || a.centralFree || |a.bucket| >= 6
    ensures Free(a, e).headerChanged
    ensures |a.header| != a.capacity ==> exists a1 :: InHeader(a, e, a1) && Free(a, e) == Adjust(a1)
    ensures |a.header| == a.capacity ==> exists a1 :: InHeader(Push(a), e, a1) && Free(a, e) == Adjust(a1)
  {
    hide Push, Put;
    var a0 := if |a.header| == a.capacity then Push(a) else a;
    var a1 := a0.(header := Put(a0.header, e, a0.coalesce), headerChanged := true);
    forall b: nat ensures Cover(a1.header, b) == Cover(a0.header, b) + In(e, b) {
      PutCover(a0.header, e, a0.coalesce, b);
    }
    AdjustKeepsFlag(a1);
    assert InHeader(a0, e, a1);
  }

  /** Any other extent goes to the current bucket's table.  The header stays as it is unless it was to
      be written anyway; only then are the tables balanced. */
  lemma FreeGoesToBucket(a: Avail, e: Extent)
    requires a.blockSize > 0 && a.capacity > 0 && e.size > 4
    requires e.size < a.blockSize && !a.centralFree && |a.bucket| < 6
    ensures exists a1 :: InBucket(a, e, a1) && Free(a, e) == if a.headerChanged then Adjust(a1) else a1
    ensures !a.headerChanged ==> InBucket(a, e, Free(a, e))
  {
    hide Put;
    var a1 := a.(bucket := Put(a.bucket, e, a.coalesce));
    forall b: nat ensures Cover(a1.bucket, b) == Cover(a.bucket, b) + In(e, b) {
      PutCover(a.bucket, e, a.coalesce, b);
    }
    assert InBucket(a, e, a1);
  }

  lemma AdjustKeepsFlag(a: Avail)
    ensures Adjust(a).headerChanged == a.headerChanged
  {
    AdjustFlag(a);
  }

  // ------------------------------------------------------------------ balancing

  /** A bucket with fewer than two free extents gets the header's last, its largest; one with two to
      four is left alone. */
  lemma AdjustFills(a: Avail)
    requires Valid(a) && |a.bucket| <= 4
    ensures |a.bucket| < 2 && a.header != [] ==>
      var last, a' := a.header[|a.header| - 1], Adjust(a);
      && a' == a.(header := a.header[..|a.header| - 1], bucket := a'.bucket, bucketChanged := true)
      && forall b: nat :: Cover(a'.bucket, b) == Cover(a.bucket, b) + In(last, b)
    ensures |a.bucket| >= 2 || a.header == [] ==> Adjust(a) == a
  {
    if |a.bucket| < 2 && a.header != [] {
      var last := a.header[|a.header| - 1];
      forall b: nat ensures Cover(Adjust(a).bucket, b) == Cover(a.bucket, b) + In(last, b) {
        PutCover(a.bucket, last, a.coalesce, b);
      }
    }
  }

  /** `a1` is `a` with the first `n` of the bucket's entries in the header's table. */
  ghost predicate Gave(a: Avail, n: int, a1: Avail) {
    && 0 <= n <= |a.bucket|
    && a1 == a.(header := a1.header, bucket := a.bucket[n..], bucketChanged := n > 0 || a.bucketChanged)
    && forall b: nat :: Cover(a1.header, b) == Cover(a.header, b) + Cover(a.bucket[..n], b)
  }

  /** A bucket with more than four gives its first, smallest ones to the header until four are left or
      the header's table is full. */
  lemma AdjustSheds(a: Avail)
    requires Valid(a) && |a.bucket| > 4
    ensures var a' := Adjust(a);
      4 <= |a'.bucket| && (|a'.bucket| > 4 ==> |a'.header| >= a.capacity) && Gave(a, |a.bucket| - |a'.bucket|, a')
  {
    ShedsFirst(a);
  }

  lemma {:induction false} ShedsFirst(a: Avail)
    requires Valid(a) && |a.bucket| >= 4
    ensures var a' := Shed(a);
      4 <= |a'.bucket| && (|a'.bucket| > 4 ==> |a'.header| >= a.capacity) && Gave(a, |a.bucket| - |a'.bucket|, a')
    decreases |a.bucket|
  {
    hide Put, Gave;
    if |a.bucket| > 4 && |a.header| < a.capacity {
      PutBig(a.header, a.bucket[0], a.coalesce);
      var a1 := a.(header := Put(a.header, a.bucket[0], a.coalesce), bucket := a.bucket[1..], bucketChanged := true);
      ShedsFirst(a1);
      GaveOneMore(a, a1, |a1.bucket| - |Shed(a1).bucket|, Shed(a1));
    } else {
      GaveNothing(a);
    }
  }

  lemma GaveNothing(a: Avail)
    ensures Gave(a, 0, a)
  {
    assert a.bucket[0..] == a.bucket && a.bucket[..0] == [];
  }

  lemma GaveOneMore(a: Avail, a1: Avail, n: int, a': Avail)
    requires a.bucket != [] && Gave(a1, n, a')
    requires a1 == a.(header := Put(a.header, a.bucket[0], a.coalesce), bucket := a.bucket[1..], bucketChanged := true)
    requires a.bucket[0].size > IGNORE_SIZE
    ensures Gave(a, n + 1, a')
  {
    hide Put;
    var e := a.bucket[0];
    assert a.bucket[1..][n..] == a.bucket[n + 1..];
    assert a.bucket[..n + 1] == [e] + a1.bucket[..n];
    forall b: nat ensures Cover(a'.header, b) == Cover(a.header, b) + Cover(a.bucket[..n + 1], b) {
      PutCover(a.header, e, a.coalesce, b);
      CoverConcat([e], a1.bucket[..n], b);
      CoverOne(e, b);
    }
  }

  // ------------------------------------------------------------------ pushing

  /** Of the header's entries every other one stays, from the first on, and every other one is in the
      block on top of the stack; the last of an odd number is dropped. */
  lemma HalveAlternates(a: Avail)
    requires a.blockSize > 0
    ensures var (a1, loc) := FromHeader(a, StackSize(a.capacity)); var (a', loc') := Halve(a);
      && loc' == loc && a'.stack != [] && a'.stack[0].adr == loc.adr && a'.stack[1..] == a.stack
      && |a'.header| == |a'.stack[0].table| == |a1.header| / 2
      && (forall k :: 0 <= k < |a'.header| ==> a'.header[k] == a1.header[2 * k])
      && (forall k :: 0 <= k < |a'.header| ==> a'.stack[0].table[k] == a1.header[2 * k + 1])
      && a'.past.dropped == a.past.dropped + if |a1.header| % 2 == 1 then [a1.header[|a1.header| - 1]] else []
  {
    hide Evens, Odds, FirstFit;
    var a1 := FromHeader(a, StackSize(a.capacity)).0;
    var a' := Halve(a).0;
    forall k | 0 <= k < |a'.header|
      ensures a'.header[k] == a1.header[2 * k] && a'.stack[0].table[k] == a1.header[2 * k + 1]
    {
      HalvesAt(a1.header, k);
    }
  }

  /** The file grows by whole blocks, by no more of them than the request needs, and by one at least. */
  lemma {:induction false} WholeBlocks(blockSize: nat, size: nat) returns (k: nat)
    requires blockSize > 0
    ensures k >= 1 && BlockBytes(blockSize, size) == k * blockSize >= size
    ensures k > 1 ==> (k - 1) * blockSize < size
    decreases size
  {
    if size <= blockSize {
      k := 1;
    } else {
      k := WholeBlocks(blockSize, size - blockSize);
      assert (k + 1) * blockSize == k * blockSize + blockSize;
      k := k + 1;
      if k - 1 > 1 {
        assert (k - 1) * blockSize == (k - 2) * blockSize + blockSize;
      }
    }
  }

  // ------------------------------------------------------------------ allocating

  predicate Large(t: seq<Extent>, size: nat) {
    exists i :: 0 <= i < |t| && t[i].size >= size
  }

  /** `adr` is the address of an entry that is large enough; of the smallest one if `t` is sorted. */
  ghost predicate AtEntry(t: seq<Extent>, size: nat, adr: nat) {
    exists i :: EntryAt(t, size, adr, i)
  }

  ghost predicate EntryAt(t: seq<Extent>, size: nat, adr: nat, i: int) {
    && 0 <= i < |t| && t[i].size >= size && t[i].adr == adr
    && (Sorted(t) ==> forall j :: 0 <= j < |t| && t[j].size >= size ==> t[i].size <= t[j].size)
  }

  lemma FirstFitIsAt(t: seq<Extent>, size: nat)
    ensures Large(t, size) <==> FirstFit(t, size) < |t|
    ensures Large(t, size) ==> AtEntry(t, size, t[FirstFit(t, size)].adr)
  {
    var i := FirstFit(t, size);
    if i < |t| {
      assert t[i].size >= size;
      assert EntryAt(t, size, t[i].adr, i);
    }
  }

  /** If an entry of the current bucket's table is large enough the address is that of such an entry;
      nothing is popped and the file has not grown for it. */
  lemma AllocTakesFromBucket(a: Avail, size: nat)
    requires a.blockSize > 0 && a.capacity > 0 && Large(a.bucket, size)
    ensures AtEntry(a.bucket, size, Alloc(a, size).1)
    ensures Source(a, size).0 == a.(bucket := Source(a, size).0.bucket)
  {
    FirstFitIsAt(a.bucket, size);
  }

  /** The header's table when the bucket's had nothing: with the entries of the top of the stack and its
      block, if the table was at most half full and there is one. */
  ghost predicate HeaderAtAlloc(a: Avail, h: seq<Extent>) {
    if |a.header| <= a.capacity / 2 && a.stack != [] then
      var block := Extent(StackSize(a.capacity), a.stack[0].adr);
      forall b: nat :: Cover(h, b) == Cover(a.header, b) + Cover(a.stack[0].table, b) + In(block, b)
    else h == a.header
  }

  /** Otherwise the address is that of an entry of the header's table that is large enough; if there is
      none, it is the end of the file, which grows.  The header is to be written. */
  lemma AllocTakesFromHeader(a: Avail, size: nat)
    requires Valid(a) && !Large(a.bucket, size)
    ensures exists h :: HeaderAtAlloc(a, h)
              && (Large(h, size) ==> AtEntry(h, size, Alloc(a, size).1) && Source(a, size).0.nextBlock == a.nextBlock)
              && (!Large(h, size) ==> Alloc(a, size).1 == a.nextBlock
                                      && Source(a, size).0.nextBlock == a.nextBlock + BlockBytes(a.blockSize, size))
    ensures Alloc(a, size).0.headerChanged
  {
    hide Free, FirstFit;
    FirstFitIsAt(a.bucket, size);
    var a0 := if WillPop(a, size) then Pop(a) else a;
    if WillPop(a, size) {
      PopFillsHeader(a);
    }
    assert HeaderAtAlloc(a, a0.header);
    FirstFitIsAt(a0.header, size);
    var (a1, e) := Source(a, size);
    assert a1.headerChanged;
    FreeKeepsFlag(a1, Rest(e, size));
  }

  lemma FreeKeepsFlag(a: Avail, e: Extent)
    requires a.blockSize > 0 && a.capacity > 0 && a.headerChanged
    ensures Free(a, e).headerChanged
  {
    FreeFlag(a, e);
  }

  lemma PopFillsHeader(a: Avail)
    requires Valid(a) && a.stack != []
    ensures var block := Extent(StackSize(a.capacity), a.stack[0].adr);
      forall b: nat :: Cover(Pop(a).header, b) == Cover(a.header, b) + Cover(a.stack[0].table, b) + In(block, b)
    ensures Pop(a).stack == a.stack[1..] && Pop(a).headerChanged && Pop(a).nextBlock == a.nextBlock
  {
    var top := a.stack[0];
    var block := Extent(StackSize(a.capacity), top.adr);
    var h := PutAll(a.header, top.table, a.coalesce);
    forall b: nat ensures Cover(Pop(a).header, b) == Cover(a.header, b) + Cover(top.table, b) + In(block, b) {
      PutAllCover(a.header, top.table, a.coalesce, b);
      PutCover(h, block, a.coalesce, b);
    }
  }
}
