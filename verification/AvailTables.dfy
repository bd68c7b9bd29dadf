/** lib/gdbm/falloc.c in its own form: tables shifted in place in arrays, and the stack of split-off
    tables as blocks of the file linked by their addresses.  Every routine is proved to compute the
    function of the same name in Falloc.dfy. */
module AvailTables {
  import opened Extents
  import opened Falloc
  import opened FallocCapacity
  import opened FallocRuns

  // ------------------------------------------------------------------ one table

  const NOTHING := Extent(0, 0)

  /** The search by size both routines begin with. */
  method FindPlace(size: nat, table: array<Extent>, count: nat) returns (index: nat)
    requires count <= table.Length
    ensures index == FirstFit(table[..count], size)
  {
    ghost var t := table[..count];
    index := 0;
    while index < count && table[index].size < size
      invariant 0 <= index <= count
      invariant forall j :: 0 <= j < index ==> t[j].size < size
    {
      index := index + 1;
    }
    FirstFitIs(t, size, index);
  }

  method GetElem(size: nat, table: array<Extent>, count: nat) returns (val: Extent, count': nat)
    requires count <= table.Length
    modifies table
    ensures var t := old(table[..count]); var i := FirstFit(t, size);
      && count' == (if i < count then count - 1 else count)
      && table[..count'] == TakeFit(t, size)
      && val == (if i < count then t[i] else NOTHING)
  {
    hide FirstFit;
    ghost var t := table[..count];
    val, count' := NOTHING, count;
    var index := FindPlace(size, table, count);
    if index >= count {
      return;
    }
    val := table[index];
    count' := count - 1;
    assert table[..index] == t[..index] && table[index + 1..count] == t[index + 1..];
    CloseGap(table, count, index);
    assert table[..count'] == table[..index] + table[index..count'];
  }

  /** Moves the entries behind `index` down one slot. */
  method CloseGap(table: array<Extent>, count: nat, index: nat)
    requires index < count <= table.Length
    modifies table
    ensures table[..index] == old(table[..index]) && table[index..count - 1] == old(table[index + 1..count])
  {
    var index1 := index;
    while index1 < count - 1
      invariant index <= index1 < count
      invariant forall j :: 0 <= j < index ==> table[j] == old(table[j])
      invariant forall j :: index <= j < index1 ==> table[j] == old(table[j + 1])
      invariant forall j :: index1 <= j < count ==> table[j] == old(table[j])
    {
      table[index1] := table[index1 + 1];
      index1 := index1 + 1;
    }
  }

  lemma FirstFitIs(t: seq<Extent>, size: nat, i: nat)
    requires i <= |t| && (forall j :: 0 <= j < i ==> t[j].size < size) && (i < |t| ==> t[i].size >= size)
    ensures FirstFit(t, size) == i
  {
    var k := FirstFit(t, size);
  }

  lemma TakeFirst(t: seq<Extent>)
    requires t != []
    ensures FirstFit(t, 0) == 0 && TakeFit(t, 0) == t[1..]
  {
    FirstFitIs(t, 0, 0);
  }

  lemma FirstAbutIs(t: seq<Extent>, e: Extent, i: nat)
    requires i <= |t| && (forall j :: 0 <= j < i ==> !Abut(t[j], e)) && (i < |t| ==> Abut(t[i], e))
    ensures FirstAbut(t, e) == i
  {
    var k := FirstAbut(t, e);
  }

  /** The search for a block to merge with. */
  method FindAbutting(e: Extent, table: array<Extent>, count: nat) returns (index: nat)
    requires count <= table.Length
    ensures index == FirstAbut(table[..count], e)
  {
    ghost var t := table[..count];
    index := 0;
    while index < count && !Abut(table[index], e)
      invariant 0 <= index <= count
      invariant forall j :: 0 <= j < index ==> !Abut(t[j], e)
    {
      index := index + 1;
    }
    FirstAbutIs(t, e, index);
  }

  /** Moves the entries from `index` on up one slot. */
  method OpenGap(table: array<Extent>, count: nat, index: nat)
    requires index <= count < table.Length
    modifies table
    ensures table[..index] == old(table[..index]) && table[index + 1..count + 1] == old(table[index..count])
  {
    var index1 := count - 1;
    while index1 >= index
      invariant index - 1 <= index1 < count
      invariant forall j :: 0 <= j <= index1 ==> table[j] == old(table[j])
      invariant forall j :: index1 < j < count ==> table[j + 1] == old(table[j])
    {
      table[index1 + 1] := table[index1];
      index1 := index1 - 1;
    }
  }

  /** The insertion at the end of _gdbm_put_av_elem. */
  method InsertElem(e: Extent, table: array<Extent>, count: nat)
    requires count < table.Length
    modifies table
    ensures table[..count + 1] == Insert(old(table[..count]), e)
  {
    ghost var t := table[..count];
    var index := FindPlace(e.size, table, count);
    OpenGap(table, count, index);
    ghost var front, back := table[..index], table[index + 1..count + 1];
    table[index] := e;
    assert table[..index] == front && table[index + 1..count + 1] == back;
    assert table[..count + 1] == table[..index] + [e] + table[index + 1..count + 1];
    assert front == t[..index] && back == t[index..];
  }

  method PutAvElem(e: Extent, table: array<Extent>, count: nat, canMerge: bool) returns (stored: bool, count': nat)
    requires count <= table.Length && |Put(table[..count], e, canMerge)| <= table.Length
    modifies table
    ensures count' <= table.Length && table[..count'] == Put(old(table[..count]), e, canMerge)
    ensures stored == (e.size > IGNORE_SIZE)
  {
    if e.size <= IGNORE_SIZE {
      return false, count;
    }
    var index := FindAbutting(e, table, count);
    if canMerge && index < count {
      table[index] := Merge(table[index], e);
      return true, count;
    }
    InsertElem(e, table, count);
    return true, count + 1;
  }

  /** The loop of push_avail_block that keeps the even entries and moves the odd ones out. */
  method SplitTable(table: array<Extent>, count: nat) returns (odds: seq<Extent>)
    requires count <= table.Length
    modifies table
    ensures odds == Odds(old(table[..count])) && table[..count / 2] == Evens(old(table[..count]))
  {
    ghost var t := table[..count];
    odds := [];
    var index := 1;
    while index < count
      invariant 1 <= index && (index <= count || (index == 1 && count == 0))
      invariant |odds| == index / 2
      invariant forall k :: 0 <= k < |odds| ==> odds[k] == t[2 * k + 1]
      invariant forall j :: 0 <= j < count ==> table[j] == if 2 * j < index then t[2 * j] else t[j]
    {
      if index % 2 == 1 {
        odds := odds + [table[index]];
      } else {
        table[index / 2] := table[index];
      }
      index := index + 1;
    }
    forall k | 0 <= k < count / 2 ensures Odds(t)[k] == odds[k] && Evens(t)[k] == table[k] {
      HalvesAt(t, k);
    }
    assert table[..count / 2] == Evens(t);
  }

  // ------------------------------------------------------------------ ownership and the linked stack

  /** No byte is held twice, none beyond the end of the file, and never byte 0. */
  ghost predicate Owned(a: Avail) {
    && (forall b: nat :: Held(a, b) <= 1)
    && (forall b: nat :: Held(a, b) > 0 ==> 0 < b < a.nextBlock)
    && a.nextBlock > 0
  }

  /** `e` may be given to the allocator: it is below the end of the file and nobody else holds it. */
  ghost predicate Givable(a: Avail, e: Extent) {
    forall b: nat :: In(e, b) > 0 ==> Held(a, b) == 0 && 0 < b < a.nextBlock
  }

  lemma FreeOwned(a: Avail, e: Extent)
    requires Valid(a) && Owned(a) && Givable(a, e)
    ensures Owned(Free(a, e))
  {
    FreeValid(a, e);
    var a' := Free(a, e);
    forall b: nat ensures Held(a', b) <= 1 && (Held(a', b) > 0 ==> 0 < b < a'.nextBlock) {
      FreeHeld(a, e, b);
    }
  }

  lemma FromHeaderOwned(a: Avail, size: nat)
    requires Valid(a) && Owned(a)
    ensures var (a', e) := FromHeader(a, size); Valid(a') && Owned(a') && Givable(a', e)
  {
    FromHeaderValid(a, size);
    var (a', e) := FromHeader(a, size);
    forall b: nat ensures Held(a', b) <= 1 && (Held(a', b) > 0 ==> 0 < b < a'.nextBlock)
    {
      FromHeaderHeld(a, size, b);
    }
    forall b: nat | In(e, b) > 0 ensures Held(a', b) == 0 && 0 < b < a'.nextBlock {
      FromHeaderHeld(a, size, b);
    }
  }

  lemma HalveOwned(a: Avail)
    requires Valid(a) && Owned(a)
    ensures var (a', loc) := Halve(a); Valid(a') && Owned(a') && Givable(a', Rest(loc, StackSize(a.capacity)))
  {
    HalveValid(a);
    var (a', loc) := Halve(a);
    forall b: nat ensures Held(a', b) <= 1 && (Held(a', b) > 0 ==> 0 < b < a'.nextBlock) {
      HalveHeld(a, b);
    }
    var rest := Rest(loc, StackSize(a.capacity));
    forall b: nat | In(rest, b) > 0 ensures Held(a', b) == 0 && 0 < b < a'.nextBlock {
      HalveHeld(a, b);
    }
  }

  /** A table split off the header's, as a block of the file. */
  datatype AvailBlock = AvailBlock(size: nat, count: nat, nextBlock: nat, table: seq<Extent>)

  /** From address `next` the file links exactly the blocks of the stack. */
  ghost predicate Linked(disk: map<nat, AvailBlock>, next: nat, stack: seq<StackBlock>)
    decreases stack
  {
    if stack == [] then next == 0
    else
      && next == stack[0].adr != 0 && next in disk
      && disk[next].table == stack[0].table && disk[next].count == |stack[0].table|
      && Linked(disk, disk[next].nextBlock, stack[1..])
  }

  /** A block written at a new address and linked to the old top is the new top. */
  lemma LinksPushed(disk: map<nat, AvailBlock>, next: nat, stack: seq<StackBlock>, adr: nat, block: AvailBlock)
    requires Linked(disk, next, stack) && forall i :: 0 <= i < |stack| ==> stack[i].adr != adr
    requires adr != 0 && block.nextBlock == next && block.count == |block.table|
    ensures Linked(disk[adr := block], adr, [StackBlock(adr, block.table)] + stack)
  {
    LinkedElsewhere(disk, next, stack, adr, block);
    var all := [StackBlock(adr, block.table)] + stack;
    assert all[1..] == stack;
  }

  lemma HalvedStack(a: Avail)
    requires a.blockSize > 0
    ensures var (a', loc) := Halve(a); a'.stack == [StackBlock(loc.adr, a'.stack[0].table)] + a.stack
    ensures Halve(a).1 == FromHeader(a, StackSize(a.capacity)).1
  {
  }

  lemma LinkedTop(disk: map<nat, AvailBlock>, next: nat, stack: seq<StackBlock>)
    requires Linked(disk, next, stack) && stack != []
    ensures next == stack[0].adr
  {
  }

  /** Writing a block no stack block occupies leaves the links alone. */
  lemma {:induction false} LinkedElsewhere(disk: map<nat, AvailBlock>, next: nat, stack: seq<StackBlock>,
                                           adr: nat, block: AvailBlock)
    requires Linked(disk, next, stack) && forall i :: 0 <= i < |stack| ==> stack[i].adr != adr
    ensures Linked(disk[adr := block], next, stack)
    decreases stack
  {
    if stack != [] {
      LinkedElsewhere(disk, disk[next].nextBlock, stack[1..], adr, block);
    }
  }

  /** The block taken for a push is no block of the stack, and not block 0. */
  lemma PushedBlockIsNew(a: Avail)
    requires Valid(a) && Owned(a)
    ensures var (a1, loc) := FromHeader(a, StackSize(a.capacity));
      loc.adr != 0 && forall i :: 0 <= i < |a.stack| ==> a.stack[i].adr != loc.adr
  {
    FromHeaderOwned(a, StackSize(a.capacity));
    var (a1, loc) := FromHeader(a, StackSize(a.capacity));
    assert In(loc, loc.adr) == 1;
    forall i | 0 <= i < |a.stack| ensures a.stack[i].adr != loc.adr {
      StackCovers(a1.stack, StackSize(a.capacity), i, loc.adr);
    }
  }

  // ------------------------------------------------------------------ the allocator's fields

  class FreeSpace {
    const blockSize: nat
    const centralFree: bool
    const coalesce: bool
    const avTable: array<Extent>       // header->avail.av_table; its length is avail.size
    const bucketAvail: array<Extent>   // bucket->bucket_avail
    var avCount: nat                   // header->avail.count
    var bucketCount: nat               // bucket->av_count
    var nextStack: nat                 // header->avail.next_block
    var nextBlock: nat                 // header->next_block
    var headerChanged: bool
    var bucketChanged: bool
    var disk: map<nat, AvailBlock>
    ghost var stack: seq<StackBlock>
    ghost var past: Past

    ghost predicate InBounds()
      reads this
    {
      && avTable != bucketAvail && bucketAvail.Length == BUCKET_AVAIL && avTable.Length >= 7
      && avCount <= avTable.Length && bucketCount <= bucketAvail.Length
    }

    ghost function State(): Avail
      requires InBounds()
      reads this, avTable, bucketAvail
    {
      Avail(blockSize, avTable.Length, centralFree, coalesce, avTable[..avCount], stack, nextBlock,
            bucketAvail[..bucketCount], headerChanged, bucketChanged, past)
    }

    ghost predicate Tables()
      reads this, avTable, bucketAvail
    {
      InBounds() && Valid(State()) && Fits(State()) && Owned(State())
    }

    /** The tables of a new database: nothing is free, and the file ends behind its first blocks. */
    constructor (blockSize: nat, capacity: nat, nextBlock: nat)
      requires blockSize > 0 && capacity >= 7 && nextBlock > 0 && blockSize >= StackSize(capacity)
      ensures Tables() && StackLinked() && stack == [] && avCount == 0 && this.nextBlock == nextBlock
      ensures forall b: nat :: Held(State(), b) == 0
    {
      this.blockSize, this.nextBlock, centralFree, coalesce := blockSize, nextBlock, false, false;
      avTable, bucketAvail := new Extent[capacity](_ => NOTHING), new Extent[BUCKET_AVAIL](_ => NOTHING);
      avCount, bucketCount, nextStack, headerChanged, bucketChanged := 0, 0, 0, false, false;
      disk, stack, past := map[], [], NO_PAST;
    }

    /** Whole blocks from the end of the file. */
    method GetBlock(size: nat) returns (val: Extent)
      requires InBounds() && blockSize > 0
      modifies `nextBlock, `headerChanged
      ensures InBounds() && (State(), val) == Falloc.GetBlock(old(State()), size)
    {
      var bytes := blockSize;
      while bytes < size
        invariant BlockBytes(blockSize, size) == bytes - blockSize + BlockBytes(blockSize, if size > bytes - blockSize then size - (bytes - blockSize) else 0)
        invariant bytes >= blockSize && (bytes > blockSize ==> bytes - blockSize < size)
        decreases size - bytes
      {
        bytes := bytes + blockSize;
      }
      val := Extent(bytes, nextBlock);
      nextBlock := nextBlock + bytes;
      headerChanged := true;
    }

    /** An extent from the header's table, or else from the end of the file. */
    method TakeFromHeader(size: nat) returns (loc: Extent)
      requires InBounds() && Valid(State())
      modifies `nextBlock, `headerChanged, `avCount, avTable
      ensures InBounds() && (State(), loc) == FromHeader(old(State()), size)
    {
      loc, avCount := GetElem(size, avTable, avCount);
      if loc.size == 0 {
        loc := GetBlock(size);
      }
    }

    /** The loop that moves the current bucket's smallest entries to the header. */
    method ShedEntries()
      requires InBounds() && Valid(State()) && Fits(State())
      modifies `avCount, `bucketCount, `bucketChanged, avTable, bucketAvail
      ensures InBounds() && State() == Shed(old(State()))
    {
      while bucketCount > BUCKET_AVAIL - BUCKET_AVAIL / 3 && avCount < avTable.Length
        invariant InBounds() && Shed(State()) == Shed(old(State()))
        decreases bucketCount
      {
        ShedEntry();
      }
    }

    /** One turn of that loop. */
    method ShedEntry()
      requires InBounds() && bucketCount > 0 && avCount < avTable.Length
      modifies `avCount, `bucketCount, `bucketChanged, avTable, bucketAvail
      ensures InBounds() && bucketCount == old(bucketCount) - 1
      ensures var a := old(State());
        State() == a.(header := Put(a.header, a.bucket[0], a.coalesce), bucket := a.bucket[1..], bucketChanged := true)
    {
      hide Put, TakeFit, FirstFit;
      ghost var header, bucket := avTable[..avCount], bucketAvail[..bucketCount];
      PutLength(header, bucket[0], coalesce);
      FirstFitIs(bucket, 0, 0);
      TakeFirst(bucket);
      var e;
      e, bucketCount := GetElem(0, bucketAvail, bucketCount);
      assert avTable[..avCount] == header;
      var stored;
      stored, avCount := PutAvElem(e, avTable, avCount, coalesce);
      bucketChanged := true;
    }

    /** The header's last entry goes to the bucket. */
    method RefillBucket()
      requires InBounds() && avCount > 0 && bucketCount < BUCKET_AVAIL
      modifies `avCount, `bucketCount, `bucketChanged, bucketAvail
      ensures InBounds()
      ensures var a := old(State()); var last := a.header[|a.header| - 1];
        State() == a.(header := a.header[..|a.header| - 1], bucket := Put(a.bucket, last, a.coalesce), bucketChanged := true)
    {
      ghost var header := avTable[..avCount];
      avCount := avCount - 1;
      PutLength(bucketAvail[..bucketCount], avTable[avCount], coalesce);
      var stored;
      stored, bucketCount := PutAvElem(avTable[avCount], bucketAvail, bucketCount, coalesce);
      bucketChanged := true;
      assert avTable[..avCount] == header[..|header| - 1];
    }

    /** adjust_bucket_avail. */
    method AdjustBucketAvail()
      requires InBounds() && Valid(State()) && Fits(State())
      modifies `avCount, `bucketCount, `bucketChanged, avTable, bucketAvail
      ensures InBounds() && State() == Adjust(old(State()))
    {
      var third := BUCKET_AVAIL / 3;
      if bucketCount < third {
        if avCount > 0 {
          RefillBucket();
        }
        return;
      }
      ShedEntries();
    }

    /** What _gdbm_free does once there is room in the header's table. */
    method FreeToHeader(e: Extent)
      requires InBounds() && Valid(State()) && Fits(State()) && avCount < avTable.Length && e.size > IGNORE_SIZE
      modifies `avCount, `bucketCount, `bucketChanged, `headerChanged, avTable, bucketAvail
      ensures InBounds()
      ensures var a := old(State());
        State() == Adjust(a.(header := Put(a.header, e, a.coalesce), headerChanged := true))
    {
      ghost var a := State();
      PutLength(a.header, e, coalesce);
      PutBig(a.header, e, coalesce);
      var stored;
      stored, avCount := PutAvElem(e, avTable, avCount, coalesce);
      headerChanged := true;
      AdjustBucketAvail();
    }

    /** ... and once there is room in the current bucket's table. */
    method FreeToBucket(e: Extent)
      requires InBounds() && Valid(State()) && Fits(State()) && bucketCount < BUCKET_AVAIL && e.size > IGNORE_SIZE
      modifies `avCount, `bucketCount, `bucketChanged, avTable, bucketAvail
      ensures InBounds()
      ensures var a := old(State()); var a' := a.(bucket := Put(a.bucket, e, a.coalesce));
        State() == if a'.headerChanged then Adjust(a') else a'
    {
      ghost var a := State();
      PutLength(a.bucket, e, coalesce);
      PutBig(a.bucket, e, coalesce);
      var stored;
      stored, bucketCount := PutAvElem(e, bucketAvail, bucketCount, coalesce);
      if headerChanged {
        AdjustBucketAvail();
      }
    }

    ghost predicate StackLinked()
      reads this
    {
      Linked(disk, nextStack, stack)
    }

    /** push_avail_block up to giving back what is left of the extent it took: half of the header's
        entries are in `temp`, which is to be written at `loc`. */
    method HalveTable() returns (loc: Extent, temp: AvailBlock)
      requires Tables()
      modifies `nextBlock, `headerChanged, `avCount, `nextStack, `stack, `past, avTable
      ensures InBounds() && (State(), loc) == Halve(old(State()))
      ensures temp.table == stack[0].table && temp.count == |temp.table| && temp.nextBlock == old(nextStack)
      ensures nextStack == loc.adr
    {
      hide Owned, Fits, Evens, Odds, FromHeader;
      ghost var a := State();
      var avSize := StackSize(avTable.Length);
      loc := TakeFromHeader(avSize);
      ghost var a1 := State();
      assert (a1, loc) == FromHeader(a, avSize);
      var odds := SplitTable(avTable, avCount);
      temp := AvailBlock(avTable.Length, |odds|, nextStack, odds);
      nextStack := loc.adr;
      avCount := avCount / 2;
      stack := [StackBlock(loc.adr, odds)] + stack;
      past := HalvedPast(a1, Extent(avSize, loc.adr));
    }

    /** push_avail_block. */
    method PushAvailBlock()
      requires Tables() && StackLinked() && avCount == avTable.Length
      modifies this, avTable, bucketAvail
      ensures Tables() && StackLinked() && State() == Push(old(State()))
      ensures avCount < avTable.Length
      decreases 1
    {
      hide Owned, Givable, Held, Linked, FromHeader, Halve, Valid;
      ghost var a := State();
      HalveOwned(a);
      PushIsNotNested(a);
      PushedBlockIsNew(a);
      HalvedStack(a);
      ghost var old1, disk1, next1 := stack, disk, nextStack;
      var loc, temp := HalveTable();
      Free(Rest(loc, StackSize(avTable.Length)));
      LinksPushed(disk1, next1, old1, loc.adr, temp);
      disk := disk[loc.adr := temp];
    }

    /** _gdbm_free.  It may push one table on the stack; the free nested in the push cannot. */
    method Free(e: Extent)
      requires Tables() && Givable(State(), e)
      requires avCount == avTable.Length ==> StackLinked()
      modifies this, avTable, bucketAvail
      ensures Tables() && State() == Falloc.Free(old(State()), e)
      ensures old(StackLinked()) ==> StackLinked()
      ensures old(avCount) < avTable.Length ==> stack == old(stack) && nextStack == old(nextStack) && disk == old(disk)
      decreases if avCount == avTable.Length then 2 else 0
    {
      hide Owned, Givable, Held, Linked;
      ghost var a := State();
      FreeOwned(a, e);
      FreeValid(a, e);
      FreeFits(a, e);
      if e.size <= IGNORE_SIZE {
        past := past.(crumbs := past.crumbs + [e]);
        return;
      }
      if e.size >= blockSize || centralFree || bucketCount >= BUCKET_AVAIL {
        if avCount == avTable.Length {
          PushAvailBlock();
        }
        FreeToHeader(e);
      } else {
        FreeToBucket(e);
      }
    }

    /** The loop of pop_avail_block: the entries of the popped block, one by one. */
    method PutEntries(entries: seq<Extent>)
      requires InBounds() && avCount + |entries| <= avTable.Length
      modifies `avCount, avTable
      ensures InBounds() && avCount <= old(avCount) + |entries|
      ensures State() == old(State()).(header := PutAll(old(State()).header, entries, coalesce))
    {
      ghost var h := avTable[..avCount];
      for index := 0 to |entries|
        invariant InBounds() && avCount <= old(avCount) + index
        invariant PutAll(avTable[..avCount], entries[index..], coalesce) == PutAll(h, entries, coalesce)
        invariant bucketAvail[..] == old(bucketAvail[..])
      {
        PutLength(avTable[..avCount], entries[index], coalesce);
        assert entries[index..][1..] == entries[index + 1..];
        var stored;
        stored, avCount := PutAvElem(entries[index], avTable, avCount, coalesce);
      }
      assert entries[|entries|..] == [];
      assert bucketAvail[..bucketCount] == old(bucketAvail[..bucketCount]);
    }

    /** The block at the top of the stack, read from the file. */
    method ReadTop() returns (block: AvailBlock)
      requires StackLinked() && stack != []
      ensures block.count <= |block.table| && block.table[..block.count] == stack[0].table
      ensures nextStack == stack[0].adr && Linked(disk, block.nextBlock, stack[1..])
    {
      block := disk[nextStack];
    }

    /** pop_avail_block; there must be room for the popped entries and the popped block. */
    method PopAvailBlock()
      requires Tables() && StackLinked() && stack != [] && PopFits(State())
      modifies `avCount, `nextStack, `headerChanged, `stack, avTable
      ensures Tables() && StackLinked() && State() == Pop(old(State()))
    {
      hide Owned, Linked, Fits, Valid, Put, PutAll;
      ghost var a := State();
      PopOwned(a);
      PopFitsExactly(a);
      PopIs(a);
      LinkedTop(disk, nextStack, stack);
      var newEl := Extent(StackSize(avTable.Length), nextStack);
      UnlinkTop();
      PutInHeader(newEl);
    }

    method PutInHeader(e: Extent)
      requires InBounds() && avCount < avTable.Length
      modifies `avCount, avTable
      ensures InBounds() && State() == old(State()).(header := Put(old(State()).header, e, coalesce))
    {
      hide Put;
      PutLength(avTable[..avCount], e, coalesce);
      ghost var bucket := bucketAvail[..bucketCount];
      var stored;
      stored, avCount := PutAvElem(e, avTable, avCount, coalesce);
      assert bucketAvail[..bucketCount] == bucket;
    }

    /** The popped block's entries go to the header; the block below becomes the top. */
    method UnlinkTop()
      requires InBounds() && StackLinked() && stack != [] && avCount + |stack[0].table| < avTable.Length
      modifies `avCount, `nextStack, `headerChanged, `stack, avTable
      ensures InBounds() && StackLinked() && avCount < avTable.Length
      ensures var a := old(State());
        State() == a.(header := PutAll(a.header, a.stack[0].table, a.coalesce), stack := a.stack[1..], headerChanged := true)
    {
      hide Linked;
      var newBlk := ReadTop();
      PutEntries(newBlk.table[..newBlk.count]);
      nextStack := newBlk.nextBlock;
      stack := stack[1..];
      headerChanged := true;
    }

    /** The extent _gdbm_alloc carves the request from. */
    method FindSource(size: nat) returns (avEl: Extent)
      requires Tables() && StackLinked() && (WillPop(State(), size) ==> PopFits(State()))
      modifies this, avTable, bucketAvail
      ensures InBounds() && StackLinked() && (State(), avEl) == Source(old(State()), size)
    {
      ghost var a := State();
      avEl, bucketCount := GetElem(size, bucketAvail, bucketCount);
      if avEl.size == 0 {
        assert State() == a;
        if avCount <= avTable.Length / 2 && nextStack != 0 {
          PopAvailBlock();
        }
        avEl := TakeFromHeader(size);
        headerChanged := true;
      }
    }

    /** _gdbm_alloc: the extent handed out is held by nobody else, lies within the file, and is not
        at address 0. */
    method Alloc(size: nat) returns (fileAdr: nat)
      requires Tables() && StackLinked() && (WillPop(State(), size) ==> PopFits(State()))
      modifies this, avTable, bucketAvail
      ensures Tables() && StackLinked() && (State(), fileAdr) == Falloc.Alloc(old(State()), size)
      ensures Givable(State(), Extent(size, fileAdr)) && fileAdr != 0
    {
      hide Source, Falloc.Free, Givable, Owned, Valid, Fits;
      ghost var a := State();
      SourceOwned(a, size);
      SourceFits(a, size);
      var avEl := FindSource(size);
      RestGivable(State(), avEl, size);
      Free(Rest(avEl, size));
      AllocGivable(a, size);
      fileAdr := avEl.adr;
    }
  }

  lemma PopIs(a: Avail)
    requires a.stack != [] && PopFits(a)
    ensures Pop(a) == a.(
      header := Put(PutAll(a.header, a.stack[0].table, a.coalesce),
                    Extent(StackSize(a.capacity), a.stack[0].adr), a.coalesce),
      stack := a.stack[1..], headerChanged := true)
  {
  }

  lemma PopOwned(a: Avail)
    requires Valid(a) && Owned(a) && a.stack != []
    ensures Valid(Pop(a)) && Owned(Pop(a))
  {
    PopValid(a);
    forall b: nat ensures Held(Pop(a), b) == Held(a, b) {
      PopHeld(a, b);
    }
  }

  lemma SourceOwned(a: Avail, size: nat)
    requires Valid(a) && Owned(a)
    ensures var (a', e) := Source(a, size);
      Valid(a') && Owned(a') && Givable(a', e) && a'.capacity == a.capacity && a'.blockSize == a.blockSize
  {
    SourceValid(a, size);
    var (a', e) := Source(a, size);
    forall b: nat ensures Held(a', b) + In(e, b) == Held(a, b) + Fresh(a, a', b) {
      SourceHeld(a, size, b);
    }
  }

  lemma SourceFits(a: Avail, size: nat)
    requires Valid(a) && Fits(a) && (WillPop(a, size) ==> PopFits(a))
    ensures Fits(Source(a, size).0)
  {
    if WillPop(a, size) {
      PopFitsExactly(a);
    }
  }

  lemma RestGivable(a: Avail, e: Extent, size: nat)
    requires Givable(a, e) && e.size >= size
    ensures Givable(a, Rest(e, size))
  {
    forall b: nat | In(Rest(e, size), b) > 0 ensures Held(a, b) == 0 && 0 < b < a.nextBlock {
      assert In(e, b) > 0;
    }
  }

  lemma AllocGivable(a: Avail, size: nat)
    requires Valid(a) && Owned(a)
    ensures var (a', adr) := Falloc.Alloc(a, size); Givable(a', Extent(size, adr)) && adr != 0
  {
    var (a', adr) := Falloc.Alloc(a, size);
    SourceOwned(a, size);
    SourceValid(a, size);
    var (a1, e) := Source(a, size);
    assert In(e, e.adr) > 0;
    FreeValid(a1, Rest(e, size));
    forall b: nat | In(Extent(size, adr), b) > 0 ensures Held(a', b) == 0 && 0 < b < a'.nextBlock {
      AllocHeld(a, size, b);
      assert In(e, b) > 0;
    }
  }
}
