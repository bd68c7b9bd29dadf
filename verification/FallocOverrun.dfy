/** A run of the allocator, from a new file of 512-byte blocks, in which a pop overruns the header's
    table: 73 small extents are taken, 65 given back until a push finds no entry large enough in the
    full table, and the halves popped again when the table is exactly half full. */
module FallocOverrun {
  import opened Extents
  import opened Falloc
  import opened FallocCapacity
  import opened FallocRuns

  /** `n` extents of seven bytes. */
  ghost predicate Sevens(t: seq<Extent>, n: nat) {
    |t| == n && forall i :: 0 <= i < n ==> t[i].size == 7
  }

  /** `n` extents of seven bytes and a last one of 260. */
  ghost predicate SevensAndOne(t: seq<Extent>, n: nat) {
    |t| == n + 1 && (forall i :: 0 <= i < n ==> t[i].size == 7) && t[n].size == 260
  }

  lemma PutSeven(t: seq<Extent>, n: nat, e: Extent)
    requires e.size == 7
    ensures Sevens(t, n) ==> Sevens(Put(t, e, false), n + 1)
    ensures SevensAndOne(t, n) ==> SevensAndOne(Put(t, e, false), n + 1)
  {
    assert Sevens(t, n) || SevensAndOne(t, n) ==> FirstFit(t, 7) == 0;
  }

  lemma PutLarge(t: seq<Extent>, n: nat, e: Extent)
    requires Sevens(t, n) && e.size == 260
    ensures SevensAndOne(Put(t, e, false), n)
  {
    assert FirstFit(t, 260) == n;
  }

  lemma HalvesOfSevens(t: seq<Extent>, n: nat)
    requires Sevens(t, 2 * n)
    ensures Sevens(Evens(t), n) && Sevens(Odds(t), n)
  {
    forall k | 0 <= k < n ensures Evens(t)[k].size == 7 && Odds(t)[k].size == 7 {
      HalvesAt(t, k);
    }
  }

  /** A state of this run: only the tables vary. */
  ghost predicate Plain(w: World, live: nat) {
    && WorldOk(w)
    && w.a.blockSize == 512 && w.a.capacity == 58 && !w.a.centralFree && !w.a.coalesce
    && |w.live| == live && (forall i :: 3 <= i < live ==> w.live[i].size == 7)
    && !w.a.past.overrun
  }

  // ------------------------------------------------------------------ taking 73 extents

  ghost predicate Taken(w: World, n: nat) {
    && Plain(w, 3 + n) && n <= 73
    && w.a.header == [] && w.a.stack == [] && !w.a.headerChanged
    && (if n < 73 then |w.a.bucket| == 1 && w.a.bucket[0].size == 512 - 7 * n else w.a.bucket == [])
  }

  lemma TakeOne(w: World, n: nat)
    requires Taken(w, n) && n < 73
    ensures Taken(Step(w, AllocReq(7)), n + 1)
  {
    StepOk(w, AllocReq(7));
    var (a1, e) := Source(w.a, 7);
    assert a1.bucket == [] && e.size == 512 - 7 * n;
    assert n < 72 ==> Put([], Rest(e, 7), false) == [Rest(e, 7)];
  }

  // ------------------------------------------------------------------ giving 65 of them back

  function InHeader(f: nat): nat {
    if f <= 6 then 0 else if f <= 62 then f - 4 else 58
  }

  function InBucket(f: nat): nat {
    if f <= 6 then f else if f <= 62 then 4 else if f <= 64 then f - 58 else 0
  }

  ghost predicate Given(w: World, f: nat) {
    && f <= 64 && Plain(w, 76 - f)
    && Sevens(w.a.header, InHeader(f)) && Sevens(w.a.bucket, InBucket(f)) && w.a.stack == []
    && w.a.headerChanged == (f > 6)
  }

  /** What the loop of adjust_bucket_avail does to one entry. */
  lemma ShedOne(a: Avail, h: nat, k: nat)
    requires Sevens(a.bucket, k) && k > 4 && |a.header| < a.capacity && !a.coalesce
    ensures Shed(a) == Shed(a.(header := Put(a.header, a.bucket[0], false), bucket := a.bucket[1..], bucketChanged := true))
    ensures Sevens(a.bucket[1..], k - 1)
    ensures Sevens(a.header, h) ==> Sevens(Put(a.header, a.bucket[0], false), h + 1)
    ensures SevensAndOne(a.header, h) ==> SevensAndOne(Put(a.header, a.bucket[0], false), h + 1)
  {
    PutSeven(a.header, h, a.bucket[0]);
  }

  lemma SevensLength(t: seq<Extent>, n: nat)
    requires Sevens(t, n)
    ensures |t| == n
  {
  }

  lemma ShedsAll(a: Avail, h: nat, k: nat)
    requires Sevens(a.bucket, k) && k <= 6 && !a.coalesce
    requires k > 4 ==> |a.header| + (k - 4) <= a.capacity
    ensures var a' := Shed(a); var n := if k > 4 then k - 4 else 0;
      && Sevens(a'.bucket, k - n) && a'.stack == a.stack && a'.headerChanged == a.headerChanged
      && (Sevens(a.header, h) ==> Sevens(a'.header, h + n))
      && (SevensAndOne(a.header, h) ==> SevensAndOne(a'.header, h + n))
    decreases k
  {
    hide Put, Sevens, SevensAndOne;
    SevensLength(a.bucket, k);
    if k > 4 {
      ShedOne(a, h, k);
      PutLength(a.header, a.bucket[0], false);
      var a1 := a.(header := Put(a.header, a.bucket[0], false), bucket := a.bucket[1..], bucketChanged := true);
      if k > 5 {
        ShedOne(a1, h + 1, k - 1);
      }
    }
  }

  lemma GiveOne(w: World, f: nat)
    requires Given(w, f) && f < 64
    ensures Given(Step(w, FreeReq(75 - f)), f + 1)
  {
    StepOk(w, FreeReq(75 - f));
    var e := w.live[75 - f];
    assert Without(w.live, 75 - f) == w.live[..75 - f];
    FreeRoom(w.a, e);
    FreeValid(w.a, e);
    GivenBack(w.a, e, f);
  }

  lemma GivenBack(a: Avail, e: Extent, f: nat)
    requires f < 64 && e.size == 7 && a.blockSize == 512 && a.capacity == 58 && !a.centralFree && !a.coalesce
    requires Sevens(a.header, InHeader(f)) && Sevens(a.bucket, InBucket(f)) && a.headerChanged == (f > 6)
    ensures var a' := Free(a, e);
      && Sevens(a'.header, InHeader(f + 1)) && Sevens(a'.bucket, InBucket(f + 1))
      && a'.stack == a.stack && a'.headerChanged == (f + 1 > 6)
  {
    PutSeven(a.bucket, InBucket(f), e);
    PutSeven(a.header, InHeader(f), e);
    if f == 6 {
      ShedsAll(a.(header := Put(a.header, e, false), headerChanged := true), 1, 6);
    } else if 6 < f < 62 {
      ShedsAll(a.(bucket := Put(a.bucket, e, false)), InHeader(f), 5);
    }
  }

  // ------------------------------------------------------------------ the push, and taking 8 again

  /** The 65th found the bucket's and the header's table full, and no entry there of 252 bytes; half of
      the header's entries are on the stack.  Then `j` extents were taken again. */
  ghost predicate Retaken(w: World, j: nat) {
    && j <= 8 && Plain(w, 11 + j)
    && SevensAndOne(w.a.header, if j < 4 then 32 else 36 - j) && Sevens(w.a.bucket, if j < 4 then 4 - j else 0)
    && |w.a.stack| == 1 && |w.a.stack[0].table| == 29
  }

  lemma PushesFull(a: Avail)
    requires a.blockSize == 512 && a.capacity == 58 && !a.centralFree && !a.coalesce
    requires Sevens(a.header, 58) && Sevens(a.bucket, 6) && a.stack == [] && Valid(a)
    ensures var a' := Push(a);
      && SevensAndOne(a'.header, 31) && Sevens(a'.bucket, 4)
      && |a'.stack| == 1 && |a'.stack[0].table| == 29 && SameParameters(a, a')
  {
    hide Halve, Put, Shed;
    PushValid(a);
    HalvesFull(a);
    var (a1, loc) := Halve(a);
    PutLarge(a1.header, 29, Rest(loc, 252));
    PutLength(a1.header, Rest(loc, 252), false);
    ShedsAll(a1.(header := Put(a1.header, Rest(loc, 252), false), headerChanged := true), 29, 6);
  }

  lemma HalvesFull(a: Avail)
    requires a.blockSize == 512 && a.capacity == 58
    requires Sevens(a.header, 58) && a.stack == []
    ensures var (a1, loc) := Halve(a);
      && Sevens(a1.header, 29) && |a1.stack| == 1 && |a1.stack[0].table| == 29
      && loc.size == 512 && SameParameters(a, a1) && a1.bucket == a.bucket
  {
    assert FirstFit(a.header, 252) == 58;
    assert BlockBytes(512, 252) == 512;
    HalvesOfSevens(a.header, 29);
  }

  lemma GiveLast(w: World)
    requires Given(w, 64)
    ensures Retaken(Step(w, FreeReq(11)), 0)
  {
    StepOk(w, FreeReq(11));
    var e := w.live[11];
    assert Without(w.live, 11) == w.live[..11];
    FreeRoom(w.a, e);
    FreeValid(w.a, e);
    PushesFull(w.a);
    var a1 := Push(w.a);
    PutSeven(a1.header, 31, e);
    var a2 := a1.(header := Put(a1.header, e, false), headerChanged := true);
    ShedsAll(a2, 32, 4);
  }

  lemma TakeAgain(w: World, j: nat)
    requires Retaken(w, j) && j < 8
    ensures Retaken(Step(w, AllocReq(7)), j + 1)
  {
    StepOk(w, AllocReq(7));
    AllocRoom(w.a, 7);
    AllocValid(w.a, 7);
    if j < 4 {
      assert FirstFit(w.a.bucket, 7) == 0;
    } else {
      assert FirstFit(w.a.header, 7) == 0;
    }
  }

  // ------------------------------------------------------------------ the whole run

  lemma {:induction false} RunConcat(w: World, rs: seq<Request>, r: Request)
    requires WorldOk(w)
    ensures WorldOk(Run(w, rs)) && Run(w, rs + [r]) == Step(Run(w, rs), r)
    decreases rs
  {
    RunSafe(w, rs);
    if rs == [] {
      assert [r][1..] == [];
      StepOk(w, r);
    } else {
      StepOk(w, rs[0]);
      RunConcat(Step(w, rs[0]), rs[1..], r);
      assert (rs + [r])[1..] == rs[1..] + [r];
    }
  }

  /** The first `n` requests. */
  function Requests(n: nat): (rs: seq<Request>)
    ensures |rs| == n
  {
    seq(n, i requires 0 <= i < n =>
      if i < 73 then AllocReq(7) else if i < 138 then FreeReq(148 - i) else if i < 146 then AllocReq(7) else AllocReq(300))
  }

  ghost predicate After(w: World, n: nat) {
    && WorldOk(w)
    && (n <= 73 ==> Taken(w, n))
    && (73 <= n <= 137 ==> Given(w, n - 73))
    && (138 <= n <= 146 ==> Retaken(w, n - 138))
  }

  lemma TakenAll(w: World)
    requires Taken(w, 73)
    ensures Given(w, 0)
  {
  }

  lemma NextRequest(w: World, m: nat)
    requires m < 146 && After(w, m)
    ensures After(Step(w, Requests(m + 1)[m]), m + 1)
  {
    hide Taken, Given, Retaken, Step;
    StepOk(w, Requests(m + 1)[m]);
    if m < 73 {
      TakeOne(w, m);
      if m == 72 {
        TakenAll(Step(w, AllocReq(7)));
      }
    } else if m < 137 {
      GiveOne(w, m - 73);
    } else if m == 137 {
      GiveLast(w);
    } else {
      TakeAgain(w, m - 138);
    }
  }

  lemma NothingTaken()
    ensures WorldOk(NewFile(512, 58)) && After(NewFile(512, 58), 0)
  {
    NewFileOk(512, 58);
  }

  lemma {:induction false} AfterRequests(n: nat)
    requires n <= 146
    ensures WorldOk(NewFile(512, 58)) && After(Run(NewFile(512, 58), Requests(n)), n)
  {
    hide After, WorldOk, NewFile, Step;
    NothingTaken();
    var w0 := NewFile(512, 58);
    if n > 0 {
      var m := n - 1;
      AfterRequests(m);
      assert Requests(n) == Requests(m) + [Requests(n)[m]];
      RunConcat(w0, Requests(m), Requests(n)[m]);
      NextRequest(Run(w0, Requests(m)), m);
    }
  }

  lemma PopsWithoutRoom(w: World)
    requires Retaken(w, 8)
    ensures WorldOk(w) && Fits(w.a) && !w.a.past.overrun && w.a.stack != []
    ensures WillPop(w.a, 300) && !PopFits(w.a) && |Pop(w.a).header| == 59
    ensures Step(w, AllocReq(300)).a.past.overrun
  {
    AllocRoom(w.a, 300);
    var top := w.a.stack[0];
    PutAllLength(w.a.header, top.table, false);
    PutLength(PutAll(w.a.header, top.table, false), Extent(StackSize(58), top.adr), false);
  }

  lemma AfterAll(w: World)
    requires After(w, 146)
    ensures Retaken(w, 8)
  {
  }

  /** From a new file of 512-byte blocks, whose header has room for 58 entries, 147 requests lead to a
      pop of 29 entries and their block into a table of 29: one more than the array holds. */
  lemma PopOverruns()
    ensures WorldOk(NewFile(512, 58))
    ensures var w := Run(NewFile(512, 58), Requests(146));
      && WorldOk(w) && Fits(w.a) && !w.a.past.overrun && w.a.stack != []
      && WillPop(w.a, 300) && !PopFits(w.a) && |Pop(w.a).header| == 59
    ensures Run(NewFile(512, 58), Requests(147)).a.past.overrun
  {
    hide Run, After, Retaken, NewFile, Step, WorldOk;
    AfterRequests(146);
    var w0 := NewFile(512, 58);
    AfterAll(Run(w0, Requests(146)));
    PopsWithoutRoom(Run(w0, Requests(146)));
    assert Requests(147) == Requests(146) + [AllocReq(300)];
    RunConcat(w0, Requests(146), AllocReq(300));
  }
}
