/** The extendible-hash directory: slots indexed by the top bits of a 31-bit hash, doubled and
    redirected when a bucket splits (lib/gdbm/bucket.c:198-224, 265-275). */
module Directory {
  import opened Extents
  import opened Probing

  const HASH_BITS: nat := 31

  /** A hash bucket: its own free extents, the number of hash bits it was reached by, the number
      of entries, and the table (lib/gdbm/gdbmdefs.h:119-125). */
  datatype Bucket = Bucket(av: seq<Extent>, bits: nat, count: nat, table: seq<Element>)

  type Live = map<nat, Bucket>

  // ------------------------------------------------------------------ shifts

  /** C's x >> k. */
  function Shr(x: nat, k: nat): nat {
    if k == 0 then x else Shr(x, k - 1) / 2
  }

  /** C's x << k. */
  function Shl(x: nat, k: nat): nat {
    if k == 0 then x else 2 * Shl(x, k - 1)
  }

  lemma {:induction false} ShrAdd(x: nat, j: nat, k: nat)
    ensures Shr(x, j + k) == Shr(Shr(x, j), k)
  {
    if k > 0 {
      ShrAdd(x, j, k - 1);
    }
  }

  lemma {:induction false} ShlAdd(x: nat, j: nat, k: nat)
    ensures Shl(x, j + k) == Shl(Shl(x, j), k)
  {
    if k > 0 {
      ShlAdd(x, j, k - 1);
    }
  }

  lemma {:induction false} ShlMonotone(x: nat, y: nat, k: nat)
    requires x <= y
    ensures Shl(x, k) <= Shl(y, k)
    ensures Shl(y, k) - Shl(x, k) >= y - x
  {
    if k > 0 {
      ShlMonotone(x, y, k - 1);
    }
  }

  lemma {:induction false} ShlSum(x: nat, y: nat, k: nat)
    ensures Shl(x + y, k) == Shl(x, k) + Shl(y, k)
  {
    if k > 0 {
      ShlSum(x, y, k - 1);
    }
  }

  /** The values with the same upper bits form an interval. */
  lemma {:induction false} ShrInterval(x: nat, k: nat, p: nat)
    ensures Shr(x, k) == p <==> Shl(p, k) <= x < Shl(p + 1, k)
  {
    if k > 0 {
      ShrAdd(x, 1, k - 1);
      assert Shr(x, 1) == x / 2 by { assert Shr(x, 0) == x; }
      ShrInterval(x / 2, k - 1, p);
    }
  }

  lemma ShrBelow(x: nat, j: nat, k: nat)
    requires x < Shl(1, j + k)
    ensures Shr(x, j) < Shl(1, k)
  {
    ShlAdd(1, k, j);
    var p := Shr(x, j);
    ShrInterval(x, j, p);
    if p >= Shl(1, k) {
      ShlMonotone(Shl(1, k), p, j);
    }
  }

  // ------------------------------------------------------------------ the directory

  function Slot(hash: nat, dirBits: nat): nat
    requires dirBits <= HASH_BITS
  {
    Shr(hash, HASH_BITS - dirBits)
  }

  lemma SlotInRange(hash: nat, dirBits: nat)
    requires dirBits <= HASH_BITS && hash < Shl(1, HASH_BITS)
    ensures Slot(hash, dirBits) < Shl(1, dirBits)
  {
    ShrBelow(hash, HASH_BITS - dirBits, dirBits);
  }

  /** The directory has one slot per prefix, and two slots hold the same address exactly when they
      agree on the bits of that bucket; every live bucket has a slot. */
  ghost predicate DirOk(dir: seq<nat>, dirBits: nat, live: Live) {
    && dirBits <= HASH_BITS
    && |dir| == Shl(1, dirBits)
    && (forall i :: 0 <= i < |dir| ==> dir[i] in live && live[dir[i]].bits <= dirBits)
    && (forall i, j :: 0 <= i < |dir| && 0 <= j < |dir| ==> Shares(dir, dirBits, live[dir[i]].bits, i, j))
    && (forall a :: a in live ==> a in dir)
  }

  /** Slots i and j hold the same address exactly when their top `bits` bits agree. */
  ghost predicate Shares(dir: seq<nat>, dirBits: nat, bits: nat, i: nat, j: nat)
    requires bits <= dirBits && i < |dir| && j < |dir|
  {
    dir[i] == dir[j] <==> Shr(i, dirBits - bits) == Shr(j, dirBits - bits)
  }

  ghost predicate HashOk(hash: int) {
    0 <= hash < Shl(1, HASH_BITS)
  }

  /** Every entry sits in the bucket that its hash prefix selects. */
  ghost predicate EntriesHome(dir: seq<nat>, dirBits: nat, live: Live)
    requires dirBits <= HASH_BITS && |dir| == Shl(1, dirBits)
  {
    forall a, i :: a in live && 0 <= i < |live[a].table| && Used(live[a].table[i]) ==>
      HomeIs(dir, dirBits, live[a].table[i].hash, a)
  }

  ghost predicate HomeIs(dir: seq<nat>, dirBits: nat, hash: int, a: nat)
    requires dirBits <= HASH_BITS && |dir| == Shl(1, dirBits)
  {
    HashOk(hash) && (SlotInRange(hash, dirBits); dir[Slot(hash, dirBits)] == a)
  }

  // ------------------------------------------------------------------ doubling

  function Doubled(dir: seq<nat>): seq<nat> {
    seq(2 * |dir|, i requires 0 <= i < 2 * |dir| => dir[i / 2])
  }

  lemma ShrHalf(x: nat, k: nat)
    ensures Shr(x, k + 1) == Shr(x / 2, k)
  {
    ShrAdd(x, 1, k);
    assert Shr(x, 1) == x / 2 by { assert Shr(x, 0) == x; }
  }

  /** Doubling the directory changes neither which slots share a bucket ... */
  lemma DoublingKeepsDirectory(dir: seq<nat>, d: nat, live: Live)
    requires DirOk(dir, d, live) && d < HASH_BITS
    ensures DirOk(Doubled(dir), d + 1, live)
  {
    var dd := Doubled(dir);
    var d' := d + 1;
    forall i, j | 0 <= i < |dd| && 0 <= j < |dd|
      ensures Shares(dd, d', live[dd[i]].bits, i, j)
    {
      var b := live[dir[i / 2]].bits;
      assert Shares(dir, d, b, i / 2, j / 2);
      ShrHalf(i, d - b);
      ShrHalf(j, d - b);
    }
    forall a | a in live ensures a in dd {
      var i :| 0 <= i < |dir| && dir[i] == a;
      assert dd[2 * i] == a;
    }
  }

  /** ... nor which bucket a hash leads to. */
  lemma DoublingKeepsHome(dir: seq<nat>, d: nat, hash: int, a: nat)
    requires d < HASH_BITS && |dir| == Shl(1, d) && HomeIs(dir, d, hash, a)
    ensures HomeIs(Doubled(dir), d + 1, hash, a)
  {
    SlotInRange(hash, d);
    SlotInRange(hash, d + 1);
    assert Slot(hash, d) == Slot(hash, d + 1) / 2;
  }

  // ------------------------------------------------------------------ splitting

  /** Which of the two new buckets an entry goes to (lib/gdbm/bucket.c:230). */
  function Select(hash: nat, newBits: nat): (bit: nat)
    requires newBits <= HASH_BITS
    ensures bit < 2
  {
    Shr(hash, HASH_BITS - newBits) % 2
  }

  function OrOne(x: nat): nat {
    if x % 2 == 1 then x else x + 1
  }

  /** First slot of the upper half that the split redirects. */
  function UpperStart(cur: nat, d: nat, newBits: nat): nat
    requires newBits <= d
  {
    Shl(OrOne(Shr(cur, d - newBits)), d - newBits)
  }

  function UpperEnd(cur: nat, d: nat, newBits: nat): nat
    requires newBits <= d
  {
    Shl(OrOne(Shr(cur, d - newBits)) + 1, d - newBits)
  }

  /** The slots redirected by the split are exactly those of the old bucket, the lower half of
      them for its 0-side and the upper half for its 1-side. */
  lemma SplitRanges(cur: nat, d: nat, newBits: nat, i: nat)
    requires 0 < newBits <= d
    ensures var s1 := UpperStart(cur, d, newBits); var e := UpperEnd(cur, d, newBits);
      && s1 - (e - s1) >= 0 && e >= s1
      && (s1 - (e - s1) <= i < e <==> Shr(i, d - newBits + 1) == Shr(cur, d - newBits + 1))
      && (s1 - (e - s1) <= i < e ==> (i >= s1 <==> Shr(i, d - newBits) % 2 == 1))
  {
    var m := d - newBits;
    var x := OrOne(Shr(cur, m));
    ShlSum(x, 1, m);
    ShlSum(x - 1, 1, m);
    assert (x - 1) / 2 == Shr(cur, m) / 2 && (x - 1) % 2 == 0;
    ShrInterval(i, m, x - 1);
    ShrInterval(i, m, x);
  }

  lemma UpperEndInRange(cur: nat, d: nat, newBits: nat)
    requires 0 < newBits <= d && cur < Shl(1, d)
    ensures UpperEnd(cur, d, newBits) <= Shl(1, d)
  {
    var m := d - newBits;
    var x := OrOne(Shr(cur, m));
    ShrBelow(cur, m, newBits);
    assert Shl(1, newBits) == 2 * Shl(1, newBits - 1);
    assert x + 1 <= Shl(1, newBits);
    ShlMonotone(x + 1, Shl(1, newBits), m);
    ShlAdd(1, newBits, m);
  }

  /** The directory after a split, slot by slot. */
  function Redirected(dir: seq<nat>, lo: nat, mid: nat, hi: nat, a0: nat, a1: nat): seq<nat> {
    seq(|dir|, i requires 0 <= i < |dir| =>
      if lo <= i < mid then a0 else if mid <= i < hi then a1 else dir[i])
  }

  /** What the split does to slot i: unless it held the old bucket, nothing; otherwise the next
      bit of the slot number decides between the two new buckets. */
  ghost predicate SplitSlots(dir: seq<nat>, dir': seq<nat>, d: nat, a: nat, newBits: nat, a0: nat, a1: nat)
    requires newBits <= d
  {
    && |dir'| == |dir|
    && forall i :: 0 <= i < |dir| ==>
         dir'[i] == if dir[i] != a then dir[i]
                    else if Shr(i, d - newBits) % 2 == 0 then a0 else a1
  }

  lemma RedirectedIsSplit(dir: seq<nat>, d: nat, live: Live, cur: nat, a0: nat, a1: nat)
    requires DirOk(dir, d, live) && cur < |dir| && live[dir[cur]].bits < d
    ensures var nb := live[dir[cur]].bits + 1;
      var mid := UpperStart(cur, d, nb); var hi := UpperEnd(cur, d, nb);
      && 0 <= 2 * mid - hi
      && SplitSlots(dir, Redirected(dir, 2 * mid - hi, mid, hi, a0, a1), d, dir[cur], nb, a0, a1)
  {
    var nb := live[dir[cur]].bits + 1;
    var mid := UpperStart(cur, d, nb);
    var hi := UpperEnd(cur, d, nb);
    SplitRanges(cur, d, nb, 0);
    var dir' := Redirected(dir, 2 * mid - hi, mid, hi, a0, a1);
    forall i | 0 <= i < |dir|
      ensures dir'[i] == if dir[i] != dir[cur] then dir[i]
                         else if Shr(i, d - nb) % 2 == 0 then a0 else a1
    {
      SplitRanges(cur, d, nb, i);
      assert Shares(dir, d, nb - 1, cur, i);
    }
  }

  /** Both new buckets get at least one slot. */
  lemma SplitHasBoth(dir: seq<nat>, dir': seq<nat>, d: nat, live: Live, cur: nat, a0: nat, a1: nat)
    requires DirOk(dir, d, live) && cur < |dir| && live[dir[cur]].bits < d
    requires SplitSlots(dir, dir', d, dir[cur], live[dir[cur]].bits + 1, a0, a1)
    ensures a0 in dir' && a1 in dir'
  {
    var nb := live[dir[cur]].bits + 1;
    var m := d - nb;
    var p := Shr(cur, m) / 2;
    var i0, i1 := Shl(2 * p, m), Shl(2 * p + 1, m);
    UpperEndInRange(cur, d, nb);
    ShlSum(2 * p, 1, m);
    ShlSum(2 * p + 1, 1, m);
    ShlMonotone(0, 1, m);
    assert OrOne(Shr(cur, m)) == 2 * p + 1;
    ShrInterval(i0, m, 2 * p);
    ShrInterval(i1, m, 2 * p + 1);
    assert Shr(i0, m + 1) == p && Shr(i1, m + 1) == p && Shr(cur, m + 1) == p;
    assert Shares(dir, d, nb - 1, cur, i0) && Shares(dir, d, nb - 1, cur, i1);
    assert dir'[i0] == a0 && dir'[i1] == a1;
  }

  ghost predicate SplitLive(live: Live, live': Live, a: nat, a0: nat, a1: nat)
    requires a in live
  {
    && a0 !in live && a1 !in live && a0 != a1
    && live'.Keys == live.Keys - {a} + {a0, a1}
    && (forall x :: x in live && x != a ==> live'[x] == live[x])
    && live'[a0].bits == live[a].bits + 1 && live'[a1].bits == live[a].bits + 1
  }

  /** A split keeps the directory's law for the new set of buckets. */
  lemma SplitKeepsDirectory(dir: seq<nat>, dir': seq<nat>, d: nat, live: Live, live': Live,
                            cur: nat, a0: nat, a1: nat)
    requires DirOk(dir, d, live) && cur < |dir| && live[dir[cur]].bits < d
    requires SplitSlots(dir, dir', d, dir[cur], live[dir[cur]].bits + 1, a0, a1)
    requires SplitLive(live, live', dir[cur], a0, a1)
    ensures DirOk(dir', d, live')
  {
    var a := dir[cur];
    var nb := live[a].bits + 1;
    forall i, j | 0 <= i < |dir'| && 0 <= j < |dir'|
      ensures Shares(dir', d, live'[dir'[i]].bits, i, j)
    {
      assert dir[j] in live;
      assert Shares(dir, d, live[dir[i]].bits, i, j);
      if dir[i] == a {
        assert Shr(i, d - nb + 1) == Shr(i, d - nb) / 2 && Shr(j, d - nb + 1) == Shr(j, d - nb) / 2;
      }
    }
    SplitHasBoth(dir, dir', d, live, cur, a0, a1);
    forall x | x in live' ensures x in dir' {
      if x != a0 && x != a1 {
        var i :| 0 <= i < |dir| && dir[i] == x;
        assert dir'[i] == x;
      }
    }
  }

  /** After a split a hash leads to the same bucket as before, or, if it led to the bucket that was
      split, to the side its next bit selects. */
  lemma SplitKeepsHome(dir: seq<nat>, dir': seq<nat>, d: nat, a: nat, newBits: nat, a0: nat, a1: nat,
                       hash: int, x: nat)
    requires 0 < newBits <= d <= HASH_BITS && |dir| == Shl(1, d)
    requires SplitSlots(dir, dir', d, a, newBits, a0, a1)
    requires HomeIs(dir, d, hash, x)
    ensures HomeIs(dir', d, hash, if x != a then x else if Select(hash, newBits) == 0 then a0 else a1)
  {
    SlotInRange(hash, d);
    ShrAdd(hash, HASH_BITS - d, d - newBits);
  }
}
