/** Free extents of a database file and the sorted tables that hold them
    (lib/gdbm/falloc.c, the routines that touch one table only).

    Ownership of the file is counted byte by byte: `Cover(t, b)` says how many extents of
    the table `t` contain byte `b`.  Every routine below is described by what it does to
    that count, so "handed out twice" becomes "some byte is counted twice". */
module Extents {

  const IGNORE_SIZE: nat := 4

  datatype Extent = Extent(size: nat, adr: nat)

  function In(e: Extent, b: nat): nat {
    if e.adr <= b < e.adr + e.size then 1 else 0
  }

  function Cover(t: seq<Extent>, b: nat): nat {
    if t == [] then 0 else In(t[0], b) + Cover(t[1..], b)
  }

  ghost predicate Sorted(t: seq<Extent>) {
    forall i, j :: 0 <= i < j < |t| ==> t[i].size <= t[j].size
  }

  /** No table entry is so small that the code would ignore it. */
  ghost predicate Big(t: seq<Extent>) {
    forall i :: 0 <= i < |t| ==> t[i].size > IGNORE_SIZE
  }

  /** The position both searches of falloc.c stop at: the first entry of at least `size` bytes. */
  function FirstFit(t: seq<Extent>, size: nat): (i: nat)
    ensures i <= |t|
    ensures forall j :: 0 <= j < i ==> t[j].size < size
    ensures i < |t| ==> t[i].size >= size
  {
    if t == [] || t[0].size >= size then 0 else 1 + FirstFit(t[1..], size)
  }

  /** What is left of a table when `get_elem` takes its first fit. */
  function TakeFit(t: seq<Extent>, size: nat): seq<Extent> {
    var i := FirstFit(t, size);
    if i == |t| then t else t[..i] + t[i + 1..]
  }

  predicate Abut(x: Extent, e: Extent) {
    x.adr + x.size == e.adr || e.adr + e.size == x.adr
  }

  function Merge(x: Extent, e: Extent): Extent
    requires Abut(x, e)
  {
    if x.adr + x.size == e.adr
    then Extent(x.size + e.size, x.adr)
    else Extent(x.size + e.size, e.adr)
  }

  /** The first entry the new one can be merged with. */
  function FirstAbut(t: seq<Extent>, e: Extent): (i: nat)
    ensures i <= |t|
    ensures forall j :: 0 <= j < i ==> !Abut(t[j], e)
    ensures i < |t| ==> Abut(t[i], e)
  {
    if t == [] || Abut(t[0], e) then 0 else 1 + FirstAbut(t[1..], e)
  }

  function Insert(t: seq<Extent>, e: Extent): seq<Extent> {
    var i := FirstFit(t, e.size);
    t[..i] + [e] + t[i..]
  }

  /** The table after `_gdbm_put_av_elem`. */
  function Put(t: seq<Extent>, e: Extent, canMerge: bool): seq<Extent> {
    if e.size <= IGNORE_SIZE then t
    else
      var i := FirstAbut(t, e);
      if canMerge && i < |t| then t[i := Merge(t[i], e)] else Insert(t, e)
  }

  /** Inserting a whole table, entry by entry, in order. */
  function PutAll(t: seq<Extent>, es: seq<Extent>, canMerge: bool): seq<Extent>
    decreases es
  {
    if es == [] then t else PutAll(Put(t, es[0], canMerge), es[1..], canMerge)
  }

  // ------------------------------------------------------------------ byte counts

  lemma {:induction false} CoverConcat(s: seq<Extent>, t: seq<Extent>, b: nat)
    ensures Cover(s + t, b) == Cover(s, b) + Cover(t, b)
  {
    if s == [] {
      assert s + t == t;
    } else {
      assert (s + t)[1..] == s[1..] + t;
      CoverConcat(s[1..], t, b);
    }
  }

  lemma CoverSplit(t: seq<Extent>, i: nat, b: nat)
    requires i < |t|
    ensures Cover(t, b) == Cover(t[..i], b) + In(t[i], b) + Cover(t[i + 1..], b)
  {
    assert t == t[..i] + t[i..];
    CoverConcat(t[..i], t[i..], b);
    assert t[i..][1..] == t[i + 1..];
  }

  lemma CoverOne(e: Extent, b: nat)
    ensures Cover([e], b) == In(e, b)
  {
    assert [e][1..] == [];
  }

  lemma CoverAppend(t: seq<Extent>, e: Extent, b: nat)
    ensures Cover(t + [e], b) == Cover(t, b) + In(e, b)
  {
    CoverConcat(t, [e], b);
    CoverOne(e, b);
  }

  lemma CoverUpdate(t: seq<Extent>, i: nat, e: Extent, b: nat)
    requires i < |t|
    ensures Cover(t[i := e], b) + In(t[i], b) == Cover(t, b) + In(e, b)
  {
    var u := t[i := e];
    CoverSplit(t, i, b);
    CoverSplit(u, i, b);
    assert u[..i] == t[..i] && u[i + 1..] == t[i + 1..];
  }

  /** Two different entries of a table that covers no byte twice cannot share a byte. */
  lemma CoverTwo(t: seq<Extent>, i: nat, j: nat, b: nat)
    requires i < j < |t|
    ensures In(t[i], b) + In(t[j], b) <= Cover(t, b)
  {
    CoverSplit(t, i, b);
    CoverSplit(t[i + 1..], j - i - 1, b);
  }

  /** Taking an extent out of a table moves exactly its bytes. */
  lemma TakeCover(t: seq<Extent>, size: nat, b: nat)
    requires FirstFit(t, size) < |t|
    ensures Cover(TakeFit(t, size), b) + In(t[FirstFit(t, size)], b) == Cover(t, b)
  {
    var i := FirstFit(t, size);
    CoverSplit(t, i, b);
    CoverConcat(t[..i], t[i + 1..], b);
  }

  /** Merging two abutting extents covers exactly the bytes the two covered. */
  lemma MergeCover(x: Extent, e: Extent, b: nat)
    requires Abut(x, e)
    ensures In(Merge(x, e), b) == In(x, b) + In(e, b)
  {
  }

  /** Putting an extent into a table adds exactly its bytes, merging or not; an extent the
      code ignores adds nothing. */
  lemma PutCover(t: seq<Extent>, e: Extent, canMerge: bool, b: nat)
    ensures Cover(Put(t, e, canMerge), b)
         == Cover(t, b) + (if e.size <= IGNORE_SIZE then 0 else In(e, b))
  {
    if e.size > IGNORE_SIZE {
      var i := FirstAbut(t, e);
      if canMerge && i < |t| {
        CoverUpdate(t, i, Merge(t[i], e), b);
        MergeCover(t[i], e, b);
      } else {
        var k := FirstFit(t, e.size);
        CoverConcat(t[..k] + [e], t[k..], b);
        CoverAppend(t[..k], e, b);
        assert t == t[..k] + t[k..];
        CoverConcat(t[..k], t[k..], b);
      }
    }
  }

  lemma PutBig(t: seq<Extent>, e: Extent, canMerge: bool)
    requires Big(t)
    ensures Big(Put(t, e, canMerge))
  {
  }

  lemma {:induction false} PutAllCover(t: seq<Extent>, es: seq<Extent>, canMerge: bool, b: nat)
    requires Big(es)
    ensures Cover(PutAll(t, es, canMerge), b) == Cover(t, b) + Cover(es, b)
    decreases es
  {
    if es == [] {
    } else {
      PutCover(t, es[0], canMerge, b);
      PutAllCover(Put(t, es[0], canMerge), es[1..], canMerge, b);
    }
  }

  lemma {:induction false} PutAllBig(t: seq<Extent>, es: seq<Extent>, canMerge: bool)
    requires Big(t)
    ensures Big(PutAll(t, es, canMerge))
    decreases es
  {
    if es == [] {
    } else {
      PutBig(t, es[0], canMerge);
      PutAllBig(Put(t, es[0], canMerge), es[1..], canMerge);
    }
  }

  // ------------------------------------------------------------------ order by size

  lemma TakeSorted(t: seq<Extent>, size: nat)
    requires Sorted(t)
    ensures Sorted(TakeFit(t, size))
  {
  }

  /** Without merging a table stays sorted by size. */
  lemma PutSorted(t: seq<Extent>, e: Extent)
    requires Sorted(t)
    ensures Sorted(Put(t, e, false))
  {
  }

  lemma {:induction false} PutAllSorted(t: seq<Extent>, es: seq<Extent>)
    requires Sorted(t)
    ensures Sorted(PutAll(t, es, false))
    decreases es
  {
    if es == [] {
    } else {
      PutSorted(t, es[0]);
      PutAllSorted(Put(t, es[0], false), es[1..]);
    }
  }

  /** On a sorted table the first fit is a best fit: no entry that would do is smaller. */
  lemma FirstFitIsBestFit(t: seq<Extent>, size: nat, j: nat)
    requires Sorted(t)
    requires j < |t| && t[j].size >= size
    ensures FirstFit(t, size) < |t|
    ensures t[FirstFit(t, size)].size <= t[j].size
  {
    var i := FirstFit(t, size);
    assert i <= j;
  }

  lemma PutLength(t: seq<Extent>, e: Extent, canMerge: bool)
    ensures |t| <= |Put(t, e, canMerge)| <= |t| + 1
    ensures !canMerge && e.size > IGNORE_SIZE ==> |Put(t, e, canMerge)| == |t| + 1
  {
  }

  lemma {:induction false} PutAllLength(t: seq<Extent>, es: seq<Extent>, canMerge: bool)
    ensures |t| <= |PutAll(t, es, canMerge)| <= |t| + |es|
    ensures !canMerge && Big(es) ==> |PutAll(t, es, canMerge)| == |t| + |es|
    decreases es
  {
    if es == [] {
    } else {
      PutLength(t, es[0], canMerge);
      PutAllLength(Put(t, es[0], canMerge), es[1..], canMerge);
    }
  }
}
