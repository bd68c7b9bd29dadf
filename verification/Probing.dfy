/** The open-addressing table inside one hash bucket: linear probing from a home slot, first-free
    placement, and deletion by cyclic back-shift (lib/gdbm/gdbmdelete.c:72-96,
    lib/gdbm/bucket.c:226-239, lib/gdbm/gdbmstore.c:136-146). */
module Probing {

  /** A byte of a key or of data; `char` is signed. */
  type Char = x: int | -128 <= x < 128
  type Bytes = seq<Char>

  const NO_HASH: int := -1

  datatype Element = Element(hash: int, keyStart: Bytes, dataPointer: nat, keySize: nat, dataSize: nat)

  predicate Used(e: Element) {
    e.hash != NO_HASH
  }

  function Home(hash: int, n: nat): (h: nat)
    requires n > 0
    ensures h < n
  {
    hash % n
  }

  function Next(i: nat, n: nat): (j: nat)
    requires i < n
    ensures j < n
    ensures j == (i + 1) % n
  {
    if i + 1 == n then 0 else i + 1
  }

  /** Going forward from slot `h`, slot `k` comes strictly before slot `i`. */
  predicate Between(h: nat, k: nat, i: nat) {
    if h <= i then h <= k < i else k >= h || k < i
  }

  /** Cyclic distance from slot `h` forward to slot `i`. */
  function Distance(h: nat, i: nat, n: nat): nat
    requires h < n && i < n
  {
    if h <= i then i - h else n - h + i
  }

  /** Every entry can be reached from its home slot without crossing an empty slot. */
  ghost predicate Reachable(t: seq<Element>) {
    forall i, k :: 0 <= i < |t| && 0 <= k < |t| && Used(t[i]) && Between(Home(t[i].hash, |t|), k, i)
                   ==> Used(t[k])
  }

  // ------------------------------------------------------------------ contents of a table

  /** The total weight of the entries of a table.  Two tables hold the same entries, slots aside,
      when they agree on every weight; counting one key, or the bytes of the records, are
      particular weights. */
  function Sum(t: seq<Element>, w: Element -> nat): nat {
    if t == [] then 0 else (if Used(t[0]) then w(t[0]) else 0) + Sum(t[1..], w)
  }

  function Weight(e: Element, w: Element -> nat): nat {
    if Used(e) then w(e) else 0
  }

  lemma {:induction false} SumConcat(s: seq<Element>, t: seq<Element>, w: Element -> nat)
    ensures Sum(s + t, w) == Sum(s, w) + Sum(t, w)
  {
    if s == [] {
      assert s + t == t;
    } else {
      assert (s + t)[1..] == s[1..] + t;
      SumConcat(s[1..], t, w);
    }
  }

  lemma SumSplit(t: seq<Element>, i: nat, w: Element -> nat)
    requires i < |t|
    ensures Sum(t, w) == Sum(t[..i], w) + Weight(t[i], w) + Sum(t[i + 1..], w)
  {
    assert t == t[..i] + t[i..];
    SumConcat(t[..i], t[i..], w);
    assert t[i..][1..] == t[i + 1..];
  }

  lemma SumUpdate(t: seq<Element>, i: nat, e: Element, w: Element -> nat)
    requires i < |t|
    ensures Sum(t[i := e], w) + Weight(t[i], w) == Sum(t, w) + Weight(e, w)
  {
    var u := t[i := e];
    SumSplit(t, i, w);
    SumSplit(u, i, w);
    assert u[..i] == t[..i] && u[i + 1..] == t[i + 1..];
  }

  lemma SumAppend(t: seq<Element>, e: Element, w: Element -> nat)
    ensures Sum(t + [e], w) == Sum(t, w) + Weight(e, w)
  {
    SumConcat(t, [e], w);
    assert [e][1..] == [];
  }

  lemma SumTwo(t: seq<Element>, i: nat, j: nat, w: Element -> nat)
    requires i < j < |t|
    ensures Weight(t[i], w) + Weight(t[j], w) <= Sum(t, w)
  {
    SumSplit(t, i, w);
    SumSplit(t[i + 1..], j - i - 1, w);
  }

  /** A table with a positive weight has an entry of positive weight. */
  lemma {:induction false} SumWitness(t: seq<Element>, w: Element -> nat) returns (i: nat)
    requires Sum(t, w) > 0
    ensures i < |t| && Weight(t[i], w) > 0
  {
    if Weight(t[0], w) > 0 {
      i := 0;
    } else {
      var j := SumWitness(t[1..], w);
      i := j + 1;
    }
  }

  function One(): Element -> nat {
    e => 1
  }

  /** Number of entries. */
  function Count(t: seq<Element>): nat {
    Sum(t, One())
  }

  lemma {:induction false} CountBound(t: seq<Element>)
    ensures Count(t) <= |t|
    ensures Count(t) == |t| <==> forall i :: 0 <= i < |t| ==> Used(t[i])
  {
    if t != [] {
      CountBound(t[1..]);
      assert Count(t) == (if Used(t[0]) then 1 else 0) + Count(t[1..]);
      if Count(t) == |t| {
        forall i | 0 <= i < |t| ensures Used(t[i]) {
          if i > 0 { assert Used(t[1..][i - 1]); }
        }
      } else if forall i :: 0 <= i < |t| ==> Used(t[i]) {
        forall i | 0 <= i < |t[1..]| ensures Used(t[1..][i]) {
          assert Used(t[i + 1]);
        }
      }
    }
  }

  function IsElement(e: Element): Element -> nat {
    x => if x == e then 1 else 0
  }

  /** The weight of one entry is its multiplicity, so agreeing on weights is agreeing on multisets. */
  lemma {:induction false} SumIsMultiplicity(t: seq<Element>, e: Element)
    requires Used(e)
    ensures Sum(t, IsElement(e)) == multiset(t)[e]
  {
    if t != [] {
      SumIsMultiplicity(t[1..], e);
      assert t == [t[0]] + t[1..];
      assert multiset(t) == multiset{t[0]} + multiset(t[1..]);
    }
  }

  // ------------------------------------------------------------------ placement

  function EmptyTable(n: nat): (t: seq<Element>)
    ensures |t| == n
    ensures forall i :: 0 <= i < n ==> !Used(t[i])
  {
    seq(n, _ => Element(NO_HASH, [], 0, 0, 0))
  }

  lemma {:induction false} UnusedSum(t: seq<Element>, w: Element -> nat)
    requires forall i :: 0 <= i < |t| ==> !Used(t[i])
    ensures Sum(t, w) == 0
  {
    if t != [] {
      UnusedSum(t[1..], w);
    }
  }

  /** Placing an entry in the first empty slot from its home keeps every entry reachable. */
  lemma PlaceReachable(t: seq<Element>, i: nat, e: Element)
    requires Reachable(t) && i < |t| && Used(e) && !Used(t[i])
    requires forall k :: 0 <= k < |t| && Between(Home(e.hash, |t|), k, i) ==> Used(t[k])
    ensures Reachable(t[i := e])
  {
  }

  /** The probe both gdbm_store and the split use to place an entry: forward from the home slot
      to the first empty one.  It stops because some slot is empty. */
  method FindFree(t: seq<Element>, hash: int) returns (i: nat)
    requires Count(t) < |t|
    ensures i < |t| && !Used(t[i])
    ensures forall k :: 0 <= k < |t| && Between(Home(hash, |t|), k, i) ==> Used(t[k])
    ensures !Used(t[hash % |t|]) ==> i == hash % |t|
  {
    CountBound(t);
    ghost var free :| 0 <= free < |t| && !Used(t[free]);
    i := hash % |t|;
    ghost var home := i;
    assert home == Home(hash, |t|);
    while Used(t[i])
      invariant 0 <= i < |t|
      invariant forall k :: 0 <= k < |t| && Between(home, k, i) ==> Used(t[k])
      invariant i == free || !Between(home, free, i)
      invariant i == home || Used(t[home])
      decreases Distance(i, free, |t|)
    {
      i := Next(i, |t|);
    }
  }

  // ------------------------------------------------------------------ deletion

  /** All entries are reachable, except that those from `elem` on may still cross the hole at `last`. */
  ghost predicate ReachableButFor(t: seq<Element>, last: nat, elem: nat)
    requires last < |t|
  {
    forall i, k :: 0 <= i < |t| && 0 <= k < |t| && Used(t[i]) && Between(Home(t[i].hash, |t|), k, i)
                   ==> Used(t[k]) || (k == last && !Between(Next(last, |t|), i, elem))
  }

  /** Total cyclic displacement of the entries from their home slots, from slot `from` on. */
  ghost function Displacement(t: seq<Element>, from: nat): nat
    decreases |t| - from
  {
    if from >= |t| then 0
    else (if Used(t[from]) then Distance(Home(t[from].hash, |t|), from, |t|) else 0)
         + Displacement(t, from + 1)
  }

  ghost function DisplacedAt(t: seq<Element>, i: nat): nat
    requires i < |t|
  {
    if Used(t[i]) then Distance(Home(t[i].hash, |t|), i, |t|) else 0
  }

  lemma {:induction false} DisplacementUpdate(t: seq<Element>, i: nat, e: Element, from: nat)
    requires i < |t|
    ensures from > i ==> Displacement(t[i := e], from) == Displacement(t, from)
    ensures from <= i ==> Displacement(t[i := e], from) + DisplacedAt(t, i)
                          == Displacement(t, from) + DisplacedAt(t[i := e], i)
    decreases |t| - from
  {
    if from < |t| {
      DisplacementUpdate(t, i, e, from + 1);
    }
  }

  function Erase(t: seq<Element>, i: nat): seq<Element>
    requires i < |t|
  {
    t[i := t[i].(hash := NO_HASH)]
  }

  /** The code's test for moving the entry at `elem`, with home slot `home`, into the hole. */
  predicate MustMove(home: nat, last: nat, elem: nat) {
    || (last < elem && (home <= last || home > elem))
    || (last > elem && home <= last && home > elem)
  }

  lemma MustMoveMeaning(home: nat, last: nat, elem: nat)
    requires last != elem
    ensures MustMove(home, last, elem) <==> Between(home, last, elem)
  {
  }

  /** Moving the entry at `elem` into the hole brings it closer to its home slot. */
  lemma MoveDisplacement(t: seq<Element>, last: nat, elem: nat)
    requires last < |t| && elem < |t| && last != elem && !Used(t[last]) && Used(t[elem])
    requires Between(Home(t[elem].hash, |t|), last, elem)
    ensures Displacement(Erase(t[last := t[elem]], elem), 0) < Displacement(t, 0)
  {
    DisplacementUpdate(t, last, t[elem], 0);
    var u := t[last := t[elem]];
    DisplacementUpdate(u, elem, u[elem].(hash := NO_HASH), 0);
  }

  lemma MoveSum(t: seq<Element>, last: nat, elem: nat, w: Element -> nat)
    requires last < |t| && elem < |t| && last != elem && !Used(t[last])
    ensures Sum(Erase(t[last := t[elem]], elem), w) == Sum(t, w)
  {
    SumUpdate(t, last, t[elem], w);
    var u := t[last := t[elem]];
    SumUpdate(u, elem, u[elem].(hash := NO_HASH), w);
  }

  lemma MoveReachable(t: seq<Element>, last: nat, elem: nat)
    requires last < |t| && elem < |t| && last != elem && !Used(t[last]) && Used(t[elem])
    requires ReachableButFor(t, last, elem)
    requires Between(Home(t[elem].hash, |t|), last, elem)
    ensures ReachableButFor(Erase(t[last := t[elem]], elem), elem, Next(elem, |t|))
  {
    var u := Erase(t[last := t[elem]], elem);
    var n := |t|;
    forall i, k | 0 <= i < n && 0 <= k < n && Used(u[i]) && Between(Home(u[i].hash, n), k, i)
      ensures Used(u[k]) || (k == elem && !Between(Next(elem, n), i, Next(elem, n)))
    {
      if k != elem && k != last {
        if i == last {
          assert Between(Home(t[elem].hash, n), k, elem);
        } else {
          assert u[i] == t[i];
        }
      }
    }
  }

  lemma StayReachable(t: seq<Element>, last: nat, elem: nat)
    requires last < |t| && elem < |t| && last != elem && Used(t[elem])
    requires ReachableButFor(t, last, elem)
    requires !Between(Home(t[elem].hash, |t|), last, elem)
    ensures ReachableButFor(t, last, Next(elem, |t|))
  {
  }

  /** When the scan stops, at an empty slot or back at the hole, no entry crosses the hole. */
  lemma StopReachable(t: seq<Element>, last: nat, elem: nat)
    requires last < |t| && elem < |t| && !Used(t[last])
    requires ReachableButFor(t, last, elem)
    requires elem == last || !Used(t[elem])
    ensures Reachable(t)
  {
    var n := |t|;
    forall i, k | 0 <= i < n && 0 <= k < n && Used(t[i]) && Between(Home(t[i].hash, n), k, i)
      ensures Used(t[k])
    {
      if !Used(t[k]) {
        assert k == last && !Between(Next(last, n), i, elem);
        if elem != last {
          assert Between(Home(t[i].hash, n), elem, i);
          assert false;
        }
      }
    }
  }

  /** Deleting the entry in slot `loc`: every remaining entry stays, and stays reachable, whether
      or not the table has another empty slot. */
  method RemoveAt(t0: seq<Element>, loc: nat) returns (t: seq<Element>)
    requires loc < |t0| && Used(t0[loc]) && Reachable(t0)
    ensures |t| == |t0| && Reachable(t)
    ensures forall w: Element -> nat :: Sum(t, w) + w(t0[loc]) == Sum(t0, w)
  {
    t := Erase(t0, loc);
    forall w: Element -> nat ensures Sum(t, w) + w(t0[loc]) == Sum(t0, w) {
      SumUpdate(t0, loc, t[loc], w);
    }
    var last := loc;
    var elem := (loc + 1) % |t|;
    assert elem == Next(loc, |t|);
    while elem != last && Used(t[elem])
      invariant |t| == |t0| && 0 <= elem < |t| && 0 <= last < |t|
      invariant !Used(t[last]) && ReachableButFor(t, last, elem)
      invariant forall w: Element -> nat :: Sum(t, w) + w(t0[loc]) == Sum(t0, w)
      decreases Displacement(t, 0), Distance(elem, last, |t|)
    {
      var home := t[elem].hash % |t|;
      assert home == Home(t[elem].hash, |t|);
      MustMoveMeaning(home, last, elem);
      if MustMove(home, last, elem) {
        MoveDisplacement(t, last, elem);
        MoveReachable(t, last, elem);
        forall w: Element -> nat ensures Sum(Erase(t[last := t[elem]], elem), w) == Sum(t, w) {
          MoveSum(t, last, elem, w);
        }
        t := Erase(t[last := t[elem]], elem);
        last := elem;
      } else {
        StayReachable(t, last, elem);
      }
      elem := Next(elem, |t|);
    }
    StopReachable(t, last, elem);
  }
}
