/** Lists of distinct playlist items, as far as base/src/playlist.cpp needs them. */
module ItemLists {

  type Item = int   // a PlaylistItem, by its address

  ghost predicate Distinct<T(!new)>(s: seq<T>) {
    forall i, j :: 0 <= i < j < |s| ==> s[i] != s[j]
  }

  ghost predicate Permutation(a: seq<Item>, b: seq<Item>) {
    multiset(a) == multiset(b)
  }

  lemma PermutationFacts(a: seq<Item>, b: seq<Item>)
    requires Permutation(a, b)
    ensures |a| == |b| && forall x :: x in a <==> x in b
  {
    assert |multiset(a)| == |a|;
    forall x ensures x in a <==> x in b {
      assert x in a <==> x in multiset(a);
    }
  }

  lemma {:induction false} DistinctCounts(s: seq<Item>)
    ensures Distinct(s) <==> forall x :: multiset(s)[x] <= 1
    decreases |s|
  {
    if s != [] {
      var n := |s| - 1;
      DistinctCounts(s[..n]);
      assert s == s[..n] + [s[n]];
      if exists i :: 0 <= i < n && s[i] == s[n] {
        assert s[n] in s[..n];
        assert multiset(s[..n])[s[n]] > 0;
        assert multiset(s)[s[n]] > 1;
      } else if Distinct(s) {
        forall x ensures multiset(s)[x] <= 1 {
          assert s[n] !in s[..n];
          assert s[n] !in multiset(s[..n]);
        }
      } else {
        var x :| multiset(s[..n])[x] > 1;
        assert multiset(s)[x] > 1;
      }
    }
  }

  lemma {:induction false} SameCounts(a: seq<Item>, b: seq<Item>)
    requires forall x :: multiset(a)[x] == multiset(b)[x]
    ensures Permutation(a, b)
    decreases |a|
  {
    forall k | 0 <= k < |b| ensures multiset(a)[b[k]] > 0 {
      var x := b[k];
      assert x in multiset(b) && multiset(a)[x] == multiset(b)[x];
    }
    if a != [] {
      var n := |a| - 1;
      var x := a[n];
      assert a == a[..n] + [x];
      assert multiset(a)[x] == multiset(b)[x];
      assert x in multiset(b);
      var j :| 0 <= j < |b| && b[j] == x;
      var rest := b[..j] + b[j + 1..];
      assert b == b[..j] + [x] + b[j + 1..];
      assert multiset(b) == multiset(rest) + multiset{x};
      forall y ensures multiset(a[..n])[y] == multiset(rest)[y] {
        assert multiset(a)[y] == multiset(b)[y];
      }
      SameCounts(a[..n], rest);
    }
  }

  lemma PermutationDistinct(a: seq<Item>, b: seq<Item>)
    requires Permutation(a, b) && Distinct(a)
    ensures Distinct(b)
  {
    DistinctCounts(a);
    DistinctCounts(b);
  }

  // ------------------------------------------------------------------ taking items out

  /** s without the items of xs, in order. */
  function Except(s: seq<Item>, xs: set<Item>): (r: seq<Item>)
    decreases |s|
  {
    if s == [] then [] else
      var n := |s| - 1;
      if s[n] in xs then Except(s[..n], xs) else Except(s[..n], xs) + [s[n]]
  }

  lemma {:induction false} ExceptHolds(s: seq<Item>, xs: set<Item>)
    ensures forall x :: x in Except(s, xs) <==> x in s && x !in xs
    ensures forall x :: multiset(Except(s, xs))[x] == if x in xs then 0 else multiset(s)[x]
    ensures |Except(s, xs)| <= |s|
    decreases |s|
  {
    if s != [] {
      var n := |s| - 1;
      ExceptHolds(s[..n], xs);
      assert s == s[..n] + [s[n]];
    }
  }

  lemma ExceptPermutation(a: seq<Item>, b: seq<Item>, xs: set<Item>)
    requires Permutation(a, b)
    ensures Permutation(Except(a, xs), Except(b, xs))
  {
    ExceptHolds(a, xs);
    ExceptHolds(b, xs);
    SameCounts(Except(a, xs), Except(b, xs));
  }

  lemma ExceptDistinct(s: seq<Item>, xs: set<Item>)
    requires Distinct(s)
    ensures Distinct(Except(s, xs))
  {
    ExceptHolds(s, xs);
    DistinctCounts(s);
    DistinctCounts(Except(s, xs));
  }

  lemma {:induction false} ExceptConcat(a: seq<Item>, b: seq<Item>, xs: set<Item>)
    ensures Except(a + b, xs) == Except(a, xs) + Except(b, xs)
    decreases |b|
  {
    if b == [] {
      assert a + b == a;
    } else {
      var n := |b| - 1;
      assert (a + b)[..|a + b| - 1] == a + b[..n];
      ExceptConcat(a, b[..n], xs);
    }
  }

  lemma {:induction false} ExceptNone(s: seq<Item>, xs: set<Item>)
    requires forall x :: x in s ==> x !in xs
    ensures Except(s, xs) == s
    decreases |s|
  {
    if s != [] {
      var n := |s| - 1;
      assert s == s[..n] + [s[n]];
      var last := s[n];
      assert last in s;
      ExceptNone(s[..n], xs);
    }
  }

  lemma {:induction false} ExceptAll(s: seq<Item>, xs: set<Item>)
    requires forall x :: x in s ==> x in xs
    ensures Except(s, xs) == []
    decreases |s|
  {
    if s != [] {
      var n := |s| - 1;
      assert s == s[..n] + [s[n]];
      var last := s[n];
      assert last in s;
      ExceptAll(s[..n], xs);
    }
  }

  lemma {:induction false} ExceptTwice(s: seq<Item>, xs: set<Item>, ys: set<Item>)
    ensures Except(Except(s, xs), ys) == Except(s, xs + ys)
    decreases |s|
  {
    if s != [] {
      var n := |s| - 1;
      ExceptTwice(s[..n], xs, ys);
      if s[n] !in xs {
        ExceptConcat(Except(s[..n], xs), [s[n]], ys);
        assert [s[n]][..0] == [];
      }
    }
  }

  /** Erasing a block. */
  lemma ErasedBlock(s: seq<Item>, i: nat, k: nat)
    requires Distinct(s) && i + k <= |s|
    ensures s[..i] + s[i + k..] == Except(s, Elements(s[i..i + k]))
  {
    hide Except, Distinct;
    var xs := Elements(s[i..i + k]);
    assert s == s[..i] + (s[i..i + k] + s[i + k..]);
    ExceptConcat(s[..i], s[i..i + k] + s[i + k..], xs);
    ExceptConcat(s[i..i + k], s[i + k..], xs);
    OutsideBlock(s, i, k);
    ExceptNone(s[..i], xs);
    ExceptNone(s[i + k..], xs);
    ExceptAll(s[i..i + k], xs);
  }

  /** Erasing one element of a list of distinct items leaves the others in order. */
  lemma ErasedOne(s: seq<Item>, i: nat)
    requires Distinct(s) && i < |s|
    ensures s[..i] + s[i + 1..] == Except(s, {s[i]})
  {
    hide Except;
    ErasedBlock(s, i, 1);
    assert Elements(s[i..i + 1]) == {s[i]};
  }

  lemma OutsideBlock(s: seq<Item>, i: nat, k: nat)
    requires Distinct(s) && i + k <= |s|
    ensures var front, block, back := s[..i], s[i..i + k], s[i + k..];
      (forall x :: x in front ==> x !in Elements(block)) && (forall x :: x in back ==> x !in Elements(block))
  {
    var front, block, back := s[..i], s[i..i + k], s[i + k..];
    forall x | x in front ensures x !in Elements(block) {
      var j :| 0 <= j < i && s[j] == x;
    }
    forall x | x in back ensures x !in Elements(block) {
      var j :| i + k <= j < |s| && s[j] == x;
    }
  }

  function Elements(s: seq<Item>): (r: set<Item>)
    ensures forall x :: x in r <==> x in s
  {
    set x | x in s
  }

  // ------------------------------------------------------------------ putting items in

  /** vector::insert of a range. */
  function Inserted(s: seq<Item>, i: nat, block: seq<Item>): seq<Item>
    requires i <= |s|
  {
    s[..i] + block + s[i..]
  }

  lemma InsertedFacts(s: seq<Item>, i: nat, block: seq<Item>)
    requires i <= |s|
    ensures |Inserted(s, i, block)| == |s| + |block|
    ensures multiset(Inserted(s, i, block)) == multiset(s) + multiset(block)
    ensures Inserted(s, i, block)[i..i + |block|] == block
    ensures Distinct(s) && Distinct(block) && (forall x :: x in block ==> x !in s) ==> Distinct(Inserted(s, i, block))
    ensures forall x :: x in Inserted(s, i, block) <==> x in s || x in block
  {
    var r := Inserted(s, i, block);
    assert s == s[..i] + s[i..];
    if Distinct(s) && Distinct(block) && forall x :: x in block ==> x !in s {
      forall j, k | 0 <= j < k < |r| ensures r[j] != r[k] {
        var x, y := r[j], r[k];
        assert i <= j < i + |block| ==> x in block && x !in s;
        assert i <= k < i + |block| ==> y in block && y !in s;
      }
    }
  }

  /** Inserting new items leaves the others in order. */
  lemma InsertedKeepsOthers(s: seq<Item>, i: nat, block: seq<Item>)
    requires i <= |s| && forall x :: x in block ==> x !in s
    ensures Except(Inserted(s, i, block), Elements(block)) == s
  {
    hide Except;
    var xs := Elements(block);
    assert s == s[..i] + s[i..];
    ExceptConcat(s[..i] + block, s[i..], xs);
    ExceptConcat(s[..i], block, xs);
    ExceptNone(s[..i], xs);
    ExceptNone(s[i..], xs);
    ExceptAll(block, xs);
  }

  // ------------------------------------------------------------------ stable sort

  /** std::stable_sort: s in ascending rank, equal ranks in the order they had. */
  function Sorted(s: seq<Item>, rank: Item -> int): seq<Item>
    decreases |s|
  {
    if s == [] then [] else Placed(Sorted(s[..|s| - 1], rank), s[|s| - 1], rank)
  }

  /** x behind every element of s that does not rank above it. */
  function Placed(s: seq<Item>, x: Item, rank: Item -> int): seq<Item>
    decreases |s|
  {
    if s == [] || rank(s[|s| - 1]) <= rank(x) then s + [x]
    else Placed(s[..|s| - 1], x, rank) + [s[|s| - 1]]
  }

  ghost predicate Ascending(s: seq<Item>, rank: Item -> int) {
    forall i, j :: 0 <= i < j < |s| ==> rank(s[i]) <= rank(s[j])
  }

  /** The elements of one rank, in order. */
  ghost function OfRank(s: seq<Item>, rank: Item -> int, k: int): seq<Item>
    decreases |s|
  {
    if s == [] then [] else
      var n := |s| - 1;
      if rank(s[n]) == k then OfRank(s[..n], rank, k) + [s[n]] else OfRank(s[..n], rank, k)
  }

  lemma {:induction false} PlacedHolds(s: seq<Item>, x: Item, rank: Item -> int)
    ensures multiset(Placed(s, x, rank)) == multiset(s) + multiset{x}
    decreases |s|
  {
    if !(s == [] || rank(s[|s| - 1]) <= rank(x)) {
      var n := |s| - 1;
      PlacedHolds(s[..n], x, rank);
      assert s == s[..n] + [s[n]];
    }
  }

  lemma {:induction false} PlacedAscends(s: seq<Item>, x: Item, rank: Item -> int)
    requires Ascending(s, rank)
    ensures Ascending(Placed(s, x, rank), rank)
    decreases |s|
  {
    if !(s == [] || rank(s[|s| - 1]) <= rank(x)) {
      var n := |s| - 1;
      PlacedAscends(s[..n], x, rank);
      PlacedHolds(s[..n], x, rank);
      var p := Placed(s[..n], x, rank);
      forall i | 0 <= i < |p| ensures rank(p[i]) <= rank(s[n]) {
        var y := p[i];
        assert y in multiset(p);
        assert y in multiset(s[..n]) || y == x;
        assert y != x ==> y in s[..n];
      }
    }
  }

  lemma {:induction false} PlacedIsStable(s: seq<Item>, x: Item, rank: Item -> int, k: int)
    ensures OfRank(Placed(s, x, rank), rank, k) == OfRank(s + [x], rank, k)
    decreases |s|
  {
    assert (s + [x])[..|s|] == s;
    if !(s == [] || rank(s[|s| - 1]) <= rank(x)) {
      var n := |s| - 1;
      var init, last := s[..n], s[n];
      PlacedIsStable(init, x, rank, k);
      OfRankAppend(Placed(init, x, rank), last, rank, k);
      OfRankAppend(init, x, rank, k);
    }
  }

  lemma OfRankAppend(init: seq<Item>, last: Item, rank: Item -> int, k: int)
    ensures OfRank(init + [last], rank, k) == OfRank(init, rank, k) + if rank(last) == k then [last] else []
  {
    assert (init + [last])[..|init|] == init;
  }

  /** The sort is a permutation, in ascending order, that keeps the order within each rank. */
  lemma {:induction false} SortedHolds(s: seq<Item>, rank: Item -> int)
    ensures Permutation(s, Sorted(s, rank))
    decreases |s|
  {
    if s != [] {
      var n := |s| - 1;
      SortedHolds(s[..n], rank);
      PlacedHolds(Sorted(s[..n], rank), s[n], rank);
      assert s == s[..n] + [s[n]];
    }
  }

  lemma {:induction false} SortedAscends(s: seq<Item>, rank: Item -> int)
    ensures Ascending(Sorted(s, rank), rank)
    decreases |s|
  {
    if s != [] {
      var n := |s| - 1;
      SortedAscends(s[..n], rank);
      PlacedAscends(Sorted(s[..n], rank), s[n], rank);
    }
  }

  lemma {:induction false} SortedIsStable(s: seq<Item>, rank: Item -> int, k: int)
    ensures OfRank(Sorted(s, rank), rank, k) == OfRank(s, rank, k)
    decreases |s|
  {
    hide Placed;
    if s != [] {
      var n := |s| - 1;
      var t := Sorted(s[..n], rank);
      SortedIsStable(s[..n], rank, k);
      PlacedIsStable(t, s[n], rank, k);
      OfRankAppend(t, s[n], rank, k);
      OfRankAppend(s[..n], s[n], rank, k);
      assert s == s[..n] + [s[n]];
    }
  }

  // ------------------------------------------------------------------ picking in random order

  /** The items not picked yet. */
  ghost function Left(list: seq<Item>, used: seq<bool>): multiset<Item>
    requires |used| == |list|
    decreases |list|
  {
    if list == [] then multiset{} else
      var n := |list| - 1;
      Left(list[..n], used[..n]) + if used[n] then multiset{} else multiset{list[n]}
  }

  lemma {:induction false} LeftAtFirst(list: seq<Item>, used: seq<bool>)
    requires |used| == |list| && forall i :: 0 <= i < |used| ==> !used[i]
    ensures Left(list, used) == multiset(list)
    decreases |list|
  {
    if list != [] {
      var n := |list| - 1;
      LeftAtFirst(list[..n], used[..n]);
      assert list == list[..n] + [list[n]];
    }
  }

  lemma {:induction false} LeftAfterPick(list: seq<Item>, used: seq<bool>, k: nat)
    requires |used| == |list| && k < |list| && !used[k]
    ensures Left(list, used) == Left(list, used[k := true]) + multiset{list[k]}
    decreases |list|
  {
    var n := |list| - 1;
    if k < n {
      LeftAfterPick(list[..n], used[..n], k);
      assert used[k := true][..n] == used[..n][k := true];
    } else {
      assert used[k := true][..n] == used[..n];
    }
  }

  /** At most as many items are left as positions between which all of them lie. */
  lemma {:induction false} LeftBetween(list: seq<Item>, used: seq<bool>, lo: int, hi: int)
    requires |used| == |list| && lo <= hi
    requires forall i :: 0 <= i < |used| && !used[i] ==> lo <= i < hi
    ensures |Left(list, used)| <= hi - lo
    decreases |list|
  {
    if list != [] {
      var n := |list| - 1;
      if used[n] {
        LeftBetween(list[..n], used[..n], lo, hi);
      } else {
        LeftBetween(list[..n], used[..n], lo, n);
      }
    }
  }

  /** The rejection test of ShuffleIt lets the pick through. */
  predicate Admissible(used: seq<bool>, index: int, last: int, remaining: int) {
    0 <= index < |used| && !used[index] && !(remaining > 50 && -10 < index - last < 10)
  }

  /** The k-th pick was at least 10 places from the one before it, the first one from place 0. */
  predicate Apart(order: seq<nat>, k: nat)
    requires k < |order|
  {
    var gap: int := order[k] - if k == 0 then 0 else order[k - 1] as int;
    gap <= -10 || 10 <= gap
  }

  /** `after` has the items of `before` in this order of their places, each place once, as picked by
      ShuffleIt: while more than 50 remain, each pick at least 10 places from the one before it. */
  ghost predicate ShuffledBy(before: seq<Item>, after: seq<Item>, order: seq<nat>) {
    && |order| == |after| == |before| && Distinct(order)
    && (forall k :: 0 <= k < |order| ==> order[k] < |before| && after[k] == before[order[k]])
    && (forall k :: 0 <= k < |before| - 50 ==> Apart(order, k))
  }

  ghost predicate Shuffled(before: seq<Item>, after: seq<Item>) {
    exists order :: ShuffledBy(before, after, order)
  }

  /** A shuffled list of more than 50 different items never begins with the items it began with. */
  lemma ShuffledMoves(before: seq<Item>, after: seq<Item>)
    requires Shuffled(before, after) && Distinct(before) && |before| > 50
    ensures |after| == |before| && forall i :: 0 <= i < 10 ==> after[0] != before[i]
  {
    var order :| ShuffledBy(before, after, order);
    assert Apart(order, 0);
    forall i | 0 <= i < 10 ensures after[0] != before[i] {
      assert order[0] >= 10;
    }
  }

  /** There is always a pick that passes the test: at most 19 positions are too close to the last. */
  lemma SomePickIsAdmissible(list: seq<Item>, used: seq<bool>, last: int)
    requires |used| == |list| && |Left(list, used)| > 0
    ensures exists index :: Admissible(used, index, last, |Left(list, used)|)
  {
    if forall index :: !Admissible(used, index, last, |Left(list, used)|) {
      if |Left(list, used)| > 50 {
        forall i | 0 <= i < |used| && !used[i] ensures last - 9 <= i < last + 10 {
          assert !Admissible(used, i, last, |Left(list, used)|);
        }
        LeftBetween(list, used, last - 9, last + 10);
      } else {
        forall i | 0 <= i < |used| ensures used[i] {
          assert !Admissible(used, i, last, |Left(list, used)|);
        }
        LeftBetween(list, used, 0, 0);
      }
    }
  }
}
