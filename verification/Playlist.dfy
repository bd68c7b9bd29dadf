/** The playlist manager with its master list active (base/src/playlist.cpp).  Two orderings of the
    same items are kept; the current index counts in the shuffled one while shuffle mode is on and
    in the master list otherwise. */
module Playlists {
  import opened Options
  import opened ItemLists

  const INVALID_INDEX: nat := 0xFFFF_FFFF   // kInvalidIndex

  datatype RepeatMode = RepeatNone | RepeatOne | RepeatAll

  /** A sort key by how it ranks items, the random key, or a number that is no key. */
  datatype SortKey = ByField(rank: Item -> int) | Random | NoKey

  datatype Error = NoErr | InvalidParam

  // ------------------------------------------------------------------ stepping through

  /** Whether GotoNextItem starts over, reshuffling. */
  predicate StartsOver(index: nat, count: nat, mode: RepeatMode, userAction: bool) {
    (mode != RepeatOne || userAction) && index + 1 >= count && (mode == RepeatAll || userAction)
  }

  function NextIndex(index: nat, count: nat, mode: RepeatMode, userAction: bool): nat {
    if mode == RepeatOne && !userAction then index
    else if index + 1 < count then index + 1
    else if mode == RepeatAll || userAction then 0
    else index
  }

  /** The items played by k more steps from index on. */
  function Pass(list: seq<Item>, index: nat, k: nat, mode: RepeatMode, userAction: bool): seq<Item>
    requires index < |list|
    decreases k
  {
    [list[index]] + if k == 0 then [] else Pass(list, NextIndex(index, |list|, mode, userAction), k - 1, mode, userAction)
  }

  /** From the first index, |list| - 1 steps play every item exactly once, and no step before the
      last item starts over. */
  lemma OnePassPlaysEveryItemOnce(master: seq<Item>, list: seq<Item>, mode: RepeatMode, userAction: bool)
    requires Permutation(master, list) && list != [] && (mode != RepeatOne || userAction)
    ensures multiset(Pass(list, 0, |list| - 1, mode, userAction)) == multiset(master)
    ensures forall i :: 0 <= i < |list| - 1 ==> !StartsOver(i, |list|, mode, userAction)
  {
    hide Pass;
    PassIsRest(list, 0, mode, userAction);
    assert list[0..] == list;
  }

  lemma {:induction false} PassIsRest(list: seq<Item>, index: nat, mode: RepeatMode, userAction: bool)
    requires index < |list| && (mode != RepeatOne || userAction)
    ensures Pass(list, index, |list| - 1 - index, mode, userAction) == list[index..]
    decreases |list| - index
  {
    if index + 1 < |list| {
      PassIsRest(list, index + 1, mode, userAction);
    }
  }

  // ------------------------------------------------------------------ where a moved block lands

  /** Where the items are in the list. */
  ghost function Positions(list: seq<Item>, items: seq<Item>): (r: seq<nat>)
    requires Distinct(list) && forall x :: x in items ==> x in list
    ensures |r| == |items| && forall i :: 0 <= i < |r| ==> r[i] < |list| && list[r[i]] == items[i]
  {
    if items == [] then [] else
      var x := items[0];
      assert x in items;
      var p :| 0 <= p < |list| && list[p] == x;
      [p] + Positions(list, items[1..])
  }

  /** The index MoveItems computes: one less for each moved item in front of it as it then is. */
  function Landing(oldIndices: seq<nat>, index: nat): nat {
    if oldIndices == [] then index
    else Landing(oldIndices[1..], if oldIndices[0] < index then index - 1 else index)
  }

  /** The old indices in front of `index`, in the order given. */
  function InFront(oldIndices: seq<nat>, index: nat): seq<nat> {
    if oldIndices == [] then []
    else if oldIndices[0] < index then [oldIndices[0]] + InFront(oldIndices[1..], index)
    else InFront(oldIndices[1..], index)
  }

  lemma {:induction false} LandingBounds(oldIndices: seq<nat>, index: nat, target: nat)
    requires target <= index
    ensures Landing(oldIndices, target) + |InFront(oldIndices, index)| >= target
    ensures Landing(oldIndices, target) <= target
  {
    if oldIndices != [] {
      LandingBounds(oldIndices[1..], index, if oldIndices[0] < target then target - 1 else target);
    }
  }

  /** The k-th of these indices is more than gone + k in front of `index`. */
  ghost predicate FarInFront(before: seq<nat>, gone: nat, index: nat) {
    forall k :: 0 <= k < |before| ==> before[k] + gone + k < index
  }

  lemma FarInFrontCons(first: nat, rest: seq<nat>, gone: nat, index: nat)
    ensures FarInFront([first] + rest, gone, index) <==> first + gone < index && FarInFront(rest, gone + 1, index)
  {
    var all := [first] + rest;
    if FarInFront(all, gone, index) {
      assert all[0] + gone + 0 < index;
      forall k | 0 <= k < |rest| ensures rest[k] + (gone + 1) + k < index {
        var k' := k + 1;
        assert all[k'] + gone + k' < index;
      }
    }
  }

  lemma NoneInFront(gone: nat, index: nat)
    ensures FarInFront([], gone, index)
  {
  }

  /** The block lands in front of the item that was at `index`, that is one place further forward
      for each moved item in front of it, exactly when the k-th moved item in front of it was more
      than k places in front.  (`gone` of them have been passed already.) */
  lemma {:induction false} LandsInFront(oldIndices: seq<nat>, index: nat, gone: nat)
    requires gone <= index
    ensures Landing(oldIndices, index - gone) + |InFront(oldIndices, index)| == index - gone
        <==> FarInFront(InFront(oldIndices, index), gone, index)
    decreases oldIndices
  {
    hide FarInFront;
    if oldIndices == [] {
      NoneInFront(gone, index);
    } else if oldIndices[0] >= index {
      LandsInFront(oldIndices[1..], index, gone);
    } else {
      FarInFrontCons(oldIndices[0], InFront(oldIndices[1..], index), gone, index);
      if oldIndices[0] < index - gone {
        LandsInFront(oldIndices[1..], index, gone + 1);
      } else {
        LandingBounds(oldIndices[1..], index, index - gone);
      }
    }
  }

  /** The items not moved that were in front of the index are as many as the index says, less the
      moved ones in front of it. */
  lemma {:induction false} OthersInFront(list: seq<Item>, items: seq<Item>, index: nat)
    requires Distinct(list) && Distinct(items) && index <= |list| && forall x :: x in items ==> x in list
    ensures |Except(list[..index], Elements(items))| + |InFront(Positions(list, items), index)| == index
    decreases |items|
  {
    hide Except;
    var front := list[..index];
    if items == [] {
      assert Elements(items) == {};
      ExceptNone(front, {});
    } else {
      var x, rest := items[0], items[1..];
      OthersInFront(list, rest, index);
      assert Elements(items) == Elements(rest) + {x};
      ExceptTwice(front, Elements(rest), {x});
      OneLess(list, rest, x, index, Positions(list, items)[0]);
    }
  }

  lemma OneLess(list: seq<Item>, rest: seq<Item>, x: Item, index: nat, p: nat)
    requires Distinct(list) && index <= |list| && x !in rest && p < |list| && list[p] == x
    ensures var kept := Except(list[..index], Elements(rest));
      |Except(kept, {x})| == if p < index then |kept| - 1 else |kept|
  {
    hide Except;
    var front := list[..index];
    var kept := Except(front, Elements(rest));
    ExceptHolds(front, Elements(rest));
    ExceptDistinct(front, Elements(rest));
    if p < index {
      assert front[p] == x;
      assert x in kept;
      var j :| 0 <= j < |kept| && kept[j] == x;
      ErasedOne(kept, j);
    } else {
      forall j | 0 <= j < index ensures front[j] != x {
        assert list[j] != list[p];
      }
      assert x !in kept;
      ExceptNone(kept, {x});
    }
  }

  /** The items in front of the block are those that were in front of `index`, without the moved ones,
      exactly when the k-th moved item in front of `index` was more than k places in front of it; or
      when no item but moved ones was at or behind `index`. */
  lemma BlockLandsInPlace(list: seq<Item>, items: seq<Item>, index: nat)
    requires Distinct(list) && Distinct(items) && index < |list| && forall x :: x in items ==> x in list
    ensures
      var others := Except(list, Elements(items));
      var at := Landing(Positions(list, items), index);
      var start := if at < |others| then at else |others|;
      (Inserted(others, start, items)[..start] == Except(list[..index], Elements(items)))
      <==> (FarInFront(InFront(Positions(list, items), index), 0, index)
            || Except(list[index..], Elements(items)) == [])
  {
    hide Except, Landing, InFront, FarInFront;
    var front, back := Except(list[..index], Elements(items)), Except(list[index..], Elements(items));
    var others := Except(list, Elements(items));
    assert list == list[..index] + list[index..];
    ExceptConcat(list[..index], list[index..], Elements(items));
    OthersInFront(list, items, index);
    LandsInFront(Positions(list, items), index, 0);
    LandingBounds(Positions(list, items), index, index);
    assert others[..|front|] == front;
  }

  /** Items 10 and 12 moved to the place of item 13 land behind it. */
  lemma LandsBehind()
    ensures
      var list, items := [10, 11, 12, 13, 14], [10, 12];
      && Distinct(list) && Distinct(items) && (forall x :: x in items ==> x in list) && list[3] == 13
      && Landing(Positions(list, items), 3) == 2 && Except(list, Elements(items)) == [11, 13, 14]
      && Inserted([11, 13, 14], 2, items) == [11, 13, 10, 12, 14]
  {
    hide Except;
    var list, items := [10, 11, 12, 13, 14], [10, 12];
    var p := Positions(list, items);
    assert list[p[0]] == 10 && list[p[1]] == 12;
    assert p == [0, 2];
    assert [0, 2][1..] == [2] && [2][1..] == [];
    assert Landing([2], 2) == Landing([], 2) == 2;
    assert Landing([0, 2], 3) == Landing([2], 2);
    RestOfFive();
  }

  lemma RestOfFive()
    ensures Except([10, 11, 12, 13, 14], Elements([10, 12])) == [11, 13, 14]
  {
    hide Except;
    var list, xs := [10, 11, 12, 13, 14], Elements([10, 12]);
    assert list == [10] + ([11] + ([12] + [13, 14]));
    ExceptConcat([10], [11] + ([12] + [13, 14]), xs);
    ExceptConcat([11], [12] + [13, 14], xs);
    ExceptConcat([12], [13, 14], xs);
    ExceptAll([10], xs);
    ExceptNone([11], xs);
    ExceptAll([12], xs);
    ExceptNone([13, 14], xs);
  }

  // ------------------------------------------------------------------ the manager

  class PlaylistManager {
    var masterList: seq<Item>
    var shuffleList: seq<Item>
    var current: nat
    var shuffle: bool
    var repeatMode: RepeatMode

    /** The two lists are orderings of the same distinct items. */
    ghost predicate Listed()
      reads this
    {
      Distinct(masterList) && Distinct(shuffleList) && Permutation(masterList, shuffleList) && |masterList| < INVALID_INDEX
    }

    ghost predicate Valid()
      reads this
    {
      Listed() && if masterList == [] then current == INVALID_INDEX else current < |masterList|
    }

    ghost function CurrentItem(): (r: Option<Item>)
      requires Valid()
      reads this
      ensures r == None <==> masterList == []
      ensures r != None ==> r.value in masterList
    {
      PermutationFacts(masterList, shuffleList);
      if masterList == [] then None
      else if shuffle then
        var item := shuffleList[current];
        assert item in shuffleList;
        Some(item)
      else
        var item := masterList[current];
        assert item in masterList;
        Some(item)
    }

    constructor (shuffle: bool, repeatMode: RepeatMode)
      ensures Valid() && masterList == [] && this.shuffle == shuffle && this.repeatMode == repeatMode
    {
      masterList, shuffleList, current := [], [], INVALID_INDEX;
      this.shuffle, this.repeatMode := shuffle, repeatMode;
    }

    method GetCurrentItem() returns (r: Option<Item>)
      requires Valid()
      ensures r == CurrentItem()
    {
      PermutationFacts(masterList, shuffleList);
      if |masterList| > 0 {
        if shuffle {
          return Some(shuffleList[current]);
        }
        return Some(masterList[current]);
      }
      r := None;
    }

    /** Index of the item, kInvalidIndex for an item not in the list or none. */
    static method InternalIndexOf(list: seq<Item>, item: Option<Item>) returns (r: nat)
      requires |list| < INVALID_INDEX
      ensures item != None && item.value in list <==> r < |list|
      ensures r < |list| ==> list[r] == item.value && forall j :: 0 <= j < r ==> list[j] != item.value
      ensures r >= |list| ==> r == INVALID_INDEX
    {
      if item != None {
        for index := 0 to |list|
          invariant forall j :: 0 <= j < index ==> list[j] != item.value
        {
          if list[index] == item.value {
            return index;
          }
        }
      }
      r := INVALID_INDEX;
    }

    method ItemAt(index: nat) returns (r: Option<Item>)
      ensures r == if index < |masterList| then Some(masterList[index]) else None
    {
      r := if index < |masterList| then Some(masterList[index]) else None;
    }

    /** Makes the item at a place of the master list current; no other index leaves the manager
        with a current item. */
    method SetCurrentIndex(index: nat)
      requires Listed()
      modifies `current
      ensures index < |masterList| ==> Valid() && CurrentItem() == Some(masterList[index])
      ensures index >= |masterList| ==> current == INVALID_INDEX
    {
      PermutationFacts(masterList, shuffleList);
      if index < |masterList| {
        ghost var x := masterList[index];
        assert x in masterList;
      }
      var i := if index < |masterList| then index else INVALID_INDEX;
      if shuffle {
        var item := ItemAt(i);
        i := InternalIndexOf(shuffleList, item);
      }
      current := i;
    }

    // ---------------------------------------------------------------- shuffling

    /** Some random order of the list. */
    static method ShuffleIt(list: seq<Item>) returns (shuffled: seq<Item>)
      ensures Permutation(list, shuffled) && Shuffled(list, shuffled)
    {
      hide Left;
      var max := |list|;
      var used := seq(max, i => false);
      var last := 0;
      shuffled := [];
      ghost var order: seq<nat> := [];
      LeftAtFirst(list, used);
      for i := 0 to max
        invariant |used| == max && |shuffled| == |order| == i
        invariant Left(list, used) + multiset(shuffled) == multiset(list)
        invariant last == if i == 0 then 0 else order[i - 1]
        invariant forall k :: 0 <= k < i ==> order[k] < max && shuffled[k] == list[order[k]] && used[order[k]]
        invariant Distinct(order)
        invariant forall k :: 0 <= k < i && k < max - 50 ==> Apart(order, k)
      {
        assert |Left(list, used)| == max - i;
        SomePickIsAdmissible(list, used, last);
        var index :| Admissible(used, index, last, max - i);
        LeftAfterPick(list, used, index);
        used := used[index := true];
        shuffled := shuffled + [list[index]];
        ghost var order' := order + [index];
        forall k | 0 <= k <= i && k < max - 50 ensures Apart(order', k) {
          assert k < i ==> Apart(order, k);
        }
        order := order';
        last := index;
      }
      assert |Left(list, used)| == 0;
      assert ShuffledBy(list, shuffled, order);
    }

    method SetShuffleMode(on: bool)
      requires Valid()
      modifies `shuffle, `shuffleList, `current
      ensures Valid() && shuffle == on && CurrentItem() == old(CurrentItem())
      ensures if on then Shuffled(old(shuffleList), shuffleList) else shuffleList == old(shuffleList)
    {
      var item := GetCurrentItem();
      shuffle := on;
      if on {
        shuffleList := ShuffleIt(shuffleList);
        PermutationDistinct(masterList, shuffleList);
        PermutationFacts(masterList, shuffleList);
        if item != None {
          current := InternalIndexOf(shuffleList, item);
        }
      } else if item != None {
        current := InternalIndexOf(masterList, item);
      }
    }

    method GotoNextItem(userAction: bool)
      requires Valid()
      modifies `current, `shuffleList
      ensures Valid()
      ensures masterList != [] ==> current == NextIndex(old(current), |masterList|, repeatMode, userAction)
      ensures masterList != [] && repeatMode == RepeatOne && !userAction ==> current == old(current)
      ensures masterList != [] && (repeatMode != RepeatOne || userAction) ==>
        current == if old(current) != |masterList| - 1 then old(current) + 1
                   else if repeatMode == RepeatAll || userAction then 0 else old(current)
      ensures if shuffle && masterList != [] && old(current) == |masterList| - 1 && (repeatMode == RepeatAll || userAction)
              then Shuffled(old(shuffleList), shuffleList) else shuffleList == old(shuffleList)
    {
      var count := |masterList|;
      var index := current;
      if count > 0 {
        if !(repeatMode == RepeatOne) || userAction {
          index := index + 1;
          if index >= count && (repeatMode == RepeatAll || userAction) {
            index := 0;
            if shuffle {
              shuffleList := ShuffleIt(shuffleList);
              PermutationDistinct(masterList, shuffleList);
            }
          } else if index >= count {
            index := current;
          }
        }
        current := index;
      } else {
        current := INVALID_INDEX;
      }
    }

    method GotoPreviousItem(userAction: bool)
      requires Valid()
      modifies `current, `shuffleList
      ensures Valid()
      ensures masterList != [] ==>
        current == if repeatMode == RepeatOne && !userAction then old(current)
                   else if old(current) > 0 then old(current) - 1
                   else if repeatMode == RepeatAll || userAction then |masterList| - 1 else 0
      ensures if shuffle && masterList != [] && old(current) == 0 && (repeatMode == RepeatAll || userAction)
              then Shuffled(old(shuffleList), shuffleList) else shuffleList == old(shuffleList)
    {
      var count := |masterList|;
      var index := current;
      if count > 0 {
        if !(repeatMode == RepeatOne) || userAction {
          if index == 0 && (repeatMode == RepeatAll || userAction) {
            index := count - 1;
            if shuffle {
              shuffleList := ShuffleIt(shuffleList);
              PermutationDistinct(masterList, shuffleList);
            }
          } else if index != 0 {
            index := index - 1;
          }
        }
        current := index;
      } else {
        current := INVALID_INDEX;
      }
    }

    // ---------------------------------------------------------------- adding

    /** Adds a new item at the end. */
    method AddItem(item: Item)
      requires Valid() && item !in masterList && |masterList| + 1 < INVALID_INDEX
      modifies `masterList, `shuffleList, `current
      ensures Valid() && masterList == old(masterList) + [item] && shuffleList == old(shuffleList) + [item]
      ensures CurrentItem() == if old(masterList) == [] then Some(item) else old(CurrentItem())
    {
      PermutationFacts(masterList, shuffleList);
      masterList := masterList + [item];
      shuffleList := shuffleList + [item];
      if current == INVALID_INDEX && |masterList| > 0 {
        current := 0;
      }
    }

    /** Adds a new item in front of `at`, or at the end. */
    method AddItemAt(item: Item, at: nat)
      requires Valid() && item !in masterList && |masterList| + 1 < INVALID_INDEX
      modifies `masterList, `shuffleList, `current
      ensures Valid() && shuffleList == old(shuffleList) + [item]
      ensures masterList == Inserted(old(masterList), if at > |old(masterList)| then |old(masterList)| else at, [item])
      ensures CurrentItem() == if old(masterList) == [] then Some(item) else old(CurrentItem())
    {
      PermutationFacts(masterList, shuffleList);
      var index := if at > |masterList| then |masterList| else at;
      var item' := GetCurrentItem();
      InsertedFacts(masterList, index, [item]);
      masterList := Inserted(masterList, index, [item]);
      shuffleList := shuffleList + [item];
      FinishAdding(index, item');
    }

    /** After an insertion: selects the first item, or the same as before. */
    method FinishAdding(index: nat, item: Option<Item>)
      requires Listed() && (current == INVALID_INDEX || current < |masterList|)
      requires current == INVALID_INDEX ==> item == None
      requires current != INVALID_INDEX ==> item != None && item.value in masterList
      requires current != INVALID_INDEX && current < index ==> Valid() && CurrentItem() == item
      modifies `current
      ensures Valid()
      ensures old(current) != INVALID_INDEX ==> CurrentItem() == item
      ensures old(current) == INVALID_INDEX && masterList != [] ==> current == 0
    {
      PermutationFacts(masterList, shuffleList);
      if current == INVALID_INDEX && |masterList| > 0 {
        current := 0;
      } else if index <= current {
        var i := InternalIndexOf(masterList, item);
        SetCurrentIndex(i);
      }
    }

    /** Adds new items at the end; the caller's list comes back shuffled. */
    method AddItems(list: seq<Item>) returns (shuffled: seq<Item>)
      requires Valid() && |masterList| + |list| < INVALID_INDEX
      requires Distinct(list) && forall x :: x in list ==> x !in masterList
      modifies `masterList, `shuffleList, `current
      ensures Valid() && Permutation(list, shuffled) && Shuffled(list, shuffled)
      ensures masterList == old(masterList) + list && shuffleList == old(shuffleList) + shuffled
      ensures old(masterList) != [] ==> CurrentItem() == old(CurrentItem())
      ensures old(masterList) == [] && list != [] ==> current == 0
    {
      PermutationFacts(masterList, shuffleList);
      shuffled := AddToLists(list, |masterList|);
      if current == INVALID_INDEX && |masterList| > 0 {
        current := 0;
      }
    }

    /** Adds new items in front of `at`, or at the end; the caller's list comes back shuffled. */
    method AddItemsAt(list: seq<Item>, at: nat) returns (shuffled: seq<Item>)
      requires Valid() && |masterList| + |list| < INVALID_INDEX
      requires Distinct(list) && forall x :: x in list ==> x !in masterList
      modifies `masterList, `shuffleList, `current
      ensures Valid() && Permutation(list, shuffled) && Shuffled(list, shuffled) && shuffleList == old(shuffleList) + shuffled
      ensures masterList == Inserted(old(masterList), if at > |old(masterList)| then |old(masterList)| else at, list)
      ensures old(masterList) != [] ==> CurrentItem() == old(CurrentItem())
      ensures old(masterList) == [] && list != [] ==> current == 0
    {
      PermutationFacts(masterList, shuffleList);
      var index := if at > |masterList| then |masterList| else at;
      var item := GetCurrentItem();
      shuffled := AddToLists(list, index);
      FinishAdding(index, item);
    }

    /** The insertion into the two lists. */
    method AddToLists(list: seq<Item>, index: nat) returns (shuffled: seq<Item>)
      requires Listed() && |masterList| + |list| < INVALID_INDEX && index <= |masterList|
      requires Distinct(list) && forall x :: x in list ==> x !in masterList
      modifies `masterList, `shuffleList
      ensures Listed() && Permutation(list, shuffled) && Shuffled(list, shuffled)
      ensures masterList == Inserted(old(masterList), index, list) && shuffleList == old(shuffleList) + shuffled
    {
      PermutationFacts(masterList, shuffleList);
      InsertedFacts(masterList, index, list);
      masterList := Inserted(masterList, index, list);
      shuffled := ShuffleIt(list);
      PermutationDistinct(list, shuffled);
      PermutationFacts(list, shuffled);
      shuffleList := shuffleList + shuffled;
      PermutationDistinct(masterList, shuffleList);
    }

    // ---------------------------------------------------------------- removing

    /** The item is still current; if it is gone, the current one is at the place of the master list
        with the number the current index had, or the last one. */
    ghost predicate Reselected(item: Option<Item>, number: nat)
      requires Valid()
      reads this
    {
      if item != None && item.value in masterList then CurrentItem() == item
      else masterList != [] ==>
        CurrentItem() == Some(masterList[if number < |masterList| then number else |masterList| - 1])
    }

    /** After items are gone: selects the same item again, or another one. */
    method Reselect(item: Option<Item>)
      requires Listed() && (current == INVALID_INDEX ==> masterList == [])
      modifies `current
      ensures Valid() && Reselected(item, old(current))
    {
      var i := InternalIndexOf(masterList, item);
      if i != INVALID_INDEX {
        SetCurrentIndex(i);
      } else if current != INVALID_INDEX && current >= |masterList| {
        SetCurrentIndex(if |masterList| == 0 then INVALID_INDEX else |masterList| - 1);
      } else {
        SetCurrentIndex(current);
      }
    }

    /** Takes the item at a place out of both lists. */
    method EraseAt(index: nat)
      requires Listed() && index < |masterList|
      modifies `masterList, `shuffleList
      ensures Listed() && |masterList| == |old(masterList)| - 1
      ensures masterList == Except(old(masterList), {old(masterList)[index]})
      ensures shuffleList == Except(old(shuffleList), {old(masterList)[index]})
    {
      var item := masterList[index];
      PermutationFacts(masterList, shuffleList);
      assert item in shuffleList;
      ErasedOne(masterList, index);
      var shuffleIndex := InternalIndexOf(shuffleList, Some(item));
      ErasedOne(shuffleList, shuffleIndex);
      ExceptPermutation(masterList, shuffleList, {item});
      ExceptDistinct(masterList, {item});
      ExceptDistinct(shuffleList, {item});
      masterList := masterList[..index] + masterList[index + 1..];
      shuffleList := shuffleList[..shuffleIndex] + shuffleList[shuffleIndex + 1..];
    }

    method RemoveItem(index: nat) returns (r: Error)
      requires Valid()
      modifies `masterList, `shuffleList, `current
      ensures Valid() && (r == NoErr <==> index < |old(masterList)|)
      ensures r != NoErr ==> masterList == old(masterList) && shuffleList == old(shuffleList) && current == old(current)
      ensures r == NoErr ==>
        && masterList == Except(old(masterList), {old(masterList)[index]})
        && shuffleList == Except(old(shuffleList), {old(masterList)[index]})
        && |masterList| == |old(masterList)| - 1
      ensures r == NoErr ==> Reselected(old(CurrentItem()), old(current))
    {
      if index >= |masterList| {
        return InvalidParam;
      }
      ExceptHolds(masterList, {masterList[index]});
      var item := GetCurrentItem();
      EraseAt(index);
      if |masterList| == 0 {
        current := INVALID_INDEX;
      }
      Reselect(item);
      r := NoErr;
    }

    /** RemoveItems(index, count): removes a block of the master list, which must have every index of it. */
    method RemoveBlock(index: nat, count: nat) returns (r: Error)
      requires Valid() && (index < |masterList| ==> index + count <= |masterList|)
      modifies `masterList, `shuffleList, `current
      ensures Valid() && (r == NoErr <==> index < |old(masterList)|)
      ensures r != NoErr ==> masterList == old(masterList) && shuffleList == old(shuffleList) && current == old(current)
      ensures r == NoErr ==>
        var block := Elements(old(masterList)[index..index + count]);
        && masterList == old(masterList)[..index] + old(masterList)[index + count..]
        && shuffleList == Except(old(shuffleList), block)
        && Reselected(old(CurrentItem()), old(current))
    {
      hide Except, Reselected;
      if index >= |masterList| {
        return InvalidParam;
      }
      PermutationFacts(masterList, shuffleList);
      var item := GetCurrentItem();
      ghost var block := Elements(masterList[index..index + count]);
      ExceptHolds(masterList, block);
      EraseBlock(index, count);
      Reselect(item);
      r := NoErr;
    }

    /** The loop over the block, and its erasure from the master list. */
    method EraseBlock(index: nat, count: nat)
      requires Listed() && index + count <= |masterList|
      modifies `masterList, `shuffleList
      ensures Listed()
      ensures masterList == old(masterList)[..index] + old(masterList)[index + count..]
      ensures masterList == Except(old(masterList), Elements(old(masterList)[index..index + count]))
      ensures shuffleList == Except(old(shuffleList), Elements(old(masterList)[index..index + count]))
    {
      hide Except;
      ghost var all, start := masterList, shuffleList;
      ghost var block := Elements(all[index..index + count]);
      ErasedBlock(all, index, count);
      ExceptPermutation(all, start, block);
      ExceptDistinct(all, block);
      ExceptNone(start, {});
      assert Elements(all[index..index + 0]) == {};
      for i := 0 to count
        invariant masterList == all && shuffleList == Except(start, Elements(all[index..index + i]))
      {
        BlockErasesOne(all, start, index, i);
        var shuffleIndex := InternalIndexOf(shuffleList, Some(masterList[index + i]));
        ErasedOne(shuffleList, shuffleIndex);
        shuffleList := shuffleList[..shuffleIndex] + shuffleList[shuffleIndex + 1..];
      }
      PermutationDistinct(Except(all, block), shuffleList);
      ExceptHolds(all, block);
      masterList := masterList[..index] + masterList[index + count..];
    }

    /** Removes the items given, one by one; null entries are skipped. */
    method RemoveItems(items: seq<Option<Item>>) returns (r: Error)
      requires Valid() && Distinct(Present(items)) && forall x :: x in Present(items) ==> x in masterList
      modifies `masterList, `shuffleList, `current
      ensures Valid() && (r == NoErr <==> Present(items) != [])
      ensures masterList == Except(old(masterList), Elements(Present(items)))
      ensures shuffleList == Except(old(shuffleList), Elements(Present(items)))
      ensures Reselected(old(CurrentItem()), old(current))
    {
      hide Except, Reselected, Present;
      var item := GetCurrentItem();
      ghost var all, shuffled := masterList, shuffleList;
      PermutationFacts(all, shuffled);
      ExceptNone(masterList, {});
      ExceptNone(shuffleList, {});
      NonePresent(items);
      r := InvalidParam;
      for i := 0 to |items|
        invariant Listed() && (r == NoErr <==> Present(items[..i]) != []) && current == old(current)
        invariant masterList == Except(all, Elements(Present(items[..i])))
        invariant shuffleList == Except(shuffled, Elements(Present(items[..i])))
      {
        PresentNext(items, i);
        if items[i] != None {
          ListErasesOne(all, Present(items[..i]), items[i].value);
          ListErasesOne(shuffled, Present(items[..i]), items[i].value);
          var oldIndex := InternalIndexOf(masterList, items[i]);
          EraseAt(oldIndex);
          r := NoErr;
        }
      }
      assert items[..|items|] == items;
      ExceptHolds(all, Elements(Present(items)));
      Reselect(item);
    }

    method RemoveAll()
      requires Valid()
      modifies `masterList, `shuffleList, `current
      ensures Valid() && masterList == [] && shuffleList == []
    {
      masterList, shuffleList := [], [];
      current := INVALID_INDEX;
    }

    // ---------------------------------------------------------------- moving and sorting

    /** Moves the items, in the order given, to one place; all others keep their order. */
    method MoveItems(items: seq<Item>, index: nat)
      requires Valid() && Distinct(items) && forall x :: x in items ==> x in masterList
      modifies `masterList, `current
      ensures Valid() && CurrentItem() == old(CurrentItem())
      ensures Permutation(old(masterList), masterList)
      ensures Except(masterList, Elements(items)) == Except(old(masterList), Elements(items))
      ensures
        var at := Landing(Positions(old(masterList), items), if index < |old(masterList)| then index else INVALID_INDEX);
        var others := Except(old(masterList), Elements(items));
        var start := if at < |others| then at else |others|;
        masterList == Inserted(others, start, items) && masterList[start..start + |items|] == items
    {
      hide Except, Landing, Inserted, Permutation, Distinct;
      var item := GetCurrentItem();
      ghost var all := masterList;
      var at := FindLanding(items, if index < |masterList| then index else INVALID_INDEX);
      EraseItems(items);
      PutBack(items, at, item, all);
    }

    /** The insertion of the block in MoveItems. */
    method PutBack(items: seq<Item>, landing: nat, item: Option<Item>, ghost all: seq<Item>)
      requires Distinct(all) && Distinct(items) && masterList == Except(all, Elements(items)) && |all| < INVALID_INDEX
      requires forall x :: x in items ==> x in all
      requires Permutation(all, shuffleList) && Distinct(shuffleList)
      requires if all == [] then item == None && current == INVALID_INDEX else item != None && item.value in all
      modifies `masterList, `current
      ensures Valid() && CurrentItem() == item && Permutation(all, masterList)
      ensures Except(masterList, Elements(items)) == Except(all, Elements(items))
      ensures
        var others := Except(all, Elements(items));
        var start := if landing < |others| then landing else |others|;
        && |masterList| == |others| + |items|
        && masterList == Inserted(others, start, items) && masterList[start..start + |items|] == items
    {
      hide Except, Inserted;
      var at := landing;
      if at >= |masterList| {
        at := |masterList|;
      }
      MovedFacts(all, items, at);
      masterList := Inserted(masterList, at, items);
      PermutationFacts(all, masterList);
      if item != None {
        ghost var x := item.value;
        assert x in all;
      }
      var i := InternalIndexOf(masterList, item);
      SetCurrentIndex(i);
    }

    /** The first loop of MoveItems. */
    method FindLanding(items: seq<Item>, index: nat) returns (at: nat)
      requires Listed() && forall x :: x in items ==> x in masterList
      ensures at == Landing(Positions(masterList, items), index)
    {
      at := index;
      ghost var positions := Positions(masterList, items);
      for i := 0 to |items|
        invariant Landing(positions, index) == Landing(positions[i..], at)
      {
        ghost var x := items[i];
        assert x in items;
        var oldIndex := InternalIndexOf(masterList, Some(items[i]));
        assert oldIndex == positions[i];
        if oldIndex < at {
          at := at - 1;
        }
        assert positions[i..][1..] == positions[i + 1..];
      }
    }

    /** The second loop of MoveItems. */
    method EraseItems(items: seq<Item>)
      requires Listed() && Distinct(items) && forall x :: x in items ==> x in masterList
      modifies `masterList
      ensures masterList == Except(old(masterList), Elements(items)) && Distinct(masterList)
      ensures |masterList| < INVALID_INDEX
    {
      hide Except;
      ghost var all := masterList;
      ExceptNone(all, {});
      assert Elements(items[..0]) == {};
      for i := 0 to |items|
        invariant masterList == Except(all, Elements(items[..i])) && |masterList| < INVALID_INDEX
      {
        ghost var x := items[i];
        assert x in items && items[..i + 1] == items[..i] + [x];
        ListErasesOne(all, items[..i], x);
        var oldIndex := InternalIndexOf(masterList, Some(items[i]));
        ErasedOne(masterList, oldIndex);
        masterList := masterList[..oldIndex] + masterList[oldIndex + 1..];
        ExceptHolds(all, Elements(items[..i + 1]));
      }
      assert items[..|items|] == items;
      ExceptDistinct(all, Elements(items));
    }

    /** Ascending stable sort by a key, or a random order. */
    method Sort(key: SortKey) returns (r: Error)
      requires Valid()
      modifies `masterList, `current
      ensures Valid() && CurrentItem() == old(CurrentItem()) && Permutation(old(masterList), masterList)
      ensures r == if key == NoKey then InvalidParam else NoErr
      ensures key.ByField? ==> masterList == Sorted(old(masterList), key.rank)
      ensures key == Random ==> Shuffled(old(masterList), masterList)
      ensures key == NoKey ==> masterList == old(masterList) && current == old(current)
    {
      var item := GetCurrentItem();
      ghost var all := masterList;
      if key.ByField? {
        SortedHolds(masterList, key.rank);
        masterList := Sorted(masterList, key.rank);
      } else if key == Random {
        masterList := ShuffleIt(masterList);
      } else {
        return InvalidParam;
      }
      PermutationFacts(all, masterList);
      PermutationDistinct(all, masterList);
      if item != None {
        var i := InternalIndexOf(masterList, item);
        SetCurrentIndex(i);
      }
      r := NoErr;
    }
  }

  /** The items played by stepping through a pass, from the first index on. */
  method PlayOnce(m: PlaylistManager, userAction: bool) returns (played: seq<Item>)
    requires m.Valid() && m.masterList != [] && m.current == 0 && (m.repeatMode != RepeatOne || userAction)
    modifies m`current, m`shuffleList
    ensures m.Valid() && m.shuffleList == old(m.shuffleList) && m.current == |m.masterList| - 1
    ensures Permutation(m.masterList, played)
  {
    hide Distinct, Permutation;
    ghost var order := if m.shuffle then m.shuffleList else m.masterList;
    PermutationFacts(m.masterList, m.shuffleList);
    played := [m.shuffleList[0]];
    if !m.shuffle {
      played := [m.masterList[0]];
    }
    for k := 1 to |m.masterList|
      invariant m.Valid() && m.current == k - 1 && played == order[..k]
      invariant m.shuffleList == old(m.shuffleList)
    {
      m.GotoNextItem(userAction);
      var item := m.GetCurrentItem();
      played := played + [item.value];
      assert order[..k + 1] == order[..k] + [order[k]];
    }
    assert order[..|order|] == order;
    SamePermutation(m.masterList);
  }

  lemma SamePermutation(s: seq<Item>)
    ensures Permutation(s, s)
  {
  }

  /** The next item of the block is still in the shuffled list; taking it out is progress. */
  lemma BlockErasesOne(master: seq<Item>, shuffled: seq<Item>, index: nat, i: nat)
    requires Distinct(master) && Distinct(shuffled) && Permutation(master, shuffled) && index + i < |master|
    ensures
      var part := Except(shuffled, Elements(master[index..index + i]));
      && Distinct(part) && master[index + i] in part && |part| <= |master|
      && Except(part, {master[index + i]}) == Except(shuffled, Elements(master[index..index + (i + 1)]))
  {
    hide Except;
    var x := master[index + i];
    var gone := Elements(master[index..index + i]);
    PermutationFacts(master, shuffled);
    ExceptHolds(shuffled, gone);
    ExceptDistinct(shuffled, gone);
    assert x in master;
    ExceptTwice(shuffled, gone, {x});
    assert master[index..index + (i + 1)] == master[index..index + i] + [x];
    assert Elements(master[index..index + (i + 1)]) == gone + {x};
  }

  /** The same when items of a list are taken out one by one. */
  lemma ListErasesOne(all: seq<Item>, gone: seq<Item>, x: Item)
    requires Distinct(all) && x in all && x !in gone
    ensures
      var part := Except(all, Elements(gone));
      && Distinct(part) && x in part && |part| <= |all|
      && Except(part, {x}) == Except(all, Elements(gone + [x]))
  {
    hide Except;
    ExceptHolds(all, Elements(gone));
    ExceptDistinct(all, Elements(gone));
    ExceptTwice(all, Elements(gone), {x});
    assert Elements(gone + [x]) == Elements(gone) + {x};
  }

  /** The entries that are not null. */
  function Present(items: seq<Option<Item>>): seq<Item>
    decreases |items|
  {
    if items == [] then [] else
      var n := |items| - 1;
      Present(items[..n]) + if items[n] == None then [] else [items[n].value]
  }

  lemma NonePresent(items: seq<Option<Item>>)
    ensures Present(items[..0]) == [] && Elements([]) == {}
  {
  }

  lemma {:induction false} PresentPrefix(items: seq<Option<Item>>, k: nat)
    requires k <= |items|
    ensures Present(items[..k]) <= Present(items)
    decreases |items|
  {
    if k < |items| {
      var n := |items| - 1;
      PresentPrefix(items[..n], k);
      assert items[..n][..k] == items[..k];
    } else {
      assert items[..k] == items;
    }
  }

  /** The next entry, if not null, is none of those before it. */
  lemma PresentNext(items: seq<Option<Item>>, i: nat)
    requires i < |items| && Distinct(Present(items))
    ensures items[i] == None ==> Present(items[..i + 1]) == Present(items[..i])
    ensures items[i] != None ==> Present(items[..i + 1]) == Present(items[..i]) + [items[i].value]
    ensures items[i] != None ==> items[i].value in Present(items) && items[i].value !in Present(items[..i])
  {
    assert items[..i + 1][..i] == items[..i];
    PresentPrefix(items, i + 1);
    if items[i] != None {
      NotAmongFirst(Present(items[..i]), items[i].value, Present(items));
    }
  }

  lemma NotAmongFirst(first: seq<Item>, x: Item, all: seq<Item>)
    requires first + [x] <= all && Distinct(all)
    ensures x in all && x !in first
  {
    var n := |first|;
    assert all[n] == x;
    forall j | 0 <= j < n ensures first[j] != x {
      assert all[j] != all[n];
    }
  }

  /** Items taken out and put back in: a permutation with the block in one piece and the others as
      they were. */
  lemma MovedFacts(all: seq<Item>, items: seq<Item>, at: nat)
    requires Distinct(all) && Distinct(items) && at <= |Except(all, Elements(items))|
    requires forall x :: x in items ==> x in all
    ensures
      var moved := Inserted(Except(all, Elements(items)), at, items);
      && Distinct(moved) && Permutation(all, moved) && |moved| == |Except(all, Elements(items))| + |items|
      && moved[at..at + |items|] == items
      && Except(moved, Elements(items)) == Except(all, Elements(items))
  {
    hide Except, Inserted;
    var rest := Except(all, Elements(items));
    ExceptHolds(all, Elements(items));
    ExceptDistinct(all, Elements(items));
    InsertedFacts(rest, at, items);
    InsertedKeepsOthers(rest, at, items);
    MovedIsPermutation(all, items, Inserted(rest, at, items));
  }

  /** Items taken out and put back in. */
  lemma MovedIsPermutation(all: seq<Item>, items: seq<Item>, moved: seq<Item>)
    requires Distinct(all) && Distinct(items) && Distinct(moved)
    requires forall x :: x in items ==> x in all
    requires forall x :: x in moved <==> x in Except(all, Elements(items)) || x in items
    ensures Permutation(all, moved)
  {
    ExceptHolds(all, Elements(items));
    DistinctCounts(all);
    DistinctCounts(moved);
    forall x ensures multiset(all)[x] == multiset(moved)[x] {
      assert x in all <==> x in moved;
      assert x in all <==> x in multiset(all);
      assert x in moved <==> x in multiset(moved);
    }
    SameCounts(all, moved);
  }
}
