/** The linear undo history (base/src/undomanager.cpp).  An item stands for a change its owner has
    already made to a document of type S; the cursor is a uint32 that wraps between "nothing done"
    and the first item. */
module UndoHistory {

  const ROOT_INDEX: nat := 0xFFFF_FFFF   // kRootIndex

  /** ++ and -- on a uint32. */
  function Incremented(c: nat): nat {
    if c == ROOT_INDEX then 0 else c + 1
  }

  function Decremented(c: nat): nat {
    if c == 0 then ROOT_INDEX else c - 1
  }

  /** An UndoItem by what its two methods do, or an UndoMultiItem. */
  datatype Item<!S> = Single(redo: S -> S, undo: S -> S) | Multi(items: seq<Item<S>>)

  function ApplyRedo<S>(item: Item<S>, s: S): S
    decreases item, 0
  {
    match item
    case Single(redo, _) => redo(s)
    case Multi(items) => RedoAll(items, s)
  }

  function RedoAll<S>(items: seq<Item<S>>, s: S): S
    decreases items, 1
  {
    if items == [] then s else
      var last := items[|items| - 1];
      ApplyRedo(last, RedoAll(items[..|items| - 1], s))
  }

  function ApplyUndo<S>(item: Item<S>, s: S): S
    decreases item, 0
  {
    match item
    case Single(_, undo) => undo(s)
    case Multi(items) => UndoAll(items, s)
  }

  function UndoAll<S>(items: seq<Item<S>>, s: S): S
    decreases items, 1
  {
    if items == [] then s else
      var last := items[|items| - 1];
      UndoAll(items[..|items| - 1], ApplyUndo(last, s))
  }

  /** Undoing right after the change gives the document back. */
  ghost predicate InvertsAt<S>(item: Item<S>, s: S) {
    ApplyUndo(item, ApplyRedo(item, s)) == s
  }

  /** Every item inverts its change at the document it was made to. */
  ghost predicate Inverting<S>(items: seq<Item<S>>, base: S) {
    forall i :: 0 <= i < |items| ==> InvertsAt(items[i], RedoAll(items[..i], base))
  }

  lemma TakeOfTake<T>(s: seq<T>, i: nat, n: nat)
    requires i <= n <= |s|
    ensures s[..n][..i] == s[..i]
  {
  }

  lemma InvertingPrefix<S>(items: seq<Item<S>>, base: S, n: nat)
    requires Inverting(items, base) && n <= |items|
    ensures Inverting(items[..n], base)
  {
    forall i | 0 <= i < n ensures InvertsAt(items[..n][i], RedoAll(items[..n][..i], base)) {
      TakeOfTake(items, i, n);
      assert InvertsAt(items[i], RedoAll(items[..i], base));
    }
  }

  lemma InvertingAppend<S>(items: seq<Item<S>>, base: S, item: Item<S>)
    requires Inverting(items, base) && InvertsAt(item, RedoAll(items, base))
    ensures Inverting(items + [item], base)
  {
    var all := items + [item];
    forall i | 0 <= i < |all| ensures InvertsAt(all[i], RedoAll(all[..i], base)) {
      if i < |items| {
        assert all[..i] == items[..i];
        assert InvertsAt(items[i], RedoAll(items[..i], base));
      } else {
        assert all[..i] == items;
      }
    }
  }

  /** The first item is redone first. */
  lemma {:induction false} FirstIsRedoneFirst<S>(first: Item<S>, rest: seq<Item<S>>, s: S)
    ensures RedoAll([first] + rest, s) == RedoAll(rest, ApplyRedo(first, s))
    decreases |rest|
  {
    var all := [first] + rest;
    if rest == [] {
      assert all[..0] == [] && all[0] == first;
    } else {
      var n := |rest| - 1;
      FirstIsRedoneFirst(first, rest[..n], s);
      assert all[..|all| - 1] == [first] + rest[..n];
    }
  }

  /** A multi-item whose parts invert their own changes inverts the whole change. */
  lemma {:induction false} MultiInverts<S>(items: seq<Item<S>>, base: S)
    requires Inverting(items, base)
    ensures UndoAll(items, RedoAll(items, base)) == base
    ensures InvertsAt(Multi(items), base)
  {
    if items != [] {
      var n := |items| - 1;
      InvertingPrefix(items, base, n);
      MultiInverts(items[..n], base);
      assert InvertsAt(items[n], RedoAll(items[..n], base));
    }
  }

  /** UndoMultiItem::Redo, the items in order. */
  method RedoMulti<S>(items: seq<Item<S>>, s: S) returns (r: S)
    ensures r == ApplyRedo(Multi(items), s)
  {
    r := s;
    for i := 0 to |items|
      invariant r == RedoAll(items[..i], s)
    {
      TakeOfTake(items, i, i + 1);
      r := ApplyRedo(items[i], r);
    }
    assert items[..|items|] == items;
  }

  /** UndoMultiItem::Undo, the items in reverse order. */
  method UndoMulti<S>(items: seq<Item<S>>, s: S) returns (r: S)
    ensures r == ApplyUndo(Multi(items), s)
  {
    r := s;
    var i := |items|;
    assert items[..i] == items;
    while i > 0
      invariant 0 <= i <= |items|
      invariant UndoAll(items, s) == UndoAll(items[..i], r)
    {
      TakeOfTake(items, i - 1, i);
      i := i - 1;
      r := ApplyUndo(items[i], r);
    }
  }

  // ------------------------------------------------------------------ the history as a value

  datatype History<!S> = History(items: seq<Item<S>>, current: nat, document: S)

  /** The number of items carried out: one more than the cursor. */
  function Done<S>(h: History<S>): nat {
    Incremented(h.current)
  }

  /** The document is the base with exactly the items up to the cursor carried out. */
  ghost predicate Linear<S>(h: History<S>, base: S) {
    && |h.items| <= ROOT_INDEX && h.current <= ROOT_INDEX
    && Done(h) <= |h.items|
    && h.document == RedoAll(h.items[..Done(h)], base)
    && Inverting(h.items, base)
  }

  predicate MayUndo<S>(h: History<S>) {
    |h.items| > 0 && h.current != ROOT_INDEX
  }

  predicate MayRedo<S>(h: History<S>) {
    |h.items| > 0 && h.current != |h.items| - 1
  }

  /** The cursor never leaves the items when it wraps. */
  lemma CursorInRange<S>(h: History<S>, base: S)
    requires Linear(h, base)
    ensures MayUndo(h) <==> Done(h) > 0
    ensures MayRedo(h) <==> Done(h) < |h.items|
    ensures MayUndo(h) ==> h.current == Done(h) - 1 < |h.items|
    ensures MayRedo(h) ==> Incremented(h.current) == Done(h) < |h.items|
  {
  }

  function UndoStep<S>(h: History<S>): History<S>
    requires MayUndo(h) ==> h.current < |h.items|
  {
    if MayUndo(h) then h.(current := Decremented(h.current), document := ApplyUndo(h.items[h.current], h.document)) else h
  }

  function RedoStep<S>(h: History<S>): History<S>
    requires MayRedo(h) ==> Incremented(h.current) < |h.items|
  {
    if MayRedo(h) then
      var next := Incremented(h.current);
      h.(current := next, document := ApplyRedo(h.items[next], h.document))
    else h
  }

  /** The items beyond the cursor are forgotten, the new one is the last. */
  function AddStep<S>(h: History<S>, item: Item<S>): History<S>
    requires Done(h) <= |h.items|
  {
    History(h.items[..Done(h)] + [item], Done(h), h.document)
  }

  lemma UndoKeeps<S>(h: History<S>, base: S)
    requires Linear(h, base)
    ensures Linear(UndoStep(h), base)
    ensures Done(UndoStep(h)) == if Done(h) > 0 then Done(h) - 1 else 0
  {
    if MayUndo(h) {
      var n := h.current;
      TakeOfTake(h.items, n, n + 1);
      assert h.items[..n + 1][n] == h.items[n];
      assert InvertsAt(h.items[n], RedoAll(h.items[..n], base));
    }
  }

  lemma RedoKeeps<S>(h: History<S>, base: S)
    requires Linear(h, base)
    ensures Linear(RedoStep(h), base)
    ensures Done(RedoStep(h)) == if Done(h) < |h.items| then Done(h) + 1 else |h.items|
  {
    if MayRedo(h) {
      var n := Done(h);
      TakeOfTake(h.items, n, n + 1);
      assert h.items[..n + 1][n] == h.items[n];
    }
  }

  /** Recording a change just made, by an item that can take it back, keeps the history linear. */
  lemma AddKeeps<S>(h: History<S>, base: S, item: Item<S>, document: S)
    requires Linear(h, base) && Done(h) < ROOT_INDEX
    requires document == ApplyRedo(item, h.document) && InvertsAt(item, h.document)
    ensures Linear(AddStep(h.(document := document), item), base)
    ensures Done(AddStep(h.(document := document), item)) == Done(h) + 1
  {
    var kept := h.items[..Done(h)];
    InvertingPrefix(h.items, base, Done(h));
    InvertingAppend(kept, base, item);
    assert (kept + [item])[..|kept|] == kept;
    assert (kept + [item])[..|kept| + 1] == kept + [item];
  }

  /** Undo after a redo, and redo after an undo, give back document and cursor. */
  lemma RedoThenUndo<S>(h: History<S>, base: S)
    requires Linear(h, base) && MayRedo(h)
    ensures Linear(RedoStep(h), base) && UndoStep(RedoStep(h)) == h
  {
    RedoKeeps(h, base);
    assert InvertsAt(h.items[Done(h)], RedoAll(h.items[..Done(h)], base));
  }

  lemma UndoThenRedo<S>(h: History<S>, base: S)
    requires Linear(h, base) && MayUndo(h)
    ensures Linear(UndoStep(h), base) && RedoStep(UndoStep(h)) == h
  {
    UndoKeeps(h, base);
    RedoKeeps(UndoStep(h), base);
  }

  ghost function UndoTimes<S>(h: History<S>, base: S, k: nat): (r: History<S>)
    requires Linear(h, base)
    ensures Linear(r, base) && r.items == h.items && Done(r) == if k <= Done(h) then Done(h) - k else 0
    decreases k
  {
    if k == 0 then h else
      UndoKeeps(h, base);
      UndoTimes(UndoStep(h), base, k - 1)
  }

  ghost function RedoTimes<S>(h: History<S>, base: S, k: nat): (r: History<S>)
    requires Linear(h, base)
    ensures Linear(r, base) && r.items == h.items
    decreases k
  {
    if k == 0 then h else
      RedoKeeps(h, base);
      RedoTimes(RedoStep(h), base, k - 1)
  }

  lemma {:induction false} RedoOnceMore<S>(h: History<S>, base: S, k: nat)
    requires Linear(h, base)
    ensures Linear(RedoTimes(h, base, k), base) && RedoTimes(h, base, k + 1) == RedoStep(RedoTimes(h, base, k))
    decreases k
  {
    hide Linear, RedoStep;
    CursorInRange(h, base);
    RedoKeeps(h, base);
    if k > 0 {
      RedoOnceMore(RedoStep(h), base, k - 1);
    }
  }

  /** k undos and then k redos are the identity. */
  lemma {:induction false} UndosThenRedos<S>(h: History<S>, base: S, k: nat)
    requires Linear(h, base) && k <= Done(h)
    ensures RedoTimes(UndoTimes(h, base, k), base, k) == h
    decreases k
  {
    hide Linear, UndoStep, RedoStep;
    if k > 0 {
      CursorInRange(h, base);
      UndoThenRedo(h, base);
      UndoKeeps(h, base);
      UndosThenRedos(UndoStep(h), base, k - 1);
      var u := UndoTimes(h, base, k);
      assert u == UndoTimes(UndoStep(h), base, k - 1);
      RedoOnceMore(u, base, k - 1);
    }
  }

  /** Undoing everything gives the base back, whatever was added, undone and redone before. */
  lemma UndoEverything<S>(h: History<S>, base: S)
    requires Linear(h, base)
    ensures UndoTimes(h, base, Done(h)).document == base
  {
    var r := UndoTimes(h, base, Done(h));
    assert r.items[..Done(r)] == [];
  }

  // ------------------------------------------------------------------ the manager

  class UndoManager<S> {
    var items: seq<Item<S>>
    var current: nat
    var doing: bool
    var document: S       // what the items change
    ghost var base: S     // the document before the first item

    ghost function Value(): History<S>
      reads this
    {
      History(items, current, document)
    }

    ghost predicate Valid()
      reads this
    {
      Linear(Value(), base) && !doing
    }

    constructor (document: S)
      ensures Valid() && items == [] && this.document == document && base == document
    {
      items, current, doing := [], ROOT_INDEX, false;
      this.document, base := document, document;
    }

    method CanUndo() returns (r: bool)
      ensures r == MayUndo(Value())
    {
      r := |items| > 0 && current != ROOT_INDEX;
    }

    method CanRedo() returns (r: bool)
      ensures r == MayRedo(Value())
    {
      r := |items| > 0 && current != |items| - 1;
    }

    method Undo()
      requires Valid()
      modifies this
      ensures Valid() && base == old(base) && items == old(items)
      ensures Done(Value()) == if Done(old(Value())) > 0 then Done(old(Value())) - 1 else 0
      ensures MayUndo(old(Value())) ==> Value() == UndoStep(old(Value()))
      ensures document == RedoAll(items[..Done(Value())], base)
    {
      UndoKeeps(Value(), base);
      var may := CanUndo();
      if may {
        doing := true;
        document := ApplyUndo(items[current], document);
        current := Decremented(current);
        doing := false;
      }
    }

    method Redo()
      requires Valid()
      modifies this
      ensures Valid() && base == old(base) && items == old(items)
      ensures Done(Value()) == if Done(old(Value())) < |items| then Done(old(Value())) + 1 else |items|
      ensures document == RedoAll(items[..Done(Value())], base)
    {
      RedoKeeps(Value(), base);
      var may := CanRedo();
      if may {
        doing := true;
        current := Incremented(current);
        document := ApplyRedo(items[current], document);
        doing := false;
      }
    }

    /** Records a change the owner has just made to the document `before`; while an item is being
        undone or redone nothing is recorded. */
    method AddItem(item: Item<S>, ghost before: S)
      requires Linear(Value().(document := before), base)
      requires !doing ==> Done(Value()) < ROOT_INDEX && document == ApplyRedo(item, before) && InvertsAt(item, before)
      modifies this
      ensures doing == old(doing) && base == old(base) && document == old(document)
      ensures old(doing) ==> Value() == old(Value())
      ensures !old(doing) ==> Valid() && items == old(items)[..Done(old(Value()))] + [item] && Done(Value()) == |items|
    {
      hide Inverting, InvertsAt, RedoAll;
      if !doing {
        ghost var h := Value();
        AddKeeps(Value().(document := before), base, item, document);
        if |items| > 0 && current != |items| - 1 {
          items := items[..Incremented(current)];
        }
        items := items + [item];
        current := |items| - 1;
        assert items == h.items[..Done(h)] + [item];
        assert Value() == AddStep(h, item);
      }
    }

    /** Forgets every item; the document stays as it is. */
    method Clear()
      requires Valid()
      modifies this
      ensures Valid() && items == [] && document == old(document) && base == document
    {
      items, current := [], ROOT_INDEX;
      base := document;
    }
  }
}
