/** A separator that equals the split child's own: findInsertPos puts it behind (storage/btree/btree.go). */
module Misplaced {
  import opened Types
  import opened Keys
  import opened Pages
  import opened Tree
  import opened TreeProofs
  import opened TreeOrder
  import opened TreeMap
  import opened PagedTree

  /** Where findInsertPos puts the old child's cell, once the child's own pointer leads to the right half. */
  function Spot(t: Tree, i: nat, o: Outcome): (pos: nat)
    requires t.Node? && i < |t.seps| && o.Two?
    ensures pos <= |t.seps|
  {
    UpperBound(Repointed(t, i, o.right.id), o.sep)
  }

  /** The separators that patchInternalAfterChildSplit leaves, wherever the new one goes. */
  function SpotSeps(t: Tree, i: nat, o: Outcome): seq<Sep>
    requires t.Node? && i < |t.seps| && o.Two?
  {
    var pos, seps := Spot(t, i, o), t.seps[i := Sep(t.seps[i].key, o.right)];
    seps[..pos] + [Sep(o.sep, o.left)] + seps[pos..]
  }

  /** The node they belong to. */
  function Crossed(t: Tree, i: nat, o: Outcome): Tree
    requires t.Node? && i < |t.seps| && o.Two?
  {
    Node(t.id, SpotSeps(t, i, o), t.last, t.off - Size(Cell(o.sep, Child(o.left.id))))
  }

  /** Its page is the one that the code writes. */
  lemma CrossedPage(t: Tree, i: nat, o: Outcome)
    requires t.Node? && i < |t.seps| && o.Two?
    ensures Branches(Crossed(t, i, o).seps) == InsertAt(Repointed(t, i, o.right.id), Spot(t, i, o), Cell(o.sep, Child(o.left.id)))
  {
    hide UpperBound;
    var a := Branches(Crossed(t, i, o).seps);
    var b := InsertAt(Repointed(t, i, o.right.id), Spot(t, i, o), Cell(o.sep, Child(o.left.id)));
    assert |a| == |b|;
    forall j | 0 <= j < |a| ensures a[j] == b[j] {}
  }

  lemma BehindOwn(t: Tree, i: nat, o: Outcome, lo: Bound, hi: Bound)
    requires t.Node? && i < |t.seps| && o.Two? && Ordered(t, lo, hi) && o.sep == t.seps[i].key
    ensures Spot(t, i, o) > i
  {
    KeyOrder(o.sep, o.sep);
    var cells := Repointed(t, i, o.right.id);
    forall j | 0 <= j <= i ensures !Lt(o.sep, cells[j].key) { SepsBelow(t, j, i, o.sep); }
  }

  /** No key lies between a separator and itself. */
  lemma NothingBetween(o: Outcome, lo: Bound, hi: Bound)
    requires o.Two? && OrderedOut(o, lo, hi) && hi == At(o.sep)
    ensures Contents(o.right) == []
  {
    hide Ordered;
    ContentsSorted(o.right, At(o.sep), hi);
    if Contents(o.right) != [] {
      assert InRange(Contents(o.right)[0].key, At(o.sep), hi);
      KeyOrder(Contents(o.right)[0].key, o.sep);
    }
  }

  lemma {:induction false} EmptyTarget(t: Tree, key: Key)
    requires Contents(t) == []
    ensures Target(t, key).cells == []
    decreases t
  {
    if t.Node? {
      Around(t, Route(t, key));
      EmptyTarget(Kid(t, Route(t, key)), key);
    }
  }

  lemma CrossedRoute(t: Tree, i: nat, o: Outcome, key: Key, lo: Bound, hi: Bound)
    requires t.Node? && i < |t.seps| && o.Two? && Ordered(t, lo, hi) && o.sep == t.seps[i].key && Route(t, key) == i
    ensures var m := Crossed(t, i, o); Route(m, key) == i && Kid(m, i) == o.right
  {
    hide UpperBound;
    BehindOwn(t, i, o, lo, hi);
    var b, b' := Branches(t.seps), Branches(Crossed(t, i, o).seps);
    forall j | 0 <= j <= i ensures b'[j].key == b[j].key {}
    PositionIs(b', key, i);
  }

  /**
    A separator that equals the child's own goes behind it instead. The child's own separator then
    leads to the new right half, which is empty, and every key below it is looked for there: no search finds
    a row of the left half, though all of them are still in the tree.
   */
  lemma MisplacedLosesLeft(t: Tree, i: nat, o: Outcome, key: Key, lo: Bound, hi: Bound)
    requires t.Node? && i < |t.seps| && o.Two? && Ordered(t, lo, hi) && o.sep == t.seps[i].key
    requires OrderedOut(o, Low(t, i, lo), High(t, i, hi)) && Route(t, key) == i
    ensures var m := Crossed(t, i, o);
            && Spot(t, i, o) > i && Kid(m, Route(m, key)) == o.right && Lookup(Target(m, key).cells, key) == None
            && forall c | c in Contents(o.left) :: c in Contents(m)
  {
    hide UpperBound, Route, Ordered;
    BehindOwn(t, i, o, lo, hi);
    CrossedRoute(t, i, o, key, lo, hi);
    NothingBetween(o, Low(t, i, lo), High(t, i, hi));
    EmptyTarget(o.right, key);
    var m := Crossed(t, i, o);
    assert Kid(m, Spot(t, i, o)) == o.left;
    Around(m, Spot(t, i, o));
  }
}
