/**
  Internal pages whose halves do not fit when they split: the AddCell calls of splitInternal refuse a
  separator, and the child in front of it is reached no more (storage/btree/btree.go).
 */
module Refusals {
  import opened Types
  import opened Keys
  import opened Pages
  import opened Tree
  import opened TreeProofs
  import opened TreeMatch
  import opened TreeMap
  import B = BTree

  /** The separators that are accepted when each is offered to an emptied page. */
  function KeptSeps(seps: seq<Sep>): (kept: seq<Sep>)
    ensures |kept| <= |seps|
  {
    if seps == [] then []
    else
      var n := |seps| - 1;
      var before := KeptSeps(seps[..n]);
      if Accepted(before, seps[n]) then before + [seps[n]] else before
  }

  predicate Accepted(before: seq<Sep>, s: Sep) {
    TotalSize(Branches(before)) + SLOT_SIZE * |before| + Weight(Cell(s.key, Child(s.child.id))) <= CAPACITY
  }

  /** Separator j is refused. */
  predicate Refused(seps: seq<Sep>, j: nat)
    requires j < |seps|
  {
    !Accepted(KeptSeps(seps[..j]), seps[j])
  }

  /** What is left of a node when its separators are offered to its page. */
  function Thinned(t: Tree): Tree
    requires t.Node?
  {
    var kept := KeptSeps(t.seps);
    Node(t.id, kept, t.last, FilledOff(Branches(kept)))
  }

  lemma {:induction false} KeptBranches(seps: seq<Sep>)
    ensures Branches(KeptSeps(seps)) == Kept(Branches(seps))
  {
    hide TotalSize, Size;
    if seps != [] {
      var n := |seps| - 1;
      KeptBranches(seps[..n]);
      assert Branches(seps)[..n] == Branches(seps[..n]);
      var before := KeptSeps(seps[..n]);
      assert Branches(before + [seps[n]]) == Branches(before) + [Branches(seps)[n]];
    }
  }

  /** The pages that splitInternal leaves are those of the thinned halves, whatever fits. */
  lemma ThinnedPages(left: Page, right: Page, upKey: Key, g: Tree, newId: PageId)
    requires g.Node? && g.seps != [] && B.Divided(left, right, upKey, g, newId)
    ensures var h := Halves(g, newId); upKey == h.sep && NodePage(left, Thinned(h.left)) && NodePage(right, Thinned(h.right))
  {
    hide Kept, Branches;
    var h := Halves(g, newId);
    KeptBranches(h.left.seps);
    KeptBranches(h.right.seps);
  }

  // ---- Which children are lost ----

  /** The child in front of the first separator greater than the key. */
  function Reach(seps: seq<Sep>, last: Tree, key: Key): Tree {
    if seps == [] then last else if Lt(key, seps[0].key) then seps[0].child else Reach(seps[1..], last, key)
  }

  lemma {:induction false} ReachIs(seps: seq<Sep>, last: Tree, key: Key)
    ensures var i := UpperBound(Branches(seps), key);
            Reach(seps, last, key) == if i < |seps| then seps[i].child else last
  {
    if seps != [] {
      assert Branches(seps)[1..] == Branches(seps[1..]);
      if !Lt(key, seps[0].key) { ReachIs(seps[1..], last, key); }
    }
  }

  /** The last separator decides only for keys that no earlier one is greater than. */
  lemma {:induction false} ReachLast(seps: seq<Sep>, s: Sep, last: Tree, key: Key)
    ensures Reach(seps + [s], last, key) == Reach(seps, if Lt(key, s.key) then s.child else last, key)
  {
    if seps == [] {
      assert [] + [s] == [s] && [s][1..] == [];
    } else {
      assert (seps + [s])[1..] == seps[1..] + [s];
      ReachLast(seps[1..], s, last, key);
    }
  }

  /** A child that is not in front of a refused separator is reached as before; instead of one that is, a later child is reached. */
  lemma {:induction false} ReachKept(seps: seq<Sep>, last: Tree, key: Key) returns (j: nat)
    ensures var i, r := UpperBound(Branches(seps), key), Reach(KeptSeps(seps), last, key);
            && j <= |seps| && r == (if j < |seps| then seps[j].child else last)
            && (if i < |seps| && Refused(seps, i) then j > i else j == i)
  {
    if seps == [] {
      j := 0;
    } else {
      var n := |seps| - 1;
      var front, s := seps[..n], seps[n];
      var last' := if Lt(key, s.key) then s.child else last;
      FrontBound(seps, key);
      if Refused(seps, n) {
        j := ReachKept(front, last, key);
        if j == n { j := n + 1; }
      } else {
        ReachLast(KeptSeps(front), s, last, key);
        j := ReachKept(front, last', key);
        if j == n && !Lt(key, s.key) { j := n + 1; }
      }
      FrontRefused(seps);
    }
  }

  lemma FrontBound(seps: seq<Sep>, key: Key)
    requires seps != []
    ensures var n := |seps| - 1;
            var i := UpperBound(Branches(seps[..n]), key);
            UpperBound(Branches(seps), key) == if i < n then i else if Lt(key, seps[n].key) then n else n + 1
  {
    var n, b := |seps| - 1, Branches(seps);
    var i := UpperBound(Branches(seps[..n]), key);
    var u := UpperBound(b, key);
    forall k | 0 <= k < n ensures Branches(seps[..n])[k] == b[k] {}
  }

  lemma FrontRefused(seps: seq<Sep>)
    requires seps != []
    ensures forall i | 0 <= i < |seps| - 1 :: Refused(seps[..|seps| - 1], i) <==> Refused(seps, i)
  {
    hide KeptSeps, Accepted;
    forall i | 0 <= i < |seps| - 1 ensures seps[..|seps| - 1][..i] == seps[..i] {}
  }

  /** In a child behind the key's own there is no such key. */
  lemma NotBehind(t: Tree, i: nat, j: nat, key: Key, lo: Bound, hi: Bound)
    requires t.Node? && Ordered(t, lo, hi) && i < j <= |t.seps| && Lt(key, t.seps[i].key)
    ensures Lookup(Target(Kid(t, j), key).cells, key) == None
  {
    var k := Kid(t, j);
    assert Ordered(k, Low(t, j, lo), High(t, j, hi)) && Le(t.seps[i].key, t.seps[j - 1].key) by { KeyOrder(key, key); }
    hide Ordered, Target, Contents, Find;
    ContentsSorted(k, Low(t, j, lo), High(t, j, hi));
    var l := Target(k, key).cells;
    if Find(l, key) < |l| {
      var x := l[Find(l, key)];
      TargetCells(k, key, x);
      LeLe(t.seps[i].key, t.seps[j - 1].key, x.key);
      LeLt(key, t.seps[i].key, x.key);
      KeyOrder(key, x.key);
      assert false;
    }
  }

  lemma {:induction false} TargetCells(t: Tree, key: Key, x: Cell)
    requires x in Target(t, key).cells
    ensures x in Contents(t)
    decreases t
  {
    if t.Node? {
      Around(t, Route(t, key));
      TargetCells(Kid(t, Route(t, key)), key, x);
    }
  }

  /**
    Once the separators have been offered to a page, a search below the node finds what it found before, except
    that it finds nothing for the keys of a child whose separator has been refused.
   */
  lemma ThinnedFinds(t: Tree, key: Key, lo: Bound, hi: Bound)
    requires t.Node? && Ordered(t, lo, hi) && InRange(key, lo, hi)
    ensures var i := Route(t, key);
            Lookup(Target(Thinned(t), key).cells, key) ==
              if i < |t.seps| && Refused(t.seps, i) then None else Lookup(Target(t, key).cells, key)
  {
    hide KeptSeps, Reach, UpperBound, Ordered, Lookup, FilledOff, Accepted;
    var i, m := Route(t, key), Thinned(t);
    ReachIs(m.seps, t.last, key);
    var j := ReachKept(t.seps, t.last, key);
    assert Kid(m, Route(m, key)) == Kid(t, j);
    if j > i { NotBehind(t, i, j, key, lo, hi); }
  }

  /** Nothing is refused exactly if the separators fit the page. */
  lemma {:induction false} RefusedIff(seps: seq<Sep>)
    ensures (forall j | 0 <= j < |seps| :: !Refused(seps, j)) <==> Fits(Branches(seps))
  {
    KeptBranches(seps);
    KeptShorter(Branches(seps));
    NoneRefused(seps);
  }

  lemma {:induction false} NoneRefused(seps: seq<Sep>)
    ensures (forall j | 0 <= j < |seps| :: !Refused(seps, j)) <==> |KeptSeps(seps)| == |seps|
  {
    if seps != [] {
      var n := |seps| - 1;
      hide KeptSeps, Accepted;
      NoneRefused(seps[..n]);
      FrontRefused(seps);
      LastRefused(seps);
      if forall j | 0 <= j < |seps| :: !Refused(seps, j) {
        forall j | 0 <= j < n ensures !Refused(seps[..n], j) { assert !Refused(seps, j); }
      }
    }
  }

  lemma LastRefused(seps: seq<Sep>)
    requires seps != []
    ensures var n := |seps| - 1; |KeptSeps(seps)| == |KeptSeps(seps[..n])| + if Refused(seps, n) then 0 else 1
  {}
}
