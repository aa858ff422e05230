/** Page identities, depth and space under insertion, update and deletion. */
module TreeShape {
  import opened Keys
  import opened Pages
  import opened Tree
  import opened TreeOrder

  ghost function OutIds(o: Outcome): set<PageId> {
    match o
    case One(t) => Ids(t)
    case Two(l, _, r) => Ids(l) + Ids(r)
  }

  ghost predicate DistinctOut(o: Outcome) {
    match o
    case One(t) => Distinct(t)
    case Two(l, _, r) => Distinct(l) && Distinct(r) && Ids(l) !! Ids(r)
  }

  ghost predicate BalancedOut(o: Outcome, h: nat) {
    match o
    case One(t) => Balanced(t, h)
    case Two(l, _, r) => Balanced(l, h) && Balanced(r, h)
  }

  /** The part of an outcome that keeps the old page at its root. */
  function Stays(o: Outcome): Tree {
    match o
    case One(t) => t
    case Two(l, _, _) => l
  }

  // ---- Pages of a subtree ----

  lemma KidIds(t: Tree, i: nat)
    requires t.Node? && i <= |t.seps|
    ensures Ids(Kid(t, i)) <= Ids(t)
  {}

  lemma IdsMember(t: Tree, x: PageId) returns (i: nat)
    requires t.Node? && x in Ids(t) && x != t.id
    ensures i <= |t.seps| && x in Ids(Kid(t, i))
  {
    i :| 0 <= i <= |t.seps| && x in Ids(Kid(t, i));
  }

  lemma RootInIds(t: Tree)
    ensures t.id in Ids(t)
  {}

  lemma {:induction false} FirstLeafInIds(t: Tree)
    ensures FirstLeaf(t) in Ids(t)
    decreases t
  {
    if t.Node? {
      FirstLeafInIds(Kid(t, 0));
      KidIds(t, 0);
    }
  }

  /** Two children share no page, and none has the page of the node. */
  lemma KidsApart(t: Tree, i: nat, j: nat)
    requires t.Node? && Distinct(t) && i <= |t.seps| && j <= |t.seps|
    ensures t.id !in Ids(Kid(t, i)) && Distinct(Kid(t, i))
    ensures i != j ==> Ids(Kid(t, i)) !! Ids(Kid(t, j))
  {
    if j < i { assert Ids(Kid(t, j)) !! Ids(Kid(t, i)); }
  }

  /** The pages of an outcome are those of the subtree and newly allocated ones. */
  ghost predicate IdsFrom(ids: set<PageId>, t: Tree, next: PageId, next': PageId) {
    forall x :: x in ids ==> x in Ids(t) || next <= x < next'
  }

  ghost predicate IdsBelow(t: Tree, next: PageId) {
    forall x :: x in Ids(t) ==> x < next
  }

  // ---- One child replaced ----

  lemma ReplacedDistinct(t: Tree, i: nat, k: Tree, next: PageId, next': PageId)
    requires t.Node? && i <= |t.seps| && Distinct(t) && Distinct(k)
    requires IdsBelow(t, next) && IdsFrom(Ids(k), Kid(t, i), next, next')
    ensures Distinct(ReplaceKid(t, i, k)) && IdsFrom(Ids(ReplaceKid(t, i, k)), t, next, next')
  {
    var t' := ReplaceKid(t, i, k);
    ReplacedKids(t, i, k, Unbounded, Unbounded);
    RootInIds(t);
    KidIds(t, i);
    KidsApart(t, i, i);
    forall a | 0 <= a <= |t'.seps| ensures Distinct(Kid(t', a)) && t'.id !in Ids(Kid(t', a)) {
      if a != i { KidsApart(t, a, a); }
    }
    forall a, b | 0 <= a < b <= |t'.seps| ensures Ids(Kid(t', a)) !! Ids(Kid(t', b)) {
      KidIds(t, a);
      KidIds(t, b);
      KidsApart(t, a, b);
    }
    forall x | x in Ids(t') ensures x in Ids(t) || next <= x < next' {
      if x != t'.id {
        var a := IdsMember(t', x);
        KidIds(t, a);
      }
    }
  }

  lemma ReplacedBalanced(t: Tree, i: nat, k: Tree, h: nat)
    requires t.Node? && i <= |t.seps| && Balanced(t, h) && Balanced(k, h - 1)
    ensures Balanced(ReplaceKid(t, i, k), h)
  {
    ReplacedKids(t, i, k, Unbounded, Unbounded);
    var t' := ReplaceKid(t, i, k);
    forall a | 0 <= a <= |t'.seps| ensures Balanced(Kid(t', a), h - 1) {
      assert Balanced(Kid(t, a), h - 1);
    }
  }

  // ---- A split child taken in ----

  /** Which pages child j of the grown node has. */
  lemma GrownKidIds(t: Tree, i: nat, o: Outcome, off: int, next: PageId, next': PageId, j: nat)
    requires t.Node? && i <= |t.seps| && o.Two? && j <= |t.seps| + 1 && Distinct(t) && DistinctOut(o)
    requires IdsBelow(t, next) && IdsFrom(OutIds(o), Kid(t, i), next, next')
    ensures var k := Kid(Grown(t, i, o, off), j);
            && Distinct(k) && t.id !in Ids(k)
            && IdsFrom(Ids(k), Kid(t, if j <= i then j else j - 1), next, next')
            && (j < i ==> Ids(k) == Ids(Kid(t, j))) && (j > i + 1 ==> Ids(k) == Ids(Kid(t, j - 1)))
  {
    GrownKid(t, i, o, off, Unbounded, Unbounded, j);
    RootInIds(t);
    KidsApart(t, if j <= i then j else j - 1, i);
  }

  lemma GrownDistinct(t: Tree, i: nat, o: Outcome, off: int, next: PageId, next': PageId)
    requires t.Node? && i <= |t.seps| && o.Two? && Distinct(t) && DistinctOut(o)
    requires IdsBelow(t, next) && IdsFrom(OutIds(o), Kid(t, i), next, next')
    ensures var g := Grown(t, i, o, off); Distinct(g) && IdsFrom(Ids(g), t, next, next')
  {
    var g := Grown(t, i, o, off);
    forall a | 0 <= a <= |g.seps| ensures Distinct(Kid(g, a)) && g.id !in Ids(Kid(g, a)) {
      GrownKidIds(t, i, o, off, next, next', a);
    }
    forall a, b | 0 <= a < b <= |g.seps| ensures Ids(Kid(g, a)) !! Ids(Kid(g, b)) {
      GrownKidIds(t, i, o, off, next, next', a);
      GrownKidIds(t, i, o, off, next, next', b);
      GrownKid(t, i, o, off, Unbounded, Unbounded, a);
      GrownKid(t, i, o, off, Unbounded, Unbounded, b);
      var a', b' := if a <= i then a else a - 1, if b <= i then b else b - 1;
      KidIds(t, a');
      KidIds(t, b');
      KidsApart(t, a', b');
    }
    forall x | x in Ids(g) ensures x in Ids(t) || next <= x < next' {
      RootInIds(t);
      if x != g.id {
        var a := IdsMember(g, x);
        GrownKidIds(t, i, o, off, next, next', a);
        KidIds(t, if a <= i then a else a - 1);
      }
    }
  }

  lemma GrownBalanced(t: Tree, i: nat, o: Outcome, off: int, h: nat)
    requires t.Node? && i <= |t.seps| && o.Two? && Balanced(t, h) && BalancedOut(o, h - 1)
    ensures Balanced(Grown(t, i, o, off), h)
  {
    var g := Grown(t, i, o, off);
    forall a | 0 <= a <= |g.seps| ensures Balanced(Kid(g, a), h - 1) {
      GrownKid(t, i, o, off, Unbounded, Unbounded, a);
      if a < i { assert Balanced(Kid(t, a), h - 1); }
      if a > i + 1 { assert Balanced(Kid(t, a - 1), h - 1); }
    }
  }

  // ---- An internal page split ----

  /** Each half is a run of the children of g, the left one on its page and the right one on a new page. */
  lemma HalvesRuns(g: Tree, next: PageId)
    requires g.Node? && g.seps != []
    ensures var h, mid := Halves(g, next), |g.seps| / 2;
            && h.Two? && h.left.Node? && h.right.Node? && h.left.id == g.id && h.right.id == next
            && |h.left.seps| == mid && mid + 1 + |h.right.seps| == |g.seps|
            && (forall j :: 0 <= j <= |h.left.seps| ==> Kid(h.left, j) == Kid(g, 0 + j))
            && forall j :: 0 <= j <= |h.right.seps| ==> Kid(h.right, j) == Kid(g, mid + 1 + j)
  {
    HalvesKids(g, next, Unbounded, Unbounded);
  }

  lemma HalvesDistinct(g: Tree, next: PageId)
    requires g.Node? && g.seps != [] && Distinct(g) && IdsBelow(g, next)
    ensures var h := Halves(g, next); DistinctOut(h) && IdsFrom(OutIds(h), g, next, next + 1)
  {
    hide Ids, Distinct, Halves, Kid;
    HalvesRuns(g, next);
    RootInIds(g);
    var h, mid := Halves(g, next), |g.seps| / 2;
    HalfDistinct(g, h.left, 0);
    HalfDistinct(g, h.right, mid + 1);
    HalvesApart(g, next);
  }

  lemma HalvesApart(g: Tree, next: PageId)
    requires g.Node? && g.seps != [] && Distinct(g) && IdsBelow(g, next)
    ensures var h := Halves(g, next); h.Two? && Ids(h.left) !! Ids(h.right)
  {
    hide Ids, Distinct, Halves;
    HalvesRuns(g, next);
    RootInIds(g);
    var h, mid := Halves(g, next), |g.seps| / 2;
    forall x | x in Ids(h.left) ensures x !in Ids(h.right) {
      if x == g.id {
        HalfDistinct(g, h.right, mid + 1);
      } else {
        var a := IdsMember(h.left, x);
        KidIds(g, a);
        NotInRight(g, h.right, mid + 1, a, x);
      }
    }
  }

  /** A page below child a of g is not below a later run of its children, nor a new page. */
  lemma NotInRight(g: Tree, p: Tree, from: nat, a: nat, x: PageId)
    requires g.Node? && Distinct(g) && p.Node? && p.id !in Ids(g) && a < from && from + |p.seps| <= |g.seps|
    requires forall j :: 0 <= j <= |p.seps| ==> Kid(p, j) == Kid(g, from + j)
    requires x in Ids(Kid(g, a)) && x in Ids(g)
    ensures x !in Ids(p)
  {
    hide Ids, Distinct;
    forall b | 0 <= b <= |p.seps| ensures x !in Ids(Kid(p, b)) { KidsApart(g, a, from + b); }
    if x in Ids(p) && x != p.id { var b := IdsMember(p, x); }
  }

  /** A node built from a run of the children of g, on the page of g or on a new one. */
  lemma HalfDistinct(g: Tree, p: Tree, from: nat)
    requires g.Node? && p.Node? && Distinct(g) && from + |p.seps| <= |g.seps|
    requires forall j :: 0 <= j <= |p.seps| ==> Kid(p, j) == Kid(g, from + j)
    requires p.id == g.id || p.id !in Ids(g)
    ensures Distinct(p)
    ensures forall x :: x in Ids(p) && x != p.id ==> x in Ids(g) && x != g.id
  {
    forall a | 0 <= a <= |p.seps| ensures Distinct(Kid(p, a)) && p.id !in Ids(Kid(p, a)) {
      KidsApart(g, from + a, from + a);
      KidIds(g, from + a);
    }
    forall a, b | 0 <= a < b <= |p.seps| ensures Ids(Kid(p, a)) !! Ids(Kid(p, b)) {
      KidsApart(g, from + a, from + b);
    }
    forall x | x in Ids(p) && x != p.id ensures x in Ids(g) && x != g.id {
      var a := IdsMember(p, x);
      KidsApart(g, from + a, from + a);
      KidIds(g, from + a);
    }
  }

  lemma HalvesBalanced(g: Tree, next: PageId, h: nat)
    requires g.Node? && g.seps != [] && Balanced(g, h)
    ensures BalancedOut(Halves(g, next), h)
  {
    HalvesKids(g, next, Unbounded, Unbounded);
    var s, mid := Halves(g, next), |g.seps| / 2;
    forall a | 0 <= a <= mid ensures Balanced(Kid(s.left, a), h - 1) {
      assert Balanced(Kid(g, a), h - 1);
    }
    forall a | 0 <= a <= |s.right.seps| ensures Balanced(Kid(s.right, a), h - 1) {
      assert Balanced(Kid(g, mid + 1 + a), h - 1);
    }
  }

  // ---- Insertion and update ----

  lemma SettledDistinct(g: Tree, room: bool, t: Tree, next: PageId, f: PageId)
    requires g.Node? && g.seps != [] && Distinct(g) && IdsFrom(Ids(g), t, next, f) && IdsBelow(t, next) && next <= f
    ensures var o := Settle(g, room, f); DistinctOut(o) && IdsFrom(OutIds(o), t, next, if o.Two? then f + 1 else f)
  {
    if !room {
      forall x | x in Ids(g) ensures x < f { if x in Ids(t) { assert x < next; } }
      HalvesDistinct(g, f);
    }
  }

  lemma PutNodeDistinct(t: Tree, i: nat, o: Outcome, next: PageId, f: PageId)
    requires t.Node? && i <= |t.seps| && Distinct(t) && IdsBelow(t, next) && next <= f
    requires DistinctOut(o) && IdsFrom(OutIds(o), Kid(t, i), next, f)
    ensures var o' := PutNode(t, i, o, f);
            DistinctOut(o') && IdsFrom(OutIds(o'), t, next, if o'.Two? then f + 1 else f)
  {
    if o.One? {
      ReplacedDistinct(t, i, o.t, next, f);
    } else {
      var g := Charged(t, i, o);
      GrownDistinct(t, i, o, g.off, next, f);
      SettledDistinct(g, RoomFor(t.off, |t.seps|, Cell(o.sep, Child(o.left.id))), t, next, f);
    }
  }

  lemma {:induction false} PutDistinct(t: Tree, mode: Mode, c: Cell, next: PageId)
    requires Distinct(t) && IdsBelow(t, next)
    ensures var (o, next') := Put(t, mode, c, next);
            && next <= next'
            && DistinctOut(o) && IdsFrom(OutIds(o), t, next, next')
            && Stays(o).id == t.id
            && (o.Two? ==> next <= o.right.id < next')
    decreases t
  {
    RootInIds(t);
    if t.Node? {
      var i := Route(t, c.key);
      KidIds(t, i);
      KidsApart(t, i, i);
      PutDistinct(Kid(t, i), mode, c, next);
      var (o, f) := Put(Kid(t, i), mode, c, next);
      PutNodeDistinct(t, i, o, next, f);
    }
  }

  lemma SettledBalanced(g: Tree, room: bool, f: PageId, h: nat)
    requires g.Node? && g.seps != [] && Balanced(g, h)
    ensures BalancedOut(Settle(g, room, f), h)
  {
    if !room { HalvesBalanced(g, f, h); }
  }

  lemma PutNodeBalanced(t: Tree, i: nat, o: Outcome, f: PageId, h: nat)
    requires t.Node? && i <= |t.seps| && Balanced(t, h) && BalancedOut(o, h - 1)
    ensures BalancedOut(PutNode(t, i, o, f), h)
  {
    if o.One? {
      ReplacedBalanced(t, i, o.t, h);
    } else {
      var g := Charged(t, i, o);
      GrownBalanced(t, i, o, g.off, h);
      SettledBalanced(g, RoomFor(t.off, |t.seps|, Cell(o.sep, Child(o.left.id))), f, h);
    }
  }

  /** Insertion keeps all leaves at one depth and allocates at most one page a level. */
  lemma {:induction false} PutBalanced(t: Tree, mode: Mode, c: Cell, next: PageId, h: nat)
    requires Balanced(t, h)
    ensures var (o, next') := Put(t, mode, c, next); BalancedOut(o, h) && next <= next' <= next + h + 1
    decreases t
  {
    if t.Node? {
      var i := Route(t, c.key);
      assert Balanced(Kid(t, i), h - 1);
      PutBalanced(Kid(t, i), mode, c, next, h - 1);
      var (o, f) := Put(Kid(t, i), mode, c, next);
      PutNodeBalanced(t, i, o, f, h);
    }
  }

  /** The leftmost child of a node that has taken in a child's outcome. */
  lemma PutNodeFirst(t: Tree, i: nat, o: Outcome, f: PageId)
    requires t.Node? && i <= |t.seps| && (o.One? ==> |t.seps| > 0 || i == 0)
    ensures var k := Stays(PutNode(t, i, o, f));
            && k.Node? && Kid(k, 0) == (if i == 0 then Stays(o) else Kid(t, 0))
            && (|t.seps| > 0 ==> |k.seps| > 0)
  {
    if o.One? {
      ReplacedKids(t, i, o.t, Unbounded, Unbounded);
    } else {
      var g := Charged(t, i, o);
      GrownKid(t, i, o, g.off, Unbounded, Unbounded, 0);
      HalvesKids(g, f, Unbounded, Unbounded);
    }
  }

  /** The leaf chain of a subtree keeps its first leaf: splits put the new page on the right. */
  lemma {:induction false} PutFirstLeaf(t: Tree, mode: Mode, c: Cell, next: PageId)
    ensures FirstLeaf(Stays(Put(t, mode, c, next).0)) == FirstLeaf(t)
    decreases t
  {
    if t.Node? {
      var i := Route(t, c.key);
      PutFirstLeaf(Kid(t, i), mode, c, next);
      var (o, f) := Put(Kid(t, i), mode, c, next);
      PutNodeFirst(t, i, o, f);
    }
  }

  /** findLeftmostLeaf never stops at an internal page without cells. */
  lemma {:induction false} PutSpine(t: Tree, mode: Mode, c: Cell, next: PageId)
    requires SpineOk(t)
    ensures SpineOk(Stays(Put(t, mode, c, next).0))
    decreases t
  {
    if t.Node? {
      var i := Route(t, c.key);
      if i == 0 { PutSpine(Kid(t, 0), mode, c, next); }
      var (o, f) := Put(Kid(t, i), mode, c, next);
      PutNodeFirst(t, i, o, f);
    }
  }

  lemma {:induction false} BalancedHeight(t: Tree, h: nat)
    requires Balanced(t, h)
    ensures h == Height(t)
    decreases t
  {
    if t.Node? {
      assert Balanced(Kid(t, 0), h - 1);
      BalancedHeight(Kid(t, 0), h - 1);
    }
  }

  // ---- The whole tree ----

  /** The invariant of every tree the code builds, the strict order apart. Page 0, the first ever made, stays the first leaf. */
  ghost predicate WellShaped(t: Tree, next: PageId) {
    && Distinct(t) && IdsBelow(t, next)
    && Balanced(t, Height(t))
    && SpineOk(t) && FirstLeaf(t) == 0
  }

  lemma GrowShape(o: Outcome, next: PageId, h: nat)
    requires DistinctOut(o) && BalancedOut(o, h) && SpineOk(Stays(o)) && FirstLeaf(Stays(o)) == 0
    requires forall x :: x in OutIds(o) ==> x < next
    ensures WellShaped(Grow(o, next), if o.Two? then next + 1 else next)
  {
    if o.Two? {
      var g := Grow(o, next);
      assert Kid(g, 0) == o.left && Kid(g, 1) == o.right;
      assert forall x :: x in Ids(o.left) || x in Ids(o.right) ==> x in OutIds(o);
      forall x | x in Ids(g) ensures x < next + 1 {
        if x != g.id { var a := IdsMember(g, x); }
      }
      forall a | 0 <= a <= |g.seps| ensures Distinct(Kid(g, a)) && g.id !in Ids(Kid(g, a)) && Balanced(Kid(g, a), h) {}
      forall a, b | 0 <= a < b <= |g.seps| ensures Ids(Kid(g, a)) !! Ids(Kid(g, b)) {}
      assert Balanced(g, h + 1);
      BalancedHeight(g, h + 1);
    } else {
      BalancedHeight(o.t, h);
      assert forall x :: x in Ids(o.t) ==> x in OutIds(o);
    }
  }

  lemma PutRootShape(t: Tree, mode: Mode, c: Cell, next: PageId)
    requires WellShaped(t, next)
    ensures var (o, f) := Put(t, mode, c, next);
            WellShaped(PutRoot(t, mode, c, next), if o.Two? then f + 1 else f)
  {
    var h := Height(t);
    PutDistinct(t, mode, c, next);
    PutBalanced(t, mode, c, next, h);
    PutSpine(t, mode, c, next);
    PutFirstLeaf(t, mode, c, next);
    var (o, f) := Put(t, mode, c, next);
    GrowShape(o, f, h);
  }

  lemma {:induction false} RemoveShape(t: Tree, key: Key, next: PageId, h: nat)
    requires Distinct(t) && IdsBelow(t, next) && Balanced(t, h)
    ensures var t' := Remove(t, key);
            && Distinct(t') && Balanced(t', h) && Ids(t') == Ids(t) && t'.id == t.id
            && FirstLeaf(t') == FirstLeaf(t) && (SpineOk(t) ==> SpineOk(t'))
    decreases t
  {
    if t.Node? {
      var i := Route(t, key);
      KidIds(t, i);
      KidsApart(t, i, i);
      assert Balanced(Kid(t, i), h - 1);
      RemoveShape(Kid(t, i), key, next, h - 1);
      var k := Remove(Kid(t, i), key);
      ReplacedDistinct(t, i, k, next, next);
      ReplacedBalanced(t, i, k, h);
      ReplacedKids(t, i, k, Unbounded, Unbounded);
      ReplacedIds(t, i, k);
    }
  }

  lemma ReplacedIds(t: Tree, i: nat, k: Tree)
    requires t.Node? && i <= |t.seps| && Ids(k) == Ids(Kid(t, i))
    ensures Ids(t) <= Ids(ReplaceKid(t, i, k))
  {
    var t' := ReplaceKid(t, i, k);
    ReplacedKids(t, i, k, Unbounded, Unbounded);
    forall x | x in Ids(t) ensures x in Ids(t') {
      if x != t.id {
        var a := IdsMember(t, x);
        KidIds(t', a);
      }
    }
  }

  lemma RemoveRootShape(t: Tree, key: Key, next: PageId)
    requires WellShaped(t, next)
    ensures WellShaped(Remove(t, key), next) && Ids(Remove(t, key)) == Ids(t)
  {
    var h := Height(t);
    RemoveShape(t, key, next, h);
    BalancedHeight(Remove(t, key), h);
  }
}
