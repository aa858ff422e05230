/** What insertion, update and deletion on the tree mean for its contents and its order. */
module TreeProofs {
  import opened Keys
  import opened Pages
  import opened Sequences
  import opened Tree

  // ---- Flattening ----

  lemma {:induction false} FlatAppend(a: seq<Sep>, b: seq<Sep>)
    ensures Flat(a + b) == Flat(a) + Flat(b)
  {
    if b == [] {
      assert a + b == a;
    } else {
      hide Contents;
      var b0, s := b[..|b| - 1], b[|b| - 1];
      FlatAppend(a, b0);
      Snoc(a, b);
      assert Flat(a + b) == Flat(a + b0) + Contents(s.child);
      assert Flat(b) == Flat(b0) + Contents(s.child);
      Joined(Flat(a), Flat(b0), Contents(s.child));
    }
  }

  lemma FlatSingle(s: Sep)
    ensures Flat([s]) == Contents(s.child)
  {
    assert [s][..0] == [];
    assert Flat([s]) == Flat([]) + Contents(s.child);
  }

  /** The cells of the children before child i, and of those after it. */
  function Before(t: Tree, i: nat): seq<Cell>
    requires t.Node? && i <= |t.seps|
  {
    Flat(t.seps[..i])
  }

  function Behind(t: Tree, i: nat): seq<Cell>
    requires t.Node? && i <= |t.seps|
  {
    if i < |t.seps| then Flat(t.seps[i + 1..]) + Contents(t.last) else []
  }

  lemma Around(t: Tree, i: nat)
    requires t.Node? && i <= |t.seps|
    ensures Contents(t) == Before(t, i) + Contents(Kid(t, i)) + Behind(t, i)
  {
    hide Flat;
    if i < |t.seps| {
      assert t.seps == t.seps[..i] + ([t.seps[i]] + t.seps[i + 1..]);
      FlatAppend(t.seps[..i], [t.seps[i]] + t.seps[i + 1..]);
      FlatAppend([t.seps[i]], t.seps[i + 1..]);
      FlatSingle(t.seps[i]);
    } else {
      assert t.seps[..i] == t.seps;
    }
  }

  function OutContents(o: Outcome): seq<Cell> {
    match o
    case One(t) => Contents(t)
    case Two(l, _, r) => Contents(l) + Contents(r)
  }

  lemma ReplacedContents(t: Tree, i: nat, k: Tree)
    requires t.Node? && i <= |t.seps|
    ensures Contents(ReplaceKid(t, i, k)) == Before(t, i) + Contents(k) + Behind(t, i)
  {
    var t' := ReplaceKid(t, i, k);
    Around(t', i);
    assert t'.seps[..i] == t.seps[..i];
    if i < |t.seps| { assert t'.seps[i + 1..] == t.seps[i + 1..]; }
  }

  lemma GrownParts(t: Tree, i: nat, o: Outcome, off: int)
    requires t.Node? && i <= |t.seps| && o.Two?
    ensures var g := Grown(t, i, o, off);
            && i < |g.seps| && Before(g, i) == Before(t, i) && Kid(g, i) == o.left
            && Behind(g, i) == Contents(o.right) + Behind(t, i)
  {
    hide Contents, Flat;
    GrownSeps(t, i, o);
    if i < |t.seps| {
      var s := Sep(t.seps[i].key, o.right);
      FlatAppend([s], t.seps[i + 1..]);
      FlatSingle(s);
    }
    FlatNone();
  }

  lemma FlatNone()
    ensures Flat([]) == []
  {}

  lemma GrownSeps(t: Tree, i: nat, o: Outcome)
    requires t.Node? && i <= |t.seps| && o.Two?
    ensures var seps := SplitSeps(t, i, o.left, o.sep, o.right);
            && i < |seps| && seps[..i] == t.seps[..i] && seps[i] == Sep(o.sep, o.left)
            && seps[i + 1..] == if i < |t.seps| then [Sep(t.seps[i].key, o.right)] + t.seps[i + 1..] else []
  {}

  lemma GrownContents(t: Tree, i: nat, o: Outcome, off: int)
    requires t.Node? && i <= |t.seps| && o.Two?
    ensures Contents(Grown(t, i, o, off)) == Before(t, i) + OutContents(o) + Behind(t, i)
  {
    hide Contents, Before, Behind;
    GrownParts(t, i, o, off);
    Around(Grown(t, i, o, off), i);
    assert Before(t, i) + Contents(o.left) + (Contents(o.right) + Behind(t, i))
        == Before(t, i) + (Contents(o.left) + Contents(o.right)) + Behind(t, i);
  }

  lemma HalvesContents(g: Tree, next: PageId)
    requires g.Node? && g.seps != []
    ensures OutContents(Halves(g, next)) == Contents(g)
  {
    hide Flat;
    Around(g, |g.seps| / 2);
  }

  lemma SettledContents(g: Tree, room: bool, next: PageId)
    requires g.Node? && g.seps != []
    ensures OutContents(Settle(g, room, next)) == Contents(g)
  {
    if !room { HalvesContents(g, next); }
  }

  lemma PutNodeContents(t: Tree, i: nat, o: Outcome, next: PageId)
    requires t.Node? && i <= |t.seps|
    ensures OutContents(PutNode(t, i, o, next)) == Before(t, i) + OutContents(o) + Behind(t, i)
  {
    if o.One? {
      ReplacedContents(t, i, o.t);
    } else {
      var g := Charged(t, i, o);
      GrownContents(t, i, o, g.off);
      SettledContents(g, RoomFor(t.off, |t.seps|, Cell(o.sep, Child(o.left.id))), next);
    }
  }

  // ---- Order of the contents ----

  ghost predicate AllIn(cells: seq<Cell>, lo: Bound, hi: Bound) {
    forall i :: 0 <= i < |cells| ==> cells[i].body.Data? && InRange(cells[i].key, lo, hi)
  }

  lemma SortedJoin(a: seq<Cell>, b: seq<Cell>, lo: Bound, m: Bound, hi: Bound)
    requires SortedCells(a) && SortedCells(b) && AllIn(a, lo, m) && AllIn(b, m, hi)
    requires m.At? && AtLeast(m.key, lo) && (hi.At? ==> Le(m.key, hi.key))
    ensures SortedCells(a + b) && AllIn(a + b, lo, hi)
  {
    OrderLaws();
    assert forall i :: 0 <= i < |a| ==> (a + b)[i] == a[i];
    assert forall i :: |a| <= i < |a + b| ==> (a + b)[i] == b[i - |a|];
  }

  /** The upper end of the range of the first n children. */
  function FlatHigh(t: Tree, n: nat, lo: Bound): Bound
    requires t.Node? && n <= |t.seps|
  {
    if n == 0 then lo else At(t.seps[n - 1].key)
  }

  lemma {:induction false} FlatSorted(t: Tree, n: nat, lo: Bound, hi: Bound)
    requires t.Node? && Ordered(t, lo, hi) && n <= |t.seps|
    ensures SortedCells(Flat(t.seps[..n])) && AllIn(Flat(t.seps[..n]), lo, FlatHigh(t, n, lo))
    decreases t, n
  {
    if n > 0 {
      FlatSorted(t, n - 1, lo, hi);
      ContentsSorted(Kid(t, n - 1), Low(t, n - 1, lo), High(t, n - 1, hi));
      assert t.seps[..n][..n - 1] == t.seps[..n - 1];
      if n > 1 {
        SortedJoin(Flat(t.seps[..n - 1]), Contents(Kid(t, n - 1)), lo, At(t.seps[n - 2].key), At(t.seps[n - 1].key));
      } else {
        assert Flat(t.seps[..n]) == Contents(Kid(t, 0));
      }
    }
  }

  /** The contents of an ordered tree strictly ascend and stay inside its range. */
  lemma {:induction false} ContentsSorted(t: Tree, lo: Bound, hi: Bound)
    requires Ordered(t, lo, hi)
    ensures SortedCells(Contents(t)) && AllIn(Contents(t), lo, hi)
    decreases t, if t.Node? then |t.seps| + 1 else 0
  {
    if t.Node? {
      var n := |t.seps|;
      assert t.seps[..n] == t.seps;
      FlatSorted(t, n, lo, hi);
      ContentsSorted(t.last, Low(t, n, lo), hi);
      if n > 0 {
        assert Kid(t, n) == t.last;
        SortedJoin(Flat(t.seps), Contents(t.last), lo, At(t.seps[n - 1].key), hi);
      } else {
        assert Contents(t) == Contents(t.last);
      }
    }
  }

  lemma {:induction false} FlatMember(seps: seq<Sep>, x: Cell) returns (j: nat)
    requires x in Flat(seps)
    ensures j < |seps| && x in Contents(seps[j].child)
  {
    var n := |seps| - 1;
    if x in Contents(seps[n].child) { j := n; } else { j := FlatMember(seps[..n], x); }
  }

  predicate KeysBelow(cells: seq<Cell>, key: Key) { forall x :: x in cells ==> Lt(x.key, key) }
  predicate KeysAtMost(cells: seq<Cell>, key: Key) { forall x :: x in cells ==> !Lt(key, x.key) }
  predicate KeysAbove(cells: seq<Cell>, key: Key) { forall x :: x in cells ==> Lt(key, x.key) }

  lemma LeLt(a: Key, b: Key, c: Key)
    requires (Le(a, b) && Lt(b, c)) || (Lt(a, b) && Le(b, c))
    ensures Lt(a, c)
  {
    if a != b && b != c { KeyTransitive(a, b, c); }
  }

  lemma LeLe(a: Key, b: Key, c: Key)
    requires Le(a, b) && Le(b, c)
    ensures Le(a, c)
  {
    if a != b && b != c { KeyTransitive(a, b, c); }
  }

  /** A cell among the children before child i is below the separator in front of child i. */
  lemma BeforeBelow(t: Tree, i: nat, x: Cell, lo: Bound, hi: Bound)
    requires t.Node? && Ordered(t, lo, hi) && i <= |t.seps| && x in Before(t, i)
    ensures i > 0 && Lt(x.key, t.seps[i - 1].key)
  {
    var j := FlatMember(t.seps[..i], x);
    assert Ordered(Kid(t, j), Low(t, j, lo), High(t, j, hi));
    ContentsSorted(Kid(t, j), Low(t, j, lo), High(t, j, hi));
    if j < i - 1 { LeLt(x.key, t.seps[j].key, t.seps[i - 1].key); }
  }

  lemma BehindMember(t: Tree, i: nat, x: Cell) returns (j: nat)
    requires t.Node? && i <= |t.seps| && x in Behind(t, i)
    ensures i < j <= |t.seps| && x in Contents(Kid(t, j))
  {
    j := |t.seps|;
    if x in Flat(t.seps[i + 1..]) {
      var m := FlatMember(t.seps[i + 1..], x);
      j := i + 1 + m;
    }
  }

  /** A cell among the children behind child i is at least the separator behind child i. */
  lemma BehindAbove(t: Tree, i: nat, x: Cell, lo: Bound, hi: Bound)
    requires t.Node? && Ordered(t, lo, hi) && i <= |t.seps| && x in Behind(t, i)
    ensures i < |t.seps| && Le(t.seps[i].key, x.key)
  {
    hide Behind, Contents;
    var j := BehindMember(t, i, x);
    assert Ordered(Kid(t, j), Low(t, j, lo), High(t, j, hi));
    ContentsSorted(Kid(t, j), Low(t, j, lo), High(t, j, hi));
    if i < j - 1 { LeLe(t.seps[i].key, t.seps[j - 1].key, x.key); }
  }

  /** The routed child is the one whose range holds the key. */
  lemma RouteInRange(t: Tree, key: Key, lo: Bound, hi: Bound)
    requires t.Node? && InRange(key, lo, hi)
    ensures var i := Route(t, key); InRange(key, Low(t, i, lo), High(t, i, hi))
  {
    var i := Route(t, key);
    if i > 0 {
      assert !Lt(key, Branches(t.seps)[i - 1].key);
      KeyOrder(key, t.seps[i - 1].key);
    }
  }

  /** The children before the routed one hold only smaller keys, those behind it only larger ones. */
  lemma RouteSeparates(t: Tree, key: Key, lo: Bound, hi: Bound)
    requires t.Node? && Ordered(t, lo, hi) && InRange(key, lo, hi)
    ensures var i := Route(t, key); KeysBelow(Before(t, i), key) && KeysAbove(Behind(t, i), key)
  {
    var i := Route(t, key);
    RouteInRange(t, key, lo, hi);
    forall x | x in Before(t, i) ensures Lt(x.key, key) {
      BeforeBelow(t, i, x, lo, hi);
      LeLt(x.key, t.seps[i - 1].key, key);
    }
    forall x | x in Behind(t, i) ensures Lt(key, x.key) {
      BehindAbove(t, i, x, lo, hi);
      LeLt(key, t.seps[i].key, x.key);
    }
  }

  // ---- Insertion and update act on the flat list of cells ----

  lemma UpperBoundThrough(a: seq<Cell>, k: seq<Cell>, b: seq<Cell>, key: Key)
    requires KeysAtMost(a, key) && KeysAbove(b, key)
    ensures UpperBound(a + k + b, key) == |a| + UpperBound(k, key)
  {
    OrderLaws();
    var u, v := UpperBound(a + k + b, key), |a| + UpperBound(k, key);
    forall j | 0 <= j < v ensures !Lt(key, (a + k + b)[j].key) {
      if j < |a| { assert (a + k + b)[j] in a; } else { assert (a + k + b)[j] == k[j - |a|]; }
    }
    if v < |a + k + b| {
      if v < |a| + |k| { assert (a + k + b)[v] == k[v - |a|]; } else { assert (a + k + b)[v] in b; }
    }
  }

  lemma FindThrough(a: seq<Cell>, k: seq<Cell>, b: seq<Cell>, key: Key)
    requires KeysBelow(a, key) && KeysAbove(b, key)
    ensures Find(k, key) < |k| ==> Find(a + k + b, key) == |a| + Find(k, key)
    ensures Find(k, key) == |k| ==> Find(a + k + b, key) == |a + k + b|
  {
    OrderLaws();
    var u, v := Find(a + k + b, key), Find(k, key);
    forall j | 0 <= j < |a + k + b| && (j < |a| + v || j >= |a| + |k|) ensures (a + k + b)[j].key != key {
      if j < |a| { assert (a + k + b)[j] in a; }
      else if j < |a| + |k| { assert (a + k + b)[j] == k[j - |a|]; }
      else { assert (a + k + b)[j] in b; }
    }
    if v < |k| { assert (a + k + b)[|a| + v] == k[v]; }
  }

  lemma BaseThrough(a: seq<Cell>, k: seq<Cell>, b: seq<Cell>, key: Key, mode: Mode)
    requires mode.Updating? ==> KeysBelow(a, key) && KeysAbove(b, key)
    ensures Base(a + k + b, key, mode) == a + Base(k, key, mode) + b
  {
    if mode.Inserting? { return; }
    FindThrough(a, k, b, key);
    var v := Find(k, key);
    if v < |k| {
      RemoveThrough(a, k, b, v);
    }
  }

  lemma SortedThrough(a: seq<Cell>, k: seq<Cell>, b: seq<Cell>, c: Cell)
    requires KeysAtMost(a, c.key) && KeysAbove(b, c.key)
    ensures Sorted(a + k + b, c) == a + Sorted(k, c) + b
  {
    UpperBoundThrough(a, k, b, c.key);
    InsertThrough(a, k, b, UpperBound(k, c.key), c);
  }

  lemma InsertThrough(a: seq<Cell>, k: seq<Cell>, b: seq<Cell>, v: nat, c: Cell)
    requires v <= |k|
    ensures InsertAt(a + k + b, |a| + v, c) == a + InsertAt(k, v, c) + b
  {
    var all := a + k + b;
    assert all[..|a| + v] == a + k[..v];
    assert all[|a| + v..] == k[v..] + b;
  }

  lemma RemoveThrough(a: seq<Cell>, k: seq<Cell>, b: seq<Cell>, v: nat)
    requires v < |k|
    ensures RemoveAt(a + k + b, |a| + v) == a + RemoveAt(k, v) + b
  {
    var all := a + k + b;
    assert all[..|a| + v] == a + k[..v];
    assert all[|a| + v + 1..] == k[v + 1..] + b;
  }

  /** The cells that a leaf leaves behind, in one page or two. */
  function LeafOut(l: Tree, mode: Mode, c: Cell): seq<Cell>
    requires l.Leaf?
  {
    var base := Base(l.cells, c.key, mode);
    var all := Sorted(base, c);
    if RoomFor(l.off, |base|, c) then all else Kept(all[..|all| / 2]) + Kept(all[|all| / 2..])
  }

  /** They are all of its cells exactly if its halves fit. */
  lemma LeafKeeps(l: Tree, mode: Mode, c: Cell)
    requires l.Leaf?
    ensures var all := Sorted(Base(l.cells, c.key, mode), c);
            && (LeafOut(l, mode, c) == all <==> LeafFits(l, mode, c))
            && (LeafOut(l, mode, c) != all ==> |LeafOut(l, mode, c)| < |all|)
  {
    hide Fits, Kept, Base, Sorted;
    var all := Sorted(Base(l.cells, c.key, mode), c);
    var mid := |all| / 2;
    var x, y := all[..mid], all[mid..];
    KeptShorter(x);
    KeptShorter(y);
    assert all == x + y;
  }

  lemma KeptShorter(cells: seq<Cell>)
    ensures Kept(cells) == cells <==> Fits(cells)
    ensures !Fits(cells) ==> |Kept(cells)| < |cells|
    ensures |Kept(cells)| <= |cells|
  {
    KeptAllIffFits(cells);
    KeptIsNoLonger(cells);
    KeptPrefix(cells);
  }

  lemma {:induction false} KeptPrefix(cells: seq<Cell>)
    ensures |Kept(cells)| == |cells| ==> Kept(cells) == cells
  {
    if cells != [] {
      var before := cells[..|cells| - 1];
      KeptPrefix(before);
      KeptIsNoLonger(before);
      assert cells == before + [cells[|cells| - 1]];
    }
  }

  /**
    On the way to a key the cells that the descent passes on the left have no greater keys, for an update
    smaller ones, and those on the right have greater ones.
   */
  ghost predicate Parted(t: Tree, mode: Mode, key: Key)
    decreases t
  {
    t.Node? ==>
      var i := Route(t, key);
      && KeysAtMost(Before(t, i), key) && (mode.Updating? ==> KeysBelow(Before(t, i), key))
      && KeysAbove(Behind(t, i), key) && Parted(Kid(t, i), mode, key)
  }

  lemma {:induction false} OrderedParted(t: Tree, mode: Mode, key: Key, lo: Bound, hi: Bound)
    requires Ordered(t, lo, hi) && InRange(key, lo, hi)
    ensures Parted(t, mode, key)
    decreases t
  {
    if t.Node? {
      hide Before, Behind;
      var i := Route(t, key);
      RouteInRange(t, key, lo, hi);
      RouteSeparates(t, key, lo, hi);
      BelowAtMost(Before(t, i), key);
      OrderedParted(Kid(t, i), mode, key, Low(t, i, lo), High(t, i, hi));
    }
  }

  lemma BelowAtMost(cells: seq<Cell>, key: Key)
    requires KeysBelow(cells, key)
    ensures KeysAtMost(cells, key)
  {
    OrderLaws();
  }

  /** Only the cells of the responsible leaf change: what lies before and behind them stays. */
  lemma {:induction false} PutSplices(t: Tree, mode: Mode, c: Cell, next: PageId) returns (a: seq<Cell>, b: seq<Cell>)
    ensures var l := Target(t, c.key);
            && Contents(t) == a + l.cells + b && OutContents(Put(t, mode, c, next).0) == a + LeafOut(l, mode, c) + b
            && (Parted(t, mode, c.key) ==>
                  Sorted(Base(Contents(t), c.key, mode), c) == a + Sorted(Base(l.cells, c.key, mode), c) + b)
    decreases t
  {
    if t.Leaf? {
      a, b := [], [];
      LeafSplices(t, mode, c, next);
    } else {
      hide Put, PutNode, Contents, OutContents, Base, Sorted, LeafOut, Route;
      var i := Route(t, c.key);
      a, b := PutSplices(Kid(t, i), mode, c, next);
      NodeSplices(t, i, mode, c, next, a, b);
      if Parted(t, mode, c.key) { NodeSorts(t, i, mode, c, a, b); }
      a, b := Before(t, i) + a, b + Behind(t, i);
    }
  }

  lemma LeafSplices(t: Tree, mode: Mode, c: Cell, next: PageId)
    requires t.Leaf?
    ensures Contents(t) == [] + t.cells + [] && OutContents(Put(t, mode, c, next).0) == [] + LeafOut(t, mode, c) + []
    ensures Sorted(Base(Contents(t), c.key, mode), c) == [] + Sorted(Base(t.cells, c.key, mode), c) + []
  {
    hide Base, Sorted, Kept, RoomFor;
    Alone(t.cells);
    Alone(LeafOut(t, mode, c));
    Alone(Sorted(Base(t.cells, c.key, mode), c));
  }

  lemma Alone(m: seq<Cell>)
    ensures [] + m + [] == m
  {}

  lemma NodeSplices(t: Tree, i: nat, mode: Mode, c: Cell, next: PageId, a: seq<Cell>, b: seq<Cell>)
    requires t.Node? && i == Route(t, c.key)
    requires var k, l := Kid(t, i), Target(t, c.key);
             Contents(k) == a + l.cells + b && OutContents(Put(k, mode, c, next).0) == a + LeafOut(l, mode, c) + b
    ensures var l := Target(t, c.key);
            var a', b' := Before(t, i) + a, b + Behind(t, i);
            Contents(t) == a' + l.cells + b' && OutContents(Put(t, mode, c, next).0) == a' + LeafOut(l, mode, c) + b'
  {
    hide PutNode, Contents, Base, Sorted, LeafOut, Route, OutContents, Before, Behind, Find, UpperBound;
    var k, l := Kid(t, i), Target(t, c.key);
    var (o, f) := Put(k, mode, c, next);
    PutNodeContents(t, i, o, f);
    Around(t, i);
    Nested(Before(t, i), a, l.cells, b, Behind(t, i));
    Nested(Before(t, i), a, LeafOut(l, mode, c), b, Behind(t, i));
  }

  lemma NodeSorts(t: Tree, i: nat, mode: Mode, c: Cell, a: seq<Cell>, b: seq<Cell>)
    requires t.Node? && i == Route(t, c.key) && Parted(t, mode, c.key)
    requires var k, l := Kid(t, i), Target(t, c.key);
             Sorted(Base(Contents(k), c.key, mode), c) == a + Sorted(Base(l.cells, c.key, mode), c) + b
    ensures var l := Target(t, c.key);
            var a', b' := Before(t, i) + a, b + Behind(t, i);
            Sorted(Base(Contents(t), c.key, mode), c) == a' + Sorted(Base(l.cells, c.key, mode), c) + b'
  {
    hide Contents, Base, Sorted, Route, Before, Behind, Find, UpperBound;
    var k, l := Kid(t, i), Target(t, c.key);
    Around(t, i);
    BaseThrough(Before(t, i), Contents(k), Behind(t, i), c.key, mode);
    SortedThrough(Before(t, i), Base(Contents(k), c.key, mode), Behind(t, i), c);
    Nested(Before(t, i), a, Sorted(Base(l.cells, c.key, mode), c), b, Behind(t, i));
  }

  lemma Nested(x: seq<Cell>, a: seq<Cell>, m: seq<Cell>, b: seq<Cell>, y: seq<Cell>)
    ensures x + (a + m + b) + y == (x + a) + m + (b + y)
  {}

  /**
    Through any cascade of splits, insertion into the tree is insertion into the sorted list of its cells, and
    update replaces the cell in that list, if and only if the leaf's halves fit.
   */
  lemma PutContents(t: Tree, mode: Mode, c: Cell, next: PageId)
    requires Parted(t, mode, c.key)
    ensures OutContents(Put(t, mode, c, next).0) == Sorted(Base(Contents(t), c.key, mode), c) <==> KeepsAll(t, mode, c)
  {
    var a, b := PutSplices(t, mode, c, next);
    var l := Target(t, c.key);
    LeafKeeps(l, mode, c);
    var all, out := Sorted(Base(l.cells, c.key, mode), c), LeafOut(l, mode, c);
    if out != all { assert |a + out + b| < |a + all + b|; }
  }

  lemma PutRootContents(t: Tree, mode: Mode, c: Cell, next: PageId)
    ensures Parted(t, mode, c.key) ==>
              (Contents(PutRoot(t, mode, c, next)) == Sorted(Base(Contents(t), c.key, mode), c) <==> KeepsAll(t, mode, c))
    ensures Contents(PutRoot(t, mode, c, next)) == OutContents(Put(t, mode, c, next).0)
  {
    if Parted(t, mode, c.key) { PutContents(t, mode, c, next); }
    var (o, f) := Put(t, mode, c, next);
    if o.Two? { FlatSingle(Sep(o.sep, o.left)); }
  }

  /** Deletion from the tree is deletion from the sorted list of its cells. */
  lemma {:induction false} RemoveContents(t: Tree, key: Key, lo: Bound, hi: Bound)
    requires Ordered(t, lo, hi) && InRange(key, lo, hi)
    ensures Contents(Remove(t, key)) == Base(Contents(t), key, Updating)
    decreases t
  {
    if t.Node? {
      var i := Route(t, key);
      RouteInRange(t, key, lo, hi);
      RouteSeparates(t, key, lo, hi);
      RemoveContents(Kid(t, i), key, Low(t, i, lo), High(t, i, hi));
      ReplacedContents(t, i, Remove(Kid(t, i), key));
      Around(t, i);
      BaseThrough(Before(t, i), Contents(Kid(t, i)), Behind(t, i), key, Updating);
    }
  }

  /** A key is in the tree exactly when it is in the leaf that findLeaf reaches. */
  lemma {:induction false} TargetDecides(t: Tree, key: Key, lo: Bound, hi: Bound)
    requires Ordered(t, lo, hi) && InRange(key, lo, hi)
    ensures var l := Target(t, key);
            && Ordered(l, Unbounded, Unbounded)
            && (forall x: Cell :: x.key == key ==> (x in Contents(t) <==> x in l.cells))
    decreases t
  {
    if t.Node? {
      OrderLaws();
      var i := Route(t, key);
      RouteInRange(t, key, lo, hi);
      RouteSeparates(t, key, lo, hi);
      TargetDecides(Kid(t, i), key, Low(t, i, lo), High(t, i, hi));
      Around(t, i);
    }
  }
}
