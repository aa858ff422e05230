/**
  An insertion or update sees the pages between the root and the leaf of its key and no others: two
  trees that have these pages in common are changed in the same pages and in the same way.
 */
module TreeLocal {
  import opened Keys
  import opened Pages
  import opened Storage
  import opened Tree
  import opened TreeOrder
  import opened TreeShape
  import opened TreeSpace
  import opened TreeMatch
  import opened TreeDemand

  /** The two trees have the same root page. */
  predicate SamePage(t: Tree, u: Tree) {
    match t
    case Leaf(_, _, _) => u == t
    case Node(_, _, _, _) =>
      u.Node? && u.id == t.id && u.off == t.off && Branches(u.seps) == Branches(t.seps) && u.last.id == t.last.id
  }

  /** They have the same pages from the root to the leaf of the key. */
  predicate SameWay(t: Tree, u: Tree, key: Key)
    decreases t
  {
    SamePage(t, u) && (t.Node? ==> SameWay(Kid(t, Route(t, key)), Kid(u, Route(u, key)), key))
  }

  predicate SameOut(o: Outcome, o': Outcome) {
    match o
    case One(t) => o'.One? && SamePage(t, o'.t)
    case Two(l, sep, r) => o'.Two? && o'.sep == sep && SamePage(l, o'.left) && SamePage(r, o'.right)
  }

  ghost predicate SameOn(v: Disk, w: Disk, ids: set<PageId>) {
    forall id | id in ids :: id in v && id in w && v[id] == w[id]
  }

  lemma SameKids(t: Tree, u: Tree, i: nat)
    requires t.Node? && SamePage(t, u) && i <= |t.seps|
    ensures |u.seps| == |t.seps| && Kid(u, i).id == Kid(t, i).id
    ensures i < |t.seps| ==> u.seps[i].key == t.seps[i].key
  {
    assert |Branches(t.seps)| == |Branches(u.seps)|;
    if i < |t.seps| { assert Branches(t.seps)[i] == Branches(u.seps)[i]; }
  }

  /** Trees over pages of which those on the way are the same. */
  lemma {:induction false} SamePages(v: Disk, w: Disk, t: Tree, u: Tree, nxt: PageId, nxu: PageId, key: Key)
    requires Match(v, t, nxt) && Match(w, u, nxu) && u.id == t.id && SameOn(v, w, PathIds(t, key))
    ensures SameWay(t, u, key)
    decreases t
  {
    assert v[t.id] == w[t.id];
    if t.Node? {
      var i := Route(t, key);
      SameKids(t, u, i);
      assert Match(v, Kid(t, i), After(t, i, nxt)) && Match(w, Kid(u, i), After(u, i, nxu));
      SamePages(v, w, Kid(t, i), Kid(u, i), After(t, i, nxt), After(u, i, nxu), key);
    }
  }

  lemma {:induction false} SameTarget(t: Tree, u: Tree, key: Key)
    requires SameWay(t, u, key)
    ensures Target(u, key) == Target(t, key) && PathIds(u, key) == PathIds(t, key)
    decreases t
  {
    if t.Node? { SameTarget(Kid(t, Route(t, key)), Kid(u, Route(u, key)), key); }
  }

  // ---- What becomes of a node depends on its page and on those of the child's outcome ----

  lemma SameReplaced(t: Tree, u: Tree, i: nat, k: Tree, l: Tree)
    requires t.Node? && SamePage(t, u) && i <= |t.seps| && i <= |u.seps| && SamePage(k, l)
    ensures SamePage(ReplaceKid(t, i, k), ReplaceKid(u, i, l))
  {
    var a, b := Branches(ReplaceKid(t, i, k).seps), Branches(ReplaceKid(u, i, l).seps);
    forall j | 0 <= j < |a| ensures |b| == |a| && a[j] == b[j] { SameKids(t, u, j); }
    SameKids(t, u, 0);
    assert |a| == |b|;
  }

  lemma SameGrown(t: Tree, u: Tree, i: nat, o: Outcome, o': Outcome)
    requires t.Node? && SamePage(t, u) && i <= |t.seps| && i <= |u.seps| && o.Two? && SameOut(o, o')
    ensures SamePage(Charged(t, i, o), Charged(u, i, o'))
  {
    SplitSepsCells(t, i, o.left, o.sep, o.right);
    SplitSepsCells(u, i, o'.left, o'.sep, o'.right);
    SameKids(t, u, i);
  }

  lemma SameHalves(g: Tree, h: Tree, next: PageId)
    requires g.Node? && g.seps != [] && SamePage(g, h) && h.seps != []
    ensures SameOut(Halves(g, next), Halves(h, next))
  {
    SameKids(g, h, |g.seps| / 2);
    CutBranches(g.seps, |g.seps| / 2);
    CutBranches(h.seps, |g.seps| / 2);
  }

  lemma CutBranches(seps: seq<Sep>, mid: nat)
    requires mid < |seps|
    ensures Branches(seps[..mid]) == Branches(seps)[..mid] && Branches(seps[mid + 1..]) == Branches(seps)[mid + 1..]
  {
    assert Branches(seps[..mid]) == Branches(seps)[..mid];
    assert Branches(seps[mid + 1..]) == Branches(seps)[mid + 1..];
  }

  lemma SamePut(t: Tree, u: Tree, i: nat, o: Outcome, o': Outcome, next: PageId)
    requires t.Node? && SamePage(t, u) && i <= |t.seps| && i <= |u.seps| && SameOut(o, o')
    ensures SameOut(PutNode(t, i, o, next), PutNode(u, i, o', next))
    ensures Patches(t, i, o, next) == Patches(u, i, o', next)
  {
    hide Halves, Charged, ReplaceKid, RoomFor;
    SameKids(t, u, i);
    if o.One? { SameReplaced(t, u, i, o.t, o'.t); } else {
      SameGrown(t, u, i, o, o');
      SplitsGrow(t, i, o);
      SplitsGrow(u, i, o');
      SameHalves(Charged(t, i, o), Charged(u, i, o'), next);
    }
  }

  lemma SameFit(t: Tree, u: Tree, i: nat, o: Outcome, o': Outcome)
    requires t.Node? && SamePage(t, u) && i <= |t.seps| && i <= |u.seps| && o.Two? && SameOut(o, o')
    ensures t.off == u.off && |t.seps| == |u.seps| && o.sep == o'.sep && o.left.id == o'.left.id
    ensures SplitSeps(t, i, o.left, o.sep, o.right) != [] && SplitSeps(u, i, o'.left, o'.sep, o'.right) != []
    ensures HalvesFit(SplitSeps(t, i, o.left, o.sep, o.right)) <==> HalvesFit(SplitSeps(u, i, o'.left, o'.sep, o'.right))
  {
    hide HalvesFit, Branches;
    SameKids(t, u, i);
    SameGrown(t, u, i, o, o');
    SplitsGrow(t, i, o);
    SplitsGrow(u, i, o');
    SameHalvesFit(SplitSeps(t, i, o.left, o.sep, o.right), SplitSeps(u, i, o'.left, o'.sep, o'.right));
  }

  lemma SameHalvesFit(a: seq<Sep>, b: seq<Sep>)
    requires a != [] && |b| == |a| && Branches(a) == Branches(b)
    ensures HalvesFit(a) <==> HalvesFit(b)
  {
    CutBranches(a, |a| / 2);
    CutBranches(b, |a| / 2);
  }

  lemma SplitsGrow(t: Tree, i: nat, o: Outcome)
    requires t.Node? && i <= |t.seps| && o.Two?
    ensures Charged(t, i, o).Node? && Charged(t, i, o).id == t.id && |Charged(t, i, o).seps| == |t.seps| + 1
    ensures Charged(t, i, o).seps == SplitSeps(t, i, o.left, o.sep, o.right)
  {}

  /** The put splits the same pages, passes up the same separators and takes the same new pages. */
  lemma {:induction false} PutAlike(t: Tree, u: Tree, mode: Mode, c: Cell, next: PageId)
    requires SameWay(t, u, c.key)
    ensures var (o, f), (o', f') := Put(t, mode, c, next), Put(u, mode, c, next); SameOut(o, o') && f == f'
    ensures Touched(t, mode, c, next) == Touched(u, mode, c, next)
    ensures Placed(t, mode, c, next) <==> Placed(u, mode, c, next)
    ensures PutFits(t, mode, c, next) <==> PutFits(u, mode, c, next)
    decreases t
  {
    hide PutLeaf, PutNode, SamePage;
    SameRoot(t, u);
    if t.Node? {
      var i := Route(t, c.key);
      PutAlike(Kid(t, i), Kid(u, i), mode, c, next);
      var (o, f) := Put(Kid(t, i), mode, c, next);
      var o' := Put(Kid(u, i), mode, c, next).0;
      SamePut(t, u, i, o, o', f);
      if o.Two? { SameFit(t, u, i, o, o'); }
    } else {
      SameItself(PutLeaf(t, mode, c, next));
    }
  }

  lemma SameRoot(t: Tree, u: Tree)
    requires SamePage(t, u)
    ensures t.Leaf? ==> u == t
    ensures t.Node? ==> u.Node? && |u.seps| == |t.seps| && Branches(u.seps) == Branches(t.seps)
  {
    if t.Node? { SameKids(t, u, 0); }
  }

  lemma SameItself(o: Outcome)
    ensures SameOut(o, o)
  {}

  lemma Settles(t: Tree, i: nat, o: Outcome, f: PageId)
    requires t.Node? && i <= |t.seps|
    ensures o.One? ==> PutNode(t, i, o, f) == One(ReplaceKid(t, i, o.t)) && Patches(t, i, o, f) == {}
    ensures o.Two? ==>
              var room := RoomFor(t.off, |t.seps|, Cell(o.sep, Child(o.left.id)));
              PutNode(t, i, o, f) == Settle(Charged(t, i, o), room, f) && Patches(t, i, o, f) == {t.id} + if room then {} else {f}
  {}

  // ---- The pages ----

  lemma SameNodePage(p: Page, t: Tree, u: Tree)
    requires t.Node? && NodePage(p, t) && SamePage(t, u)
    ensures u.Node? && NodePage(p, u)
  {}

  /** The pages of a subtree by themselves. */
  function Own(w: Disk, ids: set<PageId>): Disk {
    map id | id in ids && id in w :: w[id]
  }

  lemma OwnMatch(w: Disk, u: Tree, nxu: PageId)
    requires Match(w, u, nxu)
    ensures Match(Own(w, Ids(u)), u, nxu)
  {
    MatchIds(w, u, nxu);
    MatchFrame(w, Own(w, Ids(u)), u, nxu);
  }

  /** Of the pages that a node had, those of one child are written, and its own if the child has split. */
  lemma WrittenOnWay(t: Tree, u: Tree, i: nat, mode: Mode, c: Cell, next: PageId)
    requires t.Node? && u.Node? && i == Route(t, c.key) <= |u.seps| && Distinct(u) && IdsBelow(u, next) && u.id == t.id
    requires PathIds(Kid(t, i), c.key) == PathIds(Kid(u, i), c.key)
    ensures var (o, f), all := Put(Kid(t, i), mode, c, next), Touched(t, mode, c, next);
            && all == Touched(Kid(t, i), mode, c, next) + Patches(t, i, o, f)
            && Ids(Kid(u, i)) - Touched(Kid(t, i), mode, c, next) <= Ids(u) - all
            && Ids(u) - Ids(Kid(u, i)) - Patches(t, i, o, f) <= Ids(u) - all
  {
    hide Put, Distinct, Ids, PutNode;
    var f := Put(Kid(t, i), mode, c, next).1;
    TouchedIn(Kid(t, i), mode, c, next);
    NextGrows(Kid(t, i), mode, c, next);
    PathInIds(Kid(u, i), c.key);
    KidsApart(u, i, i);
    KidIds(u, i);
  }

  lemma BelowKid(u: Tree, i: nat, next: PageId)
    requires u.Node? && i <= |u.seps| && IdsBelow(u, next)
    ensures IdsBelow(Kid(u, i), next)
  {
    KidIds(u, i);
  }

  /**
    Two trees over pages that agree on the way to the leaf: after a put on the first, the same
    pages written over those of the second are the put on the second.
   */
  lemma {:induction false} PutLocal(v: Disk, v': Disk, w: Disk, w': Disk, t: Tree, u: Tree, mode: Mode, c: Cell, next: PageId, nxt: PageId, nxu: PageId)
    requires Match(v, t, nxt) && Match(w, u, nxu) && u.id == t.id && SameOn(v, w, PathIds(t, c.key))
    requires Distinct(u) && IdsBelow(u, next)
    requires MatchOut(v', Put(t, mode, c, next).0, nxt) && SameOn(v', w', Touched(t, mode, c, next))
    requires SameOn(w, w', Ids(u) - Touched(t, mode, c, next))
    ensures MatchOut(w', Put(u, mode, c, next).0, nxu)
    decreases t, 1
  {
    hide Put, Touched, PathIds, Distinct;
    assert v[t.id] == w[t.id] by { PathInIds(t, c.key); }
    if t.Leaf? { PutLeafLocal(v', w', t, u, mode, c, next, nxt); } else { PutNodeLocal(v, v', w, w', t, u, mode, c, next, nxt, nxu); }
  }

  /** A settled node is represented exactly if its children are and its pages say what it says. */
  lemma SettledMatch(v: Disk, g: Tree, room: bool, next: PageId, nxt: PageId)
    requires g.Node? && g.seps != []
    ensures MatchOut(v, Settle(g, room, next), nxt) <==> KidsMatch(v, g, nxt) && SettledPages(v, g, room, next)
  {
    hide Match, NodePage, KidsMatch;
    if room { NodeMatch(v, g, nxt); } else {
      var h := Halves(g, next);
      NodeMatch(v, h.left, FirstLeaf(h.right));
      NodeMatch(v, h.right, nxt);
      HalvesKidsMatch(v, g, next, nxt);
    }
  }

  ghost predicate SettledPages(v: Disk, g: Tree, room: bool, next: PageId)
    requires g.Node? && g.seps != []
  {
    if room then g.id in v && NodePage(v[g.id], g) else
      && g.id in v && NodePage(v[g.id], Halves(g, next).left)
      && next in v && NodePage(v[next], Halves(g, next).right)
  }

  lemma SettledAlike(v: Disk, w: Disk, g: Tree, h: Tree, room: bool, next: PageId)
    requires g.Node? && g.seps != [] && h.Node? && h.seps != [] && SamePage(g, h)
    requires SettledPages(v, g, room, next) && SameOn(v, w, {g.id} + if room then {} else {next})
    ensures SettledPages(w, h, room, next)
  {
    SameHalves(g, h, next);
  }

  /** What the child has become is represented if the node it belongs to is. */
  lemma OutOfNode(v: Disk, t: Tree, i: nat, o: Outcome, next: PageId, nxt: PageId)
    requires t.Node? && i <= |t.seps| && MatchOut(v, PutNode(t, i, o, next), nxt) && FirstLeaf(Stays(o)) == FirstLeaf(Kid(t, i))
    ensures MatchOut(v, o, After(t, i, nxt))
  {
    hide Halves, FirstLeaf;
    if o.One? {
      ReplacedAfter(t, i, o.t, i, nxt);
      NodeMatch(v, ReplaceKid(t, i, o.t), nxt);
    } else {
      var g := Charged(t, i, o);
      SplitsGrow(t, i, o);
      SettledMatch(v, g, RoomFor(t.off, |t.seps|, Cell(o.sep, Child(o.left.id))), next, nxt);
      GrownOut(v, t, i, o, g.off, nxt);
    }
  }

  lemma GrownOut(v: Disk, t: Tree, i: nat, o: Outcome, off: int, nxt: PageId)
    requires t.Node? && i <= |t.seps| && o.Two? && KidsMatch(v, Grown(t, i, o, off), nxt) && FirstLeaf(o.left) == FirstLeaf(Kid(t, i))
    ensures MatchOut(v, o, After(t, i, nxt))
  {
    hide Match, FirstLeaf;
    var g := Grown(t, i, o, off);
    GrownKid(t, i, o, off, Unbounded, Unbounded, i);
    GrownKid(t, i, o, off, Unbounded, Unbounded, i + 1);
    GrownAfter(t, i, o, off, i, nxt);
    GrownAfter(t, i, o, off, i + 1, nxt);
    assert Match(v, Kid(g, i), After(g, i, nxt)) && Match(v, Kid(g, i + 1), After(g, i + 1, nxt));
  }

  lemma {:induction false} PutNodeLocal(v: Disk, v': Disk, w: Disk, w': Disk, t: Tree, u: Tree, mode: Mode, c: Cell, next: PageId, nxt: PageId, nxu: PageId)
    requires t.Node? && u.Node? && SamePage(t, u)
    requires Match(v, t, nxt) && Match(w, u, nxu) && SameOn(v, w, PathIds(t, c.key))
    requires Distinct(u) && IdsBelow(u, next)
    requires MatchOut(v', Put(t, mode, c, next).0, nxt) && SameOn(v', w', Touched(t, mode, c, next))
    requires SameOn(w, w', Ids(u) - Touched(t, mode, c, next))
    ensures MatchOut(w', Put(u, mode, c, next).0, nxu)
    decreases t, 0
  {
    hide Match, MatchOut, Distinct, PutNode, Patches, Ids;
    var i := Route(t, c.key);
    var k, l := Kid(t, i), Kid(u, i);
    SameKids(t, u, i);
    var (o, f) := Put(k, mode, c, next);
    var o' := Put(l, mode, c, next).0;
    KidLinks(v, w, t, u, i, nxt, nxu);
    PutFirstLeaf(k, mode, c, next);
    OutOfNode(v', t, i, o, f, nxt);
    KidsApart(u, i, i);
    BelowKid(u, i, next);
    SamePages(v, w, k, l, After(t, i, nxt), After(u, i, nxu), c.key);
    SameTarget(k, l, c.key);
    WrittenOnWay(t, u, i, mode, c, next);
    PutLocal(v, v', w, w', k, l, mode, c, next, After(t, i, nxt), After(u, i, nxu));
    PutAlike(k, l, mode, c, next);
    PutDistinct(l, mode, c, next);
    PutFirstLeaf(l, mode, c, next);
    TakenIn(v', w, w', t, u, i, o, o', f, nxt, nxu);
  }

  lemma KidLinks(v: Disk, w: Disk, t: Tree, u: Tree, i: nat, nxt: PageId, nxu: PageId)
    requires t.Node? && u.Node? && i <= |t.seps| && i <= |u.seps| && Match(v, t, nxt) && Match(w, u, nxu)
    ensures Match(v, Kid(t, i), After(t, i, nxt)) && Match(w, Kid(u, i), After(u, i, nxu))
  {}

  /** The node takes in what has become of its child: its own page, if written, is the one of the other tree. */
  lemma TakenIn(v': Disk, w: Disk, w': Disk, t: Tree, u: Tree, i: nat, o: Outcome, o': Outcome, f: PageId, nxt: PageId, nxu: PageId)
    requires t.Node? && i <= |t.seps| && u.Node? && i <= |u.seps| && SamePage(t, u) && SameOut(o, o')
    requires Match(w, u, nxu) && Distinct(u) && f !in Ids(u) && MatchOut(w', o', After(u, i, nxu))
    requires Stays(o').id == Kid(u, i).id && FirstLeaf(Stays(o')) == FirstLeaf(Kid(u, i))
    requires MatchOut(v', PutNode(t, i, o, f), nxt) && SameOn(v', w', Patches(t, i, o, f))
    requires SameOn(w, w', Ids(u) - Ids(Kid(u, i)) - Patches(t, i, o, f))
    ensures MatchOut(w', PutNode(u, i, o', f), nxu)
  {
    hide Match, Distinct, Ids, FirstLeaf, RoomFor, NodePage, PutNode, Patches, Settle, SettledPages;
    OwnMatch(w, u, nxu);
    MatchIds(w, u, nxu);
    Settles(t, i, o, f);
    Settles(u, i, o', f);
    if o.One? { ReplacedMatch(Own(w, Ids(u)), w', u, i, o'.t, nxu); } else {
      var g, h, room := Charged(t, i, o), Charged(u, i, o'), RoomFor(t.off, |t.seps|, Cell(o.sep, Child(o.left.id)));
      SplitsGrow(t, i, o);
      SplitsGrow(u, i, o');
      SameKids(t, u, i);
      SameGrown(t, u, i, o, o');
      SettledMatch(v', g, room, f, nxt);
      SettledAlike(v', w', g, h, room, f);
      GrownMatch(Own(w, Ids(u)), w', u, i, o', h.off, nxu);
      SettledMatch(w', h, room, f, nxu);
    }
  }

  lemma PutLeafLocal(v': Disk, w': Disk, t: Tree, u: Tree, mode: Mode, c: Cell, next: PageId, nxt: PageId)
    requires t.Leaf? && u == t && MatchOut(v', Put(t, mode, c, next).0, nxt) && SameOn(v', w', Touched(t, mode, c, next))
    ensures MatchOut(w', Put(u, mode, c, next).0, nxt)
  {}

  // ---- Pages that are not written ----

  /** A tree says what is on its pages. */
  lemma {:induction false} SameTree(v: Disk, v': Disk, t: Tree, nxt: PageId, id: PageId)
    requires Match(v, t, nxt) && Match(v', t, nxt) && id in Ids(t)
    ensures id in v && id in v' && SameButLsn(v[id], v'[id])
    decreases t
  {
    if id != t.id {
      var i := IdsMember(t, id);
      assert Match(v, Kid(t, i), After(t, i, nxt)) && Match(v', Kid(t, i), After(t, i, nxt));
      SameTree(v, v', Kid(t, i), After(t, i, nxt), id);
    }
  }

  /** The other children are as they were. */
  lemma OtherOut(v: Disk, t: Tree, i: nat, o: Outcome, next: PageId, nxt: PageId, j: nat)
    requires t.Node? && i <= |t.seps| && MatchOut(v, PutNode(t, i, o, next), nxt) && FirstLeaf(Stays(o)) == FirstLeaf(Kid(t, i))
    requires j <= |t.seps| && j != i
    ensures Match(v, Kid(t, j), After(t, j, nxt))
  {
    hide Match, Halves, FirstLeaf, NodePage;
    Settles(t, i, o, next);
    if o.One? {
      ReplacedAfter(t, i, o.t, j, nxt);
      NodeMatch(v, ReplaceKid(t, i, o.t), nxt);
      assert Match(v, Kid(ReplaceKid(t, i, o.t), j), After(ReplaceKid(t, i, o.t), j, nxt));
    } else {
      var g := Charged(t, i, o);
      SplitsGrow(t, i, o);
      SettledMatch(v, g, RoomFor(t.off, |t.seps|, Cell(o.sep, Child(o.left.id))), next, nxt);
      var m := if j < i then j else j + 1;
      GrownKid(t, i, o, g.off, Unbounded, Unbounded, m);
      GrownAfter(t, i, o, g.off, m, nxt);
      assert Match(v, Kid(g, m), After(g, m, nxt));
    }
  }

  lemma SameNode(v: Disk, v': Disk, t: Tree, i: nat, k: Tree, nxt: PageId)
    requires t.Node? && i <= |t.seps| && Match(v, t, nxt) && Match(v', ReplaceKid(t, i, k), nxt) && k.id == Kid(t, i).id
    ensures t.id in v && t.id in v' && SameButLsn(v[t.id], v'[t.id])
  {
    NodeMatch(v, t, nxt);
    ReplacedNodePage(v[t.id], t, i, k);
    NodeMatch(v', ReplaceKid(t, i, k), nxt);
  }

  /** Of the pages of the tree, a put changes those that it writes and no others. */
  lemma {:induction false} UntouchedStay(v: Disk, v': Disk, t: Tree, mode: Mode, c: Cell, next: PageId, nxt: PageId, id: PageId)
    requires Match(v, t, nxt) && Distinct(t) && IdsBelow(t, next) && MatchOut(v', Put(t, mode, c, next).0, nxt)
    requires id in Ids(t) && id !in Touched(t, mode, c, next)
    ensures id in v && id in v' && SameButLsn(v[id], v'[id])
    decreases t
  {
    hide Match, Distinct, PutNode, Patches, MatchOut;
    if t.Node? {
      var i := Route(t, c.key);
      var k := Kid(t, i);
      var (o, f) := Put(k, mode, c, next);
      KidsApart(t, i, i);
      BelowKid(t, i, next);
      PutFirstLeaf(k, mode, c, next);
      PutDistinct(k, mode, c, next);
      Settles(t, i, o, f);
      if id == t.id { SameNodeOut(v, v', t, i, o, f, nxt); } else {
        var j := IdsMember(t, id);
        NodeMatch(v, t, nxt);
        assert Match(v, Kid(t, j), After(t, j, nxt));
        if j == i {
          OutOfNode(v', t, i, o, f, nxt);
          UntouchedStay(v, v', k, mode, c, next, After(t, i, nxt), id);
        } else {
          OtherOut(v', t, i, o, f, nxt, j);
          SameTree(v, v', Kid(t, j), After(t, j, nxt), id);
        }
      }
    }
  }

  lemma SameNodeOut(v: Disk, v': Disk, t: Tree, i: nat, o: Outcome, f: PageId, nxt: PageId)
    requires t.Node? && i <= |t.seps| && Match(v, t, nxt) && MatchOut(v', PutNode(t, i, o, f), nxt)
    requires t.id !in Patches(t, i, o, f) && Stays(o).id == Kid(t, i).id
    ensures t.id in v && t.id in v' && SameButLsn(v[t.id], v'[t.id])
  {
    SameNode(v, v', t, i, Stays(o), nxt);
  }

  // ---- The whole tree ----

  lemma GrowMatch(v: Disk, o: Outcome, f: PageId)
    requires o.Two?
    ensures Match(v, Grow(o, f), NO_PAGE) <==> f in v && NodePage(v[f], Grow(o, f)) && MatchOut(v, o, NO_PAGE)
  {
    var g := Grow(o, f);
    NodeMatch(v, g, NO_PAGE);
    assert Kid(g, 0) == o.left && Kid(g, 1) == o.right;
    if KidsMatch(v, g, NO_PAGE) {
      assert Match(v, Kid(g, 0), After(g, 0, NO_PAGE)) && Match(v, Kid(g, 1), After(g, 1, NO_PAGE));
    }
  }

  lemma GrowAlike(o: Outcome, o': Outcome, f: PageId)
    requires SameOut(o, o')
    ensures SamePage(Grow(o, f), Grow(o', f))
  {
    if o.Two? { assert Branches(Grow(o, f).seps) == Branches(Grow(o', f).seps); }
  }

  /** The same for the whole tree: the other tree takes the cell in the same way, and its pages are these. */
  lemma PutRootLocal(v: Disk, v': Disk, w: Disk, w': Disk, t: Tree, u: Tree, mode: Mode, c: Cell, next: PageId)
    requires Match(v, t, NO_PAGE) && Match(w, u, NO_PAGE) && u.id == t.id && SameOn(v, w, PathIds(t, c.key))
    requires Distinct(u) && IdsBelow(u, next)
    requires Match(v', PutRoot(t, mode, c, next), NO_PAGE) && SameOn(v', w', RootTouched(t, mode, c, next))
    requires SameOn(w, w', Ids(u) - RootTouched(t, mode, c, next))
    ensures Match(w', PutRoot(u, mode, c, next), NO_PAGE) && PutRoot(u, mode, c, next).id == PutRoot(t, mode, c, next).id
    ensures PutRootFits(t, mode, c, next) <==> PutRootFits(u, mode, c, next)
    ensures Placed(t, mode, c, next) <==> Placed(u, mode, c, next)
    ensures Target(u, c.key) == Target(t, c.key) && RootTouched(u, mode, c, next) == RootTouched(t, mode, c, next)
    ensures Put(u, mode, c, next).1 == Put(t, mode, c, next).1 && (Put(u, mode, c, next).0.Two? <==> Put(t, mode, c, next).0.Two?)
  {
    hide Match, Distinct, Ids, Touched, Put, SamePage, NodePage, Placed, PutFits, Target, PathIds;
    SamePages(v, w, t, u, NO_PAGE, NO_PAGE, c.key);
    SameTarget(t, u, c.key);
    PutAlike(t, u, mode, c, next);
    var (o, f) := Put(t, mode, c, next);
    var o' := Put(u, mode, c, next).0;
    GrowAlike(o, o', f);
    RootIds(o, o', f);
    NextGrows(t, mode, c, next);
    if o.Two? {
      GrowMatch(v', o, f);
      SameNodePage(v'[f], Grow(o, f), Grow(o', f));
      GrowMatch(w', o', f);
    }
    PutLocal(v, v', w, w', t, u, mode, c, next, NO_PAGE, NO_PAGE);
  }

  lemma RootIds(o: Outcome, o': Outcome, f: PageId)
    requires SameOut(o, o')
    ensures Grow(o, f).id == Grow(o', f).id
    ensures o.Two? ==> o'.Two? && o'.left.id == o.left.id && o'.sep == o.sep
  {}

  lemma RootUntouchedStay(v: Disk, v': Disk, t: Tree, mode: Mode, c: Cell, next: PageId, id: PageId)
    requires Match(v, t, NO_PAGE) && Distinct(t) && IdsBelow(t, next) && Match(v', PutRoot(t, mode, c, next), NO_PAGE)
    requires id in Ids(t) && id !in RootTouched(t, mode, c, next)
    ensures id in v && id in v' && SameButLsn(v[id], v'[id])
  {
    hide Match, Distinct, Ids, Touched, Put, NodePage;
    var (o, f) := Put(t, mode, c, next);
    if o.Two? { GrowMatch(v', o, f); }
    UntouchedStay(v, v', t, mode, c, next, NO_PAGE, id);
  }
}
