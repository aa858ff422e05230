/**
  findLeaf and Search on pages alone, whatever they hold: the way a reader takes who follows the pointers
  (storage/btree/btree.go). On the pages of a tree it leads where the tree says.
 */
module PageReads {
  import opened Types
  import opened Keys
  import opened Pages
  import opened Storage
  import opened Tree
  import opened TreeMatch
  import opened TreeMap

  /** findChildPageID. */
  function NextPage(p: Page, key: Key): PageId {
    var i := UpperBound(p.cells, key);
    if i < |p.cells| && p.cells[i].body.Child? then p.cells[i].body.id else p.right
  }

  /** The leaf that is reached from a page, if it takes at most n pages. */
  function LeafFrom(v: Disk, id: PageId, key: Key, n: nat): (leaf: Option<PageId>)
    ensures leaf.Some? ==> leaf.value in v && v[leaf.value].kind.LeafPage?
    decreases n
  {
    if id !in v || n == 0 then None
    else if v[id].kind.LeafPage? then Some(id)
    else LeafFrom(v, NextPage(v[id], key), key, n - 1)
  }

  /** A search that starts at a page ends, and with this answer. */
  ghost predicate Finds(v: Disk, id: PageId, key: Key, row: Option<Row>) {
    exists n: nat {:trigger LeafFrom(v, id, key, n)} ::
      var leaf := LeafFrom(v, id, key, n); leaf.Some? && row == Lookup(v[leaf.value].cells, key)
  }

  lemma {:induction false} MorePages(v: Disk, id: PageId, key: Key, n: nat, m: nat)
    requires LeafFrom(v, id, key, n).Some? && n <= m
    ensures LeafFrom(v, id, key, m) == LeafFrom(v, id, key, n)
    decreases n
  {
    if !v[id].kind.LeafPage? { MorePages(v, NextPage(v[id], key), key, n - 1, m - 1); }
  }

  /** A search has at most one answer. */
  lemma OneAnswer(v: Disk, id: PageId, key: Key, a: Option<Row>, b: Option<Row>)
    requires Finds(v, id, key, a) && Finds(v, id, key, b)
    ensures a == b
  {
    var n: nat :| LeafFrom(v, id, key, n).Some? && a == Lookup(v[LeafFrom(v, id, key, n).value].cells, key);
    var m: nat :| LeafFrom(v, id, key, m).Some? && b == Lookup(v[LeafFrom(v, id, key, m).value].cells, key);
    if n <= m { MorePages(v, id, key, n, m); } else { MorePages(v, id, key, m, n); }
  }

  lemma Onward(v: Disk, id: PageId, key: Key, n: nat)
    requires id in v && !v[id].kind.LeafPage? && n > 0
    ensures LeafFrom(v, id, key, n) == LeafFrom(v, NextPage(v[id], key), key, n - 1)
  {}

  /** On the page of a node a reader goes to the child that the tree names. */
  lemma NextOfNode(p: Page, t: Tree, key: Key)
    requires t.Node? && NodePage(p, t)
    ensures NextPage(p, key) == Kid(t, Route(t, key)).id
  {}

  /** On the pages of a tree a reader reaches the leaf that is responsible for the key. */
  lemma {:induction false} TreeReads(v: Disk, t: Tree, nxt: PageId, key: Key, h: nat)
    requires Match(v, t, nxt) && Balanced(t, h)
    ensures LeafFrom(v, t.id, key, h + 1) == Some(Target(t, key).id)
    ensures Target(t, key).id in v && v[Target(t, key).id].cells == Target(t, key).cells
    decreases t
  {
    hide NextPage, Route, LeafFrom, Match, Balanced;
    if t.Leaf? {
      LeafReads(v, t, nxt, key, h);
    } else {
      var i := Route(t, key);
      NodeReads(v, t, nxt, i);
      KidBalanced(t, i, h);
      NextOfNode(v[t.id], t, key);
      Onward(v, t.id, key, h + 1);
      TreeReads(v, Kid(t, i), After(t, i, nxt), key, h - 1);
    }
  }

  lemma LeafReads(v: Disk, t: Tree, nxt: PageId, key: Key, n: nat)
    requires t.Leaf? && Match(v, t, nxt)
    ensures t.id in v && v[t.id].cells == t.cells && LeafFrom(v, t.id, key, n + 1) == Some(t.id)
  {}

  lemma NodeReads(v: Disk, t: Tree, nxt: PageId, i: nat)
    requires t.Node? && i <= |t.seps| && Match(v, t, nxt)
    ensures t.id in v && NodePage(v[t.id], t) && Match(v, Kid(t, i), After(t, i, nxt))
  {}

  lemma KidBalanced(t: Tree, i: nat, h: nat)
    requires t.Node? && i <= |t.seps| && Balanced(t, h)
    ensures h > 0 && Balanced(Kid(t, i), h - 1)
  {}
}
