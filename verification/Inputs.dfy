/** Inputs on which the conditions of the tree theorems fail, each reached by ordinary operations. */
module Inputs {
  import opened Types
  import opened Keys
  import opened Pages
  import opened Tree
  import opened TreeProofs
  import opened TreeOrder
  import opened TreeShape
  import opened TreeSpace
  import opened TreeMap
  import opened TreeRuns
  import opened TreeDemand
  import opened Misplaced
  import opened Storage
  import opened PagedTree
  import opened PageReads
  import opened Halfway
  import opened Refusals

  // ---- A repeated separator ----

  /** Two rows that no page can hold together, the second one well over half a page. */
  predicate TwoPages(a: Cell, c: Cell) {
    && a.body.Data? && c.body.Data? && Lt(a.key, c.key)
    && Weight(a) <= CAPACITY && CAPACITY + SLOT_SIZE < 2 * Weight(c) <= 2 * CAPACITY && Weight(a) + Weight(c) > CAPACITY
    && SepWeight(c.key) <= CAPACITY / 2
  }

  /** The tree with the first row, with both, and with the second one deleted. */
  function WithFirst(a: Cell): Tree { Leaf(0, [a], PAGE_SIZE - Size(a)) }

  function WithBoth(a: Cell, c: Cell): Tree { PutRoot(WithFirst(a), Inserting, c, 1) }

  function Emptied(a: Cell, c: Cell): Tree { Remove(WithBoth(a, c), c.key) }

  lemma BothSplit(a: Cell, c: Cell)
    requires TwoPages(a, c)
    ensures PutRootFits(WithFirst(a), Inserting, c, 1)
    ensures WithBoth(a, c) == Node(2, [Sep(c.key, Leaf(0, [a], PAGE_SIZE - Size(a)))], Leaf(1, [c], PAGE_SIZE - Size(c)),
                                   PAGE_SIZE - Size(Cell(c.key, Child(0))))
  {
    hide Size, Kept, PutLeaf, Fits;
    BothLeaves(a, c);
    SingleFits(Cell(c.key, Child(0)));
  }

  lemma SingleFits(c: Cell)
    ensures Fits([c]) <==> Weight(c) <= CAPACITY
    ensures Weight(c) <= CAPACITY ==> Kept([c]) == [c]
    ensures TotalSize([c]) == Size(c)
  {
    LoadSingle(c);
    KeptAllIffFits([c]);
  }

  lemma BothLeaves(a: Cell, c: Cell)
    requires TwoPages(a, c)
    ensures PutLeaf(WithFirst(a), Inserting, c, 1) == Two(Leaf(0, [a], PAGE_SIZE - Size(a)), c.key, Leaf(1, [c], PAGE_SIZE - Size(c)))
  {
    hide Size, Kept, Fits;
    KeyOrder(a.key, c.key);
    assert UpperBound([a], c.key) == 1;
    var all := Sorted([a], c);
    assert all == [a, c] && all[..1] == [a] && all[1..] == [c];
    SingleFits(a);
    SingleFits(c);
  }

  lemma EmptiedIs(a: Cell, c: Cell)
    requires TwoPages(a, c)
    ensures Emptied(a, c) == Node(2, [Sep(c.key, Leaf(0, [a], PAGE_SIZE - Size(a)))], Leaf(1, [], PAGE_SIZE - Size(c)),
                                  PAGE_SIZE - Size(Cell(c.key, Child(0))))
  {
    hide Size, WithBoth;
    BothSplit(a, c);
    KeyOrder(c.key, c.key);
    var t := WithBoth(a, c);
    assert Branches(t.seps) == [Cell(c.key, Child(0))];
    assert UpperBound([Cell(c.key, Child(0))], c.key) == 1;
    hide *;
    RemovedFromLast(t, c.key);
    LoneRemoved(c, t.last.off);
  }

  lemma RemovedFromLast(t: Tree, key: Key)
    requires t.Node? && UpperBound(Branches(t.seps), key) == |t.seps|
    ensures Remove(t, key) == t.(last := Remove(t.last, key))
  {
    assert Kid(t, |t.seps|) == t.last;
  }

  lemma LoneRemoved(c: Cell, off: int)
    ensures Remove(Leaf(1, [c], off), c.key) == Leaf(1, [], off)
  {
    assert Find([c], c.key) == 0 && RemoveAt([c], 0) == [];
  }

  lemma EmptiedShape(a: Cell, c: Cell)
    requires TwoPages(a, c)
    ensures var t := Emptied(a, c); WellShaped(t, 3) && Ordered(t, Unbounded, Unbounded) && Strict(t, Unbounded, Unbounded)
  {
    hide Size, Emptied;
    EmptiedIs(a, c);
    var t := Emptied(a, c);
    assert Kid(t, 0) == t.seps[0].child && Kid(t, 1) == t.last;
    assert Balanced(t, 1);
    BalancedHeight(t, 1);
    assert Distinct(t);
    assert SpineOk(t);
    assert FirstLeaf(t) == 0;
    assert IdsBelow(t, 3);
    assert Ordered(t.seps[0].child, Unbounded, At(c.key)) && Ordered(t.last, At(c.key), Unbounded);
    assert Low(t, 0, Unbounded) == Unbounded && High(t, 0, Unbounded) == At(c.key);
    assert Low(t, 1, Unbounded) == At(c.key) && High(t, 1, Unbounded) == Unbounded;
  }

  lemma EmptiedSpace(a: Cell, c: Cell)
    requires TwoPages(a, c)
    ensures SpaceOk(Emptied(a, c))
  {
    hide Size, Emptied;
    EmptiedIs(a, c);
    var t := Emptied(a, c);
    assert Kid(t, 0) == t.seps[0].child && Kid(t, 1) == t.last;
    LoadSingle(a);
    LoadSingle(Cell(c.key, Child(0)));
    assert Branches(t.seps) == [Cell(c.key, Child(0))];
  }

  /** The emptied leaf splits: nothing on the left, the row on the right. */
  lemma EmptiedLeafSplits(a: Cell, c: Cell)
    requires TwoPages(a, c)
    ensures var l := Leaf(1, [], PAGE_SIZE - Size(c));
            && PutLeaf(l, Inserting, c, 3) == Two(Leaf(1, [], FilledOff([])), c.key, Leaf(3, [c], FilledOff([c])))
            && PutFits(l, Inserting, c, 3) && !RoomFor(l.off, 0, c)
  {
    hide Size;
    assert Find([], c.key) == 0 && UpperBound([], c.key) == 0;
    assert Sorted([], c) == [c] && [c][..0] == [] && [c][0..] == [c];
    LoadSingle(c);
  }

  /**
    Insert a, insert c, delete c, insert c again. The leaf that the delete has emptied keeps its used
    body bytes, so it splits with an empty left half, and its lower separator is there twice.
   */
  lemma ReinsertRepeatsSeparator(a: Cell, c: Cell)
    requires TwoPages(a, c)
    ensures var t := Emptied(a, c);
            && WellShaped(t, 3) && SpaceOk(t) && Ordered(t, Unbounded, Unbounded) && Strict(t, Unbounded, Unbounded)
            && PutRootFits(t, Inserting, c, 3) && Hazard(t, Inserting, c, Unbounded)
            && var t' := PutRoot(t, Inserting, c, 3);
               t'.Node? && |t'.seps| == 2 && t'.seps[0].key == t'.seps[1].key == c.key && !Strict(t', Unbounded, Unbounded)
  {
    hide Size, Emptied, Ordered, Strict, WellShaped, SpaceOk, PutLeaf;
    EmptiedIs(a, c);
    EmptiedShape(a, c);
    EmptiedSpace(a, c);
    KeyOrder(c.key, c.key);
    EmptiedLeafSplits(a, c);
    var t := Emptied(a, c);
    assert UpperBound(Branches(t.seps), c.key) == 1;
    assert Kid(t, 1) == t.last;
    assert Put(t.last, Inserting, c, 3) == (PutLeaf(t.last, Inserting, c, 3), 4);
    SepSizes(c.key);
    NotStrict(PutRoot(t, Inserting, c, 3));
  }

  lemma NotStrict(t: Tree)
    requires t.Node? && |t.seps| >= 2 && t.seps[0].key == t.seps[1].key
    ensures !Strict(t, Unbounded, Unbounded)
  {
    KeyOrder(t.seps[0].key, t.seps[1].key);
  }

  lemma SepSizes(k: Key)
    ensures forall id: PageId :: Size(Cell(k, Child(id))) == SepWeight(k) - SLOT_SIZE
  {}

  // ---- A row that is dropped ----

  /** A row of a table with an integer key and one text column of n bytes. */
  function Plain(i: byte, n: nat): Cell {
    Cell(Key(0, IntKey(i as int)), Data(Row([IntValue(i as int), StringValue(seq(n, k => 0))])))
  }

  lemma PlainWeight(i: byte, n: nat)
    ensures Weight(Plain(i, n)) == 32 + n
  {
    var vs := Plain(i, n).body.row.values;
    assert vs[1..] == [StringValue(seq(n, k => 0))] && vs[1..][1..] == [];
    assert ValuesSize(vs[1..]) == 2 + n;
  }

  /** A short row and a long one, inserted into an empty tree. */
  function ShortAndLong(): seq<Op> { [Add(Inserting, Plain(1, 8)), Add(Inserting, Plain(2, 3868))] }

  lemma ShortAndLongTree()
    ensures ApplyAll(Leaf(0, [], PAGE_SIZE), 1, ShortAndLong()) == (Leaf(0, [Plain(1, 8), Plain(2, 3868)], PAGE_SIZE - 36 - 3896), 1)
  {
    hide Size;
    var a, b := Plain(1, 8), Plain(2, 3868);
    PlainWeight(1, 8);
    PlainWeight(2, 3868);
    var empty, one := Leaf(0, [], PAGE_SIZE), Leaf(0, [a], PAGE_SIZE - 36);
    assert Sorted([], a) == [a];
    assert Apply(empty, 1, Add(Inserting, a)) == (one, 1);
    assert UpperBound([a], b.key) == 1 && Sorted([a], b) == [a, b];
    assert Apply(one, 1, Add(Inserting, b)) == (Leaf(0, [a, b], PAGE_SIZE - 36 - 3896), 1);
    ApplyLast(empty, 1, [], Add(Inserting, a));
    assert [] + [Add(Inserting, a)] == [Add(Inserting, a)];
    ApplyLast(empty, 1, [Add(Inserting, a)], Add(Inserting, b));
    assert [Add(Inserting, a)] + [Add(Inserting, b)] == ShortAndLong();
  }

  /** A third row, as long as the second: no page needs more than one of them, the insert succeeds, and the row is gone. */
  lemma InsertedRowIsGone()
    ensures var (t, next) := ApplyAll(Leaf(0, [], PAGE_SIZE), 1, ShortAndLong());
            var c := Plain(3, 3868);
            && PutRootFits(t, Inserting, c, next) && Ordered(t, Unbounded, Unbounded) && Strict(t, Unbounded, Unbounded)
            && Lost(t, Inserting, c) == {c.key} && Lookup(Contents(PutRoot(t, Inserting, c, next)), c.key) == None
  {
    hide PutRootFits, PutRoot, Contents, Lookup, Lost, Plain, ApplyAll, Strict, PutLeaf;
    ShortAndLongTree();
    var a, b, c := Plain(1, 8), Plain(2, 3868), Plain(3, 3868);
    var t := Leaf(0, [a, b], PAGE_SIZE - 36 - 3896);
    ThirdDrops(t, a, b, c);
    NoSeps(t);
    RootOfShort(t, b, c);
    LostThird(t, a, b, c);
  }

  lemma ThirdDrops(t: Tree, a: Cell, b: Cell, c: Cell)
    requires t == Leaf(0, [a, b], PAGE_SIZE - 36 - 3896) && a == Plain(1, 8) && b == Plain(2, 3868) && c == Plain(3, 3868)
    ensures Ordered(t, Unbounded, Unbounded)
    ensures var o := PutLeaf(t, Inserting, c, 1); o.Two? && HoldsCells(o.left, [a]) && HoldsCells(o.right, [b])
  {
    hide Size, PutLeaf;
    PlainWeight(1, 8);
    PlainWeight(2, 3868);
    PlainWeight(3, 3868);
    LoadAppend([a], [b]);
    LoadSingle(a);
    LoadSingle(b);
    assert t.cells == [a] + [b];
    UnbalancedRowIsLost(t, c, 1);
  }

  lemma RootOfShort(t: Tree, b: Cell, c: Cell)
    requires t.Leaf? && b == Plain(2, 3868) && c == Plain(3, 3868) && t.cells == [Plain(1, 8), b]
    requires var o := PutLeaf(t, Inserting, c, 1); o.Two? && HoldsCells(o.left, [Plain(1, 8)]) && HoldsCells(o.right, [b])
    ensures PutRootFits(t, Inserting, c, 1) && Contents(PutRoot(t, Inserting, c, 1)) == [Plain(1, 8), b]
    ensures Lookup([Plain(1, 8), b], c.key) == None
  {
    hide Size, PutLeaf;
    var o := PutLeaf(t, Inserting, c, 1);
    FlatSingle(Sep(o.sep, o.left));
    LoadSingle(Cell(o.sep, Child(o.left.id)));
    ShortSep(t, c);
  }

  lemma ShortSep(t: Tree, c: Cell)
    requires t.Leaf? && c == Plain(3, 3868) && t.cells == [Plain(1, 8), Plain(2, 3868)] && PutLeaf(t, Inserting, c, 1).Two?
    ensures Weight(Cell(PutLeaf(t, Inserting, c, 1).sep, Child(0))) == 21
    ensures forall id: PageId :: Weight(Cell(PutLeaf(t, Inserting, c, 1).sep, Child(id))) == 21
  {
    hide Size, Kept;
    assert UpperBound(t.cells, c.key) == 2;
    var all := Sorted(t.cells, c);
    assert all == [Plain(1, 8), Plain(2, 3868), c];
    SepSizes(Plain(2, 3868).key);
    assert SepWeight(Plain(2, 3868).key) == 21 by { SmallSep(2); }
  }

  lemma SmallSep(i: byte)
    ensures SepWeight(Key(0, IntKey(i as int))) == 21
  {}

  lemma LostThird(t: Tree, a: Cell, b: Cell, c: Cell)
    requires t.Leaf? && a == Plain(1, 8) && b == Plain(2, 3868) && c == Plain(3, 3868) && t.cells == [a, b]
    requires var o := PutLeaf(t, Inserting, c, 1); o.Two? && HoldsCells(o.left, [a]) && HoldsCells(o.right, [b])
    ensures Lost(t, Inserting, c) == {c.key}
  {
    hide Size, Kept;
    assert UpperBound(t.cells, c.key) == 2;
    assert Sorted(t.cells, c) == [a, b, c];
    assert LeafOut(t, Inserting, c) == [a] + [b];
  }

  // ---- A root that splits ----

  function KeyBytes(b: byte): seq<byte> { seq(1010, i => if i == 0 then b else 0) }

  /** A VARCHAR key of 1010 bytes, three of which fill an internal page. */
  function LongKey(b: byte): Key { Key(0, StrKey(KeyBytes(b))) }

  /** The row of a table whose only column is the key; two of them fill a leaf. */
  function LongRow(b: byte): Cell { Cell(LongKey(b), Data(Row([StringValue(KeyBytes(b))]))) }

  lemma LongKeys(a: byte, b: byte)
    ensures Lt(LongKey(a), LongKey(b)) <==> a < b
    ensures Weight(LongRow(a)) == 2036 && SepWeight(LongKey(a)) == 1025
  {
    assert LongKey(a).pk.s[0] == a && LongKey(b).pk.s[0] == b;
    if a == b { KeyOrder(LongKey(a), LongKey(b)); }
    var vs := LongRow(a).body.row.values;
    assert vs[1..] == [] && ValuesSize(vs) == 1012;
  }

  lemma LongKeysDiffer(a: byte, b: byte)
    requires a != b
    ensures LongKey(a) != LongKey(b)
  {
    assert LongKey(a).pk.s[0] == a && LongKey(b).pk.s[0] == b;
  }

  /** A leaf with n rows in a row, none of them ever deleted. */
  function Run(id: PageId, b: nat, n: nat): Tree
    requires b + n <= 256
  {
    Leaf(id, seq(n, i requires 0 <= i < n => LongRow(b + i)), PAGE_SIZE - 2032 * n)
  }

  lemma RunEnd(id: PageId, b: nat, n: nat)
    requires b + n < 256
    ensures Sorted(Run(id, b, n).cells, LongRow(b + n)) == Run(id, b, n + 1).cells
    ensures Base(Run(id, b, n).cells, LongRow(b + n).key, Inserting) == Run(id, b, n).cells
  {
    hide LongKey;
    var cells, key := Run(id, b, n).cells, LongKey(b + n);
    forall i | 0 <= i < n ensures !Lt(key, cells[i].key) {
      assert cells[i] == LongRow(b + i);
      LongKeys(b + n, b + i);
    }
    assert UpperBound(cells, key) == n;
    assert cells + [LongRow(b + n)] == Run(id, b, n + 1).cells;
  }

  /** The next row fits into the leaf, or the leaf splits one and two. */
  lemma RunTakes(id: PageId, b: nat, n: nat, next: PageId)
    requires b + n < 256 && n <= 2
    ensures var o := PutLeaf(Run(id, b, n), Inserting, LongRow(b + n), next);
            o == if n < 2 then One(Run(id, b, n + 1)) else Two(Run(id, b, 1), LongKey(b + 1), Run(next, b + 1, 2))
  {
    hide Size, LongKey, UpperBound, Sorted, Base;
    hide Kept;
    RunEnd(id, b, n);
    LongKeys(b + n, b + n);
    if n == 2 { RunHalves(id, b, next); }
  }

  lemma RunHalves(id: PageId, b: nat, next: PageId)
    requires b + 3 <= 256
    ensures var all := Run(id, b, 3).cells;
            KeptLeaf(id, all[..1]) == Run(id, b, 1) && KeptLeaf(next, all[1..]) == Run(next, b + 1, 2) && all[1].key == LongKey(b + 1)
  {
    hide Size, LongKey, Kept;
    var all := Run(id, b, 3).cells;
    assert all[..1] == Run(id, b, 1).cells && all[1..] == Run(next, b + 1, 2).cells;
    RunSize(id, b);
    RunSize(next, b + 1);
    KeptAllIffFits(all[..1]);
    KeptAllIffFits(all[1..]);
  }

  lemma RunSize(id: PageId, b: nat)
    requires b + 2 <= 256
    ensures TotalSize(Run(id, b, 1).cells) == 2032 && TotalSize(Run(id, b, 2).cells) == 2 * 2032
  {
    hide Size, LongKey;
    LongKeys(b, b);
    LongKeys(b + 1, b);
    assert Run(id, b, 1).cells == [LongRow(b)];
    assert Run(id, b, 2).cells == [LongRow(b)] + [LongRow(b + 1)];
    LoadAppend([LongRow(b)], [LongRow(b + 1)]);
    LoadSingle(LongRow(b));
    LoadSingle(LongRow(b + 1));
  }

  /** The page of leaf i; the root took id 2. */
  function LeafId(i: nat): PageId { if i < 2 then i else i + 1 }

  /** A root over m leaves of one row and a last leaf of two. */
  function Comb(m: nat): Tree
    requires m + 2 < 256
  {
    Node(2, seq(m, i requires 0 <= i < m => Sep(LongKey(i + 1), Run(LeafId(i), i, 1))), Run(LeafId(m), m, 2), PAGE_SIZE - 1021 * m)
  }

  lemma CombRoute(m: nat)
    requires m + 2 < 256
    ensures Route(Comb(m), LongKey(m + 2)) == m
  {
    hide LongKey;
    var b, key := Branches(Comb(m).seps), LongKey(m + 2);
    forall i | 0 <= i < m ensures !Lt(key, b[i].key) { LongKeys(m + 2, i + 1); }
  }

  /** What becomes of the last leaf when the next row comes. */
  function LastSplit(m: nat): Outcome
    requires m + 3 < 256
  {
    Two(Run(LeafId(m), m, 1), LongKey(m + 1), Run(m + 2, m + 1, 2))
  }

  lemma CombPuts(m: nat)
    requires 1 <= m <= 3
    ensures var t := Comb(m);
            var o' := PutNode(t, m, LastSplit(m), m + 3);
            && Put(t.last, Inserting, LongRow(m + 2), m + 2) == (LastSplit(m), m + 3)
            && Put(t, Inserting, LongRow(m + 2), m + 2) == (o', if o'.Two? then m + 4 else m + 3)
  {
    hide Size, LongKey, UpperBound, PutLeaf, PutNode, Run, LastSplit;
    var t := Comb(m);
    CombRoute(m);
    assert Kid(t, m) == t.last && t.last == Run(LeafId(m), m, 2);
    LastSplits(m);
  }

  lemma LastSplits(m: nat)
    requires 1 <= m <= 3
    ensures LastSplit(m).Two? && Run(LeafId(m), m, 2).Leaf? && PutLeaf(Run(LeafId(m), m, 2), Inserting, LongRow(m + 2), m + 2) == LastSplit(m)
  {
    hide Size, LongKey, UpperBound, PutLeaf;
    RunTakes(LeafId(m), m, 2, m + 2);
  }

  /** The last leaf splits, and the root has room for two more separators. */
  lemma CombTakes(m: nat)
    requires 1 <= m <= 3
    ensures var (o, f) := Put(Comb(m), Inserting, LongRow(m + 2), m + 2);
            if m < 3 then o == One(Comb(m + 1)) && f == m + 3 else o.Two?
  {
    hide Size, LongKey, UpperBound, Put, Run;
    CombPuts(m);
    CombSplits(m);
  }

  lemma CombSplits(m: nat)
    requires 1 <= m <= 3
    ensures var t, o := Comb(m), LastSplit(m);
            if m < 3 then PutNode(t, m, o, m + 3) == One(Comb(m + 1)) else PutNode(t, m, o, m + 3).Two?
  {
    hide Size, LongKey, UpperBound, Run;
    LongKeys(m + 1, m + 1);
    SepSizes(LongKey(m + 1));
    var t, o := Comb(m), LastSplit(m);
    assert SplitSeps(t, m, o.left, o.sep, o.right) == Comb(m + 1).seps;
  }

  /** Rows inserted in ascending order. */
  function Ascend(n: nat): seq<Op>
    requires n <= 256
  {
    seq(n, i requires 0 <= i < n => Add(Inserting, LongRow(i)))
  }

  /** The tree after n of them, and the next page id. */
  function Ascent(n: nat): (Tree, PageId)
    requires n <= 5
  {
    if n <= 2 then (Run(0, 0, n), 1) else (Comb(n - 2), n)
  }

  lemma LeafAscent(n: nat)
    requires n <= 2
    ensures Apply(Ascent(n).0, Ascent(n).1, Add(Inserting, LongRow(n))) == Ascent(n + 1)
  {
    hide Size, LongKey, UpperBound, PutLeaf;
    RunTakes(0, 0, n, 1);
    if n == 2 {
      LongKeys(1, 1);
      SepSizes(LongKey(1));
      assert [Sep(LongKey(1), Run(0, 0, 1))] == Comb(1).seps;
    }
  }

  lemma CombAscent(n: nat)
    requires 3 <= n < 5
    ensures Apply(Ascent(n).0, Ascent(n).1, Add(Inserting, LongRow(n))) == Ascent(n + 1)
  {
    hide Put, Comb;
    CombTakes(n - 2);
  }

  lemma {:induction false} Ascended(n: nat)
    requires n <= 5
    ensures ApplyAll(Leaf(0, [], PAGE_SIZE), 1, Ascend(n)) == Ascent(n)
  {
    hide Apply, Comb, Run;
    if n == 0 {
      NoneYet();
    } else {
      Ascended(n - 1);
      assert Ascend(n)[..n - 1] == Ascend(n - 1);
      AscentStep(n - 1);
    }
  }

  lemma NoneYet()
    ensures Run(0, 0, 0) == Leaf(0, [], PAGE_SIZE) && Ascent(0) == (Run(0, 0, 0), 1)
  {}

  lemma CombOrdered(m: nat)
    requires m + 2 < 256
    ensures Ordered(Comb(m), Unbounded, Unbounded) && Strict(Comb(m), Unbounded, Unbounded)
  {
    hide LongKey;
    var t := Comb(m);
    forall i, j | 0 <= i < j < m ensures Lt(t.seps[i].key, t.seps[j].key) { LongKeys(i + 1, j + 1); }
    forall i | 0 <= i <= m ensures Strict(Kid(t, i), Low(t, i, Unbounded), High(t, i, Unbounded)) {}
    forall i | 0 <= i <= m ensures Ordered(Kid(t, i), Low(t, i, Unbounded), High(t, i, Unbounded)) {
      RunOrdered(LeafId(i), i, if i < m then 1 else 2, Low(t, i, Unbounded), High(t, i, Unbounded));
    }
  }

  lemma RunOrdered(id: PageId, b: nat, n: nat, lo: Bound, hi: Bound)
    requires b + n < 256 && (lo.At? ==> lo.key == LongKey(b)) && (hi.At? ==> hi.key == LongKey(b + n))
    ensures Ordered(Run(id, b, n), lo, hi)
  {
    hide LongKey;
    var cells := Run(id, b, n).cells;
    forall i, j | 0 <= i < j < n ensures Lt(cells[i].key, cells[j].key) {
      assert cells[i] == LongRow(b + i) && cells[j] == LongRow(b + j);
      LongKeys(b + i, b + j);
    }
    forall i | 0 <= i < n ensures cells[i].body.Data? && InRange(cells[i].key, lo, hi) {
      assert cells[i] == LongRow(b + i);
      LongKeys(b, b + i);
      LongKeys(b + i, b + n);
    }
  }

  lemma EmptyShape()
    ensures WellShaped(Leaf(0, [], PAGE_SIZE), 1) && SpaceOk(Leaf(0, [], PAGE_SIZE)) && Weighted(Leaf(0, [], PAGE_SIZE), LONG)
  {
    var t := Leaf(0, [], PAGE_SIZE);
    assert Balanced(t, 0) && Height(t) == 0 && Distinct(t) && SpineOk(t) && IdsBelow(t, 1);
  }

  lemma LongRowWithin(b: byte)
    ensures CellWithin(LongRow(b), LONG)
  {
    LongKeys(b, b);
  }

  const LONG := Weights(2036, 2036, 1025, 1025)

  lemma {:induction false} AscentShape(n: nat)
    requires n <= 5
    ensures var (t, next) := Ascent(n); WellShaped(t, next) && SpaceOk(t) && Weighted(t, LONG)
  {
    hide WellShaped, SpaceOk, Weighted, CellWithin, Ascent, Put, PutRoot, PutRootFits;
    if n == 0 {
      NoneYet();
      EmptyShape();
    } else {
      AscentShape(n - 1);
      AscentStep(n - 1);
      var (t, next) := Ascent(n - 1);
      LongRowWithin(n - 1);
      WeightedRootFits(t, Inserting, LongRow(n - 1), next, LONG);
      PutRootShape(t, Inserting, LongRow(n - 1), next);
      PutRootSpace(t, Inserting, LongRow(n - 1), next);
      PutRootWeighted(t, Inserting, LongRow(n - 1), next, LONG);
    }
  }

  lemma AscentStep(n: nat)
    requires n < 5
    ensures Apply(Ascent(n).0, Ascent(n).1, Add(Inserting, LongRow(n))) == Ascent(n + 1)
  {
    hide Apply, Ascent;
    if n <= 2 { LeafAscent(n); } else { CombAscent(n); }
  }

  /**
    Five rows inserted in ascending order leave a root over four leaves; the sixth splits the root. It
    fits everywhere and keeps the order, and it is all that a transaction has to do for its rollback,
    or a crash, to lose the rows outside page 0.
   */
  lemma SixthRowSplitsRoot()
    ensures var (t, next) := ApplyAll(Leaf(0, [], PAGE_SIZE), 1, Ascend(5));
            && t.Node? && WellShaped(t, next) && SpaceOk(t) && Ordered(t, Unbounded, Unbounded) && Strict(t, Unbounded, Unbounded)
            && PutRootFits(t, Inserting, LongRow(5), next) && Put(t, Inserting, LongRow(5), next).0.Two?
  {
    hide LongKey, Ascend, Put, Ordered, Strict, WellShaped, SpaceOk, PutRootFits, CellWithin, Weighted;
    Ascended(5);
    AscentShape(5);
    LongRowWithin(5);
    WeightedRootFits(Comb(3), Inserting, LongRow(5), 5, LONG);
    CombOrdered(3);
    CombTakes(3);
  }

  // ---- A statement that stops halfway ----

  /** A put with so many frames for new pages leaves a page changed, on whatever pages the tree is, and the key is missed. */
  ghost predicate IsMissed(t: Tree, mode: Mode, c: Cell, next: PageId, free: int, key: Key) {
    forall view | Match(view, t, NO_PAGE) ::
      var left := LeftAtRoot(view, t, mode, c, next, free);
      left.Some? && left.value.id in view && Missed(view, t, left.value, c, free, key)
  }

  /**
    Two rows fill the first leaf. An update of the second one, in a pool that has one frame for it, takes
    the old row out, finds no frame for the new page that it asks for, and gives the leaf up: after the
    rollback the row is not found.
   */
  lemma UpdateInOneFrame()
    ensures var (t, next) := ApplyAll(Leaf(0, [], PAGE_SIZE), 1, Ascend(2));
            var c := LongRow(1);
            var free := 1 - |PathIds(t, c.key)|;
            && WellShaped(t, next) && SpaceOk(t) && Ordered(t, Unbounded, Unbounded) && Strict(t, Unbounded, Unbounded)
            && PutRootFits(t, Updating, c, next) && LeavesPage(t, Updating, c, next, free)
            && Lookup(Contents(t), c.key).Some? && IsMissed(t, Updating, c, next, free, c.key)
  {
    hide LongKey, LongRow, Run, Ascend, Ordered, Strict, WellShaped, SpaceOk, PutRootFits, CellWithin, Weighted, LeavesPage, Missed, PathIds,
      Lookup, Contents, LeftAtRoot, Match, IsMissed, ApplyAll;
    Ascended(2);
    AscentShape(2);
    LongRowWithin(1);
    var t, c := Run(0, 0, 2), LongRow(1);
    WeightedRootFits(t, Updating, c, 1, LONG);
    RunOrdered(0, 0, 2, Unbounded, Unbounded);
    RunIsLeaf();
    NoSeps(t);
    UpdateDemand();
    UpdateMisses();
  }

  lemma UpdateMisses()
    ensures IsMissed(Run(0, 0, 2), Updating, LongRow(1), 1, 0, LongRow(1).key)
  {
    hide LongKey, Base, Demand;
    UpdateDemand();
  }

  lemma RunIsLeaf()
    ensures Run(0, 0, 2).Leaf? && Ascent(2) == (Run(0, 0, 2), 1)
  {}

  lemma UpdateDemand()
    ensures var t, c := Run(0, 0, 2), LongRow(1);
            && PathIds(t, c.key) == {0} && LeavesPage(t, Updating, c, 1, 0) && Lookup(Contents(t), c.key).Some?
  {
    hide LongKey, UpperBound, Sorted, Size, Kept;
    var t, c := Run(0, 0, 2), LongRow(1);
    LongKeysDiffer(0, 1);
    LongKeys(1, 1);
    assert t.cells == [LongRow(0), c] && Find(t.cells, c.key) == 1;
    assert Base(t.cells, c.key, Updating) == [LongRow(0)];
  }

  lemma NoSeps(t: Tree)
    requires t.Leaf?
    ensures Strict(t, Unbounded, Unbounded)
  {}

  /**
    The sixth row, in a pool that has three frames for it: two for the way down and one for the new half
    of the leaf, none for that of the root. After the rollback the root leads to the blank half, and
    the two rows of that leaf are not found.
   */
  lemma InsertInThreeFrames()
    ensures var (t, next) := ApplyAll(Leaf(0, [], PAGE_SIZE), 1, Ascend(5));
            var c := LongRow(5);
            var free := 3 - |PathIds(t, c.key)|;
            && WellShaped(t, next) && SpaceOk(t) && Ordered(t, Unbounded, Unbounded) && Strict(t, Unbounded, Unbounded)
            && PutRootFits(t, Inserting, c, next) && LeavesPage(t, Inserting, c, next, free)
            && forall x: byte | 3 <= x < 5 ::
                 Lookup(Target(t, LongKey(x)).cells, LongKey(x)).Some? && IsMissed(t, Inserting, c, next, free, LongKey(x))
  {
    hide LongKey, Ascend, Ordered, Strict, WellShaped, SpaceOk, PutRootFits, Put, Comb, LongRow, LeavesPage, Missed, Lookup, Target, ApplyAll, PathIds,
      LeftAtRoot, Match, IsMissed;
    Ascended(5);
    SixthRowSplitsRoot();
    SixthDemand();
    forall x: byte | 3 <= x < 5
      ensures Lookup(Target(Comb(3), LongKey(x)).cells, LongKey(x)).Some? && IsMissed(Comb(3), Inserting, LongRow(5), 5, 1, LongKey(x))
    {
      SixthWas(x);
      SixthIsMissed(x);
    }
  }

  lemma SixthIsMissed(x: byte)
    requires 3 <= x < 5
    ensures IsMissed(Comb(3), Inserting, LongRow(5), 5, 1, LongKey(x))
  {
    hide LongKey, LeftAtRoot, Missed, Match;
    forall view | Match(view, Comb(3), NO_PAGE)
      ensures var left := LeftAtRoot(view, Comb(3), Inserting, LongRow(5), 5, 1);
              left.Some? && left.value.id in view && Missed(view, Comb(3), left.value, LongRow(5), 1, LongKey(x))
    {
      SixthMisses(view, x);
    }
  }

  lemma SixthWas(x: byte)
    requires 3 <= x < 5
    ensures Lookup(Target(Comb(3), LongKey(x)).cells, LongKey(x)).Some?
  {
    hide LongKey, UpperBound, Run, Size, Lookup;
    CombLast(Comb(3));
    LastRow(x);
  }

  lemma SixthDemand()
    ensures PathIds(Comb(3), LongRow(5).key) == {2, 4} && LeavesPage(Comb(3), Inserting, LongRow(5), 5, 1)
  {
    hide LongKey, UpperBound, Put, Run, Size, PutNode;
    CombPuts(3);
    CombSplits(3);
    CombRoute(3);
    CombLast(Comb(3));
  }

  lemma SixthMisses(view: Disk, x: byte)
    requires 3 <= x < 5 && Match(view, Comb(3), NO_PAGE)
    ensures var left := LeftAtRoot(view, Comb(3), Inserting, LongRow(5), 5, 1);
            left.Some? && left.value.id in view && Missed(view, Comb(3), left.value, LongRow(5), 1, LongKey(x))
  {
    hide LongKey, UpperBound, Put, Run, Size, PutNode, Lookup, Match, HalfPatched;
    var t := Comb(3);
    NodeReads(view, t, NO_PAGE, 3);
    SixthDemand();
    CombPuts(3);
    CombRoute(3);
    CombLast(t);
    LastRow(x);
    HalfPatchedId(view[2], t, 3, LastSplit(3));
  }

  lemma CombLast(t: Tree)
    requires t == Comb(3)
    ensures t.id == 2 && |t.seps| == 3 && Kid(t, 3) == t.last == Run(4, 3, 2) && t.last.Leaf? && t.last.id == 4
    ensures LastSplit(3).Two?
  {}

  lemma LastRow(x: byte)
    requires 3 <= x < 5
    ensures Route(Comb(3), LongKey(x)) == 3 && Lookup(Run(4, 3, 2).cells, LongKey(x)).Some?
  {
    hide LongKey, Size;
    var b, cells := Branches(Comb(3).seps), Run(4, 3, 2).cells;
    forall i | 0 <= i < 3 ensures !Lt(LongKey(x), b[i].key) { LongKeys(x, i + 1); }
    assert cells[x - 3] == LongRow(x);
    assert Find(cells, LongKey(x)) < 2;
  }

  // ---- A separator that is dropped ----

  /** Keys of one byte, then two of 1001 and one of 2027; every row fills more than half a page, the last a whole one. */
  function StepBytes(i: byte): Text {
    seq(if i < 5 then 1 else if i < 7 then 1001 else 2027, k => if k == 0 then i else 0)
  }

  function StepKey(i: byte): Key { Key(0, StrKey(StepBytes(i))) }

  function StepRow(i: byte): Cell {
    Cell(StepKey(i), Data(Row([StringValue(StepBytes(i)), if i < 5 then StringValue(seq(2020, k => 0)) else if i < 7 then StringValue(seq(20, k => 0)) else NullValue])))
  }

  function StepWeight(i: byte): nat { if i < 7 then 2042 else 4072 }

  function StepSep(i: byte): nat { if i < 5 then 16 else if i < 7 then 1016 else 2042 }

  lemma StepKeys(i: byte, j: byte)
    ensures Lt(StepKey(i), StepKey(j)) <==> i < j
    ensures i != j ==> StepKey(i) != StepKey(j)
    ensures Weight(StepRow(i)) == StepWeight(i) && forall id: PageId :: Weight(Cell(StepKey(i), Child(id))) == StepSep(i)
  {
    assert StepKey(i).pk.s[0] == i && StepKey(j).pk.s[0] == j;
    if i == j { KeyOrder(StepKey(i), StepKey(j)); }
    var vs := StepRow(i).body.row.values;
    assert vs[1..][1..] == [];
    assert ValuesSize(vs[1..]) == ValueSize(vs[1]);
  }

  lemma StepRowKey(i: byte)
    ensures StepRow(i).key == StepKey(i)
  {}

  function StepLeaf(id: PageId, i: byte): Tree { Leaf(id, [StepRow(i)], PAGE_SIZE - (StepWeight(i) - SLOT_SIZE)) }

  /** A leaf with one row splits in front of the next one. */
  lemma StepSplits(id: PageId, i: byte, next: PageId)
    requires i < 7
    ensures PutLeaf(StepLeaf(id, i), Inserting, StepRow(i + 1), next) == Two(StepLeaf(id, i), StepKey(i + 1), StepLeaf(next, i + 1))
  {
    hide Size, StepKey, Kept, Fits;
    var x, y := StepRow(i), StepRow(i + 1);
    StepKeys(i + 1, i);
    StepKeys(i, i);
    assert UpperBound([x], y.key) == 1;
    var all := Sorted([x], y);
    assert all == [x, y] && all[..1] == [x] && all[1..] == [y];
    SingleFits(x);
    SingleFits(y);
  }

  /** The bytes of the first n separators. */
  function StepTotal(n: nat): nat { if n <= 4 then 12 * n else 48 + 1012 * (n - 4) }

  function StepSeps(n: nat): seq<Sep>
    requires n < 256
  {
    seq(n, i requires 0 <= i < n => Sep(StepKey(i + 1), StepLeaf(LeafId(i), i)))
  }

  /** The tree after n + 1 of the rows: one in each leaf. */
  function Steps(n: nat): Tree
    requires 0 < n < 256
  {
    Node(2, StepSeps(n), StepLeaf(LeafId(n), n), PAGE_SIZE - StepTotal(n))
  }

  lemma StepRoute(n: nat)
    requires 0 < n <= 6
    ensures Route(Steps(n), StepKey(n + 1)) == n
  {
    hide StepKey;
    var b := Branches(StepSeps(n));
    forall i | 0 <= i < n ensures !Lt(StepKey(n + 1), b[i].key) { StepKeys(n + 1, i + 1); }
  }

  /** What becomes of the last leaf, and of the root's separators. */
  function StepOut(n: nat): Outcome
    requires n <= 6
  {
    Two(StepLeaf(LeafId(n), n), StepKey(n + 1), StepLeaf(n + 2, n + 1))
  }

  lemma StepPuts(n: nat)
    requires 0 < n <= 6
    ensures var t := Steps(n);
            var o' := PutNode(t, n, StepOut(n), n + 3);
            && Put(Kid(t, n), Inserting, StepRow(n + 1), n + 2) == (StepOut(n), n + 3)
            && Put(t, Inserting, StepRow(n + 1), n + 2) == (o', if o'.Two? then n + 4 else n + 3)
            && SplitSeps(t, n, StepOut(n).left, StepOut(n).sep, StepOut(n).right) == StepSeps(n + 1)
  {
    hide StepKey, StepRow, UpperBound, PutLeaf, PutNode;
    StepRoute(n);
    StepSplits(LeafId(n), n, n + 2);
    StepRowKey(n + 1);
    var t := Steps(n);
    assert Kid(t, n) == t.last;
    assert Put(t.last, Inserting, StepRow(n + 1), n + 2) == (StepOut(n), n + 3);
    assert SplitSeps(t, n, StepOut(n).left, StepOut(n).sep, StepOut(n).right) == StepSeps(n + 1);
  }

  /** The root has room for six of the separators. */
  lemma StepTaken(n: nat)
    requires 0 < n < 6
    ensures PutRoot(Steps(n), Inserting, StepRow(n + 1), n + 2) == Steps(n + 1) && Put(Steps(n), Inserting, StepRow(n + 1), n + 2).1 == n + 3
  {
    hide StepKey, StepRow, UpperBound, Put, Size, StepSeps, StepLeaf;
    StepPuts(n);
    StepKeys(n + 1, n + 1);
    SameLength(n);
  }

  lemma SameLength(n: nat)
    requires n < 255
    ensures |StepSeps(n)| == n && LeafId(n + 1) == if n == 0 then 1 else n + 2
  {}

  function StepOps(n: nat): seq<Op>
    requires n <= 7
  {
    seq(n, i requires 0 <= i < n => Add(Inserting, StepRow(i)))
  }

  lemma StepFirst()
    ensures ApplyAll(Leaf(0, [], PAGE_SIZE), 1, StepOps(2)) == (Steps(1), 3)
  {
    hide StepKey, Size, StepRow, PutLeaf;
    var empty, a, b := Leaf(0, [], PAGE_SIZE), Add(Inserting, StepRow(0)), Add(Inserting, StepRow(1));
    StepAlone();
    StepSplits(0, 0, 1);
    StepKeys(1, 1);
    assert StepSeps(1) == [Sep(StepKey(1), StepLeaf(0, 0))];
    ApplyLast(empty, 1, [], a);
    ApplyLast(empty, 1, [a], b);
    assert [] + [a] == [a] && [a] + [b] == StepOps(2);
  }

  lemma StepAlone()
    ensures PutLeaf(Leaf(0, [], PAGE_SIZE), Inserting, StepRow(0), 1) == One(StepLeaf(0, 0))
  {
    hide Size, StepKey;
    StepKeys(0, 0);
    assert Sorted([], StepRow(0)) == [StepRow(0)];
  }

  lemma {:induction false} StepReached(n: nat)
    requires 2 <= n <= 7
    ensures ApplyAll(Leaf(0, [], PAGE_SIZE), 1, StepOps(n)) == (Steps(n - 1), n + 1)
  {
    hide StepKey, StepRow, Put, PutRoot, Steps;
    if n == 2 {
      StepFirst();
    } else {
      StepReached(n - 1);
      StepStays(n - 2);
      ApplyLast(Leaf(0, [], PAGE_SIZE), 1, StepOps(n - 1), Add(Inserting, StepRow(n - 1)));
      assert StepOps(n - 1) + [Add(Inserting, StepRow(n - 1))] == StepOps(n);
    }
  }

  lemma StepStays(n: nat)
    requires 0 < n < 6
    ensures Apply(Steps(n), n + 2, Add(Inserting, StepRow(n + 1))) == (Steps(n + 1), n + 3)
  {
    hide StepKey, StepRow, UpperBound, Size;
    StepTaken(n);
    StepPuts(n);
    StepKeys(n + 1, n + 1);
  }

  /** The right half of the root, when the eighth row comes. */
  function StepHalf(newId: PageId): Tree { Node(newId, StepSeps(7)[4..], StepLeaf(8, 7), FilledOff(Branches(StepSeps(7)[4..]))) }

  lemma StepHalves()
    ensures Halves(Charged(Steps(6), 6, StepOut(6)), 9).right == StepHalf(9)
    ensures !RoomFor(Steps(6).off, 6, Cell(StepKey(7), Child(StepOut(6).left.id))) && !HalvesFit(StepSeps(7))
  {
    hide StepKey, StepRow, Put, Size, Fits;
    StepPuts(6);
    StepKeys(7, 7);
    StepsTooHeavy();
  }

  lemma StepsTooHeavy()
    ensures !HalvesFit(StepSeps(7))
  {
    hide StepKey, Size, Fits, Branches, Refused;
    HalfTooHeavy();
    RefusedIff(StepSeps(7)[4..]);
  }

  lemma HalfTooHeavy()
    ensures |StepSeps(7)[4..]| == 3 && Refused(StepSeps(7)[4..], 2)
  {
    hide Size, StepKey, StepLeaf;
    var s := StepSeps(7)[4..];
    var x, y, z := s[0], s[1], s[2];
    assert x == Sep(StepKey(5), StepLeaf(5, 4)) && y == Sep(StepKey(6), StepLeaf(6, 5)) && z == Sep(StepKey(7), StepLeaf(7, 6));
    StepKeys(5, 5);
    StepKeys(6, 6);
    StepKeys(7, 7);
    TwoKept(x, y);
    assert s[..2] == [x, y];
  }

  lemma TwoKept(x: Sep, y: Sep)
    requires Weight(Cell(x.key, Child(x.child.id))) == Weight(Cell(y.key, Child(y.child.id))) == 1016
    ensures KeptSeps([x, y]) == [x, y] && TotalSize(Branches([x, y])) == 2024
  {
    hide Size;
    var a, b := Cell(x.key, Child(x.child.id)), Cell(y.key, Child(y.child.id));
    assert Branches([x]) == [a] && Branches([x, y]) == [a] + [b] && [x, y][..1] == [x] && [x][..0] == [];
    SingleFits(a);
    LoadAppend([a], [b]);
    LoadSingle(a);
    LoadSingle(b);
    assert Branches([]) == [];
  }

  lemma StepsOrdered()
    ensures Ordered(Steps(6), Unbounded, Unbounded)
  {
    hide StepKey, StepLeaf;
    var t := Steps(6);
    forall i, j | 0 <= i < j < 6 ensures Le(t.seps[i].key, t.seps[j].key) { StepKeys(i + 1, j + 1); }
    forall i | 0 <= i <= 6 ensures Ordered(Kid(t, i), Low(t, i, Unbounded), High(t, i, Unbounded)) {
      OneStepOrdered(LeafId(i), i, Low(t, i, Unbounded), High(t, i, Unbounded));
    }
  }

  lemma HalfOrdered()
    ensures Ordered(StepHalf(9), At(StepKey(4)), Unbounded)
  {
    hide StepKey, StepLeaf;
    var h := StepHalf(9);
    forall i | 0 <= i < 3 ensures h.seps[i] == Sep(StepKey(i + 5), StepLeaf(LeafId(i + 4), i + 4)) {}
    forall i, j | 0 <= i < j < 3 ensures Le(h.seps[i].key, h.seps[j].key) { StepKeys(i + 5, j + 5); }
    forall i | 0 <= i < 3 ensures AtLeast(h.seps[i].key, At(StepKey(4))) { StepKeys(4, i + 5); }
    forall i | 0 <= i <= 3 ensures Ordered(Kid(h, i), Low(h, i, At(StepKey(4))), High(h, i, Unbounded)) {
      OneStepOrdered(if i == 3 then 8 else LeafId(i + 4), i + 4, Low(h, i, At(StepKey(4))), High(h, i, Unbounded));
    }
  }

  lemma OneStepOrdered(id: PageId, i: byte, lo: Bound, hi: Bound)
    requires i < 8 && (lo.At? ==> lo.key == StepKey(i)) && (hi.At? ==> hi.key == StepKey(i + 1))
    ensures Ordered(StepLeaf(id, i), lo, hi)
  {
    StepKeys(i, i + 1);
    StepKeys(i, i);
  }

  /**
    Seven rows under one root; the eighth splits it. The right half is too heavy for its page, the last
    separator is refused, and the row of the child in front of it, found before, is found no more.
   */
  lemma InternalSplitLosesRow()
    ensures var (t, next) := ApplyAll(Leaf(0, [], PAGE_SIZE), 1, StepOps(7));
            && t.Node? && |t.seps| == 6 && Ordered(t, Unbounded, Unbounded) && !PutFits(t, Inserting, StepRow(7), next)
            && Lookup(Target(t, StepKey(6)).cells, StepKey(6)).Some?
            && var (o, f) := Put(Kid(t, 6), Inserting, StepRow(7), next);
               && o.Two? && |Charged(t, 6, o).seps| == 7
               && var h := Halves(Charged(t, 6, o), f).right;
                  Refused(h.seps, 2) && Lookup(Target(Thinned(h), StepKey(6)).cells, StepKey(6)) == None
  {
    hide StepKey, StepRow, StepOps, Put, Size, Ordered, Lookup, Target, Thinned, UpperBound, StepSeps, Refused, ApplyAll;
    StepReached(7);
    StepPuts(6);
    StepHalves();
    StepsOrdered();
    HalfOrdered();
    HalfTooHeavy();
    StepRowKey(7);
    SixthFound();
    HalfRoute();
    ThinnedFinds(StepHalf(9), StepKey(6), At(StepKey(4)), Unbounded);
    SameLength(6);
    StepRoute(6);
  }

  lemma SixthFound()
    ensures Lookup(Target(Steps(6), StepKey(6)).cells, StepKey(6)).Some?
  {
    hide StepKey;
    var t := Steps(6);
    var b := Branches(t.seps);
    forall i | 0 <= i < 6 ensures !Lt(StepKey(6), b[i].key) { StepKeys(6, i + 1); }
    assert Kid(t, 6) == t.last && Find([StepRow(6)], StepKey(6)) == 0;
  }

  lemma HalfRoute()
    ensures Route(StepHalf(9), StepKey(6)) == 2 && InRange(StepKey(6), At(StepKey(4)), Unbounded)
  {
    hide StepKey;
    var b := Branches(StepHalf(9).seps);
    assert b[0].key == StepKey(5) && b[1].key == StepKey(6) && b[2].key == StepKey(7);
    StepKeys(6, 5);
    StepKeys(6, 6);
    StepKeys(6, 7);
    StepKeys(4, 6);
  }

  // ---- A separator that finds its place no more ----

  /** A row with such a key and one short column more, which no page holds twice. */
  function Wide(b: byte): Cell {
    Cell(LongKey(b), Data(Row([StringValue(KeyBytes(b)), StringValue([0, 0, 0, 0])])))
  }

  lemma WideSize(b: byte)
    ensures Size(Wide(b)) == 2040
  {
    var vs := Wide(b).body.row.values;
    assert vs[1..] == [StringValue([0, 0, 0, 0])] && vs[1..][1..] == [];
    assert ValuesSize(vs[1..]) == 6;
    assert ValuesSize(vs) == 1018;
  }

  const TOP: byte := 9

  /** The row that is deleted and inserted again and again, and the leaf in which it ends up. */
  function Low0(): Tree { Leaf(0, [Wide(0)], PAGE_SIZE - 2040) }

  function Bare(id: PageId): Tree { Leaf(id, [], PAGE_SIZE) }

  function OnlyTop(id: PageId): Tree { Leaf(id, [Wide(TOP)], PAGE_SIZE - 2040) }

  /** The separators after the row has been inserted m times: all the same. */
  function SameSeps(m: nat): seq<Sep> {
    seq(m, i requires 0 <= i < m => Sep(LongKey(TOP), if i == 0 then Low0() else Bare(LeafId(i))))
  }

  function Again(m: nat): Tree {
    Node(2, SameSeps(m), OnlyTop(LeafId(m)), PAGE_SIZE - 1021 * m)
  }

  /** The same with the row deleted. */
  function Dropped(m: nat): Tree {
    Node(2, SameSeps(m), Leaf(LeafId(m), [], PAGE_SIZE - 2040), PAGE_SIZE - 1021 * m)
  }

  /** A full leaf with one row splits in front of a greater row. */
  lemma WideSplits(id: PageId, x: byte, y: byte, next: PageId)
    requires x < y
    ensures var l := Leaf(id, [Wide(x)], PAGE_SIZE - 2040);
            && PutLeaf(l, Inserting, Wide(y), next) == Two(l, LongKey(y), Leaf(next, [Wide(y)], PAGE_SIZE - 2040))
            && LeafFits(l, Inserting, Wide(y))
  {
    hide Size, LongKey;
    LongKeys(y, x);
    WideSize(x);
    WideSize(y);
    assert UpperBound([Wide(x)], LongKey(y)) == 1;
    var all := Sorted([Wide(x)], Wide(y));
    assert all == [Wide(x), Wide(y)] && all[..1] == [Wide(x)] && all[1..] == [Wide(y)];
    LoadSingle(Wide(x));
    LoadSingle(Wide(y));
    KeptAllIffFits([Wide(x)]);
    KeptAllIffFits([Wide(y)]);
  }

  /** An emptied leaf splits with nothing on the left. */
  lemma BareSplits(id: PageId, next: PageId)
    ensures var l := Leaf(id, [], PAGE_SIZE - 2040);
            PutLeaf(l, Inserting, Wide(TOP), next) == Two(Bare(id), LongKey(TOP), OnlyTop(next))
  {
    hide Size, LongKey;
    WideSize(TOP);
    assert Sorted([], Wide(TOP)) == [Wide(TOP)] && [Wide(TOP)][..0] == [] && [Wide(TOP)][0..] == [Wide(TOP)];
    LoadSingle(Wide(TOP));
  }

  lemma AgainRoute(m: nat)
    ensures UpperBound(Branches(SameSeps(m)), LongKey(TOP)) == m
  {
    hide LongKey;
    LongKeys(TOP, TOP);
    var b := Branches(SameSeps(m));
    forall i | 0 <= i < m ensures !Lt(LongKey(TOP), b[i].key) {}
  }

  lemma DropTop(m: nat)
    requires m > 0
    ensures Remove(Again(m), LongKey(TOP)) == Dropped(m)
  {
    hide Size, LongKey, UpperBound;
    AgainRoute(m);
    var t := Again(m);
    assert Kid(t, m) == t.last;
    assert Find([Wide(TOP)], LongKey(TOP)) == 0 && RemoveAt([Wide(TOP)], 0) == [];
    assert Remove(t.last, LongKey(TOP)) == Leaf(LeafId(m), [], PAGE_SIZE - 2040);
  }

  /** The root once the row has been inserted for the fourth time: it splits between equal separators. */
  function Fourth(): Tree {
    Node(7, [Sep(LongKey(TOP), LeftFourth())],
         Node(6, [Sep(LongKey(TOP), Bare(4))], OnlyTop(5), PAGE_SIZE - 1021), PAGE_SIZE - 1021)
  }

  predicate IsLong(k: Key) { exists b: byte :: k == LongKey(b) }

  lemma {:induction false} SepTotal(seps: seq<Sep>)
    requires forall i | 0 <= i < |seps| :: IsLong(seps[i].key)
    ensures TotalSize(Branches(seps)) == 1021 * |seps|
  {
    hide Size, LongKey;
    if seps != [] {
      var n := |seps| - 1;
      SepTotal(seps[..n]);
      var b: byte :| seps[n].key == LongKey(b);
      LongKeys(b, b);
      SepSizes(LongKey(b));
      assert Branches(seps)[..n] == Branches(seps[..n]);
    }
  }

  lemma TopAgainPut(m: nat)
    requires 1 <= m <= 3
    ensures var t := Dropped(m);
            var o' := PutNode(t, m, Two(Bare(LeafId(m)), LongKey(TOP), OnlyTop(m + 2)), m + 3);
            Put(t, Inserting, Wide(TOP), m + 2) == (o', if o'.Two? then m + 4 else m + 3) && Placed(t, Inserting, Wide(TOP), m + 2)
  {
    hide Size, LongKey, UpperBound, PutLeaf, PutNode;
    AgainRoute(m);
    BareSplits(LeafId(m), m + 2);
    var t := Dropped(m);
    assert Kid(t, m) == t.last;
  }

  lemma TopAgain(m: nat)
    requires 1 <= m <= 3
    ensures var t := Dropped(m);
            PutRoot(t, Inserting, Wide(TOP), m + 2) == if m < 3 then Again(m + 1) else Fourth()
  {
    hide Size, LongKey, UpperBound, Put, LeafId;
    TopAgainPut(m);
    LongKeys(TOP, TOP);
    SepSizes(LongKey(TOP));
    var t := Dropped(m);
    LeafIds();
    assert SplitSeps(t, m, Bare(LeafId(m)), LongKey(TOP), OnlyTop(m + 2)) == SameSeps(m + 1);
    if m == 3 {
      assert SameSeps(4)[..2] == SameSeps(2) && SameSeps(4)[3..] == [Sep(LongKey(TOP), Bare(4))];
      assert SameSeps(4)[2] == Sep(LongKey(TOP), Bare(3));
      assert IsLong(LongKey(TOP));
      SepTotal(SameSeps(2));
      SepTotal([Sep(LongKey(TOP), Bare(4))]);
    }
  }

  lemma LeafIds()
    ensures LeafId(1) == 1 && LeafId(2) == 3 && LeafId(3) == 4 && LeafId(4) == 5
  {}

  lemma WithTop()
    ensures var l := Low0(); PutRoot(l, Inserting, Wide(TOP), 1) == Again(1) && Put(l, Inserting, Wide(TOP), 1).1 == 2
  {
    hide Size, LongKey, PutLeaf;
    WideSplits(0, 0, TOP, 1);
    LongKeys(TOP, TOP);
    SepSizes(LongKey(TOP));
    LeafIds();
    assert SameSeps(1) == [Sep(LongKey(TOP), Low0())];
  }

  /** A smaller row goes below the left half of the root, whose first leaf splits. */
  function Fifth(): Tree {
    Node(7, [Sep(LongKey(TOP), LeftFifth())],
         Node(6, [Sep(LongKey(TOP), Bare(4))], OnlyTop(5), PAGE_SIZE - 1021), PAGE_SIZE - 1021)
  }

  lemma SmallRoute(seps: seq<Sep>, x: byte, i: nat)
    requires i < |seps| && x < TOP && forall j | i <= j < |seps| :: seps[j].key == LongKey(TOP)
    requires i <= x && forall j | 0 <= j < i :: seps[j].key == LongKey(j + 1)
    ensures UpperBound(Branches(seps), LongKey(x)) == i
  {
    hide LongKey;
    LongKeys(x, TOP);
    var b := Branches(seps);
    forall j | 0 <= j < i ensures !Lt(LongKey(x), b[j].key) { LongKeys(x, j + 1); }
    assert b[i].key == LongKey(TOP);
  }

  /** The left half of the root, before and after the first of the smaller rows. */
  function LeftFourth(): Tree { Node(2, SameSeps(2), Bare(3), PAGE_SIZE - 2 * 1021) }

  function Second(): Tree { Leaf(8, [Wide(1)], PAGE_SIZE - 2040) }

  function LeftFifth(): Tree {
    Node(2, [Sep(LongKey(1), Low0()), Sep(LongKey(TOP), Second()), Sep(LongKey(TOP), Bare(1))], Bare(3), PAGE_SIZE - 3 * 1021)
  }

  lemma LeftTakesOne()
    ensures Put(LeftFourth(), Inserting, Wide(1), 8) == (One(LeftFifth()), 9) && Placed(LeftFourth(), Inserting, Wide(1), 8)
  {
    hide Size, LongKey, PutLeaf, UpperBound;
    var t := LeftFourth();
    SmallRoute(t.seps, 1, 0);
    WideSplits(0, 0, 1, 8);
    LongKeys(1, 1);
    SepSizes(LongKey(1));
    LeafIds();
    assert SplitSeps(t, 0, Low0(), LongKey(1), Second()) == LeftFifth().seps;
  }

  lemma RootTakesOne()
    ensures PutRoot(Fourth(), Inserting, Wide(1), 8) == Fifth() && Placed(Fourth(), Inserting, Wide(1), 8)
    ensures Put(Fourth(), Inserting, Wide(1), 8).1 == 9
  {
    hide Size, LongKey, UpperBound;
    var t := Fourth();
    SmallRoute(t.seps, 1, 0);
    assert Kid(t, 0) == LeftFourth();
    LeftTakesOne();
    assert t.seps[0 := Sep(LongKey(TOP), LeftFifth())] == Fifth().seps;
  }

  lemma LeftSplitsAtTop()
    ensures var o := Put(LeftFifth(), Inserting, Wide(2), 9).0; o.Two? && o.sep == LongKey(TOP)
  {
    hide Size, LongKey, PutLeaf, UpperBound;
    var t := LeftFifth();
    SmallRoute(t.seps, 2, 1);
    WideSplits(8, 1, 2, 9);
    LongKeys(2, 2);
    SepSizes(LongKey(2));
    assert Kid(t, 1) == Second();
  }

  /** a, c, three times c deleted and inserted again, b. */
  function Operations(): seq<Op> {
    [Add(Inserting, Wide(0)), Add(Inserting, Wide(TOP)),
     Drop(LongKey(TOP)), Add(Inserting, Wide(TOP)), Drop(LongKey(TOP)), Add(Inserting, Wide(TOP)),
     Drop(LongKey(TOP)), Add(Inserting, Wide(TOP)), Add(Inserting, Wide(1))]
  }

  lemma WithLow()
    ensures Apply(Bare(0), 1, Add(Inserting, Wide(0))) == (Low0(), 1)
  {
    hide Size, LongKey;
    WideSize(0);
    assert Sorted([], Wide(0)) == [Wide(0)];
  }

  lemma OnceMore(m: nat)
    requires 1 <= m <= 3
    ensures Apply(Again(m), m + 2, Drop(LongKey(TOP))) == (Dropped(m), m + 2)
    ensures Apply(Dropped(m), m + 2, Add(Inserting, Wide(TOP))) == if m < 3 then (Again(m + 1), m + 3) else (Fourth(), 8)
  {
    hide Size, LongKey, UpperBound, Put, PutRoot, Remove, Again, Dropped, Fourth;
    DropTop(m);
    TopAgain(m);
    TopAgainNext(m);
  }

  lemma TopAgainNext(m: nat)
    requires 1 <= m <= 3
    ensures var (o, f) := Put(Dropped(m), Inserting, Wide(TOP), m + 2);
            if m < 3 then o.One? && f == m + 3 else o.Two? && f == 7
  {
    hide Size, LongKey, UpperBound, Put, LeafId;
    TopAgainPut(m);
    LongKeys(TOP, TOP);
    SepSizes(LongKey(TOP));
  }

  /** The operations one after the other, from the end of a list. */
  lemma ApplyLast(t: Tree, next: PageId, ops: seq<Op>, op: Op)
    ensures ApplyAll(t, next, ops + [op]) == var (t', next') := ApplyAll(t, next, ops); Apply(t', next', op)
  {
    assert (ops + [op])[..|ops|] == ops;
  }

  lemma Reached()
    ensures ApplyAll(Bare(0), 1, Operations()) == (Fifth(), 9)
  {
    hide Size, LongKey, UpperBound, Put, PutRoot, Remove, Again, Dropped, Fourth, Fifth, Low0, Bare, Wide, Apply;
    var drop, add := Drop(LongKey(TOP)), Add(Inserting, Wide(TOP));
    var low, one := Add(Inserting, Wide(0)), Add(Inserting, Wide(1));
    FirstTwo();
    OnceMore(1);
    OnceMore(2);
    OnceMore(3);
    LastOne();
    ApplyLast(Bare(0), 1, [low, add], drop);
    assert [low, add] + [drop] == [low, add, drop];
    ApplyLast(Bare(0), 1, [low, add, drop], add);
    assert [low, add, drop] + [add] == [low, add, drop, add];
    ApplyLast(Bare(0), 1, [low, add, drop, add], drop);
    assert [low, add, drop, add] + [drop] == [low, add, drop, add, drop];
    ApplyLast(Bare(0), 1, [low, add, drop, add, drop], add);
    assert [low, add, drop, add, drop] + [add] == [low, add, drop, add, drop, add];
    ApplyLast(Bare(0), 1, [low, add, drop, add, drop, add], drop);
    assert [low, add, drop, add, drop, add] + [drop] == [low, add, drop, add, drop, add, drop];
    ApplyLast(Bare(0), 1, [low, add, drop, add, drop, add, drop], add);
    assert [low, add, drop, add, drop, add, drop] + [add] == [low, add, drop, add, drop, add, drop, add];
    ApplyLast(Bare(0), 1, [low, add, drop, add, drop, add, drop, add], one);
    assert [low, add, drop, add, drop, add, drop, add] + [one] == Operations();
  }

  lemma FirstTwo()
    ensures ApplyAll(Bare(0), 1, [Add(Inserting, Wide(0)), Add(Inserting, Wide(TOP))]) == (Again(1), 3)
  {
    hide Size, LongKey, UpperBound, Put, PutRoot, Low0, Bare, Wide, Again;
    var low, add := Add(Inserting, Wide(0)), Add(Inserting, Wide(TOP));
    WithLow();
    WithTop();
    TopSplits();
    ApplyLast(Bare(0), 1, [], low);
    assert [] + [low] == [low];
    ApplyLast(Bare(0), 1, [low], add);
    assert [low] + [add] == [low, add];
  }

  lemma TopSplits()
    ensures Put(Low0(), Inserting, Wide(TOP), 1).0.Two?
  {
    hide Size, LongKey, PutLeaf;
    WideSplits(0, 0, TOP, 1);
  }

  lemma LastOne()
    ensures Apply(Fourth(), 8, Add(Inserting, Wide(1))) == (Fifth(), 9)
  {
    hide Size, LongKey, UpperBound;
    var t := Fourth();
    SmallRoute(t.seps, 1, 0);
    assert Kid(t, 0) == LeftFourth();
    LeftTakesOne();
    RootTakesOne();
  }

  /** The tree before the last insert: three rows, all of them found. */
  lemma LeftFifthOrdered()
    ensures Ordered(LeftFifth(), Unbounded, At(LongKey(TOP))) && Contents(LeftFifth()) == [Wide(0), Wide(1)]
  {
    hide LongKey, Size;
    LongKeys(0, 1);
    LongKeys(1, 1);
    LongKeys(1, TOP);
    LongKeys(TOP, TOP);
    var t, top := LeftFifth(), At(LongKey(TOP));
    assert Kid(t, 0) == Low0() && Kid(t, 1) == Second() && Kid(t, 2) == Bare(1) && Kid(t, 3) == Bare(3);
    assert Ordered(Low0(), Unbounded, At(LongKey(1))) && Ordered(Second(), At(LongKey(1)), top);
    assert Ordered(Bare(1), top, top) && Ordered(Bare(3), top, top);
    forall i | 0 <= i <= 3 ensures Ordered(Kid(t, i), Low(t, i, Unbounded), High(t, i, top)) {}
    LeftFifthContents();
  }

  lemma LeftFifthContents()
    ensures Contents(LeftFifth()) == [Wide(0), Wide(1)]
  {
    hide LongKey, Size;
    var seps := LeftFifth().seps;
    assert seps[..2] == [seps[0], seps[1]] && seps[..2][..1] == [seps[0]] && [seps[0]][..0] == [];
    assert Flat([seps[0]]) == Flat([]) + [Wide(0)];
    assert Flat(seps[..2]) == Flat([seps[0]]) + [Wide(1)];
    assert Flat(seps) == Flat(seps[..2]) + [];
  }

  lemma FifthOrdered()
    ensures Ordered(Fifth(), Unbounded, Unbounded)
  {
    hide LongKey, Size;
    LeftFifthOrdered();
    LongKeys(TOP, TOP);
    var t, r, top := Fifth(), Fifth().last, At(LongKey(TOP));
    assert Kid(r, 0) == Bare(4) && Kid(r, 1) == OnlyTop(5);
    assert Ordered(Bare(4), top, top) && Ordered(OnlyTop(5), top, Unbounded);
    forall i | 0 <= i <= 1 ensures Ordered(Kid(r, i), Low(r, i, top), High(r, i, Unbounded)) {}
    assert Ordered(r, top, Unbounded);
    assert Kid(t, 0) == LeftFifth() && Kid(t, 1) == r;
    forall i | 0 <= i <= 1 ensures Ordered(Kid(t, i), Low(t, i, Unbounded), High(t, i, Unbounded)) {}
  }

  lemma LeftFifthKeeps()
    ensures KeepsAll(LeftFifth(), Inserting, Wide(2))
  {
    hide Size, LongKey, UpperBound, LeafFits;
    SmallRoute(LeftFifth().seps, 2, 1);
    assert Kid(LeftFifth(), 1) == Second();
    WideSplits(8, 1, 2, 9);
  }

  /** The left half of the last insert holds the rows 0, 1 and 2. */
  lemma LeftHalfRows()
    ensures var o := Put(LeftFifth(), Inserting, Wide(2), 9).0;
            && o.Two? && o.sep == LongKey(TOP) && OrderedOut(o, Unbounded, At(LongKey(TOP)))
            && Wide(0) in Contents(o.left) && Wide(1) in Contents(o.left) && Wide(2) in Contents(o.left)
  {
    hide LongKey, Size, Put, UpperBound, Ordered, Contents, Parted, KeepsAll;
    LeftFifthOrdered();
    LeftSplitsAtTop();
    LongKeys(2, 0);
    LongKeys(2, 1);
    LongKeys(2, TOP);
    LongKeysDiffer(0, 2);
    LongKeysDiffer(1, 2);
    assert Find([Wide(0), Wide(1)], LongKey(2)) == 2;
    PutOrdered(LeftFifth(), Inserting, Wide(2), 9, Unbounded, At(LongKey(TOP)));
    LeftFifthKeeps();
    OrderedParted(LeftFifth(), Inserting, LongKey(2), Unbounded, At(LongKey(TOP)));
    PutContents(LeftFifth(), Inserting, Wide(2), 9);
    var o := Put(LeftFifth(), Inserting, Wide(2), 9).0;
    NothingBetween(o, Unbounded, At(LongKey(TOP)));
    var all := Sorted([Wide(0), Wide(1)], Wide(2));
    assert UpperBound([Wide(0), Wide(1)], LongKey(2)) == 2;
    assert all == [Wide(0), Wide(1), Wide(2)];
    assert Contents(o.left) == Contents(o.left) + [] == all;
    assert Wide(0) == all[0] && Wide(1) == all[1] && Wide(2) == all[2];
  }

  lemma FoundBefore(x: byte)
    requires x < 2
    ensures Lookup(Target(Fifth(), LongKey(x)).cells, LongKey(x)) == Some(RowOf(Wide(x)))
  {
    hide LongKey, Size, UpperBound;
    var t, l := Fifth(), LeftFifth();
    SmallRoute(t.seps, x, 0);
    LongKeys(x, 1);
    assert Branches(l.seps)[0].key == LongKey(1);
    if x == 1 { SmallRoute(l.seps, 1, 1); } else { assert UpperBound(Branches(l.seps), LongKey(x)) == 0; }
    assert Kid(t, 0) == l && Kid(l, x as nat) == if x == 0 then Low0() else Second();
    assert Find([Wide(x)], LongKey(x)) == 0;
  }

  /**
    Insert a and c, delete c and insert it again three times, insert b: then the left half of the root
    is a page whose last separators equal its own. The next row splits it at one of them, and
    findInsertPos puts that behind the root's separator. The root has room for it, and the rows of the
    left half, the new one among them, are in the tree and found by no search.
   */
  lemma SeparatorMisplaced()
    ensures var (t, next) := ApplyAll(Bare(0), 1, Operations());
            && t.Node? && |t.seps| == 1 && !Placed(t, Inserting, Wide(2), next)
            && var o := Put(Kid(t, 0), Inserting, Wide(2), next).0;
               && o.Two? && o.sep == t.seps[0].key && RoomFor(t.off, 1, Cell(o.sep, Child(o.left.id)))
               && (forall x: byte | x < 2 :: Lookup(Target(t, LongKey(x)).cells, LongKey(x)) == Some(RowOf(Wide(x))))
               && var m := Crossed(t, 0, o);
                  forall x: byte | x < 3 :: Wide(x) in Contents(m) && Lookup(Target(m, LongKey(x)).cells, LongKey(x)) == None
  {
    hide Size, LongKey, Operations, Apply, Put, UpperBound, Ordered, Contents, Target, Lookup;
    Reached();
    var t := Fifth();
    LeftHalfRows();
    FifthOrdered();
    assert Kid(t, 0) == LeftFifth();
    SmallRoute(t.seps, 2, 0);
    LongKeys(TOP, TOP);
    SepSizes(LongKey(TOP));
    assert Branches(t.seps)[0].key == LongKey(TOP);
    var o := Put(Kid(t, 0), Inserting, Wide(2), 9).0;
    forall x: byte | x < 3
      ensures Wide(x) in Contents(Crossed(t, 0, o)) && Lookup(Target(Crossed(t, 0, o), LongKey(x)).cells, LongKey(x)) == None
    {
      SmallRoute(t.seps, x, 0);
      MisplacedLosesLeft(t, 0, o, LongKey(x), Unbounded, Unbounded);
    }
    FoundBefore(0);
    FoundBefore(1);
  }
}
