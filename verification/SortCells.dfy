/** sortCells, the in-place bubble sort of the splits (storage/btree/cell.go). */
module SortCells {
  import opened Keys
  import opened Pages
  import opened Sequences
  import opened Tree

  /** The cells with one key, in the order in which they stand. */
  function Only(cells: seq<Cell>, k: Key): seq<Cell> {
    if cells == [] then []
    else
      var c := cells[|cells| - 1];
      Only(cells[..|cells| - 1], k) + if c.key == k then [c] else []
  }

  /** The same cells, ascending, and cells with equal keys in their original order. */
  ghost predicate StablySorted(from: seq<Cell>, to: seq<Cell>) {
    Ascending(to) && forall k :: Only(to, k) == Only(from, k)
  }

  lemma {:induction false} OnlyAppend(a: seq<Cell>, b: seq<Cell>, k: Key)
    ensures Only(a + b, k) == Only(a, k) + Only(b, k)
  {
    if b == [] {
      assert a + b == a;
    } else {
      OnlyAppend(a, b[..|b| - 1], k);
      Snoc(a, b);
    }
  }

  lemma OnlySingle(c: Cell, k: Key)
    ensures Only([c], k) == if c.key == k then [c] else []
  {
    assert [c][..|[c]| - 1] == [];
  }

  lemma {:induction false} OnlyMember(cells: seq<Cell>, x: Cell)
    ensures x in cells <==> x in Only(cells, x.key)
  {
    if cells != [] {
      OnlyMember(cells[..|cells| - 1], x);
      assert cells == cells[..|cells| - 1] + [cells[|cells| - 1]];
    }
  }

  /** Exchanging neighbours with different keys disturbs no group of equal keys. */
  lemma SwapOnly(cells: seq<Cell>, j: nat, k: Key)
    requires j + 1 < |cells| && cells[j].key != cells[j + 1].key
    ensures Only(cells[j := cells[j + 1]][j + 1 := cells[j]], k) == Only(cells, k)
  {
    var a, x, y, b := cells[..j], cells[j], cells[j + 1], cells[j + 2..];
    hide Only;
    CutTwo(cells, j);
    OnlyAppend(a, [x] + ([y] + b), k);
    OnlyAppend(a, [y] + ([x] + b), k);
    SwapFront(x, y, b, k);
  }

  lemma SwapFront(x: Cell, y: Cell, b: seq<Cell>, k: Key)
    requires x.key != y.key
    ensures Only([x] + ([y] + b), k) == Only([y] + ([x] + b), k)
  {
    hide Only;
    OnlyAppend([x], [y] + b, k);
    OnlyAppend([y], [x] + b, k);
    OnlyAppend([x], b, k);
    OnlyAppend([y], b, k);
    OnlySingle(x, k);
    OnlySingle(y, k);
  }

  /** A stable sort has only one possible result. */
  lemma {:induction false} StableSortUnique(a: seq<Cell>, b: seq<Cell>)
    requires Ascending(a) && Ascending(b) && forall k :: Only(a, k) == Only(b, k)
    ensures a == b
  {
    if a == [] || b == [] {
      if a != [] { OnlyMember(a, a[0]); OnlyMember(b, a[0]); }
      if b != [] { OnlyMember(a, b[0]); OnlyMember(b, b[0]); }
    } else {
      var x, y := a[|a| - 1], b[|b| - 1];
      SameLast(a, b);
      var a', b' := a[..|a| - 1], b[..|b| - 1];
      forall k ensures Only(a', k) == Only(b', k) { DropLastOnly(a, b, k); }
      StableSortUnique(a', b');
      assert a == a' + [x] && b == b' + [y];
    }
  }

  lemma SameLast(a: seq<Cell>, b: seq<Cell>)
    requires a != [] && b != [] && Ascending(a) && Ascending(b) && forall k :: Only(a, k) == Only(b, k)
    ensures a[|a| - 1] == b[|b| - 1]
  {
    var x, y := a[|a| - 1], b[|b| - 1];
    OnlyLast(a);
    OnlyLast(b);
    hide Only;
    OnlyMember(b, x);
    OnlyMember(a, y);
    var i :| 0 <= i < |b| && b[i] == x;
    var j :| 0 <= j < |a| && a[j] == y;
    KeyOrder(x.key, y.key);
    assert !Lt(y.key, x.key) && !Lt(x.key, y.key);
  }

  lemma OnlyLast(cells: seq<Cell>)
    requires cells != []
    ensures var x := cells[|cells| - 1];
            var same := Only(cells, x.key);
            x in same && same != [] && same[|same| - 1] == x
  {}

  lemma DropLastOnly(a: seq<Cell>, b: seq<Cell>, k: Key)
    requires a != [] && b != [] && a[|a| - 1] == b[|b| - 1] && Only(a, k) == Only(b, k)
    ensures Only(a[..|a| - 1], k) == Only(b[..|b| - 1], k)
  {
    var a', b' := Only(a[..|a| - 1], k), Only(b[..|b| - 1], k);
    var d := if a[|a| - 1].key == k then [a[|a| - 1]] else [];
    assert a' + d == b' + d;
    assert (a' + d)[..|a'|] == a' && (b' + d)[..|b'|] == b';
  }

  lemma {:induction false} OnlyNone(cells: seq<Cell>, k: Key)
    requires forall i :: 0 <= i < |cells| ==> cells[i].key != k
    ensures Only(cells, k) == []
  {
    if cells != [] { OnlyNone(cells[..|cells| - 1], k); }
  }

  lemma MoveOnly(lo: seq<Cell>, hi: seq<Cell>, c: Cell, k: Key)
    requires k == c.key ==> Only(hi, k) == []
    ensures Only(lo + [c] + hi, k) == Only(lo + hi + [c], k)
  {
    OnlyAppend(lo + [c], hi, k);
    OnlyAppend(lo, [c], k);
    OnlyAppend(lo + hi, [c], k);
    OnlyAppend(lo, hi, k);
    OnlySingle(c, k);
  }

  /** Inserting a cell behind its equals and appending it give the same groups of equal keys. */
  lemma InsertOnly(base: seq<Cell>, c: Cell, k: Key)
    requires Ascending(base)
    ensures Only(Sorted(base, c), k) == Only(base + [c], k)
  {
    hide Only, UpperBound;
    var u := UpperBound(base, c.key);
    if k == c.key { NoneBehind(base, k); }
    MoveOnly(base[..u], base[u..], c, k);
    Cut(base, u);
  }

  lemma NoneBehind(base: seq<Cell>, k: Key)
    requires Ascending(base)
    ensures Only(base[UpperBound(base, k)..], k) == []
  {
    var u := UpperBound(base, k);
    var hi := base[u..];
    forall j | 0 <= j < |hi| ensures hi[j].key != k {
      KeyOrder(base[u].key, k);
      assert hi[j] == base[u + j];
      if j > 0 { assert !Lt(base[u + j].key, base[u].key); }
    }
    OnlyNone(hi, k);
  }

  /**
    Sorting an ascending page with one cell appended is inserting that cell at findInsertPos, so a
    split places the new cell where an insertion without a split would have placed it.
   */
  lemma SortIsInsert(base: seq<Cell>, c: Cell, to: seq<Cell>)
    requires Ascending(base) && StablySorted(base + [c], to)
    ensures to == Sorted(base, c)
  {
    forall k ensures Only(to, k) == Only(Sorted(base, c), k) { InsertOnly(base, c, k); }
    InsertAscending(base, c);
    StableSortUnique(to, Sorted(base, c));
  }

  lemma InsertAscending(base: seq<Cell>, c: Cell)
    requires Ascending(base)
    ensures Ascending(Sorted(base, c))
  {
    var u, ins := UpperBound(base, c.key), Sorted(base, c);
    forall j | u <= j < |base| ensures Lt(c.key, base[j].key) {
      KeyOrder(base[u].key, base[j].key);
      if u < j && base[u].key != base[j].key { KeyTransitive(c.key, base[u].key, base[j].key); }
    }
    forall i, j | 0 <= i < j < |ins| ensures !Lt(ins[j].key, ins[i].key) {
      if i == u { KeyOrder(c.key, ins[j].key); assert ins[j] == base[j - 1]; }
    }
  }

  /** The first `m` cells are no greater than any cell from `m` on, and those ascend. */
  ghost predicate TopSorted(cells: seq<Cell>, m: nat) {
    forall i, j :: 0 <= i < j < |cells| && m <= j ==> !Lt(cells[j].key, cells[i].key)
  }

  method BubbleSort(a: array<Cell>, ghost ints: iset<nat>)
    requires forall i | 0 <= i < a.Length :: Typed(a[i].key, ints)
    modifies a
    ensures StablySorted(old(a[..]), a[..])
  {
    var n := a.Length;
    for i := 0 to n
      invariant forall k | 0 <= k < n :: Typed(a[k].key, ints)
      invariant forall k :: Only(a[..], k) == Only(old(a[..]), k)
      invariant TopSorted(a[..], n - i)
    {
      var j := 0;
      while j < n - 1 - i
        invariant 0 <= j <= n - 1 - i
        invariant forall k | 0 <= k < n :: Typed(a[k].key, ints)
        invariant forall k :: Only(a[..], k) == Only(old(a[..]), k)
        invariant TopSorted(a[..], n - i)
        invariant forall k | 0 <= k < j :: !Lt(a[j].key, a[k].key)
      {
        KeyOrder(a[j].key, a[j + 1].key);
        if Compare(a[j].key, a[j + 1].key) > 0 {
          ghost var before := a[..];
          forall k ensures Only(before[j := before[j + 1]][j + 1 := before[j]], k) == Only(before, k) {
            SwapOnly(before, j, k);
          }
          SwapTop(before, j, n - i);
          a[j], a[j + 1] := a[j + 1], a[j];
          assert a[..] == before[j := before[j + 1]][j + 1 := before[j]];
        } else {
          forall k | 0 <= k < j ensures !Lt(a[j + 1].key, a[k].key) { NotLtTransitive(a[j + 1].key, a[j].key, a[k].key); }
        }
        j := j + 1;
      }
      assert TopSorted(a[..], n - i - 1);
    }
    assert Ascending(a[..]);
  }

  lemma NotLtTransitive(c: Key, b: Key, a: Key)
    requires !Lt(c, b) && !Lt(b, a)
    ensures !Lt(c, a)
  {
    KeyOrder(b, c);
    KeyOrder(a, b);
    if Lt(c, a) {
      if b != c { KeyTransitive(b, c, a); }
    }
  }

  lemma SwapTop(cells: seq<Cell>, j: nat, m: nat)
    requires TopSorted(cells, m) && j + 1 < m <= |cells|
    ensures TopSorted(cells[j := cells[j + 1]][j + 1 := cells[j]], m)
  {}
}
