/** The tree as a table of rows: the sorted list of its cells read as a map, and table scans of it. */
module TreeMap {
  import opened Types
  import opened Keys
  import opened Pages
  import opened Tree
  import opened TreeProofs
  import opened TreeOrder

  /** The map from composite keys to rows that a list of leaf cells stands for. */
  function AsMap(cells: seq<Cell>): map<Key, Row> {
    map i | 0 <= i < |cells| && Find(cells, cells[i].key) == i :: cells[i].key := RowOf(cells[i])
  }

  /** The row of a leaf cell. */
  function RowOf(c: Cell): Row { if c.body.Data? then c.body.row else Row([]) }

  /** What Search returns on a list of cells. */
  function Lookup(cells: seq<Cell>, key: Key): Option<Row> {
    var i := Find(cells, key);
    if i < |cells| then Some(RowOf(cells[i])) else None
  }

  lemma LookupInMap(cells: seq<Cell>, key: Key)
    ensures Lookup(cells, key) == if key in AsMap(cells) then Some(AsMap(cells)[key]) else None
  {
    var i := Find(cells, key);
    if i < |cells| { assert cells[i].key in AsMap(cells); }
  }

  lemma FindSorted(cells: seq<Cell>, i: nat)
    requires SortedCells(cells) && i < |cells|
    ensures Find(cells, cells[i].key) == i
  {
    var f := Find(cells, cells[i].key);
    if f < i { KeyOrder(cells[f].key, cells[i].key); }
  }

  /** Insertion of an absent key into the sorted list is insertion into the map. */
  lemma InsertedMap(cells: seq<Cell>, c: Cell)
    requires SortedCells(cells) && Find(cells, c.key) == |cells|
    ensures var all := Sorted(cells, c);
            SortedCells(all) && AsMap(all) == AsMap(cells)[c.key := RowOf(c)]
  {
    hide AsMap, Lookup, Sorted, UpperBound;
    InsertSorted(cells, c);
    var all := Sorted(cells, c);
    forall k ensures Lookup(all, k) == if k == c.key then Some(RowOf(c)) else Lookup(cells, k) { InsertedLookup(cells, c, k); }
    SameLookups(all, AsMap(cells)[c.key := RowOf(c)], cells, c);
  }

  lemma InsertedLookup(cells: seq<Cell>, c: Cell, k: Key)
    requires Find(cells, c.key) == |cells| && SortedCells(Sorted(cells, c))
    ensures Lookup(Sorted(cells, c), k) == if k == c.key then Some(RowOf(c)) else Lookup(cells, k)
  {
    hide Sorted, UpperBound, SortedCells;
    var u, all := UpperBound(cells, c.key), Sorted(cells, c);
    SortedAt(cells, c);
    if k == c.key {
      FindSorted(all, u);
    } else {
      var i := Find(cells, k);
      if i < |cells| { FindSorted(all, if i < u then i else i + 1); } else { NotFoundInserted(cells, c, k); }
    }
  }

  /** Where the cells stand after an insertion. */
  lemma SortedAt(cells: seq<Cell>, c: Cell)
    ensures var u, all := UpperBound(cells, c.key), Sorted(cells, c);
            && |all| == |cells| + 1 && u <= |cells| && all[u] == c
            && forall i | 0 <= i < |cells| :: all[if i < u then i else i + 1] == cells[i]
  {
    hide UpperBound;
    var u := UpperBound(cells, c.key);
    InsertedAt(cells, u, c);
  }

  lemma InsertedAt(cells: seq<Cell>, u: nat, c: Cell)
    requires u <= |cells|
    ensures var all := InsertAt(cells, u, c);
            && |all| == |cells| + 1 && all[u] == c
            && forall i | 0 <= i < |cells| :: all[if i < u then i else i + 1] == cells[i]
  {
    var all := InsertAt(cells, u, c);
    forall i | 0 <= i < |cells| ensures all[if i < u then i else i + 1] == cells[i] {
      if i >= u { assert cells[u..][i - u] == cells[i]; }
    }
  }

  lemma NotFoundInserted(cells: seq<Cell>, c: Cell, k: Key)
    requires k != c.key && Find(cells, k) == |cells|
    ensures Find(Sorted(cells, c), k) == |cells| + 1
  {
    var u, all := UpperBound(cells, c.key), Sorted(cells, c);
    forall i | 0 <= i < |all| ensures all[i].key != k {
      assert all[i] == if i < u then cells[i] else if i == u then c else cells[i - 1];
    }
  }

  lemma SameLookups(all: seq<Cell>, m: map<Key, Row>, cells: seq<Cell>, c: Cell)
    requires m == AsMap(cells)[c.key := RowOf(c)]
    requires forall k :: Lookup(all, k) == if k == c.key then Some(RowOf(c)) else Lookup(cells, k)
    ensures AsMap(all) == m
  {
    hide AsMap, Lookup;
    forall k ensures k in AsMap(all) <==> k in m { LookupInMap(all, k); LookupInMap(cells, k); }
    forall k | k in m ensures AsMap(all)[k] == m[k] { LookupInMap(all, k); LookupInMap(cells, k); }
  }

  lemma RemovedLookup(cells: seq<Cell>, key: Key, k: Key)
    requires SortedCells(cells) && k != key
    requires var base := Base(cells, key, Updating); SortedCells(base)
    ensures Lookup(Base(cells, key, Updating), k) == Lookup(cells, k)
  {
    var base, f, i := Base(cells, key, Updating), Find(cells, key), Find(cells, k);
    if i < |cells| {
      var j := if i < f then i else i - 1;
      assert base[j] == cells[i];
      FindSorted(base, j);
    } else {
      forall j | 0 <= j < |base| ensures base[j].key != k { assert base[j] == cells[if j < f then j else j + 1]; }
    }
  }

  // ---- A second cell with the same key ----

  lemma FirstIs(cells: seq<Cell>, key: Key, i: nat)
    requires i < |cells| && cells[i].key == key && forall j | 0 <= j < i :: cells[j].key != key
    ensures Find(cells, key) == i
  {}

  /** The new cell goes behind the one that is there. */
  lemma EqualInFront(cells: seq<Cell>, c: Cell)
    requires SortedCells(cells) && Find(cells, c.key) < |cells|
    ensures Find(cells, c.key) < UpperBound(cells, c.key)
  {
    var i, u := Find(cells, c.key), UpperBound(cells, c.key);
    if u < i { KeyOrder(c.key, cells[u].key); }
    if u == i { KeyOrder(c.key, c.key); }
  }

  lemma DuplicateLookup(cells: seq<Cell>, c: Cell, k: Key)
    requires SortedCells(cells) && Find(cells, c.key) < |cells|
    ensures Lookup(Sorted(cells, c), k) == Lookup(cells, k)
  {
    hide Sorted, UpperBound, SortedCells;
    var i := Find(cells, k);
    SortedAt(cells, c);
    EqualInFront(cells, c);
    if i < |cells| {
      DuplicateBefore(cells, c, k, i);
      FirstIs(Sorted(cells, c), k, if i < UpperBound(cells, c.key) then i else i + 1);
    } else {
      DuplicateBefore(cells, c, k, |cells|);
    }
  }

  /** The new cell has the key of a cell in front of it, so the first cell with a key is the one it was. */
  lemma DuplicateBefore(cells: seq<Cell>, c: Cell, k: Key, i: nat)
    requires i <= |cells| && Find(cells, c.key) < UpperBound(cells, c.key) && forall j | 0 <= j < i :: cells[j].key != k
    requires i < |cells| ==> cells[i].key == k
    requires i == |cells| ==> k != c.key
    ensures var u, all := UpperBound(cells, c.key), Sorted(cells, c);
            forall j | 0 <= j < (if i < u then i else i + 1) :: all[j].key != k
  {
    SortedAt(cells, c);
    hide Sorted, UpperBound;
    var u, all := UpperBound(cells, c.key), Sorted(cells, c);
    forall j | 0 <= j < (if i < u then i else i + 1) ensures all[j].key != k {
      if j != u { assert all[j] == cells[if j < u then j else j - 1]; }
    }
  }

  /** Inserting a key that is present changes no lookup, and leaves two cells that are not in strict order. */
  lemma DuplicateMap(cells: seq<Cell>, c: Cell)
    requires SortedCells(cells) && Find(cells, c.key) < |cells|
    ensures AsMap(Sorted(cells, c)) == AsMap(cells) && !SortedCells(Sorted(cells, c))
  {
    var all, i, u := Sorted(cells, c), Find(cells, c.key), UpperBound(cells, c.key);
    SortedAt(cells, c);
    EqualInFront(cells, c);
    KeyOrder(c.key, c.key);
    assert all[i].key == all[u].key == c.key;
    forall k ensures Lookup(all, k) == Lookup(cells, k) { DuplicateLookup(cells, c, k); }
    SameMap(all, cells);
  }

  lemma SameMap(a: seq<Cell>, b: seq<Cell>)
    requires forall k :: Lookup(a, k) == Lookup(b, k)
    ensures AsMap(a) == AsMap(b)
  {
    hide AsMap, Lookup;
    forall k ensures k in AsMap(a) <==> k in AsMap(b) { LookupInMap(a, k); LookupInMap(b, k); }
    forall k | k in AsMap(a) ensures AsMap(a)[k] == AsMap(b)[k] { LookupInMap(a, k); LookupInMap(b, k); }
  }

  /** Removing the cell of a key from the sorted list removes the key from the map, and nothing else. */
  lemma RemovedMap(cells: seq<Cell>, key: Key)
    requires SortedCells(cells)
    ensures var base := Base(cells, key, Updating);
            SortedCells(base) && Find(base, key) == |base| && AsMap(base) == AsMap(cells) - {key}
  {
    var base := Base(cells, key, Updating);
    BaseSorted(cells, key, Updating);
    forall k ensures k in AsMap(base) <==> k in AsMap(cells) - {key} { RemovedAt(cells, key, k); }
    forall k | k in AsMap(base) ensures AsMap(base)[k] == AsMap(cells)[k] { RemovedAt(cells, key, k); }
  }

  lemma RemovedAt(cells: seq<Cell>, key: Key, k: Key)
    requires SortedCells(cells)
    requires var base := Base(cells, key, Updating);
             SortedCells(base) && forall i :: 0 <= i < |base| ==> base[i].key != key
    ensures var m := AsMap(Base(cells, key, Updating));
            && (k in m <==> k in AsMap(cells) && k != key)
            && (k in m ==> m[k] == AsMap(cells)[k])
  {
    LookupInMap(cells, k);
    LookupInMap(Base(cells, key, Updating), k);
    if k != key { RemovedLookup(cells, key, k); }
  }

  /** Replacing the cell of a key that is present replaces its row in the map. */
  lemma UpdatedMap(cells: seq<Cell>, c: Cell)
    requires SortedCells(cells)
    ensures var all := Sorted(Base(cells, c.key, Updating), c);
            SortedCells(all) && AsMap(all) == AsMap(cells)[c.key := RowOf(c)]
  {
    var base := Base(cells, c.key, Updating);
    RemovedMap(cells, c.key);
    InsertedMap(base, c);
    Reinserted(AsMap(cells), AsMap(base), c.key, RowOf(c));
  }

  lemma Reinserted(m: map<Key, Row>, m': map<Key, Row>, k: Key, row: Row)
    requires m' == m - {k}
    ensures m'[k := row] == m[k := row]
  {}

  // ---- Scans ----

  /** The cells of one table, in the order in which they stand. */
  function TableCells(cells: seq<Cell>, table: nat): seq<Cell> {
    if cells == [] then []
    else
      var c := cells[|cells| - 1];
      TableCells(cells[..|cells| - 1], table) + if c.key.table == table then [c] else []
  }

  /** What Scan returns on a list of cells. */
  function TableRows(cells: seq<Cell>, table: nat): seq<Row> {
    var ts := TableCells(cells, table);
    seq(|ts|, i requires 0 <= i < |ts| => RowOf(ts[i]))
  }

  lemma {:induction false} TableCellsAppend(a: seq<Cell>, b: seq<Cell>, table: nat)
    ensures TableCells(a + b, table) == TableCells(a, table) + TableCells(b, table)
  {
    if b == [] {
      assert a + b == a;
    } else {
      TableCellsAppend(a, b[..|b| - 1], table);
      assert (a + b)[..|a + b| - 1] == a + b[..|b| - 1];
    }
  }

  lemma {:induction false} TableCellsMember(cells: seq<Cell>, table: nat, x: Cell)
    ensures x in TableCells(cells, table) <==> x in cells && x.key.table == table
  {
    if cells != [] {
      TableCellsMember(cells[..|cells| - 1], table, x);
      assert cells == cells[..|cells| - 1] + [cells[|cells| - 1]];
    }
  }

  lemma {:induction false} TableCellsSorted(cells: seq<Cell>, table: nat)
    requires SortedCells(cells)
    ensures SortedCells(TableCells(cells, table))
  {
    if cells != [] {
      var before, c := cells[..|cells| - 1], cells[|cells| - 1];
      TableCellsSorted(before, table);
      forall i | 0 <= i < |TableCells(before, table)| ensures Lt(TableCells(before, table)[i].key, c.key) {
        TableCellsMember(before, table, TableCells(before, table)[i]);
      }
    }
  }

  lemma {:induction false} NoTableCells(cells: seq<Cell>, table: nat)
    requires forall i :: 0 <= i < |cells| ==> cells[i].key.table != table
    ensures TableCells(cells, table) == []
  {
    if cells != [] { NoTableCells(cells[..|cells| - 1], table); }
  }

  /**
    A scan gives exactly the rows of the table: its cells ascend strictly by key, each occurs once,
    and a row is found by key exactly when the scan contains it at the position of that key.
   */
  lemma ScanAgreesWithSearch(cells: seq<Cell>, table: nat, pk: Pk, row: Row)
    requires SortedCells(cells)
    ensures var ts, rows := TableCells(cells, table), TableRows(cells, table);
            && SortedCells(ts) && |rows| == |ts|
            && (Lookup(cells, Key(table, pk)) == Some(row)
                <==> exists i :: 0 <= i < |ts| && ts[i].key == Key(table, pk) && rows[i] == row)
  {
    var ts, rows, key := TableCells(cells, table), TableRows(cells, table), Key(table, pk);
    TableCellsSorted(cells, table);
    if Lookup(cells, key) == Some(row) {
      var x := cells[Find(cells, key)];
      TableCellsMember(cells, table, x);
      var i :| 0 <= i < |ts| && ts[i] == x;
      assert rows[i] == row;
    }
    if i :| 0 <= i < |ts| && ts[i].key == key && rows[i] == row {
      TableCellsMember(cells, table, ts[i]);
      var j :| 0 <= j < |cells| && cells[j] == ts[i];
      FindSorted(cells, j);
    }
  }

  // ---- Rows that a leaf split drops ----

  /** The keys of the cells that the halves of the responsible leaf have no room for. */
  function Lost(t: Tree, mode: Mode, c: Cell): set<Key> {
    var l := Target(t, c.key);
    set x | x in Sorted(Base(l.cells, c.key, mode), c) && x !in LeafOut(l, mode, c) :: x.key
  }

  lemma LeafOutCells(l: Tree, mode: Mode, c: Cell)
    requires l.Leaf?
    ensures forall x | x in LeafOut(l, mode, c) :: x in Sorted(Base(l.cells, c.key, mode), c)
  {
    hide Base, Sorted, Kept;
    var all := Sorted(Base(l.cells, c.key, mode), c);
    KeptAreCells(all[..|all| / 2]);
    KeptAreCells(all[|all| / 2..]);
  }

  lemma {:induction false} KeptDrops(cells: seq<Cell>)
    requires SortedCells(cells) && !Fits(cells)
    ensures exists x :: x in cells && x !in Kept(cells)
  {
    var before, c := cells[..|cells| - 1], cells[|cells| - 1];
    KeptAreCells(before);
    forall x | x in before ensures x != c {
      var i :| 0 <= i < |before| && before[i] == x;
      KeyOrder(cells[i].key, c.key);
    }
    KeptAllIffFits(cells);
    assert cells == before + [c];
    if !Fits(before) {
      KeptDrops(before);
      var x :| x in before && x !in Kept(before);
      assert x in cells && x !in Kept(cells);
    } else {
      KeptAllIffFits(before);
      assert c in cells && c !in Kept(cells);
    }
  }

  /** A cell that one of the halves has no room for, if they do not both fit. */
  lemma DroppedCell(x: seq<Cell>, y: seq<Cell>) returns (z: Cell)
    requires SortedCells(x + y) && !(Fits(x) && Fits(y))
    ensures z in x + y && z !in Kept(x) + Kept(y)
  {
    hide Kept, Fits;
    HalfSorted(x, y);
    KeptAreCells(x);
    KeptAreCells(y);
    if !Fits(x) {
      KeptDrops(x);
      z :| z in x && z !in Kept(x);
    } else {
      KeptDrops(y);
      z :| z in y && z !in Kept(y);
    }
    Elsewhere(x, y, z);
  }

  lemma HalfSorted(x: seq<Cell>, y: seq<Cell>)
    requires SortedCells(x + y)
    ensures SortedCells(x) && SortedCells(y)
  {
    var s := x + y;
    forall i, j | 0 <= i < j < |x| ensures Lt(x[i].key, x[j].key) { assert s[i] == x[i] && s[j] == x[j]; }
    forall i, j | 0 <= i < j < |y| ensures Lt(y[i].key, y[j].key) { assert s[|x| + i] == y[i] && s[|x| + j] == y[j]; }
  }

  /** Keys are lost exactly if the halves do not fit. */
  lemma LostIff(t: Tree, mode: Mode, c: Cell)
    requires SortedCells(Sorted(Base(Target(t, c.key).cells, c.key, mode), c))
    ensures Lost(t, mode, c) == {} <==> KeepsAll(t, mode, c)
  {
    hide Kept, Base, Sorted, Fits, SortedCells;
    var l := Target(t, c.key);
    var all := Sorted(Base(l.cells, c.key, mode), c);
    LeafKeeps(l, mode, c);
    if !KeepsAll(t, mode, c) {
      assert all == all[..|all| / 2] + all[|all| / 2..];
      var z := DroppedCell(all[..|all| / 2], all[|all| / 2..]);
      assert z in all && z !in LeafOut(l, mode, c);
      assert z.key in Lost(t, mode, c);
    }
  }

  lemma Elsewhere(x: seq<Cell>, y: seq<Cell>, z: Cell)
    requires SortedCells(x + y)
    ensures z in x ==> z !in y
  {
    if z in x && z in y {
      var i :| 0 <= i < |x| && x[i] == z;
      var j :| 0 <= j < |y| && y[j] == z;
      assert (x + y)[i] == z && (x + y)[|x| + j] == z;
      KeyOrder(z.key, z.key);
    }
  }

  lemma InMap(cells: seq<Cell>, x: Cell)
    requires SortedCells(cells) && x in cells
    ensures x.key in AsMap(cells) && AsMap(cells)[x.key] == RowOf(x)
    ensures forall y | y in cells && y.key == x.key :: y == x
  {
    var i :| 0 <= i < |cells| && cells[i] == x;
    FindSorted(cells, i);
    forall y | y in cells && y.key == x.key ensures y == x {
      var j :| 0 <= j < |cells| && cells[j] == y;
      FindSorted(cells, j);
    }
  }

  /** Without some of its cells a sorted list is the map without their keys. */
  lemma FewerMap(all: seq<Cell>, out: seq<Cell>, gone: set<Key>)
    requires SortedCells(all) && SortedCells(out)
    requires forall x :: x in out <==> x in all && x.key !in gone
    ensures AsMap(out) == AsMap(all) - gone
  {
    forall k | k in AsMap(out) ensures k in AsMap(all) && k !in gone && AsMap(out)[k] == AsMap(all)[k] {
      var x := out[Find(out, k)];
      InMap(out, x);
      InMap(all, x);
    }
    forall k | k in AsMap(all) && k !in gone ensures k in AsMap(out) {
      InMap(out, all[Find(all, k)]);
    }
  }

  /** The cells around those of the leaf stay, and those that are lost are in it alone. */
  lemma SpliceMap(a: seq<Cell>, all: seq<Cell>, out: seq<Cell>, b: seq<Cell>)
    requires SortedCells(a + all + b) && SortedCells(a + out + b) && forall x | x in out :: x in all
    ensures AsMap(a + out + b) == AsMap(a + all + b) - set x | x in all && x !in out :: x.key
  {
    hide AsMap, SortedCells;
    var gone := set x | x in all && x !in out :: x.key;
    forall x ensures x in a + out + b <==> x in a + all + b && x.key !in gone {
      if x in a + all + b && x.key in gone { GoneIsGone(a, all, out, b, x); }
      if x in a + all + b && x !in a + out + b { assert x in all && x !in out; }
    }
    FewerMap(a + all + b, a + out + b, gone);
  }

  lemma GoneIsGone(a: seq<Cell>, all: seq<Cell>, out: seq<Cell>, b: seq<Cell>, x: Cell)
    requires SortedCells(a + all + b) && x in a + all + b && exists y :: y in all && y !in out && y.key == x.key
    ensures x in all && x !in out && x !in a && x !in b
  {
    hide AsMap, SortedCells;
    var y :| y in all && y !in out && y.key == x.key;
    assert y in a + all + b;
    InMap(a + all + b, x);
    assert a + (all + b) == a + all + b;
    Elsewhere(a, all + b, y);
    Elsewhere(a + all, b, y);
  }

  /** Through any cascade of splits the map gains the row, and loses what the leaf's halves have no room for. */
  lemma PutLost(t: Tree, mode: Mode, c: Cell, next: PageId)
    requires Ordered(t, Unbounded, Unbounded) && c.body.Data?
    requires mode.Inserting? ==> Find(Contents(t), c.key) == |Contents(t)|
    ensures AsMap(Contents(PutRoot(t, mode, c, next))) == AsMap(Sorted(Base(Contents(t), c.key, mode), c)) - Lost(t, mode, c)
    ensures Lost(t, mode, c) == {} <==> KeepsAll(t, mode, c)
  {
    hide AsMap, Contents, Sorted, Base, Put, PutRoot, LeafOut, Ordered, Parted;
    var l, t' := Target(t, c.key), PutRoot(t, mode, c, next);
    var all, out := Sorted(Base(l.cells, c.key, mode), c), LeafOut(l, mode, c);
    OrderedParted(t, mode, c.key, Unbounded, Unbounded);
    var a, b := PutSplices(t, mode, c, next);
    PutRootContents(t, mode, c, next);
    PutRootOrdered(t, mode, c, next);
    ContentsSorted(t', Unbounded, Unbounded);
    WholeSorted(t, mode, c);
    LeafOutCells(l, mode, c);
    SpliceMap(a, all, out, b);
    MiddleSorted(a, all, b);
    LostIff(t, mode, c);
  }

  lemma WholeSorted(t: Tree, mode: Mode, c: Cell)
    requires Ordered(t, Unbounded, Unbounded) && c.body.Data?
    requires mode.Inserting? ==> Find(Contents(t), c.key) == |Contents(t)|
    ensures SortedCells(Sorted(Base(Contents(t), c.key, mode), c))
  {
    hide Ordered, Contents, Sorted;
    ContentsSorted(t, Unbounded, Unbounded);
    if mode.Inserting? {
      InsertedMap(Contents(t), c);
    } else {
      RemovedMap(Contents(t), c.key);
      InsertedMap(Base(Contents(t), c.key, mode), c);
    }
  }

  lemma MiddleSorted(a: seq<Cell>, m: seq<Cell>, b: seq<Cell>)
    requires SortedCells(a + m + b)
    ensures SortedCells(m)
  {
    var s := a + m + b;
    forall i, j | 0 <= i < j < |m| ensures Lt(m[i].key, m[j].key) { assert m[i] == s[|a| + i] && m[j] == s[|a| + j]; }
  }
}
