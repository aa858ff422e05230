/**
  Bytes behind page values: encoding a cell and inserting, deleting or patching it in the byte array
  does what Pages says of the page as a value (storage/page/page.go, storage/btree/cell.go).
 */
module PageImages {
  import opened Types
  import opened Keys
  import opened ByteOrder
  import opened Pages
  import C = CellCodec
  import S = SlottedPage

  type Bytes = seq<byte>

  /** Cells whose fields have the widths of the format. */
  predicate CellOk(c: Cell) {
    C.KeyOk(c.key) && match c.body case Data(row) => C.RowOk(row) case Child(id) => id < 0x1_0000_0000
  }

  function EncodeCell(c: Cell): (s: Bytes)
    requires CellOk(c)
    ensures |s| == Size(c)
  {
    match c.body
    case Data(row) => C.EncodeLeaf(c.key, row)
    case Child(id) => C.EncodeInternal(c.key, id)
  }

  function KindByte(kind: PageKind): byte {
    if kind == InternalPage then 0x01 else 0x02
  }

  ghost predicate HeaderIs(d: Bytes, p: Page)
    requires |d| == PAGE_SIZE
  {
    && d[0] == (match p.kind case InternalPage => 0x01 case LeafPage => 0x02)
    && S.Uint(d, 1, 4) == p.id && S.Uint(d, 5, 8) == p.lsn && S.Uint(d, 20, 4) == p.right
  }

  ghost predicate CellsAre(bodies: seq<Bytes>, cells: seq<Cell>) {
    |bodies| == |cells| && forall i | 0 <= i < |cells| :: CellOk(cells[i]) && bodies[i] == EncodeCell(cells[i])
  }

  /** The byte array holds the page value. */
  ghost predicate Holds(d: Bytes, p: Page) {
    S.PageOk(d) && HeaderIs(d, p) && S.Content(d) == p.off && CellsAre(S.Cells(d), p.cells)
  }

  lemma HeaderKept(d: Bytes, e: Bytes, p: Page)
    requires |d| == |e| == PAGE_SIZE && S.SameHeader(d, e) && HeaderIs(d, p)
    ensures HeaderIs(e, p)
  {
    assert d[0] == d[..13][0] == e[..13][0] == e[0];
    assert d[1..5] == d[..13][1..5] == e[..13][1..5] == e[1..5];
    assert d[5..13] == d[..13][5..13] == e[..13][5..13] == e[5..13];
    assert d[20..24] == d[17..HEADER_SIZE][3..7] == e[17..HEADER_SIZE][3..7] == e[20..24];
  }

  method EncodeBytes(c: Cell) returns (s: Bytes)
    requires CellOk(c)
    ensures s == EncodeCell(c)
  {
    match c.body {
      case Data(row) => s := C.EncodeLeafCell(c.key, row);
      case Child(id) =>
        var key := C.EncodeCompositeKey(c.key);
        s := key + C.U32(id);
    }
  }

  /** A page in memory: the bytes, and the value they hold. */
  class PageImage {
    const bytes: S.PageBytes
    ghost var page: Page

    ghost predicate Valid()
      reads this, bytes, bytes.data
    {
      bytes.Valid() && Holds(bytes.Bytes(), page)
    }

    constructor (kind: PageKind, id: PageId)
      requires id < 0x1_0000_0000
      ensures Valid() && page == NewPage(kind, id) && fresh(bytes) && fresh(bytes.data)
    {
      bytes := new S.PageBytes(KindByte(kind), id);
      page := NewPage(kind, id);
    }

    method InsertCellAt(i: nat, c: Cell) returns (ok: bool)
      requires Valid() && i <= |page.cells| && CellOk(c)
      modifies this, bytes.data
      ensures Valid() && page == Pages.InsertCellAt(old(page), i, c) && ok == HasRoom(old(page), c)
    {
      hide S.PageOk, S.Cells, S.Content, S.Count, CellsAre, CellOk, EncodeCell;
      var s := EncodeBytes(c);
      ghost var d := bytes.Bytes();
      CountIs(d, page);
      ok := bytes.InsertCellAt(i, s);
      if ok {
        CellsInserted(S.Cells(d), page.cells, i, c);
        HeaderKept(d, bytes.Bytes(), page);
        page := Pages.InsertCellAt(page, i, c);
      }
    }

    method DeleteCell(i: nat)
      requires Valid() && i < |page.cells|
      modifies this, bytes.data
      ensures Valid() && page == Pages.DeleteCell(old(page), i)
    {
      hide S.PageOk, S.Cells, S.Content, S.Count, CellOk, EncodeCell;
      ghost var d := bytes.Bytes();
      CountIs(d, page);
      bytes.DeleteCell(i);
      HeaderKept(d, bytes.Bytes(), page);
      page := Pages.DeleteCell(page, i);
    }

    /** The in-place patch of a child pointer: same key, so the same length. */
    method PatchChild(i: nat, id: PageId)
      requires Valid() && i < |page.cells| && page.cells[i].body.Child? && id < 0x1_0000_0000
      modifies this, bytes.data
      ensures Valid() && page == old(page).(cells := old(page).cells[i := old(page).cells[i].(body := Child(id))])
    {
      hide S.PageOk, S.Cells, S.Content, S.Count, EncodeCell, CellOk;
      ghost var d := bytes.Bytes();
      CountIs(d, page);
      ghost var c := page.cells[i];
      assert CellOk(c);
      var key, n := ReadKey(i);
      ghost var c' := c.(body := Child(id));
      ChildOk(c, id);
      var s := EncodeBytes(Cell(key, Child(id)));
      bytes.Overwrite(i, 0, s);
      HeaderSame(d, bytes.Bytes(), page);
      WholeCell(S.Cells(d)[i], s);
      page := page.(cells := page.cells[i := c']);
    }

    method ReadKey(i: nat) returns (key: Key, n: nat)
      requires Valid() && i < |page.cells|
      ensures key == page.cells[i].key && n == KeySize(key)
    {
      CountIs(bytes.Bytes(), page);
      var cell := bytes.CellAt(i);
      ghost var c := page.cells[i];
      assert CellOk(c) && cell == EncodeCell(c);
      CellKey(c);
      var r := C.DecodeKey(cell);
      return r.0, r.1;
    }

    method Reset()
      requires Valid()
      modifies this, bytes.data
      ensures Valid() && page == ResetPage(old(page))
    {
      ghost var d := bytes.Bytes();
      bytes.Reset();
      HeaderKept(d, bytes.Bytes(), page);
      page := ResetPage(page);
    }

    method SetLsn(lsn: nat)
      requires Valid() && lsn < Pow256(8)
      modifies this, bytes.data
      ensures Valid() && page == old(page).(lsn := lsn)
    {
      ghost var d := bytes.Bytes();
      bytes.SetField(5, 8, lsn);
      FieldSet(d, 5, 8, lsn, page);
      page := page.(lsn := lsn);
    }

    method SetRightmostChild(id: PageId)
      requires Valid() && id < Pow256(4)
      modifies this, bytes.data
      ensures Valid() && page == old(page).(right := id)
    {
      ghost var d := bytes.Bytes();
      bytes.SetField(20, 4, id);
      FieldSet(d, 20, 4, id, page);
      page := page.(right := id);
    }
  }

  lemma CellsInserted(bodies: seq<Bytes>, cells: seq<Cell>, i: nat, c: Cell)
    requires CellsAre(bodies, cells) && i <= |cells| && CellOk(c)
    ensures |bodies| == |cells| && CellsAre(S.InsertedAt(bodies, i, EncodeCell(c)), InsertAt(cells, i, c))
  {}

  lemma CountIs(d: Bytes, p: Page)
    requires Holds(d, p)
    ensures S.Count(d) == |p.cells|
  {}

  lemma HeaderSame(d: Bytes, e: Bytes, p: Page)
    requires |d| == |e| == PAGE_SIZE && e[..HEADER_SIZE] == d[..HEADER_SIZE] && HeaderIs(d, p)
    ensures HeaderIs(e, p) && S.Content(e) == S.Content(d)
  {
    S.HeaderFields(d, e);
    HeaderKept(d, e, p);
  }

  lemma ChildOk(c: Cell, id: PageId)
    requires CellOk(c) && c.body.Child? && id < 0x1_0000_0000
    ensures var c' := c.(body := Child(id)); CellOk(c') && |EncodeCell(c')| == |EncodeCell(c)|
  {}

  lemma WholeCell(a: Bytes, s: Bytes)
    requires |a| == |s|
    ensures S.With(a, 0, s) == s
  {}

  /** The key can be read off either kind of cell. */
  lemma CellKey(c: Cell)
    requires CellOk(c)
    ensures C.HasKey(EncodeCell(c)) && C.DecodeKey(EncodeCell(c)) == (c.key, KeySize(c.key))
  {
    match c.body
    case Data(row) => C.LeafParts(c.key, row);
    case Child(id) => C.InternalRoundTrip(c.key, id);
  }

  lemma FieldSet(d: Bytes, at: nat, width: nat, n: nat, p: Page)
    requires |d| == PAGE_SIZE && n < Pow256(width) && HeaderIs(d, p)
    requires (at == 5 && width == 8) || (at == 20 && width == 4)
    ensures var e := S.With(d, at, PutUint(n, width));
            HeaderIs(e, if at == 5 then p.(lsn := n) else p.(right := n))
  {
    var s := PutUint(n, width);
    S.WithElsewhere(d, at, s, 0, 1);
    S.WithElsewhere(d, at, s, 1, 5);
    if at == 5 { S.WithElsewhere(d, at, s, 20, 24); } else { S.WithElsewhere(d, at, s, 5, 13); }
    S.WithHere(d, at, s);
    GetPut(n, width);
    assert S.With(d, at, s)[0..1] == d[0..1];
  }
}
