/**
  The slotted page as a value: a header, an ordered list of cells, and the offset where cell
  bodies begin (storage/page/page.go). SlottedPage.dfy shows that the byte array behaves this way.
 */
module Pages {
  import opened Types
  import opened Keys

  const PAGE_SIZE: nat := 4096
  const HEADER_SIZE: nat := 24
  const SLOT_SIZE: nat := 4

  /** Bytes of a page available to slots and cell bodies. */
  const CAPACITY: nat := PAGE_SIZE - HEADER_SIZE

  /** The sentinel that marks the absence of a page. */
  const NO_PAGE: nat := 0xFFFF_FFFF

  type PageId = nat

  datatype PageKind = InternalPage | LeafPage

  /** What follows the composite key in a cell: a row in a leaf, a child page in an internal page. */
  datatype Body = Data(row: Row) | Child(id: PageId)

  datatype Cell = Cell(key: Key, body: Body)

  /**
    `off` is the cell content offset; `right` is the rightmost child of an internal page and the
    next leaf of a leaf page.
   */
  datatype Page = Page(kind: PageKind, id: PageId, lsn: nat, cells: seq<Cell>, off: int, right: PageId)

  // ---- Cell sizes ----

  function KeySize(k: Key): nat {
    match k.pk
    case IntKey(_) => 13
    case StrKey(s) => 7 + |s|
  }

  function ValueSize(v: Value): nat {
    match v
    case IntValue(_) => 8
    case StringValue(s) => 2 + |s|
    case BoolValue(_) => 1
    case NullValue => 0
  }

  function ValuesSize(vs: seq<Value>): nat {
    if vs == [] then 0 else ValueSize(vs[0]) + ValuesSize(vs[1..])
  }

  function BitmapSize(columns: nat): nat {
    if columns > 8 then 2 else 1
  }

  /** The number of bytes encodeLeafCell or encodeInternalCell produces; CellCodec proves it. */
  function Size(c: Cell): (n: nat)
    ensures n > 0
  {
    match c.body
    case Data(row) => KeySize(c.key) + BitmapSize(|row.values|) + 2 * |row.values| + ValuesSize(row.values)
    case Child(_) => KeySize(c.key) + 4
  }

  /** Bytes one cell takes from a page, its slot included. */
  function Weight(c: Cell): nat {
    Size(c) + SLOT_SIZE
  }

  function TotalSize(cells: seq<Cell>): nat {
    if cells == [] then 0 else TotalSize(cells[..|cells| - 1]) + Size(cells[|cells| - 1])
  }

  /** Whether an empty page can hold all of the cells. */
  predicate Fits(cells: seq<Cell>) {
    TotalSize(cells) + SLOT_SIZE * |cells| <= CAPACITY
  }

  // ---- Page operations ----

  function NewPage(kind: PageKind, id: PageId): Page {
    Page(kind, id, 0, [], PAGE_SIZE, 0)
  }

  function FreeSpace(p: Page): int {
    p.off - (HEADER_SIZE + SLOT_SIZE * |p.cells|)
  }

  /** The test with which InsertCellAt refuses a cell. */
  predicate HasRoom(p: Page, c: Cell) {
    FreeSpace(p) >= Size(c) + SLOT_SIZE
  }

  function InsertAt(cells: seq<Cell>, i: nat, c: Cell): seq<Cell>
    requires i <= |cells|
  {
    cells[..i] + [c] + cells[i..]
  }

  function RemoveAt(cells: seq<Cell>, i: nat): seq<Cell>
    requires i < |cells|
  {
    cells[..i] + cells[i + 1..]
  }

  /** InsertCellAt: a refused cell leaves the page as it was. */
  function InsertCellAt(p: Page, i: nat, c: Cell): Page
    requires i <= |p.cells|
  {
    if HasRoom(p, c) then p.(cells := InsertAt(p.cells, i, c), off := p.off - Size(c)) else p
  }

  function AddCell(p: Page, c: Cell): Page {
    InsertCellAt(p, |p.cells|, c)
  }

  /** DeleteCell closes the slot array but reclaims no body bytes. */
  function DeleteCell(p: Page, i: nat): Page
    requires i < |p.cells|
  {
    p.(cells := RemoveAt(p.cells, i))
  }

  /** resetPage: no cells and all body bytes free; the header's other fields stay. */
  function ResetPage(p: Page): Page {
    p.(cells := [], off := PAGE_SIZE)
  }

  /** Two pages equal up to the LSN, the header field that redo images carry one write late. */
  predicate SameButLsn(p: Page, q: Page) {
    p.(lsn := 0) == q.(lsn := 0)
  }

  // ---- Filling an emptied page: the splits ignore AddCell's result ----

  /** The cells that survive when each is offered to an emptied page and refusals are ignored. */
  function Kept(cells: seq<Cell>): seq<Cell> {
    if cells == [] then []
    else
      var before := Kept(cells[..|cells| - 1]);
      var c := cells[|cells| - 1];
      if TotalSize(before) + SLOT_SIZE * |before| + Weight(c) <= CAPACITY then before + [c] else before
  }

  /** Offering one more cell to a page that holds what has been kept so far. */
  lemma KeptStep(p: Page, cells: seq<Cell>, i: nat)
    requires i < |cells| && p.cells == Kept(cells[..i]) && p.off == PAGE_SIZE - TotalSize(Kept(cells[..i]))
    ensures var kept := Kept(cells[..i + 1]); AddCell(p, cells[i]) == p.(cells := kept, off := PAGE_SIZE - TotalSize(kept))
  {
    assert cells[..i + 1][..i] == cells[..i];
    var before, c := Kept(cells[..i]), cells[i];
    assert (before + [c])[..|before|] == before;
    assert InsertAt(before, |before|, c) == before + [c];
  }

  lemma {:induction false} KeptFits(cells: seq<Cell>)
    ensures Fits(Kept(cells))
  {
    if cells != [] {
      var before, c := Kept(cells[..|cells| - 1]), cells[|cells| - 1];
      KeptFits(cells[..|cells| - 1]);
      assert (before + [c])[..|before|] == before;
    }
  }

  lemma {:induction false} KeptAreCells(cells: seq<Cell>)
    ensures forall x | x in Kept(cells) :: x in cells
  {
    if cells != [] { KeptAreCells(cells[..|cells| - 1]); }
  }

  lemma {:induction false} KeptIsNoLonger(cells: seq<Cell>)
    ensures |Kept(cells)| <= |cells|
  {
    if cells != [] { KeptIsNoLonger(cells[..|cells| - 1]); }
  }

  /** Nothing is lost in a fill exactly when the cells fit together in one page. */
  lemma {:induction false} KeptAllIffFits(cells: seq<Cell>)
    ensures Kept(cells) == cells <==> Fits(cells)
  {
    if cells != [] {
      var before := cells[..|cells| - 1];
      KeptAllIffFits(before);
      KeptIsNoLonger(before);
      assert cells == before + [cells[|cells| - 1]];
      if Kept(cells) == cells {
        assert Kept(before) == before by {
          assert |Kept(cells)| == |before| + 1;
          assert Kept(cells)[..|before|] == before;
          assert Kept(cells) == Kept(before) + [cells[|cells| - 1]];
          assert Kept(cells)[..|before|] == Kept(before);
        }
      }
    }
  }

  lemma {:induction false} TotalSizeAppend(a: seq<Cell>, b: seq<Cell>)
    ensures TotalSize(a + b) == TotalSize(a) + TotalSize(b)
  {
    if b == [] {
      assert a + b == a;
    } else {
      var b0 := b[..|b| - 1];
      TotalSizeAppend(a, b0);
      assert (a + b)[..|a + b| - 1] == a + b0;
    }
  }
}
