/**
  The slotted page as bytes (storage/page/page.go): a header, a slot array growing up, cell bodies
  growing down. Offsets and lengths are two-byte fields.
 */
module SlottedPage {
  import opened Types
  import opened ByteOrder
  import opened Pages

  type Bytes = seq<byte>

  // ---- Reading fields ----

  function Uint(d: Bytes, at: nat, width: nat): nat
    requires at + width <= |d|
  {
    GetUint(d[at..at + width])
  }

  function Count(d: Bytes): nat
    requires |d| == PAGE_SIZE
  {
    Uint(d, 13, 2)
  }

  function Content(d: Bytes): nat
    requires |d| == PAGE_SIZE
  {
    Uint(d, 15, 2)
  }

  function SlotAt(i: nat): nat { HEADER_SIZE + i * SLOT_SIZE }

  /** Offset and length of a cell body. */
  function Slot(d: Bytes, i: nat): (nat, nat)
    requires |d| == PAGE_SIZE && SlotAt(i + 1) <= PAGE_SIZE
  {
    (Uint(d, SlotAt(i), 2), Uint(d, SlotAt(i) + 2, 2))
  }

  predicate SlotOk(d: Bytes, i: nat)
    requires |d| == PAGE_SIZE && SlotAt(i + 1) <= PAGE_SIZE
  {
    Content(d) <= Slot(d, i).0 && Slot(d, i).1 > 0 && Slot(d, i).0 + Slot(d, i).1 <= PAGE_SIZE
  }

  predicate Apart(a: (nat, nat), b: (nat, nat)) {
    a.0 + a.1 <= b.0 || b.0 + b.1 <= a.0
  }

  /** Free space is not negative, every body lies behind it, and no two live bodies overlap. */
  ghost predicate PageOk(d: Bytes) {
    && |d| == PAGE_SIZE && SlotAt(Count(d)) <= Content(d) <= PAGE_SIZE
    && (forall i | 0 <= i < Count(d) :: SlotOk(d, i))
    && forall i, j | 0 <= i < j < Count(d) :: Apart(Slot(d, i), Slot(d, j))
  }

  function BodyAt(d: Bytes, s: (nat, nat)): Bytes
    requires s.0 + s.1 <= |d|
  {
    d[s.0..s.0 + s.1]
  }

  /** The page as the list of its cells. */
  ghost function Cells(d: Bytes): (cells: seq<Bytes>)
    requires PageOk(d)
    ensures |cells| == Count(d)
  {
    seq(Count(d), i requires 0 <= i < Count(d) => assert SlotOk(d, i); BodyAt(d, Slot(d, i)))
  }

  // ---- Writing fields ----

  function U16(n: nat): (s: Bytes)
    requires n < 0x1_0000
    ensures |s| == 2
  {
    Widths();
    PutUint(n, 2)
  }

  function With(d: Bytes, at: nat, s: Bytes): (r: Bytes)
    requires at + |s| <= |d|
    ensures |r| == |d|
  {
    d[..at] + s + d[at + |s|..]
  }

  lemma WithElsewhere(d: Bytes, at: nat, s: Bytes, a: nat, b: nat)
    requires at + |s| <= |d| && a <= b <= |d| && (b <= at || at + |s| <= a)
    ensures With(d, at, s)[a..b] == d[a..b]
  {}

  lemma WithHere(d: Bytes, at: nat, s: Bytes)
    requires at + |s| <= |d|
    ensures With(d, at, s)[at..at + |s|] == s
  {}

  lemma UintHere(d: Bytes, at: nat, n: nat)
    requires at + 2 <= |d| && n < 0x1_0000
    ensures Uint(With(d, at, U16(n)), at, 2) == n
  {
    Widths();
    WithHere(d, at, U16(n));
    GetPut(n, 2);
  }

  lemma SlotElsewhere(d: Bytes, at: nat, s: Bytes, k: nat)
    requires |d| == PAGE_SIZE && at + |s| <= PAGE_SIZE && SlotAt(k + 1) <= PAGE_SIZE
    requires at + |s| <= SlotAt(k) || SlotAt(k + 1) <= at
    ensures Slot(With(d, at, s), k) == Slot(d, k)
  {
    WithElsewhere(d, at, s, SlotAt(k), SlotAt(k) + 2);
    WithElsewhere(d, at, s, SlotAt(k) + 2, SlotAt(k) + 4);
  }

  function WithSlot(d: Bytes, i: nat, off: nat, len: nat): (r: Bytes)
    requires |d| == PAGE_SIZE && SlotAt(i + 1) <= PAGE_SIZE && off < 0x1_0000 && len < 0x1_0000
    ensures |r| == PAGE_SIZE
  {
    With(With(d, SlotAt(i), U16(off)), SlotAt(i) + 2, U16(len))
  }

  /** Setting a slot sets that slot and no other, and nothing outside the slot array. */
  lemma WithSlotFacts(d: Bytes, i: nat, off: nat, len: nat)
    requires |d| == PAGE_SIZE && SlotAt(i + 1) <= PAGE_SIZE && off < 0x1_0000 && len < 0x1_0000
    ensures Slot(WithSlot(d, i, off, len), i) == (off, len)
    ensures forall j: nat | j != i && SlotAt(j + 1) <= PAGE_SIZE :: Slot(WithSlot(d, i, off, len), j) == Slot(d, j)
    ensures WithSlot(d, i, off, len)[..HEADER_SIZE] == d[..HEADER_SIZE]
    ensures WithSlot(d, i, off, len)[SlotAt(i + 1)..] == d[SlotAt(i + 1)..]
  {
    var d1 := With(d, SlotAt(i), U16(off));
    UintHere(d, SlotAt(i), off);
    UintHere(d1, SlotAt(i) + 2, len);
    WithElsewhere(d1, SlotAt(i) + 2, U16(len), SlotAt(i), SlotAt(i) + 2);
    forall j: nat | j != i && SlotAt(j + 1) <= PAGE_SIZE ensures Slot(WithSlot(d, i, off, len), j) == Slot(d, j) {
      SlotElsewhere(d, SlotAt(i), U16(off), j);
      SlotElsewhere(d1, SlotAt(i) + 2, U16(len), j);
    }
  }

  lemma HeaderFields(a: Bytes, b: Bytes)
    requires |a| == |b| == PAGE_SIZE && a[..HEADER_SIZE] == b[..HEADER_SIZE]
    ensures Count(a) == Count(b) && Content(a) == Content(b) && SameHeader(a, b)
  {
    SameSlice(a, b, HEADER_SIZE, 0, 13);
    SameSlice(a, b, HEADER_SIZE, 17, HEADER_SIZE);
    SameSlice(a, b, HEADER_SIZE, 13, 15);
    SameSlice(a, b, HEADER_SIZE, 15, 17);
  }

  lemma SameSlice(a: Bytes, b: Bytes, n: nat, i: nat, j: nat)
    requires i <= j <= n <= |a| && n <= |b| && a[..n] == b[..n]
    ensures a[i..j] == b[i..j]
  {
    assert a[i..j] == a[..n][i..j];
    assert b[i..j] == b[..n][i..j];
  }

  /** The header fields other than the cell count and the content offset. */
  ghost predicate SameHeader(a: Bytes, b: Bytes)
    requires |a| == |b| == PAGE_SIZE
  {
    a[..13] == b[..13] && a[17..HEADER_SIZE] == b[17..HEADER_SIZE]
  }

  // ---- What insertion and deletion do to the cells ----

  function InsertedAt(cells: seq<Bytes>, i: nat, c: Bytes): seq<Bytes>
    requires i <= |cells|
  {
    cells[..i] + [c] + cells[i..]
  }

  /** `e` is `d` with one more slot at `i`, for a body placed right below the others. */
  ghost predicate Inserted(d: Bytes, e: Bytes, i: nat, cell: Bytes)
    requires PageOk(d) && |e| == PAGE_SIZE
  {
    && i <= Count(d) && |cell| > 0 && SlotAt(Count(d) + 1) + |cell| <= Content(d)
    && Count(e) == Count(d) + 1 && Content(e) == Content(d) - |cell|
    && (forall k | 0 <= k < i :: Slot(e, k) == Slot(d, k))
    && Slot(e, i) == (Content(e), |cell|)
    && (forall k | i < k <= Count(d) :: Slot(e, k) == Slot(d, k - 1))
    && e[Content(e)..Content(d)] == cell && e[Content(d)..] == d[Content(d)..]
  }

  lemma SameBody(d: Bytes, e: Bytes, s: (nat, nat), from: nat)
    requires |d| == |e| && from <= s.0 && s.0 + s.1 <= |d| && d[from..] == e[from..]
    ensures BodyAt(d, s) == BodyAt(e, s)
  {
    forall k | s.0 <= k < s.0 + s.1 ensures d[k] == e[k] {
      assert d[k] == d[from..][k - from] == e[from..][k - from] == e[k];
    }
    var a, b := d[s.0..s.0 + s.1], e[s.0..s.0 + s.1];
    assert |a| == |b| && forall k | 0 <= k < |a| :: a[k] == d[s.0 + k] == e[s.0 + k] == b[k];
  }

  lemma InsertedOk(d: Bytes, e: Bytes, i: nat, cell: Bytes)
    requires PageOk(d) && |e| == PAGE_SIZE && Inserted(d, e, i, cell)
    ensures PageOk(e)
  {
    forall k | 0 <= k < Count(e) ensures SlotOk(e, k) {
      if k < i { assert SlotOk(d, k); } else if k > i { assert SlotOk(d, k - 1); }
    }
    forall j, k | 0 <= j < k < Count(e) ensures Apart(Slot(e, j), Slot(e, k)) {
      InsertedApart(d, e, i, cell, j, k);
    }
  }

  lemma InsertedApart(d: Bytes, e: Bytes, i: nat, cell: Bytes, j: nat, k: nat)
    requires PageOk(d) && |e| == PAGE_SIZE && Inserted(d, e, i, cell) && j < k < Count(e)
    ensures Apart(Slot(e, j), Slot(e, k))
  {
    var j0, k0 := if j < i then j else j - 1, if k < i then k else k - 1;
    if j == i {
      assert SlotOk(d, k0);
    } else if k == i {
      assert SlotOk(d, j0);
    } else {
      assert Apart(Slot(d, j0), Slot(d, k0));
    }
  }

  lemma InsertedCells(d: Bytes, e: Bytes, i: nat, cell: Bytes)
    requires PageOk(d) && PageOk(e) && Inserted(d, e, i, cell)
    ensures Cells(e) == InsertedAt(Cells(d), i, cell)
  {
    hide Slot;
    var a, b := Cells(e), InsertedAt(Cells(d), i, cell);
    forall k | 0 <= k < |a| ensures a[k] == b[k] {
      if k != i {
        var k0 := if k < i then k else k - 1;
        assert SlotOk(d, k0);
        SameBody(d, e, Slot(d, k0), Content(d));
      }
    }
  }

  /** `e` is `d` without slot `i`. */
  ghost predicate Deleted(d: Bytes, e: Bytes, i: nat)
    requires PageOk(d) && |e| == PAGE_SIZE
  {
    && i < Count(d) && Count(e) == Count(d) - 1 && Content(e) == Content(d)
    && (forall k | 0 <= k < i :: Slot(e, k) == Slot(d, k))
    && (forall k | i <= k < Count(e) :: Slot(e, k) == Slot(d, k + 1))
    && e[Content(d)..] == d[Content(d)..]
  }

  lemma DeletedOk(d: Bytes, e: Bytes, i: nat)
    requires PageOk(d) && |e| == PAGE_SIZE && Deleted(d, e, i)
    ensures PageOk(e)
  {
    hide Slot;
    forall k | 0 <= k < Count(e) ensures SlotOk(e, k) { assert SlotOk(d, if k < i then k else k + 1); }
    forall j, k | 0 <= j < k < Count(e) ensures Apart(Slot(e, j), Slot(e, k)) {
      assert Apart(Slot(d, if j < i then j else j + 1), Slot(d, if k < i then k else k + 1));
    }
  }

  lemma DeletedCells(d: Bytes, e: Bytes, i: nat)
    requires PageOk(d) && PageOk(e) && Deleted(d, e, i)
    ensures Cells(e) == Cells(d)[..i] + Cells(d)[i + 1..]
  {
    hide Slot;
    var a, b := Cells(e), Cells(d)[..i] + Cells(d)[i + 1..];
    forall k | 0 <= k < |a| ensures a[k] == b[k] {
      var k0 := if k < i then k else k + 1;
      assert SlotOk(d, k0);
      SameBody(d, e, Slot(d, k0), Content(d));
    }
  }

  lemma OverwrittenSlots(d: Bytes, from: nat, s: Bytes)
    requires PageOk(d) && Content(d) <= from && from + |s| <= PAGE_SIZE
    ensures var e := With(d, from, s);
            && e[..HEADER_SIZE] == d[..HEADER_SIZE] && PageOk(e) && Count(e) == Count(d)
            && forall k | 0 <= k < Count(d) :: Slot(e, k) == Slot(d, k)
  {
    var e := With(d, from, s);
    assert e[..HEADER_SIZE] == d[..HEADER_SIZE];
    HeaderFields(d, e);
    forall k | 0 <= k < Count(d) ensures Slot(e, k) == Slot(d, k) { SlotElsewhere(d, from, s, k); }
    forall k | 0 <= k < Count(e) ensures SlotOk(e, k) { assert SlotOk(d, k); }
    forall j, k | 0 <= j < k < Count(e) ensures Apart(Slot(e, j), Slot(e, k)) { assert Apart(Slot(d, j), Slot(d, k)); }
  }

  lemma OverwrittenBody(d: Bytes, a: (nat, nat), at: nat, s: Bytes)
    requires a.0 + a.1 <= |d| && at + |s| <= a.1
    ensures BodyAt(With(d, a.0 + at, s), a) == With(BodyAt(d, a), at, s)
  {}

  lemma OtherBody(d: Bytes, a: (nat, nat), b: (nat, nat), at: nat, s: Bytes)
    requires a.0 + a.1 <= |d| && b.0 + b.1 <= |d| && at + |s| <= a.1 && Apart(a, b)
    ensures BodyAt(With(d, a.0 + at, s), b) == BodyAt(d, b)
  {
    WithElsewhere(d, a.0 + at, s, b.0, b.0 + b.1);
  }

  /** Overwriting part of one body changes that cell and, bodies being disjoint, no other. */
  lemma Overwritten(d: Bytes, i: nat, at: nat, s: Bytes)
    requires PageOk(d) && i < Count(d) && at + |s| <= |Cells(d)[i]|
    ensures Slot(d, i).0 + at + |s| <= PAGE_SIZE
    ensures var e := With(d, Slot(d, i).0 + at, s);
            && PageOk(e) && e[..HEADER_SIZE] == d[..HEADER_SIZE]
            && Cells(e) == Cells(d)[i := With(Cells(d)[i], at, s)]
  {
    assert SlotOk(d, i);
    var from := Slot(d, i).0 + at;
    OverwrittenSlots(d, from, s);
    var e := With(d, from, s);
    hide With, Slot, PageOk;
    var a, b := Cells(e), Cells(d)[i := With(Cells(d)[i], at, s)];
    forall k | 0 <= k < Count(d) ensures a[k] == b[k] { OverwrittenCell(d, e, i, at, s, k); }
  }

  lemma CellIs(d: Bytes, k: nat)
    requires PageOk(d) && k < Count(d)
    ensures |d| == PAGE_SIZE && SlotAt(k + 1) <= PAGE_SIZE
    ensures Slot(d, k).0 + Slot(d, k).1 <= PAGE_SIZE && Cells(d)[k] == BodyAt(d, Slot(d, k))
  {
    assert SlotOk(d, k);
  }

  lemma BodiesApart(d: Bytes, i: nat, k: nat)
    requires PageOk(d) && i < Count(d) && k < Count(d) && i != k
    ensures Apart(Slot(d, i), Slot(d, k))
  {
    assert Apart(Slot(d, if k < i then k else i), Slot(d, if k < i then i else k));
  }

  lemma OverwrittenCell(d: Bytes, e: Bytes, i: nat, at: nat, s: Bytes, k: nat)
    requires PageOk(d) && PageOk(e) && i < Count(d) == Count(e) && k < Count(d) && at + |s| <= |Cells(d)[i]|
    requires Slot(e, k) == Slot(d, k) && Slot(d, i).0 + at + |s| <= PAGE_SIZE && e == With(d, Slot(d, i).0 + at, s)
    ensures Cells(e)[k] == if k == i then With(Cells(d)[i], at, s) else Cells(d)[k]
  {
    hide Slot, With, PageOk, Cells, Count;
    CellIs(d, i);
    CellIs(d, k);
    CellIs(e, k);
    if k != i {
      BodiesApart(d, i, k);
      OtherBody(d, Slot(d, i), Slot(d, k), at, s);
    } else {
      OverwrittenBody(d, Slot(d, i), at, s);
    }
  }

  lemma {:induction false} ZeroUint(s: Bytes)
    requires forall i | 0 <= i < |s| :: s[i] == 0
    ensures GetUint(s) == 0
  {
    if s != [] { ZeroUint(s[..|s| - 1]); }
  }

  lemma NoCells(d: Bytes)
    requires |d| == PAGE_SIZE && Count(d) == 0 && Content(d) == PAGE_SIZE
    ensures PageOk(d) && Cells(d) == []
  {}

  lemma SizesOk(d: Bytes)
    requires PageOk(d)
    ensures SlotAt(Count(d)) <= Content(d) <= PAGE_SIZE
  {}

  // ---- Shifting slots ----

  /** Slots `i` to `n - 1` have moved up by one; slot `i` is still as it was. */
  ghost predicate ShiftedUp(a: Bytes, b: Bytes, i: nat, n: nat)
    requires |a| == |b| == PAGE_SIZE && SlotAt(n + 1) <= PAGE_SIZE
  {
    && (forall k | 0 <= k <= i && k < n :: Slot(b, k) == Slot(a, k))
    && (forall k | i < k <= n :: Slot(b, k) == Slot(a, k - 1))
    && b[..HEADER_SIZE] == a[..HEADER_SIZE] && b[SlotAt(n + 1)..] == a[SlotAt(n + 1)..]
  }

  /** Slots `i + 1` to `n - 1` have moved down by one. */
  ghost predicate ShiftedDown(a: Bytes, b: Bytes, i: nat, n: nat)
    requires |a| == |b| == PAGE_SIZE && SlotAt(n) <= PAGE_SIZE
  {
    && (forall k | 0 <= k < i && k < n :: Slot(b, k) == Slot(a, k))
    && (forall k | i <= k < n - 1 :: Slot(b, k) == Slot(a, k + 1))
    && b[..HEADER_SIZE] == a[..HEADER_SIZE] && b[SlotAt(n)..] == a[SlotAt(n)..]
  }

  /** What InsertCellAt writes, part by part, amounts to an insertion. */
  lemma InsertedBytes(d: Bytes, d2: Bytes, d3: Bytes, e: Bytes, i: nat, cell: Bytes)
    requires PageOk(d) && |d2| == |d3| == |e| == PAGE_SIZE
    requires i <= Count(d) && |cell| > 0 && SlotAt(Count(d) + 1) + |cell| <= Content(d)
    requires var off := Content(d) - |cell|;
             && d2 == With(With(d, off, cell), 15, U16(off))
             && ShiftedUp(d2, d3, i, Count(d))
             && e == With(WithSlot(d3, i, off, |cell|), 13, U16(Count(d) + 1))
    ensures Inserted(d, e, i, cell) && SameHeader(d, e)
  {
    SizesOk(d);
    var n, off := Count(d), Content(d) - |cell|;
    var d4 := WithSlot(d3, i, off, |cell|);
    hide PageOk, With, WithSlot, Slot, U16, Uint, SameHeader;
    InsertedFields(d, d2, d3, d4, e, i, cell);
    InsertedTail(d, d2, d3, d4, e, i, cell);
    BodyBesideSlots(d, off, cell, n);
    hide ShiftedUp;
    InsertedSlots(d, d2, d3, i, n, off, |cell|);
  }

  /** The slots once they have moved up, the new one is set, and the counter counts it. */
  lemma InsertedSlots(d: Bytes, d2: Bytes, d3: Bytes, i: nat, n: nat, off: nat, len: nat)
    requires |d| == |d2| == |d3| == PAGE_SIZE && SlotAt(n + 1) <= PAGE_SIZE && i <= n && off < 0x1_0000 && len < 0x1_0000
    requires ShiftedUp(d2, d3, i, n) && forall k | 0 <= k < n :: Slot(d2, k) == Slot(d, k)
    ensures var e := With(WithSlot(d3, i, off, len), 13, U16(n + 1));
            && (forall k | 0 <= k < i :: Slot(e, k) == Slot(d, k)) && Slot(e, i) == (off, len)
            && (forall k | i < k <= n :: Slot(e, k) == Slot(d, k - 1))
  {
    var d4 := WithSlot(d3, i, off, len);
    hide With, WithSlot, Slot, U16, Uint;
    var e := With(d4, 13, U16(n + 1));
    WithSlotFacts(d3, i, off, len);
    CountBesideSlots(d4, n);
    forall k | 0 <= k < i ensures Slot(e, k) == Slot(d, k) { assert Slot(e, k) == Slot(d4, k) == Slot(d3, k) == Slot(d2, k); }
    forall k | i < k <= n ensures Slot(e, k) == Slot(d, k - 1) { assert Slot(e, k) == Slot(d4, k) == Slot(d3, k) == Slot(d2, k - 1); }
  }

  /** Neither the new body nor the two counters touch the slots. */
  lemma BodyBesideSlots(d: Bytes, off: nat, cell: Bytes, n: nat)
    requires |d| == PAGE_SIZE && SlotAt(n) <= off && off + |cell| <= PAGE_SIZE
    ensures forall k | 0 <= k < n :: Slot(With(With(d, off, cell), 15, U16(off)), k) == Slot(d, k)
  {
    forall k | 0 <= k < n ensures Slot(With(With(d, off, cell), 15, U16(off)), k) == Slot(d, k) {
      hide With, Slot, U16;
      SlotElsewhere(d, off, cell, k);
      SlotElsewhere(With(d, off, cell), 15, U16(off), k);
    }
  }

  lemma CountBesideSlots(d: Bytes, n: nat)
    requires |d| == PAGE_SIZE && SlotAt(n + 1) <= PAGE_SIZE
    ensures forall k | 0 <= k <= n :: Slot(With(d, 13, U16(n + 1)), k) == Slot(d, k)
  {
    forall k | 0 <= k <= n ensures Slot(With(d, 13, U16(n + 1)), k) == Slot(d, k) {
      hide With, Slot, U16;
      SlotElsewhere(d, 13, U16(n + 1), k);
    }
  }

  lemma InsertedFields(d: Bytes, d2: Bytes, d3: Bytes, d4: Bytes, e: Bytes, i: nat, cell: Bytes)
    requires |d| == |d2| == |d3| == |e| == PAGE_SIZE
    requires i <= Count(d) && |cell| > 0 && SlotAt(Count(d) + 1) + |cell| <= Content(d) <= PAGE_SIZE
    requires var off := Content(d) - |cell|;
             && d2 == With(With(d, off, cell), 15, U16(off))
             && d3[..HEADER_SIZE] == d2[..HEADER_SIZE]
             && d4 == WithSlot(d3, i, off, |cell|)
             && e == With(d4, 13, U16(Count(d) + 1))
    ensures Count(e) == Count(d) + 1 && Content(e) == Content(d) - |cell| && SameHeader(d, e)
  {
    var n, off := Count(d), Content(d) - |cell|;
    var d1 := With(d, off, cell);
    WithSlotFacts(d3, i, off, |cell|);
    UintHere(d4, 13, n + 1);
    UintHere(d1, 15, off);
    HeaderFields(d2, d3);
    HeaderFields(d3, d4);
    WithElsewhere(d4, 13, U16(n + 1), 15, 17);
    hide U16, With, WithSlot, Uint;
    SameHeaderWith(d, off, cell);
    SameHeaderWith(d1, 15, U16(off));
    SameHeaderWith(d4, 13, U16(n + 1));
  }

  /** Writing the two counters or the rest of the page leaves the other header fields alone. */
  lemma SameHeaderWith(d: Bytes, at: nat, s: Bytes)
    requires |d| == PAGE_SIZE && at + |s| <= PAGE_SIZE
    requires (13 <= at && at + |s| <= 17) || HEADER_SIZE <= at
    ensures SameHeader(d, With(d, at, s))
  {
    WithElsewhere(d, at, s, 0, 13);
    WithElsewhere(d, at, s, 17, HEADER_SIZE);
  }

  lemma InsertedTail(d: Bytes, d2: Bytes, d3: Bytes, d4: Bytes, e: Bytes, i: nat, cell: Bytes)
    requires |d| == |d2| == |d3| == |e| == PAGE_SIZE
    requires i <= Count(d) && |cell| > 0 && SlotAt(Count(d) + 1) + |cell| <= Content(d) <= PAGE_SIZE
    requires var off := Content(d) - |cell|;
             && d2 == With(With(d, off, cell), 15, U16(off))
             && d3[SlotAt(Count(d) + 1)..] == d2[SlotAt(Count(d) + 1)..]
             && d4 == WithSlot(d3, i, off, |cell|)
             && e == With(d4, 13, U16(Count(d) + 1))
    ensures e[Content(d) - |cell|..Content(d)] == cell && e[Content(d)..] == d[Content(d)..]
  {
    var n, content := Count(d), Content(d);
    var off, from := content - |cell|, SlotAt(n + 1);
    WithSlotFacts(d3, i, off, |cell|);
    assert e[from..] == d2[from..] by {
      assert d4[from..] == d4[SlotAt(i + 1)..][from - SlotAt(i + 1)..] == d3[SlotAt(i + 1)..][from - SlotAt(i + 1)..] == d3[from..];
    }
    assert d2[off..] == With(d, off, cell)[off..] == cell + d[content..];
    assert e[off..] == e[from..][off - from..] == d2[off..];
    assert e[off..content] == e[off..][..|cell|] && e[content..] == e[off..][|cell|..];
  }

  /** What DeleteCell writes, part by part, amounts to a deletion. */
  lemma DeletedBytes(d: Bytes, d2: Bytes, e: Bytes, i: nat)
    requires PageOk(d) && |d2| == |e| == PAGE_SIZE && i < Count(d)
    requires ShiftedDown(d, d2, i, Count(d)) && e == With(d2, 13, U16(Count(d) - 1))
    ensures Deleted(d, e, i) && SameHeader(d, e)
  {
    var n := Count(d);
    UintHere(d2, 13, n - 1);
    HeaderFields(d, d2);
    WithElsewhere(d2, 13, U16(n - 1), 15, 17);
    forall k | 0 <= k < n - 1 ensures Slot(e, k) == Slot(d2, k) { SlotElsewhere(d2, 13, U16(n - 1), k); }
    assert e[..13] == d2[..HEADER_SIZE][..13] == d[..13];
    assert e[17..HEADER_SIZE] == d2[..HEADER_SIZE][17..] == d[17..HEADER_SIZE];
    var from := SlotAt(n);
    assert e[Content(d)..] == d2[from..][Content(d) - from..] == d[Content(d)..];
  }

  // ---- The code ----

  class PageBytes {
    const data: array<byte>

    ghost predicate Valid()
      reads data
    {
      data.Length == PAGE_SIZE && PageOk(data[..])
    }

    ghost function Bytes(): Bytes
      reads data
    {
      data[..]
    }

    /** NewPage: everything zero but the kind, the id and the content offset. */
    constructor (kind: byte, id: nat)
      requires id < 0x1_0000_0000
      ensures Valid() && fresh(data) && Cells(Bytes()) == []
      ensures data[0] == kind && Uint(Bytes(), 1, 4) == id && Content(Bytes()) == PAGE_SIZE
      ensures Uint(Bytes(), 5, 8) == 0 && Uint(Bytes(), 20, 4) == 0
    {
      data := new byte[PAGE_SIZE](i => 0);
      new;
      Widths();
      data[0] := kind;
      ghost var d0 := data[..];
      PutUintAt(data, 1, 4, id);
      ghost var d1 := data[..];
      WithHere(d0, 1, PutUint(id, 4));
      GetPut(id, 4);
      PutU16(15, PAGE_SIZE);
      UintHere(d1, 15, PAGE_SIZE);
      WithElsewhere(d1, 15, U16(PAGE_SIZE), 1, 5);
      WithElsewhere(d1, 15, U16(PAGE_SIZE), 13, 15);
      WithElsewhere(d0, 1, PutUint(id, 4), 13, 15);
      WithElsewhere(d1, 15, U16(PAGE_SIZE), 5, 13);
      WithElsewhere(d0, 1, PutUint(id, 4), 5, 13);
      WithElsewhere(d1, 15, U16(PAGE_SIZE), 20, 24);
      WithElsewhere(d0, 1, PutUint(id, 4), 20, 24);
      ZeroUint(d0[13..15]);
      ZeroUint(d0[5..13]);
      ZeroUint(d0[20..24]);
      NoCells(data[..]);
    }

    method GetUintAt(at: nat, width: nat) returns (n: nat)
      requires at + width <= data.Length
      ensures n == Uint(Bytes(), at, width)
    {
      n := GetUint(data[at..at + width]);
      assert data[at..at + width] == data[..][at..at + width];
    }

    method CellCount() returns (n: nat)
      requires data.Length == PAGE_SIZE
      ensures n == Count(Bytes())
    {
      n := GetUintAt(13, 2);
    }

    method FreeSpace() returns (n: int)
      requires data.Length == PAGE_SIZE
      ensures n == Content(Bytes()) - SlotAt(Count(Bytes()))
    {
      var count := GetUintAt(13, 2);
      var content := GetUintAt(15, 2);
      return content - (HEADER_SIZE + count * SLOT_SIZE);
    }

    method GetSlot(i: nat) returns (off: nat, len: nat)
      requires data.Length == PAGE_SIZE && SlotAt(i + 1) <= PAGE_SIZE
      ensures (off, len) == Slot(Bytes(), i)
    {
      off := GetUintAt(SlotAt(i), 2);
      len := GetUintAt(SlotAt(i) + 2, 2);
    }

    method SetSlot(i: nat, off: nat, len: nat)
      requires data.Length == PAGE_SIZE && SlotAt(i + 1) <= PAGE_SIZE && off < 0x1_0000 && len < 0x1_0000
      modifies data
      ensures Bytes() == WithSlot(old(Bytes()), i, off, len)
    {
      PutU16(SlotAt(i), off);
      PutU16(SlotAt(i) + 2, len);
    }

    method PutU16(at: nat, n: nat)
      requires at + 2 <= data.Length && n < 0x1_0000
      modifies data
      ensures Bytes() == With(old(Bytes()), at, U16(n))
    {
      Widths();
      PutUintAt(data, at, 2, n);
    }

    /** CellAt: the body a slot points to. */
    method CellAt(i: nat) returns (cell: Bytes)
      requires Valid() && i < Count(Bytes())
      ensures cell == Cells(Bytes())[i]
    {
      assert SlotOk(Bytes(), i);
      var off, len := GetSlot(i);
      cell := data[off..off + len];
      assert cell == BodyAt(data[..], (off, len));
    }

    /** Refuses an empty cell and one that does not fit, and is insertion at the index otherwise. */
    method InsertCellAt(i: nat, cell: Bytes) returns (ok: bool)
      requires Valid() && i <= Count(Bytes())
      modifies data
      ensures Valid()
      ensures ok <==> 0 < |cell| && |cell| + SLOT_SIZE <= old(Content(Bytes()) - SlotAt(Count(Bytes())))
      ensures !ok ==> Bytes() == old(Bytes())
      ensures ok ==> Cells(Bytes()) == InsertedAt(old(Cells(Bytes())), i, cell)
      ensures ok ==> Content(Bytes()) == old(Content(Bytes())) - |cell| && SameHeader(old(Bytes()), Bytes())
    {
      hide PageOk, Cells, Inserted, Uint;
      ghost var d := data[..];
      var n := CellCount();
      var room := FreeSpace();
      if |cell| == 0 || room < |cell| + SLOT_SIZE { return false; }
      SizesOk(d);
      var content := GetUintAt(15, 2);
      Place(i, n, content - |cell|, cell);
      InsertedOk(d, data[..], i, cell);
      InsertedCells(d, data[..], i, cell);
      InsertedContent(d, data[..], i, cell);
      return true;
    }

    /** The body, the content offset, the slots and the cell count of an insertion that fits. */
    method Place(i: nat, n: nat, newOff: nat, cell: Bytes)
      requires Valid() && i <= n == Count(Bytes()) && |cell| > 0
      requires SlotAt(n + 1) <= newOff && newOff + |cell| == Content(Bytes())
      modifies data
      ensures data.Length == PAGE_SIZE && PageOk(old(Bytes()))
      ensures Inserted(old(Bytes()), Bytes(), i, cell) && SameHeader(old(Bytes()), Bytes())
    {
      hide Slot, U16, Uint, Inserted, ShiftedUp;
      ghost var d := data[..];
      SizesOk(d);
      CopyAt(data, newOff, cell);
      PutU16(15, newOff);
      ghost var d2 := data[..];
      ShiftUp(i, n);
      ghost var d3 := data[..];
      SetSlot(i, newOff, |cell|);
      PutU16(13, n + 1);
      InsertedBytes(d, d2, d3, data[..], i, cell);
    }

    /** From the last slot down, so that none is overwritten before it has moved. */
    method ShiftUp(i: nat, n: nat)
      requires data.Length == PAGE_SIZE && i <= n && SlotAt(n + 1) <= PAGE_SIZE
      modifies data
      ensures ShiftedUp(old(Bytes()), Bytes(), i, n)
    {
      hide Slot, WithSlot;
      var j := n;
      while j > i
        invariant i <= j <= n && ShiftedUp(old(Bytes()), Bytes(), j, n)
      {
        j := j - 1;
        ghost var d := data[..];
        var off, len := GetSlot(j);
        SlotRange(d, j);
        SetSlot(j + 1, off, len);
        WithSlotFacts(d, j + 1, off, len);
        TailTail(d, data[..], SlotAt(j + 2), SlotAt(n + 1));
      }
    }

    method ShiftDown(i: nat, n: nat)
      requires data.Length == PAGE_SIZE && i < n && SlotAt(n) <= PAGE_SIZE
      modifies data
      ensures ShiftedDown(old(Bytes()), Bytes(), i, n)
    {
      hide Slot, WithSlot;
      for j := i to n - 1
        invariant forall k | 0 <= k < i :: Slot(Bytes(), k) == Slot(old(Bytes()), k)
        invariant forall k | i <= k < j :: Slot(Bytes(), k) == Slot(old(Bytes()), k + 1)
        invariant forall k | j <= k < n :: Slot(Bytes(), k) == Slot(old(Bytes()), k)
        invariant Bytes()[..HEADER_SIZE] == old(Bytes())[..HEADER_SIZE] && Bytes()[SlotAt(n)..] == old(Bytes())[SlotAt(n)..]
      {
        ghost var d := data[..];
        var off, len := GetSlot(j + 1);
        SlotRange(d, j + 1);
        SetSlot(j, off, len);
        WithSlotFacts(d, j, off, len);
        TailTail(d, data[..], SlotAt(j + 1), SlotAt(n));
      }
    }

    /** Closes the gap in the slot array; the body stays where it is. */
    method DeleteCell(i: nat)
      requires Valid() && i < Count(Bytes())
      modifies data
      ensures Valid() && Cells(Bytes()) == old(Cells(Bytes()))[..i] + old(Cells(Bytes()))[i + 1..]
      ensures Content(Bytes()) == old(Content(Bytes())) && SameHeader(old(Bytes()), Bytes())
    {
      hide Cells, Slot, U16, GetUint, PutUint, Pow256, Deleted;
      ghost var d := data[..];
      var n := CellCount();
      ShiftDown(i, n);
      ghost var d2 := data[..];
      PutU16(13, n - 1);
      DeletedBytes(d, d2, data[..], i);
      DeletedOk(d, data[..], i);
      DeletedCells(d, data[..], i);
      DeletedContent(d, data[..], i);
    }

    /** Writes into the slice CellAt returns, which is a view of the page. */
    method Overwrite(i: nat, at: nat, s: Bytes)
      requires Valid() && i < Count(Bytes()) && at + |s| <= |Cells(Bytes())[i]|
      modifies data
      ensures Valid() && Bytes()[..HEADER_SIZE] == old(Bytes())[..HEADER_SIZE]
      ensures Cells(Bytes()) == old(Cells(Bytes()))[i := With(old(Cells(Bytes()))[i], at, s)]
    {
      Overwritten(data[..], i, at, s);
      var off, len := GetSlot(i);
      CopyAt(data, off + at, s);
    }

    /** resetPage: zeroes everything behind the header and the two counters. */
    method Reset()
      requires data.Length == PAGE_SIZE
      modifies data
      ensures Valid() && Cells(Bytes()) == [] && Content(Bytes()) == PAGE_SIZE && SameHeader(old(Bytes()), Bytes())
    {
      hide U16, GetUint, PutUint, Pow256, PageOk, Cells;
      for i := HEADER_SIZE to PAGE_SIZE
        invariant data[..HEADER_SIZE] == old(data[..])[..HEADER_SIZE]
      {
        data[i] := 0;
      }
      ghost var d := data[..];
      HeaderFields(old(data[..]), d);
      PutU16(13, 0);
      ghost var d1 := data[..];
      PutU16(15, PAGE_SIZE);
      UintHere(d, 13, 0);
      UintHere(d1, 15, PAGE_SIZE);
      WithElsewhere(d1, 15, U16(PAGE_SIZE), 13, 15);
      SameHeaderWith(d, 13, U16(0));
      SameHeaderWith(d1, 15, U16(PAGE_SIZE));
      NoCells(data[..]);
    }

    /** Writes one of the other header fields: the kind, the page id, the LSN or the right pointer. */
    method SetField(at: nat, width: nat, n: nat)
      requires Valid() && n < Pow256(width)
      requires at + width <= 13 || (17 <= at && at + width <= HEADER_SIZE)
      modifies data
      ensures Valid() && Bytes() == With(old(Bytes()), at, PutUint(n, width))
      ensures Cells(Bytes()) == old(Cells(Bytes())) && Content(Bytes()) == old(Content(Bytes()))
    {
      ghost var d := data[..];
      PutUintAt(data, at, width, n);
      FieldOnly(d, at, PutUint(n, width));
    }
  }

  lemma FieldOnly(d: Bytes, at: nat, s: Bytes)
    requires PageOk(d) && (at + |s| <= 13 || (17 <= at && at + |s| <= HEADER_SIZE))
    ensures var e := With(d, at, s); PageOk(e) && Cells(e) == Cells(d) && Content(e) == Content(d)
  {
    hide Slot, With;
    var e := With(d, at, s);
    WithElsewhere(d, at, s, 13, 15);
    WithElsewhere(d, at, s, 15, 17);
    forall k | 0 <= k < Count(d) ensures Slot(e, k) == Slot(d, k) { SlotElsewhere(d, at, s, k); }
    forall k | 0 <= k < Count(d) ensures SlotOk(e, k) { assert SlotOk(d, k); }
    forall j, k | 0 <= j < k < Count(d) ensures Apart(Slot(e, j), Slot(e, k)) { assert Apart(Slot(d, j), Slot(d, k)); }
    WithTail(d, at, s, HEADER_SIZE);
    forall k | 0 <= k < Count(d) ensures Cells(e)[k] == Cells(d)[k] {
      assert SlotOk(d, k);
      SameBody(d, e, Slot(d, k), HEADER_SIZE);
    }
  }

  lemma WithTail(d: Bytes, at: nat, s: Bytes, from: nat)
    requires at + |s| <= from <= |d|
    ensures With(d, at, s)[from..] == d[from..]
  {}

  lemma SlotRange(d: Bytes, i: nat)
    requires |d| == PAGE_SIZE && SlotAt(i + 1) <= PAGE_SIZE
    ensures Slot(d, i).0 < 0x1_0000 && Slot(d, i).1 < 0x1_0000
  {
    Widths();
  }

  lemma TailTail(a: Bytes, b: Bytes, from: nat, to: nat)
    requires |a| == |b| && from <= to <= |a| && a[from..] == b[from..]
    ensures a[to..] == b[to..]
  {
    assert a[to..] == a[from..][to - from..] && b[to..] == b[from..][to - from..];
  }

  lemma InsertedContent(d: Bytes, e: Bytes, i: nat, cell: Bytes)
    requires PageOk(d) && |e| == PAGE_SIZE && Inserted(d, e, i, cell)
    ensures Content(e) == Content(d) - |cell|
  {}

  lemma DeletedContent(d: Bytes, e: Bytes, i: nat)
    requires PageOk(d) && |e| == PAGE_SIZE && Deleted(d, e, i)
    ensures Content(e) == Content(d)
  {}
}
