/** The bytes of keys, values and cells (storage/btree/cell.go). */
module CellCodec {
  import opened Types
  import opened Keys
  import opened Pages
  import opened ByteOrder

  type Bytes = seq<byte>

  datatype ColumnType = IntType | VarcharType | BoolType

  type Schema = seq<ColumnType>

  const MAX_COLUMNS: nat := 16

  predicate IsUint16(n: nat) { n < 0x1_0000 }

  function U16(n: nat): (s: Bytes)
    requires IsUint16(n)
    ensures |s| == 2
  {
    Widths();
    PutUint(n, 2)
  }

  function U32(n: nat): (s: Bytes)
    requires n < 0x1_0000_0000
    ensures |s| == 4
  {
    Widths();
    PutUint(n, 4)
  }

  function I64(i: int): (s: Bytes)
    requires IsInt64(i)
    ensures |s| == 8
  {
    Widths();
    PutUint(ToUint64(i), 8)
  }

  function GetI64(s: Bytes): int
    requires |s| == 8
  {
    Widths();
    ToInt64(GetUint(s))
  }

  lemma I64RoundTrip(i: int)
    requires IsInt64(i)
    ensures GetI64(I64(i)) == i
  {
    Widths();
    GetPut(ToUint64(i), 8);
  }

  lemma UintRoundTrip(n: nat)
    ensures n < 0x1_0000 ==> GetUint(U16(n)) == n
    ensures n < 0x1_0000_0000 ==> GetUint(U32(n)) == n
  {
    Widths();
    if n < 0x1_0000 { GetPut(n, 2); }
    if n < 0x1_0000_0000 { GetPut(n, 4); }
  }

  // ---- Composite keys ----

  /** Keys whose fields fit: a 32-bit table id, a 64-bit integer or a string of at most 65535 bytes. */
  predicate KeyOk(k: Key) {
    k.table < 0x1_0000_0000 && match k.pk case IntKey(i) => IsInt64(i) case StrKey(s) => IsUint16(|s|)
  }

  function EncodeKey(k: Key): (s: Bytes)
    requires KeyOk(k)
    ensures |s| == KeySize(k)
  {
    U32(k.table) + match k.pk case IntKey(i) => [0x01] + I64(i) case StrKey(str) => [0x02] + U16(|str|) + str
  }

  /** Enough bytes for the key that the tag and the length announce; the code panics on fewer. */
  predicate HasKey(b: Bytes) {
    || (|b| >= 13 && b[4] == 0x01)
    || (|b| >= 7 && b[4] == 0x02 && |b| >= 7 + GetUint(b[5..7]))
  }

  /** The key, and the number of bytes it takes. */
  function DecodeKey(b: Bytes): (r: (Key, nat))
    requires HasKey(b)
    ensures r.1 <= |b|
  {
    var table := GetUint(b[0..4]);
    if b[4] == 0x01 then (Key(table, IntKey(GetI64(b[5..13]))), 13)
    else
      var n := GetUint(b[5..7]);
      (Key(table, StrKey(b[7..7 + n])), 7 + n)
  }

  /** Keys delimit themselves: whatever follows, the same key and its length are read. */
  lemma KeyRoundTrip(k: Key, rest: Bytes)
    requires KeyOk(k)
    ensures HasKey(EncodeKey(k) + rest) && DecodeKey(EncodeKey(k) + rest) == (k, KeySize(k))
  {
    var b := EncodeKey(k) + rest;
    UintRoundTrip(k.table);
    assert b[0..4] == U32(k.table);
    match k.pk
    case IntKey(i) =>
      I64RoundTrip(i);
      assert b[4] == 0x01 && b[5..13] == I64(i);
    case StrKey(str) =>
      UintRoundTrip(|str|);
      assert b[4] == 0x02 && b[5..7] == U16(|str|) && b[7..7 + |str|] == str;
  }

  // ---- Values ----

  predicate ValueOk(v: Value) {
    match v
    case IntValue(i) => IsInt64(i)
    case StringValue(s) => IsUint16(|s|)
    case _ => true
  }

  predicate HasType(v: Value, t: ColumnType) {
    match v
    case IntValue(_) => t == IntType
    case StringValue(_) => t == VarcharType
    case BoolValue(_) => t == BoolType
    case NullValue => true
  }

  function EncodeValue(v: Value): (s: Bytes)
    requires ValueOk(v)
    ensures |s| == ValueSize(v)
  {
    match v
    case IntValue(i) => I64(i)
    case StringValue(str) => U16(|str|) + str
    case BoolValue(b) => [if b then 1 else 0]
    case NullValue => []
  }

  predicate HasValue(b: Bytes, t: ColumnType) {
    match t
    case IntType => |b| >= 8
    case VarcharType => |b| >= 2 && |b| >= 2 + GetUint(b[0..2])
    case BoolType => |b| >= 1
  }

  function DecodeValue(b: Bytes, t: ColumnType): Value
    requires HasValue(b, t)
  {
    match t
    case IntType => IntValue(GetI64(b[0..8]))
    case VarcharType => StringValue(b[2..2 + GetUint(b[0..2])])
    case BoolType => BoolValue(b[0] == 1)
  }

  lemma ValueRoundTrip(v: Value, t: ColumnType, rest: Bytes)
    requires ValueOk(v) && HasType(v, t) && !v.NullValue?
    ensures HasValue(EncodeValue(v) + rest, t) && DecodeValue(EncodeValue(v) + rest, t) == v
  {
    var b := EncodeValue(v) + rest;
    match v
    case IntValue(i) =>
      I64RoundTrip(i);
      assert b[0..8] == I64(i);
    case StringValue(s) =>
      UintRoundTrip(|s|);
      assert b[0..2] == U16(|s|) && b[2..2 + |s|] == s;
    case BoolValue(_) =>
  }

  // ---- The NULL bitmap ----

  /** Bit `k` of a number, and the number with that bit set. */
  predicate Bit(n: nat, k: nat) {
    if k == 0 then n % 2 == 1 else Bit(n / 2, k - 1)
  }

  function OrBit(n: nat, k: nat): nat {
    if k == 0 then (if n % 2 == 1 then n else n + 1) else n % 2 + 2 * OrBit(n / 2, k - 1)
  }

  lemma {:induction false} OrBitSets(n: nat, k: nat, j: nat)
    ensures Bit(OrBit(n, k), j) <==> j == k || Bit(n, j)
  {
    if k > 0 && j > 0 {
      OrBitSets(n / 2, k - 1, j - 1);
      assert OrBit(n, k) / 2 == OrBit(n / 2, k - 1);
    } else if k == 0 && j > 0 {
      assert OrBit(n, 0) / 2 == n / 2;
    }
  }

  lemma {:induction false} NoBits(j: nat)
    ensures !Bit(0, j)
  {
    if j > 0 { NoBits(j - 1); }
  }

  function Pow2(k: nat): nat {
    if k == 0 then 1 else 2 * Pow2(k - 1)
  }

  lemma {:induction false} OrBitSize(n: nat, k: nat, width: nat)
    requires n < Pow2(width) && k < width
    ensures OrBit(n, k) < Pow2(width)
  {
    if k > 0 { OrBitSize(n / 2, k - 1, width - 1); }
  }

  /** Two bytes with the same bits are equal. */
  lemma {:induction false} BitsDecide(a: nat, b: nat, width: nat)
    requires a < Pow2(width) && b < Pow2(width) && forall j: nat | j < width :: Bit(a, j) <==> Bit(b, j)
    ensures a == b
  {
    if width > 0 {
      assert Bit(a, 0) <==> Bit(b, 0);
      forall j: nat | j < width - 1 ensures Bit(a / 2, j) <==> Bit(b / 2, j) {
        assert Bit(a, j + 1) <==> Bit(b, j + 1);
      }
      BitsDecide(a / 2, b / 2, width - 1);
    }
  }

  predicate IsNull(values: seq<Value>, i: nat) {
    i < |values| && values[i].NullValue?
  }

  /** The byte whose bit `j` says whether value `from + j` is NULL. */
  function NullByte(values: seq<Value>, from: nat, bits: nat): (b: nat)
    ensures b < Pow2(bits)
    decreases bits
  {
    if bits == 0 then 0
    else (if IsNull(values, from) then 1 else 0) + 2 * NullByte(values, from + 1, bits - 1)
  }

  lemma LowBit(low: nat, high: nat)
    requires low < 2
    ensures (low + 2 * high) % 2 == low && (low + 2 * high) / 2 == high
  {}

  lemma {:induction false} NullByteBit(values: seq<Value>, from: nat, bits: nat, j: nat)
    requires j < bits
    ensures Bit(NullByte(values, from, bits), j) <==> IsNull(values, from + j)
    decreases bits
  {
    var low, high := if IsNull(values, from) then 1 else 0, NullByte(values, from + 1, bits - 1);
    LowBit(low, high);
    if j > 0 { NullByteBit(values, from + 1, bits - 1, j - 1); }
  }

  lemma EightBits()
    ensures Pow2(8) == 256
  {
    assert Pow2(4) == 16;
  }

  function Bitmap(values: seq<Value>): (b: Bytes)
    ensures |b| == BitmapSize(|values|)
  {
    EightBits();
    if |values| > 8 then [NullByte(values, 0, 8), NullByte(values, 8, 8)] else [NullByte(values, 0, 8)]
  }

  lemma BitmapSays(values: seq<Value>, i: nat)
    requires i < |values| <= MAX_COLUMNS
    ensures Bit(Bitmap(values)[i / 8], i % 8) <==> values[i].NullValue?
  {
    hide NullByte, Bit;
    if i < 8 { NullByteBit(values, 0, 8, i); } else { NullByteBit(values, 8, 8, i - 8); }
  }

  // ---- Rows ----

  predicate ValuesOk(values: seq<Value>) {
    forall i | 0 <= i < |values| :: ValueOk(values[i])
  }

  predicate RowOk(row: Row) {
    |row.values| <= MAX_COLUMNS && ValuesOk(row.values)
  }

  /** Column data, one column after the other; a NULL takes no bytes. */
  function ColumnData(values: seq<Value>): (s: Bytes)
    requires ValuesOk(values)
    ensures |s| == ValuesSize(values)
  {
    if values == [] then [] else EncodeValue(values[0]) + ColumnData(values[1..])
  }

  /** Where each column's data begins, counted from the start of the cell, in two bytes each. */
  function Offsets(pos: nat, values: seq<Value>): (s: Bytes)
    ensures |s| == 2 * |values|
    decreases |values|
  {
    if values == [] then [] else U16(pos % 0x1_0000) + Offsets(pos + ValueSize(values[0]), values[1..])
  }

  function DataStart(k: Key, columns: nat): nat {
    KeySize(k) + BitmapSize(columns) + 2 * columns
  }

  function EncodeLeaf(k: Key, row: Row): (s: Bytes)
    requires KeyOk(k) && RowOk(row)
    ensures |s| == Size(Cell(k, Data(row)))
  {
    EncodeKey(k) + Bitmap(row.values) + Offsets(DataStart(k, |row.values|), row.values) + ColumnData(row.values)
  }

  function EncodeInternal(k: Key, child: PageId): (s: Bytes)
    requires KeyOk(k) && child < 0x1_0000_0000
    ensures |s| == Size(Cell(k, Child(child)))
  {
    EncodeKey(k) + U32(child)
  }

  function BitmapOf(cell: Bytes, columns: nat): Bytes
    requires HasKey(cell) && DecodeKey(cell).1 + BitmapSize(columns) <= |cell|
  {
    cell[DecodeKey(cell).1..DecodeKey(cell).1 + BitmapSize(columns)]
  }

  predicate NullAt(cell: Bytes, columns: nat, i: nat)
    requires HasKey(cell) && DecodeKey(cell).1 + BitmapSize(columns) <= |cell| && i < columns <= MAX_COLUMNS
  {
    Bit(BitmapOf(cell, columns)[i / 8], i % 8)
  }

  function OffsetAt(cell: Bytes, columns: nat, i: nat): nat
    requires HasKey(cell) && DecodeKey(cell).1 + BitmapSize(columns) + 2 * columns <= |cell| && i < columns
  {
    var at := DecodeKey(cell).1 + BitmapSize(columns) + 2 * i;
    GetUint(cell[at..at + 2])
  }

  /** Every column that is not NULL can be read; the code panics on other cells. */
  ghost predicate HasRow(cell: Bytes, schema: Schema) {
    var n := |schema|;
    && n <= MAX_COLUMNS && HasKey(cell) && DecodeKey(cell).1 + BitmapSize(n) + 2 * n <= |cell|
    && forall i | 0 <= i < n && !NullAt(cell, n, i) ::
         OffsetAt(cell, n, i) <= |cell| && HasValue(cell[OffsetAt(cell, n, i)..], schema[i])
  }

  ghost function ColumnAt(cell: Bytes, schema: Schema, i: nat): Value
    requires HasRow(cell, schema) && i < |schema|
  {
    if NullAt(cell, |schema|, i) then NullValue else DecodeValue(cell[OffsetAt(cell, |schema|, i)..], schema[i])
  }

  ghost function DecodeRow(cell: Bytes, schema: Schema): Row
    requires HasRow(cell, schema)
  {
    Row(seq(|schema|, i requires 0 <= i < |schema| => ColumnAt(cell, schema, i)))
  }

  ghost predicate WellTyped(row: Row, schema: Schema) {
    |row.values| == |schema| && forall i | 0 <= i < |schema| :: HasType(row.values[i], schema[i])
  }

  lemma {:induction false} OffsetOf(pos: nat, values: seq<Value>, i: nat)
    requires i < |values|
    ensures Offsets(pos, values)[2 * i..2 * i + 2] == U16((pos + ValuesSize(values[..i])) % 0x1_0000)
    decreases |values|
  {
    if i > 0 {
      OffsetOf(pos + ValueSize(values[0]), values[1..], i - 1);
      assert values[..i][1..] == values[1..][..i - 1];
      assert Offsets(pos, values)[2 * i..2 * i + 2] ==
             Offsets(pos + ValueSize(values[0]), values[1..])[2 * (i - 1)..2 * (i - 1) + 2];
    }
  }

  lemma {:induction false} DataOf(values: seq<Value>, i: nat)
    requires i < |values| && ValuesOk(values)
    ensures ValuesSize(values[..i]) <= |ColumnData(values)|
    ensures ValueOk(values[i]) && ValuesOk(values[i + 1..])
    ensures ColumnData(values)[ValuesSize(values[..i])..] == EncodeValue(values[i]) + ColumnData(values[i + 1..])
  {
    hide EncodeValue;
    if i > 0 {
      DataOf(values[1..], i - 1);
      assert values[..i][1..] == values[1..][..i - 1] && values[..i][0] == values[0];
      assert values[1..][i - 1] == values[i] && values[1..][i..] == values[i + 1..];
      DropConcat(EncodeValue(values[0]), ColumnData(values[1..]), ValuesSize(values[1..][..i - 1]));
    } else {
      assert ColumnData(values)[0..] == ColumnData(values);
    }
  }

  lemma DropConcat(a: Bytes, b: Bytes, k: nat)
    requires k <= |b|
    ensures (a + b)[|a| + k..] == b[k..]
  {}

  lemma LeafParts(k: Key, row: Row)
    requires KeyOk(k) && RowOk(row)
    ensures var cell, n := EncodeLeaf(k, row), |row.values|;
            && HasKey(cell) && DecodeKey(cell) == (k, KeySize(k)) && DataStart(k, n) <= |cell|
            && BitmapOf(cell, n) == Bitmap(row.values)
            && cell[KeySize(k) + BitmapSize(n)..DataStart(k, n)] == Offsets(DataStart(k, n), row.values)
            && cell[DataStart(k, n)..] == ColumnData(row.values)
  {
    hide EncodeKey, Bitmap, Offsets, ColumnData, DecodeKey, HasKey;
    var key, bitmap, offsets := EncodeKey(k), Bitmap(row.values), Offsets(DataStart(k, |row.values|), row.values);
    var data := ColumnData(row.values);
    Parts(key, bitmap, offsets, data);
    KeyRoundTrip(k, bitmap + offsets + data);
  }

  lemma Parts(a: Bytes, b: Bytes, c: Bytes, d: Bytes)
    ensures var all := a + b + c + d;
            && all == a + (b + c + d) && all[|a|..|a| + |b|] == b
            && all[|a| + |b|..|a| + |b| + |c|] == c && all[|a| + |b| + |c|..] == d
  {}

  lemma SliceOfSlice(s: Bytes, a: nat, b: nat, i: nat, j: nat)
    requires i <= j && a + j <= b <= |s|
    ensures s[a..b][i..j] == s[a + i..a + j]
  {
    var t, u := s[a..b][i..j], s[a + i..a + j];
    assert |t| == |u| && forall k | 0 <= k < |t| :: t[k] == u[k];
  }

  lemma TailOfTail(s: Bytes, a: nat, i: nat)
    requires a + i <= |s|
    ensures s[a..][i..] == s[a + i..]
  {
    var t, u := s[a..][i..], s[a + i..];
    assert |t| == |u| && forall k | 0 <= k < |t| :: t[k] == u[k];
  }

  /** Each entry of the offset array leads to its column's bytes. */
  lemma OffsetLeads(cell: Bytes, a: nat, values: seq<Value>, i: nat)
    requires i < |values| && ValuesOk(values)
    requires var start := a + 2 * |values|;
             && start <= |cell| && IsUint16(|cell|)
             && cell[a..start] == Offsets(start, values) && cell[start..] == ColumnData(values)
    ensures var off := GetUint(cell[a + 2 * i..a + 2 * i + 2]);
            off <= |cell| && ValuesOk(values[i + 1..]) && cell[off..] == EncodeValue(values[i]) + ColumnData(values[i + 1..])
  {
    hide Offsets, ColumnData, GetUint, U16, EncodeValue, ValuesSize, ValuesOk;
    var start, size := a + 2 * |values|, ValuesSize(values[..i]);
    DataOf(values, i);
    OffsetStored(cell, a, values, i);
    TailOfTail(cell, start, size);
  }

  lemma OffsetStored(cell: Bytes, a: nat, values: seq<Value>, i: nat)
    requires i < |values| && a + 2 * |values| + ValuesSize(values[..i]) <= |cell| && IsUint16(|cell|)
    requires cell[a..a + 2 * |values|] == Offsets(a + 2 * |values|, values)
    ensures GetUint(cell[a + 2 * i..a + 2 * i + 2]) == a + 2 * |values| + ValuesSize(values[..i])
  {
    hide Offsets, GetUint, U16, ValuesSize;
    var start := a + 2 * |values|;
    var off := start + ValuesSize(values[..i]);
    OffsetOf(start, values, i);
    assert off % 0x1_0000 == off;
    UintRoundTrip(off);
    SliceOfSlice(cell, a, start, 2 * i, 2 * i + 2);
  }

  lemma LeafColumn(cell: Bytes, k: Key, row: Row, schema: Schema, i: nat)
    requires KeyOk(k) && RowOk(row) && WellTyped(row, schema) && i < |schema|
    requires cell == EncodeLeaf(k, row) && IsUint16(|cell|)
    ensures HasKey(cell) && DecodeKey(cell) == (k, KeySize(k)) && DataStart(k, |schema|) <= |cell|
    ensures NullAt(cell, |schema|, i) <==> row.values[i].NullValue?
    ensures !row.values[i].NullValue? ==>
              var off := OffsetAt(cell, |schema|, i);
              off <= |cell| && HasValue(cell[off..], schema[i]) && DecodeValue(cell[off..], schema[i]) == row.values[i]
  {
    hide EncodeLeaf, DecodeKey, HasKey, HasValue, DecodeValue, Bitmap, Offsets, ColumnData, Bit;
    var values := row.values;
    LeafParts(k, row);
    BitmapSays(values, i);
    OffsetLeads(cell, KeySize(k) + BitmapSize(|schema|), values, i);
    if !values[i].NullValue? { ValueRoundTrip(values[i], schema[i], ColumnData(values[i + 1..])); }
  }

  /** A leaf cell gives back its key and its row, NULLs included. */
  lemma LeafRoundTrip(k: Key, row: Row, schema: Schema)
    requires KeyOk(k) && RowOk(row) && WellTyped(row, schema) && IsUint16(Size(Cell(k, Data(row))))
    ensures var cell := EncodeLeaf(k, row);
            HasRow(cell, schema) && DecodeKey(cell).0 == k && DecodeRow(cell, schema) == row
  {
    hide EncodeLeaf, DecodeKey, HasKey, HasValue, DecodeValue, NullAt, OffsetAt;
    LeafParts(k, row);
    var cell := EncodeLeaf(k, row);
    forall i | 0 <= i < |schema|
      ensures NullAt(cell, |schema|, i) <==> row.values[i].NullValue?
      ensures !NullAt(cell, |schema|, i) ==>
                var off := OffsetAt(cell, |schema|, i);
                off <= |cell| && HasValue(cell[off..], schema[i]) && DecodeValue(cell[off..], schema[i]) == row.values[i]
    {
      LeafColumn(cell, k, row, schema, i);
    }
  }

  /** An internal cell gives back its key and its child. */
  lemma InternalRoundTrip(k: Key, child: PageId)
    requires KeyOk(k) && child < 0x1_0000_0000
    ensures var cell := EncodeInternal(k, child);
            && HasKey(cell) && DecodeKey(cell) == (k, KeySize(k)) && |cell| == KeySize(k) + 4
            && GetUint(cell[KeySize(k)..KeySize(k) + 4]) == child
  {
    KeyRoundTrip(k, U32(child));
    UintRoundTrip(child);
    assert EncodeInternal(k, child)[KeySize(k)..KeySize(k) + 4] == U32(child);
  }

  // ---- The code ----

  method EncodeCompositeKey(k: Key) returns (buf: Bytes)
    requires KeyOk(k)
    ensures buf == EncodeKey(k)
  {
    Widths();
    var tag: byte, pk: Bytes;
    match k.pk {
      case IntKey(i) =>
        tag, pk := 0x01, PutUint(ToUint64(i), 8);
      case StrKey(s) =>
        tag := 0x02;
        pk := EncodeString(s);
    }
    buf := Tagged(k.table, tag, pk);
  }

  /** The table, the tag of the key's kind, and the key. */
  method Tagged(table: nat, tag: byte, pk: Bytes) returns (buf: Bytes)
    requires table < Pow256(4)
    ensures buf == PutUint(table, 4) + [tag] + pk
  {
    hide PutUint;
    var out := new byte[5 + |pk|](i => 0);
    PutUintAt(out, 0, 4, table);
    out[4] := tag;
    CopyAt(out, 5, pk);
    buf := out[..];
  }

  /** The two length bytes and the bytes of a string. */
  method EncodeString(s: Text) returns (buf: Bytes)
    requires |s| < Pow256(2)
    ensures buf == PutUint(|s|, 2) + s
  {
    var b := new byte[2 + |s|](i => 0);
    PutUintAt(b, 0, 2, |s|);
    CopyAt(b, 2, s);
    buf := b[..];
  }

  /** Sets the bit of every NULL, one column after the other. */
  method NullBitmap(values: seq<Value>) returns (bitmap: Bytes)
    requires |values| <= MAX_COLUMNS
    ensures bitmap == Bitmap(values)
  {
    hide Bitmap;
    var size := if |values| > 8 then 2 else 1;
    var b := new byte[size](i => 0);
    NoneNull(values, b[..]);
    for i := 0 to |values|
      invariant BitsUpTo(values, i, b[..]) && b.Length == size
    {
      ghost var was := b[..];
      if values[i].NullValue? {
        EightBits();
        OrBitSize(b[i / 8], i % 8, 8);
        b[i / 8] := OrBit(b[i / 8], i % 8);
        OneMoreBit(values, i, was, OrBit(was[i / 8], i % 8));
        assert b[..] == was[i / 8 := OrBit(was[i / 8], i % 8)];
      } else {
        NotNull(values, i, was);
      }
    }
    AllBits(values, b[..]);
    return b[..];
  }

  /** The bitmap once the columns before `n` have been looked at. */
  ghost predicate BitsUpTo(values: seq<Value>, n: nat, b: Bytes) {
    |b| == BitmapSize(|values|) && forall j: nat | j < 8 * |b| :: Bit(b[j / 8], j % 8) <==> j < n && IsNull(values, j)
  }

  lemma NoneNull(values: seq<Value>, b: Bytes)
    requires |b| == BitmapSize(|values|) && forall i | 0 <= i < |b| :: b[i] == 0
    ensures BitsUpTo(values, 0, b)
  {
    forall j: nat | j < 8 * |b| ensures !Bit(b[j / 8], j % 8) { NoBits(j % 8); }
  }

  lemma OneMoreBit(values: seq<Value>, i: nat, b: Bytes, marked: byte)
    requires BitsUpTo(values, i, b) && i < 8 * |b| && IsNull(values, i) && marked == OrBit(b[i / 8], i % 8)
    ensures BitsUpTo(values, i + 1, b[i / 8 := marked])
  {
    var c := b[i / 8 := marked];
    forall j: nat | j < 8 * |b| ensures Bit(c[j / 8], j % 8) <==> j < i + 1 && IsNull(values, j) {
      assert Bit(b[j / 8], j % 8) <==> j < i && IsNull(values, j);
      if j / 8 == i / 8 { OrBitSets(b[i / 8], i % 8, j % 8); }
    }
  }

  lemma NotNull(values: seq<Value>, i: nat, b: Bytes)
    requires BitsUpTo(values, i, b) && !IsNull(values, i)
    ensures BitsUpTo(values, i + 1, b)
  {}

  lemma AllBits(values: seq<Value>, b: Bytes)
    requires BitsUpTo(values, |values|, b)
    ensures b == Bitmap(values)
  {
    EightBits();
    hide Bit, NullByte, Pow2;
    forall k | 0 <= k < |b| ensures b[k] == Bitmap(values)[k] {
      forall j: nat | j < 8 ensures Bit(b[k], j) <==> Bit(Bitmap(values)[k], j) {
        NullByteBit(values, 8 * k, 8, j);
        assert (8 * k + j) / 8 == k && (8 * k + j) % 8 == j;
        assert Bit(b[(8 * k + j) / 8], (8 * k + j) % 8) <==> IsNull(values, 8 * k + j);
      }
      BitsDecide(b[k], Bitmap(values)[k], 8);
    }
  }

  /** The offset array; positions wrap around at two bytes. */
  method OffsetArray(start: nat, values: seq<Value>) returns (offsets: Bytes)
    ensures offsets == Offsets(start, values)
  {
    hide Offsets, ValuesSize, U16;
    offsets := [];
    var pos := start % 0x1_0000;
    NoOffsets(start, values);
    for i := 0 to |values|
      invariant pos == (start + ValuesSize(values[..i])) % 0x1_0000
      invariant offsets + Offsets(start + ValuesSize(values[..i]), values[i..]) == Offsets(start, values)
    {
      OffsetStep(offsets, start, values, i);
      offsets := offsets + U16(pos);
      pos := (pos + ValueSize(values[i])) % 0x1_0000;
    }
    NoOffsets(start + ValuesSize(values[..|values|]), values);
  }

  lemma NoOffsets(pos: nat, values: seq<Value>)
    ensures ValuesSize(values[..0]) == 0 && values[0..] == values && Offsets(pos, values[|values|..]) == []
  {}

  lemma OffsetStep(offsets: Bytes, start: nat, values: seq<Value>, i: nat)
    requires i < |values|
    ensures ValuesSize(values[..i + 1]) == ValuesSize(values[..i]) + ValueSize(values[i])
    ensures var pos := start + ValuesSize(values[..i]);
            offsets + Offsets(pos, values[i..]) ==
            offsets + U16(pos % 0x1_0000) + Offsets(start + ValuesSize(values[..i + 1]), values[i + 1..])
  {
    SizeUpTo(values, i);
    assert values[i..][1..] == values[i + 1..];
  }

  lemma {:induction false} SizeUpTo(values: seq<Value>, i: nat)
    requires i < |values|
    ensures ValuesSize(values[..i + 1]) == ValuesSize(values[..i]) + ValueSize(values[i])
  {
    if i > 0 {
      SizeUpTo(values[1..], i - 1);
      assert values[..i + 1][1..] == values[1..][..i] && values[..i][1..] == values[1..][..i - 1];
    } else {
      assert values[..1] == [values[0]];
      assert ValuesSize([values[0]]) == ValueSize(values[0]) + ValuesSize([]);
    }
  }

  method EncodeLeafCell(k: Key, row: Row) returns (cell: Bytes)
    requires KeyOk(k) && RowOk(row)
    ensures cell == EncodeLeaf(k, row)
  {
    hide EncodeKey, Bitmap, Offsets, ColumnData;
    var key := EncodeCompositeKey(k);
    var bitmap := NullBitmap(row.values);
    var offsets := OffsetArray(|key| + |bitmap| + 2 * |row.values|, row.values);
    var data := JoinColumns(row.values);
    return key + bitmap + offsets + data;
  }

  method JoinColumns(values: seq<Value>) returns (data: Bytes)
    requires ValuesOk(values)
    ensures data == ColumnData(values)
  {
    hide ColumnData, EncodeValue;
    data := [];
    NoColumns(values);
    for i := 0 to |values|
      invariant ValuesOk(values[i..])
      invariant data + ColumnData(values[i..]) == ColumnData(values)
    {
      ColumnStep(data, values, i);
      data := data + EncodeValue(values[i]);
    }
  }

  lemma NoColumns(values: seq<Value>)
    ensures values[0..] == values && ValuesOk(values[|values|..]) && ColumnData(values[|values|..]) == []
  {}

  lemma ColumnStep(data: Bytes, values: seq<Value>, i: nat)
    requires i < |values| && ValuesOk(values[i..])
    ensures ValueOk(values[i]) && ValuesOk(values[i + 1..])
    ensures data + ColumnData(values[i..]) == data + EncodeValue(values[i]) + ColumnData(values[i + 1..])
  {
    assert values[i] == values[i..][0] && values[i..][1..] == values[i + 1..];
    assert ValueOk(values[i..][0]);
    var tail := values[i + 1..];
    forall k | 0 <= k < |tail| ensures ValueOk(tail[k]) { assert ValueOk(values[i..][k + 1]); }
  }

  method DecodeLeafCell(cell: Bytes, schema: Schema) returns (k: Key, row: Row)
    requires HasRow(cell, schema)
    ensures k == DecodeKey(cell).0 && row == DecodeRow(cell, schema)
  {
    hide HasKey, HasValue, DecodeValue, GetUint, Bit, DecodeKey;
    var n := |schema|;
    var (key, keyLen) := DecodeKey(cell);
    var bitmapSize := if n > 8 then 2 else 1;
    var bitmap := cell[keyLen..keyLen + bitmapSize];
    var offsetsStart := keyLen + bitmapSize;
    var dataStart := offsetsStart + n * 2;
    var values: seq<Value> := [];
    for i := 0 to n
      invariant |values| == i && forall j | 0 <= j < i :: values[j] == ColumnAt(cell, schema, j)
    {
      if Bit(bitmap[i / 8], i % 8) {
        assert NullAt(cell, n, i);
        values := values + [NullValue];
      } else {
        assert !NullAt(cell, n, i);
        var at := offsetsStart + 2 * i;
        var off := GetUint(cell[at..at + 2]) - (keyLen + bitmapSize + n * 2) + dataStart;
        values := values + [DecodeValue(cell[off..], schema[i])];
      }
    }
    return key, Row(values);
  }
}
