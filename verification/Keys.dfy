/** Composite keys and their order (storage/btree/cell.go). */
module Keys {
  import opened Types

  /** A primary-key value; only INT and VARCHAR columns can be keys. */
  datatype Pk = IntKey(i: int) | StrKey(s: seq<byte>)

  /** A composite key: the table the row belongs to, then its primary key. */
  datatype Key = Key(table: nat, pk: Pk)

  /** The byte-wise order Go uses for strings. */
  predicate LtBytes(a: seq<byte>, b: seq<byte>) {
    |b| > 0 && (|a| == 0 || a[0] < b[0] || (a[0] == b[0] && LtBytes(a[1..], b[1..])))
  }

  /** The order on primary keys, made total by placing integers before strings. */
  predicate LtPk(a: Pk, b: Pk) {
    match (a, b)
    case (IntKey(x), IntKey(y)) => x < y
    case (StrKey(x), StrKey(y)) => LtBytes(x, y)
    case (IntKey(_), StrKey(_)) => true
    case (StrKey(_), IntKey(_)) => false
  }

  /** The order of rows in the tree: table first, then primary key. */
  predicate Lt(a: Key, b: Key) {
    a.table < b.table || (a.table == b.table && LtPk(a.pk, b.pk))
  }

  predicate Le(a: Key, b: Key) {
    a == b || Lt(a, b)
  }

  /** Comparing two keys of one table panics unless both have that table's kind. */
  predicate Comparable(a: Key, b: Key) {
    a.table == b.table ==> a.pk.IntKey? == b.pk.IntKey?
  }

  /** Each table has keys of one kind; `ints` is the set of tables whose keys are integers. */
  ghost predicate Typed(k: Key, ints: iset<nat>) {
    k.pk.IntKey? <==> k.table in ints
  }

  function CompareBytes(a: seq<byte>, b: seq<byte>): (r: int)
    ensures r < 0 <==> LtBytes(a, b)
    ensures r > 0 <==> LtBytes(b, a)
    ensures r == 0 <==> a == b
  {
    BytesOrder(a, b);
    if LtBytes(a, b) then -1 else if LtBytes(b, a) then 1 else 0
  }

  /** compareCompositeKeys: the sign decides the order, and zero means equal keys. */
  function Compare(a: Key, b: Key): (r: int)
    requires Comparable(a, b)
    ensures r < 0 <==> Lt(a, b)
    ensures r > 0 <==> Lt(b, a)
    ensures r == 0 <==> a == b
  {
    if a.table != b.table then
      (if a.table < b.table then -1 else 1)
    else match a.pk
      case IntKey(x) => if x < b.pk.i then -1 else if x > b.pk.i then 1 else 0
      case StrKey(x) => CompareBytes(x, b.pk.s)
  }

  lemma {:induction false} BytesOrder(a: seq<byte>, b: seq<byte>)
    ensures a == b || LtBytes(a, b) || LtBytes(b, a)
    ensures !(LtBytes(a, b) && LtBytes(b, a))
    ensures a == b ==> !LtBytes(a, b)
  {
    if |a| > 0 && |b| > 0 {
      BytesOrder(a[1..], b[1..]);
      if a[0] == b[0] && a[1..] == b[1..] {
        assert a == [a[0]] + a[1..] == [b[0]] + b[1..] == b;
      }
    }
  }

  lemma {:induction false} BytesTransitive(a: seq<byte>, b: seq<byte>, c: seq<byte>)
    requires LtBytes(a, b) && LtBytes(b, c)
    ensures LtBytes(a, c)
  {
    if |a| > 0 && a[0] == b[0] == c[0] {
      BytesTransitive(a[1..], b[1..], c[1..]);
    }
  }

  /** The first is a proper prefix of the second, or smaller at the first byte where they differ. */
  ghost predicate Precedes(a: seq<byte>, b: seq<byte>) {
    exists n | 0 <= n < |b| :: n <= |a| && a[..n] == b[..n] && (n == |a| || a[n] < b[n])
  }

  lemma {:induction false} LtIsPrecedes(a: seq<byte>, b: seq<byte>)
    ensures LtBytes(a, b) <==> Precedes(a, b)
  {
    if |a| > 0 && |b| > 0 && a[0] == b[0] {
      LtIsPrecedes(a[1..], b[1..]);
      if Precedes(a[1..], b[1..]) {
        var n :| 0 <= n < |b[1..]| && n <= |a[1..]| && a[1..][..n] == b[1..][..n] && (n == |a[1..]| || a[1..][n] < b[1..][n]);
        assert a[..n + 1] == [a[0]] + a[1..][..n] && b[..n + 1] == [b[0]] + b[1..][..n];
        assert n + 1 == |a| || a[n + 1] < b[n + 1];
      }
      if Precedes(a, b) {
        var n :| 0 <= n < |b| && n <= |a| && a[..n] == b[..n] && (n == |a| || a[n] < b[n]);
        assert a[1..][..n - 1] == a[..n][1..] && b[1..][..n - 1] == b[..n][1..];
        assert n - 1 == |a[1..]| || a[1..][n - 1] < b[1..][n - 1];
      }
    } else if |b| > 0 && (|a| == 0 || a[0] < b[0]) {
      assert a[..0] == b[..0];
    } else if Precedes(a, b) {
      FirstByte(a, b);
    }
  }

  lemma FirstByte(a: seq<byte>, b: seq<byte>)
    requires Precedes(a, b)
    ensures |b| > 0 && (|a| == 0 || a[0] <= b[0])
  {
    var n :| 0 <= n < |b| && n <= |a| && a[..n] == b[..n] && (n == |a| || a[n] < b[n]);
    if n > 0 { assert a[..n][0] == b[..n][0]; }
  }

  /** Lt is a strict total order on every pair and triple of composite keys. */
  lemma KeyOrder(a: Key, b: Key)
    ensures a == b || Lt(a, b) || Lt(b, a)
    ensures !(Lt(a, b) && Lt(b, a))
    ensures !Lt(a, a)
  {
    if a.pk.StrKey? {
      BytesOrder(a.pk.s, a.pk.s);
      if b.pk.StrKey? { BytesOrder(a.pk.s, b.pk.s); }
    }
  }

  lemma KeyTransitive(a: Key, b: Key, c: Key)
    requires Lt(a, b) && Lt(b, c)
    ensures Lt(a, c)
  {
    if a.pk.StrKey? && b.pk.StrKey? && c.pk.StrKey? && a.table == b.table == c.table {
      BytesTransitive(a.pk.s, b.pk.s, c.pk.s);
    }
  }

  /** The order laws in the quantified form the tree proofs use. */
  lemma OrderLaws()
    ensures forall a, b {:trigger Lt(a, b)} :: !(Lt(a, b) && Lt(b, a))
    ensures forall a, b {:trigger Lt(a, b)} :: a == b || Lt(a, b) || Lt(b, a)
    ensures forall a {:trigger Lt(a, a)} :: !Lt(a, a)
    ensures forall a, b, c {:trigger Lt(a, b), Lt(b, c)} :: Lt(a, b) && Lt(b, c) ==> Lt(a, c)
  {
    forall a, b ensures !(Lt(a, b) && Lt(b, a)) && (a == b || Lt(a, b) || Lt(b, a)) && !Lt(a, a) { KeyOrder(a, b); }
    forall a, b, c | Lt(a, b) && Lt(b, c) ensures Lt(a, c) { KeyTransitive(a, b, c); }
  }
}
