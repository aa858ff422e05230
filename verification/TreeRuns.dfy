/** Any number of operations on the tree, one after the other. */
module TreeRuns {
  import opened Types
  import opened Keys
  import opened Pages
  import opened Tree
  import opened TreeOrder
  import opened TreeShape
  import opened TreeSpace
  import opened TreeMap
  import B = BTree

  datatype Op = Add(mode: Mode, c: Cell) | Drop(key: Key)

  type Rows = map<Key, Row>

  /** One operation on the tree, and the next page id after it. Updating a missing key changes nothing. */
  function Apply(t: Tree, next: PageId, op: Op): (Tree, PageId) {
    match op
    case Add(mode, c) =>
      if mode == Updating && Lookup(Contents(t), c.key) == None then (t, next)
      else
        var (o, f) := Put(t, mode, c, next);
        (PutRoot(t, mode, c, next), if o.Two? then f + 1 else f)
    case Drop(key) => (Remove(t, key), next)
  }

  function ApplyAll(t: Tree, next: PageId, ops: seq<Op>): (Tree, PageId) {
    if ops == [] then (t, next)
    else
      var (t', next') := ApplyAll(t, next, ops[..|ops| - 1]);
      Apply(t', next', ops[|ops| - 1])
  }

  /** The same operation on a map. */
  function OnMap(m: Rows, op: Op): Rows
    requires op.Add? ==> op.c.body.Data?
  {
    match op
    case Add(mode, c) => if (mode == Updating) == (c.key in m) then m[c.key := c.body.row] else m
    case Drop(key) => m - {key}
  }

  predicate DataOps(ops: seq<Op>) { forall i | 0 <= i < |ops| :: ops[i].Add? ==> ops[i].c.body.Data? }

  function OnMapAll(m: Rows, ops: seq<Op>): Rows
    requires DataOps(ops)
  {
    if ops == [] then m else OnMap(OnMapAll(m, ops[..|ops| - 1]), ops[|ops| - 1])
  }

  /** No key is inserted a second time. */
  predicate NoDuplicate(m: Rows, ops: seq<Op>)
    requires DataOps(ops)
  {
    forall i | 0 <= i < |ops| && ops[i].Add? && ops[i].mode == Inserting :: ops[i].c.key !in OnMapAll(m, ops[..i])
  }

  predicate OpsWithin(ops: seq<Op>, w: Weights) {
    forall i | 0 <= i < |ops| && ops[i].Add? :: CellWithin(ops[i].c, w)
  }

  ghost predicate Sound(t: Tree, next: PageId, w: Weights) {
    WellShaped(t, next) && SpaceOk(t) && Ordered(t, Unbounded, Unbounded) && Weighted(t, w)
  }

  /** No emptied leaf splits on its own lower separator. */
  predicate SafeOp(t: Tree, op: Op) { op.Add? ==> !Hazard(t, op.mode, op.c, Unbounded) }

  /** So at no moment of the run. */
  predicate Safe(t: Tree, next: PageId, ops: seq<Op>) {
    forall i | 0 <= i < |ops| :: SafeOp(ApplyAll(t, next, ops[..i]).0, ops[i])
  }

  lemma OneOp(t: Tree, next: PageId, op: Op, w: Weights)
    requires Sound(t, next, w) && Balance(w)
    requires op.Add? ==> op.c.body.Data? && CellWithin(op.c, w)
    requires op.Add? && op.mode == Inserting ==> op.c.key !in AsMap(Contents(t))
    ensures var (t', next') := Apply(t, next, op);
            Sound(t', next', w) && AsMap(Contents(t')) == OnMap(AsMap(Contents(t)), op)
    ensures op.Add? ==> PutRootFits(t, op.mode, op.c, next) && KeepsAll(t, op.mode, op.c)
    ensures Strict(t, Unbounded, Unbounded) ==>
              && (op.Add? ==> Placed(t, op.mode, op.c, next))
              && (SafeOp(t, op) ==> Strict(Apply(t, next, op).0, Unbounded, Unbounded))
  {
    hide KeepsAll, Lost, WellShaped, SpaceOk, Ordered, Strict, Weighted, CellWithin, Put, PutRoot, PutRootFits, AsMap, Lookup, Placed, Hazard;
    match op
    case Add(mode, c) =>
      WeightedRootFits(t, mode, c, next, w);
      PutRootWeighted(t, mode, c, next, w);
      PutRootShape(t, mode, c, next);
      PutRootSpace(t, mode, c, next);
      B.PutMeaning(t, mode, c, next);
      if Strict(t, Unbounded, Unbounded) { StrictPlaced(t, mode, c, next, Unbounded, Unbounded); }
    case Drop(key) =>
      B.RemovedFrom(t, key);
      RemoveRootShape(t, key, next);
      RemoveSpace(t, key);
      RemoveWeighted(t, key, w);
  }

  /**
    Rows within the weight bound, inserted, updated and deleted in any number and order, no key twice:
    at every moment the tree is a map with the same operations applied to it, it is well shaped and
    ordered, and no split ever drops a cell. The hypothesis that a single insert or update makes about
    space always holds. As long as no emptied leaf splits on its own lower separator no separator repeats, and the
    one about the places of separators holds as well.
   */
  lemma {:induction false} RunsAreMapRuns(t: Tree, next: PageId, ops: seq<Op>, w: Weights)
    requires Sound(t, next, w) && Balance(w)
    requires DataOps(ops) && OpsWithin(ops, w) && NoDuplicate(AsMap(Contents(t)), ops)
    ensures var (t', next') := ApplyAll(t, next, ops);
            Sound(t', next', w) && AsMap(Contents(t')) == OnMapAll(AsMap(Contents(t)), ops)
    ensures RoomAlways(t, next, ops)
    ensures Strict(t, Unbounded, Unbounded) && Safe(t, next, ops) ==>
              Strict(ApplyAll(t, next, ops).0, Unbounded, Unbounded) && PlacedAlways(t, next, ops)
  {
    hide Sound, Apply, OnMap, AsMap, CellWithin, SafeOp, Safe, Strict, RoomAlways, PlacedAlways;
    if ops == [] {
      AlwaysNone(t, next);
    } else {
      var n := |ops| - 1;
      var m, before := AsMap(Contents(t)), ops[..n];
      Shorter(m, ops, w);
      SaferBefore(t, next, ops);
      RunsAreMapRuns(t, next, before, w);
      var (t', next') := ApplyAll(t, next, before);
      OneOp(t', next', ops[n], w);
      AlwaysOneMore(t, next, ops);
    }
  }

  /** Every split on the way has room for what it keeps, and drops no row. */
  predicate RoomAlways(t: Tree, next: PageId, ops: seq<Op>) {
    forall i | 0 <= i < |ops| && ops[i].Add? ::
      var (u, n) := ApplyAll(t, next, ops[..i]); PutRootFits(u, ops[i].mode, ops[i].c, n) && KeepsAll(u, ops[i].mode, ops[i].c)
  }

  /** Every separator that is passed up finds its place. */
  predicate PlacedAlways(t: Tree, next: PageId, ops: seq<Op>) {
    forall i | 0 <= i < |ops| && ops[i].Add? :: var (u, n) := ApplyAll(t, next, ops[..i]); Placed(u, ops[i].mode, ops[i].c, n)
  }

  lemma AlwaysNone(t: Tree, next: PageId)
    ensures RoomAlways(t, next, []) && PlacedAlways(t, next, [])
  {}

  lemma AlwaysOneMore(t: Tree, next: PageId, ops: seq<Op>)
    requires ops != []
    ensures var before, op := ops[..|ops| - 1], ops[|ops| - 1];
            var (u, n) := ApplyAll(t, next, before);
            && (RoomAlways(t, next, before) && (op.Add? ==> PutRootFits(u, op.mode, op.c, n) && KeepsAll(u, op.mode, op.c)) ==> RoomAlways(t, next, ops))
            && (PlacedAlways(t, next, before) && (op.Add? ==> Placed(u, op.mode, op.c, n)) ==> PlacedAlways(t, next, ops))
  {
    hide ApplyAll, PutRootFits, KeepsAll, Placed;
    var before := ops[..|ops| - 1];
    forall i | 0 <= i < |before| ensures before[..i] == ops[..i] && before[i] == ops[i] {}
  }

  lemma SaferBefore(t: Tree, next: PageId, ops: seq<Op>)
    requires ops != []
    ensures Safe(t, next, ops) ==> Safe(t, next, ops[..|ops| - 1]) && SafeOp(ApplyAll(t, next, ops[..|ops| - 1]).0, ops[|ops| - 1])
  {
    hide SafeOp, ApplyAll;
    var before := ops[..|ops| - 1];
    forall i | 0 <= i < |before| ensures before[..i] == ops[..i] && before[i] == ops[i] {}
  }

  lemma Shorter(m: Rows, ops: seq<Op>, w: Weights)
    requires ops != [] && DataOps(ops) && OpsWithin(ops, w) && NoDuplicate(m, ops)
    ensures var before := ops[..|ops| - 1]; DataOps(before) && OpsWithin(before, w) && NoDuplicate(m, before)
  {
    var before := ops[..|ops| - 1];
    forall i | 0 <= i < |before| && before[i].Add? && before[i].mode == Inserting ensures before[i].c.key !in OnMapAll(m, before[..i]) {
      assert before[..i] == ops[..i] && before[i] == ops[i];
    }
  }
}
