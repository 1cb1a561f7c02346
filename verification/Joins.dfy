/** Hash join and nested-loop join as pull loops over restartable children, and why they agree. */
module Joins {
  import opened Common
  import opened IntegerType
  import T = Tuples

  /** An integer value: its width and the eight bytes of its union, of which only the low ones count. */
  datatype Value = Value(w: Width, word: nat)

  /** The bytes of a tuple of fixed-size columns. */
  type Row = Bytes

  const UINT64 := 0x1_0000_0000_0000_0000

  /** `GetAs` of a signed integer of width w. */
  function GetAs(k: Value, w: Width): int {
    var low := k.word % (2 * Half(w));
    if low >= Half(w) then low - 2 * Half(w) else low
  }

  /** An integer of that width read back from its two's complement, whatever the bytes above it hold. */
  lemma GetAsReadsBack(w: Width, v: int, above: nat)
    requires Fits(v, w)
    ensures GetAs(Value(w, (if v < 0 then v + 2 * Half(w) else v) + above * (2 * Half(w))), w) == v
  {
    var low, m := if v < 0 then v + 2 * Half(w) else v, 2 * Half(w);
    Multiple(above, m);
    ModUnique(low + above * m, m, above, low);
  }

  /** The widths are those of the columns: one, two, four and eight bytes. */
  lemma WidthsAreBytes()
    ensures 2 * Half(TinyInt) == T.Pow256(T.TypeSize(T.TINYINT)) == 0x100
    ensures 2 * Half(SmallInt) == T.Pow256(T.TypeSize(T.SMALLINT)) == 0x1_0000
    ensures 2 * Half(Integer) == T.Pow256(T.TypeSize(T.INTEGER)) == 0x1_0000_0000
    ensures 2 * Half(BigInt) == T.Pow256(T.TypeSize(T.BIGINT)) == 0x1_0000_0000_0000_0000
  {
    T.Powers();
    assert T.Pow256(6) == 0x1_0000 * T.Pow256(4);
  }

  predicate NotNull(k: Value) { IsValue(GetAs(k, k.w), k.w) }

  /** `CompareEquals` on values that are not NULL: both sides are widened. */
  predicate Equal(a: Value, b: Value) { GetAs(a, a.w) == GetAs(b, b.w) }

  /** An output column: from which side it is taken, and where it lies in the tuples of that side. */
  datatype Column = Column(fromLeft: bool, offset: nat, size: nat)

  /** The two key expressions, the output columns, and the byte hash. */
  datatype Plan = Plan(leftKey: Row -> Value, rightKey: Row -> Value, columns: seq<Column>, hashBytes: Bytes -> nat)

  /** Nothing is promised about bytes behind the end of a tuple; here they read as zero. */
  function ByteAt(row: Row, i: nat): Byte { if i < |row| then row[i] else 0 }

  function Read(row: Row, offset: nat, size: nat): Row { seq<Byte>(size, i requires 0 <= i => ByteAt(row, offset + i)) }

  /** The output tuple: the bytes of its columns, one after another. */
  function Project(columns: seq<Column>, l: Row, r: Row): Row {
    if columns == [] then []
    else Read(if columns[0].fromLeft then l else r, columns[0].offset, columns[0].size) + Project(columns[1..], l, r)
  }

  function Output(plan: Plan, l: Row, r: Row): Row { Project(plan.columns, l, r) }

  /** The bytes that are hashed: the value, read in its own width, as a 64-bit word. */
  function HashedBytes(k: Value): Bytes {
    var raw := match k.w
      case TinyInt => GetAs(k, TinyInt)
      case SmallInt => GetAs(k, SmallInt)
      case Integer => GetAs(k, Integer)
      case BigInt => GetAs(k, BigInt);
    T.Encode(if raw < 0 then raw + UINT64 else raw, 8)
  }

  function HashValue(plan: Plan, k: Value): nat { plan.hashBytes(HashedBytes(k)) }

  lemma GetAsFits(k: Value, w: Width)
    ensures Fits(GetAs(k, w), w)
  {
    match w {
      case TinyInt =>
      case SmallInt =>
      case Integer =>
      case BigInt =>
    }
  }

  /** Integers of any two widths hash the same bytes exactly when they are equal. */
  lemma SameBytesIffEqual(a: Value, b: Value)
    ensures HashedBytes(a) == HashedBytes(b) <==> Equal(a, b)
  {
    var x, y := GetAs(a, a.w), GetAs(b, b.w);
    GetAsFits(a, a.w);
    GetAsFits(b, b.w);
    assert T.Pow256(8) == UINT64 by { T.Powers(); assert T.Pow256(6) == 0x1_0000 * T.Pow256(4); }
    var m, n := if x < 0 then x + UINT64 else x, if y < 0 then y + UINT64 else y;
    hide T.Encode, T.Decode, T.Pow256, GetAs;
    T.DecodeEncode(m, 8);
    T.DecodeEncode(n, 8);
    assert T.Encode(m, 8) == T.Encode(n, 8) ==> m == n;
  }

  lemma EqualHashesEqual(plan: Plan, a: Value, b: Value)
    ensures Equal(a, b) ==> HashValue(plan, a) == HashValue(plan, b)
  {
    SameBytesIffEqual(a, b);
  }

  predicate Joins(plan: Plan, l: Row, r: Row) { Equal(plan.leftKey(l), plan.rightKey(r)) }

  lemma ProjectUnfolds(columns: seq<Column>, i: nat, l: Row, r: Row)
    requires i < |columns|
    ensures Project(columns[i..], l, r)
         == Read(if columns[i].fromLeft then l else r, columns[i].offset, columns[i].size) + Project(columns[i + 1..], l, r)
  {
    assert columns[i..][1..] == columns[i + 1..];
  }

  /** The loop over the output columns. */
  method OutputRow(columns: seq<Column>, l: Row, r: Row) returns (row: Row)
    ensures row == Project(columns, l, r)
  {
    hide Read, Project;
    row := [];
    assert columns[0..] == columns;
    for i := 0 to |columns|
      invariant row + Project(columns[i..], l, r) == Project(columns, l, r)
    {
      ProjectUnfolds(columns, i, l, r);
      row := row + Read(if columns[i].fromLeft then l else r, columns[i].offset, columns[i].size);
    }
    NoColumns(l, r);
    assert columns[|columns|..] == [];
  }

  lemma NoColumns(l: Row, r: Row)
    ensures Project([], l, r) == []
  {}

  // ---------------------------------------------------------------- what the joins should produce

  /** The rows one left row contributes. */
  function RowsFor(plan: Plan, l: Row, right: seq<Row>): seq<Row> {
    if right == [] then []
    else (if Joins(plan, l, right[0]) then [Output(plan, l, right[0])] else []) + RowsFor(plan, l, right[1..])
  }

  /** The nested comprehension over both children, left outermost. */
  function Nested(plan: Plan, left: seq<Row>, right: seq<Row>): seq<Row> {
    if left == [] then [] else RowsFor(plan, left[0], right) + Nested(plan, left[1..], right)
  }

  /** The rows one right row contributes. */
  function Partners(plan: Plan, left: seq<Row>, r: Row): seq<Row> {
    if left == [] then []
    else (if Joins(plan, left[0], r) then [Output(plan, left[0], r)] else []) + Partners(plan, left[1..], r)
  }

  /** The same comprehension, right outermost. */
  function Swapped(plan: Plan, left: seq<Row>, right: seq<Row>): seq<Row> {
    if right == [] then [] else Partners(plan, left, right[0]) + Swapped(plan, left, right[1..])
  }

  lemma {:induction false} SwappedPeels(plan: Plan, left: seq<Row>, right: seq<Row>)
    requires left != []
    ensures multiset(Swapped(plan, left, right)) == multiset(RowsFor(plan, left[0], right)) + multiset(Swapped(plan, left[1..], right))
    decreases right
  {
    if right != [] {
      SwappedPeels(plan, left, right[1..]);
      var own := if Joins(plan, left[0], right[0]) then [Output(plan, left[0], right[0])] else [];
      assert Partners(plan, left, right[0]) == own + Partners(plan, left[1..], right[0]);
      hide Partners;
    }
  }

  lemma {:induction false} SwappedOfNothing(plan: Plan, right: seq<Row>)
    ensures Swapped(plan, [], right) == []
  {
    if right != [] { SwappedOfNothing(plan, right[1..]); }
  }

  /** The order of the two loops does not matter for which rows come out, repetitions included. */
  lemma {:induction false} LoopsSwap(plan: Plan, left: seq<Row>, right: seq<Row>)
    ensures multiset(Nested(plan, left, right)) == multiset(Swapped(plan, left, right))
  {
    if left == [] {
      SwappedOfNothing(plan, right);
    } else {
      LoopsSwap(plan, left[1..], right);
      SwappedPeels(plan, left, right);
      hide RowsFor, Swapped;
    }
  }

  // ---------------------------------------------------------------- the comprehension, pair by pair

  /** The pair of rows whose keys are the same integer, and which puts out this row. */
  predicate Yields(plan: Plan, l: Row, r: Row, row: Row) {
    var a, b := plan.leftKey(l), plan.rightKey(r);
    GetAs(a, a.w) == GetAs(b, b.w) && Project(plan.columns, l, r) == row
  }

  function Hits(plan: Plan, l: Row, right: seq<Row>, row: Row): set<nat> {
    set j | 0 <= j < |right| && Yields(plan, l, right[j], row) :: j
  }

  function Matching(plan: Plan, left: seq<Row>, right: seq<Row>, row: Row): set<(nat, nat)> {
    set i, j | 0 <= i < |left| && 0 <= j < |right| && Yields(plan, left[i], right[j], row) :: (i, j)
  }

  /** A set of indices, split into its zero and the rest, one lower. */
  lemma NumbersSplit(all: set<nat>, later: set<nat>)
    requires forall j :: j in later ==> j + 1 in all
    requires forall j :: j in all && j > 0 ==> j - 1 in later
    ensures |all| == |later| + (if 0 in all then 1 else 0)
  {
    var shifted := all - {0};
    forall j | j in shifted ensures exists k :: k in later && ((k: nat) => k + 1)(k) == j {
      assert j - 1 in later;
    }
    SameSize(later, shifted, (j: nat) => j + 1);
    assert 0 in all ==> all == shifted + {0};
    assert 0 !in all ==> all == shifted;
  }

  /** A set of pairs, split into its first row and the rest, one lower. */
  lemma PairsSplit(all: set<(nat, nat)>, hits: set<nat>, later: set<(nat, nat)>)
    requires forall j :: j in hits ==> (0, j) in all
    requires forall p :: p in all && p.0 == 0 ==> p.1 in hits
    requires forall p :: p in later ==> (p.0 + 1, p.1) in all
    requires forall p :: p in all && p.0 > 0 ==> (p.0 - 1, p.1) in later
    ensures |all| == |hits| + |later|
  {
    var here := set p | p in all && p.0 == 0;
    var shifted := all - here;
    forall p | p in shifted ensures exists q :: q in later && ((q: (nat, nat)) => (q.0 + 1, q.1))(q) == p {
      assert (p.0 - 1, p.1) in later;
    }
    forall p | p in here ensures exists j :: j in hits && ((j: nat) => (0 as nat, j))(j) == p {
      assert p.1 in hits && p == (0, p.1);
    }
    SameSize(later, shifted, (p: (nat, nat)) => (p.0 + 1, p.1));
    SameSize(hits, here, (j: nat) => (0 as nat, j));
    assert all == here + shifted;
  }

  lemma InMatching(plan: Plan, left: seq<Row>, right: seq<Row>, row: Row)
    ensures forall p :: p in Matching(plan, left, right, row) <==>
              p.0 < |left| && p.1 < |right| && Yields(plan, left[p.0], right[p.1], row)
  {
    hide Yields;
    forall p: (nat, nat) | p.0 < |left| && p.1 < |right| && Yields(plan, left[p.0], right[p.1], row)
      ensures p in Matching(plan, left, right, row)
    {
      assert p == (p.0, p.1);
    }
  }

  lemma {:induction false} RowsForCounts(plan: Plan, l: Row, right: seq<Row>, row: Row)
    ensures multiset(RowsFor(plan, l, right))[row] == |Hits(plan, l, right, row)|
  {
    hide Project;
    if right == [] {
      assert Hits(plan, l, right, row) == {};
    } else {
      RowsForCounts(plan, l, right[1..], row);
      OneMoreRow(plan, l, right, row);
      NumbersSplit(Hits(plan, l, right, row), Hits(plan, l, right[1..], row));
      assert 0 in Hits(plan, l, right, row) <==> Yields(plan, l, right[0], row);
      hide Hits;
    }
  }

  lemma OneMoreRow(plan: Plan, l: Row, right: seq<Row>, row: Row)
    requires right != []
    ensures forall j :: j in Hits(plan, l, right[1..], row) ==> j + 1 in Hits(plan, l, right, row)
    ensures forall j :: j in Hits(plan, l, right, row) && j > 0 ==> j - 1 in Hits(plan, l, right[1..], row)
  {
    hide Yields;
  }

  lemma MatchingSplits(plan: Plan, left: seq<Row>, right: seq<Row>, row: Row)
    requires left != []
    ensures |Matching(plan, left, right, row)| == |Hits(plan, left[0], right, row)| + |Matching(plan, left[1..], right, row)|
  {
    hide Yields, Matching;
    InMatching(plan, left, right, row);
    InMatching(plan, left[1..], right, row);
    PairsSplit(Matching(plan, left, right, row), Hits(plan, left[0], right, row), Matching(plan, left[1..], right, row));
  }

  /** The nested loops put a row out once for every pair of rows, a left and a right one, whose keys
      are the same integer and whose columns make that row. */
  lemma {:induction false} NestedCounts(plan: Plan, left: seq<Row>, right: seq<Row>, row: Row)
    ensures multiset(Nested(plan, left, right))[row] == |Matching(plan, left, right, row)|
    decreases left
  {
    hide RowsFor, Hits;
    if left == [] {
      assert Matching(plan, left, right, row) == {};
    } else {
      hide Matching;
      NestedCounts(plan, left[1..], right, row);
      RowsForCounts(plan, left[0], right, row);
      MatchingSplits(plan, left, right, row);
    }
  }

  // ---------------------------------------------------------------- children

  /** A child executor over a fixed list of rows; `Init` starts it over. */
  class Child {
    const rows: seq<Row>
    var pos: nat

    ghost predicate Valid()
      reads this
    {
      pos <= |rows|
    }

    constructor (rows: seq<Row>)
      ensures Valid() && this.rows == rows && pos == 0
    {
      this.rows, pos := rows, 0;
    }

    method Init()
      modifies this
      ensures Valid() && pos == 0
    {
      pos := 0;
    }

    method Next() returns (row: seq<Row>)
      requires Valid()
      modifies this
      ensures Valid()
      ensures row == if old(pos) < |rows| then [rows[old(pos)]] else []
      ensures pos == if old(pos) < |rows| then old(pos) + 1 else old(pos)
    {
      if pos >= |rows| { return []; }
      row := [rows[pos]];
      pos := pos + 1;
    }
  }

  // ---------------------------------------------------------------- nested-loop join

  /** The rows still to come when l is the current left row and the children stand at i and j. */
  function Rest(plan: Plan, l: Row, left: seq<Row>, i: nat, right: seq<Row>, j: nat): seq<Row>
    requires i <= |left| && j <= |right|
  {
    RowsFor(plan, l, right[j..]) + Nested(plan, left[i..], right)
  }

  function Emitted(plan: Plan, l: Row, r: Row): seq<Row> {
    if Joins(plan, l, r) then [Output(plan, l, r)] else []
  }

  lemma RestSteps(plan: Plan, l: Row, left: seq<Row>, i: nat, right: seq<Row>, j: nat)
    requires i <= |left| && j < |right|
    ensures Rest(plan, l, left, i, right, j) == Emitted(plan, l, right[j]) + Rest(plan, l, left, i, right, j + 1)
  {
    assert right[j..][1..] == right[j + 1..] && right[j..][0] == right[j];
  }

  lemma RestTurns(plan: Plan, l: Row, left: seq<Row>, i: nat, right: seq<Row>)
    requires i <= |left|
    ensures Rest(plan, l, left, i, right, |right|)
         == if i == |left| then [] else Rest(plan, left[i], left, i + 1, right, 0)
  {
    assert right[|right|..] == [] && right[0..] == right;
    if i < |left| { assert left[i..][1..] == left[i + 1..] && left[i..][0] == left[i]; }
  }

  class NestedLoopJoin {
    const plan: Plan
    const leftChild: Child
    const rightChild: Child
    var leftTuple: Row
    var selected: bool

    ghost predicate Valid()
      reads this, leftChild, rightChild
    {
      leftChild != rightChild && leftChild.Valid() && rightChild.Valid()
    }

    /** The rows still to come. */
    ghost function Remaining(): seq<Row>
      requires Valid()
      reads this, leftChild, rightChild
    {
      if !selected then [] else Rest(plan, leftTuple, leftChild.rows, leftChild.pos, rightChild.rows, rightChild.pos)
    }

    constructor (plan: Plan, leftChild: Child, rightChild: Child)
      requires leftChild != rightChild && leftChild.Valid() && rightChild.Valid()
      ensures Valid() && this.plan == plan && this.leftChild == leftChild && this.rightChild == rightChild
    {
      this.plan, this.leftChild, this.rightChild := plan, leftChild, rightChild;
      leftTuple, selected := [], false;
    }

    method Init()
      requires Valid()
      modifies this, leftChild, rightChild
      ensures Valid() && Remaining() == Nested(plan, leftChild.rows, rightChild.rows)
    {
      leftChild.Init();
      rightChild.Init();
      var row := leftChild.Next();
      selected := row != [];
      if selected { leftTuple := row[0]; }
      assert rightChild.rows[0..] == rightChild.rows;
    }

    /** Produces the next row of the comprehension, or reports the end. */
    method Next() returns (row: seq<Row>)
      requires Valid()
      modifies this, leftChild, rightChild
      ensures Valid()
      ensures if old(Remaining()) == [] then row == [] && Remaining() == []
              else row == [old(Remaining())[0]] && Remaining() == old(Remaining())[1..]
    {
      if !selected { return []; }
      hide Rest, Joins;
      ghost var all := Remaining();
      while true
        invariant Valid() && selected && Remaining() == all
        decreases |leftChild.rows| - leftChild.pos, |rightChild.rows| - rightChild.pos
      {
        var rightRow := NextPair();
        if rightRow == [] { return []; }
        if Joins(plan, leftTuple, rightRow[0]) {
          var out := OutputRow(plan.columns, leftTuple, rightRow[0]);
          return [out];
        }
      }
    }

    /** The inner loop: the next right row, moving on to the next left row whenever the right child
        runs out. */
    method NextPair() returns (rightRow: seq<Row>)
      requires Valid() && selected
      modifies this, leftChild, rightChild
      ensures Valid() && selected && |rightRow| <= 1
      ensures rightRow == [] ==> old(Remaining()) == [] && Remaining() == []
      ensures rightRow != [] ==> old(Remaining()) == Emitted(plan, leftTuple, rightRow[0]) + Remaining()
      ensures rightRow != [] ==>
        leftChild.pos > old(leftChild.pos) || (leftChild.pos == old(leftChild.pos) && rightChild.pos > old(rightChild.pos))
    {
      hide Rest, Joins, Emitted;
      ghost var all, i := Remaining(), leftChild.pos;
      StepRest();
      rightRow := rightChild.Next();
      while rightRow == []
        invariant Valid() && selected && |rightRow| <= 1
        invariant rightRow == [] ==> all == Remaining() && rightChild.pos == |rightChild.rows|
        invariant rightRow != [] ==> all == Emitted(plan, leftTuple, rightRow[0]) + Remaining()
        invariant leftChild.pos > i || (leftChild.pos == i && (rightRow != [] ==> rightChild.pos > old(rightChild.pos)))
        decreases |leftChild.rows| - leftChild.pos, rightRow == []
      {
        RestTurns(plan, leftTuple, leftChild.rows, leftChild.pos, rightChild.rows);
        var leftRow := leftChild.Next();
        if leftRow == [] { return; }
        leftTuple := leftRow[0];
        rightChild.Init();
        StepRest();
        rightRow := rightChild.Next();
      }
    }

    lemma StepRest()
      requires Valid() && selected
      ensures rightChild.pos < |rightChild.rows| ==>
        Remaining() == Emitted(plan, leftTuple, rightChild.rows[rightChild.pos])
          + Rest(plan, leftTuple, leftChild.rows, leftChild.pos, rightChild.rows, rightChild.pos + 1)
    {
      if rightChild.pos < |rightChild.rows| {
        RestSteps(plan, leftTuple, leftChild.rows, leftChild.pos, rightChild.rows, rightChild.pos);
      }
    }
  }

  // ---------------------------------------------------------------- the hash table

  datatype Entry = Entry(key: Value, rows: seq<Row>)

  type Table = map<nat, seq<Entry>>

  /** Position of the key in its bucket, or the end. */
  function Find(bucket: seq<Entry>, k: Value): (i: nat)
    ensures i <= |bucket|
    ensures i < |bucket| ==> Equal(bucket[i].key, k)
    ensures forall j :: 0 <= j < i ==> !Equal(bucket[j].key, k)
  {
    if bucket == [] || Equal(bucket[0].key, k) then 0 else 1 + Find(bucket[1..], k)
  }

  function Bucket(plan: Plan, table: Table, k: Value): seq<Entry> {
    if HashValue(plan, k) in table then table[HashValue(plan, k)] else []
  }

  /** The rows stored under a key; only the bucket of its hash is searched. */
  function Lookup(plan: Plan, table: Table, k: Value): seq<Row> {
    var bucket := Bucket(plan, table, k);
    if Find(bucket, k) < |bucket| then bucket[Find(bucket, k)].rows else []
  }

  function Insert(plan: Plan, table: Table, k: Value, row: Row): Table {
    var bucket := Bucket(plan, table, k);
    var i := Find(bucket, k);
    table[HashValue(plan, k) :=
      if i < |bucket| then bucket[i := Entry(bucket[i].key, bucket[i].rows + [row])] else bucket + [Entry(k, [row])]]
  }

  /** Inserting adds the row under every key equal to its own, of whatever width, and no other. */
  lemma InsertThenLookup(plan: Plan, table: Table, k: Value, row: Row, q: Value)
    ensures Lookup(plan, Insert(plan, table, k, row), q)
         == Lookup(plan, table, q) + (if Equal(k, q) then [row] else [])
  {
    EqualHashesEqual(plan, k, q);
    var bucket := Bucket(plan, table, k);
    var after := Bucket(plan, Insert(plan, table, k, row), k);
    var i, j := Find(bucket, k), Find(bucket, q);
    assert after == if i < |bucket| then bucket[i := Entry(bucket[i].key, bucket[i].rows + [row])] else bucket + [Entry(k, [row])];
    if HashValue(plan, q) == HashValue(plan, k) {
      if Equal(k, q) { FindIs(bucket, q, i); }
      FindIs(after, q, if j < |bucket| || Equal(k, q) then j else |after|);
    }
    hide Find, HashValue;
  }

  lemma FindIs(bucket: seq<Entry>, k: Value, i: nat)
    requires i <= |bucket| && (i < |bucket| ==> Equal(bucket[i].key, k))
    requires forall j :: 0 <= j < i ==> !Equal(bucket[j].key, k)
    ensures Find(bucket, k) == i
  {}

  /** The left rows whose key equals k, in order. */
  function WithKey(plan: Plan, left: seq<Row>, k: Value): (rows: seq<Row>) {
    if left == [] then []
    else WithKey(plan, left[..|left| - 1], k)
         + (if Equal(plan.leftKey(left[|left| - 1]), k) then [left[|left| - 1]] else [])
  }

  predicate DistinctKeys(plan: Plan, left: seq<Row>) {
    forall i, j :: 0 <= i < j < |left| ==> !Equal(plan.leftKey(left[i]), plan.leftKey(left[j]))
  }

  lemma {:induction false} WithKeyIn(plan: Plan, left: seq<Row>, k: Value)
    ensures forall l :: l in WithKey(plan, left, k) ==> l in left && Equal(plan.leftKey(l), k)
  {
    if left != [] { WithKeyIn(plan, left[..|left| - 1], k); }
  }

  lemma {:induction false} AtMostOneWithKey(plan: Plan, left: seq<Row>, k: Value)
    requires DistinctKeys(plan, left)
    ensures |WithKey(plan, left, k)| <= 1
  {
    if left != [] {
      var before, last := left[..|left| - 1], left[|left| - 1];
      AtMostOneWithKey(plan, before, k);
      WithKeyIn(plan, before, k);
      if WithKey(plan, before, k) != [] {
        var l := WithKey(plan, before, k)[0];
        assert l in WithKey(plan, before, k);
        var i :| 0 <= i < |before| && before[i] == l;
        assert left[i] == l;
      }
    }
  }

  function Outputs(plan: Plan, rows: seq<Row>, r: Row): seq<Row> {
    if rows == [] then [] else [Output(plan, rows[0], r)] + Outputs(plan, rows[1..], r)
  }

  lemma {:induction false} OutputsConcat(plan: Plan, a: seq<Row>, b: seq<Row>, r: Row)
    ensures Outputs(plan, a + b, r) == Outputs(plan, a, r) + Outputs(plan, b, r)
  {
    if a == [] {
      assert a + b == b;
    } else {
      assert (a + b)[1..] == a[1..] + b;
      OutputsConcat(plan, a[1..], b, r);
    }
  }

  lemma {:induction false} PartnersConcat(plan: Plan, a: seq<Row>, b: seq<Row>, r: Row)
    ensures Partners(plan, a + b, r) == Partners(plan, a, r) + Partners(plan, b, r)
  {
    if a == [] {
      assert a + b == b;
    } else {
      assert (a + b)[1..] == a[1..] + b;
      PartnersConcat(plan, a[1..], b, r);
    }
  }

  lemma OnePartner(plan: Plan, l: Row, r: Row)
    ensures Partners(plan, [l], r) == if Joins(plan, l, r) then [Output(plan, l, r)] else []
  {
    var one: seq<Row> := [l];
    assert |one[1..]| == 0;
  }

  /** A right row's partners are the rows the hash table holds under its key. */
  lemma {:induction false} PartnersAreLookup(plan: Plan, left: seq<Row>, r: Row)
    ensures Partners(plan, left, r) == Outputs(plan, WithKey(plan, left, plan.rightKey(r)), r)
  {
    if left != [] {
      var before, last := left[..|left| - 1], left[|left| - 1];
      PartnersAreLookup(plan, before, r);
      PartnersConcat(plan, before, [last], r);
      assert left == before + [last];
      var k := plan.rightKey(r);
      OutputsConcat(plan, WithKey(plan, before, k), if Equal(plan.leftKey(last), k) then [last] else [], r);
      OnePartner(plan, last, r);
    }
  }

  // ---------------------------------------------------------------- hash join

  /** What one lookup produces: the right-hand columns of every row after the first are read from the
      caller's tuple, which by then holds the row produced before. */
  function Chain(plan: Plan, rows: seq<Row>, tuple: Row): seq<Row> {
    if rows == [] then []
    else
      var row: Row := Output(plan, rows[0], tuple);
      [row] + Chain(plan, rows[1..], row)
  }

  function Chained(plan: Plan, left: seq<Row>, right: seq<Row>): seq<Row> {
    if right == [] then []
    else Chain(plan, WithKey(plan, left, plan.rightKey(right[0])), right[0]) + Chained(plan, left, right[1..])
  }

  /** No right row finds two left rows under its key. Repeated left keys that nothing matches do no harm. */
  predicate AtMostOnePartner(plan: Plan, left: seq<Row>, right: seq<Row>) {
    forall i :: 0 <= i < |right| ==> |WithKey(plan, left, plan.rightKey(right[i]))| <= 1
  }

  /** Either way the hash join is the comprehension: no lookup holds a second row, or the columns
      are stable. */
  lemma {:induction false} ChainedIsSwapped(plan: Plan, left: seq<Row>, right: seq<Row>)
    requires AtMostOnePartner(plan, left, right) || Stable(plan.columns)
    ensures Chained(plan, left, right) == Swapped(plan, left, right)
    decreases right
  {
    if right != [] {
      assert forall i :: 0 <= i < |right| - 1 ==> right[1..][i] == right[i + 1];
      ChainedIsSwapped(plan, left, right[1..]);
      PartnersAreLookup(plan, left, right[0]);
      var rows := WithKey(plan, left, plan.rightKey(right[0]));
      if Stable(plan.columns) {
        StableChain(plan, rows, right[0], right[0]);
      } else {
        assert |rows| <= 1;
        SingleChain(plan, rows, right[0]);
      }
      hide Chain, Outputs, WithKey, Partners;
    }
  }

  lemma SingleChain(plan: Plan, rows: seq<Row>, r: Row)
    requires |rows| <= 1
    ensures Chain(plan, rows, r) == Outputs(plan, rows, r)
  {
    if rows != [] { assert rows[1..] == []; }
  }

  /** Two partners of one row: the second row is put together from the first one, so the rows are the
      right ones exactly when the output makes no difference between that and the right row. */
  lemma RepeatedKeysChain(plan: Plan, a: Row, b: Row, r: Row)
    requires Joins(plan, a, r) && Joins(plan, b, r)
    ensures Chained(plan, [a, b], [r]) == [Output(plan, a, r), Output(plan, b, Output(plan, a, r))]
    ensures multiset(Chained(plan, [a, b], [r])) == multiset(Swapped(plan, [a, b], [r]))
       <==> Output(plan, b, Output(plan, a, r)) == Output(plan, b, r)
  {
    var k := plan.rightKey(r);
    assert [a, b][..1] == [a] && [a][..0] == [] && [a, b][1..] == [b] && [b][1..] == [] && [r][1..] == [];
    assert WithKey(plan, [], k) == [];
    assert WithKey(plan, [a], k) == [a];
    assert WithKey(plan, [a, b], k) == [a] + [b] == [a, b];
    var first := Output(plan, a, r);
    assert Chain(plan, [], Output(plan, b, first)) == [];
    assert Chain(plan, [b], first) == [Output(plan, b, first)];
    assert Chain(plan, [a, b], r) == [first, Output(plan, b, first)];
    assert Partners(plan, [], r) == [];
    assert Partners(plan, [b], r) == [Output(plan, b, r)];
    assert Partners(plan, [a, b], r) == [Output(plan, a, r), Output(plan, b, r)];
    assert Swapped(plan, [a, b], []) == [] && Chained(plan, [a, b], []) == [];
    TwoRows(first, Output(plan, b, first), Output(plan, b, r));
  }

  lemma TwoRows(x: Row, y: Row, z: Row)
    ensures multiset([x, y]) == multiset([x, z]) <==> y == z
  {
    assert multiset([x, y]) - multiset{x} == multiset{y};
    assert multiset([x, z]) - multiset{x} == multiset{z};
    if multiset{y} == multiset{z} { assert y in multiset{z}; }
  }

  // ---------------------------------------------------------------- exactly when the hash join is right

  /** Where one byte of the output comes from. */
  datatype Source = Source(fromLeft: bool, index: nat)

  function Sources(columns: seq<Column>): seq<Source> {
    if columns == [] then []
    else seq(columns[0].size, i requires 0 <= i => Source(columns[0].fromLeft, columns[0].offset + i)) + Sources(columns[1..])
  }

  function Taken(source: Source, l: Row, r: Row): Byte { ByteAt(if source.fromLeft then l else r, source.index) }

  lemma {:induction false} ProjectTakes(columns: seq<Column>, l: Row, r: Row)
    ensures |Project(columns, l, r)| == |Sources(columns)|
    ensures forall p :: 0 <= p < |Sources(columns)| ==> Project(columns, l, r)[p] == Taken(Sources(columns)[p], l, r)
  {
    if columns != [] { ProjectTakes(columns[1..], l, r); }
  }

  predicate Misplaced(from: seq<Source>, p: nat)
    requires p < |from|
  {
    from[p].index >= |from| || from[from[p].index] != from[p]
  }

  /** Every byte of the right tuple that the output uses stands, in the output, where it stood in the
      right tuple. */
  predicate Stable(columns: seq<Column>) {
    var from := Sources(columns);
    forall p :: 0 <= p < |from| && !from[p].fromLeft ==> !Misplaced(from, p)
  }

  /** The two tuples agree on the bytes the output takes from the right. */
  ghost predicate SameRight(columns: seq<Column>, x: Row, r: Row) {
    var from := Sources(columns);
    forall p :: 0 <= p < |from| && !from[p].fromLeft ==> Taken(from[p], [], x) == Taken(from[p], [], r)
  }

  lemma SameRightSameOutput(columns: seq<Column>, l: Row, x: Row, r: Row)
    requires SameRight(columns, x, r)
    ensures Project(columns, l, x) == Project(columns, l, r)
  {
    ProjectTakes(columns, l, x);
    ProjectTakes(columns, l, r);
  }

  /** What stable columns put out can stand in for the right tuple. */
  lemma StableOutput(columns: seq<Column>, l: Row, x: Row, r: Row)
    requires Stable(columns) && SameRight(columns, x, r)
    ensures SameRight(columns, Project(columns, l, x), r)
  {
    ProjectTakes(columns, l, x);
    var from, out := Sources(columns), Project(columns, l, x);
    forall p | 0 <= p < |from| && !from[p].fromLeft ensures Taken(from[p], [], out) == Taken(from[p], [], r) {
      assert !Misplaced(from, p);
      assert Taken(from[p], [], out) == out[from[p].index] == Taken(from[p], [], x);
    }
  }

  lemma {:induction false} StableChain(plan: Plan, rows: seq<Row>, x: Row, r: Row)
    requires Stable(plan.columns) && SameRight(plan.columns, x, r)
    ensures Chain(plan, rows, x) == Outputs(plan, rows, r)
    decreases rows
  {
    if rows != [] {
      SameRightSameOutput(plan.columns, rows[0], x, r);
      StableOutput(plan.columns, rows[0], x, r);
      hide Stable, SameRight, Project;
      StableChain(plan, rows[1..], Output(plan, rows[0], x), r);
    }
  }

  /** On these inputs both joins give the same rows. */
  ghost predicate Agrees(plan: Plan, left: seq<Row>, right: seq<Row>) {
    multiset(Chained(plan, left, right)) == multiset(Nested(plan, left, right))
  }

  function AlwaysOne(row: Row): Value { Value(Integer, 1) }

  /** Every left row is a partner of every right row. */
  function CrossPlan(columns: seq<Column>): Plan { Plan(AlwaysOne, AlwaysOne, columns, bytes => 0) }

  function Fill(n: nat, b: Byte): Row { seq<Byte>(n, _ => b) }

  /** One byte of the output is not where it should be: two equal left rows and one right row show it. */
  lemma MisplacedByteShows(columns: seq<Column>, p: nat) returns (l: Row, r: Row)
    requires p < |Sources(columns)| && !Sources(columns)[p].fromLeft && Misplaced(Sources(columns), p)
    ensures Project(columns, l, Project(columns, l, r)) != Project(columns, l, r)
  {
    var from := Sources(columns);
    var k := from[p].index;
    if k < |from| && from[k].fromLeft {
      l, r := Fill(from[k].index + 1, 1), [];
    } else {
      l, r := [], Fill(k, 0) + [1];
    }
    var first := Project(columns, l, r);
    ProjectTakes(columns, l, r);
    ProjectTakes(columns, l, first);
    assert Project(columns, l, r)[p] == ByteAt(r, k);
    assert Project(columns, l, first)[p] == ByteAt(first, k);
    if k < |from| { assert first[k] == Taken(from[k], l, r); }
  }

  /** Whatever columns are not stable, some inputs bring the difference out. */
  lemma UnstableShows(columns: seq<Column>) returns (l: Row, r: Row)
    requires !Stable(columns)
    ensures !Agrees(CrossPlan(columns), [l, l], [r])
  {
    var from := Sources(columns);
    var p: nat :| p < |from| && !from[p].fromLeft && Misplaced(from, p);
    l, r := MisplacedByteShows(columns, p);
    var plan := CrossPlan(columns);
    hide Project, Stable, Chained, Swapped, Nested;
    RepeatedKeysChain(plan, l, l, r);
    LoopsSwap(plan, [l, l], [r]);
  }

  ghost predicate RightOnAllInputs(columns: seq<Column>) {
    forall plan: Plan, left: seq<Row>, right: seq<Row> :: plan.columns == columns ==> Agrees(plan, left, right)
  }

  /** The hash join gives the rows of the comprehension on all inputs exactly when the output columns
      are stable. */
  lemma HashJoinIsRightIff(columns: seq<Column>)
    ensures Stable(columns) <==> RightOnAllInputs(columns)
  {
    hide Stable, Chained, Swapped, Nested;
    if Stable(columns) {
      forall plan: Plan, left: seq<Row>, right: seq<Row> | plan.columns == columns ensures Agrees(plan, left, right) {
        ChainedIsSwapped(plan, left, right);
        LoopsSwap(plan, left, right);
      }
    } else {
      var l, r := UnstableShows(columns);
      assert CrossPlan(columns).columns == columns;
    }
  }

  /** The usual list, a left column and then the first right one, is not stable. */
  lemma LeftColumnFirstIsWrong(l0: nat, size: nat) returns (l: Row, r: Row)
    requires size > 0
    ensures var columns := [Column(true, l0, size), Column(false, 0, size)];
            !Stable(columns) && !Agrees(CrossPlan(columns), [l, l], [r])
  {
    var columns := [Column(true, l0, size), Column(false, 0, size)];
    var from := Sources(columns);
    assert from[0] == Source(true, l0);
    assert Sources(columns[1..]) == seq(size, i requires 0 <= i => Source(false, 0 + i)) + Sources(columns[1..][1..]);
    assert from[size] == Sources(columns[1..])[0] == Source(false, 0);
    l, r := UnstableShows(columns);
  }

  /** Distinct left keys are one way to have at most one partner. */
  lemma DistinctKeysSuffice(plan: Plan, left: seq<Row>, right: seq<Row>)
    requires DistinctKeys(plan, left)
    ensures AtMostOnePartner(plan, left, right)
  {
    forall i | 0 <= i < |right| ensures |WithKey(plan, left, plan.rightKey(right[i]))| <= 1 {
      AtMostOneWithKey(plan, left, plan.rightKey(right[i]));
    }
  }

  class HashJoin {
    const plan: Plan
    const leftChild: Child
    const rightChild: Child
    var table: Table
    var buffer: seq<Row>
    var nextPos: nat

    ghost predicate Valid()
      reads this, leftChild, rightChild
    {
      && leftChild != rightChild && leftChild.Valid() && rightChild.Valid()
      && forall k :: Lookup(plan, table, k) == WithKey(plan, leftChild.rows, k)
    }

    /** The rows still to come, given what the caller's tuple holds. */
    ghost function Remaining(tuple: Row): seq<Row>
      requires Valid()
      reads this, leftChild, rightChild
    {
      Chain(plan, Buffered(), tuple) + Later()
    }

    function Buffered(): seq<Row>
      reads this
    {
      if nextPos < |buffer| then buffer[nextPos..] else []
    }

    ghost function Later(): seq<Row>
      requires Valid()
      reads this, leftChild, rightChild
    {
      Chained(plan, leftChild.rows, rightChild.rows[rightChild.pos..])
    }

    constructor (plan: Plan, leftChild: Child, rightChild: Child)
      requires leftChild != rightChild && leftChild.Valid() && rightChild.Valid()
      modifies leftChild, rightChild
      ensures Valid() && this.plan == plan && this.leftChild == leftChild && this.rightChild == rightChild
      ensures buffer == [] && nextPos == 0
    {
      this.plan, this.leftChild, this.rightChild := plan, leftChild, rightChild;
      table, buffer, nextPos := map[], [], 0;
      new;
      leftChild.Init();
      rightChild.Init();
      Build();
    }

    /** Reads the left child to its end into the empty hash table. */
    method Build()
      requires leftChild != rightChild && leftChild.Valid() && rightChild.Valid() && leftChild.pos == 0 && table == map[]
      modifies `table, leftChild
      ensures Valid()
    {
      hide Lookup, WithKey, Insert;
      EmptyTable(plan);
      ghost var i := 0;
      var row := leftChild.Next();
      while row != []
        invariant leftChild.Valid() && i <= |leftChild.rows|
        invariant row == (if i < |leftChild.rows| then [leftChild.rows[i]] else [])
        invariant leftChild.pos == if i < |leftChild.rows| then i + 1 else i
        invariant forall k :: Lookup(plan, table, k) == WithKey(plan, leftChild.rows[..i], k)
        decreases |leftChild.rows| - i
      {
        ghost var before := table;
        var key := plan.leftKey(row[0]);
        table := Insert(plan, table, key, row[0]);
        forall k ensures Lookup(plan, table, k) == WithKey(plan, leftChild.rows[..i + 1], k) {
          InsertThenLookup(plan, before, key, row[0], k);
          WithKeySnoc(plan, leftChild.rows, i, k);
        }
        row := leftChild.Next();
        i := i + 1;
      }
      assert leftChild.rows[..i] == leftChild.rows;
    }

    static lemma EmptyTable(plan: Plan)
      ensures forall k :: Lookup(plan, map[], k) == WithKey(plan, [], k)
    {}

    static lemma WithKeySnoc(plan: Plan, left: seq<Row>, i: nat, k: Value)
      requires i < |left|
      ensures WithKey(plan, left[..i + 1], k)
           == WithKey(plan, left[..i], k) + (if Equal(plan.leftKey(left[i]), k) then [left[i]] else [])
    {
      assert left[..i + 1][..i] == left[..i];
    }

    method Init()
      requires Valid()
      modifies this, leftChild, rightChild
      ensures Valid()
      ensures forall tuple :: Remaining(tuple) == Chained(plan, leftChild.rows, rightChild.rows)
    {
      hide Lookup, WithKey, Chained, Chain;
      leftChild.Init();
      rightChild.Init();
      nextPos, buffer := 0, [];
      assert rightChild.rows[0..] == rightChild.rows;
      forall tuple { NoChain(plan, tuple); }
    }

    /** `tuple` is the caller's variable, holding the last row produced. */
    method Next(tuple: Row) returns (row: seq<Row>)
      requires Valid()
      modifies this, rightChild
      ensures Valid()
      ensures if old(Remaining(tuple)) == [] then row == [] && Remaining(tuple) == []
              else row == [old(Remaining(tuple))[0]] && Remaining(row[0]) == old(Remaining(tuple))[1..]
    {
      hide Chained, Chain, Lookup, WithKey, Equal, Project;
      NoChain(plan, tuple);
      ghost var all := Remaining(tuple);
      var right := tuple;
      if nextPos >= |buffer| {
        var found := SeekMatch();
        if found == [] { return []; }
        right := found[0];
        assert Buffered() == buffer;
      }
      var out := Take(right);
      row := [out];
      assert all == row + Remaining(out);
    }

    /** The next buffered row, joined with the tuple. */
    method Take(right: Row) returns (out: Row)
      requires Valid() && nextPos < |buffer|
      modifies this`nextPos
      ensures Valid() && nextPos == old(nextPos) + 1
      ensures old(Chain(plan, Buffered(), right)) == [out] + Chain(plan, Buffered(), out)
    {
      hide Chained, Chain, Lookup, WithKey, Equal, Project;
      UnfoldChain(plan, buffer, nextPos, right);
      out := OutputRow(plan.columns, buffer[nextPos], right);
      nextPos := nextPos + 1;
    }

    static lemma UnfoldChain(plan: Plan, rows: seq<Row>, i: nat, tuple: Row)
      requires i < |rows|
      ensures var row := Output(plan, rows[i], tuple);
        Chain(plan, rows[i..], tuple) == [row] + Chain(plan, if i + 1 < |rows| then rows[i + 1..] else [], row)
    {
      assert rows[i..][1..] == rows[i + 1..] && rows[i..][0] == rows[i];
    }

    /** The loop over the right child until a row has a partner. */
    method SeekMatch() returns (right: seq<Row>)
      requires Valid() && nextPos >= |buffer|
      modifies this, rightChild
      ensures Valid() && |right| <= 1
      ensures right == [] ==> nextPos >= |buffer| && old(Later()) == [] && Later() == []
      ensures right != [] ==> nextPos == 0 && buffer != [] && old(Later()) == Chain(plan, buffer, right[0]) + Later()
    {
      hide Lookup, WithKey, Chain, Chained;
      while true
        invariant Valid() && nextPos >= |buffer| && Later() == old(Later())
        decreases |rightChild.rows| - rightChild.pos
      {
        StepLater();
        right := rightChild.Next();
        if right == [] { return; }
        var rows := Lookup(plan, table, plan.rightKey(right[0]));
        if rows != [] {
          buffer := rows;
          nextPos := 0;
          return;
        }
        NoChain(plan, right[0]);
      }
    }

    static lemma NoChain(plan: Plan, r: Row)
      ensures Chain(plan, [], r) == []
    {}

    lemma StepLater()
      requires Valid()
      ensures if rightChild.pos == |rightChild.rows| then Later() == []
        else var r := rightChild.rows[rightChild.pos];
          Later() == Chain(plan, WithKey(plan, leftChild.rows, plan.rightKey(r)), r)
            + Chained(plan, leftChild.rows, rightChild.rows[rightChild.pos + 1..])
    {
      if rightChild.pos < |rightChild.rows| {
        var rest := rightChild.rows[rightChild.pos..];
        assert rest[1..] == rightChild.rows[rightChild.pos + 1..];
      }
    }
  }

  // ---------------------------------------------------------------- running both

  lemma TakeFirst(all: seq<Row>, rows: seq<Row>, rest: seq<Row>, row: seq<Row>, rest1: seq<Row>)
    requires rows + rest == all && rest != [] && row == [rest[0]] && rest1 == rest[1..]
    ensures (rows + row) + rest1 == all
  {
    assert rest == row + rest1;
  }

  method DrainNested(join: NestedLoopJoin) returns (rows: seq<Row>)
    requires join.Valid()
    modifies join, join.leftChild, join.rightChild
    ensures rows == old(join.Remaining())
  {
    rows := [];
    ghost var all := join.Remaining();
    hide NestedLoopJoin.Remaining, NestedLoopJoin.Valid;
    while true
      invariant join.Valid() && rows + join.Remaining() == all
      decreases |join.Remaining()|
    {
      ghost var rest := join.Remaining();
      var row := join.Next();
      if row == [] { return; }
      TakeFirst(all, rows, rest, row, join.Remaining());
      rows := rows + row;
    }
  }

  /** The client keeps one tuple variable and passes it to every call. */
  method DrainHash(join: HashJoin, start: Row) returns (rows: seq<Row>)
    requires join.Valid()
    modifies join, join.rightChild
    ensures rows == old(join.Remaining(start))
  {
    rows := [];
    ghost var all := join.Remaining(start);
    var tuple := start;
    hide HashJoin.Remaining, HashJoin.Valid;
    while true
      invariant join.Valid() && rows + join.Remaining(tuple) == all
      decreases |join.Remaining(tuple)|
    {
      ghost var rest := join.Remaining(tuple);
      var row := join.Next(tuple);
      if row == [] { return; }
      TakeFirst(all, rows, rest, row, join.Remaining(row[0]));
      rows := rows + row;
      tuple := row[0];
    }
  }

  method RunNested(plan: Plan, left: seq<Row>, right: seq<Row>) returns (rows: seq<Row>)
    ensures rows == Nested(plan, left, right)
  {
    var l := new Child(left);
    var r := new Child(right);
    var join := new NestedLoopJoin(plan, l, r);
    join.Init();
    rows := DrainNested(join);
  }

  method RunHash(plan: Plan, left: seq<Row>, right: seq<Row>) returns (rows: seq<Row>)
    ensures rows == Chained(plan, left, right)
  {
    var l := new Child(left);
    var r := new Child(right);
    var join := new HashJoin(plan, l, r);
    join.Init();
    rows := DrainHash(join, []);
  }

  /** For integer keys of any mix of widths, no right row having two partners or the output columns
      being stable, both joins produce the same rows, each as many times. */
  method BothJoins(plan: Plan, left: seq<Row>, right: seq<Row>) returns (byLoops: seq<Row>, byHash: seq<Row>)
    requires AtMostOnePartner(plan, left, right) || Stable(plan.columns)
    requires forall l :: l in left ==> NotNull(plan.leftKey(l))
    requires forall r :: r in right ==> NotNull(plan.rightKey(r))
    ensures byLoops == Nested(plan, left, right)
    ensures multiset(byLoops) == multiset(byHash)
  {
    byLoops := RunNested(plan, left, right);
    byHash := RunHash(plan, left, right);
    ChainedIsSwapped(plan, left, right);
    LoopsSwap(plan, left, right);
  }
}
