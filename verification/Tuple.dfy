/** The byte layout of a tuple: fixed-size slots in schema order, VARCHAR slots holding the offset of
    a length-prefixed record appended behind them. */
module Tuples {
  import opened Common
  import opened Slotted

  datatype TypeId = BOOLEAN | TINYINT | SMALLINT | INTEGER | BIGINT | DECIMAL | TIMESTAMP | VARCHAR

  function TypeSize(t: TypeId): nat {
    match t
    case BOOLEAN => 1
    case TINYINT => 1
    case SMALLINT => 2
    case INTEGER => 4
    case BIGINT => 8
    case DECIMAL => 8
    case TIMESTAMP => 8
    case VARCHAR => 12
  }

  /** A value of an inlined type is its machine word. */
  datatype Value = Word(bits: nat) | Text(chars: Bytes) | NullText

  datatype Column = Column(typ: TypeId, offset: nat)

  /** Length prefix that stands for a NULL text. */
  const VALUE_NULL := 0xFFFF_FFFF

  function Pow256(k: nat): (r: nat)
    ensures r > 0
  {
    if k == 0 then 1 else 256 * Pow256(k - 1)
  }

  predicate Matches(v: Value, t: TypeId) {
    match v
    case Word(bits) => t != VARCHAR && bits < Pow256(TypeSize(t))
    case Text(chars) => t == VARCHAR && |chars| < VALUE_NULL
    case NullText => t == VARCHAR
  }

  // ---------------------------------------------------------------- machine words

  function Encode(n: nat, k: nat): (bytes: Bytes)
    ensures |bytes| == k
  {
    if k == 0 then [] else [n % 256] + Encode(n / 256, k - 1)
  }

  function Decode(bytes: Bytes): nat {
    if bytes == [] then 0 else bytes[0] + 256 * Decode(bytes[1..])
  }

  lemma {:induction false} DecodeEncode(n: nat, k: nat)
    requires n < Pow256(k)
    ensures Decode(Encode(n, k)) == n
  {
    if k > 0 {
      DecodeEncode(n / 256, k - 1);
      assert Encode(n, k)[1..] == Encode(n / 256, k - 1);
    }
  }

  /** Little-endian: byte i of a word is its i-th from the bottom. */
  lemma {:induction false} EncodeIsLittleEndian(n: nat, k: nat, i: nat)
    requires i < k
    ensures Encode(n, k)[i] == (n / Pow256(i)) % 256
    decreases i
  {
    if i > 0 {
      EncodeIsLittleEndian(n / 256, k - 1, i - 1);
      DivideTwice(n, Pow256(i - 1));
    }
  }

  lemma DivideTwice(n: nat, m: nat)
    requires m > 0
    ensures n / 256 / m == n / (256 * m)
  {
    var q, r, low := n / 256 / m, n / 256 % m, n % 256;
    var big := 256 * m;
    assert n / 256 == q * m + r;
    Regroup(q, m);
    QuotientUnique(n, big, q, 256 * r + low);
  }

  lemma Regroup(q: nat, m: nat)
    ensures 256 * (q * m) == q * (256 * m)
  {}

  lemma QuotientUnique(n: nat, m: nat, q: nat, r: nat)
    requires r < m && n == q * m + r
    ensures n / m == q
  {
    ModUnique(n, m, q, r);
    var d := q - n / m;
    assert d * m == 0;
    Multiple(d, m);
  }

  // ---------------------------------------------------------------- schema

  /** The columns named exist. */
  predicate Attributes(attrs: seq<nat>, n: nat) { forall j :: 0 <= j < |attrs| ==> attrs[j] < n }

  /** Offset of column i: the fixed lengths before it. */
  function Offset(types: seq<TypeId>, i: nat): nat
    requires i <= |types|
  {
    if i == 0 then 0 else Offset(types, i - 1) + TypeSize(types[i - 1])
  }

  function Uninlined(types: seq<TypeId>, i: nat): (r: seq<nat>)
    requires i <= |types|
    ensures Attributes(r, i)
  {
    if i == 0 then [] else Uninlined(types, i - 1) + (if types[i - 1] == VARCHAR then [i - 1] else [])
  }

  lemma SchemaStarts(types: seq<TypeId>)
    ensures Offset(types, 0) == 0 && Uninlined(types, 0) == []
  {}

  lemma SchemaUnfolds(types: seq<TypeId>, i: nat)
    requires i < |types|
    ensures Offset(types, i + 1) == Offset(types, i) + TypeSize(types[i])
    ensures Uninlined(types, i + 1) == if types[i] == VARCHAR then Uninlined(types, i) + [i] else Uninlined(types, i)
  {
    assert Uninlined(types, i) + [] == Uninlined(types, i);
  }

  class Schema {
    var columns: seq<Column>
    var uninlined: seq<nat>
    var length: nat

    ghost predicate Lays(types: seq<TypeId>)
      reads this
    {
      && |columns| == |types| && length == Offset(types, |types|) && uninlined == Uninlined(types, |types|)
      && forall k :: 0 <= k < |types| ==> columns[k] == Column(types[k], Offset(types, k))
    }

    constructor (types: seq<TypeId>)
      ensures Lays(types)
    {
      hide Offset, Uninlined, TypeSize;
      SchemaStarts(types);
      columns, uninlined, length := [], [], 0;
      new;
      for i := 0 to |types|
        invariant |columns| == i && length == Offset(types, i) && uninlined == Uninlined(types, i)
        invariant forall k :: 0 <= k < i ==> columns[k] == Column(types[k], Offset(types, k))
      {
        SchemaUnfolds(types, i);
        if types[i] == VARCHAR { uninlined := uninlined + [i]; }
        columns := columns + [Column(types[i], length)];
        length := length + TypeSize(types[i]);
      }
    }
  }

  // ---------------------------------------------------------------- building a tuple

  predicate MatchAll(values: seq<Value>, types: seq<TypeId>) {
    |values| == |types| && forall i :: 0 <= i < |types| ==> Matches(values[i], types[i])
  }

  /** Bytes a value is given behind the fixed part: its length and four more, in 32 bits. A NULL
      text has length `VALUE_NULL`, so its sum wraps and it is given three. */
  function Extra(v: Value): nat {
    match v
    case Word(_) => 0
    case Text(chars) => |chars| + 4
    case NullText => (VALUE_NULL + 4) % 0x1_0000_0000
  }

  /** Where the variable-length record of column i goes. */
  function TextOffset(types: seq<TypeId>, values: seq<Value>, i: nat): nat
    requires i <= |types| == |values|
  {
    if i == 0 then Offset(types, |types|) else TextOffset(types, values, i - 1) + Extra(values[i - 1])
  }

  function Size(types: seq<TypeId>, values: seq<Value>): nat
    requires |types| == |values|
  {
    TextOffset(types, values, |types|)
  }

  /** `SerializeTo` writes these bytes. */
  function Serialized(v: Value, t: TypeId): Bytes {
    match v
    case Word(bits) => Encode(bits, TypeSize(t))
    case Text(chars) => Encode(|chars|, 4) + chars
    case NullText => Encode(VALUE_NULL, 4)
  }

  function Put(d: Bytes, at: nat, bytes: Bytes): (r: Bytes)
    ensures |r| == |d|
  {
    if at + |bytes| <= |d| then Overwrite(d, at, bytes) else d
  }

  /** One turn of the constructor's loop. */
  function PutColumn(d: Bytes, types: seq<TypeId>, values: seq<Value>, i: nat): (r: Bytes)
    requires i < |types| == |values|
    ensures |r| == |d|
  {
    var off, at := Offset(types, i), TextOffset(types, values, i);
    if types[i] == VARCHAR then Put(Put(d, off, Encode(at, 4)), at, Serialized(values[i], types[i]))
    else Put(d, off, Serialized(values[i], types[i]))
  }

  /** The tuple after its first i columns. */
  function Built(types: seq<TypeId>, values: seq<Value>, i: nat): (r: Bytes)
    requires i <= |types| == |values|
    ensures |r| == Size(types, values)
  {
    if i == 0 then Zeros(Size(types, values)) else PutColumn(Built(types, values, i - 1), types, values, i - 1)
  }

  // ---------------------------------------------------------------- reading a column

  /** Slices outside the tuple read as nothing here; the round trip shows that none is needed. */
  function Slice(d: Bytes, at: nat, n: nat): Bytes { if at + n <= |d| then d[at..at + n] else [] }

  /** `GetDataPtr`. */
  function DataAt(d: Bytes, types: seq<TypeId>, i: nat): nat
    requires i < |types|
  {
    if types[i] != VARCHAR then Offset(types, i) else Decode(Slice(d, Offset(types, i), 4))
  }

  function GetValue(d: Bytes, types: seq<TypeId>, i: nat): Value
    requires i < |types|
  {
    var at := DataAt(d, types, i);
    if types[i] != VARCHAR then Word(Decode(Slice(d, at, TypeSize(types[i]))))
    else
      var len := Decode(Slice(d, at, 4));
      if len == VALUE_NULL then NullText else Text(Slice(d, at + 4, len))
  }

  // ---------------------------------------------------------------- round trip

  lemma {:induction false} OffsetsGrow(types: seq<TypeId>, i: nat, j: nat)
    requires i < j <= |types|
    ensures Offset(types, i) + TypeSize(types[i]) <= Offset(types, j)
    decreases j
  {
    if i < j - 1 { OffsetsGrow(types, i, j - 1); }
  }

  lemma {:induction false} TextOffsetsGrow(types: seq<TypeId>, values: seq<Value>, i: nat, j: nat)
    requires i < j <= |types| == |values|
    ensures Offset(types, |types|) <= TextOffset(types, values, i)
    ensures TextOffset(types, values, i) + Extra(values[i]) <= TextOffset(types, values, j)
    decreases j
  {
    if i < j - 1 {
      TextOffsetsGrow(types, values, i, j - 1);
    } else if i > 0 {
      TextOffsetsGrow(types, values, i - 1, i);
    }
  }

  /** As much of a text's record as fits the room it is given. */
  function Room(v: Value, t: TypeId): Bytes { if Extra(v) <= |Serialized(v, t)| then Serialized(v, t)[..Extra(v)] else [] }

  /** The bytes of column k are where GetValue looks for them. */
  predicate HoldsColumn(d: Bytes, types: seq<TypeId>, values: seq<Value>, k: nat)
    requires k < |types| == |values|
  {
    var off, at := Offset(types, k), TextOffset(types, values, k);
    if types[k] == VARCHAR then
      Slice(d, off, 4) == Encode(at, 4)
      && Slice(d, at, Extra(values[k])) == Room(values[k], types[k])
    else Slice(d, off, TypeSize(types[k])) == Serialized(values[k], types[k])
  }

  lemma PutHolds(d: Bytes, at: nat, bytes: Bytes)
    requires at + |bytes| <= |d|
    ensures Slice(Put(d, at, bytes), at, |bytes|) == bytes
  {}

  lemma PutKeeps(d: Bytes, at: nat, bytes: Bytes, from: nat, n: nat)
    requires from + n <= at || at + |bytes| <= from
    ensures Slice(Put(d, at, bytes), from, n) == Slice(d, from, n)
  {
    if from + n <= |d| && at + |bytes| <= |d| {
      var r := Put(d, at, bytes);
      forall m: nat | m < n ensures SameByte(r, from, d, from, m) {}
      SliceEqual(r, from, d, from, n);
    }
  }

  /** The first text column at or after i. */
  function NextText(types: seq<TypeId>, i: nat): (r: nat)
    requires i <= |types|
    ensures i <= r <= |types| && (r < |types| ==> types[r] == VARCHAR)
    decreases |types| - i
  {
    if i == |types| || types[i] == VARCHAR then i else NextText(types, i + 1)
  }

  /** Nothing is laid out between a text and the next one. */
  lemma {:induction false} NextTextIsNext(types: seq<TypeId>, values: seq<Value>, i: nat)
    requires MatchAll(values, types) && i <= |types|
    ensures TextOffset(types, values, NextText(types, i)) == TextOffset(types, values, i)
    decreases |types| - i
  {
    if i < |types| && types[i] != VARCHAR {
      NextTextIsNext(types, values, i + 1);
      assert Extra(values[i]) == 0;
    }
  }

  /** No NULL text comes last among the texts. */
  predicate Contained(types: seq<TypeId>, values: seq<Value>) {
    |types| == |values| && forall k :: 0 <= k < |types| && values[k].NullText? ==> NextText(types, k + 1) < |types|
  }

  /** Whether the record of column i ends inside the tuple. */
  predicate Fits(types: seq<TypeId>, values: seq<Value>, i: nat)
    requires i < |types| == |values|
  {
    TextOffset(types, values, i) + |Serialized(values[i], types[i])| <= Size(types, values)
  }

  lemma RecordLength(v: Value, t: TypeId)
    requires Matches(v, t)
    ensures t == VARCHAR ==> |Serialized(v, t)| == if v.Text? then |v.chars| + 4 else 4
    ensures t == VARCHAR ==> Extra(v) == if v.Text? then |v.chars| + 4 else 3
    ensures t != VARCHAR ==> |Serialized(v, t)| == TypeSize(t) && Extra(v) == 0
  {}

  lemma TextFitsIff(types: seq<TypeId>, values: seq<Value>, i: nat)
    requires MatchAll(values, types) && i < |types| && types[i] == VARCHAR
    ensures Fits(types, values, i) <==> values[i].NullText? ==> NextText(types, i + 1) < |types|
  {
    var n := NextText(types, i + 1);
    RecordLength(values[i], types[i]);
    NextTextIsNext(types, values, i + 1);
    TextOffsetsGrow(types, values, i, |types|);
    assert TextOffset(types, values, i + 1) == TextOffset(types, values, i) + Extra(values[i]);
    if n < |types| {
      RecordLength(values[n], types[n]);
      TextOffsetsGrow(types, values, n, |types|);
    }
    hide TextOffset, Offset, NextText, Serialized, Encode, Extra, Matches;
  }

  /** The exact condition for the constructor to write inside the bytes it allocates. */
  lemma ContainedIff(types: seq<TypeId>, values: seq<Value>)
    requires MatchAll(values, types)
    ensures Contained(types, values) <==>
              forall i :: 0 <= i < |types| && types[i] == VARCHAR ==> Fits(types, values, i)
  {
    hide Fits, Size;
    forall i: nat | i < |types|
      ensures types[i] == VARCHAR ==>
                (Fits(types, values, i) <==> values[i].NullText? ==> NextText(types, i + 1) < |types|)
      ensures types[i] != VARCHAR ==> !values[i].NullText?
    {
      assert Matches(values[i], types[i]);
      if types[i] == VARCHAR { TextFitsIff(types, values, i); }
    }
  }

  lemma Layout(types: seq<TypeId>, values: seq<Value>, i: nat)
    requires MatchAll(values, types) && i < |types|
    ensures Offset(types, i) + TypeSize(types[i]) <= Offset(types, |types|) <= TextOffset(types, values, i)
    ensures TextOffset(types, values, i) + Extra(values[i]) <= Size(types, values)
    ensures types[i] != VARCHAR ==> |Serialized(values[i], types[i])| == TypeSize(types[i])
    ensures types[i] == VARCHAR ==> Extra(values[i]) <= |Serialized(values[i], types[i])|
    ensures Contained(types, values) && types[i] == VARCHAR ==> Fits(types, values, i)
  {
    OffsetsGrow(types, i, |types|);
    TextOffsetsGrow(types, values, i, |types|);
    RecordLength(values[i], types[i]);
    if types[i] == VARCHAR { TextFitsIff(types, values, i); }
    hide TextOffset, Offset, NextText, Serialized, Encode, Extra, Matches;
  }

  lemma PutHoldsPart(d: Bytes, at: nat, bytes: Bytes, n: nat)
    requires at + |bytes| <= |d| && n <= |bytes|
    ensures Slice(Put(d, at, bytes), at, n) == bytes[..n]
  {}

  lemma PutColumnHolds(d: Bytes, types: seq<TypeId>, values: seq<Value>, i: nat)
    requires MatchAll(values, types) && Contained(types, values) && i < |types| && |d| == Size(types, values)
    ensures HoldsColumn(PutColumn(d, types, values, i), types, values, i)
  {
    Layout(types, values, i);
    var off, at := Offset(types, i), TextOffset(types, values, i);
    var bytes := Serialized(values[i], types[i]);
    hide Put, Slice, Serialized, Encode, Offset, TextOffset, Extra;
    if types[i] == VARCHAR {
      var d1 := Put(d, off, Encode(at, 4));
      PutHolds(d, off, Encode(at, 4));
      PutKeeps(d1, at, bytes, off, 4);
      PutHoldsPart(d1, at, bytes, Extra(values[i]));
    } else {
      PutHolds(d, off, bytes);
    }
  }

  lemma PutColumnKeeps(d: Bytes, types: seq<TypeId>, values: seq<Value>, i: nat, k: nat)
    requires MatchAll(values, types) && k < i < |types| && |d| == Size(types, values)
    requires HoldsColumn(d, types, values, k)
    ensures HoldsColumn(PutColumn(d, types, values, i), types, values, k)
  {
    Layout(types, values, i);
    Layout(types, values, k);
    OffsetsGrow(types, k, i);
    TextOffsetsGrow(types, values, k, i);
    var off, at := Offset(types, i), TextOffset(types, values, i);
    var bytes := Serialized(values[i], types[i]);
    var n := if types[k] == VARCHAR then 4 else TypeSize(types[k]);
    var offK, atK, m := Offset(types, k), TextOffset(types, values, k), Extra(values[k]);
    assert offK + n <= off && (types[k] == VARCHAR ==> atK + m <= at);
    hide Put, Slice, Serialized, Encode, Offset, TextOffset, Extra, Room;
    if types[i] == VARCHAR {
      var d1 := Put(d, off, Encode(at, 4));
      PutKeeps(d, off, Encode(at, 4), offK, n);
      PutKeeps(d1, at, bytes, offK, n);
      if types[k] == VARCHAR {
        PutKeeps(d, off, Encode(at, 4), atK, m);
        PutKeeps(d1, at, bytes, atK, m);
      }
    } else {
      PutKeeps(d, off, bytes, offK, n);
      if types[k] == VARCHAR { PutKeeps(d, off, bytes, atK, m); }
    }
  }

  lemma {:induction false} BuiltHolds(types: seq<TypeId>, values: seq<Value>, i: nat, k: nat)
    requires MatchAll(values, types) && Contained(types, values) && k < i <= |types|
    ensures HoldsColumn(Built(types, values, i), types, values, k)
  {
    hide HoldsColumn, PutColumn;
    var before := Built(types, values, i - 1);
    if k == i - 1 {
      PutColumnHolds(before, types, values, k);
    } else {
      BuiltHolds(types, values, i - 1, k);
      PutColumnKeeps(before, types, values, i - 1, k);
    }
  }

  /** Where things lie: columns one after another in schema order, at one, two, four, eight or, for the
      offset of a text, twelve bytes each; then the texts, in the same order, four bytes longer than
      their characters; a NULL text is given three. */
  lemma LayoutIs(types: seq<TypeId>, values: seq<Value>, i: nat)
    requires |types| == |values| && i < |types|
    ensures Offset(types, 0) == 0
    ensures Offset(types, i + 1) == Offset(types, i) +
      (match types[i]
       case BOOLEAN => 1 case TINYINT => 1 case SMALLINT => 2 case INTEGER => 4
       case BIGINT => 8 case DECIMAL => 8 case TIMESTAMP => 8 case VARCHAR => 12)
    ensures TextOffset(types, values, 0) == Offset(types, |types|)
    ensures TextOffset(types, values, i + 1) == TextOffset(types, values, i) +
      (match values[i] case Word(_) => 0 case Text(chars) => |chars| + 4 case NullText => 3)
    ensures Size(types, values) == TextOffset(types, values, |types|)
  {}

  /** Byte by byte, what the tuple holds for a column of a fixed size: the word, low byte first. */
  lemma WordBytes(types: seq<TypeId>, values: seq<Value>, k: nat, m: nat)
    requires MatchAll(values, types) && Contained(types, values) && k < |types| && values[k].Word?
    requires m < TypeSize(types[k])
    ensures var d, off := Built(types, values, |types|), Offset(types, k);
            off + m < |d| && d[off + m] == values[k].bits / Pow256(m) % 256
  {
    hide Offset, TextOffset, Encode, Pow256, Built, Contained, TypeSize, Slice;
    BuiltHolds(types, values, |types|, k);
    assert Matches(values[k], types[k]);
    RecordLength(values[k], types[k]);
    EncodeIsLittleEndian(values[k].bits, TypeSize(types[k]), m);
    SliceAt(Built(types, values, |types|), Offset(types, k), Encode(values[k].bits, TypeSize(types[k])), m);
  }

  /** For a text: where it lies. */
  lemma OffsetBytes(types: seq<TypeId>, values: seq<Value>, k: nat, m: nat)
    requires MatchAll(values, types) && Contained(types, values) && k < |types| && types[k] == VARCHAR && m < 4
    ensures var d, off := Built(types, values, |types|), Offset(types, k);
            off + m < |d| && d[off + m] == TextOffset(types, values, k) / Pow256(m) % 256
  {
    hide Offset, TextOffset, Encode, Pow256, Built, Contained, Slice;
    BuiltHolds(types, values, |types|, k);
    EncodeIsLittleEndian(TextOffset(types, values, k), 4, m);
    SliceAt(Built(types, values, |types|), Offset(types, k), Encode(TextOffset(types, values, k), 4), m);
  }

  /** And there its length and its characters, or as much as fits of the mark of a NULL. */
  lemma TextBytes(types: seq<TypeId>, values: seq<Value>, k: nat, m: nat)
    requires MatchAll(values, types) && Contained(types, values) && k < |types| && types[k] == VARCHAR
    requires m < (if values[k].Text? then 4 + |values[k].chars| else 3)
    ensures var d, at := Built(types, values, |types|), TextOffset(types, values, k);
            at + m < |d|
            && d[at + m] == if values[k].NullText? then 255
                            else if m < 4 then |values[k].chars| / Pow256(m) % 256 else values[k].chars[m - 4]
  {
    hide Offset, TextOffset, Pow256, Built, Contained, Slice;
    BuiltHolds(types, values, |types|, k);
    assert Matches(values[k], types[k]);
    RecordLength(values[k], types[k]);
    SliceAt(Built(types, values, |types|), TextOffset(types, values, k), Room(values[k], types[k]), m);
    if values[k].Text? {
      if m < 4 { EncodeIsLittleEndian(|values[k].chars|, 4, m); }
    } else {
      NullMark();
    }
    hide Encode;
  }

  lemma SliceAt(d: Bytes, at: nat, bytes: Bytes, m: nat)
    requires Slice(d, at, |bytes|) == bytes && m < |bytes|
    ensures at + m < |d| && d[at + m] == bytes[m]
  {}

  /** Offsets are stored in four bytes and read back as signed, so the tuple must stay below 2 GiB. */
  predicate Representable(types: seq<TypeId>, values: seq<Value>) {
    |types| == |values| && Size(types, values) < 0x8000_0000
  }

  lemma Powers()
    ensures Pow256(1) == 0x100 && Pow256(2) == 0x1_0000 && Pow256(4) == 0x1_0000_0000
  {
    assert Pow256(3) == 256 * Pow256(2);
  }

  lemma SliceSplits(d: Bytes, at: nat, a: Bytes, b: Bytes)
    requires Slice(d, at, |a| + |b|) == a + b && |a| + |b| > 0
    ensures Slice(d, at, |a|) == a && Slice(d, at + |a|, |b|) == b
  {
    var s := a + b;
    assert at + |s| <= |d| && d[at..at + |s|] == s;
    assert d[at..at + |a|] == s[..|a|] == a;
    assert d[at + |a|..at + |s|] == s[|a|..] == b;
  }

  /** Reading a length-prefixed record. */
  lemma RecordReadsBack(d: Bytes, at: nat, chars: Bytes)
    requires |chars| < VALUE_NULL
    requires Slice(d, at, 4 + |chars|) == Encode(|chars|, 4) + chars
    ensures Decode(Slice(d, at, 4)) == |chars| && Slice(d, at + 4, |chars|) == chars
  {
    Powers();
    DecodeEncode(|chars|, 4);
    hide Encode, Decode, Pow256, Slice;
    SliceSplits(d, at, Encode(|chars|, 4), chars);
  }

  lemma TextReadsBack(d: Bytes, types: seq<TypeId>, values: seq<Value>, k: nat)
    requires k < |types| == |values| && types[k] == VARCHAR && values[k].Text? && |values[k].chars| < VALUE_NULL
    requires HoldsColumn(d, types, values, k) && TextOffset(types, values, k) < 0x8000_0000
    ensures GetValue(d, types, k) == values[k]
  {
    Powers();
    hide Encode, Decode, Slice, TextOffset, Offset, Pow256;
    DecodeEncode(TextOffset(types, values, k), 4);
    assert Room(values[k], types[k]) == Serialized(values[k], types[k]);
    RecordReadsBack(d, TextOffset(types, values, k), values[k].chars);
  }

  /** Column k is not a NULL text, or the byte after its three is 255: the low byte of the length of
      the next text. */
  predicate Survives(types: seq<TypeId>, values: seq<Value>, k: nat)
    requires k < |types| == |values|
  {
    values[k].NullText? ==>
      var n := NextText(types, k + 1);
      n < |types| && (values[n].Text? ==> |values[n].chars| % 256 == 255)
  }

  lemma DecodeStep(s: Bytes, low: nat, rest: Bytes)
    requires s != [] && s[0] == low && s[1..] == rest
    ensures Decode(s) == low + 256 * Decode(rest)
  {}

  lemma DecodeFour(s: Bytes)
    requires |s| == 4
    ensures var a: nat, b: nat, c: nat, d: nat := s[0], s[1], s[2], s[3]; Decode(s) == a + 256 * (b + 256 * (c + 256 * d))
  {
    DecodeStep(s, s[0], s[1..]);
    DecodeStep(s[1..], s[1], s[2..]);
    DecodeStep(s[2..], s[2], s[3..]);
    DecodeStep(s[3..], s[3], []);
    assert Decode([]) == 0;
    hide Decode;
  }

  lemma NullMark()
    ensures var e := Encode(VALUE_NULL, 4); e[0] == 255 && e[1] == 255 && e[2] == 255 && e[3] == 255
  {
    var e1 := Encode(0xFF, 1);
    var e2 := Encode(0xFFFF, 2);
    var e3 := Encode(0xFF_FFFF, 3);
    var e4 := Encode(0xFFFF_FFFF, 4);
    assert e1[0] == 255;
    assert e2[0] == 255 && e2[1..] == e1 && e2[1] == e1[0];
    assert e3[0] == 255 && e3[1..] == e2 && e3[1] == e2[0] && e3[2] == e2[1];
    assert e4[0] == 255 && e4[1..] == e3 && e4[1] == e3[0] && e4[2] == e3[1] && e4[3] == e3[2];
  }

  /** A mark of three full bytes and a fourth byte that belongs to the next text. */
  lemma MarkReads(d: Bytes, at: nat, b: Byte)
    requires at + 4 <= |d| && d[at + 3] == b
    requires Slice(d, at, 3) == Encode(VALUE_NULL, 4)[..3]
    ensures Decode(Slice(d, at, 4)) == VALUE_NULL <==> b == 255
  {
    NullMark();
    var s, t := d[at..at + 4], d[at..at + 3];
    DecodeFour(s);
    assert t[0] == 255 && t[1] == 255 && t[2] == 255;
    assert s[0] == t[0] && s[1] == t[1] && s[2] == t[2] && s[3] == b;
    hide Decode, Encode;
  }

  /** The first byte of a text's record: the low byte of its length, or the first of the mark. */
  lemma FirstByte(v: Value, t: TypeId)
    requires Matches(v, t) && t == VARCHAR
    ensures |Room(v, t)| == Extra(v) >= 3
    ensures Room(v, t)[0] == if v.Text? then |v.chars| % 256 else 255
  {
    RecordLength(v, t);
    if v.NullText? { NullMark(); }
  }

  lemma SliceStarts(d: Bytes, at: nat, room: Bytes)
    requires Slice(d, at, |room|) == room && room != []
    ensures at < |d| && d[at] == room[0]
  {}

  lemma NullReadsBackIff(d: Bytes, types: seq<TypeId>, values: seq<Value>, k: nat)
    requires MatchAll(values, types) && Contained(types, values) && k < |types| && values[k].NullText?
    requires NextText(types, k + 1) < |types| && HoldsColumn(d, types, values, NextText(types, k + 1))
    requires |d| == Size(types, values) && HoldsColumn(d, types, values, k) && TextOffset(types, values, k) < 0x8000_0000
    ensures GetValue(d, types, k) == values[k] <==> Survives(types, values, k)
  {
    var n := NextText(types, k + 1);
    var at := TextOffset(types, values, k);
    NextTextIsNext(types, values, k + 1);
    Powers();
    DecodeEncode(at, 4);
    FirstByte(values[n], types[n]);
    RecordLength(values[k], types[k]);
    assert TextOffset(types, values, k + 1) == at + 3;
    hide Decode, TextOffset, Offset, Pow256, NextText, Encode, Slice, Serialized, Extra;
    SliceStarts(d, at + 3, Room(values[n], types[n]));
    MarkReads(d, at, d[at + 3]);
  }

  /** A column of a constructed tuple reads back as the value it was given if and only if it is not
      a NULL text, or the text after it happens to supply the last byte of the NULL mark. */
  lemma {:induction false} GetValueReadsBackIff(types: seq<TypeId>, values: seq<Value>, k: nat)
    requires MatchAll(values, types) && Contained(types, values) && Representable(types, values) && k < |types|
    ensures GetValue(Built(types, values, |types|), types, k) == values[k] <==> Survives(types, values, k)
  {
    hide Built, Encode, Decode, Slice, TextOffset, Offset, Pow256, NextText, HoldsColumn;
    var d := Built(types, values, |types|);
    BuiltHolds(types, values, |types|, k);
    Layout(types, values, k);
    assert Matches(values[k], types[k]);
    if values[k].NullText? {
      BuiltHolds(types, values, |types|, NextText(types, k + 1));
      NullReadsBackIff(d, types, values, k);
    } else if types[k] == VARCHAR {
      TextReadsBack(d, types, values, k);
    } else {
      WordReadsBack(d, types, values, k);
    }
  }

  lemma WordReadsBack(d: Bytes, types: seq<TypeId>, values: seq<Value>, k: nat)
    requires k < |types| == |values| && Matches(values[k], types[k]) && types[k] != VARCHAR
    requires HoldsColumn(d, types, values, k)
    ensures GetValue(d, types, k) == values[k]
  {
    hide Encode, Decode, Slice, TextOffset, Offset, Pow256;
    DecodeEncode(values[k].bits, TypeSize(types[k]));
  }

  /** Without NULL texts every column reads back. */
  lemma GetValueReadsBack(types: seq<TypeId>, values: seq<Value>, k: nat)
    requires MatchAll(values, types) && Representable(types, values) && k < |types|
    requires forall i :: 0 <= i < |types| ==> !values[i].NullText?
    ensures GetValue(Built(types, values, |types|), types, k) == values[k]
  {
    hide Built, TextOffset, Offset, GetValue, NextText;
    GetValueReadsBackIff(types, values, k);
  }

  /** The values `KeyFromTuple` collects. */
  function KeyValues(d: Bytes, types: seq<TypeId>, attrs: seq<nat>): (r: seq<Value>)
    requires Attributes(attrs, |types|)
    ensures |r| == |attrs|
  {
    seq(|attrs|, j requires 0 <= j < |attrs| => GetValue(d, types, attrs[j]))
  }

  function Project(values: seq<Value>, attrs: seq<nat>): (r: seq<Value>)
    requires Attributes(attrs, |values|)
    ensures |r| == |attrs|
  {
    seq(|attrs|, j requires 0 <= j < |attrs| => values[attrs[j]])
  }

  /** `KeyFromTuple` builds what building the key from the original values would have built. */
  lemma KeyFromTupleIsProjection(types: seq<TypeId>, values: seq<Value>, keyTypes: seq<TypeId>, attrs: seq<nat>)
    requires MatchAll(values, types) && Contained(types, values) && Representable(types, values)
    requires |keyTypes| == |attrs| && Attributes(attrs, |types|)
    requires forall j :: 0 <= j < |attrs| ==> Survives(types, values, attrs[j])
    ensures Built(keyTypes, KeyValues(Built(types, values, |types|), types, attrs), |keyTypes|)
         == Built(keyTypes, Project(values, attrs), |keyTypes|)
  {
    var read := KeyValues(Built(types, values, |types|), types, attrs);
    forall j | 0 <= j < |attrs| ensures read[j] == Project(values, attrs)[j] {
      GetValueReadsBackIff(types, values, attrs[j]);
    }
    assert read == Project(values, attrs);
  }

  // ---------------------------------------------------------------- the constructor

  function ExtraOf(values: seq<Value>, idxs: seq<nat>): nat
    requires Attributes(idxs, |values|)
  {
    if idxs == [] then 0 else ExtraOf(values, idxs[..|idxs| - 1]) + Extra(values[idxs[|idxs| - 1]])
  }

  lemma {:induction false} ExtraIsTextOffset(types: seq<TypeId>, values: seq<Value>, i: nat)
    requires MatchAll(values, types) && i <= |types|
    ensures TextOffset(types, values, i) == Offset(types, |types|) + ExtraOf(values, Uninlined(types, i))
  {
    if i > 0 {
      ExtraIsTextOffset(types, values, i - 1);
      if types[i - 1] == VARCHAR {
        assert Uninlined(types, i) == Uninlined(types, i - 1) + [i - 1];
        assert Uninlined(types, i)[..|Uninlined(types, i)| - 1] == Uninlined(types, i - 1);
      } else {
        assert Uninlined(types, i) == Uninlined(types, i - 1);
      }
    }
  }

  /** The first loop of the constructor, over the uninlined columns only. */
  method TupleSize(values: seq<Value>, schema: Schema, ghost types: seq<TypeId>) returns (size: nat)
    requires schema.Lays(types) && MatchAll(values, types)
    ensures size == Size(types, values)
  {
    size := schema.length;
    ExtraIsTextOffset(types, values, |types|);
    hide Uninlined, Offset, TextOffset;
    ghost var idxs := schema.uninlined;
    for j := 0 to |schema.uninlined|
      invariant size == schema.length + ExtraOf(values, idxs[..j])
    {
      assert idxs[..j + 1][..j] == idxs[..j];
      size := size + Extra(values[schema.uninlined[j]]);
    }
    assert idxs[..|idxs|] == idxs;
  }

  class Tuple {
    const data: array<Byte>

    constructor (values: seq<Value>, schema: Schema, ghost types: seq<TypeId>)
      requires schema.Lays(types) && MatchAll(values, types) && Contained(types, values)
      requires Size(types, values) < 0x1_0000_0000
      ensures fresh(data) && data[..] == Built(types, values, |types|)
    {
      var size := TupleSize(values, schema, types);
      data := new Byte[size](_ => 0);
      new;
      assert data[..] == Zeros(size);
      Fill(values, schema, types);
    }

    method Fill(values: seq<Value>, schema: Schema, ghost types: seq<TypeId>)
      requires schema.Lays(types) && MatchAll(values, types) && Contained(types, values)
      requires data[..] == Zeros(Size(types, values))
      modifies data
      ensures data[..] == Built(types, values, |types|)
    {
      hide Built, PutColumn, Uninlined, Offset, TextOffset, Zeros, Matches;
      BuiltStarts(types, values);
      var offset := schema.length;
      for i := 0 to |schema.columns|
        invariant offset == TextOffset(types, values, i)
        invariant data[..] == Built(types, values, i)
      {
        BuiltUnfolds(types, values, i);
        PutColumnValue(schema.columns[i], offset, values[i], types, values, i);
        offset := offset + Extra(values[i]);
      }
    }

    method PutColumnValue(col: Column, offset: nat, v: Value, ghost types: seq<TypeId>, ghost values: seq<Value>, ghost i: nat)
      requires MatchAll(values, types) && Contained(types, values) && i < |types| && v == values[i]
      requires col == Column(types[i], Offset(types, i)) && offset == TextOffset(types, values, i)
      requires data.Length == Size(types, values)
      modifies data
      ensures data[..] == PutColumn(old(data[..]), types, values, i)
    {
      Layout(types, values, i);
      hide Encode, Serialized, Overwrite, Offset, TextOffset;
      if col.typ == VARCHAR {
        Store(col.offset, Encode(offset, 4));
        Store(offset, Serialized(v, col.typ));
      } else {
        Store(col.offset, Serialized(v, col.typ));
      }
    }

    method Store(at: nat, bytes: Bytes)
      requires at + |bytes| <= data.Length
      modifies data
      ensures data[..] == Put(old(data[..]), at, bytes)
    {
      for i := 0 to |bytes|
        invariant forall k :: 0 <= k < data.Length ==>
          data[k] == if at <= k < at + i then bytes[k - at] else old(data[k])
      {
        data[at + i] := bytes[i];
      }
    }
  }

  lemma BuiltStarts(types: seq<TypeId>, values: seq<Value>)
    requires |types| == |values|
    ensures Built(types, values, 0) == Zeros(Size(types, values))
    ensures TextOffset(types, values, 0) == Offset(types, |types|)
  {}

  lemma BuiltUnfolds(types: seq<TypeId>, values: seq<Value>, i: nat)
    requires i < |types| == |values|
    ensures Built(types, values, i + 1) == PutColumn(Built(types, values, i), types, values, i)
    ensures TextOffset(types, values, i + 1) == TextOffset(types, values, i) + Extra(values[i])
  {}
}
