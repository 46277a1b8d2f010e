/** Record batches as rows of values, and batches cut into pieces of a bounded number of
    rows. */
module Batches {
  import opened Common

  // ---------------------------------------------------------------------------
  // Arrays, laid out as Arrow lays them out
  // ---------------------------------------------------------------------------

  type Bytes = seq<byte>

  /** `Offsets`: row `i` of a list or map is the child's rows from `offsets[i]` up to
      `offsets[i + 1]`; slicing it leaves the child alone. `Dict`: rows are indices into the
      values. Leaf types are numbered; cells are their bytes. */
  datatype Arr =
    | Leaf(kind: nat, cells: seq<Option<Bytes>>)
    | Nulls(len: nat)
    | Unsupported(len: nat)
    | List(valid: seq<bool>, offsets: seq<nat>, child: Arr)
    | Record(valid: seq<bool>, fields: seq<Arr>)
    | Map(valid: seq<bool>, offsets: seq<nat>, keys: Arr, values: Arr)
    | Dict(keyWidth: nat, indices: seq<Option<nat>>, kind: nat, cells: seq<Option<Bytes>>)

  /** The part of a ClickHouse type that conversion looks at. */
  datatype Hint = NoHint | ArrayHint(inner: Hint) | EnumHint(keyWidth: nat, pairs: seq<(Bytes, int)>) | OtherHint(code: nat)

  datatype Value =
    | Null
    | Scalar(code: int)
    | Enum(name: Bytes, number: int)
    | Array(items: seq<Value>)
    | Tuple(items: seq<Value>)
    | Entries(keys: seq<Value>, values: seq<Value>)

  /** Conversion of leaf cells: whether a leaf type is supported under a hint, and to what a
      cell converts. */
  datatype Conv = Conv(supports: (nat, Hint) -> bool, cell: (nat, Hint, Bytes) -> Value)

  function Len(a: Arr): nat {
    match a
    case Leaf(_, cells) => |cells|
    case Nulls(n) => n
    case Unsupported(n) => n
    case List(valid, _, _) => |valid|
    case Record(valid, _) => |valid|
    case Map(valid, _, _, _) => |valid|
    case Dict(_, indices, _, _) => |indices|
  }

  /** Arrow's own rules: children as long as their parent, offsets in order and within the
      child, indices within the dictionary. */
  predicate Valid(a: Arr)
    decreases a
  {
    match a
    case List(valid, offsets, child) => Valid(child) && Ordered(offsets, |valid|, Len(child))
    case Record(valid, fields) => forall k | 0 <= k < |fields| :: Valid(fields[k]) && Len(fields[k]) == |valid|
    case Map(valid, offsets, keys, values) =>
      Valid(keys) && Valid(values) && Ordered(offsets, |valid|, Len(keys)) && Len(values) == Len(keys)
    case Dict(_, indices, _, cells) =>
      forall i | 0 <= i < |indices| :: indices[i].Some? ==> indices[i].value < |cells|
    case _ => true
  }

  predicate Ordered(offsets: seq<nat>, rows: nat, end: nat) {
    && |offsets| == rows + 1
    && (forall i | 0 <= i < rows :: offsets[i] <= offsets[i + 1])
    && (forall i | 0 <= i <= rows :: offsets[i] <= end)
  }

  function Depth(a: Arr): nat
    decreases a
  {
    match a
    case List(_, _, child) => Depth(child) + 1
    case Record(_, fields) => DepthAll(fields) + 1
    case Map(_, _, keys, values) => Depth(keys) + Depth(values) + 1
    case _ => 0
  }

  function DepthAll(fields: seq<Arr>): (d: nat)
    ensures forall k | 0 <= k < |fields| :: Depth(fields[k]) <= d
    decreases fields
  {
    if fields == [] then 0 else Depth(fields[0]) + DepthAll(fields[1..])
  }

  /** `n` rows from row `i` on, without copying children of lists and maps. */
  function Slice(a: Arr, i: nat, n: nat): (r: Arr)
    requires Valid(a) && i + n <= Len(a)
    ensures Valid(r) && Len(r) == n
    decreases a
  {
    match a
    case Leaf(kind, cells) => Leaf(kind, cells[i..i + n])
    case Nulls(_) => Nulls(n)
    case Unsupported(_) => Unsupported(n)
    case List(valid, offsets, child) => List(valid[i..i + n], offsets[i..i + n + 1], child)
    case Record(valid, fields) => Record(valid[i..i + n], SliceAll(fields, |valid|, i, n))
    case Map(valid, offsets, keys, values) => Map(valid[i..i + n], offsets[i..i + n + 1], keys, values)
    case Dict(w, indices, kind, cells) => Dict(w, indices[i..i + n], kind, cells)
  }

  function SliceAll(fields: seq<Arr>, len: nat, i: nat, n: nat): (r: seq<Arr>)
    requires i + n <= len && forall k | 0 <= k < |fields| :: Valid(fields[k]) && Len(fields[k]) == len
    ensures |r| == |fields|
    ensures forall k | 0 <= k < |r| :: r[k] == Slice(fields[k], i, n)
    decreases fields
  {
    if fields == [] then [] else [Slice(fields[0], i, n)] + SliceAll(fields[1..], len, i, n)
  }

  lemma {:induction false} SliceDepth(a: Arr, i: nat, n: nat)
    requires Valid(a) && i + n <= Len(a)
    ensures Depth(Slice(a, i, n)) == Depth(a)
    decreases a
  {
    match a
    case Record(valid, fields) => SliceAllDepth(fields, |valid|, i, n);
    case _ =>
  }

  lemma {:induction false} SliceAllDepth(fields: seq<Arr>, len: nat, i: nat, n: nat)
    requires i + n <= len && forall k | 0 <= k < |fields| :: Valid(fields[k]) && Len(fields[k]) == len
    ensures DepthAll(SliceAll(fields, len, i, n)) == DepthAll(fields)
    decreases fields
  {
    if fields != [] {
      SliceDepth(fields[0], i, n);
      SliceAllDepth(fields[1..], len, i, n);
      assert SliceAll(fields, len, i, n)[1..] == SliceAll(fields[1..], len, i, n);
    }
  }

  /** Row `i` of a list or map: the rows of the child it covers. */
  function RowOf(child: Arr, offsets: seq<nat>, i: nat): (r: Arr)
    requires Valid(child) && i + 1 < |offsets| && offsets[i] <= offsets[i + 1] <= Len(child)
    ensures Valid(r) && Depth(r) == Depth(child)
  {
    SliceDepth(child, offsets[i], offsets[i + 1] - offsets[i]);
    Slice(child, offsets[i], offsets[i + 1] - offsets[i])
  }

  // ---------------------------------------------------------------------------
  // Values
  // ---------------------------------------------------------------------------

  type Values = Option<seq<Value>>

  function Cell(cv: Conv, kind: nat, h: Hint, cell: Option<Bytes>): Value {
    if cell.None? then Null else cv.cell(kind, h, cell.value)
  }

  function EnumValue(pairs: seq<(Bytes, int)>, cell: Option<Bytes>): Value
    decreases pairs
  {
    if cell.None? || pairs == [] then Null
    else if pairs[0].0 == cell.value then Enum(cell.value, pairs[0].1)
    else EnumValue(pairs[1..], cell)
  }

  function Looked(indices: seq<Option<nat>>, cells: seq<Option<Bytes>>): (r: seq<Option<Bytes>>)
    requires forall i | 0 <= i < |indices| :: indices[i].Some? ==> indices[i].value < |cells|
    ensures |r| == |indices|
  {
    seq(|indices|, i requires 0 <= i < |indices| => if indices[i].None? then None else cells[indices[i].value])
  }

  function ItemHint(h: Hint): Hint {
    if h.ArrayHint? then h.inner else NoHint
  }

  predicate Nested(a: Arr) {
    a.List? || a.Record? || a.Map?
  }

  /** `array_to_values`. */
  function ToValues(cv: Conv, a: Arr, h: Hint): Values
    requires Valid(a)
    decreases Depth(a), 2
  {
    match a
    case Leaf(kind, cells) =>
      if cv.supports(kind, h) then Some(seq(|cells|, i requires 0 <= i < |cells| => Cell(cv, kind, h, cells[i]))) else None
    case Nulls(n) => Some(seq(n, _ => Null))
    case Unsupported(_) => None
    case List(_, _, _) => AllOf(RowValues(cv, a, h))
    case Record(_, _) => AllOf(RowValues(cv, a, h))
    case Map(_, _, _, _) => AllOf(RowValues(cv, a, h))
    case Dict(w, indices, kind, cells) =>
      var looked := Looked(indices, cells);
      if h.EnumHint? && h.keyWidth == w then
        Some(seq(|looked|, i requires 0 <= i < |looked| => EnumValue(h.pairs, looked[i])))
      else if cv.supports(kind, h) then
        Some(seq(|looked|, i requires 0 <= i < |looked| => Cell(cv, kind, h, looked[i])))
      else None
  }

  /** All the values, if all are there. */
  function AllOf<T>(os: seq<Option<T>>): (r: Option<seq<T>>)
    ensures r.Some? <==> forall i | 0 <= i < |os| :: os[i].Some?
    ensures r.Some? ==> |r.value| == |os| && forall i | 0 <= i < |os| :: os[i] == Some(r.value[i])
  {
    if forall i | 0 <= i < |os| :: os[i].Some?
    then Some(seq(|os|, i requires 0 <= i < |os| => os[i].value))
    else None
  }

  function RowValues(cv: Conv, a: Arr, h: Hint): (os: seq<Option<Value>>)
    requires Valid(a) && Nested(a)
    ensures |os| == Len(a)
    decreases Depth(a), 1
  {
    seq(Len(a), i requires 0 <= i < Len(a) => RowValue(cv, a, h, i))
  }

  /** One row of a nested array; a null row is never looked into. */
  function RowValue(cv: Conv, a: Arr, h: Hint, i: nat): Option<Value>
    requires Valid(a) && Nested(a) && i < Len(a)
    decreases Depth(a), 0
  {
    if !a.valid[i] then Some(Null)
    else
      match a
      case List(_, offsets, child) =>
        (match ToValues(cv, RowOf(child, offsets, i), ItemHint(h))
         case None => None
         case Some(items) => Some(Array(items)))
      case Map(_, offsets, keys, values) =>
        (match ToValues(cv, RowOf(keys, offsets, i), NoHint)
         case None => None
         case Some(ks) =>
           match ToValues(cv, RowOf(values, offsets, i), NoHint)
           case None => None
           case Some(vs) => Some(Entries(ks, vs)))
      case Record(_, fields) =>
        match Singles(cv, fields, |a.valid|, i)
        case None => None
        case Some(items) => Some(Tuple(items))
  }

  /** Row `i` of every field of a record, each converted as an array of one row. */
  function Singles(cv: Conv, fields: seq<Arr>, len: nat, i: nat): Values
    requires i < len && forall k | 0 <= k < |fields| :: Valid(fields[k]) && Len(fields[k]) == len
    decreases DepthAll(fields), 3, fields
  {
    if fields == [] then Some([])
    else
      SliceDepth(fields[0], i, 1);
      match ToValues(cv, Slice(fields[0], i, 1), NoHint)
      case None => None
      case Some(one) =>
        match Singles(cv, fields[1..], len, i)
        case None => None
        case Some(rest) => Some((if one == [] then [Null] else [one[0]]) + rest)
  }

  /** A conversion gives one value per row. */
  lemma ToValuesLength(cv: Conv, a: Arr, h: Hint)
    requires Valid(a) && ToValues(cv, a, h).Some?
    ensures |ToValues(cv, a, h).value| == Len(a)
  {
  }

  // ---------------------------------------------------------------------------
  // Slicing
  // ---------------------------------------------------------------------------

  lemma SubSub<T>(s: seq<T>, i: nat, n: nat, j: nat, m: nat)
    requires i + n <= |s| && j + m <= n
    ensures s[i..i + n][j..j + m] == s[i + j..i + j + m]
  {
    var t := s[i..i + n];
    var u, v := t[j..j + m], s[i + j..i + j + m];
    forall k | 0 <= k < |u| ensures u[k] == v[k] {
      assert t[j + k] == s[i + (j + k)];
    }
  }

  lemma {:induction false} SliceSlice(a: Arr, i: nat, n: nat, j: nat, m: nat)
    requires Valid(a) && i + n <= Len(a) && j + m <= n
    ensures Slice(Slice(a, i, n), j, m) == Slice(a, i + j, m)
    decreases a
  {
    match a
    case Record(valid, fields) =>
      SubSub(valid, i, n, j, m);
      SliceAllSlice(fields, |valid|, i, n, j, m);
    case Leaf(_, cells) => SubSub(cells, i, n, j, m);
    case List(valid, offsets, _) =>
      SubSub(valid, i, n, j, m);
      SubSub(offsets, i, n + 1, j, m + 1);
    case Map(valid, offsets, _, _) =>
      SubSub(valid, i, n, j, m);
      SubSub(offsets, i, n + 1, j, m + 1);
    case Dict(_, indices, _, _) => SubSub(indices, i, n, j, m);
    case _ =>
  }

  lemma {:induction false} SliceAllSlice(fields: seq<Arr>, len: nat, i: nat, n: nat, j: nat, m: nat)
    requires i + n <= len && j + m <= n && forall k | 0 <= k < |fields| :: Valid(fields[k]) && Len(fields[k]) == len
    ensures SliceAll(SliceAll(fields, len, i, n), n, j, m) == SliceAll(fields, len, i + j, m)
    decreases fields
  {
    if fields != [] {
      SliceSlice(fields[0], i, n, j, m);
      SliceAllSlice(fields[1..], len, i, n, j, m);
      assert SliceAll(fields, len, i, n)[1..] == SliceAll(fields[1..], len, i, n);
    }
  }

  lemma {:induction false} SinglesSlice(cv: Conv, fields: seq<Arr>, len: nat, s: nat, n: nat, i: nat)
    requires s + n <= len && i < n && forall k | 0 <= k < |fields| :: Valid(fields[k]) && Len(fields[k]) == len
    ensures Singles(cv, SliceAll(fields, len, s, n), n, i) == Singles(cv, fields, len, s + i)
    decreases fields
  {
    if fields != [] {
      SliceSlice(fields[0], s, n, i, 1);
      SinglesSlice(cv, fields[1..], len, s, n, i);
      assert SliceAll(fields, len, s, n)[1..] == SliceAll(fields[1..], len, s, n);
    }
  }

  lemma RowSlice(cv: Conv, a: Arr, h: Hint, s: nat, n: nat, i: nat)
    requires Valid(a) && Nested(a) && s + n <= Len(a) && i < n
    ensures RowValue(cv, Slice(a, s, n), h, i) == RowValue(cv, a, h, s + i)
  {
    match a
    case Record(valid, fields) => SinglesSlice(cv, fields, |valid|, s, n, i);
    case List(_, offsets, child) => RowOfSlice(child, offsets, s, n, i);
    case Map(_, offsets, keys, values) =>
      RowOfSlice(keys, offsets, s, n, i);
      RowOfSlice(values, offsets, s, n, i);
  }

  lemma RowOfSlice(child: Arr, offsets: seq<nat>, s: nat, n: nat, i: nat)
    requires Valid(child) && i < n && s + n + 1 <= |offsets|
    requires offsets[s + i] <= offsets[s + i + 1] <= Len(child)
    ensures RowOf(child, offsets[s..s + n + 1], i) == RowOf(child, offsets, s + i)
  {
  }

  lemma RowValuesSlice(cv: Conv, a: Arr, h: Hint, s: nat, n: nat)
    requires Valid(a) && Nested(a) && s + n <= Len(a)
    ensures Nested(Slice(a, s, n)) && RowValues(cv, Slice(a, s, n), h) == RowValues(cv, a, h)[s..s + n]
  {
    forall i | 0 <= i < n ensures RowValue(cv, Slice(a, s, n), h, i) == RowValue(cv, a, h, s + i) {
      RowSlice(cv, a, h, s, n, i);
    }
  }

  lemma AllOfSlice<T>(os: seq<Option<T>>, s: nat, n: nat)
    requires s + n <= |os| && AllOf(os).Some?
    ensures AllOf(os[s..s + n]) == Some(AllOf(os).value[s..s + n])
  {
    assert AllOf(os[s..s + n]).value == AllOf(os).value[s..s + n];
  }

  lemma FlatSlice(cv: Conv, a: Arr, h: Hint, s: nat, n: nat)
    requires Valid(a) && !Nested(a) && s + n <= Len(a)
    ensures ToValues(cv, Slice(a, s, n), h).Some? <==> ToValues(cv, a, h).Some?
    ensures ToValues(cv, a, h).Some? ==>
              |ToValues(cv, a, h).value| == Len(a)
              && ToValues(cv, Slice(a, s, n), h).value == ToValues(cv, a, h).value[s..s + n]
  {
    if ToValues(cv, a, h).Some? {
      var part, whole := ToValues(cv, Slice(a, s, n), h).value, ToValues(cv, a, h).value;
      assert |part| == n && |whole| == Len(a);
      forall i | 0 <= i < n ensures part[i] == whole[s + i] {
        if a.Dict? { assert Looked(a.indices[s..s + n], a.cells)[i] == Looked(a.indices, a.cells)[s + i]; }
      }
      assert part == whole[s..s + n];
    }
  }

  /** Any slice of an array that converts, converts to that slice of the values: through
      lists, maps, records and dictionaries. */
  lemma SliceCommutes(cv: Conv, a: Arr, h: Hint, s: nat, n: nat)
    requires Valid(a) && s + n <= Len(a) && ToValues(cv, a, h).Some?
    ensures |ToValues(cv, a, h).value| == Len(a)
    ensures ToValues(cv, Slice(a, s, n), h) == Some(ToValues(cv, a, h).value[s..s + n])
  {
    if Nested(a) {
      RowValuesSlice(cv, a, h, s, n);
      AllOfSlice(RowValues(cv, a, h), s, n);
    } else {
      FlatSlice(cv, a, h, s, n);
    }
  }

  /** Every row lies in one of the stretches. */
  predicate Covers(cuts: seq<(nat, nat)>, rows: nat) {
    && (forall k | 0 <= k < |cuts| :: cuts[k].0 + cuts[k].1 <= rows)
    && forall i | 0 <= i < rows :: InSome(cuts, i)
  }

  predicate InSome(cuts: seq<(nat, nat)>, i: nat) {
    exists k | 0 <= k < |cuts| :: InCut(cuts[k], i)
  }

  predicate InCut(cut: (nat, nat), i: nat) {
    cut.0 <= i < cut.0 + cut.1
  }

  /** An array that does not convert has a slice that does not, among any that cover it. */
  lemma BadSlice(cv: Conv, a: Arr, h: Hint, cuts: seq<(nat, nat)>) returns (k: nat)
    requires Valid(a) && Covers(cuts, Len(a)) && cuts != [] && ToValues(cv, a, h).None?
    ensures k < |cuts| && ToValues(cv, Slice(a, cuts[k].0, cuts[k].1), h).None?
  {
    if Nested(a) {
      var i :| 0 <= i < Len(a) && RowValues(cv, a, h)[i].None?;
      assert InSome(cuts, i);
      k :| 0 <= k < |cuts| && InCut(cuts[k], i);
      RowValuesSlice(cv, a, h, cuts[k].0, cuts[k].1);
      assert RowValues(cv, Slice(a, cuts[k].0, cuts[k].1), h)[i - cuts[k].0].None?;
    } else {
      k := 0;
      FlatSlice(cv, a, h, cuts[0].0, cuts[0].1);
    }
  }

  // ---------------------------------------------------------------------------
  // Batches
  // ---------------------------------------------------------------------------

  /** A record batch: columns of `rows` rows each, with the hint found for its name. */
  datatype Batch = Batch(columns: seq<Arr>, hints: seq<Hint>, rows: nat)

  predicate ValidBatch(b: Batch) {
    && |b.hints| == |b.columns|
    && forall k | 0 <= k < |b.columns| :: Valid(b.columns[k]) && Len(b.columns[k]) == b.rows
  }

  function SliceBatch(b: Batch, i: nat, n: nat): (r: Batch)
    requires ValidBatch(b) && i + n <= b.rows
    ensures ValidBatch(r) && r.rows == n
  {
    Batch(SliceAll(b.columns, b.rows, i, n), b.hints, n)
  }

  type Rows = Option<seq<seq<Value>>>

  function ColumnValues(cv: Conv, b: Batch): (os: seq<Values>)
    requires ValidBatch(b)
    ensures |os| == |b.columns|
    ensures forall k | 0 <= k < |os| :: os[k].Some? ==> |os[k].value| == b.rows
  {
    seq(|b.columns|, k requires 0 <= k < |b.columns| => Column(cv, b.columns[k], b.hints[k]))
  }

  function Column(cv: Conv, a: Arr, h: Hint): (v: Values)
    requires Valid(a)
    ensures v.Some? ==> |v.value| == Len(a)
  {
    if ToValues(cv, a, h).None? then None
    else
      ToValuesLength(cv, a, h);
      ToValues(cv, a, h)
  }

  /** Columns of values turned into rows. */
  function Turned(columns: seq<seq<Value>>, rows: nat): (r: seq<seq<Value>>)
    requires forall k | 0 <= k < |columns| :: |columns[k]| == rows
    ensures |r| == rows
  {
    seq(rows, i requires 0 <= i < rows => seq(|columns|, k requires 0 <= k < |columns| => columns[k][i]))
  }

  /** `batch_to_rows`: every column converted once, then one row after another. */
  function ToRows(cv: Conv, b: Batch): Rows
    requires ValidBatch(b)
  {
    match AllOf(ColumnValues(cv, b))
    case None => None
    case Some(columns) => Some(Turned(columns, b.rows))
  }

  lemma TurnedSlice(columns: seq<seq<Value>>, rows: nat, s: nat, n: nat, parts: seq<seq<Value>>)
    requires s + n <= rows && |parts| == |columns| && forall k | 0 <= k < |columns| :: |columns[k]| == rows
    requires forall k | 0 <= k < |parts| :: parts[k] == columns[k][s..s + n]
    ensures Turned(parts, n) == Turned(columns, rows)[s..s + n]
  {
    forall i | 0 <= i < n ensures Turned(parts, n)[i] == Turned(columns, rows)[s + i] {
      assert forall k | 0 <= k < |parts| :: parts[k][i] == columns[k][s + i];
    }
  }

  /** Slicing a batch slices its rows. */
  lemma RowsSlice(cv: Conv, b: Batch, s: nat, n: nat)
    requires ValidBatch(b) && s + n <= b.rows && ToRows(cv, b).Some?
    ensures ToRows(cv, SliceBatch(b, s, n)) == Some(ToRows(cv, b).value[s..s + n])
  {
    var piece := SliceBatch(b, s, n);
    var whole, part := ColumnValues(cv, b), ColumnValues(cv, piece);
    forall k | 0 <= k < |b.columns|
      ensures part[k] == Some(whole[k].value[s..s + n])
    {
      assert AllOf(whole).Some? && whole[k].Some? && whole[k] == Column(cv, b.columns[k], b.hints[k]);
      SliceCommutes(cv, b.columns[k], b.hints[k], s, n);
    }
    TurnedSlice(AllOf(whole).value, b.rows, s, n, AllOf(part).value);
  }

  /** If the rows of a batch cannot be made, neither can those of some piece. */
  lemma BadPiece(cv: Conv, b: Batch, cuts: seq<(nat, nat)>) returns (k: nat)
    requires ValidBatch(b) && Covers(cuts, b.rows) && cuts != [] && ToRows(cv, b).None?
    ensures k < |cuts| && ToRows(cv, SliceBatch(b, cuts[k].0, cuts[k].1)).None?
  {
    var c :| 0 <= c < |b.columns| && ColumnValues(cv, b)[c].None?;
    k := BadSlice(cv, b.columns[c], b.hints[c], cuts);
    assert ColumnValues(cv, SliceBatch(b, cuts[k].0, cuts[k].1))[c].None?;
  }

  // ---------------------------------------------------------------------------
  // Splitting
  // ---------------------------------------------------------------------------

  /** Where the pieces from row `offset` on begin, and how long they are. */
  function Cuts(rows: nat, max: nat, offset: nat): (r: seq<(nat, nat)>)
    requires 0 < max && offset <= rows
    ensures forall k | 0 <= k < |r| :: r[k].0 + r[k].1 <= rows
    decreases rows - offset
  {
    if offset == rows then []
    else
      var n := Min(rows - offset, max);
      [(offset, n)] + Cuts(rows, max, offset + n)
  }

  function Slices(b: Batch, cuts: seq<(nat, nat)>): (r: seq<Batch>)
    requires ValidBatch(b) && forall k | 0 <= k < |cuts| :: cuts[k].0 + cuts[k].1 <= b.rows
    ensures |r| == |cuts|
  {
    seq(|cuts|, k requires 0 <= k < |cuts| => SliceBatch(b, cuts[k].0, cuts[k].1))
  }

  function Split(b: Batch, max: nat): seq<Batch>
    requires ValidBatch(b)
  {
    if max == 0 then []
    else if b.rows == 0 || b.rows < max then [b]
    else Slices(b, Cuts(b.rows, max, 0))
  }

  lemma SlicesFirst(b: Batch, max: nat, offset: nat, n: nat)
    requires ValidBatch(b) && 0 < max && offset < b.rows && n == Min(b.rows - offset, max)
    ensures Slices(b, Cuts(b.rows, max, offset))
         == [SliceBatch(b, offset, n)] + Slices(b, Cuts(b.rows, max, offset + n))
  {
  }

  method SplitRecordBatch(b: Batch, max: nat) returns (chunks: seq<Batch>)
    requires ValidBatch(b)
    ensures chunks == Split(b, max)
  {
    if max == 0 {
      return [];
    }
    if b.rows == 0 || b.rows < max {
      return [b];
    }
    chunks := CutPieces(b, max);
  }

  method CutPieces(b: Batch, max: nat) returns (chunks: seq<Batch>)
    requires ValidBatch(b) && 0 < max
    ensures chunks == Slices(b, Cuts(b.rows, max, 0))
  {
    chunks := [];
    var offset := 0;
    while offset < b.rows
      invariant 0 <= offset <= b.rows
      invariant chunks + Slices(b, Cuts(b.rows, max, offset)) == Slices(b, Cuts(b.rows, max, 0))
    {
      var n := Min(b.rows - offset, max);
      var piece := SliceBatch(b, offset, n);
      SlicesFirst(b, max, offset, n);
      ConcatAssoc(chunks, [piece], Slices(b, Cuts(b.rows, max, offset + n)));
      chunks := chunks + [piece];
      offset := offset + n;
    }
    assert chunks + [] == chunks;
  }

  function Glued(first: Rows, rest: Rows): Rows {
    if first.None? || rest.None? then None else Some(first.value + rest.value)
  }

  /** All pieces as rows, one after another. */
  function GluedAll(rows: seq<Rows>): Rows {
    if rows == [] then Some([]) else Glued(rows[0], GluedAll(rows[1..]))
  }

  function PieceRows(cv: Conv, pieces: seq<Batch>): (r: seq<Rows>)
    ensures |r| == |pieces|
  {
    seq(|pieces|, k requires 0 <= k < |pieces| => if ValidBatch(pieces[k]) then ToRows(cv, pieces[k]) else None)
  }

  lemma GluedNothing(rows: Rows)
    ensures Glued(rows, Some([])) == rows
  {
    if rows.Some? { assert rows.value + [] == rows.value; }
  }

  lemma {:induction false} CutsCover(rows: nat, max: nat, offset: nat, i: nat)
    requires 0 < max && offset <= i < rows
    ensures InSome(Cuts(rows, max, offset), i)
    decreases rows - offset
  {
    var n := Min(rows - offset, max);
    var cuts, later := Cuts(rows, max, offset), Cuts(rows, max, offset + n);
    assert cuts == [(offset, n)] + later;
    if i < offset + n {
      assert InCut(cuts[0], i);
    } else {
      CutsCover(rows, max, offset + n, i);
      var k :| 0 <= k < |later| && InCut(later[k], i);
      assert InCut(cuts[k + 1], i);
    }
  }

  /** The stretches of a sequence of rows. */
  function Stretches(whole: seq<seq<Value>>, cuts: seq<(nat, nat)>): (r: seq<Rows>)
    requires forall k | 0 <= k < |cuts| :: cuts[k].0 + cuts[k].1 <= |whole|
    ensures |r| == |cuts|
  {
    seq(|cuts|, k requires 0 <= k < |cuts| => Some(whole[cuts[k].0..cuts[k].0 + cuts[k].1]))
  }

  lemma StretchesFirst(whole: seq<seq<Value>>, cut: (nat, nat), later: seq<(nat, nat)>)
    requires cut.0 + cut.1 <= |whole| && forall k | 0 <= k < |later| :: later[k].0 + later[k].1 <= |whole|
    ensures Stretches(whole, [cut] + later) == [Some(whole[cut.0..cut.0 + cut.1])] + Stretches(whole, later)
  {
  }

  lemma GluedFirst(first: seq<seq<Value>>, rest: seq<Rows>, more: seq<seq<Value>>)
    requires GluedAll(rest) == Some(more)
    ensures GluedAll([Some(first)] + rest) == Some(first + more)
  {
    assert ([Some(first)] + rest)[1..] == rest;
  }

  /** Cut into pieces and put together again, nothing changes. */
  lemma {:induction false} CutsGlue(whole: seq<seq<Value>>, max: nat, offset: nat)
    requires 0 < max && offset <= |whole|
    ensures GluedAll(Stretches(whole, Cuts(|whole|, max, offset))) == Some(whole[offset..])
    decreases |whole| - offset
  {
    if offset < |whole| {
      var n := Min(|whole| - offset, max);
      var later := Cuts(|whole|, max, offset + n);
      StretchesFirst(whole, (offset, n), later);
      CutsGlue(whole, max, offset + n);
      GluedFirst(whole[offset..offset + n], Stretches(whole, later), whole[offset + n..]);
      assert whole[offset..offset + n] + whole[offset + n..] == whole[offset..];
    }
  }

  lemma {:induction false} GluedFails(rows: seq<Rows>, k: nat)
    requires k < |rows| && rows[k].None?
    ensures GluedAll(rows).None?
    decreases k
  {
    if k > 0 { GluedFails(rows[1..], k - 1); }
  }

  lemma OnePiece(cv: Conv, b: Batch)
    requires ValidBatch(b)
    ensures GluedAll(PieceRows(cv, [b])) == ToRows(cv, b)
  {
    assert PieceRows(cv, [b]) == [ToRows(cv, b)] && [ToRows(cv, b)][1..] == [];
    GluedNothing(ToRows(cv, b));
  }

  lemma ManyPieces(cv: Conv, b: Batch, max: nat, cuts: seq<(nat, nat)>)
    requires ValidBatch(b) && 0 < max && 0 < b.rows && cuts == Cuts(b.rows, max, 0)
    ensures GluedAll(PieceRows(cv, Slices(b, cuts))) == ToRows(cv, b)
  {
    var rows := PieceRows(cv, Slices(b, cuts));
    if ToRows(cv, b).Some? {
      forall k | 0 <= k < |cuts| ensures rows[k] == Some(ToRows(cv, b).value[cuts[k].0..cuts[k].0 + cuts[k].1]) {
        RowsSlice(cv, b, cuts[k].0, cuts[k].1);
      }
      assert rows == Stretches(ToRows(cv, b).value, cuts);
      CutsGlue(ToRows(cv, b).value, max, 0);
      assert ToRows(cv, b).value[0..] == ToRows(cv, b).value;
    } else {
      forall i | 0 <= i < b.rows ensures InSome(cuts, i) { CutsCover(b.rows, max, 0, i); }
      var k := BadPiece(cv, b, cuts);
      GluedFails(rows, k);
    }
  }

  /** The rows of the pieces, one after another, are the rows of the whole, and all pieces
      convert if and only if the whole does. */
  lemma SplitKeepsRows(cv: Conv, b: Batch, max: nat)
    requires ValidBatch(b) && max > 0
    ensures GluedAll(PieceRows(cv, Split(b, max))) == ToRows(cv, b)
  {
    if b.rows == 0 || b.rows < max {
      OnePiece(cv, b);
    } else {
      ManyPieces(cv, b, max, Cuts(b.rows, max, 0));
    }
  }

  /** A maximum of zero gives no piece: the rows are kept exactly when there are none. */
  lemma ZeroLosesRowsIff(cv: Conv, b: Batch)
    requires ValidBatch(b) && ToRows(cv, b).Some?
    ensures GluedAll(PieceRows(cv, Split(b, 0))) == ToRows(cv, b) <==> b.rows == 0
  {
  }

  lemma {:induction false} CutSizes(rows: nat, max: nat, offset: nat)
    requires 0 < max && offset < rows
    ensures var p := Cuts(rows, max, offset);
            && p != []
            && (forall k | 0 <= k < |p| - 1 :: p[k].1 == max)
            && 0 < p[|p| - 1].1 <= max
            && rows - offset == max * (|p| - 1) + p[|p| - 1].1
    decreases rows - offset
  {
    if rows - offset > max {
      CutSizes(rows, max, offset + max);
      var q := Cuts(rows, max, offset + max);
      assert Cuts(rows, max, offset) == [(offset, max)] + q;
      Distribute(max, |q| - 1, 1);
    } else {
      assert Cuts(rows, max, offset) == [(offset, rows - offset)];
    }
  }

  /** A batch with rows is cut into as few pieces as can hold them: `ceil(rows / max)`, all
      but the last of exactly `max` rows, the last of the rest. */
  lemma SplitSizes(b: Batch, max: nat)
    requires ValidBatch(b) && 0 < max && 0 < b.rows
    ensures var p := Split(b, max);
            && |p| == (b.rows + max - 1) / max
            && (forall k | 0 <= k < |p| - 1 :: p[k].rows == max)
            && p != [] && p[|p| - 1].rows == b.rows - max * (|p| - 1)
  {
    if b.rows < max {
      DivModUnique(b.rows + max - 1, max, 1, b.rows - 1);
    } else {
      var p := Cuts(b.rows, max, 0);
      CutSizes(b.rows, max, 0);
      Distribute(max, |p| - 1, 1);
      DivModUnique(b.rows + max - 1, max, |p|, p[|p| - 1].1 - 1);
    }
  }
}
