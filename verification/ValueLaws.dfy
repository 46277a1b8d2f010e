/** The value at each row of an array, read off validity, offsets, indices and cells. */
module ValueLaws {
  import opened Common
  import opened Batches

  // ---------------------------------------------------------------------------
  // The value of one row
  // ---------------------------------------------------------------------------

  /** The first pair of a name. */
  predicate FirstPair(pairs: seq<(Bytes, int)>, name: Bytes, k: nat) {
    k < |pairs| && pairs[k].0 == name && forall j | 0 <= j < k :: pairs[j].0 != name
  }

  lemma OneFirstPair(pairs: seq<(Bytes, int)>, name: Bytes, j: nat, k: nat)
    requires FirstPair(pairs, name, j) && FirstPair(pairs, name, k)
    ensures j == k
  {
  }

  ghost function NamedValue(pairs: seq<(Bytes, int)>, name: Bytes): Value {
    if exists k: nat :: FirstPair(pairs, name, k) then
      var k: nat :| FirstPair(pairs, name, k);
      Enum(name, pairs[k].1)
    else Null
  }

  ghost function CellValue(cv: Conv, kind: nat, h: Hint, cell: Option<Bytes>): Value {
    match cell
    case None => Null
    case Some(bytes) => cv.cell(kind, h, bytes)
  }

  /** The value of row `i`: a list is the values of its child from one offset to the next, a map
      those of its keys and those of its values, a record one value a field in the order of the
      fields, a dictionary the cell its index names, and a null row is null whatever is below. */
  ghost function ValueAt(cv: Conv, a: Arr, h: Hint, i: nat): Value
    requires Valid(a) && i < Len(a)
    decreases a
  {
    match a
    case Leaf(kind, cells) => CellValue(cv, kind, h, cells[i])
    case Nulls(_) => Null
    case Unsupported(_) => Null
    case List(valid, offsets, child) =>
      if !valid[i] then Null
      else
        var from, n := offsets[i], offsets[i + 1] - offsets[i];
        var inner := match h case ArrayHint(x) => x case _ => NoHint;
        Array(seq(n, j requires 0 <= j < n => ValueAt(cv, child, inner, from + j)))
    case Map(valid, offsets, keys, values) =>
      if !valid[i] then Null
      else
        var from, n := offsets[i], offsets[i + 1] - offsets[i];
        Entries(seq(n, j requires 0 <= j < n => ValueAt(cv, keys, NoHint, from + j)),
                seq(n, j requires 0 <= j < n => ValueAt(cv, values, NoHint, from + j)))
    case Record(valid, fields) =>
      if !valid[i] then Null
      else Tuple(seq(|fields|, k requires 0 <= k < |fields| => ValueAt(cv, fields[k], NoHint, i)))
    case Dict(width, indices, kind, cells) =>
      if indices[i].None? || cells[indices[i].value].None? then Null
      else
        var name := cells[indices[i].value].value;
        match h
        case EnumHint(w, pairs) => if w == width then NamedValue(pairs, name) else cv.cell(kind, h, name)
        case _ => cv.cell(kind, h, name)
  }

  // ---------------------------------------------------------------------------
  // Slices
  // ---------------------------------------------------------------------------

  /** A slice has the values of the rows it covers. */
  lemma {:induction false} ValueOfSlice(cv: Conv, a: Arr, h: Hint, s: nat, n: nat, i: nat)
    requires Valid(a) && s + n <= Len(a) && i < n
    ensures ValueAt(cv, Slice(a, s, n), h, i) == ValueAt(cv, a, h, s + i)
    decreases a
  {
    match a
    case Record(valid, fields) =>
      var cut := SliceAll(fields, |valid|, s, n);
      if valid[s + i] {
        forall k | 0 <= k < |fields| ensures ValueAt(cv, cut[k], NoHint, i) == ValueAt(cv, fields[k], NoHint, s + i) {
          ValueOfSlice(cv, fields[k], NoHint, s, n, i);
        }
        assert ValueAt(cv, Slice(a, s, n), h, i).items == ValueAt(cv, a, h, s + i).items;
      }
    case _ =>
  }

  /** The values of `n` rows from row `s` on. */
  ghost function ValuesFrom(cv: Conv, a: Arr, h: Hint, s: nat, n: nat): (vs: seq<Value>)
    requires Valid(a) && s + n <= Len(a)
    ensures |vs| == n && forall j | 0 <= j < n :: vs[j] == ValueAt(cv, a, h, s + j)
  {
    seq(n, j requires 0 <= j < n => ValueAt(cv, a, h, s + j))
  }

  ghost predicate Gives(cv: Conv, a: Arr, h: Hint)
    requires Valid(a)
  {
    ToValues(cv, a, h).Some? ==> ToValues(cv, a, h).value == ValuesFrom(cv, a, h, 0, Len(a))
  }

  lemma StretchSame(cv: Conv, child: Arr, h: Hint, s: nat, n: nat)
    requires Valid(child) && s + n <= Len(child)
    ensures ValuesFrom(cv, Slice(child, s, n), h, 0, n) == ValuesFrom(cv, child, h, s, n)
  {
    forall j | 0 <= j < n ensures ValuesFrom(cv, Slice(child, s, n), h, 0, n)[j] == ValuesFrom(cv, child, h, s, n)[j] {
      ValueOfSlice(cv, child, h, s, n, j);
    }
  }

  lemma StretchGives(cv: Conv, child: Arr, h: Hint, s: nat, n: nat)
    requires Valid(child) && s + n <= Len(child) && Gives(cv, Slice(child, s, n), h)
    requires ToValues(cv, Slice(child, s, n), h).Some?
    ensures ToValues(cv, Slice(child, s, n), h).value == ValuesFrom(cv, child, h, s, n)
  {
    StretchSame(cv, child, h, s, n);
  }

  // ---------------------------------------------------------------------------
  // The theorem
  // ---------------------------------------------------------------------------

  lemma {:induction false} EnumIsNamed(pairs: seq<(Bytes, int)>, name: Bytes)
    ensures EnumValue(pairs, Some(name)) == NamedValue(pairs, name)
    decreases pairs
  {
    if pairs != [] {
      if pairs[0].0 == name {
        assert FirstPair(pairs, name, 0);
        var k: nat :| FirstPair(pairs, name, k) && NamedValue(pairs, name) == Enum(name, pairs[k].1);
        OneFirstPair(pairs, name, 0, k);
      } else {
        EnumIsNamed(pairs[1..], name);
        LaterPair(pairs, name);
      }
    }
  }

  lemma LaterPair(pairs: seq<(Bytes, int)>, name: Bytes)
    requires pairs != [] && pairs[0].0 != name
    ensures NamedValue(pairs, name) == NamedValue(pairs[1..], name)
  {
    var later := pairs[1..];
    if exists k: nat :: FirstPair(later, name, k) {
      var k: nat :| FirstPair(later, name, k) && NamedValue(later, name) == Enum(name, later[k].1);
      assert FirstPair(pairs, name, k + 1);
      var j: nat :| FirstPair(pairs, name, j) && NamedValue(pairs, name) == Enum(name, pairs[j].1);
      OneFirstPair(pairs, name, j, k + 1);
    } else if exists k: nat :: FirstPair(pairs, name, k) {
      var k: nat :| FirstPair(pairs, name, k);
      assert FirstPair(later, name, k - 1);
      assert false;
    }
  }

  lemma DictGives(cv: Conv, a: Arr, h: Hint)
    requires a.Dict? && Valid(a)
    ensures Gives(cv, a, h)
  {
    forall i | 0 <= i < |a.indices| && a.indices[i].Some? && a.cells[a.indices[i].value].Some? && h.EnumHint?
      ensures EnumValue(h.pairs, a.cells[a.indices[i].value]) == NamedValue(h.pairs, a.cells[a.indices[i].value].value)
    {
      EnumIsNamed(h.pairs, a.cells[a.indices[i].value].value);
    }
  }

  /** One row of a nested array. */
  ghost predicate RowGives(cv: Conv, a: Arr, h: Hint, i: nat)
    requires Valid(a) && Nested(a) && i < Len(a)
  {
    RowValue(cv, a, h, i).Some? ==> RowValue(cv, a, h, i).value == ValueAt(cv, a, h, i)
  }

  lemma {:induction false} SinglesGive(cv: Conv, fields: seq<Arr>, len: nat, i: nat)
    requires i < len && forall k | 0 <= k < |fields| :: Valid(fields[k]) && Len(fields[k]) == len
    requires forall k | 0 <= k < |fields| :: Gives(cv, Slice(fields[k], i, 1), NoHint)
    ensures var r := Singles(cv, fields, len, i);
            r.Some? ==> r.value == seq(|fields|, k requires 0 <= k < |fields| => ValueAt(cv, fields[k], NoHint, i))
    decreases fields
  {
    if fields != [] {
      SinglesGive(cv, fields[1..], len, i);
      if Singles(cv, fields, len, i).Some? {
        StretchGives(cv, fields[0], NoHint, i, 1);
        assert ToValues(cv, Slice(fields[0], i, 1), NoHint).value == [ValueAt(cv, fields[0], NoHint, i + 0)];
      }
    }
  }

  lemma ListRowGives(cv: Conv, a: Arr, h: Hint, i: nat)
    requires a.List? && Valid(a) && i < Len(a)
    requires a.valid[i] ==> Gives(cv, RowOf(a.child, a.offsets, i), ItemHint(h))
    ensures RowGives(cv, a, h, i)
  {
    if a.valid[i] && RowValue(cv, a, h, i).Some? {
      StretchGives(cv, a.child, ItemHint(h), a.offsets[i], a.offsets[i + 1] - a.offsets[i]);
      assert RowValue(cv, a, h, i).value.items == ValueAt(cv, a, h, i).items;
    }
  }

  lemma MapRowGives(cv: Conv, a: Arr, h: Hint, i: nat)
    requires a.Map? && Valid(a) && i < Len(a)
    requires a.valid[i] ==> Gives(cv, RowOf(a.keys, a.offsets, i), NoHint) && Gives(cv, RowOf(a.values, a.offsets, i), NoHint)
    ensures RowGives(cv, a, h, i)
  {
    if a.valid[i] && RowValue(cv, a, h, i).Some? {
      var from, n := a.offsets[i], a.offsets[i + 1] - a.offsets[i];
      StretchGives(cv, a.keys, NoHint, from, n);
      StretchGives(cv, a.values, NoHint, from, n);
      assert RowValue(cv, a, h, i).value.keys == ValueAt(cv, a, h, i).keys;
      assert RowValue(cv, a, h, i).value.values == ValueAt(cv, a, h, i).values;
    }
  }

  lemma RowsGive(cv: Conv, a: Arr, h: Hint)
    requires Valid(a) && Nested(a) && forall i | 0 <= i < Len(a) :: RowGives(cv, a, h, i)
    ensures Gives(cv, a, h)
  {
    if ToValues(cv, a, h).Some? {
      var got, want := ToValues(cv, a, h).value, ValuesFrom(cv, a, h, 0, Len(a));
      forall i | 0 <= i < Len(a) ensures got[i] == want[i] {
        assert RowGives(cv, a, h, i) && RowValues(cv, a, h)[i] == Some(got[i]);
      }
    }
  }

  /** An array that converts gives the value of every row. */
  lemma {:induction false} ValuesGiven(cv: Conv, a: Arr, h: Hint)
    requires Valid(a)
    ensures Gives(cv, a, h)
    decreases Depth(a)
  {
    match a
    case Leaf(_, _) =>
    case Nulls(_) =>
    case Unsupported(_) =>
    case Dict(_, _, _, _) => DictGives(cv, a, h);
    case List(valid, offsets, child) =>
      forall i | 0 <= i < Len(a) ensures RowGives(cv, a, h, i) {
        ValuesGiven(cv, RowOf(child, offsets, i), ItemHint(h));
        ListRowGives(cv, a, h, i);
      }
      RowsGive(cv, a, h);
    case Map(valid, offsets, keys, values) =>
      forall i | 0 <= i < Len(a) ensures RowGives(cv, a, h, i) {
        ValuesGiven(cv, RowOf(keys, offsets, i), NoHint);
        ValuesGiven(cv, RowOf(values, offsets, i), NoHint);
        MapRowGives(cv, a, h, i);
      }
      RowsGive(cv, a, h);
    case Record(valid, fields) =>
      forall i | 0 <= i < Len(a) ensures RowGives(cv, a, h, i) {
        forall k | 0 <= k < |fields| ensures Gives(cv, Slice(fields[k], i, 1), NoHint) {
          SliceDepth(fields[k], i, 1);
          ValuesGiven(cv, Slice(fields[k], i, 1), NoHint);
        }
        SinglesGive(cv, fields, |valid|, i);
      }
      RowsGive(cv, a, h);
  }

  /** The value that comes out at every place. */
  lemma ValueGiven(cv: Conv, a: Arr, h: Hint, i: nat)
    requires Valid(a) && ToValues(cv, a, h).Some? && i < Len(a)
    ensures |ToValues(cv, a, h).value| == Len(a)
    ensures ToValues(cv, a, h).value[i] == ValueAt(cv, a, h, i)
  {
    ValuesGiven(cv, a, h);
    assert ValuesFrom(cv, a, h, 0, Len(a))[i] == ValueAt(cv, a, h, 0 + i);
  }

  /** The rows of a batch: place `k` of row `i` is the value of column `k` at row `i`. */
  lemma RowGiven(cv: Conv, b: Batch, i: nat, k: nat)
    requires ValidBatch(b) && ToRows(cv, b).Some? && i < b.rows && k < |b.columns|
    ensures |ToRows(cv, b).value| == b.rows && |ToRows(cv, b).value[i]| == |b.columns|
    ensures ToRows(cv, b).value[i][k] == ValueAt(cv, b.columns[k], b.hints[k], i)
  {
    assert ColumnValues(cv, b)[k].Some?;
    ValueGiven(cv, b.columns[k], b.hints[k], i);
  }

  // ---------------------------------------------------------------------------
  // Which arrays convert
  // ---------------------------------------------------------------------------

  /** Every leaf below the rows from `s` on that are not null is of a supported type. */
  ghost predicate Converts(cv: Conv, a: Arr, h: Hint, s: nat, n: nat)
    requires Valid(a) && s + n <= Len(a)
    decreases a, 2
  {
    match a
    case Leaf(kind, _) => cv.supports(kind, h)
    case Nulls(_) => true
    case Unsupported(_) => false
    case Dict(width, _, kind, _) => (h.EnumHint? && h.keyWidth == width) || cv.supports(kind, h)
    case _ => RowsConvert(cv, a, h, s, n)
  }

  ghost predicate RowsConvert(cv: Conv, a: Arr, h: Hint, s: nat, n: nat)
    requires Valid(a) && Nested(a) && s + n <= Len(a)
    decreases a, 1, n
  {
    n == 0 || (RowConverts(cv, a, h, s + n - 1) && RowsConvert(cv, a, h, s, n - 1))
  }

  /** Row `i` of a nested array is null, or what it covers converts. */
  ghost predicate RowConverts(cv: Conv, a: Arr, h: Hint, i: nat)
    requires Valid(a) && Nested(a) && i < Len(a)
    decreases a, 0
  {
    a.valid[i] ==>
      match a
      case List(_, offsets, child) =>
        var inner := match h case ArrayHint(x) => x case _ => NoHint;
        Converts(cv, child, inner, offsets[i], offsets[i + 1] - offsets[i])
      case Map(_, offsets, keys, values) =>
        && Converts(cv, keys, NoHint, offsets[i], offsets[i + 1] - offsets[i])
        && Converts(cv, values, NoHint, offsets[i], offsets[i + 1] - offsets[i])
      case Record(_, fields) => forall k | 0 <= k < |fields| :: Converts(cv, fields[k], NoHint, i, 1)
  }

  lemma {:induction false} SinglesConvertIff(cv: Conv, fields: seq<Arr>, len: nat, i: nat)
    requires i < len && forall k | 0 <= k < |fields| :: Valid(fields[k]) && Len(fields[k]) == len
    ensures Singles(cv, fields, len, i).Some? <==>
              forall k | 0 <= k < |fields| :: ToValues(cv, Slice(fields[k], i, 1), NoHint).Some?
    decreases fields
  {
    if fields != [] {
      SinglesConvertIff(cv, fields[1..], len, i);
      assert forall k | 0 < k < |fields| :: fields[k] == fields[1..][k - 1];
      if forall k | 0 <= k < |fields| :: ToValues(cv, Slice(fields[k], i, 1), NoHint).Some? {
        forall k | 0 <= k < |fields[1..]| ensures ToValues(cv, Slice(fields[1..][k], i, 1), NoHint).Some? {
          assert fields[1..][k] == fields[k + 1];
        }
      }
    }
  }

  lemma {:induction false} RowOfRows(cv: Conv, a: Arr, h: Hint, s: nat, n: nat, i: nat)
    requires Valid(a) && Nested(a) && s + n <= Len(a) && s <= i < s + n && RowsConvert(cv, a, h, s, n)
    ensures RowConverts(cv, a, h, i)
    decreases n
  {
    if i < s + n - 1 { RowOfRows(cv, a, h, s, n - 1, i); }
  }

  lemma {:induction false} LackingRow(cv: Conv, a: Arr, h: Hint, s: nat, n: nat) returns (i: nat)
    requires Valid(a) && Nested(a) && s + n <= Len(a) && !RowsConvert(cv, a, h, s, n)
    ensures s <= i < s + n && !RowConverts(cv, a, h, i)
    decreases n
  {
    if RowConverts(cv, a, h, s + n - 1) { i := LackingRow(cv, a, h, s, n - 1); } else { i := s + n - 1; }
  }

  lemma NestedConvertsIff(cv: Conv, a: Arr, h: Hint, s: nat, n: nat)
    requires Valid(a) && Nested(a) && s + n <= Len(a)
    requires forall i | 0 <= i < Len(a) :: RowValue(cv, a, h, i).Some? <==> RowConverts(cv, a, h, i)
    ensures ToValues(cv, Slice(a, s, n), h).Some? <==> RowsConvert(cv, a, h, s, n)
  {
    var piece := Slice(a, s, n);
    forall i | 0 <= i < n ensures RowValues(cv, piece, h)[i] == RowValue(cv, a, h, s + i) {
      RowSlice(cv, a, h, s, n, i);
    }
    if RowsConvert(cv, a, h, s, n) {
      forall i | 0 <= i < n ensures RowValues(cv, piece, h)[i].Some? {
        RowOfRows(cv, a, h, s, n, s + i);
        assert RowValue(cv, a, h, s + i).Some?;
      }
    } else {
      var i := LackingRow(cv, a, h, s, n);
      assert RowValue(cv, a, h, i).None? && RowValues(cv, piece, h)[i - s].None?;
    }
  }

  /** Any stretch of an array converts if and only if all it needs is supported. */
  lemma {:induction false} ConvertsIff(cv: Conv, a: Arr, h: Hint, s: nat, n: nat)
    requires Valid(a) && s + n <= Len(a)
    ensures ToValues(cv, Slice(a, s, n), h).Some? <==> Converts(cv, a, h, s, n)
    decreases a, 2
  {
    if Nested(a) {
      forall i | 0 <= i < Len(a) ensures RowValue(cv, a, h, i).Some? <==> RowConverts(cv, a, h, i) {
        RowConvertsIff(cv, a, h, i);
      }
      NestedConvertsIff(cv, a, h, s, n);
    }
  }

  lemma {:induction false} RowConvertsIff(cv: Conv, a: Arr, h: Hint, i: nat)
    requires Valid(a) && Nested(a) && i < Len(a)
    ensures RowValue(cv, a, h, i).Some? <==> RowConverts(cv, a, h, i)
    decreases a, 1
  {
    if a.valid[i] {
      if a.List? {
        ListRowConvertsIff(cv, a, h, i);
      } else if a.Map? {
        MapRowConvertsIff(cv, a, h, i);
      } else {
        RecordRowConvertsIff(cv, a, h, i);
      }
    }
  }

  lemma {:induction false} ListRowConvertsIff(cv: Conv, a: Arr, h: Hint, i: nat)
    requires Valid(a) && a.List? && i < Len(a) && a.valid[i]
    ensures RowValue(cv, a, h, i).Some? <==> RowConverts(cv, a, h, i)
    decreases a, 0
  {
    ConvertsIff(cv, a.child, ItemHint(h), a.offsets[i], a.offsets[i + 1] - a.offsets[i]);
  }

  lemma {:induction false} MapRowConvertsIff(cv: Conv, a: Arr, h: Hint, i: nat)
    requires Valid(a) && a.Map? && i < Len(a) && a.valid[i]
    ensures RowValue(cv, a, h, i).Some? <==> RowConverts(cv, a, h, i)
    decreases a, 0
  {
    ConvertsIff(cv, a.keys, NoHint, a.offsets[i], a.offsets[i + 1] - a.offsets[i]);
    ConvertsIff(cv, a.values, NoHint, a.offsets[i], a.offsets[i + 1] - a.offsets[i]);
  }

  lemma {:induction false} RecordRowConvertsIff(cv: Conv, a: Arr, h: Hint, i: nat)
    requires Valid(a) && a.Record? && i < Len(a) && a.valid[i]
    ensures RowValue(cv, a, h, i).Some? <==> RowConverts(cv, a, h, i)
    decreases a, 0
  {
    forall k | 0 <= k < |a.fields|
      ensures ToValues(cv, Slice(a.fields[k], i, 1), NoHint).Some? <==> Converts(cv, a.fields[k], NoHint, i, 1)
    {
      ConvertsIff(cv, a.fields[k], NoHint, i, 1);
    }
    SinglesConvertIff(cv, a.fields, |a.valid|, i);
  }

  /** An array converts if and only if all its rows do; slicing it whole changes nothing. */
  lemma WholeConvertsIff(cv: Conv, a: Arr, h: Hint)
    requires Valid(a)
    ensures ToValues(cv, a, h).Some? <==> Converts(cv, a, h, 0, Len(a))
  {
    ConvertsIff(cv, a, h, 0, Len(a));
    SliceWhole(a);
  }

  lemma {:induction false} SliceWhole(a: Arr)
    requires Valid(a)
    ensures Slice(a, 0, Len(a)) == a
    decreases a
  {
    match a
    case Record(valid, fields) =>
      forall k | 0 <= k < |fields| ensures SliceAll(fields, |valid|, 0, |valid|)[k] == fields[k] {
        SliceWhole(fields[k]);
      }
      assert SliceAll(fields, |valid|, 0, |valid|) == fields;
    case _ =>
  }
}
