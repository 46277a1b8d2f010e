/** The bytes of a column, said value by value. */
module ColumnLayout {
  import opened Common
  import opened Wire
  import B = Batches
  import opened Columns

  // ---------------------------------------------------------------------------
  // Enums
  // ---------------------------------------------------------------------------

  /** Pair `k` is the last of this name. */
  predicate LastOfName(pairs: seq<(Bytes, int)>, name: Bytes, k: nat) {
    k < |pairs| && pairs[k].0 == name && forall j | k < j < |pairs| :: pairs[j].0 != name
  }

  /** Pair `k` is the first of this number. */
  predicate FirstOfNumber(pairs: seq<(Bytes, int)>, number: int, k: nat) {
    k < |pairs| && pairs[k].1 == number && forall j | 0 <= j < k :: pairs[j].1 != number
  }

  /** A name stands for the number of its last pair. */
  lemma {:induction false} NameWritesLast(pairs: seq<(Bytes, int)>, name: Bytes)
    ensures NumberOf(pairs, name).Some? <==> exists k: nat :: LastOfName(pairs, name, k)
    ensures forall k: nat | LastOfName(pairs, name, k) :: NumberOf(pairs, name) == Some(pairs[k].1)
    decreases pairs
  {
    if pairs != [] {
      var later := pairs[1..];
      NameWritesLast(later, name);
      forall k: nat | LastOfName(later, name, k) ensures LastOfName(pairs, name, k + 1) {
        assert forall j | k + 1 < j < |pairs| :: pairs[j] == later[j - 1];
      }
      forall k: nat | LastOfName(pairs, name, k) && k > 0 ensures LastOfName(later, name, k - 1) {
        assert later[k - 1] == pairs[k];
        assert forall j | k - 1 < j < |later| :: later[j] == pairs[j + 1];
      }
      if pairs[0].0 == name && NumberOf(later, name).None? {
        forall j | 0 < j < |pairs| ensures pairs[j].0 != name { NoneNamed(later, name, j - 1); }
        assert LastOfName(pairs, name, 0);
      }
      if NumberOf(later, name).Some? {
        var j: nat :| LastOfName(later, name, j);
        assert pairs[j + 1].0 == name && !LastOfName(pairs, name, 0);
      }
      forall k: nat | LastOfName(pairs, name, k)
        ensures NumberOf(pairs, name) == Some(pairs[k].1)
      {
        if k > 0 {
          assert LastOfName(later, name, k - 1) && later[k - 1] == pairs[k];
        }
      }
    }
  }

  lemma {:induction false} NoneNamed(pairs: seq<(Bytes, int)>, name: Bytes, j: nat)
    requires NumberOf(pairs, name).None? && j < |pairs|
    ensures pairs[j].0 != name
    decreases pairs
  {
    if j > 0 { NoneNamed(pairs[1..], name, j - 1); }
  }

  /** A number reads as the name of its first pair. */
  lemma {:induction false} NumberReadsFirst(pairs: seq<(Bytes, int)>, number: int)
    ensures NameOf(pairs, number).Some? <==> exists k: nat :: FirstOfNumber(pairs, number, k)
    ensures forall k: nat | FirstOfNumber(pairs, number, k) :: NameOf(pairs, number) == Some(pairs[k].0)
    decreases pairs
  {
    if pairs != [] {
      var later := pairs[1..];
      NumberReadsFirst(later, number);
      if pairs[0].1 == number {
        assert FirstOfNumber(pairs, number, 0);
      } else {
        forall k: nat | FirstOfNumber(later, number, k) ensures FirstOfNumber(pairs, number, k + 1) {
          assert later[k] == pairs[k + 1];
        }
        forall k: nat | FirstOfNumber(pairs, number, k) ensures FirstOfNumber(later, number, k - 1) {
          assert later[k - 1] == pairs[k];
        }
      }
    }
  }

  // ---------------------------------------------------------------------------
  // The layout
  // ---------------------------------------------------------------------------

  /** The bytes of one fixed-width value: zeros for a null, UUIDs with their halves exchanged,
      256-bit integers backwards, enums as the number of their name, all else as it is. */
  ghost predicate CellLaid(form: Form, cell: Option<Bytes>, bytes: Bytes) {
    match form
    case Int32 => |bytes| == 4 && if cell.None? then bytes == [0, 0, 0, 0] else bytes == cell.value
    case Plain(n) => |bytes| == n && if cell.None? then AllZero(bytes) else bytes == cell.value
    case Ipv4 => |bytes| == 4 && if cell.None? then bytes == [0, 0, 0, 0] else bytes == cell.value
    case Uuid =>
      |bytes| == 16
      && if cell.None? then AllZero(bytes)
         else |cell.value| == 16 && bytes[..8] == cell.value[8..] && bytes[8..] == cell.value[..8]
    case Int256 =>
      |bytes| == 32
      && if cell.None? then AllZero(bytes)
         else |cell.value| == 32 && forall i | 0 <= i < 32 :: bytes[i] == cell.value[31 - i]
    case Enum(n, pairs) =>
      |bytes| == n
      && if cell.None? then AllZero(bytes)
         else exists k: nat :: LastOfName(pairs, cell.value, k) && bytes == LE(pairs[k].1 % Pow256(n), n)
  }

  predicate AllZero(bytes: Bytes) {
    forall i | 0 <= i < |bytes| :: bytes[i] == 0
  }

  predicate NullAt(a: B.Arr, i: nat)
    requires B.Valid(a) && i < B.Len(a)
  {
    match a
    case Leaf(_, cells) => cells[i].None?
    case List(valid, _, _) => !valid[i]
    case Record(valid, _) => !valid[i]
    case Map(valid, _, _, _) => !valid[i]
    case _ => false
  }

  /** Eight bytes a number. */
  function EndPieces(ends: seq<nat>): (pieces: seq<Bytes>)
    ensures |pieces| == |ends|
  {
    seq(|ends|, i requires 0 <= i < |ends| => LE(ends[i], 8))
  }

  /** Values one after another; texts with their length, nulls as empty ones; before a nullable
      column one byte a row, 1 for null; before the child of a list the end of each row, in
      eight bytes, and before the keys and values of a map the same from its first row on;
      tuples field by field. */
  ghost predicate Laid(t: ColType, a: B.Arr, bytes: Bytes)
    requires Shaped(t, a) && B.Valid(a)
    decreases t
  {
    match t
    case Fixed(form) =>
      exists cells: seq<Bytes> ::
        && |cells| == |a.cells| && bytes == Concat(cells)
        && forall i | 0 <= i < |cells| :: CellLaid(form, a.cells[i], cells[i])
    case Text =>
      bytes == Concat(seq(|a.cells|, i requires 0 <= i < |a.cells| =>
        if a.cells[i].None? then [0] else Varint(|a.cells[i].value|) + a.cells[i].value))
    case Nullable(x) =>
      exists mask: Bytes, inner: Bytes ::
        && |mask| == B.Len(a) && (forall i | 0 <= i < |mask| :: mask[i] == if NullAt(a, i) then 1 else 0)
        && Laid(x, a, inner) && bytes == mask + inner
    case Array(x) =>
      exists ends: seq<nat>, inner: Bytes ::
        && |ends| == |a.valid| && (forall i | 0 <= i < |ends| :: ends[i] == a.offsets[i + 1])
        && Laid(x, a.child, inner) && bytes == Concat(EndPieces(ends)) + inner
    case Tuple(items) =>
      exists pieces: seq<Bytes> ::
        && |pieces| == |items| && bytes == Concat(pieces)
        && forall k | 0 <= k < |items| :: Laid(items[k], a.fields[k], pieces[k])
    case Map(k, v) =>
      exists ends: seq<nat>, keys: Bytes, values: Bytes ::
        && |ends| == |a.valid| && (forall i | 0 <= i < |ends| :: ends[i] + a.offsets[0] == a.offsets[i + 1])
        && Laid(k, a.keys, keys) && Laid(v, a.values, values)
        && bytes == Concat(EndPieces(ends)) + (keys + values)
  }

  // ---------------------------------------------------------------------------
  // The writer keeps to it
  // ---------------------------------------------------------------------------

  lemma PutLaid(form: Form, cell: Option<Bytes>)
    requires FitsForm(form, cell) && PutCell(form, cell).Some?
    ensures CellLaid(form, cell, PutCell(form, cell).value)
  {
    if cell.Some? && form.Enum? {
      NameWritesLast(form.pairs, cell.value);
      var k: nat :| LastOfName(form.pairs, cell.value, k);
    }
  }

  lemma {:induction false} CellsLaid(form: Form, cells: Cells) returns (pieces: seq<Bytes>)
    requires forall i | 0 <= i < |cells| :: FitsForm(form, cells[i])
    requires PutCells(form, cells).Some?
    ensures |pieces| == |cells| && PutCells(form, cells) == Some(Concat(pieces))
    ensures forall i | 0 <= i < |cells| :: CellLaid(form, cells[i], pieces[i])
    decreases cells
  {
    if cells == [] {
      pieces := [];
    } else {
      PutLaid(form, cells[0]);
      var later := CellsLaid(form, cells[1..]);
      pieces := [PutCell(form, cells[0]).value] + later;
      assert pieces[1..] == later;
      assert forall i | 0 < i < |cells| :: cells[i] == cells[1..][i - 1];
    }
  }

  function TextPieces(cells: Cells): (pieces: seq<Bytes>)
    ensures |pieces| == |cells|
  {
    seq(|cells|, i requires 0 <= i < |cells| => if cells[i].None? then [0] else Varint(|cells[i].value|) + cells[i].value)
  }

  lemma {:induction false} TextsLaid(cells: Cells)
    ensures PutTexts(cells) == Concat(TextPieces(cells))
    decreases cells
  {
    if cells != [] {
      TextsLaid(cells[1..]);
      assert TextPieces(cells)[1..] == TextPieces(cells[1..]);
      assert Varint(0) == [0] && [0] + [] == [0];
    }
  }

  lemma {:induction false} EndsLaid(ends: seq<nat>)
    ensures OffsetBytes(ends) == Concat(EndPieces(ends))
    decreases ends
  {
    if ends != [] {
      EndsLaid(ends[1..]);
      assert EndPieces(ends)[1..] == EndPieces(ends[1..]);
    }
  }

  lemma MaskLaid(t: ColType, a: B.Arr)
    requires Shaped(t, a) && B.Valid(a)
    ensures |Mask(a)| == B.Len(a) && forall i | 0 <= i < B.Len(a) :: Mask(a)[i] == if NullAt(a, i) then 1 else 0
    decreases t
  {
    if t.Nullable? { MaskLaid(t.inner, a); }
  }

  lemma FixedLaid(t: ColType, a: B.Arr)
    requires t.Fixed? && Shaped(t, a) && B.Valid(a) && Encode(t, a).Some?
    ensures Laid(t, a, Encode(t, a).value)
  {
    var pieces := CellsLaid(t.form, a.cells);
  }

  lemma TextLaid(t: ColType, a: B.Arr)
    requires t.Text? && Shaped(t, a) && B.Valid(a)
    ensures Laid(t, a, Encode(t, a).value)
  {
    TextsLaid(a.cells);
    assert TextPieces(a.cells) == seq(|a.cells|, i requires 0 <= i < |a.cells| =>
        if a.cells[i].None? then [0] else Varint(|a.cells[i].value|) + a.cells[i].value);
  }

  lemma ArrayLaid(t: ColType, a: B.Arr)
    requires t.Array? && Shaped(t, a) && B.Valid(a) && Encode(t, a).Some? && Laid(t.inner, a.child, Encode(t.inner, a.child).value)
    ensures Laid(t, a, Encode(t, a).value)
  {
    EndsLaid(a.offsets[1..]);
  }

  lemma MapLaid(t: ColType, a: B.Arr)
    requires t.Map? && Shaped(t, a) && B.Valid(a) && Encode(t, a).Some?
    requires Laid(t.key, a.keys, Encode(t.key, a.keys).value) && Laid(t.value, a.values, Encode(t.value, a.values).value)
    ensures Laid(t, a, Encode(t, a).value)
  {
    forall i | 0 <= i < |a.offsets| ensures a.offsets[0] <= a.offsets[i] {
      OrderedFromFirst(a.offsets, |a.valid|, B.Len(a.keys), i);
    }
    EndsLaid(Totals(a.offsets));
    MapParts(t, a, Totals(a.offsets), Encode(t.key, a.keys).value, Encode(t.value, a.values).value, Encode(t, a).value);
  }

  lemma MapParts(t: ColType, a: B.Arr, ends: seq<nat>, keys: Bytes, values: Bytes, bytes: Bytes)
    requires t.Map? && Shaped(t, a) && B.Valid(a) && Laid(t.key, a.keys, keys) && Laid(t.value, a.values, values)
    requires |ends| == |a.valid| && forall i | 0 <= i < |ends| :: ends[i] + a.offsets[0] == a.offsets[i + 1]
    requires bytes == Concat(EndPieces(ends)) + (keys + values)
    ensures Laid(t, a, bytes)
  {
  }

  /** What is written for a column is laid out this way. */
  lemma {:induction false} WrittenColumnLaid(t: ColType, a: B.Arr)
    requires Shaped(t, a) && B.Valid(a) && Encode(t, a).Some?
    ensures Laid(t, a, Encode(t, a).value)
    decreases t
  {
    match t
    case Fixed(_) => FixedLaid(t, a);
    case Text => TextLaid(t, a);
    case Nullable(x) =>
      WrittenColumnLaid(x, a);
      MaskLaid(t, a);
    case Array(x) =>
      WrittenColumnLaid(x, a.child);
      ArrayLaid(t, a);
    case Tuple(items) => var pieces := FieldsLaid(items, a.fields);
    case Map(k, v) =>
      WrittenColumnLaid(k, a.keys);
      WrittenColumnLaid(v, a.values);
      MapLaid(t, a);
  }

  lemma {:induction false} FieldsLaid(items: seq<ColType>, fields: seq<B.Arr>) returns (pieces: seq<Bytes>)
    requires |items| == |fields| && forall k | 0 <= k < |items| :: Shaped(items[k], fields[k]) && B.Valid(fields[k])
    requires EncodeAll(items, fields).Some?
    ensures |pieces| == |items| && EncodeAll(items, fields) == Some(Concat(pieces))
    ensures forall k | 0 <= k < |items| :: Laid(items[k], fields[k], pieces[k])
    decreases items
  {
    if items == [] {
      pieces := [];
    } else {
      WrittenColumnLaid(items[0], fields[0]);
      var later := FieldsLaid(items[1..], fields[1..]);
      pieces := [Encode(items[0], fields[0]).value] + later;
      assert pieces[1..] == later;
      forall k | 0 < k < |items| ensures Laid(items[k], fields[k], pieces[k]) {
        assert items[k] == items[1..][k - 1] && fields[k] == fields[1..][k - 1];
      }
    }
  }
}
