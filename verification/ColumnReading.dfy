/** What a column is read as, from any bytes, said value by value. */
module ColumnReading {
  import opened Common
  import opened Wire
  import B = Batches
  import opened Columns
  import opened ColumnLayout

  // ---------------------------------------------------------------------------
  // The reading
  // ---------------------------------------------------------------------------

  /** Any byte of a mask but 0 is a null. */
  predicate NullRow(mask: Bytes, i: nat)
    requires mask == [] || i < |mask|
  {
    mask != [] && !(mask[i] == 0)
  }

  /** A number in two's complement. */
  predicate Means(raw: Bytes, number: int) {
    && 0 - Pow256(|raw|) <= 2 * number < Pow256(|raw|)
    && (number == FromLE(raw) || number == FromLE(raw) - Pow256(|raw|))
  }

  /** What the bytes of one value are read as: addresses and 256-bit integers backwards, enums
      as the name of their number, which must have one, all else as it is. */
  ghost predicate CellRead(form: Form, raw: Bytes, cell: Bytes) {
    match form
    case Ipv4 => Backwards(raw, cell)
    case Int256 => Backwards(raw, cell)
    case Enum(_, pairs) =>
      exists number, k: nat :: Means(raw, number) && FirstOfNumber(pairs, number, k) && cell == pairs[k].0
    case _ => cell == raw
  }

  predicate Backwards(raw: Bytes, cell: Bytes) {
    |cell| == |raw| && forall i | 0 <= i < |raw| :: cell[i] == raw[|raw| - 1 - i]
  }

  /** The rows from `i` on, cut from the bytes. */
  ghost predicate CutCells(form: Form, rows: nat, mask: Bytes, i: nat, bytes: Bytes, cells: Cells, rest: Bytes, raws: seq<Bytes>)
    requires i <= rows && (mask == [] || |mask| == rows)
  {
    && |raws| == |cells| == rows - i
    && bytes == Concat(raws) + rest
    && forall k | 0 <= k < |raws| ::
         && |raws[k]| == Width(form)
         && if NullRow(mask, i + k) then cells[k].None? else cells[k].Some? && CellRead(form, raws[k], cells[k].value)
  }

  /** Texts one behind another; a null's text is skipped. */
  ghost predicate CutTexts(rows: nat, mask: Bytes, i: nat, bytes: Bytes, cells: Cells, rest: Bytes, tails: seq<Bytes>)
    requires i <= rows && (mask == [] || |mask| == rows)
  {
    && |cells| == rows - i && |tails| == rows - i + 1 && tails[0] == bytes && tails[rows - i] == rest
    && forall k | 0 <= k < |cells| :: TextRead(NullRow(mask, i + k), tails[k], cells[k], tails[k + 1])
  }

  predicate TextRead(isNull: bool, bytes: Bytes, cell: Option<Bytes>, rest: Bytes) {
    && DecodeString(bytes).Ok? && rest == DecodeString(bytes).value.1
    && cell == if isNull then None else Some(DecodeString(bytes).value.0)
  }

  /** The ends of the rows, in eight bytes each. */
  ghost predicate CutEnds(rows: nat, bytes: Bytes, ends: seq<nat>, rest: Bytes, pieces: seq<Bytes>) {
    && |pieces| == |ends| == rows && bytes == Concat(pieces) + rest
    && forall i | 0 <= i < rows :: |pieces[i]| == 8 && FromLE(pieces[i]) == ends[i]
  }

  predicate NotNull(valid: seq<bool>, rows: nat, mask: Bytes)
    requires mask == [] || |mask| == rows
  {
    |valid| == rows && forall i | 0 <= i < rows :: valid[i] == !NullRow(mask, i)
  }

  /** Offsets from 0 to what 31 bits hold, none before another. */
  predicate Ascending(offsets: seq<nat>, rows: nat) {
    && |offsets| == rows + 1 && offsets[0] == 0
    && (forall i | 0 <= i < rows :: offsets[i] <= offsets[i + 1])
    && (forall i | 0 <= i <= rows :: offsets[i] < 0x8000_0000)
  }

  /** The bytes are read as this array, up to the rest: masks, ends of lists and maps, values
      and tuples; a tuple without rows is one of Int32 and String, whatever is asked for. */
  ghost predicate ReadAs(t: ColType, rows: nat, mask: Bytes, bytes: Bytes, a: B.Arr, rest: Bytes)
    requires mask == [] || |mask| == rows
    decreases t
  {
    match t
    case Fixed(form) =>
      a.Leaf? && a.kind == Kind(t) && exists raws :: CutCells(form, rows, mask, 0, bytes, a.cells, rest, raws)
    case Text =>
      a.Leaf? && a.kind == Kind(t) && exists tails :: CutTexts(rows, mask, 0, bytes, a.cells, rest, tails)
    case Nullable(x) =>
      if rows == 0 then ReadAs(x, 0, [], bytes, a, rest)
      else exists nulls, inner :: |nulls| == rows && bytes == nulls + inner && ReadAs(x, rows, nulls, inner, a, rest)
    case Array(x) =>
      && a.List? && NotNull(a.valid, rows, mask) && Ascending(a.offsets, rows)
      && exists pieces, inner ::
           CutEnds(rows, bytes, a.offsets[1..], inner, pieces) && ReadAs(x, a.offsets[rows], [], inner, a.child, rest)
    case Tuple(items) =>
      if rows == 0 then
        items == [Fixed(Form.Int32), ColType.Text] && a == B.Record([], [B.Leaf(1, []), B.Leaf(0, [])]) && bytes == rest
      else
        && a.Record? && NotNull(a.valid, rows, mask) && |a.fields| == |items|
        && exists tails: seq<Bytes> ::
             && |tails| == |items| + 1 && tails[0] == bytes && tails[|items|] == rest
             && forall k | 0 <= k < |items| :: ReadAs(items[k], rows, [], tails[k], a.fields[k], tails[k + 1])
    case Map(k, v) =>
      && a.Map? && NotNull(a.valid, rows, mask) && Ascending(a.offsets, rows)
      && exists pieces, inner, later ::
           && CutEnds(rows, bytes, a.offsets[1..], inner, pieces)
           && ReadAs(k, a.offsets[rows], [], inner, a.keys, later)
           && ReadAs(v, a.offsets[rows], [], later, a.values, rest)
  }

  // ---------------------------------------------------------------------------
  // Cells
  // ---------------------------------------------------------------------------

  lemma MeansSigned(raw: Bytes, number: int)
    ensures Means(raw, number) <==> number == Signed(raw)
  {
    FromLEBound(raw);
  }

  lemma GotCell(form: Form, raw: Bytes, cell: Bytes)
    requires |raw| == Width(form)
    ensures Get(form, raw) == Some(cell) <==> CellRead(form, raw, cell)
  {
    if form.Ipv4? || form.Int256? {
      assert Backwards(raw, cell) ==> cell == Reversed(raw);
    } else if form.Enum? {
      MeansSigned(raw, Signed(raw));
      NumberReadsFirst(form.pairs, Signed(raw));
      if CellRead(form, raw, cell) {
        var number, k: nat :| Means(raw, number) && FirstOfNumber(form.pairs, number, k) && cell == form.pairs[k].0;
        MeansSigned(raw, number);
      }
    }
  }

  lemma {:induction false} CellsCut(form: Form, rows: nat, mask: Bytes, i: nat, bytes: Bytes) returns (raws: seq<Bytes>)
    requires i <= rows && (mask == [] || |mask| == rows)
    requires GetCells(form, rows, mask, i, bytes).Some?
    ensures var (cells, rest) := GetCells(form, rows, mask, i, bytes).value;
            CutCells(form, rows, mask, i, bytes, cells, rest, raws)
    decreases rows - i
  {
    if i == rows {
      raws := [];
      assert [] + bytes == bytes;
    } else {
      var w := Width(form);
      var raw, after := bytes[..w], bytes[w..];
      var later := CellsCut(form, rows, mask, i + 1, after);
      raws := [raw] + later;
      var rest := GetCells(form, rows, mask, i, bytes).value.1;
      ConcatAssoc(raw, Concat(later), rest);
      assert raws[1..] == later && bytes == raw + after;
      if !NullRow(mask, i) { GotCell(form, raw, Get(form, raw).value); }
    }
  }

  lemma {:induction false} CellsUncut(form: Form, rows: nat, mask: Bytes, i: nat, bytes: Bytes, cells: Cells, rest: Bytes,
      raws: seq<Bytes>)
    requires i <= rows && (mask == [] || |mask| == rows)
    requires CutCells(form, rows, mask, i, bytes, cells, rest, raws)
    ensures GetCells(form, rows, mask, i, bytes) == Some((cells, rest))
    decreases rows - i
  {
    if i == rows {
      assert [] + rest == rest;
    } else {
      var w := Width(form);
      var raw, after := raws[0], Concat(raws[1..]) + rest;
      ConcatAssoc(raw, Concat(raws[1..]), rest);
      Halves(raw, after);
      assert bytes == raw + after;
      CellsUncut(form, rows, mask, i + 1, after, cells[1..], rest, raws[1..]);
      if !NullRow(mask, i) { GotCell(form, raw, cells[0].value); }
      assert cells == [cells[0]] + cells[1..];
    }
  }

  lemma Halves(a: Bytes, b: Bytes)
    ensures (a + b)[..|a|] == a && (a + b)[|a|..] == b
  {
  }

  lemma {:induction false} TextsCut(rows: nat, mask: Bytes, i: nat, bytes: Bytes) returns (tails: seq<Bytes>)
    requires i <= rows && (mask == [] || |mask| == rows)
    requires GetTexts(rows, mask, i, bytes).Some?
    ensures var (cells, rest) := GetTexts(rows, mask, i, bytes).value;
            CutTexts(rows, mask, i, bytes, cells, rest, tails)
    decreases rows - i
  {
    if i == rows {
      tails := [bytes];
    } else {
      var after := DecodeString(bytes).value.1;
      var later := TextsCut(rows, mask, i + 1, after);
      var (cells, rest) := GetTexts(rows, mask, i + 1, after).value;
      tails := [bytes] + later;
      MoreText(rows, mask, i, bytes, after, if NullRow(mask, i) then None else Some(DecodeString(bytes).value.0), cells, rest, later);
    }
  }

  lemma MoreText(rows: nat, mask: Bytes, i: nat, bytes: Bytes, after: Bytes, cell: Option<Bytes>, cells: Cells, rest: Bytes,
      tails: seq<Bytes>)
    requires i < rows && (mask == [] || |mask| == rows) && TextRead(NullRow(mask, i), bytes, cell, after)
    requires CutTexts(rows, mask, i + 1, after, cells, rest, tails)
    ensures CutTexts(rows, mask, i, bytes, [cell] + cells, rest, [bytes] + tails)
  {
    var all, ends := [cell] + cells, [bytes] + tails;
    forall k | 0 <= k < |all| ensures TextRead(NullRow(mask, i + k), ends[k], all[k], ends[k + 1]) {
      if k > 0 {
        assert ends[k] == tails[k - 1] && ends[k + 1] == tails[k] && all[k] == cells[k - 1];
      }
    }
  }

  lemma {:induction false} TextsUncut(rows: nat, mask: Bytes, i: nat, bytes: Bytes, cells: Cells, rest: Bytes, tails: seq<Bytes>)
    requires i <= rows && (mask == [] || |mask| == rows)
    requires CutTexts(rows, mask, i, bytes, cells, rest, tails)
    ensures GetTexts(rows, mask, i, bytes) == Some((cells, rest))
    decreases rows - i
  {
    if i < rows {
      TextsUncut(rows, mask, i + 1, tails[1], cells[1..], rest, tails[1..]);
      assert cells == [cells[0]] + cells[1..];
    }
  }

  lemma {:induction false} EndsCut(rows: nat, bytes: Bytes) returns (pieces: seq<Bytes>)
    requires GetOffsets(rows, bytes).Some?
    ensures CutEnds(rows, bytes, GetOffsets(rows, bytes).value.0, GetOffsets(rows, bytes).value.1, pieces)
    decreases rows
  {
    if rows == 0 {
      pieces := [];
      assert [] + bytes == bytes;
    } else {
      var later := EndsCut(rows - 1, bytes[8..]);
      pieces := [bytes[..8]] + later;
      ConcatAssoc(bytes[..8], Concat(later), GetOffsets(rows, bytes).value.1);
      assert pieces[1..] == later && bytes == bytes[..8] + bytes[8..];
    }
  }

  lemma {:induction false} EndsUncut(rows: nat, bytes: Bytes, ends: seq<nat>, rest: Bytes, pieces: seq<Bytes>)
    requires CutEnds(rows, bytes, ends, rest, pieces)
    ensures GetOffsets(rows, bytes) == Some((ends, rest))
    decreases rows
  {
    if rows == 0 {
      assert [] + rest == rest;
    } else {
      ConcatAssoc(pieces[0], Concat(pieces[1..]), rest);
      var after := Concat(pieces[1..]) + rest;
      Halves(pieces[0], after);
      assert bytes == pieces[0] + after;
      EndsUncut(rows - 1, after, ends[1..], rest, pieces[1..]);
      assert ends == [ends[0]] + ends[1..];
    }
  }

  // ---------------------------------------------------------------------------
  // Columns
  // ---------------------------------------------------------------------------

  ghost predicate DecodesTo(t: ColType, rows: nat, mask: Bytes, bytes: Bytes, a: B.Arr, rest: Bytes)
    requires mask == [] || |mask| == rows
  {
    Decode(t, rows, mask, bytes) == Some((a, rest))
  }

  lemma LeafIff(t: ColType, rows: nat, mask: Bytes, bytes: Bytes, a: B.Arr, rest: Bytes)
    requires t.Fixed? || t.Text?
    requires mask == [] || |mask| == rows
    ensures DecodesTo(t, rows, mask, bytes, a, rest) <==> ReadAs(t, rows, mask, bytes, a, rest)
  {
    if t.Fixed? {
      if DecodesTo(t, rows, mask, bytes, a, rest) { var raws := CellsCut(t.form, rows, mask, 0, bytes); }
      if ReadAs(t, rows, mask, bytes, a, rest) {
        var raws :| CutCells(t.form, rows, mask, 0, bytes, a.cells, rest, raws);
        CellsUncut(t.form, rows, mask, 0, bytes, a.cells, rest, raws);
      }
    } else {
      if DecodesTo(t, rows, mask, bytes, a, rest) { var tails := TextsCut(rows, mask, 0, bytes); }
      if ReadAs(t, rows, mask, bytes, a, rest) {
        var tails :| CutTexts(rows, mask, 0, bytes, a.cells, rest, tails);
        TextsUncut(rows, mask, 0, bytes, a.cells, rest, tails);
      }
    }
  }

  lemma UnmaskedIff(valid: seq<bool>, rows: nat, mask: Bytes)
    requires mask == [] || |mask| == rows
    ensures valid == Unmasked(mask, rows) <==> NotNull(valid, rows, mask)
  {
    if NotNull(valid, rows, mask) { assert valid == Unmasked(mask, rows); }
  }

  lemma AscendingIff(offsets: seq<nat>, rows: nat)
    requires |offsets| == rows + 1 && offsets[0] == 0
    ensures Offsets(offsets) <==> Ascending(offsets, rows)
  {
  }

  /** A column is read as an array if and only if the bytes spell it. */
  lemma {:induction false} DecodeIff(t: ColType, rows: nat, mask: Bytes, bytes: Bytes, a: B.Arr, rest: Bytes)
    requires mask == [] || |mask| == rows
    ensures Decode(t, rows, mask, bytes) == Some((a, rest)) <==> ReadAs(t, rows, mask, bytes, a, rest)
    decreases t
  {
    match t
    case Fixed(_) => LeafIff(t, rows, mask, bytes, a, rest);
    case Text => LeafIff(t, rows, mask, bytes, a, rest);
    case Nullable(x) =>
      forall m: Bytes, inner | |m| == rows || m == [] ensures DecodesTo(x, |m|, m, inner, a, rest) <==> ReadAs(x, |m|, m, inner, a, rest) {
        DecodeIff(x, |m|, m, inner, a, rest);
      }
      NullableIff(t, rows, mask, bytes, a, rest);
    case Array(x) =>
      if a.List? {
        forall n: nat, inner ensures DecodesTo(x, n, [], inner, a.child, rest) <==> ReadAs(x, n, [], inner, a.child, rest) {
          DecodeIff(x, n, [], inner, a.child, rest);
        }
        ArrayIff(t, rows, mask, bytes, a, rest);
      }
    case Tuple(items) => TupleIff(t, rows, mask, bytes, a, rest);
    case Map(k, v) =>
      if a.Map? {
        forall n: nat, inner, later ensures DecodesTo(k, n, [], inner, a.keys, later) <==> ReadAs(k, n, [], inner, a.keys, later) {
          DecodeIff(k, n, [], inner, a.keys, later);
        }
        forall n: nat, inner ensures DecodesTo(v, n, [], inner, a.values, rest) <==> ReadAs(v, n, [], inner, a.values, rest) {
          DecodeIff(v, n, [], inner, a.values, rest);
        }
        MapIff(t, rows, mask, bytes, a, rest);
      }
  }

  lemma NullableIff(t: ColType, rows: nat, mask: Bytes, bytes: Bytes, a: B.Arr, rest: Bytes)
    requires t.Nullable? && (mask == [] || |mask| == rows)
    requires forall m: Bytes, inner | |m| == rows || m == [] ::
               DecodesTo(t.inner, |m|, m, inner, a, rest) <==> ReadAs(t.inner, |m|, m, inner, a, rest)
    ensures DecodesTo(t, rows, mask, bytes, a, rest) <==> ReadAs(t, rows, mask, bytes, a, rest)
  {
    if rows == 0 {
      var none: Bytes := [];
      assert DecodesTo(t.inner, |none|, none, bytes, a, rest) <==> ReadAs(t.inner, |none|, none, bytes, a, rest);
    } else {
      if DecodesTo(t, rows, mask, bytes, a, rest) {
        var nulls, inner := bytes[..rows], bytes[rows..];
        assert bytes == nulls + inner;
        assert DecodesTo(t.inner, |nulls|, nulls, inner, a, rest);
      }
      if ReadAs(t, rows, mask, bytes, a, rest) {
        var nulls, inner :| |nulls| == rows && bytes == nulls + inner && ReadAs(t.inner, rows, nulls, inner, a, rest);
        Halves(nulls, inner);
        assert DecodesTo(t.inner, |nulls|, nulls, inner, a, rest);
      }
    }
  }

  lemma ArrayIff(t: ColType, rows: nat, mask: Bytes, bytes: Bytes, a: B.Arr, rest: Bytes)
    requires t.Array? && a.List? && (mask == [] || |mask| == rows)
    requires forall n: nat, inner :: DecodesTo(t.inner, n, [], inner, a.child, rest) <==> ReadAs(t.inner, n, [], inner, a.child, rest)
    ensures DecodesTo(t, rows, mask, bytes, a, rest) <==> ReadAs(t, rows, mask, bytes, a, rest)
  {
    UnmaskedIff(a.valid, rows, mask);
    if DecodesTo(t, rows, mask, bytes, a, rest) {
      var pieces := EndsCut(rows, bytes);
      var (ends, inner) := GetOffsets(rows, bytes).value;
      AscendingIff([0] + ends, rows);
      assert a.offsets[1..] == ends;
      assert DecodesTo(t.inner, a.offsets[rows], [], inner, a.child, rest);
      ArrayRead(t, rows, mask, bytes, a, rest, pieces, inner);
    }
    if ReadAs(t, rows, mask, bytes, a, rest) {
      var pieces, inner := ArrayParts(t, rows, mask, bytes, a, rest);
      EndsUncut(rows, bytes, a.offsets[1..], inner, pieces);
      assert DecodesTo(t.inner, a.offsets[rows], [], inner, a.child, rest);
      ArrayDecoded(t, rows, mask, bytes, a, rest, inner);
    }
  }

  lemma ArrayRead(t: ColType, rows: nat, mask: Bytes, bytes: Bytes, a: B.Arr, rest: Bytes, pieces: seq<Bytes>, inner: Bytes)
    requires t.Array? && a.List? && (mask == [] || |mask| == rows) && NotNull(a.valid, rows, mask) && Ascending(a.offsets, rows)
    requires CutEnds(rows, bytes, a.offsets[1..], inner, pieces) && ReadAs(t.inner, a.offsets[rows], [], inner, a.child, rest)
    ensures ReadAs(t, rows, mask, bytes, a, rest)
  {
  }

  lemma ArrayParts(t: ColType, rows: nat, mask: Bytes, bytes: Bytes, a: B.Arr, rest: Bytes)
      returns (pieces: seq<Bytes>, inner: Bytes)
    requires t.Array? && (mask == [] || |mask| == rows) && ReadAs(t, rows, mask, bytes, a, rest)
    ensures a.List? && NotNull(a.valid, rows, mask) && Ascending(a.offsets, rows)
    ensures CutEnds(rows, bytes, a.offsets[1..], inner, pieces) && ReadAs(t.inner, a.offsets[rows], [], inner, a.child, rest)
  {
    pieces, inner :|
      CutEnds(rows, bytes, a.offsets[1..], inner, pieces) && ReadAs(t.inner, a.offsets[rows], [], inner, a.child, rest);
  }

  lemma ArrayDecoded(t: ColType, rows: nat, mask: Bytes, bytes: Bytes, a: B.Arr, rest: Bytes, inner: Bytes)
    requires t.Array? && a.List? && (mask == [] || |mask| == rows) && a.valid == Unmasked(mask, rows) && Ascending(a.offsets, rows)
    requires GetOffsets(rows, bytes) == Some((a.offsets[1..], inner))
    requires DecodesTo(t.inner, a.offsets[rows], [], inner, a.child, rest)
    ensures DecodesTo(t, rows, mask, bytes, a, rest)
  {
    assert [0] + a.offsets[1..] == a.offsets;
    AscendingIff(a.offsets, rows);
  }

  lemma MapIff(t: ColType, rows: nat, mask: Bytes, bytes: Bytes, a: B.Arr, rest: Bytes)
    requires t.Map? && a.Map? && (mask == [] || |mask| == rows)
    requires forall n: nat, inner, later ::
               DecodesTo(t.key, n, [], inner, a.keys, later) <==> ReadAs(t.key, n, [], inner, a.keys, later)
    requires forall n: nat, inner ::
               DecodesTo(t.value, n, [], inner, a.values, rest) <==> ReadAs(t.value, n, [], inner, a.values, rest)
    ensures DecodesTo(t, rows, mask, bytes, a, rest) <==> ReadAs(t, rows, mask, bytes, a, rest)
  {
    UnmaskedIff(a.valid, rows, mask);
    if DecodesTo(t, rows, mask, bytes, a, rest) {
      var pieces := EndsCut(rows, bytes);
      var (ends, inner) := GetOffsets(rows, bytes).value;
      AscendingIff([0] + ends, rows);
      assert a.offsets[1..] == ends;
      var later := Decode(t.key, a.offsets[rows], [], inner).value.1;
      assert DecodesTo(t.key, a.offsets[rows], [], inner, a.keys, later);
      assert DecodesTo(t.value, a.offsets[rows], [], later, a.values, rest);
      MapRead(t, rows, mask, bytes, a, rest, pieces, inner, later);
    }
    if ReadAs(t, rows, mask, bytes, a, rest) {
      var pieces, inner, later := MapParts(t, rows, mask, bytes, a, rest);
      EndsUncut(rows, bytes, a.offsets[1..], inner, pieces);
      assert DecodesTo(t.key, a.offsets[rows], [], inner, a.keys, later);
      assert DecodesTo(t.value, a.offsets[rows], [], later, a.values, rest);
      MapDecoded(t, rows, mask, bytes, a, rest, inner, later);
    }
  }

  lemma MapRead(t: ColType, rows: nat, mask: Bytes, bytes: Bytes, a: B.Arr, rest: Bytes, pieces: seq<Bytes>, inner: Bytes,
      later: Bytes)
    requires t.Map? && a.Map? && (mask == [] || |mask| == rows) && NotNull(a.valid, rows, mask) && Ascending(a.offsets, rows)
    requires CutEnds(rows, bytes, a.offsets[1..], inner, pieces)
    requires ReadAs(t.key, a.offsets[rows], [], inner, a.keys, later) && ReadAs(t.value, a.offsets[rows], [], later, a.values, rest)
    ensures ReadAs(t, rows, mask, bytes, a, rest)
  {
  }

  lemma MapParts(t: ColType, rows: nat, mask: Bytes, bytes: Bytes, a: B.Arr, rest: Bytes)
      returns (pieces: seq<Bytes>, inner: Bytes, later: Bytes)
    requires t.Map? && (mask == [] || |mask| == rows) && ReadAs(t, rows, mask, bytes, a, rest)
    ensures a.Map? && NotNull(a.valid, rows, mask) && Ascending(a.offsets, rows)
    ensures CutEnds(rows, bytes, a.offsets[1..], inner, pieces)
    ensures ReadAs(t.key, a.offsets[rows], [], inner, a.keys, later) && ReadAs(t.value, a.offsets[rows], [], later, a.values, rest)
  {
    pieces, inner, later :|
      && CutEnds(rows, bytes, a.offsets[1..], inner, pieces)
      && ReadAs(t.key, a.offsets[rows], [], inner, a.keys, later)
      && ReadAs(t.value, a.offsets[rows], [], later, a.values, rest);
  }

  lemma MapDecoded(t: ColType, rows: nat, mask: Bytes, bytes: Bytes, a: B.Arr, rest: Bytes, inner: Bytes, later: Bytes)
    requires t.Map? && a.Map? && (mask == [] || |mask| == rows) && a.valid == Unmasked(mask, rows) && Ascending(a.offsets, rows)
    requires GetOffsets(rows, bytes) == Some((a.offsets[1..], inner))
    requires DecodesTo(t.key, a.offsets[rows], [], inner, a.keys, later)
    requires DecodesTo(t.value, a.offsets[rows], [], later, a.values, rest)
    ensures DecodesTo(t, rows, mask, bytes, a, rest)
  {
    assert [0] + a.offsets[1..] == a.offsets;
    AscendingIff(a.offsets, rows);
  }

  lemma TupleIff(t: ColType, rows: nat, mask: Bytes, bytes: Bytes, a: B.Arr, rest: Bytes)
    requires t.Tuple? && (mask == [] || |mask| == rows)
    ensures DecodesTo(t, rows, mask, bytes, a, rest) <==> ReadAs(t, rows, mask, bytes, a, rest)
    decreases t, 0
  {
    if rows > 0 && a.Record? {
      UnmaskedIff(a.valid, rows, mask);
      if DecodesTo(t, rows, mask, bytes, a, rest) {
        var tails := FieldsCut(t.items, rows, bytes);
      }
      if ReadAs(t, rows, mask, bytes, a, rest) {
        var tails: seq<Bytes> :|
          && |tails| == |t.items| + 1 && tails[0] == bytes && tails[|t.items|] == rest
          && forall k | 0 <= k < |t.items| :: ReadAs(t.items[k], rows, [], tails[k], a.fields[k], tails[k + 1]);
        FieldsUncut(t.items, rows, a.fields, tails);
      }
    }
  }

  lemma {:induction false} FieldsCut(items: seq<ColType>, rows: nat, bytes: Bytes) returns (tails: seq<Bytes>)
    requires DecodeAll(items, rows, bytes).Some?
    ensures var (fields, rest) := DecodeAll(items, rows, bytes).value;
            && |tails| == |items| + 1 && tails[0] == bytes && tails[|items|] == rest
            && forall k | 0 <= k < |items| :: ReadAs(items[k], rows, [], tails[k], fields[k], tails[k + 1])
    decreases items
  {
    if items == [] {
      tails := [bytes];
    } else {
      var (field, after) := Decode(items[0], rows, [], bytes).value;
      DecodeIff(items[0], rows, [], bytes, field, after);
      var later := FieldsCut(items[1..], rows, after);
      tails := [bytes] + later;
      var fields := DecodeAll(items, rows, bytes).value.0;
      forall k | 0 < k < |items| ensures ReadAs(items[k], rows, [], tails[k], fields[k], tails[k + 1]) {
        assert items[k] == items[1..][k - 1] && fields[k] == fields[1..][k - 1];
      }
    }
  }

  lemma {:induction false} FieldsUncut(items: seq<ColType>, rows: nat, fields: seq<B.Arr>, tails: seq<Bytes>)
    requires |fields| == |items| && |tails| == |items| + 1
    requires forall k | 0 <= k < |items| :: ReadAs(items[k], rows, [], tails[k], fields[k], tails[k + 1])
    ensures DecodeAll(items, rows, tails[0]) == Some((fields, tails[|items|]))
    decreases items
  {
    if items != [] {
      DecodeIff(items[0], rows, [], tails[0], fields[0], tails[1]);
      forall k | 0 <= k < |items[1..]|
        ensures ReadAs(items[1..][k], rows, [], tails[1..][k], fields[1..][k], tails[1..][k + 1])
      {
        assert items[1..][k] == items[k + 1] && fields[1..][k] == fields[k + 1];
        assert ReadAs(items[k + 1], rows, [], tails[k + 1], fields[k + 1], tails[k + 1 + 1]);
      }
      FieldsUncut(items[1..], rows, fields[1..], tails[1..]);
      assert fields == [fields[0]] + fields[1..];
    }
  }
}
