/** Which columns come back from the wire exactly. */
module ColumnLaws {
  import opened Common
  import opened Wire
  import B = Batches
  import opened Columns

  // ---------------------------------------------------------------------------
  // The condition
  // ---------------------------------------------------------------------------

  /** A cell comes back: a null under a mask, or a value that its bytes read back as. */
  predicate CellReturns(form: Form, nullable: bool, cell: Option<Bytes>) {
    FitsForm(form, cell) &&
    ((nullable && cell.None?)
     || (PutCell(form, cell).Some? && GetCell(form, false, PutCell(form, cell).value) == Some(cell)))
  }

  predicate AllTrue(valid: seq<bool>) {
    forall i | 0 <= i < |valid| :: valid[i]
  }

  /** The rows cover the child from its first value to its last. */
  predicate Tight(offsets: seq<nat>, rows: nat, end: nat)
    requires |offsets| == rows + 1
  {
    offsets[0] == 0 && offsets[rows] == end
  }

  /** Nulls only where there is a mask, offsets that cover their children exactly at every
      depth, cells that survive their form, and no tuple without rows. */
  predicate Returns(t: ColType, nullable: bool, a: B.Arr)
    requires Shaped(t, a) && B.Valid(a)
    decreases t
  {
    match t
    case Fixed(form) => forall i | 0 <= i < |a.cells| :: CellReturns(form, nullable, a.cells[i])
    case Text => nullable || AllTrue(Present(a))
    case Nullable(x) => Returns(x, true, a)
    case Array(x) => AllTrue(a.valid) && Tight(a.offsets, |a.valid|, B.Len(a.child)) && Returns(x, false, a.child)
    case Tuple(items) =>
      && (nullable || AllTrue(a.valid))
      && if a.valid == [] then items == EMPTY_PAIR else forall k | 0 <= k < |items| :: Returns(items[k], false, a.fields[k])
    case Map(k, v) =>
      && AllTrue(a.valid) && Tight(a.offsets, |a.valid|, B.Len(a.keys))
      && Returns(k, false, a.keys) && Returns(v, false, a.values)
  }

  /** Read back exactly, with the bytes behind left, or not the same array. */
  ghost predicate Trips<T(!new)>(back: bool, read: Read<T>, a: T, rest: Bytes) {
    if back then read == Some((a, rest)) else read.None? || read.value.0 != a
  }

  // ---------------------------------------------------------------------------
  // Leaves
  // ---------------------------------------------------------------------------

  predicate MaskFits(nullable: bool, mask: Bytes, cells: Cells) {
    if nullable && cells != [] then |mask| == |cells| && forall i | 0 <= i < |cells| :: mask[i] == if cells[i].Some? then 0 else 1
    else mask == []
  }

  lemma ConsTrips<T(!new)>(first: bool, rest: bool, x: T, y: T, xs: seq<T>, ys: seq<T>)
    requires first <==> x == y
    requires rest <==> xs == ys
    ensures [x] + xs == [y] + ys <==> first && rest
  {
    assert ([x] + xs)[1..] == xs && ([y] + ys)[1..] == ys;
    if [x] + xs == [y] + ys {
      assert ([x] + xs)[0] == ([y] + ys)[0];
    }
  }

  lemma {:induction false} CellsTrip(form: Form, nullable: bool, cells: Cells, mask: Bytes, i: nat, rest: Bytes)
    requires i <= |cells| && MaskFits(nullable, mask, cells)
    requires forall k | 0 <= k < |cells| :: FitsForm(form, cells[k])
    requires PutCells(form, cells[i..]).Some?
    ensures Trips(forall k | i <= k < |cells| :: CellReturns(form, nullable, cells[k]),
                  GetCells(form, |cells|, mask, i, PutCells(form, cells[i..]).value + rest), cells[i..], rest)
    decreases |cells| - i
  {
    if i == |cells| {
      assert cells[i..] == [] && [] + rest == rest;
    } else {
      var cell := cells[i];
      assert cells[i..][0] == cell && cells[i..][1..] == cells[i + 1..] && cells[i..] == [cell] + cells[i + 1..];
      var raw, more := PutCell(form, cell).value, PutCells(form, cells[i + 1..]).value + rest;
      ConcatAssoc(raw, PutCells(form, cells[i + 1..]).value, rest);
      assert (raw + more)[..Width(form)] == raw && (raw + more)[Width(form)..] == more;
      CellsTrip(form, nullable, cells, mask, i + 1, rest);
      CellTrips(form, nullable, cell, mask, i, cells, raw);
      var got, later := GetCell(form, Masked(mask, i), raw), GetCells(form, |cells|, mask, i + 1, more);
      CellThenCells(CellReturns(form, nullable, cell), forall k | i + 1 <= k < |cells| :: CellReturns(form, nullable, cells[k]),
        got, later, cell, cells[i + 1..], rest);
    }
  }

  lemma CellThenCells(first: bool, back: bool, got: Option<Option<Bytes>>, later: Read<Cells>, cell: Option<Bytes>,
      cells: Cells, rest: Bytes)
    requires first <==> got == Some(cell)
    requires Trips(back, later, cells, rest)
    ensures var both := if got.None? || later.None? then None else Some(([got.value] + later.value.0, later.value.1));
            Trips(first && back, both, [cell] + cells, rest)
  {
    if got.Some? && later.Some? {
      ConsTrips(got.value == cell, later.value.0 == cells, got.value, cell, later.value.0, cells);
    }
  }

  lemma CellTrips(form: Form, nullable: bool, cell: Option<Bytes>, mask: Bytes, i: nat, cells: Cells, raw: Bytes)
    requires i < |cells| && cells[i] == cell && MaskFits(nullable, mask, cells) && FitsForm(form, cell)
    requires PutCell(form, cell) == Some(raw)
    ensures GetCell(form, Masked(mask, i), raw) == Some(cell) <==> CellReturns(form, nullable, cell)
  {
  }

  lemma {:induction false} TextsTrip(nullable: bool, cells: Cells, mask: Bytes, i: nat, rest: Bytes)
    requires i <= |cells| && MaskFits(nullable, mask, cells)
    requires forall k | 0 <= k < |cells| :: cells[k].Some? ==> |cells[k].value| <= MAX_STRING
    ensures Trips(nullable || forall k | i <= k < |cells| :: cells[k].Some?,
                  GetTexts(|cells|, mask, i, PutTexts(cells[i..]) + rest), cells[i..], rest)
    decreases |cells| - i
  {
    if i == |cells| {
      assert cells[i..] == [] && [] + rest == rest;
    } else {
      var cell := cells[i];
      assert cells[i..][0] == cell && cells[i..][1..] == cells[i + 1..] && cells[i..] == [cell] + cells[i + 1..];
      var more := PutTexts(cells[i + 1..]) + rest;
      ConcatAssoc(StringBytes(TextOf(cell)), PutTexts(cells[i + 1..]), rest);
      StringRoundTripIff(TextOf(cell), more);
      TextsTrip(nullable, cells, mask, i + 1, rest);
      var got, later := if Masked(mask, i) then None else Some(TextOf(cell)), GetTexts(|cells|, mask, i + 1, more);
      if later.Some? {
        ConsTrips(got == cell, later.value.0 == cells[i + 1..], got, cell, later.value.0, cells[i + 1..]);
      }
    }
  }

  // ---------------------------------------------------------------------------
  // Offsets
  // ---------------------------------------------------------------------------

  lemma SmallReadsBack(n: nat)
    requires n < 0x8000_0000
    ensures FromLE(LE(n, 8)) == n
  {
    LERoundTrip(n, 8);
    Pow256Values();
    DivModUnique(n, Pow256(8), 0, n);
  }

  lemma {:induction false} OffsetsReadBack(offsets: seq<nat>, rest: Bytes)
    requires Small(offsets)
    ensures GetOffsets(|offsets|, OffsetBytes(offsets) + rest) == Some((offsets, rest))
    decreases offsets
  {
    if offsets == [] {
      assert [] + rest == rest;
    } else {
      var first, more := LE(offsets[0], 8), OffsetBytes(offsets[1..]) + rest;
      ConcatAssoc(first, OffsetBytes(offsets[1..]), rest);
      assert (first + more)[..8] == first && (first + more)[8..] == more;
      SmallReadsBack(offsets[0]);
      OffsetsReadBack(offsets[1..], rest);
      assert [offsets[0]] + offsets[1..] == offsets;
    }
  }

  lemma {:induction false} DecodeLength(t: ColType, rows: nat, mask: Bytes, bytes: Bytes)
    requires mask == [] || |mask| == rows
    ensures Decode(t, rows, mask, bytes).Some? ==> B.Len(Decode(t, rows, mask, bytes).value.0) == rows
    decreases t
  {
    match t
    case Fixed(form) => CellsLength(form, rows, mask, 0, bytes);
    case Text => TextsLength(rows, mask, 0, bytes);
    case Nullable(x) =>
      if rows == 0 {
        DecodeLength(x, 0, [], bytes);
      } else if |bytes| >= rows {
        DecodeLength(x, rows, bytes[..rows], bytes[rows..]);
      }
    case _ =>
  }

  lemma {:induction false} CellsLength(form: Form, rows: nat, mask: Bytes, i: nat, bytes: Bytes)
    requires i <= rows && (mask == [] || |mask| == rows)
    ensures GetCells(form, rows, mask, i, bytes).Some? ==> |GetCells(form, rows, mask, i, bytes).value.0| == rows - i
    decreases rows - i
  {
    if i < rows && |bytes| >= Width(form) {
      CellsLength(form, rows, mask, i + 1, bytes[Width(form)..]);
    }
  }

  lemma {:induction false} TextsLength(rows: nat, mask: Bytes, i: nat, bytes: Bytes)
    requires i <= rows && (mask == [] || |mask| == rows)
    ensures GetTexts(rows, mask, i, bytes).Some? ==> |GetTexts(rows, mask, i, bytes).value.0| == rows - i
    decreases rows - i
  {
    if i < rows && DecodeString(bytes).Ok? {
      TextsLength(rows, mask, i + 1, DecodeString(bytes).value.1);
    }
  }

  // ---------------------------------------------------------------------------
  // The theorem
  // ---------------------------------------------------------------------------

  /** The mask in force while `a` is read. */
  ghost function MaskOf(nullable: bool, a: B.Arr): Bytes {
    if nullable && Present(a) != [] then Mask(a) else []
  }

  lemma PresentLength(t: ColType, a: B.Arr)
    requires Shaped(t, a) && B.Valid(a)
    ensures |Present(a)| == B.Len(a)
    decreases t
  {
    if t.Nullable? { PresentLength(t.inner, a); }
  }

  ghost predicate ColumnTrips(t: ColType, nullable: bool, a: B.Arr, rest: Bytes)
    requires Shaped(t, a) && B.Valid(a) && Encode(t, a).Some?
  {
    PresentLength(t, a);
    Trips(Returns(t, nullable, a), Decode(t, B.Len(a), MaskOf(nullable, a), Encode(t, a).value + rest), a, rest)
  }

  lemma FixedTrips(t: ColType, nullable: bool, a: B.Arr, rest: Bytes)
    requires t.Fixed? && Shaped(t, a) && B.Valid(a) && Encode(t, a).Some?
    ensures ColumnTrips(t, nullable, a, rest)
  {
    PresentLength(t, a);
    assert a.cells[0..] == a.cells;
    CellsTrip(t.form, nullable, a.cells, MaskOf(nullable, a), 0, rest);
  }

  lemma TextTrips(t: ColType, nullable: bool, a: B.Arr, rest: Bytes)
    requires t.Text? && Shaped(t, a) && B.Valid(a)
    ensures ColumnTrips(t, nullable, a, rest)
  {
    PresentLength(t, a);
    assert a.cells[0..] == a.cells;
    TextsTrip(nullable, a.cells, MaskOf(nullable, a), 0, rest);
    assert AllTrue(Present(a)) <==> forall k | 0 <= k < |a.cells| :: a.cells[k].Some?;
  }

  lemma NullableTrips(t: ColType, a: B.Arr, rest: Bytes)
    requires t.Nullable? && Shaped(t, a) && B.Valid(a) && Encode(t, a).Some? && ColumnTrips(t.inner, true, a, rest)
    ensures ColumnTrips(t, false, a, rest)
  {
    PresentLength(t, a);
    var bytes := Encode(t.inner, a).value;
    ConcatAssoc(Mask(a), bytes, rest);
    var whole := Mask(a) + (bytes + rest);
    assert whole[..|Mask(a)|] == Mask(a) && whole[|Mask(a)|..] == bytes + rest;
    if B.Len(a) == 0 { assert whole == bytes + rest; }
  }

  /** The offsets read for a list or map whose rows have these ends. */
  lemma OffsetsTrip(offsets: seq<nat>, rows: nat, end: nat)
    requires B.Ordered(offsets, rows, end) && Small(offsets)
    ensures offsets[0] == 0 ==> [0] + offsets[1..] == offsets && Offsets([0] + offsets[1..])
    ensures offsets[0] != 0 ==> [0] + offsets[1..] != offsets
  {
    assert ([0] + offsets[1..])[0] == 0;
  }

  lemma ArrayTrips(t: ColType, a: B.Arr, rest: Bytes)
    requires t.Array? && Shaped(t, a) && B.Valid(a) && Encode(t, a).Some? && ColumnTrips(t.inner, false, a.child, rest)
    ensures ColumnTrips(t, false, a, rest)
  {
    var rows, ends := |a.valid|, a.offsets[1..];
    var bytes := Encode(t.inner, a.child).value;
    ConcatAssoc(OffsetBytes(ends), bytes, rest);
    OffsetsReadBack(ends, bytes + rest);
    OffsetsTrip(a.offsets, rows, B.Len(a.child));
    var offsets := [0] + ends;
    DecodeLength(t.inner, offsets[rows], [], bytes + rest);
    assert Unmasked([], rows) == a.valid <==> AllTrue(a.valid);
  }

  /** Whatever a map is read from, it starts at zero, has no null row, and ends where its
      keys do. */
  lemma DecodedMap(t: ColType, rows: nat, bytes: Bytes)
    requires t.Map? && Decode(t, rows, [], bytes).Some?
    ensures var m := Decode(t, rows, [], bytes).value.0;
            m.Map? && |m.offsets| == rows + 1 && m.offsets[0] == 0 && m.offsets[rows] == B.Len(m.keys) && AllTrue(m.valid)
  {
    var (ends, rest) := GetOffsets(rows, bytes).value;
    DecodeLength(t.key, ([0] + ends)[rows], [], rest);
  }

  lemma MapUnfolds(t: ColType, rows: nat, bytes: Bytes, ends: seq<nat>, offsets: seq<nat>, after: Bytes)
    requires t.Map? && GetOffsets(rows, bytes) == Some((ends, after)) && offsets == [0] + ends && Offsets(offsets)
    ensures var keys := Decode(t.key, offsets[rows], [], after);
            Decode(t, rows, [], bytes) ==
              if keys.None? then None
              else
                var values := Decode(t.value, offsets[rows], [], keys.value.1);
                if values.None? then None
                else Some((B.Map(Unmasked([], rows), offsets, keys.value.0, values.value.0), values.value.1))
  {
  }

  lemma MapTrips(t: ColType, a: B.Arr, rest: Bytes)
    requires t.Map? && Shaped(t, a) && B.Valid(a) && Encode(t, a).Some?
    requires ColumnTrips(t.key, false, a.keys, Encode(t.value, a.values).value + rest)
    requires ColumnTrips(t.value, false, a.values, rest)
    ensures ColumnTrips(t, false, a, rest)
  {
    var rows := |a.valid|;
    var bytes := Encode(t, a).value + rest;
    if AllTrue(a.valid) && Tight(a.offsets, rows, B.Len(a.keys)) {
      TightMapTrips(t, a, rest, Encode(t.key, a.keys).value, Encode(t.value, a.values).value);
    } else if Decode(t, rows, [], bytes).Some? {
      DecodedMap(t, rows, bytes);
    }
  }

  lemma MapBytes(t: ColType, a: B.Arr, rest: Bytes, ks: Bytes, vs: Bytes)
    requires t.Map? && Shaped(t, a) && B.Valid(a) && a.offsets[0] == 0
    requires Encode(t.key, a.keys) == Some(ks) && Encode(t.value, a.values) == Some(vs)
    ensures Encode(t, a).Some? && Encode(t, a).value + rest == OffsetBytes(a.offsets[1..]) + (ks + (vs + rest))
  {
    forall i | 0 <= i < |a.offsets| ensures a.offsets[0] <= a.offsets[i] {
      OrderedFromFirst(a.offsets, |a.valid|, B.Len(a.keys), i);
    }
    assert Totals(a.offsets) == a.offsets[1..];
    ConcatAssoc(OffsetBytes(a.offsets[1..]), ks + vs, rest);
    ConcatAssoc(ks, vs, rest);
  }

  lemma TightMapReads(t: ColType, valid: seq<bool>, offsets: seq<nat>, end: nat, whole: Bytes, tail: Bytes)
    requires t.Map? && B.Ordered(offsets, |valid|, end) && Small(offsets) && AllTrue(valid)
    requires Tight(offsets, |valid|, end) && whole == OffsetBytes(offsets[1..]) + tail
    ensures var keys := Decode(t.key, end, [], tail);
            Decode(t, |valid|, [], whole) ==
              if keys.None? then None
              else
                var values := Decode(t.value, end, [], keys.value.1);
                if values.None? then None
                else Some((B.Map(valid, offsets, keys.value.0, values.value.0), values.value.1))
  {
    OffsetsReadBack(offsets[1..], tail);
    OffsetsTrip(offsets, |valid|, end);
    MapUnfolds(t, |valid|, whole, offsets[1..], offsets, tail);
    assert Unmasked([], |valid|) == valid;
  }

  lemma TightMapTrips(t: ColType, a: B.Arr, rest: Bytes, ks: Bytes, vs: Bytes)
    requires t.Map? && Shaped(t, a) && B.Valid(a) && Encode(t, a).Some?
    requires Encode(t.key, a.keys) == Some(ks) && Encode(t.value, a.values) == Some(vs)
    requires ColumnTrips(t.key, false, a.keys, vs + rest) && ColumnTrips(t.value, false, a.values, rest)
    requires AllTrue(a.valid) && Tight(a.offsets, |a.valid|, B.Len(a.keys))
    ensures ColumnTrips(t, false, a, rest)
  {
    var whole, end := Encode(t, a).value + rest, B.Len(a.keys);
    MapBytes(t, a, rest, ks, vs);
    TightMapReads(t, a.valid, a.offsets, end, whole, ks + (vs + rest));
    NoMaskTrips(t.key, a.keys, vs + rest);
    NoMaskTrips(t.value, a.values, rest);
    CombineMap(Returns(t.key, false, a.keys), Returns(t.value, false, a.values),
      Decode(t.key, end, [], ks + (vs + rest)), Decode(t.value, end, [], vs + rest),
      Decode(t, |a.valid|, [], whole), a, vs + rest, rest);
  }

  lemma NoMaskTrips(t: ColType, a: B.Arr, rest: Bytes)
    requires Shaped(t, a) && B.Valid(a) && Encode(t, a).Some? && ColumnTrips(t, false, a, rest)
    ensures Trips(Returns(t, false, a), Decode(t, B.Len(a), [], Encode(t, a).value + rest), a, rest)
  {
  }

  /** Keys, then values where the keys end. */
  lemma CombineMap(keysBack: bool, valuesBack: bool, keys: Read<B.Arr>, values: Read<B.Arr>, whole: Read<B.Arr>, a: B.Arr,
      mid: Bytes, rest: Bytes)
    requires a.Map? && Trips(keysBack, keys, a.keys, mid) && Trips(valuesBack, values, a.values, rest)
    requires keys.None? ==> whole.None?
    requires keys.Some? && whole.Some? ==> whole.value.0.Map? && whole.value.0.keys == keys.value.0
    requires keys == Some((a.keys, mid)) ==>
               whole == if values.None? then None
                        else Some((B.Map(a.valid, a.offsets, a.keys, values.value.0), values.value.1))
    ensures Trips(keysBack && valuesBack, whole, a, rest)
  {
  }

  lemma TupleTrips(t: ColType, nullable: bool, a: B.Arr, rest: Bytes)
    requires t.Tuple? && Shaped(t, a) && B.Valid(a) && Encode(t, a).Some?
    requires Trips(AllReturn(t.items, a.fields),
                   DecodeAll(t.items, |a.valid|, EncodeAll(t.items, a.fields).value + rest), a.fields, rest)
    ensures ColumnTrips(t, nullable, a, rest)
  {
    PresentLength(t, a);
    if a.valid == [] {
      if t.items == EMPTY_PAIR { EmptyPairTrips(t, a, rest); }
    } else {
      RowedTupleTrips(t, nullable, a, rest, MaskOf(nullable, a));
    }
  }

  lemma UnmaskedIs(nullable: bool, a: B.Arr, mask: Bytes)
    requires a.Record? && a.valid != [] && mask == MaskOf(nullable, a)
    ensures Unmasked(mask, |a.valid|) == a.valid <==> nullable || AllTrue(a.valid)
  {
    if nullable {
      assert forall i | 0 <= i < |a.valid| :: mask[i] == if a.valid[i] then 0 else 1;
    }
  }

  lemma RowedTupleTrips(t: ColType, nullable: bool, a: B.Arr, rest: Bytes, mask: Bytes)
    requires t.Tuple? && Shaped(t, a) && B.Valid(a) && Encode(t, a).Some? && a.valid != [] && mask == MaskOf(nullable, a)
    requires Trips(AllReturn(t.items, a.fields),
                   DecodeAll(t.items, |a.valid|, EncodeAll(t.items, a.fields).value + rest), a.fields, rest)
    ensures Trips(Returns(t, nullable, a), Decode(t, |a.valid|, mask, Encode(t, a).value + rest), a, rest)
  {
    UnmaskedIs(nullable, a, mask);
    assert Returns(t, nullable, a) <==> (nullable || AllTrue(a.valid)) && AllReturn(t.items, a.fields);
  }

  lemma EmptyPairTrips(t: ColType, a: B.Arr, rest: Bytes)
    requires t.Tuple? && t.items == EMPTY_PAIR && Shaped(t, a) && B.Valid(a) && a.valid == []
    ensures Encode(t, a) == Some([]) && a == B.Record([], [B.Leaf(1, []), B.Leaf(0, [])])
  {
    var f, g := a.fields[0], a.fields[1];
    assert Shaped(t.items[0], f) && Shaped(t.items[1], g) && B.Len(f) == 0 && B.Len(g) == 0;
    assert f == B.Leaf(1, []) && g == B.Leaf(0, []) && a.fields == [f, g];
    EmptyPairEncodes(t.items, a.fields);
  }

  lemma EmptyPairEncodes(items: seq<ColType>, fields: seq<B.Arr>)
    requires items == [Fixed(Int32), Text] && fields == [B.Leaf(1, []), B.Leaf(0, [])]
    ensures forall k | 0 <= k < |items| :: Shaped(items[k], fields[k]) && B.Valid(fields[k])
    ensures EncodeAll(items, fields) == Some([])
  {
    assert items[1..] == [Text] && fields[1..] == [B.Leaf(0, [])];
    assert items[1..][1..] == [] && fields[1..][1..] == [];
    assert PutCells(Int32, []) == Some([]) && PutTexts([]) == [];
    var none: Bytes := [];
    assert none + none == none && EncodeAll(items[1..][1..], fields[1..][1..]) == Some(none);
    assert items[1..][0] == Text && fields[1..][0] == B.Leaf(0, []) && Encode(Text, B.Leaf(0, [])) == Some(none);
    assert EncodeAll(items[1..], fields[1..]) == Some(none);
    assert items[0] == Fixed(Int32) && Encode(Fixed(Int32), B.Leaf(1, [])) == Some(none);
  }

  lemma {:induction false} FieldsTrip(items: seq<ColType>, fields: seq<B.Arr>, rows: nat, rest: Bytes)
    requires |items| == |fields|
    requires forall k | 0 <= k < |items| :: Shaped(items[k], fields[k]) && B.Valid(fields[k]) && B.Len(fields[k]) == rows
    requires EncodeAll(items, fields).Some?
    ensures Trips(AllReturn(items, fields),
                  DecodeAll(items, rows, EncodeAll(items, fields).value + rest), fields, rest)
    decreases items
  {
    if items == [] {
      assert [] + rest == rest;
    } else {
      var bytes, more := Encode(items[0], fields[0]).value, EncodeAll(items[1..], fields[1..]).value + rest;
      ConcatAssoc(bytes, EncodeAll(items[1..], fields[1..]).value, rest);
      ColumnsTrip(items[0], false, fields[0], more);
      FieldsTrip(items[1..], fields[1..], rows, rest);
      AllReturnCons(items, fields);
      PresentLength(items[0], fields[0]);
      DecodeCons(items, rows, bytes + more, fields);
    }
  }

  predicate AllReturn(items: seq<ColType>, fields: seq<B.Arr>)
    requires |items| == |fields| && forall k | 0 <= k < |items| :: Shaped(items[k], fields[k]) && B.Valid(fields[k])
  {
    forall k | 0 <= k < |items| :: Returns(items[k], false, fields[k])
  }

  lemma AllReturnCons(items: seq<ColType>, fields: seq<B.Arr>)
    requires |items| == |fields| > 0 && forall k | 0 <= k < |items| :: Shaped(items[k], fields[k]) && B.Valid(fields[k])
    ensures AllReturn(items, fields) <==> Returns(items[0], false, fields[0]) && AllReturn(items[1..], fields[1..])
  {
    assert forall k | 0 < k < |items| :: items[k] == items[1..][k - 1] && fields[k] == fields[1..][k - 1];
  }

  lemma DecodeCons(items: seq<ColType>, rows: nat, bytes: Bytes, fields: seq<B.Arr>)
    requires |items| == |fields| > 0
    ensures var first := Decode(items[0], rows, [], bytes);
            if first.None? then DecodeAll(items, rows, bytes).None?
            else
              var later := DecodeAll(items[1..], rows, first.value.1);
              if later.None? then DecodeAll(items, rows, bytes).None?
              else
                && DecodeAll(items, rows, bytes).Some?
                && DecodeAll(items, rows, bytes).value.1 == later.value.1
                && (DecodeAll(items, rows, bytes).value.0 == fields <==>
                      first.value.0 == fields[0] && later.value.0 == fields[1..])
  {
    assert fields == [fields[0]] + fields[1..];
    var first := Decode(items[0], rows, [], bytes);
    if first.Some? && DecodeAll(items[1..], rows, first.value.1).Some? {
      var later := DecodeAll(items[1..], rows, first.value.1).value.0;
      ConsTrips(first.value.0 == fields[0], later == fields[1..], first.value.0, fields[0], later, fields[1..]);
    }
  }

  lemma {:induction false} ColumnsTrip(t: ColType, nullable: bool, a: B.Arr, rest: Bytes)
    requires Shaped(t, a) && B.Valid(a) && Encode(t, a).Some?
    requires nullable ==> !t.Nullable? && !t.Array? && !t.Map?
    ensures ColumnTrips(t, nullable, a, rest)
    decreases t
  {
    match t
    case Fixed(_) => FixedTrips(t, nullable, a, rest);
    case Text => TextTrips(t, nullable, a, rest);
    case Nullable(x) =>
      ColumnsTrip(x, true, a, rest);
      NullableTrips(t, a, rest);
    case Array(x) =>
      ColumnsTrip(x, false, a.child, rest);
      ArrayTrips(t, a, rest);
    case Tuple(items) =>
      FieldsTrip(items, a.fields, |a.valid|, rest);
      TupleTrips(t, nullable, a, rest);
    case Map(k, v) =>
      ColumnsTrip(k, false, a.keys, Encode(v, a.values).value + rest);
      ColumnsTrip(v, false, a.values, rest);
      MapTrips(t, a, rest);
  }

  /** A column written and read back is the same array, with the bytes behind it left, if and
      only if it returns. */
  lemma ColumnReturnsIff(t: ColType, a: B.Arr, rest: Bytes)
    requires Shaped(t, a) && B.Valid(a) && Encode(t, a).Some?
    ensures Decode(t, B.Len(a), [], Encode(t, a).value + rest) == Some((a, rest)) <==> Returns(t, false, a)
  {
    ColumnsTrip(t, false, a, rest);
    PresentLength(t, a);
  }

  // ---------------------------------------------------------------------------
  // Columns that do not return
  // ---------------------------------------------------------------------------

  lemma SliceShaped(t: ColType, a: B.Arr, s: nat, n: nat)
    requires t.Array? && Shaped(t, a) && B.Valid(a) && s + n <= B.Len(a)
    ensures Shaped(t, B.Slice(a, s, n))
    ensures Encode(t, B.Slice(a, s, n)).Some? <==> Encode(t.inner, a.child).Some?
    ensures Returns(t, false, B.Slice(a, s, n)) <==>
              AllTrue(a.valid[s..s + n]) && Covers(a, s, n) && Returns(t.inner, false, a.child)
  {
  }

  /** The array can be written, and its bytes read back as the array and no further. */
  predicate ReadsBack(t: ColType, a: B.Arr, rest: Bytes) {
    && Shaped(t, a) && B.Valid(a) && Encode(t, a).Some?
    && Decode(t, B.Len(a), [], Encode(t, a).value + rest) == Some((a, rest))
  }

  /** The rows of a slice of a list cover the whole child. */
  predicate Covers(a: B.Arr, s: nat, n: nat)
    requires a.List? && B.Valid(a) && s + n <= B.Len(a)
  {
    a.offsets[s] == 0 && a.offsets[s + n] == B.Len(a.child)
  }

  /** A slice of a list column is written with offsets into the whole child and with the
      whole child: what is read is the slice, with the bytes behind it left, if and only if
      no row of it is null, the child returns and has no value outside the slice. */
  lemma SlicedListReturnsIff(t: ColType, a: B.Arr, s: nat, n: nat, rest: Bytes)
    requires t.Array? && Shaped(t, a) && B.Valid(a) && s + n <= B.Len(a) && Encode(t.inner, a.child).Some?
    ensures Shaped(t, B.Slice(a, s, n)) && Encode(t, B.Slice(a, s, n)).Some?
    ensures ReadsBack(t, B.Slice(a, s, n), rest) <==>
              AllTrue(a.valid[s..s + n]) && Covers(a, s, n) && Returns(t.inner, false, a.child)
  {
    SliceShaped(t, a, s, n);
    ColumnReturnsIff(t, B.Slice(a, s, n), rest);
  }

  /** Of the two pieces a list column is cut into, both come back if and only if its lists
      hold no value at all, no row is null and the empty child returns. */
  lemma CutListsLost(t: ColType, a: B.Arr, s: nat, rest: Bytes)
    requires t.Array? && Shaped(t, a) && B.Valid(a) && s <= B.Len(a) && Encode(t.inner, a.child).Some?
    ensures ReadsBack(t, B.Slice(a, 0, s), rest) && ReadsBack(t, B.Slice(a, s, B.Len(a) - s), rest)
       <==> B.Len(a.child) == 0 && AllTrue(a.valid) && Returns(t.inner, false, a.child)
  {
    PieceReadsIff(t, a, 0, s, rest);
    PieceReadsIff(t, a, s, B.Len(a) - s, rest);
    BothCover(a, s, Returns(t.inner, false, a.child),
      ReadsBack(t, B.Slice(a, 0, s), rest), ReadsBack(t, B.Slice(a, s, B.Len(a) - s), rest));
  }

  lemma PieceReadsIff(t: ColType, a: B.Arr, s: nat, n: nat, rest: Bytes)
    requires t.Array? && Shaped(t, a) && B.Valid(a) && s + n <= B.Len(a) && Encode(t.inner, a.child).Some?
    ensures ReadsBack(t, B.Slice(a, s, n), rest) <==>
              AllTrue(a.valid[s..s + n]) && Covers(a, s, n) && Returns(t.inner, false, a.child)
  {
    SlicedListReturnsIff(t, a, s, n, rest);
  }

  lemma BothCover(a: B.Arr, s: nat, child: bool, left: bool, right: bool)
    requires a.List? && B.Valid(a) && s <= B.Len(a)
    requires left <==> AllTrue(a.valid[0..0 + s]) && Covers(a, 0, s) && child
    requires right <==> AllTrue(a.valid[s..s + (B.Len(a) - s)]) && Covers(a, s, B.Len(a) - s) && child
    ensures left && right <==> B.Len(a.child) == 0 && AllTrue(a.valid) && child
  {
    AllTrueCut(a.valid, s);
    OrderedEnds(a.offsets, |a.valid|, B.Len(a.child), s);
    assert a.valid[0..0 + s] == a.valid[..s] && a.valid[s..s + (|a.valid| - s)] == a.valid[s..];
  }

  lemma AllTrueCut(valid: seq<bool>, s: nat)
    requires s <= |valid|
    ensures AllTrue(valid) <==> AllTrue(valid[..s]) && AllTrue(valid[s..])
  {
    assert valid == valid[..s] + valid[s..];
    if AllTrue(valid[..s]) && AllTrue(valid[s..]) {
      forall i | 0 <= i < |valid| ensures valid[i] {
        assert valid[i] == if i < s then valid[..s][i] else valid[s..][i - s];
      }
    }
  }

  /** Offsets into nothing are zero. */
  lemma OrderedEnds(offsets: seq<nat>, rows: nat, end: nat, i: nat)
    requires B.Ordered(offsets, rows, end) && i <= rows
    ensures end == 0 ==> offsets[0] == 0 && offsets[i] == 0 && offsets[rows] == 0
  {
  }

  /** Lists that hold no tuple are written and cannot be read back, whatever the tuple but
      one; lists of that one can if their offsets are in place and no row is null. */
  lemma EmptyTuplesLost(items: seq<ColType>, a: B.Arr, rest: Bytes)
    requires Shaped(Array(Tuple(items)), a) && B.Valid(a) && B.Len(a.child) == 0
    requires Encode(Array(Tuple(items)), a).Some?
    ensures Decode(Array(Tuple(items)), B.Len(a), [], Encode(Array(Tuple(items)), a).value + rest) == Some((a, rest))
       <==> items == EMPTY_PAIR && AllTrue(a.valid)
  {
    ColumnReturnsIff(Array(Tuple(items)), a, rest);
    OrderedEnds(a.offsets, |a.valid|, 0, |a.valid|);
  }

  /** A UUID comes back if and only if its halves are the same: they are exchanged when
      written and not when read. */
  lemma UuidReturnsIff(cell: Bytes)
    requires |cell| == 16
    ensures CellReturns(Uuid, false, Some(cell)) <==> cell[..8] == cell[8..]
  {
    assert (cell[8..] + cell[..8])[..8] == cell[8..] && (cell[8..] + cell[..8])[8..] == cell[..8];
    assert cell == cell[..8] + cell[8..];
  }

  /** An IPv4 address comes back if and only if it reads the same backwards: it is written
      as it is, and read as a little-endian number. */
  lemma Ipv4ReturnsIff(cell: Bytes)
    requires |cell| == 4
    ensures CellReturns(Ipv4, false, Some(cell)) <==> cell[0] == cell[3] && cell[1] == cell[2]
  {
    var back := Reversed(cell);
    assert back[0] == cell[3] && back[1] == cell[2] && back[2] == cell[1] && back[3] == cell[0];
    if cell[0] == cell[3] && cell[1] == cell[2] { assert back == cell; }
  }

  /** Plain values and 256-bit integers always come back. */
  lemma PlainReturns(form: Form, cell: Bytes)
    requires form.Int32? || form.Plain? || form.Int256?
    requires |cell| == Width(form)
    ensures CellReturns(form, false, Some(cell))
  {
    assert Reversed(Reversed(cell)) == cell;
  }

  lemma ModSmall(n: int, m: nat)
    requires 0 < m && 0 <= 2 * n + m && 2 * n < m
    ensures n % m == if n < 0 then n + m else n
  {
    if n < 0 { DivModUnique(n + m, m, 0, n + m); } else { DivModUnique(n, m, 0, n); }
  }

  lemma SignedReadsBack(number: int, n: nat)
    requires 0 <= 2 * number + Pow256(n) && 2 * number < Pow256(n)
    ensures Signed(LE(number % Pow256(n), n)) == number
  {
    var m := Pow256(n);
    ModSmall(number, m);
    LERoundTrip(number % m, n);
    FitsModulus(number % m, m);
  }

  /** An enum name comes back if and only if its number leads back to it: the first pair of
      the last number the name has. */
  lemma EnumReturnsIff(bytes: nat, pairs: seq<(Bytes, int)>, cell: Bytes, number: int)
    requires NumberOf(pairs, cell) == Some(number)
    requires 0 <= 2 * number + Pow256(bytes) && 2 * number < Pow256(bytes)
    ensures CellReturns(Enum(bytes, pairs), false, Some(cell)) <==> NameOf(pairs, number) == Some(cell)
  {
    SignedReadsBack(number, bytes);
  }
}
