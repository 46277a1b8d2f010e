/** Reading a derived row from columns of any names: what is whose, by name or by position. */
module DerivePositions {
  import opened Common
  import opened DeriveRow
  import opened DeriveRowLaws

  // ---------------------------------------------------------------------------
  // Whose a column is
  // ---------------------------------------------------------------------------

  /** How many positions belong to a field: one, or one for each column of a nested struct. */
  function Positions(f: Field): nat {
    if f.skipDe then 0
    else
      match f.shape
      case Flat(_) => 1
      case Nested(inner) => |ColumnNames(inner)|
      case Flatten(_) => 0
  }

  /** The first position of field `i`: behind those of all fields before it. */
  function Start(fields: seq<Field>, i: nat): nat
    requires i <= |fields|
  {
    if i == 0 then 0 else Start(fields, i - 1) + Positions(fields[i - 1])
  }

  /** The column at position `x` is the field's by name, or by position if no field takes the
      name; flattened structs take none by position. */
  predicate Owns(s: Struct, i: nat, x: nat, name: string)
    requires i < |s.fields|
  {
    if exists j | 0 <= j < |s.fields| :: Takes(s.fields[j], name) then
      Takes(s.fields[i], name) && forall j | 0 <= j < i :: !Takes(s.fields[j], name)
    else !HasFlatten(s) && Start(s.fields, i) <= x < Start(s.fields, i + 1)
  }

  /** The columns of field `i`, in the order they come, under the names its own struct knows. */
  function Share(s: Struct, cols: seq<Column>, i: nat): seq<Column>
    requires i < |s.fields|
    decreases |cols|
  {
    if cols == [] then []
    else
      var x := |cols| - 1;
      Share(s, cols[..x], i) + if Owns(s, i, x, cols[x].name) then [Inner(s.fields[i], cols[x])] else []
  }

  predicate Unowned(s: Struct, x: nat, name: string) {
    forall i | 0 <= i < |s.fields| :: !Owns(s, i, x, name)
  }

  /** Some column is nobody's, and the struct does not put up with that. */
  predicate Refused(s: Struct, cols: seq<Column>) {
    s.denyUnknown && !HasFlatten(s) && exists x | 0 <= x < |cols| :: Unowned(s, x, cols[x].name)
  }

  // ---------------------------------------------------------------------------
  // Positions
  // ---------------------------------------------------------------------------

  lemma {:induction false} StartBehind(fields: seq<Field>, i: nat)
    requires fields != [] && i < |fields|
    ensures Start(fields, i + 1) == Positions(fields[0]) + Start(fields[1..], i)
  {
    if i > 0 {
      StartBehind(fields, i - 1);
      assert fields[1..][i - 1] == fields[i];
    }
  }

  lemma {:induction false} StartGrows(fields: seq<Field>, i: nat, j: nat)
    requires i <= j <= |fields|
    ensures Start(fields, i) <= Start(fields, j)
  {
    if i < j { StartGrows(fields, i, j - 1); }
  }

  lemma WidthIsPositions(f: Field)
    requires f.shape.Nested? && !f.skipDe ==> ColumnCount(f.shape.inner).Some?
    ensures Width(f) == Positions(f)
  {
    if f.shape.Nested? { CountIsNames(f.shape.inner); }
  }

  /** The index arms cover the positions in order, without a gap. */
  lemma {:induction false} IndexArmStarts(fields: seq<Field>, x: nat)
    requires Sized(fields)
    ensures var k := IndexArm(fields, x);
            if k < |fields| then Start(fields, k) <= x < Start(fields, k + 1) else x >= Start(fields, |fields|)
    decreases fields
  {
    if fields != [] {
      WidthIsPositions(fields[0]);
      assert Start(fields, 1) == Start(fields, 0) + Positions(fields[0]);
      if x >= Width(fields[0]) {
        IndexArmStarts(fields[1..], x - Width(fields[0]));
        var k := IndexArm(fields[1..], x - Width(fields[0]));
        if k > 0 { StartBehind(fields, k - 1); }
        if k < |fields[1..]| { StartBehind(fields, k); }
      }
    }
  }

  /** Who owns a column; the number of fields if nobody does. */
  function Owner(s: Struct, x: nat, name: string): (o: nat)
    ensures o <= |s.fields|
  {
    if Arm(s.fields, name) < |s.fields| then Arm(s.fields, name)
    else if HasFlatten(s) then |s.fields|
    else IndexArm(s.fields, x)
  }

  lemma NamedOwner(s: Struct, x: nat, name: string, i: nat)
    requires i < |s.fields| && Arm(s.fields, name) < |s.fields|
    ensures Owns(s, i, x, name) <==> i == Arm(s.fields, name)
  {
    assert Takes(s.fields[Arm(s.fields, name)], name);
  }

  lemma PlacedOwner(fields: seq<Field>, x: nat, i: nat)
    requires Sized(fields) && i < |fields|
    ensures Start(fields, i) <= x < Start(fields, i + 1) <==> i == IndexArm(fields, x)
  {
    IndexArmStarts(fields, x);
    var k := IndexArm(fields, x);
    if k < i { StartGrows(fields, k + 1, i); }
    if i < k { StartGrows(fields, i + 1, k); }
  }

  lemma OwnerOwns(s: Struct, x: nat, name: string, i: nat)
    requires Sized(s.fields) && i < |s.fields|
    ensures Owns(s, i, x, name) <==> i == Owner(s, x, name)
  {
    if Arm(s.fields, name) < |s.fields| { NamedOwner(s, x, name, i); } else { PlacedOwner(s.fields, x, i); }
  }

  lemma MatchOneOwned(c: Conv, s: Struct, slots: seq<Slot>, x: nat, col: Column)
    requires |slots| == |s.fields| && Sized(s.fields)
    ensures var o := Owner(s, x, col.name);
            MatchOne(c, s, slots, x, col) ==
              if o < |s.fields| then FillAt(c, s.fields, slots, o, Inner(s.fields[o], col))
              else if s.denyUnknown && !HasFlatten(s) then Err(UnknownField)
              else Ok(slots)
  {
    var o := Owner(s, x, col.name);
    if Arm(s.fields, col.name) == |s.fields| && o < |s.fields| {
      assert !Takes(s.fields[o], col.name);
      IndexArmStarts(s.fields, x);
      assert Positions(s.fields[o]) > 0;
      assert Inner(s.fields[o], col) == col;
    }
  }

  // ---------------------------------------------------------------------------
  // The match loop
  // ---------------------------------------------------------------------------

  function Filled(c: Conv, s: Struct, cols: seq<Column>): (rs: seq<Result<Slot, RowError>>)
    ensures |rs| == |s.fields|
  {
    seq(|s.fields|, i requires 0 <= i < |s.fields| => FillAll(c, s.fields[i], Share(s, cols, i)))
  }

  /** Matching any columns does to each field what its share does alone, and fails besides only
      if a column is refused. */
  ghost predicate Shared(c: Conv, s: Struct, cols: seq<Column>, r: Result<seq<Slot>, RowError>) {
    && (r.Ok? <==> !Refused(s, cols) && forall i | 0 <= i < |s.fields| :: Filled(c, s, cols)[i].Ok?)
    && (r.Ok? ==> |r.value| == |s.fields| && forall i | 0 <= i < |s.fields| :: Filled(c, s, cols)[i] == Ok(r.value[i]))
  }

  lemma ShareAppend(s: Struct, init: seq<Column>, col: Column, i: nat)
    requires i < |s.fields| && Sized(s.fields)
    ensures Share(s, init + [col], i)
         == Share(s, init, i) + if i == Owner(s, |init|, col.name) then [Inner(s.fields[i], col)] else []
  {
    assert (init + [col])[..|init|] == init;
    OwnerOwns(s, |init|, col.name, i);
  }

  lemma FilledAppend(c: Conv, s: Struct, init: seq<Column>, col: Column, i: nat)
    requires i < |s.fields| && Sized(s.fields)
    ensures var o, before := Owner(s, |init|, col.name), Filled(c, s, init)[i];
            Filled(c, s, init + [col])[i] ==
              if i == o && before.Ok? then Fill(c, s.fields[i], before.value, Inner(s.fields[i], col)) else before
  {
    ShareAppend(s, init, col, i);
    FillAllAppend(c, s.fields[i], Share(s, init, i), Inner(s.fields[i], col));
    assert Share(s, init, i) + [] == Share(s, init, i);
  }

  lemma RefusedAppend(s: Struct, init: seq<Column>, col: Column)
    requires Sized(s.fields)
    ensures Refused(s, init + [col]) <==>
              Refused(s, init) || (s.denyUnknown && !HasFlatten(s) && Owner(s, |init|, col.name) == |s.fields|)
  {
    var cols := init + [col];
    UnownedIff(s, |init|, col.name);
    assert forall x | 0 <= x < |init| :: cols[x] == init[x];
    assert cols[|init|] == col;
    if Refused(s, init) {
      var x :| 0 <= x < |init| && Unowned(s, x, init[x].name);
      assert Unowned(s, x, cols[x].name);
    }
    if Refused(s, cols) {
      var x :| 0 <= x < |cols| && Unowned(s, x, cols[x].name);
      if x < |init| { assert Unowned(s, x, init[x].name); }
    }
  }

  lemma UnownedIff(s: Struct, x: nat, name: string)
    requires Sized(s.fields)
    ensures Unowned(s, x, name) <==> Owner(s, x, name) == |s.fields|
  {
    forall i | 0 <= i < |s.fields| ensures Owns(s, i, x, name) <==> i == Owner(s, x, name) {
      OwnerOwns(s, x, name, i);
    }
    var o := Owner(s, x, name);
    if o < |s.fields| { assert Owns(s, o, x, name); }
  }

  lemma SharedStep(c: Conv, s: Struct, init: seq<Column>, col: Column, before: Result<seq<Slot>, RowError>)
    requires Sized(s.fields) && Shared(c, s, init, before)
    ensures Shared(c, s, init + [col],
              if before.Err? then before else MatchOne(c, s, before.value, |init|, col))
  {
    var n, o := |s.fields|, Owner(s, |init|, col.name);
    var olds, news := Filled(c, s, init), Filled(c, s, init + [col]);
    forall i | 0 <= i < n
      ensures news[i] == if i == o && olds[i].Ok? then Fill(c, s.fields[i], olds[i].value, Inner(s.fields[i], col)) else olds[i]
    {
      FilledAppend(c, s, init, col, i);
    }
    RefusedAppend(s, init, col);
    if before.Err? {
      if !Refused(s, init) {
        var i :| 0 <= i < n && olds[i].Err?;
        assert news[i].Err?;
      }
    } else {
      MatchOneOwned(c, s, before.value, |init|, col);
      if o < n {
        assert olds[o] == Ok(before.value[o]);
        SlotsFilled(before.value, MatchOne(c, s, before.value, |init|, col), olds, news, o,
          Fill(c, s.fields[o], before.value[o], Inner(s.fields[o], col)));
      } else {
        assert news == olds;
      }
    }
  }

  /** The whole loop, over columns of any names. */
  lemma {:induction false} MatchShares(c: Conv, s: Struct, cols: seq<Column>)
    requires Sized(s.fields)
    ensures Shared(c, s, cols, MatchAll(c, s, cols))
    decreases |cols|
  {
    if cols == [] {
      assert forall i | 0 <= i < |s.fields| :: Filled(c, s, cols)[i] == Ok(EMPTY_SLOT);
    } else {
      var x := |cols| - 1;
      assert cols == cols[..x] + [cols[x]];
      MatchShares(c, s, cols[..x]);
      SharedStep(c, s, cols[..x], cols[x], MatchAll(c, s, cols[..x]));
    }
  }

  // ---------------------------------------------------------------------------
  // The row
  // ---------------------------------------------------------------------------

  predicate EqualArrays(cols: seq<Column>) {
    forall k | 0 <= k < |cols| ::
      cols[k].value.Array? && cols[0].value.Array? && |cols[k].value.items| == |cols[0].value.items|
  }

  /** The `j`th value of every column of a nested field. */
  function Cross(cols: seq<Column>, j: nat): seq<Column>
    requires EqualArrays(cols) && forall k | 0 <= k < |cols| :: j < |cols[k].value.items|
  {
    seq(|cols|, k requires 0 <= k < |cols| => Column(cols[k].name, cols[k].value.items[j]))
  }

  /** What a field makes of its share: a flat one takes one column at most; a nested one takes
      one or more arrays of one length, and reads a row from every cross section. */
  function CellOf(c: Conv, f: Field, share: seq<Column>): Option<Cell> {
    if f.skipDe then f.missing
    else
      match f.shape
      case Flat(kind) =>
        if share == [] then f.missing
        else if |share| > 1 || c.from(kind, share[0].value).None? then None
        else Some(Leaf(c.from(kind, share[0].value).value))
      case Nested(inner) =>
        if share == [] || !EqualArrays(share) then None
        else
          var h := |share[0].value.items|;
          if forall j | 0 <= j < h :: Deser(c, inner, Cross(share, j)).Ok?
          then Some(Rows(seq(h, j requires 0 <= j < h => Deser(c, inner, Cross(share, j)).value)))
          else None
      case Flatten(_) => f.missing
  }

  /** The row that a struct makes of any columns. */
  function RowOf(c: Conv, s: Struct, cols: seq<Column>): Option<Row> {
    if Refused(s, cols) then None
    else if exists i | 0 <= i < |s.fields| :: CellOf(c, s.fields[i], Share(s, cols, i)).None? then None
    else Some(seq(|s.fields|, i requires 0 <= i < |s.fields| => CellOf(c, s.fields[i], Share(s, cols, i)).value))
  }

  lemma {:induction false} FlatTakesOne(c: Conv, f: Field, share: seq<Column>)
    requires f.shape.Flat?
    ensures FillAll(c, f, share).Ok? <==> |share| <= 1 && (share != [] ==> c.from(f.shape.kind, share[0].value).Some?)
    ensures FillAll(c, f, share).Ok? ==>
              FillAll(c, f, share).value == Slot(if share == [] then None else c.from(f.shape.kind, share[0].value), [])
    decreases |share|
  {
    if share != [] {
      var x := |share| - 1;
      FlatTakesOne(c, f, share[..x]);
      if x > 0 { assert share[..x][0] == share[0]; }
    }
  }

  lemma FlatCell(c: Conv, f: Field, share: seq<Column>)
    requires f.shape.Flat? && !f.skipDe
    ensures Succeeded(DecodeField(c, f, share)) == CellOf(c, f, share)
  {
    FlatTakesOne(c, f, share);
  }

  lemma NestedCell(c: Conv, f: Field, share: seq<Column>)
    requires f.shape.Nested? && !f.skipDe
    ensures Succeeded(DecodeField(c, f, share)) == CellOf(c, f, share)
  {
    FillNested(c, f, share);
    if share == [] {
      NestedNeedsColumn(c, f);
    } else if EqualArrays(share) {
      assert EvenCols(share);
      NestedRows(c, f, share);
    }
  }

  lemma NestedRows(c: Conv, f: Field, share: seq<Column>)
    requires f.shape.Nested? && !f.skipDe && share != [] && EvenCols(share)
    ensures Succeeded(DecodeField(c, f, share)) == CellOf(c, f, share)
  {
    var inner, ext, h := f.shape.inner, Unpacked(share), |share[0].value.items|;
    RebuildAll(c, inner, ext, h);
    var r, rows := RebuildFrom(c, inner, ext, 0), RowResults(c, inner, ext, h);
    RebuiltField(c, f, share, r);
    forall j | 0 <= j < h ensures rows[j] == Deser(c, inner, Cross(share, j)) {
      assert RowAt(ext, j) == Cross(share, j);
    }
    if r.Ok? {
      assert r.value == seq(h, j requires 0 <= j < h => Deser(c, inner, Cross(share, j)).value);
    } else {
      var j :| 0 <= j < h && rows[j].Err?;
      assert Deser(c, inner, Cross(share, j)).Err?;
    }
  }

  lemma {:induction false} SkippedShare(s: Struct, cols: seq<Column>, i: nat)
    requires i < |s.fields| && (s.fields[i].skipDe || s.fields[i].shape.Flatten?)
    ensures Share(s, cols, i) == []
    decreases |cols|
  {
    if cols != [] { SkippedShare(s, cols[..|cols| - 1], i); }
  }

  lemma ShareCell(c: Conv, s: Struct, cols: seq<Column>, i: nat)
    requires i < |s.fields| && !s.fields[i].shape.Flatten?
    ensures Succeeded(DecodeField(c, s.fields[i], Share(s, cols, i))) == CellOf(c, s.fields[i], Share(s, cols, i))
  {
    var f := s.fields[i];
    if f.skipDe {
      SkippedShare(s, cols, i);
      assert FillAll(c, f, []) == Ok(EMPTY_SLOT);
    } else if f.shape.Flat? {
      FlatCell(c, f, Share(s, cols, i));
    } else {
      NestedCell(c, f, Share(s, cols, i));
    }
  }

  function Cells(c: Conv, s: Struct, cols: seq<Column>): (rs: seq<Result<Cell, RowError>>)
    ensures |rs| == |s.fields|
  {
    seq(|s.fields|, i requires 0 <= i < |s.fields| => DecodeField(c, s.fields[i], Share(s, cols, i)))
  }

  lemma {:induction false} NoPulls(fields: seq<Field>)
    requires forall i | 0 <= i < |fields| :: !fields[i].shape.Flatten?
    ensures PullNames(fields) == []
    decreases fields
  {
    if fields != [] { NoPulls(fields[1..]); }
  }

  lemma SlotsMakeCells(c: Conv, s: Struct, cols: seq<Column>, slots: seq<Slot>)
    requires !HasFlatten(s) && PullNames(s.fields) == [] && MatchAll(c, s, cols) == Ok(slots)
    requires forall i | 0 <= i < |s.fields| :: Filled(c, s, cols)[i] == Ok(slots[i])
    ensures Collects(Finish(c, s, cols, map[]), Cells(c, s, cols))
  {
    RectifySplits(c, s.fields, slots);
    if Rectify(c, s.fields, slots).Err? {
      var i :| 0 <= i < |s.fields| && SlotValue(c, s.fields[i], slots[i]).Err?;
      assert Filled(c, s, cols)[i] == Ok(slots[i]);
      assert Cells(c, s, cols)[i].Err?;
    } else {
      var vs := Rectify(c, s.fields, slots).value;
      forall i | 0 <= i < |s.fields|
        ensures Parts(c, s.fields, vs, map[])[i] == Cells(c, s, cols)[i]
        ensures Lacks(s.fields[i], vs[i]) ==> Cells(c, s, cols)[i].Err?
      {
        assert Filled(c, s, cols)[i] == Ok(slots[i]) && Ok(vs[i]) == SlotValue(c, s.fields[i], slots[i]);
      }
      assert Parts(c, s.fields, vs, map[]) == Cells(c, s, cols);
      BuildSplits(c, s.fields, vs, map[], map[]);
    }
  }

  /** Reading any columns at all into a struct without flattened fields: every field gets its
      share by name or by position and makes of it what it can; columns that are nobody's are
      dropped, or refused if the struct says so. */
  lemma ReadsAnyColumns(c: Conv, s: Struct, cols: seq<Column>)
    requires !HasFlatten(s) && Sized(s.fields)
    ensures Agrees(Deser(c, s, cols), RowOf(c, s, cols))
  {
    forall i | 0 <= i < |s.fields| ensures !s.fields[i].shape.Flatten? {}
    NoPulls(s.fields);
    assert Deser(c, s, cols) == Finish(c, s, cols, map[]);
    MatchShares(c, s, cols);
    forall i | 0 <= i < |s.fields|
      ensures Succeeded(Cells(c, s, cols)[i]) == CellOf(c, s.fields[i], Share(s, cols, i))
      ensures Filled(c, s, cols)[i].Err? ==> Cells(c, s, cols)[i].Err?
    {
      ShareCell(c, s, cols, i);
    }
    if MatchAll(c, s, cols).Ok? {
      SlotsMakeCells(c, s, cols, MatchAll(c, s, cols).value);
      CellsMakeRowOf(c, s, cols, Finish(c, s, cols, map[]));
    } else if !Refused(s, cols) {
      var i :| 0 <= i < |s.fields| && Filled(c, s, cols)[i].Err?;
      assert Cells(c, s, cols)[i].Err?;
    }
  }

  lemma CellsMakeRowOf(c: Conv, s: Struct, cols: seq<Column>, r: Result<Row, RowError>)
    requires Collects(r, Cells(c, s, cols)) && !Refused(s, cols)
    requires forall i | 0 <= i < |s.fields| ::
               Succeeded(Cells(c, s, cols)[i]) == CellOf(c, s.fields[i], Share(s, cols, i))
    ensures Agrees(r, RowOf(c, s, cols))
  {
    var cells := Cells(c, s, cols);
    if r.Ok? {
      forall i | 0 <= i < |s.fields| ensures CellOf(c, s.fields[i], Share(s, cols, i)) == Some(r.value[i]) {
        assert cells[i] == Ok(r.value[i]);
      }
      assert RowOf(c, s, cols).value == r.value;
    } else {
      var i :| 0 <= i < |cells| && cells[i].Err?;
      assert CellOf(c, s.fields[i], Share(s, cols, i)).None?;
    }
  }

  // ---------------------------------------------------------------------------
  // Columns of unknown names
  // ---------------------------------------------------------------------------

  /** No field takes any of the names. */
  predicate Unnamed(s: Struct, cols: seq<Column>) {
    forall x, i | 0 <= x < |cols| && 0 <= i < |s.fields| :: !Takes(s.fields[i], cols[x].name)
  }

  /** The columns at the positions of field `i`. */
  function BlockOf(s: Struct, cols: seq<Column>, i: nat): seq<Column>
    requires i < |s.fields|
  {
    StartGrows(s.fields, i, i + 1);
    cols[Min(|cols|, Start(s.fields, i))..Min(|cols|, Start(s.fields, i + 1))]
  }

  /** A stretch of the first columns, and of one more. */
  lemma StretchGrows<T>(init: seq<T>, last: T, from: nat, to: nat)
    requires from <= to
    ensures var all := init + [last];
            all[Min(|all|, from)..Min(|all|, to)]
            == init[Min(|init|, from)..Min(|init|, to)] + if from <= |init| < to then [last] else []
  {
  }

  lemma UnnamedLast(s: Struct, init: seq<Column>, col: Column, i: nat)
    requires i < |s.fields| && !HasFlatten(s) && forall j | 0 <= j < |s.fields| :: !Takes(s.fields[j], col.name)
    ensures Share(s, init + [col], i)
         == Share(s, init, i) + if Start(s.fields, i) <= |init| < Start(s.fields, i + 1) then [col] else []
  {
    assert (init + [col])[..|init|] == init;
    assert !Takes(s.fields[i], col.name);
    if Start(s.fields, i) <= |init| < Start(s.fields, i + 1) {
      assert Positions(s.fields[i]) > 0 && Inner(s.fields[i], col) == col;
    }
  }

  lemma {:induction false} UnnamedShare(s: Struct, cols: seq<Column>, i: nat)
    requires i < |s.fields| && !HasFlatten(s) && Unnamed(s, cols)
    ensures Share(s, cols, i) == BlockOf(s, cols, i)
    decreases |cols|
  {
    StartGrows(s.fields, i, i + 1);
    if cols != [] {
      var x := |cols| - 1;
      var init := cols[..x];
      assert cols == init + [cols[x]];
      UnnamedShare(s, init, i);
      UnnamedLast(s, init, cols[x], i);
      StretchGrows(init, cols[x], Start(s.fields, i), Start(s.fields, i + 1));
    }
  }

  /** Columns that no field takes by name go to the fields in consecutive blocks, one column to
      a flat field and one for each column of its struct to a nested field, in the order of the
      fields; the row is made of the blocks, and further columns are dropped or refused. */
  lemma PositionsDecide(c: Conv, s: Struct, cols: seq<Column>)
    requires !HasFlatten(s) && Sized(s.fields) && Unnamed(s, cols)
    ensures var row := RowOf(c, s, cols);
            && Agrees(Deser(c, s, cols), row)
            && (row.Some? <==>
                  && (|cols| <= Start(s.fields, |s.fields|) || !s.denyUnknown)
                  && forall i | 0 <= i < |s.fields| :: CellOf(c, s.fields[i], BlockOf(s, cols, i)).Some?)
            && (row.Some? ==>
                  && |row.value| == |s.fields|
                  && forall i | 0 <= i < |s.fields| :: CellOf(c, s.fields[i], BlockOf(s, cols, i)) == Some(row.value[i]))
  {
    ReadsAnyColumns(c, s, cols);
    forall i | 0 <= i < |s.fields| ensures Share(s, cols, i) == BlockOf(s, cols, i) {
      UnnamedShare(s, cols, i);
    }
    RefusedBeyond(s, cols);
  }

  lemma RefusedBeyond(s: Struct, cols: seq<Column>)
    requires !HasFlatten(s) && Sized(s.fields) && Unnamed(s, cols)
    ensures Refused(s, cols) <==> s.denyUnknown && |cols| > Start(s.fields, |s.fields|)
  {
    var end := Start(s.fields, |s.fields|);
    if |cols| > end {
      forall i | 0 <= i < |s.fields| ensures !Owns(s, i, end, cols[end].name) {
        StartGrows(s.fields, i + 1, |s.fields|);
        assert !Takes(s.fields[i], cols[end].name);
      }
      assert Unowned(s, end, cols[end].name);
    }
    forall x | 0 <= x < |cols| && x < end ensures !Unowned(s, x, cols[x].name) {
      var i := IndexArm(s.fields, x);
      IndexArmStarts(s.fields, x);
      assert Owns(s, i, x, cols[x].name);
    }
  }

  // ---------------------------------------------------------------------------
  // Structs whose columns cannot be counted
  // ---------------------------------------------------------------------------

  /** Somewhere below, through written vectors, there is a flattened field. */
  predicate Uncounted(s: Struct)
    decreases s
  {
    (exists i | 0 <= i < |s.fields| :: s.fields[i].shape.Flatten?)
    || exists i | 0 <= i < |s.fields| :: UncountedField(s.fields[i])
  }

  predicate UncountedField(f: Field)
    decreases f
  {
    !f.skipSer && f.shape.Nested? && Uncounted(f.shape.inner)
  }

  lemma {:induction false} UncountedIff(s: Struct)
    ensures ColumnCount(s).None? <==> Uncounted(s)
    decreases s
  {
    UncountedFields(s.fields);
  }

  lemma {:induction false} UncountedFields(fields: seq<Field>)
    ensures CountFields(fields).None? <==> exists i | 0 <= i < |fields| :: UncountedField(fields[i])
    decreases fields
  {
    if fields != [] {
      if fields[0].shape.Nested? { UncountedIff(fields[0].shape.inner); }
      UncountedFields(fields[1..]);
      assert fields == [fields[0]] + fields[1..];
      if exists i | 0 <= i < |fields| :: UncountedField(fields[i]) {
        var i :| 0 <= i < |fields| && UncountedField(fields[i]);
        assert i > 0 ==> UncountedField(fields[1..][i - 1]);
      }
      if exists i | 0 <= i < |fields[1..]| :: UncountedField(fields[1..][i]) {
        var i :| 0 <= i < |fields[1..]| && UncountedField(fields[1..][i]);
        assert UncountedField(fields[i + 1]);
      }
    }
  }

  /** A vector of such structs panics when it is written, whatever the rows, and no columns at
      all are read into a struct with one. */
  lemma UncountedPanics(c: Conv, f: Field, cell: Cell)
    requires f.shape.Nested? && Uncounted(f.shape.inner) && TypedCell(f, cell)
    ensures SerField(c, f, cell) == if f.skipSer then Ok([]) else Err(Panics)
    ensures forall s: Struct, cols | f in s.fields && !f.skipDe :: Deser(c, s, cols) == Err(Panics)
  {
    UncountedIff(f.shape.inner);
    forall s: Struct, cols: seq<Column> | f in s.fields && !f.skipDe ensures Deser(c, s, cols) == Err(Panics) {
      var i :| 0 <= i < |s.fields| && s.fields[i] == f;
      assert !Sized(s.fields);
    }
  }
}
