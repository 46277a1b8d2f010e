/** Why a derived row cannot be written or read. */
module DeriveFaults {
  import opened Common
  import opened DeriveRow
  import opened DeriveRowLaws
  import opened DerivePositions

  // ---------------------------------------------------------------------------
  // Reading
  // ---------------------------------------------------------------------------

  /** What is wrong with one more column for a field that got those before it: a second one for
      a flat field, or a value that does not convert; for a nested field no array, or one of
      another length than the first. */
  predicate CellFault(c: Conv, f: Field, before: seq<Column>, v: Value, e: RowError) {
    match f.shape
    case Flat(kind) => if before != [] then e == DuplicateField else c.from(kind, v).None? && e == Conversion
    case Nested(_) =>
      if !v.Array? then e == NotArray
      else
        && before != [] && before[0].value.Array? && |before[0].value.items| != |v.items|
        && e == LengthMismatch
    case Flatten(_) => false
  }

  /** What is wrong with column `x`, behind columns that are all right. */
  ghost predicate Fault(c: Conv, s: Struct, cols: seq<Column>, x: nat, e: RowError)
    requires x < |cols|
  {
    || (s.denyUnknown && !HasFlatten(s) && Unowned(s, x, cols[x].name) && e == UnknownField)
    || exists i | 0 <= i < |s.fields| ::
         Owns(s, i, x, cols[x].name) && CellFault(c, s.fields[i], Share(s, cols[..x], i), cols[x].value, e)
  }

  lemma FillFault(c: Conv, f: Field, before: seq<Column>, slot: Slot, col: Column)
    requires FillAll(c, f, before) == Ok(slot) && Fill(c, f, slot, col).Err?
    ensures CellFault(c, f, before, col.value, Fill(c, f, slot, col).error)
  {
    if f.shape.Flat? {
      FlatTakesOne(c, f, before);
    } else if f.shape.Nested? {
      FillNested(c, f, before);
    }
  }

  lemma LastFault(c: Conv, s: Struct, cols: seq<Column>, slots: seq<Slot>)
    requires Sized(s.fields) && cols != []
    requires var x := |cols| - 1;
             MatchAll(c, s, cols[..x]) == Ok(slots) && |slots| == |s.fields| && MatchOne(c, s, slots, x, cols[x]).Err?
    ensures var x := |cols| - 1; Fault(c, s, cols, x, MatchOne(c, s, slots, x, cols[x]).error)
  {
    var x := |cols| - 1;
    var o := Owner(s, x, cols[x].name);
    MatchOneOwned(c, s, slots, x, cols[x]);
    MatchShares(c, s, cols[..x]);
    if o < |s.fields| {
      OwnerOwns(s, x, cols[x].name, o);
      assert Filled(c, s, cols[..x])[o] == Ok(slots[o]);
      FillFault(c, s.fields[o], Share(s, cols[..x], o), slots[o], Inner(s.fields[o], cols[x]));
    } else {
      UnownedIff(s, x, cols[x].name);
    }
  }

  /** If columns do not match, the first that does not fit says why. */
  lemma {:induction false} MatchBlames(c: Conv, s: Struct, cols: seq<Column>) returns (x: nat)
    requires Sized(s.fields) && MatchAll(c, s, cols).Err?
    ensures x < |cols| && MatchAll(c, s, cols[..x]).Ok? && Fault(c, s, cols, x, MatchAll(c, s, cols).error)
    decreases |cols|
  {
    var last := |cols| - 1;
    if MatchAll(c, s, cols[..last]).Ok? {
      x := last;
      LastFault(c, s, cols, MatchAll(c, s, cols[..last]).value);
    } else {
      x := MatchBlames(c, s, cols[..last]);
      assert cols[..last][..x] == cols[..x];
    }
  }

  // ---------------------------------------------------------------------------
  // Writing
  // ---------------------------------------------------------------------------

  /** A value that does not convert, in a field that is written, at any depth. */
  predicate LeafFails(c: Conv, s: Struct, row: Row)
    requires Typed(s, row)
    decreases s
  {
    exists i | 0 <= i < |row| :: CellFails(c, s.fields[i], row[i])
  }

  predicate CellFails(c: Conv, f: Field, cell: Cell)
    requires TypedCell(f, cell)
    decreases f
  {
    && !f.skipSer
    && match f.shape
       case Flat(kind) => c.to(kind, cell.x).None?
       case Nested(inner) => exists j | 0 <= j < |cell.rows| :: LeafFails(c, inner, cell.rows[j])
       case Flatten(inner) => LeafFails(c, inner, cell.row)
  }

  /** A vector of structs whose columns cannot be counted, in a field that is written. */
  predicate Uncountable(s: Struct)
    decreases s
  {
    exists i | 0 <= i < |s.fields| :: UncountableField(s.fields[i])
  }

  predicate UncountableField(f: Field)
    decreases f
  {
    && !f.skipSer
    && match f.shape
       case Flat(_) => false
       case Nested(inner) => Uncounted(inner) || Uncountable(inner)
       case Flatten(inner) => Uncountable(inner)
  }

  predicate Blamed(leaf: bool, uncountable: bool, e: RowError) {
    (e == Conversion && leaf) || (e == Panics && uncountable)
  }

  /** A row is refused only for a value that does not convert, or for columns that cannot be
      counted. */
  lemma {:induction false} SerBlames(c: Conv, s: Struct, row: Row)
    requires Typed(s, row)
    ensures Ser(c, s, row).Err? ==> Blamed(LeafFails(c, s, row), Uncountable(s), Ser(c, s, row).error)
    decreases s, 2
  {
    BlocksBlame(c, s.fields, row);
  }

  lemma {:induction false} BlocksBlame(c: Conv, fields: seq<Field>, row: Row)
    requires |row| == |fields| && forall i | 0 <= i < |row| :: TypedCell(fields[i], row[i])
    ensures SerBlocks(c, fields, row).Err? ==>
              Blamed(exists i | 0 <= i < |row| :: CellFails(c, fields[i], row[i]),
                exists i | 0 <= i < |fields| :: UncountableField(fields[i]), SerBlocks(c, fields, row).error)
    decreases fields
  {
    if fields != [] {
      FieldBlames(c, fields[0], row[0]);
      BlocksBlame(c, fields[1..], row[1..]);
      assert forall i | 0 <= i < |fields[1..]| :: fields[1..][i] == fields[i + 1] && row[1..][i] == row[i + 1];
    }
  }

  lemma {:induction false} FieldBlames(c: Conv, f: Field, cell: Cell)
    requires TypedCell(f, cell)
    ensures SerField(c, f, cell).Err? ==> Blamed(CellFails(c, f, cell), UncountableField(f), SerField(c, f, cell).error)
    decreases f
  {
    if !f.skipSer {
      match f.shape
      case Flat(_) =>
      case Nested(inner) =>
        UncountedIff(inner);
        RowsBlame(c, inner, cell.rows);
      case Flatten(inner) => SerBlames(c, inner, cell.row);
    }
  }

  lemma {:induction false} RowsBlame(c: Conv, s: Struct, rows: seq<Row>)
    requires forall j | 0 <= j < |rows| :: Typed(s, rows[j])
    ensures SerRows(c, s, rows).Err? ==>
              Blamed(exists j | 0 <= j < |rows| :: LeafFails(c, s, rows[j]), Uncountable(s), SerRows(c, s, rows).error)
    decreases s, 3, rows
  {
    RowsWritten(c, s, rows);
    forall j | 0 <= j < |rows|
      ensures Ser(c, s, rows[j]).Err? ==> Blamed(LeafFails(c, s, rows[j]), Uncountable(s), Ser(c, s, rows[j]).error)
    {
      SerBlames(c, s, rows[j]);
    }
  }
}
