/** The code that `#[derive(Row)]` generates.

    Algorithms over a struct's field descriptors: a row written as named columns, and columns
    read back as a row. */
module DeriveRow {
  import opened Common

  // ---------------------------------------------------------------------------
  // Data model
  // ---------------------------------------------------------------------------

  datatype Value = Atom(code: int) | Array(items: seq<Value>)

  datatype Column = Column(name: string, value: Value)

  datatype Struct = Struct(fields: seq<Field>, denyUnknown: bool)

  /** `missing`: what the field or container default supplies, if either has one. */
  datatype Field = Field(name: string, shape: Shape, skipSer: bool, skipDe: bool, missing: Option<Cell>)

  /** `Nested`: a vector of inner rows, one array column per inner column. `Flatten`: one
      inner row whose columns stand beside the outer ones. */
  datatype Shape = Flat(kind: nat) | Nested(inner: Struct) | Flatten(inner: Struct)

  /** The content of one field. */
  datatype Cell = Leaf(x: int) | Rows(rows: seq<seq<Cell>>) | Sub(row: seq<Cell>)

  type Row = seq<Cell>

  /** Conversion of leaf values, by the leaf's Rust type. */
  datatype Conv = Conv(to: (nat, int) -> Option<Value>, from: (nat, Value) -> Option<int>)

  /** `Diverges`: the generated loop never ends. */
  datatype RowError =
    NotArray | LengthMismatch | DuplicateField | MissingField | UnknownField | Conversion | Panics | Diverges

  /** What Rust's type checker grants: each cell has its field's shape. */
  predicate Typed(s: Struct, row: Row)
    decreases s
  {
    |row| == |s.fields| && forall i | 0 <= i < |row| :: TypedCell(s.fields[i], row[i])
  }

  predicate TypedCell(f: Field, cell: Cell)
    decreases f
  {
    match f.shape
    case Flat(_) => cell.Leaf?
    case Nested(inner) => cell.Rows? && forall j | 0 <= j < |cell.rows| :: Typed(inner, cell.rows[j])
    case Flatten(inner) => cell.Sub? && Typed(inner, cell.row)
  }

  predicate HasFlatten(s: Struct) {
    exists i | 0 <= i < |s.fields| :: s.fields[i].shape.Flatten?
  }

  /** `COLUMN_COUNT`. */
  function ColumnCount(s: Struct): Option<nat>
    decreases s
  {
    if HasFlatten(s) then None else CountFields(s.fields)
  }

  function CountFields(fields: seq<Field>): Option<nat>
    decreases fields
  {
    if fields == [] then Some(0)
    else
      var f := fields[0];
      match CountFields(fields[1..])
      case None => None
      case Some(rest) =>
        if f.skipSer then Some(rest)
        else if !f.shape.Nested? then Some(1 + rest)
        else
          match ColumnCount(f.shape.inner)
          case None => None
          case Some(n) => Some(n + rest)
  }

  function Prefixed(prefix: string, names: seq<string>): seq<string> {
    seq(|names|, i requires 0 <= i < |names| => prefix + names[i])
  }

  function Dotted(f: Field): string {
    f.name + "."
  }

  /** `column_names`. */
  function ColumnNames(s: Struct): seq<string>
    decreases s
  {
    Concat(NameBlocks(s.fields))
  }

  function NameBlocks(fields: seq<Field>): (blocks: seq<seq<string>>)
    ensures |blocks| == |fields|
    ensures forall i | 0 <= i < |fields| :: blocks[i] == FieldNames(fields[i])
    decreases fields
  {
    if fields == [] then [] else var f := fields[0]; [FieldNames(f)] + NameBlocks(fields[1..])
  }

  function FieldNames(f: Field): seq<string>
    decreases f
  {
    if f.skipSer then []
    else
      match f.shape
      case Flat(_) => [f.name]
      case Nested(inner) => Prefixed(Dotted(f), ColumnNames(inner))
      case Flatten(inner) => ColumnNames(inner)
  }

  // ---------------------------------------------------------------------------
  // serialize_row
  // ---------------------------------------------------------------------------

  function Ser(c: Conv, s: Struct, row: Row): Result<seq<Column>, RowError>
    requires Typed(s, row)
    decreases s, 0
  {
    match SerBlocks(c, s.fields, row)
    case Err(e) => Err(e)
    case Ok(blocks) => Ok(Concat(blocks))
  }

  /** The columns of each field. */
  function SerBlocks(c: Conv, fields: seq<Field>, row: Row): (r: Result<seq<seq<Column>>, RowError>)
    requires |row| == |fields| && forall i | 0 <= i < |row| :: TypedCell(fields[i], row[i])
    ensures r.Ok? ==> |r.value| == |fields|
    decreases fields
  {
    if fields == [] then Ok([])
    else
      match SerField(c, fields[0], row[0])
      case Err(e) => Err(e)
      case Ok(block) =>
        match SerBlocks(c, fields[1..], row[1..])
        case Err(e) => Err(e)
        case Ok(blocks) => Ok([block] + blocks)
  }

  function SerField(c: Conv, f: Field, cell: Cell): Result<seq<Column>, RowError>
    requires TypedCell(f, cell)
    decreases f, 0
  {
    if f.skipSer then Ok([])
    else
      match f.shape
      case Flat(kind) =>
        (match c.to(kind, cell.x)
         case None => Err(Conversion)
         case Some(v) => Ok([Column(f.name, v)]))
      case Nested(inner) =>
        if ColumnCount(inner).None? then Err(Panics)
        else
          (match SerRows(c, inner, cell.rows)
           case Err(e) => Err(e)
           case Ok(rows) => Ok(Transposed(Dotted(f), ColumnNames(inner), rows)))
      case Flatten(inner) => Ser(c, inner, cell.row)
  }

  function SerRows(c: Conv, s: Struct, rows: seq<Row>): (r: Result<seq<seq<Column>>, RowError>)
    requires forall j | 0 <= j < |rows| :: Typed(s, rows[j])
    ensures r.Ok? ==> |r.value| == |rows|
    ensures r.Ok? ==> forall j | 0 <= j < |rows| :: |r.value[j]| == |ColumnNames(s)|
    decreases s, 1, rows
  {
    if rows == [] then Ok([])
    else
      match Ser(c, s, rows[0])
      case Err(e) => Err(e)
      case Ok(cols) =>
        if |cols| != |ColumnNames(s)| then Err(Panics)
        else
          match SerRows(c, s, rows[1..])
          case Err(e) => Err(e)
          case Ok(rest) => Ok([cols] + rest)
  }

  /** The rows written, one by one; the generated length assertion never fails. */
  lemma {:induction false} RowsWritten(c: Conv, s: Struct, rows: seq<Row>)
    requires forall j | 0 <= j < |rows| :: Typed(s, rows[j])
    ensures SerRows(c, s, rows).Ok? ==> forall j | 0 <= j < |rows| ::
              Ser(c, s, rows[j]).Ok? && SerRows(c, s, rows).value[j] == Ser(c, s, rows[j]).value
    ensures SerRows(c, s, rows).Err? ==> exists j | 0 <= j < |rows| ::
              Ser(c, s, rows[j]).Err? && SerRows(c, s, rows).error == Ser(c, s, rows[j]).error
    decreases rows
  {
    if rows != [] {
      SerNamed(c, s, rows[0]);
      RowsWritten(c, s, rows[1..]);
    }
  }

  /** Rows to columns: column `i` holds the `i`th value of every row. */
  function Transposed(prefix: string, names: seq<string>, rows: seq<seq<Column>>): seq<Column>
    requires forall j | 0 <= j < |rows| :: |rows[j]| == |names|
  {
    seq(|names|, i requires 0 <= i < |names| => Column(prefix + names[i], Array(ValuesAt(rows, i))))
  }

  function ValuesAt(rows: seq<seq<Column>>, i: nat): seq<Value>
    requires forall j | 0 <= j < |rows| :: i < |rows[j]|
  {
    seq(|rows|, j requires 0 <= j < |rows| => rows[j][i].value)
  }

  ghost predicate Named(cols: seq<Column>, names: seq<string>) {
    |cols| == |names| && forall i | 0 <= i < |cols| :: cols[i].name == names[i]
  }

  /** A serialized row has the announced column names, in order. */
  lemma {:induction false} SerNamed(c: Conv, s: Struct, row: Row)
    requires Typed(s, row)
    ensures Ser(c, s, row).Ok? ==> Named(Ser(c, s, row).value, ColumnNames(s))
    decreases s, 0
  {
    BlocksNamed(c, s.fields, row);
  }

  lemma {:induction false} BlocksNamed(c: Conv, fields: seq<Field>, row: Row)
    requires |row| == |fields| && forall i | 0 <= i < |row| :: TypedCell(fields[i], row[i])
    ensures SerBlocks(c, fields, row).Ok? ==>
              var blocks := SerBlocks(c, fields, row).value;
              && (forall i | 0 <= i < |fields| ::
                    SerField(c, fields[i], row[i]).Ok? && blocks[i] == SerField(c, fields[i], row[i]).value)
              && (forall i | 0 <= i < |fields| :: Named(blocks[i], FieldNames(fields[i])))
              && Named(Concat(blocks), Concat(NameBlocks(fields)))
    decreases fields
  {
    if fields != [] {
      FieldNamed(c, fields[0], row[0]);
      BlocksNamed(c, fields[1..], row[1..]);
      if SerBlocks(c, fields, row).Ok? {
        var blocks := SerBlocks(c, fields, row).value;
        assert blocks[1..] == SerBlocks(c, fields[1..], row[1..]).value;
        assert NameBlocks(fields)[1..] == NameBlocks(fields[1..]);
      }
    }
  }

  lemma {:induction false} FieldNamed(c: Conv, f: Field, cell: Cell)
    requires TypedCell(f, cell)
    ensures SerField(c, f, cell).Ok? ==> Named(SerField(c, f, cell).value, FieldNames(f))
    decreases f
  {
    match f.shape
    case Flatten(inner) => SerNamed(c, inner, cell.row);
    case _ =>
  }

  /** `COLUMN_COUNT`, where there is one, is the number of column names. */
  lemma {:induction false} CountIsNames(s: Struct)
    ensures ColumnCount(s).Some? ==> ColumnCount(s).value == |ColumnNames(s)|
    decreases s
  {
    if !HasFlatten(s) { CountIsNamesOf(s.fields); }
  }

  lemma {:induction false} CountIsNamesOf(fields: seq<Field>)
    requires forall i | 0 <= i < |fields| :: !fields[i].shape.Flatten?
    ensures CountFields(fields).Some? ==> CountFields(fields).value == |Concat(NameBlocks(fields))|
    decreases fields
  {
    if fields != [] {
      CountIsNamesOf(fields[1..]);
      assert NameBlocks(fields)[1..] == NameBlocks(fields[1..]);
      if fields[0].shape.Nested? { CountIsNames(fields[0].shape.inner); }
    }
  }

  method SerializeRow(c: Conv, s: Struct, row: Row) returns (r: Result<seq<Column>, RowError>)
    requires Typed(s, row)
    ensures r == Ser(c, s, row)
    decreases s, 1
  {
    var out: seq<Column> := [];
    assert s.fields[0..] == s.fields && row[0..] == row;
    for i := 0 to |s.fields|
      invariant match SerBlocks(c, s.fields[i..], row[i..])
                case Err(e) => Ser(c, s, row) == Err(e)
                case Ok(blocks) => Ser(c, s, row).Ok? && Ser(c, s, row).value == out + Concat(blocks)
    {
      assert s.fields[i..][0] == s.fields[i] && s.fields[i..][1..] == s.fields[i + 1..];
      assert row[i..][0] == row[i] && row[i..][1..] == row[i + 1..];
      var f, cell := s.fields[i], row[i];
      ghost var after := SerBlocks(c, s.fields[i + 1..], row[i + 1..]);
      if !f.skipSer {
        var block;
        match f.shape {
          case Flat(kind) =>
            var v := c.to(kind, cell.x);
            if v.None? {
              return Err(Conversion);
            }
            block := [Column(f.name, v.value)];
          case Nested(inner) =>
            var nested := SerializeNested(c, f, inner, cell.rows);
            if nested.Err? {
              return nested;
            }
            block := nested.value;
          case Flatten(inner) =>
            var sub := SerializeRow(c, inner, cell.row);
            if sub.Err? {
              return sub;
            }
            block := sub.value;
        }
        Unfold(out, block, after);
        out := out + block;
      } else {
        Unfold(out, [], after);
        assert out + [] == out;
      }
    }
    assert s.fields[|s.fields|..] == [];
    assert out + [] == out;
    return Ok(out);
  }

  lemma Unfold(out: seq<Column>, block: seq<Column>, after: Result<seq<seq<Column>>, RowError>)
    ensures after.Ok? ==> out + Concat([block] + after.value) == (out + block) + Concat(after.value)
  {
    if after.Ok? {
      assert ([block] + after.value)[1..] == after.value;
      ConcatAssoc(out, block, Concat(after.value));
    }
  }

  /** Columns under construction: their names come from the first row. */
  datatype Output = Output(name: Option<string>, values: seq<Value>)

  ghost predicate Holds(o: Output, prefix: string, names: seq<string>, rows: seq<seq<Column>>, i: nat)
    requires i < |names| && forall j | 0 <= j < |rows| :: i < |rows[j]|
  {
    && o.name == (if rows == [] then None else Some(prefix + names[i]))
    && o.values == ValuesAt(rows, i)
  }

  /** Appends one row to the columns under construction. */
  method AddRow(start: seq<Output>, prefix: string, columns: seq<Column>, ghost names: seq<string>,
      ghost rows: seq<seq<Column>>) returns (outputs: seq<Output>)
    requires |start| == |columns| && Named(columns, names)
    requires forall j | 0 <= j < |rows| :: |rows[j]| == |names|
    requires forall i | 0 <= i < |names| :: Holds(start[i], prefix, names, rows, i)
    ensures |outputs| == |names|
    ensures forall i | 0 <= i < |names| :: Holds(outputs[i], prefix, names, rows + [columns], i)
  {
    outputs := start;
    for i := 0 to |columns|
      invariant |outputs| == |names|
      invariant forall k | 0 <= k < i :: Holds(outputs[k], prefix, names, rows + [columns], k)
      invariant forall k | i <= k < |names| :: outputs[k] == start[k]
    {
      if outputs[i].name.None? {
        outputs := outputs[i := outputs[i].(name := Some(prefix + columns[i].name))];
      }
      outputs := outputs[i := outputs[i].(values := outputs[i].values + [columns[i].value])];
      assert ValuesAt(rows + [columns], i) == ValuesAt(rows, i) + [columns[i].value];
    }
  }

  method SerializeNested(c: Conv, f: Field, inner: Struct, rows: seq<Row>) returns (r: Result<seq<Column>, RowError>)
    requires f.shape == Nested(inner) && !f.skipSer
    requires forall j | 0 <= j < |rows| :: Typed(inner, rows[j])
    ensures r == SerField(c, f, Rows(rows))
    decreases inner, 2
  {
    if ColumnCount(inner).None? {
      return Err(Panics);
    }
    var length := ColumnCount(inner).value;
    CountIsNames(inner);
    var names := ColumnNames(inner);
    var prefix := Dotted(f);
    var outputs := seq(length, _ => Output(None, []));
    ghost var done: seq<seq<Column>> := [];
    assert rows[0..] == rows;
    for j := 0 to |rows|
      invariant |done| == j && |outputs| == length
      invariant forall k | 0 <= k < j :: |done[k]| == length
      invariant Continues(SerRows(c, inner, rows), done, SerRows(c, inner, rows[j..]))
      invariant forall i | 0 <= i < length :: Holds(outputs[i], prefix, names, done, i)
    {
      assert rows[j..][0] == rows[j] && rows[j..][1..] == rows[j + 1..];
      var columns := SerializeRow(c, inner, rows[j]);
      if columns.Err? {
        return Err(columns.error);
      }
      SerNamed(c, inner, rows[j]);
      assert |columns.value| == length;
      outputs := AddRow(outputs, prefix, columns.value, names, done);
      ghost var next := done + [columns.value];
      assert forall rest: seq<seq<Column>> :: next + rest == done + ([columns.value] + rest);
      done := next;
    }
    assert rows[|rows|..] == [];
    assert done + [] == done;
    var columns: seq<Column> := [];
    ghost var whole := Transposed(prefix, names, done);
    for i := 0 to |outputs|
      invariant columns == whole[..i]
    {
      var name := if outputs[i].name.Some? then outputs[i].name.value else prefix + names[i];
      columns := columns + [Column(name, Array(outputs[i].values))];
      assert whole[..i + 1] == whole[..i] + [whole[i]];
    }
    assert whole[..|outputs|] == whole;
    return Ok(columns);
  }

  // ---------------------------------------------------------------------------
  // deserialize_row
  // ---------------------------------------------------------------------------

  predicate StartsWith(s: string, prefix: string) {
    |prefix| <= |s| && s[..|prefix|] == prefix
  }

  /** The name arm of a field. */
  predicate Takes(f: Field, name: string) {
    && !f.skipDe
    && match f.shape
       case Flat(_) => name == f.name
       case Nested(_) => StartsWith(name, Dotted(f))
       case Flatten(_) => false
  }

  /** The first arm that takes a name; the number of fields if none does. */
  function Arm(fields: seq<Field>, name: string): (i: nat)
    ensures i <= |fields|
    ensures i < |fields| ==> Takes(fields[i], name)
    ensures forall j | 0 <= j < i :: !Takes(fields[j], name)
  {
    if fields == [] || Takes(fields[0], name) then 0 else 1 + Arm(fields[1..], name)
  }

  /** How many positions the index arm of a field covers. */
  function Width(f: Field): nat {
    if f.skipDe || f.shape.Flatten? then 0
    else if f.shape.Flat? then 1
    else if ColumnCount(f.shape.inner).Some? then ColumnCount(f.shape.inner).value
    else 0
  }

  function IndexArm(fields: seq<Field>, x: nat): (i: nat)
    ensures i <= |fields|
  {
    if fields == [] || x < Width(fields[0]) then 0 else 1 + IndexArm(fields[1..], x - Width(fields[0]))
  }

  /** A column's name inside the field that takes it. */
  function InnerName(f: Field, name: string): string {
    if f.shape.Nested? && StartsWith(name, Dotted(f)) then name[|f.name| + 1..] else name
  }

  /** The variables of one field while columns are matched: a converted value, or the
      unpacked columns of a nested field. */
  datatype Slot = Slot(got: Option<int>, ext: seq<(string, seq<Value>)>)

  const EMPTY_SLOT := Slot(None, [])

  function Fill(c: Conv, f: Field, slot: Slot, col: Column): Result<Slot, RowError> {
    match f.shape
    case Flat(kind) =>
      if slot.got.Some? then Err(DuplicateField)
      else
        (match c.from(kind, col.value)
         case None => Err(Conversion)
         case Some(x) => Ok(slot.(got := Some(x))))
    case Nested(_) =>
      if !col.value.Array? then Err(NotArray)
      else if slot.ext != [] && |slot.ext[0].1| != |col.value.items| then Err(LengthMismatch)
      else Ok(slot.(ext := slot.ext + [(col.name, col.value.items)]))
    case Flatten(_) => Ok(slot)
  }

  function FillAt(c: Conv, fields: seq<Field>, slots: seq<Slot>, i: nat, col: Column): (r: Result<seq<Slot>, RowError>)
    requires |slots| == |fields| && i < |fields|
    ensures r.Ok? ==> |r.value| == |fields|
  {
    match Fill(c, fields[i], slots[i], col)
    case Err(e) => Err(e)
    case Ok(slot) => Ok(slots[i := slot])
  }

  /** One column, at position `x`: by name first, then by position. */
  function MatchOne(c: Conv, s: Struct, slots: seq<Slot>, x: nat, col: Column): (r: Result<seq<Slot>, RowError>)
    requires |slots| == |s.fields|
    ensures r.Ok? ==> |r.value| == |s.fields|
  {
    var i := Arm(s.fields, col.name);
    if i < |s.fields| then FillAt(c, s.fields, slots, i, Column(InnerName(s.fields[i], col.name), col.value))
    else if HasFlatten(s) then Ok(slots)
    else
      var k := IndexArm(s.fields, x);
      if k < |s.fields| then FillAt(c, s.fields, slots, k, col)
      else if s.denyUnknown then Err(UnknownField)
      else Ok(slots)
  }

  function MatchAll(c: Conv, s: Struct, cols: seq<Column>): (r: Result<seq<Slot>, RowError>)
    ensures r.Ok? ==> |r.value| == |s.fields|
    decreases |cols|
  {
    if cols == [] then Ok(seq(|s.fields|, _ => EMPTY_SLOT))
    else
      var x := |cols| - 1;
      match MatchAll(c, s, cols[..x])
      case Err(e) => Err(e)
      case Ok(slots) => MatchOne(c, s, slots, x, cols[x])
  }

  function FindName(cols: seq<Column>, name: string): (i: nat)
    ensures i <= |cols|
    ensures i < |cols| ==> cols[i].name == name
    ensures forall j | 0 <= j < i :: cols[j].name != name
  {
    if cols == [] || cols[0].name == name then 0 else 1 + FindName(cols[1..], name)
  }

  /** The last element takes the place of the removed one. */
  function SwapRemove<T>(s: seq<T>, i: nat): (r: seq<T>)
    requires i < |s|
    ensures |r| == |s| - 1
    ensures forall j | 0 <= j < |r| :: r[j] == if j == i then s[|s| - 1] else s[j]
  {
    s[i := s[|s| - 1]][..|s| - 1]
  }

  /** The columns of all flattened fields, in the order they are pulled out. */
  function PullNames(fields: seq<Field>): seq<string> {
    if fields == [] then []
    else
      (if fields[0].shape.Flatten? then ColumnNames(fields[0].shape.inner) else []) + PullNames(fields[1..])
  }

  function Pull(names: seq<string>, cols: seq<Column>, pulled: map<string, Value>)
      : Result<(seq<Column>, map<string, Value>), RowError>
    decreases names
  {
    if names == [] then Ok((cols, pulled))
    else
      var i := FindName(cols, names[0]);
      if i == |cols| then Err(MissingField)
      else Pull(names[1..], SwapRemove(cols, i), pulled[cols[i].name := cols[i].value])
  }

  /** Takes named columns back out of the pulled ones. */
  function TakeOut(names: seq<string>, pulled: map<string, Value>)
      : Result<(seq<Column>, map<string, Value>), RowError>
    decreases names
  {
    if names == [] then Ok(([], pulled))
    else if names[0] !in pulled then Err(Panics)
    else
      match TakeOut(names[1..], pulled - {names[0]})
      case Err(e) => Err(e)
      case Ok((cols, left)) => Ok(([Column(names[0], pulled[names[0]])] + cols, left))
  }

  /** The next value of every column of a nested field. */
  function RowAt(ext: seq<(string, seq<Value>)>, j: nat): seq<Column>
    requires forall k | 0 <= k < |ext| :: j < |ext[k].1|
  {
    seq(|ext|, k requires 0 <= k < |ext| => Column(ext[k].0, ext[k].1[j]))
  }

  predicate HasRow(ext: seq<(string, seq<Value>)>, j: nat) {
    forall k | 0 <= k < |ext| :: j < |ext[k].1|
  }

  /** The nested rows of a field from its columns. With no column nothing ever runs out. */
  function Rebuild(c: Conv, inner: Struct, ext: seq<(string, seq<Value>)>): Result<seq<Row>, RowError>
    decreases inner, 3
  {
    if ext == [] then
      match Deser(c, inner, [])
      case Err(e) => Err(e)
      case Ok(_) => Err(Diverges)
    else RebuildFrom(c, inner, ext, 0)
  }

  function RebuildFrom(c: Conv, inner: Struct, ext: seq<(string, seq<Value>)>, j: nat): Result<seq<Row>, RowError>
    requires ext != []
    decreases inner, 2, if j <= |ext[0].1| then |ext[0].1| - j else 0
  {
    if !HasRow(ext, j) then Ok([])
    else
      match Deser(c, inner, RowAt(ext, j))
      case Err(e) => Err(e)
      case Ok(row) =>
        match RebuildFrom(c, inner, ext, j + 1)
        case Err(e) => Err(e)
        case Ok(rows) => Ok([row] + rows)
  }

  /** The value of one field after the columns are matched. */
  function SlotValue(c: Conv, f: Field, slot: Slot): Result<Option<Cell>, RowError>
    decreases f
  {
    if f.skipDe then Ok(None)
    else
      match f.shape
      case Flat(_) => Ok(if slot.got.Some? then Some(Leaf(slot.got.value)) else None)
      case Nested(inner) =>
        (match Rebuild(c, inner, slot.ext)
         case Err(e) => Err(e)
         case Ok(rows) => Ok(Some(Rows(rows))))
      case Flatten(_) => Ok(None)
  }

  function Rectify(c: Conv, fields: seq<Field>, slots: seq<Slot>): (r: Result<seq<Option<Cell>>, RowError>)
    requires |slots| == |fields|
    ensures r.Ok? ==> |r.value| == |fields|
    decreases fields
  {
    if fields == [] then Ok([])
    else
      var f := fields[0];
      match SlotValue(c, f, slots[0])
      case Err(e) => Err(e)
      case Ok(v) =>
        match Rectify(c, fields[1..], slots[1..])
        case Err(e) => Err(e)
        case Ok(vs) => Ok([v] + vs)
  }

  predicate Lacks(f: Field, v: Option<Cell>) {
    !f.skipDe && !f.shape.Flatten? && v.None? && f.missing.None?
  }

  function OrMissing(f: Field, v: Option<Cell>): Result<Cell, RowError> {
    if v.Some? then Ok(v.value)
    else if f.missing.Some? then Ok(f.missing.value)
    else Err(MissingField)
  }

  /** One field of the struct; a flattened one is decoded from the pulled columns. */
  function BuildOne(c: Conv, f: Field, v: Option<Cell>, pulled: map<string, Value>)
      : Result<(Cell, map<string, Value>), RowError>
    decreases f
  {
    if f.shape.Flatten? && !f.skipDe then
      match TakeOut(ColumnNames(f.shape.inner), pulled)
      case Err(e) => Err(e)
      case Ok((cols, left)) =>
        match Deser(c, f.shape.inner, cols)
        case Err(e) => Err(e)
        case Ok(sub) => Ok((Sub(sub), left))
    else
      match OrMissing(f, v)
      case Err(e) => Err(e)
      case Ok(cell) => Ok((cell, pulled))
  }

  function Build(c: Conv, fields: seq<Field>, vs: seq<Option<Cell>>, pulled: map<string, Value>): (r: Result<Row, RowError>)
    requires |vs| == |fields|
    ensures r.Ok? ==> |r.value| == |fields|
    decreases fields
  {
    if fields == [] then Ok([])
    else
      var f := fields[0];
      match BuildOne(c, f, vs[0], pulled)
      case Err(e) => Err(e)
      case Ok((cell, left)) =>
        match Build(c, fields[1..], vs[1..], left)
        case Err(e) => Err(e)
        case Ok(row) => Ok([cell] + row)
  }

  /** Every nested field has a known number of columns. */
  predicate Sized(fields: seq<Field>) {
    forall i | 0 <= i < |fields| ::
      fields[i].shape.Nested? && !fields[i].skipDe ==> ColumnCount(fields[i].shape.inner).Some?
  }

  function Deser(c: Conv, s: Struct, cols: seq<Column>): Result<Row, RowError>
    decreases s, 1
  {
    if !Sized(s.fields) then Err(Panics)
    else
      match Pull(PullNames(s.fields), cols, map[])
      case Err(e) => Err(e)
      case Ok((rest, pulled)) => Finish(c, s, rest, pulled)
  }

  /** After the columns are pulled: matching, rebuilding and building. */
  function Finish(c: Conv, s: Struct, rest: seq<Column>, pulled: map<string, Value>): Result<Row, RowError>
    decreases s, 0
  {
    match MatchAll(c, s, rest)
    case Err(e) => Err(e)
    case Ok(slots) =>
      match Rectify(c, s.fields, slots)
      case Err(e) => Err(e)
      case Ok(vs) =>
        if exists i | 0 <= i < |vs| :: Lacks(s.fields[i], vs[i]) then Err(MissingField)
        else Build(c, s.fields, vs, pulled)
  }

  /** Flattened fields first: their columns are pulled out of the row. */
  method PullFlattened(s: Struct, cols: seq<Column>) returns (r: Result<(seq<Column>, map<string, Value>), RowError>)
    ensures r == Pull(PullNames(s.fields), cols, map[])
  {
    var rest := cols;
    var pulled: map<string, Value> := map[];
    assert s.fields[0..] == s.fields;
    for i := 0 to |s.fields|
      invariant Pull(PullNames(s.fields), cols, map[]) == Pull(PullNames(s.fields[i..]), rest, pulled)
    {
      assert s.fields[i..][0] == s.fields[i] && s.fields[i..][1..] == s.fields[i + 1..];
      ghost var later := PullNames(s.fields[i + 1..]);
      if s.fields[i].shape.Flatten? {
        var names := ColumnNames(s.fields[i].shape.inner);
        assert names[0..] == names;
        for k := 0 to |names|
          invariant Pull(PullNames(s.fields), cols, map[]) == Pull(names[k..] + later, rest, pulled)
        {
          assert (names[k..] + later)[0] == names[k] && (names[k..] + later)[1..] == names[k + 1..] + later;
          var idx := FindName(rest, names[k]);
          if idx == |rest| {
            return Err(MissingField);
          }
          pulled := pulled[rest[idx].name := rest[idx].value];
          rest := SwapRemove(rest, idx);
        }
        assert names[|names|..] + later == later;
      } else {
        assert [] + later == later;
      }
    }
    return Ok((rest, pulled));
  }

  method MatchColumns(c: Conv, s: Struct, cols: seq<Column>) returns (r: Result<seq<Slot>, RowError>)
    ensures r == MatchAll(c, s, cols)
  {
    var slots := seq(|s.fields|, _ => EMPTY_SLOT);
    for x := 0 to |cols|
      invariant MatchAll(c, s, cols[..x]) == Ok(slots)
    {
      assert cols[..x + 1][..x] == cols[..x];
      var next := MatchOne(c, s, slots, x, cols[x]);
      if next.Err? {
        FirstErrorStands(c, s, cols, x + 1);
        return next;
      }
      slots := next.value;
    }
    assert cols[..|cols|] == cols;
    return Ok(slots);
  }

  lemma {:induction false} FirstErrorStands(c: Conv, s: Struct, cols: seq<Column>, x: nat)
    requires x <= |cols| && MatchAll(c, s, cols[..x]).Err?
    ensures MatchAll(c, s, cols) == MatchAll(c, s, cols[..x])
    decreases |cols| - x
  {
    if x == |cols| {
      assert cols[..x] == cols;
    } else {
      assert cols[..x + 1][..x] == cols[..x];
      FirstErrorStands(c, s, cols, x + 1);
    }
  }

  method NextRow(ext: seq<(string, seq<Value>)>, j: nat) returns (row: Option<seq<Column>>)
    ensures row == if HasRow(ext, j) then Some(RowAt(ext, j)) else None
  {
    var temp: seq<Column> := [];
    for k := 0 to |ext|
      invariant HasRow(ext[..k], j)
      invariant temp == RowAt(ext[..k], j)
    {
      if |ext[k].1| <= j {
        return None;
      }
      temp := temp + [Column(ext[k].0, ext[k].1[j])];
      assert ext[..k + 1] == ext[..k] + [ext[k]];
    }
    assert ext[..|ext|] == ext;
    return Some(temp);
  }

  /** The loop that turns the columns of a nested field into rows, one value of each
      column at a time, until one has no more. */
  method RebuildNested(c: Conv, inner: Struct, ext: seq<(string, seq<Value>)>) returns (r: Result<seq<Row>, RowError>)
    ensures r == Rebuild(c, inner, ext)
    decreases inner, 5
  {
    if ext == [] {
      var first := DeserializeRow(c, inner, []);
      return if first.Ok? then Err(Diverges) else Err(first.error);
    }
    var rows: seq<Row> := [];
    var j := 0;
    while true
      invariant j <= |ext[0].1|
      invariant Continues(Rebuild(c, inner, ext), rows, RebuildFrom(c, inner, ext, j))
      decreases |ext[0].1| - j
    {
      RebuildStep(c, inner, ext, j, Rebuild(c, inner, ext), rows);
      var temp := NextRow(ext, j);
      if temp.None? {
        return Ok(rows);
      }
      var row := DeserializeRow(c, inner, temp.value);
      if row.Err? {
        return Err(row.error);
      }
      rows := rows + [row.value];
      j := j + 1;
    }
  }

  lemma RebuildStep(c: Conv, inner: Struct, ext: seq<(string, seq<Value>)>, j: nat,
      whole: Result<seq<Row>, RowError>, rows: seq<Row>)
    requires ext != [] && Continues(whole, rows, RebuildFrom(c, inner, ext, j))
    ensures !HasRow(ext, j) ==> whole == Ok(rows)
    ensures HasRow(ext, j) ==>
              match Deser(c, inner, RowAt(ext, j))
              case Err(e) => whole == Err(e)
              case Ok(row) => Continues(whole, rows + [row], RebuildFrom(c, inner, ext, j + 1))
  {
    if !HasRow(ext, j) {
      assert rows + [] == rows;
    } else if Deser(c, inner, RowAt(ext, j)).Ok? && RebuildFrom(c, inner, ext, j + 1).Ok? {
      ConcatAssoc(rows, [Deser(c, inner, RowAt(ext, j)).value], RebuildFrom(c, inner, ext, j + 1).value);
    }
  }

  lemma RectifyStep(c: Conv, fields: seq<Field>, slots: seq<Slot>, i: nat,
      whole: Result<seq<Option<Cell>>, RowError>, vs: seq<Option<Cell>>)
    requires i < |fields| == |slots| && Continues(whole, vs, Rectify(c, fields[i..], slots[i..]))
    ensures match SlotValue(c, fields[i], slots[i])
            case Err(e) => whole == Err(e)
            case Ok(v) => Continues(whole, vs + [v], Rectify(c, fields[i + 1..], slots[i + 1..]))
  {
    assert fields[i..][0] == fields[i] && fields[i..][1..] == fields[i + 1..];
    assert slots[i..][0] == slots[i] && slots[i..][1..] == slots[i + 1..];
    var rest := Rectify(c, fields[i + 1..], slots[i + 1..]);
    if SlotValue(c, fields[i], slots[i]).Ok? && rest.Ok? {
      ConcatAssoc(vs, [SlotValue(c, fields[i], slots[i]).value], rest.value);
    }
  }

  method RectifyFields(c: Conv, fields: seq<Field>, slots: seq<Slot>) returns (r: Result<seq<Option<Cell>>, RowError>)
    requires |slots| == |fields|
    ensures r == Rectify(c, fields, slots)
    decreases fields
  {
    var vs: seq<Option<Cell>> := [];
    assert fields[0..] == fields && slots[0..] == slots;
    for i := 0 to |fields|
      invariant |vs| == i
      invariant Continues(Rectify(c, fields, slots), vs, Rectify(c, fields[i..], slots[i..]))
    {
      RectifyStep(c, fields, slots, i, Rectify(c, fields, slots), vs);
      var v := None;
      if !fields[i].skipDe {
        match fields[i].shape {
          case Flat(_) =>
            v := if slots[i].got.Some? then Some(Leaf(slots[i].got.value)) else None;
          case Nested(inner) =>
            var rows := RebuildNested(c, inner, slots[i].ext);
            if rows.Err? {
              return Err(rows.error);
            }
            v := Some(Rows(rows.value));
          case Flatten(_) =>
        }
      }
      assert SlotValue(c, fields[i], slots[i]) == Ok(v);
      vs := vs + [v];
    }
    assert fields[|fields|..] == [] && vs + [] == vs;
    return Ok(vs);
  }

  lemma BuildStep(c: Conv, fields: seq<Field>, vs: seq<Option<Cell>>, pulled: map<string, Value>, i: nat,
      whole: Result<Row, RowError>, row: Row)
    requires i < |fields| == |vs| && Continues(whole, row, Build(c, fields[i..], vs[i..], pulled))
    ensures match BuildOne(c, fields[i], vs[i], pulled)
            case Err(e) => whole == Err(e)
            case Ok((cell, left)) => Continues(whole, row + [cell], Build(c, fields[i + 1..], vs[i + 1..], left))
  {
    assert fields[i..][0] == fields[i] && fields[i..][1..] == fields[i + 1..];
    assert vs[i..][0] == vs[i] && vs[i..][1..] == vs[i + 1..];
    var one := BuildOne(c, fields[i], vs[i], pulled);
    if one.Ok? {
      var rest := Build(c, fields[i + 1..], vs[i + 1..], one.value.1);
      if rest.Ok? { ConcatAssoc(row, [one.value.0], rest.value); }
    }
  }

  method BuildFields(c: Conv, fields: seq<Field>, vs: seq<Option<Cell>>, pulled: map<string, Value>)
      returns (r: Result<Row, RowError>)
    requires |vs| == |fields|
    ensures r == Build(c, fields, vs, pulled)
    decreases fields
  {
    var row: Row := [];
    var left := pulled;
    assert fields[0..] == fields && vs[0..] == vs;
    for i := 0 to |fields|
      invariant Continues(Build(c, fields, vs, pulled), row, Build(c, fields[i..], vs[i..], left))
    {
      BuildStep(c, fields, vs, left, i, Build(c, fields, vs, pulled), row);
      var f := fields[i];
      if f.shape.Flatten? && !f.skipDe {
        var taken := TakeOut(ColumnNames(f.shape.inner), left);
        if taken.Err? {
          return Err(taken.error);
        }
        var sub := DeserializeRow(c, f.shape.inner, taken.value.0);
        if sub.Err? {
          return Err(sub.error);
        }
        row := row + [Sub(sub.value)];
        left := taken.value.1;
      } else {
        var cell := OrMissing(f, vs[i]);
        if cell.Err? {
          return Err(cell.error);
        }
        row := row + [cell.value];
      }
    }
    assert fields[|fields|..] == [] && row + [] == row;
    return Ok(row);
  }

  method DeserializeRow(c: Conv, s: Struct, cols: seq<Column>) returns (r: Result<Row, RowError>)
    ensures r == Deser(c, s, cols)
    decreases s, 4
  {
    if !Sized(s.fields) {
      return Err(Panics);
    }
    var flattened := PullFlattened(s, cols);
    if flattened.Err? {
      return Err(flattened.error);
    }
    var (rest, pulled) := flattened.value;
    var slots := MatchColumns(c, s, rest);
    if slots.Err? {
      return Err(slots.error);
    }
    var vs := RectifyFields(c, s.fields, slots.value);
    if vs.Err? {
      return Err(vs.error);
    }
    for i := 0 to |s.fields|
      invariant forall k | 0 <= k < i :: !Lacks(s.fields[k], vs.value[k])
    {
      if Lacks(s.fields[i], vs.value[i]) {
        return Err(MissingField);
      }
    }
    r := BuildFields(c, s.fields, vs.value, pulled);
  }
}
