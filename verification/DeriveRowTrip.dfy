/** A derived row, written as columns and read back from them in any order, is the row. */
module DeriveRowTrip {
  import opened Common
  import opened DeriveRow
  import opened DeriveRowLaws

  // ---------------------------------------------------------------------------
  // What the round trip asks of a struct, a row and the leaf conversions
  // ---------------------------------------------------------------------------

  /** No earlier nested field's prefix starts a later field's column name. Flattened columns
      are exempt: they are pulled out before any prefix is looked at. */
  ghost predicate Unshadowed(fields: seq<Field>) {
    forall j, i, n | 0 <= j < i < |fields| && fields[j].shape.Nested? && !fields[j].skipDe
                     && !fields[i].shape.Flatten? && n in FieldNames(fields[i]) ::
      !StartsWith(n, Dotted(fields[j]))
  }

  /** Column names are distinct and unshadowed, also by flattened fields that are skipped,
      and what is skipped is skipped both ways. */
  ghost predicate Sound(s: Struct)
    decreases s
  {
    && Distinct(ColumnNames(s))
    && Unshadowed(s.fields)
    && (forall i, n | 0 <= i < |s.fields| && s.fields[i].skipSer && s.fields[i].shape.Flatten?
                      && n in ColumnNames(s.fields[i].shape.inner) :: n !in ColumnNames(s))
    && forall i | 0 <= i < |s.fields| :: SoundField(s.fields[i])
  }

  ghost predicate SoundField(f: Field)
    decreases f
  {
    && f.skipSer == f.skipDe
    && (!f.skipSer ==>
          match f.shape
          case Flat(_) => true
          case Nested(inner) => ColumnCount(inner).Some? && Sound(inner)
          case Flatten(inner) => Sound(inner))
  }

  /** A skipped flattened field whose columns nobody writes. */
  predicate Starved(f: Field) {
    f.skipSer && f.shape.Flatten? && ColumnNames(f.shape.inner) != []
  }

  /** The row and the struct allow the row to come back: what is skipped holds its default
      and announces no columns, and every vector that is written has columns. */
  predicate Reads(s: Struct, row: Row)
    requires Typed(s, row)
    decreases s
  {
    forall i | 0 <= i < |row| :: ReadsCell(s.fields[i], row[i])
  }

  predicate ReadsCell(f: Field, cell: Cell)
    requires TypedCell(f, cell)
    decreases f
  {
    if f.skipSer then f.missing == Some(cell) && !Starved(f)
    else
      match f.shape
      case Flat(_) => true
      case Nested(inner) => ColumnNames(inner) != [] && forall j | 0 <= j < |cell.rows| :: Reads(inner, cell.rows[j])
      case Flatten(inner) => Reads(inner, cell.row)
  }

  /** The row that comes back: defaults where fields are skipped; none if something that
      must come back cannot. */
  function Back(s: Struct, row: Row): Option<Row>
    requires Typed(s, row)
    decreases s
  {
    if forall i | 0 <= i < |row| :: BackCell(s.fields[i], row[i]).Some?
    then Some(seq(|row|, i requires 0 <= i < |row| => BackCell(s.fields[i], row[i]).value))
    else None
  }

  function BackCell(f: Field, cell: Cell): Option<Cell>
    requires TypedCell(f, cell)
    decreases f
  {
    if f.skipSer then if Starved(f) then None else f.missing
    else
      match f.shape
      case Flat(_) => Some(cell)
      case Nested(inner) =>
        if ColumnNames(inner) != [] && forall j | 0 <= j < |cell.rows| :: Back(inner, cell.rows[j]).Some?
        then Some(Rows(seq(|cell.rows|, j requires 0 <= j < |cell.rows| => Back(inner, cell.rows[j]).value)))
        else None
      case Flatten(inner) =>
        match Back(inner, cell.row)
        case None => None
        case Some(row) => Some(Sub(row))
  }

  /** What comes back is the row itself exactly when the row reads. */
  lemma {:induction false} BackIsRowIff(s: Struct, row: Row)
    requires Typed(s, row)
    ensures Back(s, row) == Some(row) <==> Reads(s, row)
    decreases s
  {
    forall i | 0 <= i < |row|
      ensures BackCell(s.fields[i], row[i]) == Some(row[i]) <==> ReadsCell(s.fields[i], row[i])
    {
      BackIsCellIff(s.fields[i], row[i]);
    }
    if Reads(s, row) { assert Back(s, row).value == row; }
    if Back(s, row) == Some(row) {
      forall i | 0 <= i < |row| ensures ReadsCell(s.fields[i], row[i]) {
        assert row[i] == BackCell(s.fields[i], row[i]).value;
      }
    }
  }

  lemma {:induction false} BackIsCellIff(f: Field, cell: Cell)
    requires TypedCell(f, cell)
    ensures BackCell(f, cell) == Some(cell) <==> ReadsCell(f, cell)
    decreases f
  {
    if !f.skipSer {
      match f.shape
      case Flat(_) =>
      case Nested(inner) =>
        forall j | 0 <= j < |cell.rows| ensures Back(inner, cell.rows[j]) == Some(cell.rows[j]) <==> Reads(inner, cell.rows[j]) {
          BackIsRowIff(inner, cell.rows[j]);
        }
        if ReadsCell(f, cell) { assert BackCell(f, cell).value.rows == cell.rows; }
        if BackCell(f, cell) == Some(cell) {
          forall j | 0 <= j < |cell.rows| ensures Reads(inner, cell.rows[j]) {
            assert cell.rows[j] == Back(inner, cell.rows[j]).value;
          }
        }
      case Flatten(inner) => BackIsRowIff(inner, cell.row);
    }
  }

  /** `from_sql` takes back what `to_sql` gave. */
  ghost predicate Inverse(c: Conv) {
    forall kind, x :: c.to(kind, x).Some? ==> c.from(kind, c.to(kind, x).value) == Some(x)
  }

  // ---------------------------------------------------------------------------
  // Names
  // ---------------------------------------------------------------------------

  lemma {:induction false} InConcat<T>(parts: seq<seq<T>>, x: T)
    ensures x in Concat(parts) <==> exists i | 0 <= i < |parts| :: x in parts[i]
    decreases parts
  {
    if parts != [] {
      InConcat(parts[1..], x);
      assert forall i | 0 < i < |parts| :: parts[i] == parts[1..][i - 1];
      if x in parts[0] {}
      if i :| 0 <= i < |parts[1..]| && x in parts[1..][i] { assert x in parts[i + 1]; }
    }
  }

  lemma {:induction false} DistinctParts(parts: seq<seq<string>>, i: nat, j: nat)
    requires Distinct(Concat(parts)) && i < |parts| && j < |parts|
    ensures Distinct(parts[i])
    ensures i != j ==> forall n | n in parts[i] :: n !in parts[j]
    decreases parts
  {
    DistinctSplit(parts[0], Concat(parts[1..]));
    if i > 0 && j > 0 {
      DistinctParts(parts[1..], i - 1, j - 1);
    } else if i > 0 {
      DistinctParts(parts[1..], i - 1, i - 1);
      forall n | n in parts[i] ensures n !in parts[0] { InLater(parts, i, n); }
    } else if j > 0 {
      forall n | n in parts[j] ensures n !in parts[0] { InLater(parts, j, n); }
    }
  }

  lemma InLater<T>(parts: seq<seq<T>>, i: nat, x: T)
    requires 0 < i < |parts| && x in parts[i]
    ensures x in Concat(parts[1..])
  {
    InConcat(parts[1..], x);
    assert x in parts[1..][i - 1];
  }

  lemma OneOwner(s: Struct, i: nat, j: nat)
    requires Distinct(ColumnNames(s)) && i < |s.fields| && j < |s.fields|
    ensures Distinct(FieldNames(s.fields[i]))
    ensures i != j ==> forall n | n in FieldNames(s.fields[i]) :: n !in FieldNames(s.fields[j])
  {
    DistinctParts(NameBlocks(s.fields), i, j);
  }

  lemma Owner(s: Struct, n: string) returns (i: nat)
    requires n in ColumnNames(s)
    ensures i < |s.fields| && n in FieldNames(s.fields[i])
  {
    InConcat(NameBlocks(s.fields), n);
    i :| 0 <= i < |s.fields| && n in NameBlocks(s.fields)[i];
  }

  lemma {:induction false} PullsDistinct(fields: seq<Field>)
    requires Distinct(Concat(NameBlocks(fields)))
    requires forall i | 0 <= i < |fields| :: !Starved(fields[i])
    ensures Distinct(PullNames(fields))
    ensures forall n | n in PullNames(fields) :: n in Concat(NameBlocks(fields))
    decreases fields
  {
    if fields != [] {
      var here, later := FieldNames(fields[0]), Concat(NameBlocks(fields[1..]));
      assert NameBlocks(fields)[1..] == NameBlocks(fields[1..]);
      DistinctSplit(here, later);
      PullsDistinct(fields[1..]);
      if fields[0].shape.Flatten? {
        assert fields[0].skipSer ==> ColumnNames(fields[0].shape.inner) == [];
        DistinctJoin(here, PullNames(fields[1..]));
      } else {
        assert [] + PullNames(fields[1..]) == PullNames(fields[1..]);
      }
    }
  }

  lemma DistinctJoin(a: seq<string>, b: seq<string>)
    requires Distinct(a) && Distinct(b) && forall n | n in a :: n !in b
    ensures Distinct(a + b)
  {
    forall i, j | 0 <= i < j < |a + b| ensures (a + b)[i] != (a + b)[j] {
      if i < |a| <= j { assert a[i] in a && b[j - |a|] in b; }
    }
  }

  lemma NamedHere(s: Struct, i: nat, n: string)
    requires i < |s.fields| && n in FieldNames(s.fields[i])
    ensures n in ColumnNames(s)
  {
    InConcat(NameBlocks(s.fields), n);
    assert n in NameBlocks(s.fields)[i];
  }

  /** A column belongs to the field that wrote it, and to no other. */
  lemma Owned(s: Struct, i: nat, n: string)
    requires Sound(s) && i < |s.fields| && n in FieldNames(s.fields[i])
    ensures forall k | 0 <= k < |s.fields| :: Belongs(s, k, n) <==> k == i
    ensures !s.fields[i].shape.Flatten? ==> Takes(s.fields[i], n)
  {
    NamedHere(s, i, n);
    forall k | 0 <= k < |s.fields| && k != i
      ensures n !in FieldNames(s.fields[k])
    {
      OneOwner(s, i, k);
    }
    if s.fields[i].shape.Flatten? {
      PulledBelongs(s.fields, i);
    } else {
      if n in PullNames(s.fields) {
        PulledFrom(s.fields, n);
        assert false;
      }
      ArmIsOwner(s, i, n);
    }
  }

  lemma ArmIsOwner(s: Struct, i: nat, n: string)
    requires Sound(s) && i < |s.fields| && n in FieldNames(s.fields[i]) && !s.fields[i].shape.Flatten?
    requires forall k | 0 <= k < |s.fields| && k != i :: n !in FieldNames(s.fields[k])
    ensures Takes(s.fields[i], n) && Arm(s.fields, n) == i
  {
    assert SoundField(s.fields[i]);
    assert Takes(s.fields[i], n);
    forall j | 0 <= j < i ensures !Takes(s.fields[j], n) {
      assert SoundField(s.fields[j]) && n !in FieldNames(s.fields[j]);
    }
  }

  /** What a sound struct writes, it knows. */
  lemma {:induction false} SoundKnown(s: Struct)
    requires Sound(s)
    ensures Closed(s) && forall n | n in ColumnNames(s) :: Known(s, n)
    decreases s
  {
    forall i | 0 <= i < |s.fields| && !s.fields[i].skipDe && !s.fields[i].shape.Flat?
      ensures var inner := s.fields[i].shape.inner; Closed(inner) && forall n | n in ColumnNames(inner) :: Known(inner, n)
    {
      assert SoundField(s.fields[i]);
      SoundKnown(s.fields[i].shape.inner);
    }
    forall n | n in ColumnNames(s) ensures Known(s, n) {
      var i := Owner(s, n);
      Owned(s, i, n);
      assert SoundField(s.fields[i]) && Belongs(s, i, n);
      if s.fields[i].shape.Flatten? { PulledBelongs(s.fields, i); }
    }
  }

  // ---------------------------------------------------------------------------
  // The columns of one field
  // ---------------------------------------------------------------------------

  function Inners(f: Field, block: seq<Column>): seq<Column> {
    seq(|block|, x requires 0 <= x < |block| => Inner(f, block[x]))
  }

  /** What a whole row wrote, seen from field `i`. */
  ghost predicate Wrote(c: Conv, s: Struct, row: Row, m: map<string, Value>) {
    Typed(s, row) && Ser(c, s, row).Ok? && Lists(Ser(c, s, row).value, m)
  }

  lemma BlockMembers(c: Conv, s: Struct, row: Row, i: nat, col: Column)
    requires Sound(s) && Typed(s, row) && Ser(c, s, row).Ok? && i < |s.fields|
    ensures SerField(c, s.fields[i], row[i]).Ok?
    ensures col in SerField(c, s.fields[i], row[i]).value <==>
              col in Ser(c, s, row).value && col.name in FieldNames(s.fields[i])
  {
    BlocksNamed(c, s.fields, row);
    var blocks := SerBlocks(c, s.fields, row).value;
    InConcat(blocks, col);
    if col in blocks[i] {
      var x :| 0 <= x < |blocks[i]| && blocks[i][x] == col;
      assert FieldNames(s.fields[i])[x] == col.name;
    }
    if col in Ser(c, s, row).value && col.name in FieldNames(s.fields[i]) {
      var j :| 0 <= j < |blocks| && col in blocks[j];
      var x :| 0 <= x < |blocks[j]| && blocks[j][x] == col;
      assert FieldNames(s.fields[j])[x] == col.name;
      OneOwner(s, i, j);
    }
  }

  lemma InnersDistinct(f: Field, block: seq<Column>)
    requires Named(block, FieldNames(f)) && Distinct(FieldNames(f))
    requires !f.shape.Flatten? ==> forall n | n in FieldNames(f) :: Takes(f, n)
    ensures DistinctNames(Inners(f, block))
  {
    InnerNameInjective(f);
    forall x, y | 0 <= x < y < |block| ensures InnerName(f, block[x].name) != InnerName(f, block[y].name) {
      assert block[x].name == FieldNames(f)[x] && block[y].name == FieldNames(f)[y];
    }
  }

  /** A field's share of the columns is what it wrote. */
  lemma BlockLists(c: Conv, s: Struct, row: Row, m: map<string, Value>, i: nat)
    requires Sound(s) && Wrote(c, s, row, m) && i < |s.fields|
    ensures SerField(c, s.fields[i], row[i]).Ok?
    ensures Lists(Inners(s.fields[i], SerField(c, s.fields[i], row[i]).value), Part(s, m, i))
  {
    var f, cols := s.fields[i], Ser(c, s, row).value;
    BlocksNamed(c, s.fields, row);
    var block := SerField(c, f, row[i]).value;
    var inners, part := Inners(f, block), Part(s, m, i);
    OneOwner(s, i, i);
    forall n | n in FieldNames(f)
      ensures Belongs(s, i, n) && (!f.shape.Flatten? ==> Takes(f, n))
    {
      Owned(s, i, n);
    }
    InnersDistinct(f, block);
    forall d: Column
      ensures d in inners <==> d.name in part && part[d.name] == d.value
    {
      if d in inners { InnerIsPart(c, s, row, m, i, d); }
      if d.name in part && part[d.name] == d.value { PartIsInner(c, s, row, m, i, d); }
    }
  }

  lemma InnerIsPart(c: Conv, s: Struct, row: Row, m: map<string, Value>, i: nat, d: Column)
    requires Sound(s) && Wrote(c, s, row, m) && i < |s.fields| && SerField(c, s.fields[i], row[i]).Ok?
    requires d in Inners(s.fields[i], SerField(c, s.fields[i], row[i]).value)
    ensures d.name in Part(s, m, i) && Part(s, m, i)[d.name] == d.value
  {
    var f, block := s.fields[i], SerField(c, s.fields[i], row[i]).value;
    var x :| 0 <= x < |block| && d == Inner(f, block[x]);
    BlockMembers(c, s, row, i, block[x]);
    Owned(s, i, block[x].name);
    PartHas(s, m, i, block[x].name);
  }

  lemma PartHas(s: Struct, m: map<string, Value>, i: nat, k: string)
    requires i < |s.fields| && k in m && Belongs(s, i, k)
    ensures InnerName(s.fields[i], k) in Part(s, m, i) && Part(s, m, i)[InnerName(s.fields[i], k)] == m[k]
  {
    InnerNameInjective(s.fields[i]);
  }

  lemma PartIsInner(c: Conv, s: Struct, row: Row, m: map<string, Value>, i: nat, d: Column)
    requires Sound(s) && Wrote(c, s, row, m) && i < |s.fields| && SerField(c, s.fields[i], row[i]).Ok?
    requires d.name in Part(s, m, i) && Part(s, m, i)[d.name] == d.value
    ensures d in Inners(s.fields[i], SerField(c, s.fields[i], row[i]).value)
  {
    var f, block := s.fields[i], SerField(c, s.fields[i], row[i]).value;
    var k :| k in m && Belongs(s, i, k) && InnerName(f, k) == d.name;
    KeyOwner(c, s, row, m, i, k);
    BlockMembers(c, s, row, i, Column(k, m[k]));
    PartHas(s, m, i, k);
    var x :| 0 <= x < |block| && block[x] == Column(k, m[k]);
    assert Inners(f, block)[x] == d;
  }

  lemma KeyOwner(c: Conv, s: Struct, row: Row, m: map<string, Value>, i: nat, k: string)
    requires Sound(s) && Wrote(c, s, row, m) && i < |s.fields| && k in m && Belongs(s, i, k)
    ensures Column(k, m[k]) in Ser(c, s, row).value && k in FieldNames(s.fields[i])
  {
    SerNamed(c, s, row);
    var cols := Ser(c, s, row).value;
    ListsName(cols, m, k);
    var x :| 0 <= x < |cols| && cols[x] == Column(k, m[k]);
    assert ColumnNames(s)[x] == k;
    var j := Owner(s, k);
    Owned(s, j, k);
  }

  // ---------------------------------------------------------------------------
  // The reference decoder reads what was written
  // ---------------------------------------------------------------------------

  lemma FlatReads(c: Conv, f: Field, x: int, part: map<string, Value>)
    requires Inverse(c) && f.shape.Flat? && !f.skipSer && !f.skipDe && SerField(c, f, Leaf(x)).Ok?
    requires Lists(Inners(f, SerField(c, f, Leaf(x)).value), part)
    ensures RefField(c, f, part) == Some(Leaf(x))
  {
    var v := c.to(f.shape.kind, x).value;
    assert Inners(f, SerField(c, f, Leaf(x)).value)[0] == Column(f.name, v);
    assert Column(f.name, v) in Inners(f, SerField(c, f, Leaf(x)).value);
  }

  lemma TransposedInners(f: Field, names: seq<string>, rows: seq<seq<Column>>)
    requires f.shape.Nested? && forall j | 0 <= j < |rows| :: |rows[j]| == |names|
    ensures Inners(f, Transposed(Dotted(f), names, rows)) == Transposed("", names, rows)
  {
    var a, b := Inners(f, Transposed(Dotted(f), names, rows)), Transposed("", names, rows);
    forall k | 0 <= k < |names| ensures a[k] == b[k] {
      var full := Dotted(f) + names[k];
      assert StartsWith(full, Dotted(f)) && full[|f.name| + 1..] == names[k] && "" + names[k] == names[k];
    }
  }

  ghost predicate AllNamed(rows: seq<seq<Column>>, names: seq<string>) {
    forall y | 0 <= y < |rows| :: |rows[y]| == |names| && Named(rows[y], names)
  }

  /** Columns back to rows: the `j`th values of transposed columns are row `j`. */
  lemma TransposedRow(names: seq<string>, rows: seq<seq<Column>>, part: map<string, Value>, j: nat)
    requires names != [] && Distinct(names) && j < |rows|
    requires AllNamed(rows, names)
    requires Lists(Transposed("", names, rows), part)
    ensures Even(part) && Height(part) == |rows| && Lists(rows[j], Slice(part, j))
  {
    TransposedEven(names, rows, part);
    var slice := Slice(part, j);
    forall x, y | 0 <= x < y < |rows[j]| ensures rows[j][x].name != rows[j][y].name {
      assert rows[j][x].name == names[x] && rows[j][y].name == names[y];
    }
    forall d: Column
      ensures d in rows[j] <==> d.name in slice && slice[d.name] == d.value
    {
      if d in rows[j] {
        var k :| 0 <= k < |names| && rows[j][k] == d;
        TransposedAt(names, rows, part, k);
      }
      if d.name in slice && slice[d.name] == d.value {
        ListsName(Transposed("", names, rows), part, d.name);
        var k :| 0 <= k < |names| && Transposed("", names, rows)[k] == Column(d.name, part[d.name]);
        TransposedAt(names, rows, part, k);
        assert rows[j][k] == d;
      }
    }
  }

  lemma TransposedAt(names: seq<string>, rows: seq<seq<Column>>, part: map<string, Value>, k: nat)
    requires k < |names| && AllNamed(rows, names)
    requires Lists(Transposed("", names, rows), part)
    ensures names[k] in part && part[names[k]] == Array(ValuesAt(rows, k))
  {
    assert "" + names[k] == names[k];
    assert Transposed("", names, rows)[k] in Transposed("", names, rows);
  }

  lemma TransposedEven(names: seq<string>, rows: seq<seq<Column>>, part: map<string, Value>)
    requires names != [] && AllNamed(rows, names)
    requires Lists(Transposed("", names, rows), part)
    ensures Even(part) && Height(part) == |rows|
  {
    var cols := Transposed("", names, rows);
    assert cols[0] in cols;
    forall k | k in part ensures part[k].Array? && |part[k].items| == |rows| {
      ListsName(cols, part, k);
    }
  }

  lemma NestedReads(c: Conv, f: Field, cell: Cell, part: map<string, Value>)
    requires Inverse(c) && SoundField(f) && !f.skipSer && f.shape.Nested? && TypedCell(f, cell)
    requires SerField(c, f, cell).Ok? && Lists(Inners(f, SerField(c, f, cell).value), part)
    ensures RefField(c, f, part) == BackCell(f, cell)
    decreases f, 0
  {
    var inner := f.shape.inner;
    var names, rows := ColumnNames(inner), SerRows(c, inner, cell.rows).value;
    RowsWritten(c, inner, cell.rows);
    TransposedInners(f, names, rows);
    forall j | 0 <= j < |rows| ensures Named(rows[j], names) {
      SerNamed(c, inner, cell.rows[j]);
    }
    if names == [] {
      NothingListed(Transposed("", names, rows), part);
    } else {
      TransposedEven(names, rows, part);
      forall j | 0 <= j < |rows| ensures Ref(c, inner, Slice(part, j)) == Back(inner, cell.rows[j]) {
        TransposedRow(names, rows, part, j);
        RefReads(c, inner, cell.rows[j], Slice(part, j));
      }
      NestedCollects(c, f, cell, part);
    }
  }

  lemma NothingListed(cols: seq<Column>, part: map<string, Value>)
    requires Lists(cols, part) && cols == []
    ensures part == map[]
  {
    forall k | k in part ensures false { ListsName(cols, part, k); }
  }

  lemma NestedCollects(c: Conv, f: Field, cell: Cell, part: map<string, Value>)
    requires !f.skipSer && !f.skipDe && f.shape.Nested? && TypedCell(f, cell) && ColumnNames(f.shape.inner) != []
    requires Even(part) && Height(part) == |cell.rows|
    requires forall j | 0 <= j < |cell.rows| :: Ref(c, f.shape.inner, Slice(part, j)) == Back(f.shape.inner, cell.rows[j])
    ensures RefField(c, f, part) == BackCell(f, cell)
  {
    if forall j | 0 <= j < |cell.rows| :: Back(f.shape.inner, cell.rows[j]).Some? {
      assert RefField(c, f, part).value.rows == BackCell(f, cell).value.rows;
    } else {
      var j :| 0 <= j < |cell.rows| && Back(f.shape.inner, cell.rows[j]).None?;
      assert Ref(c, f.shape.inner, Slice(part, j)).None?;
    }
  }

  lemma FieldReads(c: Conv, f: Field, cell: Cell, part: map<string, Value>)
    requires Inverse(c) && SoundField(f) && TypedCell(f, cell) && SerField(c, f, cell).Ok? && !Starved(f)
    requires Lists(Inners(f, SerField(c, f, cell).value), part)
    ensures RefField(c, f, part) == BackCell(f, cell)
    decreases f, 1
  {
    if !f.skipSer {
      match f.shape
      case Flat(_) => FlatReads(c, f, cell.x, part);
      case Nested(_) => NestedReads(c, f, cell, part);
      case Flatten(inner) =>
        var block := SerField(c, f, cell).value;
        assert Inners(f, block) == block;
        RefReads(c, inner, cell.row, part);
    }
  }

  /** The reference decoder reads back what was written, with the defaults of what was not,
      or nothing, exactly as the struct and the row tell. */
  lemma {:induction false} RefReads(c: Conv, s: Struct, row: Row, m: map<string, Value>)
    requires Inverse(c) && Sound(s) && Wrote(c, s, row, m)
    ensures Ref(c, s, m) == Back(s, row)
    decreases s
  {
    if exists i | 0 <= i < |s.fields| :: Starved(s.fields[i]) {
      var i :| 0 <= i < |s.fields| && Starved(s.fields[i]);
      StarvedMissing(c, s, row, m, i);
      assert BackCell(s.fields[i], row[i]).None?;
    } else {
      forall i | 0 <= i < |s.fields|
        ensures RefCells(c, s, m)[i] == BackCell(s.fields[i], row[i])
      {
        BlockLists(c, s, row, m, i);
        FieldReads(c, s.fields[i], row[i], Part(s, m, i));
      }
      AllPresent(c, s, row, m);
      CellsCollect(c, s, row, m);
    }
  }

  lemma CellsCollect(c: Conv, s: Struct, row: Row, m: map<string, Value>)
    requires Typed(s, row)
    requires Sized(s.fields) && Distinct(PullNames(s.fields)) && forall n | n in PullNames(s.fields) :: n in m
    requires forall i | 0 <= i < |s.fields| :: RefCells(c, s, m)[i] == BackCell(s.fields[i], row[i])
    ensures Ref(c, s, m) == Back(s, row)
  {
    if forall i | 0 <= i < |row| :: BackCell(s.fields[i], row[i]).Some? {
      assert Ref(c, s, m).value == Back(s, row).value;
    } else {
      var i :| 0 <= i < |row| && BackCell(s.fields[i], row[i]).None?;
      assert RefCells(c, s, m)[i].None?;
    }
  }

  /** The names of what was written. */
  lemma WrittenNames(c: Conv, s: Struct, row: Row, m: map<string, Value>)
    requires Wrote(c, s, row, m)
    ensures forall n :: n in m <==> n in ColumnNames(s)
  {
    SerNamed(c, s, row);
    var cols := Ser(c, s, row).value;
    forall n | n in ColumnNames(s) ensures n in m {
      var x :| 0 <= x < |cols| && ColumnNames(s)[x] == n;
      assert cols[x] in cols;
    }
    forall n | n in m ensures n in ColumnNames(s) {
      ListsName(cols, m, n);
      var x :| 0 <= x < |cols| && cols[x] == Column(n, m[n]);
      assert ColumnNames(s)[x] == n;
    }
  }

  lemma StarvedMissing(c: Conv, s: Struct, row: Row, m: map<string, Value>, i: nat)
    requires Sound(s) && Wrote(c, s, row, m) && i < |s.fields| && Starved(s.fields[i])
    ensures exists n :: n in PullNames(s.fields) && n !in m
    ensures Ref(c, s, m).None?
  {
    WrittenNames(c, s, row, m);
    PulledBelongs(s.fields, i);
    var names := ColumnNames(s.fields[i].shape.inner);
    assert names[0] in names && names[0] in PullNames(s.fields) && names[0] !in m;
  }

  lemma AllPresent(c: Conv, s: Struct, row: Row, m: map<string, Value>)
    requires Sound(s) && Wrote(c, s, row, m) && forall i | 0 <= i < |s.fields| :: !Starved(s.fields[i])
    ensures Sized(s.fields) && Distinct(PullNames(s.fields)) && forall n | n in PullNames(s.fields) :: n in m
  {
    forall i | 0 <= i < |s.fields| ensures SoundField(s.fields[i]) {}
    PullsDistinct(s.fields);
    WrittenNames(c, s, row, m);
  }

  // ---------------------------------------------------------------------------
  // Round trip
  // ---------------------------------------------------------------------------

  lemma WrittenDistinct(c: Conv, s: Struct, row: Row)
    requires Typed(s, row) && Ser(c, s, row).Ok? && Distinct(ColumnNames(s))
    ensures DistinctNames(Ser(c, s, row).value)
  {
    SerNamed(c, s, row);
    var cols := Ser(c, s, row).value;
    forall x, y | 0 <= x < y < |cols| ensures cols[x].name != cols[y].name {
      assert cols[x].name == ColumnNames(s)[x] && cols[y].name == ColumnNames(s)[y];
    }
  }

  /** Some arrangement of the columns that the row was written as. */
  ghost predicate Arranged(c: Conv, s: Struct, row: Row, cols: seq<Column>) {
    Typed(s, row) && Ser(c, s, row).Ok? && multiset(cols) == multiset(Ser(c, s, row).value)
  }

  lemma ArrangedLists(c: Conv, s: Struct, row: Row, cols: seq<Column>) returns (m: map<string, Value>)
    requires Arranged(c, s, row, cols) && Distinct(ColumnNames(s))
    ensures Lists(cols, m) && Wrote(c, s, row, m)
    ensures forall n :: n in m <==> n in ColumnNames(s)
  {
    var written := Ser(c, s, row).value;
    WrittenDistinct(c, s, row);
    m := ToMap(written);
    ToMapListed(written);
    PermutedLists(written, cols, m);
    WrittenNames(c, s, row, m);
  }

  /** Any arrangement of the columns a row was written as, flat, nested to any depth and
      flattened fields in any mixture, reads as what comes back of the row, or as nothing if
      nothing does. */
  lemma RoundTrip(c: Conv, s: Struct, row: Row, cols: seq<Column>)
    requires Inverse(c) && Sound(s) && Arranged(c, s, row, cols)
    ensures Agrees(Deser(c, s, cols), Back(s, row))
  {
    var m := ArrangedLists(c, s, row, cols);
    SoundKnown(s);
    RefReads(c, s, row, m);
    Decodes(c, s, cols, m);
  }

  /** It reads as that row if and only if skipped fields hold their defaults and announce no
      columns, and every vector written has columns. */
  lemma RoundTripIff(c: Conv, s: Struct, row: Row, cols: seq<Column>)
    requires Inverse(c) && Sound(s) && Arranged(c, s, row, cols)
    ensures Deser(c, s, cols) == Ok(row) <==> Reads(s, row)
  {
    RoundTrip(c, s, row, cols);
    BackIsRowIff(s, row);
  }

  // ---------------------------------------------------------------------------
  // The conditions are needed
  // ---------------------------------------------------------------------------

  /** A field that nothing makes no value of, and that none of the columns belongs to, leaves
      no row; all names are taken by some field. */
  lemma NothingNoRow(c: Conv, s: Struct, cols: seq<Column>, m: map<string, Value>, i: nat)
    requires Lists(cols, m) && forall k | k in m :: Claimed(s, k)
    requires i < |s.fields| && !s.fields[i].skipDe && !s.fields[i].shape.Flatten?
    requires DecodeField(c, s.fields[i], []).Err? && forall k | k in m :: !Belongs(s, i, k)
    ensures Deser(c, s, cols).Err?
  {
    var names := PullNames(s.fields);
    PullLists(names, cols, m, map[]);
    var p := Pull(names, cols, map[]);
    if Sized(s.fields) && p.Ok? {
      var (rest, pulled) := p.value;
      forall col | col in rest
        ensures col.name !in names && Arm(s.fields, col.name) < |s.fields| && !Belongs(s, i, col.name)
      {
        assert col.name in Without(m, names) && Claimed(s, col.name);
      }
      NoShare(s, rest, i);
      FinishSplits(c, s, rest, pulled, m);
      assert FieldResults(c, s, rest, m)[i].Err?;
    }
  }

  lemma NoShare(s: Struct, cols: seq<Column>, i: nat)
    requires i < |s.fields| && forall col | col in cols :: !Belongs(s, i, col.name)
    ensures Mine(s, cols, i) == []
  {
    var mine := Mine(s, cols, i);
    assert |mine| > 0 ==> mine[0] in mine;
    MineHas(s, cols, i);
  }

  /** A nested field none of whose columns arrive: no row, whatever else of the struct's own
      columns is there. */
  lemma NestedNeedsColumns(c: Conv, s: Struct, cols: seq<Column>, m: map<string, Value>, i: nat)
    requires Lists(cols, m) && forall k | k in m :: Claimed(s, k)
    requires i < |s.fields| && s.fields[i].shape.Nested? && !s.fields[i].skipDe
    requires forall k | k in m :: !Belongs(s, i, k)
    ensures Deser(c, s, cols).Err?
  {
    NestedNeedsColumn(c, s.fields[i]);
    NothingNoRow(c, s, cols, m, i);
  }

  lemma {:induction false} FirstErrorCounts(c: Conv, fields: seq<Field>, slots: seq<Slot>, i: nat)
    requires |slots| == |fields| && i < |fields| && SlotValue(c, fields[i], slots[i]).Err?
    requires forall j | 0 <= j < i :: SlotValue(c, fields[j], slots[j]).Ok?
    ensures Rectify(c, fields, slots) == Err(SlotValue(c, fields[i], slots[i]).error)
    decreases fields
  {
    if i > 0 {
      assert forall j | 0 <= j < i - 1 :: fields[1..][j] == fields[j + 1] && slots[1..][j] == slots[j + 1];
      FirstErrorCounts(c, fields[1..], slots[1..], i - 1);
    }
  }

  /** Matching a field's own columns, as they were written, never fails. */
  lemma FieldFills(c: Conv, f: Field, cell: Cell, cols: seq<Column>, part: map<string, Value>)
    requires Inverse(c) && SoundField(f) && TypedCell(f, cell) && SerField(c, f, cell).Ok? && !f.shape.Flatten?
    requires Lists(cols, part) && Lists(Inners(f, SerField(c, f, cell).value), part)
    ensures FillAll(c, f, cols).Ok?
  {
    if cols != [] && f.shape.Flat? {
      FlatFills(c, f, cell.x, cols, part);
    } else if cols != [] {
      assert cols[0] in cols;
      NestedFills(c, f, cell, cols, part);
    }
  }

  lemma FlatFills(c: Conv, f: Field, x: int, cols: seq<Column>, part: map<string, Value>)
    requires Inverse(c) && f.shape.Flat? && SerField(c, f, Leaf(x)).Ok? && cols != []
    requires Lists(cols, part) && Lists(Inners(f, SerField(c, f, Leaf(x)).value), part)
    ensures FillAll(c, f, cols).Ok?
  {
    var inners := Inners(f, SerField(c, f, Leaf(x)).value);
    forall k | k in part ensures k == f.name { ListsName(inners, part, k); }
    OneColumn(cols, part, f.name);
    assert cols[0] in cols;
    ListsName(inners, part, f.name);
    assert [cols[0]][..0] == [];
    assert FillAll(c, f, [cols[0]]) == Fill(c, f, EMPTY_SLOT, cols[0]);
  }

  lemma NestedFills(c: Conv, f: Field, cell: Cell, cols: seq<Column>, part: map<string, Value>)
    requires SoundField(f) && f.shape.Nested? && TypedCell(f, cell) && SerField(c, f, cell).Ok? && cols != []
    requires Lists(cols, part) && Lists(Inners(f, SerField(c, f, cell).value), part)
    ensures FillAll(c, f, cols).Ok?
  {
    assert cols[0] in cols && cols[0].name in part;
    ListsName(Inners(f, SerField(c, f, cell).value), part, cols[0].name);
    var inner := f.shape.inner;
    var names, rows := ColumnNames(inner), SerRows(c, inner, cell.rows).value;
    RowsWritten(c, inner, cell.rows);
    TransposedInners(f, names, rows);
    forall j | 0 <= j < |rows| ensures Named(rows[j], names) {
      SerNamed(c, inner, cell.rows[j]);
    }
    TransposedEven(names, rows, part);
    EvenListed(cols, part);
    FillNested(c, f, cols);
  }

  /** What rebuilding makes of a nested field without columns: it never ends, unless the inner
      struct cannot be built from nothing. */
  function FromNothing(c: Conv, inner: Struct): RowError {
    match Deser(c, inner, [])
    case Err(e) => e
    case Ok(_) => Diverges
  }

  /** What reading makes of a row whose field `i` is a vector without columns, when every
      vector before it comes back and every flattened field has its columns. */
  lemma EmptyNestedDiverges(c: Conv, s: Struct, row: Row, cols: seq<Column>, i: nat)
    requires Inverse(c) && Sound(s) && Arranged(c, s, row, cols)
    requires i < |s.fields| && s.fields[i].shape.Nested? && !s.fields[i].skipDe && ColumnNames(s.fields[i].shape.inner) == []
    requires forall j | 0 <= j < |s.fields| :: !Starved(s.fields[j])
    requires forall j | 0 <= j < i && s.fields[j].shape.Nested? :: !s.fields[j].skipDe ==> BackCell(s.fields[j], row[j]).Some?
    ensures Deser(c, s, cols) == Err(FromNothing(c, s.fields[i].shape.inner))
  {
    var m := ArrangedLists(c, s, row, cols);
    AllPresent(c, s, row, m);
    SoundKnown(s);
    var names := PullNames(s.fields);
    PullLists(names, cols, m, map[]);
    var (rest, pulled) := Pull(names, cols, map[]).value;
    KnownRest(s, rest, m);
    forall j | 0 <= j < |s.fields| ensures Alone(c, s, rest, j).Ok? {
      SharesFill(c, s, row, m, rest, pulled, j);
    }
    MatchSplits(c, s, rest);
    var slots := MatchAll(c, s, rest).value;
    forall j | 0 <= j < i ensures SlotValue(c, s.fields[j], slots[j]).Ok? {
      assert Alone(c, s, rest, j) == Ok(slots[j]);
      if s.fields[j].shape.Nested? && !s.fields[j].skipDe {
        BlockLists(c, s, row, m, j);
        FieldReads(c, s.fields[j], row[j], Part(s, m, j));
        FieldAgrees(c, s, j, rest, m);
      }
    }
    assert Alone(c, s, rest, i) == Ok(slots[i]);
    UnwrittenShare(c, s, row, m, rest, i);
    assert slots[i] == EMPTY_SLOT;
    RebuiltFromNothing(c, s.fields[i]);
    FirstErrorCounts(c, s.fields, slots, i);
    assert Deser(c, s, cols) == Finish(c, s, rest, pulled);
  }

  lemma RebuiltFromNothing(c: Conv, f: Field)
    requires f.shape.Nested? && !f.skipDe
    ensures SlotValue(c, f, EMPTY_SLOT) == Err(FromNothing(c, f.shape.inner))
  {
    var none: seq<(string, seq<Value>)> := [];
    assert EMPTY_SLOT.ext == none;
    assert Rebuild(c, f.shape.inner, none) == Err(FromNothing(c, f.shape.inner));
  }

  lemma KnownRest(s: Struct, rest: seq<Column>, m: map<string, Value>)
    requires Lists(rest, Without(m, PullNames(s.fields))) && forall k | k in m :: Known(s, k)
    ensures forall col | col in rest :: col.name !in PullNames(s.fields) && Arm(s.fields, col.name) < |s.fields|
  {
    forall col | col in rest
      ensures col.name !in PullNames(s.fields) && Arm(s.fields, col.name) < |s.fields|
    {
      assert col.name in Without(m, PullNames(s.fields)) && Known(s, col.name);
    }
  }

  lemma SharesFill(c: Conv, s: Struct, row: Row, m: map<string, Value>, rest: seq<Column>, pulled: map<string, Value>, j: nat)
    requires Inverse(c) && Sound(s) && Wrote(c, s, row, m) && Ready(s, rest, pulled, m) && j < |s.fields|
    requires Lists(rest, Without(m, PullNames(s.fields)))
    ensures Alone(c, s, rest, j).Ok?
  {
    if s.fields[j].shape.Flatten? {
      FlattenHasNoSlot(s, j, rest, pulled, m);
    } else {
      BlockLists(c, s, row, m, j);
      MineLists(s, rest, Without(m, PullNames(s.fields)), j);
      assert Part(s, m, j) == Part(s, Without(m, PullNames(s.fields)), j);
      FieldFills(c, s.fields[j], row[j], Mine(s, rest, j), Part(s, m, j));
    }
  }

  lemma UnwrittenShare(c: Conv, s: Struct, row: Row, m: map<string, Value>, rest: seq<Column>, i: nat)
    requires Sound(s) && Wrote(c, s, row, m) && i < |s.fields| && FieldNames(s.fields[i]) == []
    requires Lists(rest, Without(m, PullNames(s.fields)))
    ensures Mine(s, rest, i) == []
  {
    forall col | col in rest ensures !Belongs(s, i, col.name) {
      assert col.name in Without(m, PullNames(s.fields)) && col.name in m;
      if Belongs(s, i, col.name) { KeyOwner(c, s, row, m, i, col.name); }
    }
    NoShare(s, rest, i);
  }

  /** A vector of structs without fields is written as no column and never read back. */
  lemma EmptyVectorLost(c: Conv, name: string)
    ensures var unit := Struct([], false);
            var s := Struct([Field(name, Nested(unit), false, false, None)], false);
            && Ser(c, s, [Rows([[]])]) == Ok([])
            && Deser(c, s, []) == Err(Diverges)
  {
    var unit := Struct([], false);
    var f := Field(name, Nested(unit), false, false, None);
    var s := Struct([f], false);
    assert s.fields[1..] == [];
    EmptyNestedWritten(c, name, unit, f, s);
    assert PullNames(s.fields) == [] + PullNames([]) == [];
    assert Deser(c, unit, []) == Ok([]) by {
      assert PullNames([]) == [];
      assert seq(0, _ => EMPTY_SLOT) == [];
      assert Finish(c, unit, [], map[]) == Ok([]);
    }
    assert MatchAll(c, s, []) == Ok([EMPTY_SLOT]) by {
      assert seq(1, _ => EMPTY_SLOT) == [EMPTY_SLOT];
    }
    RebuiltFromNothing(c, f);
    FirstErrorCounts(c, s.fields, [EMPTY_SLOT], 0);
  }

  lemma EmptyNestedWritten(c: Conv, name: string, unit: Struct, f: Field, s: Struct)
    requires unit == Struct([], false) && f == Field(name, Nested(unit), false, false, None) && s == Struct([f], false)
    ensures Ser(c, s, [Rows([[]])]) == Ok([])
  {
    assert s.fields[1..] == [];
    assert Ser(c, unit, []) == Ok([]) by {
      assert SerBlocks(c, [], []) == Ok([]);
    }
    var rows: seq<Row> := [[]];
    assert rows[1..] == [] && ColumnNames(unit) == [];
    assert SerRows(c, unit, []) == Ok([]);
    var one: seq<seq<Column>> := [[]];
    assert one + [] == one && SerRows(c, unit, rows) == Ok(one);
    assert CountFields([]) == Some(0) && ColumnCount(unit) == Some(0);
    assert Transposed(Dotted(f), [], one) == [];
    assert SerField(c, f, Rows(rows)) == Ok([]);
    var row := [Rows(rows)];
    assert row[1..] == [];
    assert SerBlocks(c, [], []) == Ok([]);
    var blocks: seq<seq<Column>> := [[]];
    assert blocks[1..] == [] && blocks + [] == blocks;
    assert SerBlocks(c, s.fields, row) == Ok(blocks);
    assert Concat(blocks) == [];
  }

  /** A flattened field's columns must arrive even when the field is skipped: nothing
      writes them, and the pull misses them. */
  lemma SkippedFlattenLost(c: Conv, s: Struct, cols: seq<Column>, i: nat, n: string)
    requires DistinctNames(cols) && Sized(s.fields)
    requires i < |s.fields| && s.fields[i].shape.Flatten? && n in ColumnNames(s.fields[i].shape.inner)
    requires forall col | col in cols :: col.name != n
    ensures Deser(c, s, cols) == Err(MissingField)
  {
    var m := ToMap(cols);
    ToMapListed(cols);
    PulledBelongs(s.fields, i);
    PullLists(PullNames(s.fields), cols, m, map[]);
    PullFailsMissing(PullNames(s.fields), cols, map[]);
  }

  lemma {:induction false} PullFailsMissing(names: seq<string>, cols: seq<Column>, pulled: map<string, Value>)
    ensures Pull(names, cols, pulled).Err? ==> Pull(names, cols, pulled) == Err(MissingField)
    decreases names
  {
    if names != [] && FindName(cols, names[0]) < |cols| {
      var x := FindName(cols, names[0]);
      PullFailsMissing(names[1..], SwapRemove(cols, x), pulled[cols[x].name := cols[x].value]);
    }
  }

  /** No arrangement of the columns of a row reads when a skipped flattened field announces
      columns: nothing writes them, and the pull misses them. */
  lemma StarvedLost(c: Conv, s: Struct, row: Row, cols: seq<Column>, i: nat)
    requires Sound(s) && Arranged(c, s, row, cols) && i < |s.fields| && Starved(s.fields[i])
    ensures Deser(c, s, cols) == Err(MissingField)
  {
    var m := ArrangedLists(c, s, row, cols);
    forall j | 0 <= j < |s.fields| ensures SoundField(s.fields[j]) {}
    var n := ColumnNames(s.fields[i].shape.inner)[0];
    assert n in ColumnNames(s.fields[i].shape.inner) && n !in m;
    SkippedFlattenLost(c, s, cols, i, n);
  }

  /** A flat field without a default whose name goes to another arm, an earlier nested
      field's prefix or a flattened struct: no row, if every name is taken by some field. */
  lemma ShadowedFlatLost(c: Conv, s: Struct, cols: seq<Column>, m: map<string, Value>, i: nat)
    requires Lists(cols, m) && forall k | k in m :: Claimed(s, k)
    requires i < |s.fields| && s.fields[i].shape.Flat? && !s.fields[i].skipDe && s.fields[i].missing.None?
    requires !Belongs(s, i, s.fields[i].name)
    ensures Deser(c, s, cols).Err?
  {
    assert FillAll(c, s.fields[i], []) == Ok(EMPTY_SLOT);
    NothingNoRow(c, s, cols, m, i);
  }

  /** A flat field without a default, no column of which arrives. */
  ghost predicate Absent(s: Struct, m: map<string, Value>, i: nat)
    requires i < |s.fields|
  {
    && s.fields[i].shape.Flat? && !s.fields[i].skipDe && s.fields[i].missing.None?
    && forall k | k in m :: !Belongs(s, i, k)
  }

  /** A missing flat field is reported before any flattened struct is read, so whatever the
      columns of those hold, unless another field fails first. */
  lemma MissingReported(c: Conv, s: Struct, cols: seq<Column>, m: map<string, Value>, i: nat)
    requires Lists(cols, m) && AllKnown(s, m) && Sized(s.fields)
    requires Distinct(PullNames(s.fields)) && forall n | n in PullNames(s.fields) :: n in m
    requires i < |s.fields| && Absent(s, m, i)
    requires forall j | 0 <= j < |s.fields| && !s.fields[j].shape.Flatten? ::
               Absent(s, m, j) || s.fields[j].skipDe || RefField(c, s.fields[j], Part(s, m, j)).Some?
    ensures Deser(c, s, cols) == Err(MissingField)
  {
    var names := PullNames(s.fields);
    PullLists(names, cols, m, map[]);
    var (rest, pulled) := Pull(names, cols, map[]).value;
    KnownRest(s, rest, m);
    assert Ready(s, rest, pulled, m);
    MatchSplits(c, s, rest);
    forall j | 0 <= j < |s.fields|
      ensures Alone(c, s, rest, j).Ok? && SlotValue(c, s.fields[j], Alone(c, s, rest, j).value).Ok?
      ensures Absent(s, m, j) ==> SlotValue(c, s.fields[j], Alone(c, s, rest, j).value) == Ok(None)
    {
      SlotMade(c, s, m, rest, pulled, j);
    }
    var slots := MatchAll(c, s, rest).value;
    assert forall j | 0 <= j < |s.fields| :: Alone(c, s, rest, j) == Ok(slots[j]);
    RectifySplits(c, s.fields, slots);
    assert Lacks(s.fields[i], Rectify(c, s.fields, slots).value[i]);
    assert Deser(c, s, cols) == Finish(c, s, rest, pulled);
  }

  lemma SlotMade(c: Conv, s: Struct, m: map<string, Value>, rest: seq<Column>, pulled: map<string, Value>, j: nat)
    requires j < |s.fields| && AllKnown(s, m) && Ready(s, rest, pulled, m) && Lists(rest, Without(m, PullNames(s.fields)))
    requires s.fields[j].shape.Flatten? || Absent(s, m, j) || s.fields[j].skipDe
             || RefField(c, s.fields[j], Part(s, m, j)).Some?
    ensures Alone(c, s, rest, j).Ok? && SlotValue(c, s.fields[j], Alone(c, s, rest, j).value).Ok?
    ensures Absent(s, m, j) ==> SlotValue(c, s.fields[j], Alone(c, s, rest, j).value) == Ok(None)
  {
    var f := s.fields[j];
    assert FillAll(c, f, []) == Ok(EMPTY_SLOT);
    if f.shape.Flatten? {
      FlattenHasNoSlot(s, j, rest, pulled, m);
    } else if Absent(s, m, j) || f.skipDe {
      forall col | col in rest ensures !Belongs(s, j, col.name) {
        assert col.name in Without(m, PullNames(s.fields));
      }
      NoShare(s, rest, j);
    } else {
      FieldAgrees(c, s, j, rest, m);
    }
  }

  /** Whatever a struct writes, some field takes, if what is skipped is skipped both ways. */
  lemma WrittenClaimed(s: Struct, n: string)
    requires n in ColumnNames(s) && forall f | f in s.fields :: f.skipSer == f.skipDe
    ensures Claimed(s, n)
  {
    var i := Owner(s, n);
    var f := s.fields[i];
    assert f in s.fields;
    if f.shape.Flatten? {
      PulledBelongs(s.fields, i);
    } else {
      assert Takes(f, n);
    }
  }

  /** So a row with such a field is lost, however its columns are arranged. */
  lemma ShadowedRowLost(c: Conv, s: Struct, row: Row, cols: seq<Column>, i: nat)
    requires Arranged(c, s, row, cols) && Distinct(ColumnNames(s))
    requires forall f | f in s.fields :: f.skipSer == f.skipDe
    requires i < |s.fields| && s.fields[i].shape.Flat? && !s.fields[i].skipDe && s.fields[i].missing.None?
    requires !Belongs(s, i, s.fields[i].name)
    ensures Deser(c, s, cols).Err?
  {
    var m := ArrangedLists(c, s, row, cols);
    forall k | k in m ensures Claimed(s, k) { WrittenClaimed(s, k); }
    ShadowedFlatLost(c, s, cols, m, i);
  }

  /** A column of another name can still reach such a field by position. */
  lemma ShadowedByPosition(c: Conv, v: Value)
    requires c.from(0, v).Some?
    ensures var flat := (name: string) => Field(name, Flat(0), false, false, None);
            var inner := Struct([flat("a")], false);
            var s := Struct([Field("x", Nested(inner), false, false, None), flat("x.b")], false);
            && !Belongs(s, 1, "x.b")
            && Deser(c, s, [Column("x.a", Array([])), Column("q", v)]) == Ok([Rows([]), Leaf(c.from(0, v).value)])
  {
    var fa, fb := Field("a", Flat(0), false, false, None), Field("x.b", Flat(0), false, false, None);
    var inner := Struct([fa], false);
    var fx := Field("x", Nested(inner), false, false, None);
    var s := Struct([fx, fb], false);
    var cols := [Column("x.a", Array([])), Column("q", v)];
    assert [fx, fb][1..] == [fb] && [fb][1..] == [] && [fa][1..] == [];
    assert PullNames([]) == [] && PullNames([fb]) == [] && PullNames([fx, fb]) == [];
    assert CountFields([]) == Some(0) && CountFields([fa]) == Some(1) && ColumnCount(inner) == Some(1);
    assert Dotted(fx) == "x." && StartsWith("x.a", "x.") && StartsWith("x.b", "x.") && !StartsWith("q", "x.");
    assert Takes(fx, "x.a") && Takes(fx, "x.b") && !Takes(fx, "q") && !Takes(fb, "q");
    assert Arm([fb], "q") == 1 && Arm(s.fields, "q") == 2 && Arm(s.fields, "x.a") == 0 && Arm(s.fields, "x.b") == 0;
    PositionSlots(c, s, fx, fb, inner, cols, v);
    PositionRowBuilt(c, s, fx, fb, inner, c.from(0, v).value);
    assert Sized(s.fields);
    assert Deser(c, s, cols) == Finish(c, s, cols, map[]);
  }

  lemma PositionSlots(c: Conv, s: Struct, fx: Field, fb: Field, inner: Struct, cols: seq<Column>, v: Value)
    requires s == Struct([fx, fb], false) && fb.shape == Flat(0) && c.from(0, v).Some?
    requires fx == Field("x", Nested(inner), false, false, None) && ColumnCount(inner) == Some(1) && !fb.skipDe
    requires cols == [Column("x.a", Array([])), Column("q", v)]
    requires Arm(s.fields, "x.a") == 0 && Arm(s.fields, "q") == 2
    ensures MatchAll(c, s, cols) == Ok([Slot(None, [("a", [])]), Slot(Some(c.from(0, v).value), [])])
  {
    var none: seq<Value> := [];
    var start, middle := [EMPTY_SLOT, EMPTY_SLOT], [Slot(None, [("a", none)]), EMPTY_SLOT];
    assert [fx, fb][1..] == [fb];
    assert Width(fx) == 1 && Width(fb) == 1 && IndexArm([fb], 0) == 0 && IndexArm(s.fields, 1) == 1;
    assert seq(2, _ => EMPTY_SLOT) == start && MatchAll(c, s, []) == Ok(start);
    assert InnerName(fx, "x.a") == "a" by { assert "x.a"[2..] == "a" && Dotted(fx) == "x." && StartsWith("x.a", "x."); }
    assert EMPTY_SLOT.ext + [("a", none)] == [("a", none)];
    assert Fill(c, fx, EMPTY_SLOT, Column("a", Array(none))) == Ok(middle[0]);
    assert start[0 := middle[0]] == middle;
    assert MatchOne(c, s, start, 0, cols[0]) == Ok(middle);
    assert cols[..1] == [cols[0]] && cols[..1][..0] == [];
    assert MatchAll(c, s, cols[..1]) == Ok(middle);
    assert !HasFlatten(s);
    assert Fill(c, fb, EMPTY_SLOT, cols[1]) == Ok(Slot(Some(c.from(0, v).value), []));
    assert middle[1 := Slot(Some(c.from(0, v).value), [])] == [middle[0], Slot(Some(c.from(0, v).value), [])];
    assert MatchOne(c, s, middle, 1, cols[1]) == Ok([middle[0], Slot(Some(c.from(0, v).value), [])]);
  }

  lemma PositionRowBuilt(c: Conv, s: Struct, fx: Field, fb: Field, inner: Struct, x: int)
    requires s == Struct([fx, fb], false) && fb.shape == Flat(0) && !fb.skipDe && fx.shape == Nested(inner) && !fx.skipDe
    ensures var slots := [Slot(None, [("a", [])]), Slot(Some(x), [])];
            && Rectify(c, s.fields, slots) == Ok([Some(Rows([])), Some(Leaf(x))])
            && Build(c, s.fields, [Some(Rows([])), Some(Leaf(x))], map[]) == Ok([Rows([]), Leaf(x)])
  {
    var none: seq<Value> := [];
    var first, second := Slot(None, [("a", none)]), Slot(Some(x), []);
    assert [fx, fb][1..] == [fb] && [fb][1..] == [] && [first, second][1..] == [second] && [second][1..] == [];
    assert first.ext[0].1 == none && !HasRow(first.ext, 0);
    assert Rebuild(c, inner, first.ext) == Ok([]);
    var rows: seq<Row> := [];
    assert SlotValue(c, fx, first) == Ok(Some(Rows(rows)));
    assert Rectify(c, [], []) == Ok([]) && [Some(Leaf(x))] + [] == [Some(Leaf(x))];
    assert Rectify(c, [fb], [second]) == Ok([Some(Leaf(x))]);
    assert [Some(Rows(rows))] + [Some(Leaf(x))] == [Some(Rows(rows)), Some(Leaf(x))];
    var vs := [Some(Rows(rows)), Some(Leaf(x))];
    assert vs[1..] == [Some(Leaf(x))] && vs[1..][1..] == [];
    assert Build(c, [], [], map[]) == Ok([]) && [Leaf(x)] + [] == [Leaf(x)] && [Rows(rows)] + [Leaf(x)] == [Rows(rows), Leaf(x)];
    assert Build(c, [fb], [Some(Leaf(x))], map[]) == Ok([Leaf(x)]);
  }
}
