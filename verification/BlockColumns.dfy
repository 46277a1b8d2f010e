/** Blocks whose columns are laid out as `Columns` lays them out: numbers, identifiers and
    texts, nullable or not. */
module BlockColumns {
  import opened Common
  import opened Wire
  import opened ArrowTypes
  import opened TypeBuilder
  import opened Block
  import opened BlockLaws
  import B = Batches
  import K = Columns
  import L = ColumnLaws

  // ---------------------------------------------------------------------------
  // The codec
  // ---------------------------------------------------------------------------

  /** The layout of a scalar; none for the scalars that are cast on the way. */
  function LayoutOfScalar(s: Scalar): Option<K.ColType> {
    match s
    case Int8 => Some(K.Fixed(K.Plain(1)))
    case UInt8 => Some(K.Fixed(K.Plain(1)))
    case Int16 => Some(K.Fixed(K.Plain(2)))
    case UInt16 => Some(K.Fixed(K.Plain(2)))
    case Int32 => Some(K.Fixed(K.Int32))
    case UInt32 => Some(K.Fixed(K.Plain(4)))
    case Float32 => Some(K.Fixed(K.Plain(4)))
    case Int64 => Some(K.Fixed(K.Plain(8)))
    case UInt64 => Some(K.Fixed(K.Plain(8)))
    case Float64 => Some(K.Fixed(K.Plain(8)))
    case Int256 => Some(K.Fixed(K.Int256))
    case UInt256 => Some(K.Fixed(K.Int256))
    case Uuid => Some(K.Fixed(K.Uuid))
    case Ipv4 => Some(K.Fixed(K.Ipv4))
    case String => Some(K.Text)
    case Binary => Some(K.Text)
    case _ => None
  }

  function Layout(t: Type): Option<K.ColType> {
    match t
    case Simple(s) => LayoutOfScalar(s)
    case Nullable(x) =>
      if x.Simple? && LayoutOfScalar(x.scalar).Some? then Some(K.ColType.Nullable(LayoutOfScalar(x.scalar).value)) else None
    case _ => None
  }

  /** The array of such a column. */
  function ArrayOf(ct: K.ColType, cells: Cells): B.Arr {
    B.Leaf(K.Kind(if ct.Nullable? then ct.inner else ct), cells)
  }

  function EncodeCells(t: Type, cells: Cells): Option<seq<byte>> {
    match Layout(t)
    case None => None
    case Some(ct) => if K.Shaped(ct, ArrayOf(ct, cells)) then K.Encode(ct, ArrayOf(ct, cells)) else None
  }

  /** Appends to what the builder holds; a read that fails leaves no more in it than it had. */
  function DecodeCells(hint: Type, leftover: Cells, rows: nat, bytes: seq<byte>): Decoded {
    match Layout(hint)
    case None => Failed(leftover)
    case Some(ct) =>
      match K.Decode(ct, rows, [], bytes)
      case None => Failed(leftover)
      case Some((a, rest)) => if a.Leaf? then Done(leftover + a.cells, rest) else Failed(leftover)
  }

  function Concrete(show: Type -> seq<byte>, parse: seq<byte> -> Option<Type>): Codec {
    Codec(show, parse,
          (t: Type, cells: Cells) => EncodeCells(t, cells),
          (hint: Type, b: Builder, leftover: Cells, rows: nat, bytes: seq<byte>) => DecodeCells(hint, leftover, rows, bytes))
  }

  // ---------------------------------------------------------------------------
  // One column
  // ---------------------------------------------------------------------------

  /** Printing, arriving and normalising do not change the layout. */
  lemma SameLayout(env: Env, t: Type)
    requires Layout(t).Some? && ToArrow(env, Printed(t)).Ok?
    ensures Layout(ArrivingHint(env, t)) == Layout(t)
  {
    var s := StripNull(t).scalar;
    var p := StripNull(Printed(t)).scalar;
    assert LayoutOfScalar(p) == LayoutOfScalar(s);
    assert Printed(t) == if t.Nullable? then Type.Nullable(Simple(p)) else Simple(p);
    SameScalarLayout(env, p);
  }

  lemma SameScalarLayout(env: Env, p: Scalar)
    requires LayoutOfScalar(p).Some? && ScalarToArrow(env, p).Some?
    ensures var n := NormalizeScalar(p, ScalarToArrow(env, p).value);
            n.Some? ==> LayoutOfScalar(n.value) == LayoutOfScalar(p)
  {
  }

  lemma DecodesLeaf(ct: K.ColType, rows: nat, mask: seq<byte>, bytes: seq<byte>)
    requires ct.Fixed? || ct.Text? || (ct.Nullable? && (ct.inner.Fixed? || ct.inner.Text?))
    requires mask == [] || |mask| == rows
    ensures K.Decode(ct, rows, mask, bytes).Some? ==>
              var a := K.Decode(ct, rows, mask, bytes).value.0; a.Leaf? && a == ArrayOf(ct, a.cells)
  {
  }

  /** What the codec makes of a written column. */
  lemma CellsDecodeIff(env: Env, t: Type, cells: Cells, rest: seq<byte>)
    requires Layout(t).Some? && ToArrow(env, Printed(t)).Ok? && EncodeCells(t, cells).Some?
    ensures var ct := Layout(t).value;
            && K.Shaped(ct, ArrayOf(ct, cells))
            && (DecodeCells(ArrivingHint(env, t), [], |cells|, EncodeCells(t, cells).value + rest) == Done(cells, rest)
                <==> L.Returns(ct, false, ArrayOf(ct, cells)))
  {
    var ct := Layout(t).value;
    var bytes := EncodeCells(t, cells).value + rest;
    SameLayout(env, t);
    L.ColumnReturnsIff(ct, ArrayOf(ct, cells), rest);
    DecodesLeaf(ct, |cells|, [], bytes);
    if K.Decode(ct, |cells|, [], bytes).Some? {
      var a := K.Decode(ct, |cells|, [], bytes).value.0;
      assert [] + a.cells == a.cells;
    }
  }

  /** A column of the concrete layout comes back in a block if and only if it does on its own. */
  lemma ConcreteReturnsIff(show: Type -> seq<byte>, parse: seq<byte> -> Option<Type>, env: Env, t: Type, cells: Cells)
    requires Layout(t).Some? && EncodeCells(t, cells).Some? && BuilderFor(env, t).Some?
    ensures var ct := Layout(t).value;
            && K.Shaped(ct, ArrayOf(ct, cells))
            && (Returns(Concrete(show, parse), env, t, cells) <==> L.Returns(ct, false, ArrayOf(ct, cells)))
  {
    var c := Concrete(show, parse);
    var ct := Layout(t).value;
    CellsDecodeIff(env, t, cells, []);
    if L.Returns(ct, false, ArrayOf(ct, cells)) {
      forall rest
        ensures c.decode(ArrivingHint(env, t), BuilderFor(env, t).value.builder, [], |cells|, c.encode(t, cells).value + rest)
             == Done(cells, rest)
      {
        CellsDecodeIff(env, t, cells, rest);
      }
    }
    if Returns(c, env, t, cells) {
      var none: seq<byte> := [];
      assert c.decode(ArrivingHint(env, t), BuilderFor(env, t).value.builder, [], |cells|, c.encode(t, cells).value + none)
          == Done(cells, none);
    }
  }

  // ---------------------------------------------------------------------------
  // Blocks
  // ---------------------------------------------------------------------------

  /** A column that can be sent in this layout, whether or not it comes back. */
  ghost predicate Laid(c: Codec, env: Env, header: seq<(seq<byte>, Type)>, f: ColumnField, t: Type, col: Column) {
    && SentType(env, header, f) == Some(t)
    && |f.name| <= MAX_STRING && |c.show(t)| <= MAX_STRING && c.parse(c.show(t)) == Some(Printed(t))
    && Buildable(Printed(t)) && !Strict(env)
    && ToArrow(env, Printed(t)).Ok?
    && (ToArrow(env, Printed(t)).value.1 || None !in col.cells)
    && Layout(t).Some? && EncodeCells(t, col.cells).Some?
  }

  /** The values of the column come back from their bytes. */
  predicate Survives(t: Type, cells: Cells) {
    Layout(t).Some? && K.Shaped(Layout(t).value, ArrayOf(Layout(t).value, cells))
    && L.Returns(Layout(t).value, false, ArrayOf(Layout(t).value, cells))
  }

  lemma LaidSendable(show: Type -> seq<byte>, parse: seq<byte> -> Option<Type>, env: Env, header: seq<(seq<byte>, Type)>,
      f: ColumnField, t: Type, col: Column)
    requires Laid(Concrete(show, parse), env, header, f, t, col)
    ensures Arrives(env, t)
    ensures Sendable(Concrete(show, parse), env, f, t, col) <==> col.cells == [] || Survives(t, col.cells)
  {
    assert !MapHasString(Printed(t));
    BuilderMade(env, t);
    ConcreteReturnsIff(show, parse, env, t, col.cells);
  }

  /** A block of such columns, each of which survives or has no rows, reads back as the batch
      sent. */
  lemma ConcreteBlockRoundTrip(show: Type -> seq<byte>, parse: seq<byte> -> Option<Type>, env: Env, revision: nat,
      header: seq<(seq<byte>, Type)>, types: seq<Type>, batch: Batch, rest: seq<byte>)
    requires revision > 0 && |batch.fields| == |batch.columns| == |types|
    requires |batch.fields| < TWO63 && batch.rows < TWO63 && (batch.fields == [] ==> batch.rows == 0)
    requires forall i | 0 <= i < |types| ::
               && Laid(Concrete(show, parse), env, header, batch.fields[i], types[i], batch.columns[i])
               && |batch.columns[i].cells| == batch.rows
               && (batch.rows > 0 ==> Survives(types[i], batch.columns[i].cells))
    requires WriteBlock(Concrete(show, parse), env, revision, header, batch).Some?
    ensures AllArrive(env, types)
    ensures ReadBlock(Concrete(show, parse), env, revision, FRESH,
                      WriteBlock(Concrete(show, parse), env, revision, header, batch).value + rest).0
         == Ok((Arrived(env, types, batch), rest))
  {
    var c := Concrete(show, parse);
    forall i | 0 <= i < |types|
      ensures Sendable(c, env, batch.fields[i], types[i], batch.columns[i]) && Arrives(env, types[i])
    {
      LaidSendable(show, parse, env, header, batch.fields[i], types[i], batch.columns[i]);
    }
    BlockRoundTrip(c, env, revision, header, types, batch, rest);
  }

  // ---------------------------------------------------------------------------
  // Blocks that do not come back
  // ---------------------------------------------------------------------------

  /** Whatever the values become, reading a column leaves the bytes behind it. */
  lemma {:induction false} FixedRest(form: K.Form, cells: Cells, mask: seq<byte>, i: nat, rest: seq<byte>)
    requires i <= |cells| && (mask == [] || |mask| == |cells|)
    requires forall k | 0 <= k < |cells| :: K.FitsForm(form, cells[k])
    requires K.PutCells(form, cells[i..]).Some?
    ensures var read := K.GetCells(form, |cells|, mask, i, K.PutCells(form, cells[i..]).value + rest);
            read.Some? ==> read.value.1 == rest
    decreases |cells| - i
  {
    if i == |cells| {
      assert cells[i..] == [] && [] + rest == rest;
    } else {
      assert cells[i..][0] == cells[i] && cells[i..][1..] == cells[i + 1..];
      var raw, more := K.PutCell(form, cells[i]).value, K.PutCells(form, cells[i + 1..]).value + rest;
      ConcatAssoc(raw, K.PutCells(form, cells[i + 1..]).value, rest);
      assert (raw + more)[K.Width(form)..] == more;
      FixedRest(form, cells, mask, i + 1, rest);
    }
  }

  lemma {:induction false} TextsRest(cells: Cells, mask: seq<byte>, i: nat, rest: seq<byte>)
    requires i <= |cells| && (mask == [] || |mask| == |cells|)
    requires forall k | 0 <= k < |cells| :: cells[k].Some? ==> |cells[k].value| <= MAX_STRING
    ensures var read := K.GetTexts(|cells|, mask, i, K.PutTexts(cells[i..]) + rest);
            read.Some? ==> read.value.1 == rest
    decreases |cells| - i
  {
    if i == |cells| {
      assert cells[i..] == [] && [] + rest == rest;
    } else {
      assert cells[i..][0] == cells[i] && cells[i..][1..] == cells[i + 1..];
      var more := K.PutTexts(cells[i + 1..]) + rest;
      ConcatAssoc(StringBytes(K.TextOf(cells[i])), K.PutTexts(cells[i + 1..]), rest);
      StringRoundTripIff(K.TextOf(cells[i]), more);
      TextsRest(cells, mask, i + 1, rest);
    }
  }

  lemma LeafRest(ct: K.ColType, cells: Cells, mask: seq<byte>, rest: seq<byte>)
    requires ct.Fixed? || ct.Text?
    requires mask == [] || |mask| == |cells|
    requires K.Shaped(ct, ArrayOf(ct, cells)) && K.Encode(ct, ArrayOf(ct, cells)).Some?
    ensures var read := K.Decode(ct, |cells|, mask, K.Encode(ct, ArrayOf(ct, cells)).value + rest);
            read.Some? ==> read.value.1 == rest
  {
    assert cells[0..] == cells;
    if ct.Fixed? { FixedRest(ct.form, cells, mask, 0, rest); } else { TextsRest(cells, mask, 0, rest); }
  }

  lemma LayoutRest(t: Type, hint: Type, cells: Cells, rest: seq<byte>)
    requires Layout(t).Some? && Layout(hint) == Layout(t) && EncodeCells(t, cells).Some?
    ensures var d := DecodeCells(hint, [], |cells|, EncodeCells(t, cells).value + rest);
            d.Done? ==> d.rest == rest
  {
    var ct := Layout(t).value;
    if ct.Nullable? {
      var a, bytes := ArrayOf(ct, cells), K.Encode(ct.inner, ArrayOf(ct, cells)).value;
      assert ArrayOf(ct.inner, cells) == a && |K.Mask(a)| == |cells|;
      ConcatAssoc(K.Mask(a), bytes, rest);
      var whole := K.Mask(a) + (bytes + rest);
      assert whole[..|cells|] == K.Mask(a) && whole[|cells|..] == bytes + rest;
      LeafRest(ct.inner, cells, if cells == [] then [] else K.Mask(a), rest);
      if cells == [] { assert whole == bytes + rest; }
    } else {
      LeafRest(ct, cells, [], rest);
    }
  }

  /** If the column does not survive, reading it fails or gives other values. */
  lemma ColumnLost(show: Type -> seq<byte>, parse: seq<byte> -> Option<Type>, env: Env, revision: nat,
      header: seq<(seq<byte>, Type)>, f: ColumnField, t: Type, col: Column, st: ReadState, tail: seq<byte>)
    requires Laid(Concrete(show, parse), env, header, f, t, col) && col.cells != [] && !Survives(t, col.cells)
    requires WriteColumn(Concrete(show, parse), env, revision, header, f, col).Some?
    ensures var (r, st') := ReadColumn(Concrete(show, parse), env, revision, |col.cells|, |st.builders|, st,
                                       WriteColumn(Concrete(show, parse), env, revision, header, f, col).value + tail);
            r.Ok? ==> exists other: Column :: other.cells != col.cells && st'.columns == st.columns + [other]
  {
    var c := Concrete(show, parse);
    var head := StringBytes(f.name) + (StringBytes(c.show(t)) + CustomByte(revision));
    var body := c.encode(t, col.cells).value;
    ConcatAssoc(head, body, tail);
    HeadReadsBack(c, env, revision, f, t, body + tail);
    SameLayout(env, t);
    assert !MapHasString(Printed(t));
    BuilderMade(env, t);
    LayoutRest(t, ArrivingHint(env, t), col.cells, tail);
    CellsDecodeIff(env, t, col.cells, tail);
    var grown := st.builders + [BuilderFor(env, t).value];
    assert EnsureBuilder(st.builders, |st.builders|, ArrivingHint(env, t), Arriving(env, t)) == Ok(grown);
    match c.decode(ArrivingHint(env, t), grown[|st.builders|].builder, [], |col.cells|, body + tail)
    case Failed(_) =>
    case Done(cells, rest) =>
      assert cells != col.cells;
  }

  /** The first column that does not survive, if there is one. */
  lemma {:induction false} FirstLost(types: seq<Type>, columns: seq<Column>, n: nat) returns (j: nat)
    requires n <= |types| == |columns|
    ensures j <= n && (forall i | 0 <= i < j :: Survives(types[i], columns[i].cells))
    ensures j < n ==> !Survives(types[j], columns[j].cells)
  {
    if n == 0 {
      j := 0;
    } else {
      j := FirstLost(types, columns, n - 1);
      if j == n - 1 && Survives(types[j], columns[j].cells) { j := n; }
    }
  }

  ghost predicate AllLaid(c: Codec, env: Env, header: seq<(seq<byte>, Type)>, types: seq<Type>, batch: Batch) {
    && |batch.fields| == |batch.columns| == |types|
    && |batch.fields| < TWO63 && batch.rows < TWO63 && batch.fields != []
    && forall i | 0 <= i < |types| ::
         Laid(c, env, header, batch.fields[i], types[i], batch.columns[i]) && |batch.columns[i].cells| == batch.rows
  }

  lemma LaidArrive(c: Codec, env: Env, header: seq<(seq<byte>, Type)>, types: seq<Type>, batch: Batch)
    requires AllLaid(c, env, header, types, batch)
    ensures AllArrive(env, types)
  {
    forall i | 0 <= i < |types| ensures Arrives(env, types[i]) {
      assert Laid(c, env, header, batch.fields[i], types[i], batch.columns[i]);
      assert !MapHasString(Printed(types[i]));
      BuilderMade(env, types[i]);
    }
  }

  /** Reading up to the first column that is lost. */
  lemma ReadUpTo(show: Type -> seq<byte>, parse: seq<byte> -> Option<Type>, env: Env, revision: nat,
      header: seq<(seq<byte>, Type)>, types: seq<Type>, batch: Batch, pieces: seq<seq<byte>>, j: nat, tail: seq<byte>)
    requires AllLaid(Concrete(show, parse), env, header, types, batch) && AllArrive(env, types) && batch.rows > 0
    requires j <= |pieces| == |types| && forall i | 0 <= i < j :: Survives(types[i], batch.columns[i].cells)
    requires forall i | 0 <= i < |pieces| ::
               WriteColumn(Concrete(show, parse), env, revision, header, batch.fields[i], batch.columns[i]) == Some(pieces[i])
    ensures var read := ColumnReader(Concrete(show, parse), env, revision, batch.rows);
            ReadColumns(read, 0, |types|, FRESH, Concat(pieces[..j]) + tail)
            == ReadColumns(read, j, |types|, CutState(env, types, batch, j), tail)
  {
    var c := Concrete(show, parse);
    var read, gains := ColumnReader(c, env, revision, batch.rows), GainsFor(env, batch.fields, batch.columns, types);
    forall i | 0 <= i < j ensures ReadsAs(read, 0 + i, gains[..j][i], batch.rows, pieces[..j][i]) {
      LaidSendable(show, parse, env, header, batch.fields[i], types[i], batch.columns[i]);
      forall st: ReadState, more | batch.rows > 0 ==> |st.builders| == i
        ensures read(i, st, pieces[i] + more) == (Ok(more), Gain(gains[i], batch.rows, st))
      {
        PieceRead(c, env, revision, header, batch.fields[i], batch.columns[i], types[i], batch.rows, i, st, pieces[i], more);
      }
    }
    PiecesRead(read, 0, |types|, gains[..j], batch.rows, pieces[..j], FRESH, tail);
    CutGains(env, batch.fields, batch.columns, types, batch.rows, j);
  }

  lemma LostColumnsFail(show: Type -> seq<byte>, parse: seq<byte> -> Option<Type>, env: Env, revision: nat,
      header: seq<(seq<byte>, Type)>, types: seq<Type>, batch: Batch, pieces: seq<seq<byte>>, j: nat, rest: seq<byte>)
    requires AllLaid(Concrete(show, parse), env, header, types, batch) && AllArrive(env, types) && batch.rows > 0
    requires j < |pieces| == |types| && forall i | 0 <= i < j :: Survives(types[i], batch.columns[i].cells)
    requires !Survives(types[j], batch.columns[j].cells)
    requires forall i | 0 <= i < |pieces| ::
               WriteColumn(Concrete(show, parse), env, revision, header, batch.fields[i], batch.columns[i]) == Some(pieces[i])
    ensures var (r, st) := ReadColumns(ColumnReader(Concrete(show, parse), env, revision, batch.rows), 0, |types|, FRESH,
                                       Concat(pieces) + rest);
            r.Ok? ==> |st.columns| > j && st.columns[j].cells != batch.columns[j].cells
  {
    var c := Concrete(show, parse);
    var read, st := ColumnReader(c, env, revision, batch.rows), CutState(env, types, batch, j);
    var tail := Concat(pieces[j + 1..]) + rest;
    CutAt(pieces, j, rest);
    ReadUpTo(show, parse, env, revision, header, types, batch, pieces, j, pieces[j] + tail);
    assert Laid(c, env, header, batch.fields[j], types[j], batch.columns[j]);
    ColumnLost(show, parse, env, revision, header, batch.fields[j], types[j], batch.columns[j], st, tail);
    var (r, st') := read(j, st, pieces[j] + tail);
    if r.Ok? {
      var other: Column :| other.cells != batch.columns[j].cells && st'.columns == st.columns + [other];
      ColumnAppends(c, env, revision, batch.rows);
      ColumnsAppend(read, j + 1, |types|, st', r.value);
      assert st'.columns[j] == other;
    }
  }

  lemma CutAt(pieces: seq<seq<byte>>, j: nat, rest: seq<byte>)
    requires j < |pieces|
    ensures Concat(pieces) + rest == Concat(pieces[..j]) + (pieces[j] + (Concat(pieces[j + 1..]) + rest))
  {
    ConcatAppend(pieces[..j], pieces[j..]);
    assert pieces[..j] + pieces[j..] == pieces && pieces[j..][0] == pieces[j] && pieces[j..][1..] == pieces[j + 1..];
    ConcatAssoc(Concat(pieces[..j]), Concat(pieces[j..]), rest);
    ConcatAssoc(pieces[j], Concat(pieces[j + 1..]), rest);
  }

  /** A block of such columns with rows reads back as the batch sent, and leaves the bytes
      behind it, if and only if the values of every column come back from their bytes. */
  lemma ConcreteBlockIff(show: Type -> seq<byte>, parse: seq<byte> -> Option<Type>, env: Env, revision: nat,
      header: seq<(seq<byte>, Type)>, types: seq<Type>, batch: Batch, rest: seq<byte>)
    requires revision > 0 && batch.rows > 0 && AllLaid(Concrete(show, parse), env, header, types, batch)
    requires WriteBlock(Concrete(show, parse), env, revision, header, batch).Some?
    ensures AllArrive(env, types)
    ensures ReadBlock(Concrete(show, parse), env, revision, FRESH,
                      WriteBlock(Concrete(show, parse), env, revision, header, batch).value + rest).0
         == Ok((Arrived(env, types, batch), rest))
       <==> forall i | 0 <= i < |types| :: Survives(types[i], batch.columns[i].cells)
  {
    var c := Concrete(show, parse);
    LaidArrive(c, env, header, types, batch);
    var j := FirstLost(types, batch.columns, |types|);
    if j == |types| {
      ConcreteBlockRoundTrip(show, parse, env, revision, header, types, batch, rest);
    } else {
      var pieces := BlockPieces(c, env, revision, header, batch);
      LostColumnsFail(show, parse, env, revision, header, types, batch, pieces, j, rest);
      BatchDiffers(c, env, revision, types, batch, Concat(pieces), rest, j);
    }
  }

  lemma BatchDiffers(c: Codec, env: Env, revision: nat, types: seq<Type>, batch: Batch, body: seq<byte>, rest: seq<byte>, j: nat)
    requires |batch.fields| == |batch.columns| == |types| && AllArrive(env, types) && j < |types|
    requires |batch.fields| < TWO63 && 0 < batch.rows < TWO63
    requires var (r, st) := ReadColumns(ColumnReader(c, env, revision, batch.rows), 0, |types|, FRESH, body + rest);
             r.Ok? ==> |st.columns| > j && st.columns[j].cells != batch.columns[j].cells
    ensures ReadBlock(c, env, revision, FRESH, (InfoBytes(DEFAULT_INFO) + (Counts(batch) + body)) + rest).0
         != Ok((Arrived(env, types, batch), rest))
  {
    ConcatAssoc(InfoBytes(DEFAULT_INFO), Counts(batch) + body, rest);
    ConcatAssoc(Counts(batch), body, rest);
    InfoReadsBack(DEFAULT_INFO, DEFAULT_INFO, Counts(batch) + (body + rest));
    CountsReadBack(batch, body + rest);
    assert Arrived(env, types, batch).columns[j].cells == batch.columns[j].cells;
  }
}
