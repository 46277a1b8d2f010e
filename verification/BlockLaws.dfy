/** Laws of blocks.

    Written blocks read back. A reader that keeps its builders from block to block reads
    what a new reader for every block would read: for any bytes, as long as the builders
    it keeps are those the block needs. */
module BlockLaws {
  import opened Common
  import opened Wire
  import opened ArrowTypes
  import opened TypeTrip
  import opened TypeBuilder
  import opened Block

  // ---------------------------------------------------------------------------
  // Block info and counts
  // ---------------------------------------------------------------------------

  /** Whatever was written as the overflow flag, it reads back as set: unset is written 2. */
  lemma InfoReadsBack(start: Info, info: Info, rest: seq<byte>)
    requires -0x8000_0000 <= info.bucket < 0x8000_0000
    ensures ReadInfo(start, InfoBytes(info) + rest) == Ok((Info(true, info.bucket), rest))
  {
    var flag: byte := if info.isOverflows then 1 else 2;
    var le := LE(AsU32(info.bucket), 4);
    BucketReadsBack(info.bucket);
    InfoSplits(flag, le, rest);
    FirstField(start, flag, Varint(2) + (le + (Varint(0) + rest)));
    LastField(start.(isOverflows := true), info.bucket, le, rest);
  }

  lemma BucketReadsBack(n: int)
    requires -0x8000_0000 <= n < 0x8000_0000
    ensures AsI32(FromLE(LE(AsU32(n), 4))) == n
  {
    var m := if n < 0 then n + 0x1_0000_0000 else n;
    UnsignedOf(n, m);
    LERoundTrip(m, 4);
    Pow256Values();
    DivModUnique(m, 0x1_0000_0000, 0, m);
  }

  lemma UnsignedOf(n: int, m: nat)
    requires -0x8000_0000 <= n < 0x8000_0000 && m == if n < 0 then n + 0x1_0000_0000 else n
    ensures AsU32(n) == m < 0x1_0000_0000
  {
  }

  lemma InfoSplits(flag: byte, le: seq<byte>, rest: seq<byte>)
    ensures Varint(1) + ([flag] + (Varint(2) + (le + Varint(0)))) + rest
         == Varint(1) + ([flag] + (Varint(2) + (le + (Varint(0) + rest))))
  {
  }

  lemma FirstField(start: Info, flag: byte, tail: seq<byte>)
    ensures ReadInfo(start, Varint(1) + ([flag] + tail)) == ReadInfo(start.(isOverflows := flag != 0), tail)
  {
    VarintRoundTripIff(1, [flag] + tail);
    assert ([flag] + tail)[1..] == tail;
  }

  lemma LastField(start: Info, bucket: int, le: seq<byte>, rest: seq<byte>)
    requires |le| == 4 && AsI32(FromLE(le)) == bucket
    ensures ReadInfo(start, Varint(2) + (le + (Varint(0) + rest))) == Ok((start.(bucket := bucket), rest))
  {
    var after := le + (Varint(0) + rest);
    assert after[..4] == le && after[4..] == Varint(0) + rest;
    VarintRoundTripIff(2, after);
    VarintRoundTripIff(0, rest);
  }

  lemma CountsReadBack(batch: Batch, rest: seq<byte>)
    requires |batch.fields| < TWO63 && batch.rows < TWO63
    ensures ReadCounts(Counts(batch) + rest) == Ok((|batch.fields|, batch.rows, rest))
  {
    ConcatAssoc(Varint(|batch.fields|), Varint(batch.rows), rest);
    VarintRoundTripIff(|batch.fields|, Varint(batch.rows) + rest);
    VarintRoundTripIff(batch.rows, rest);
  }

  // ---------------------------------------------------------------------------
  // Shared and fresh state
  // ---------------------------------------------------------------------------

  /** Between blocks: no fields or arrays waiting, and all builders empty. */
  predicate Clean(st: ReadState) {
    st.fields == [] && st.columns == [] && Drained(st.builders)
  }

  predicate Drained(builders: seq<Cached>) {
    forall k | 0 <= k < |builders| :: builders[k].leftover == []
  }

  /** The builders both have are the same. */
  predicate Compatible(a: seq<Cached>, b: seq<Cached>) {
    forall k | 0 <= k < |a| && k < |b| :: a[k] == b[k]
  }

  function Longer(a: seq<Cached>, b: seq<Cached>): seq<Cached> {
    if |a| >= |b| then a else b
  }

  /** A column with rows, read with nothing cached beyond the columns before it. */
  lemma FreshColumn(c: Codec, env: Env, revision: nat, rows: nat, fr: ReadState, bytes: seq<byte>)
    requires rows > 0 && ReadColumn(c, env, revision, rows, |fr.builders|, fr, bytes).0.Ok?
    ensures var (f, hint, rest) := ReadHead(c, env, revision, bytes).value;
            var (r, fr') := ReadColumn(c, env, revision, rows, |fr.builders|, fr, bytes);
            && TryNew(hint, f.dataType).Ok?
            && fr'.builders == fr.builders + [Cached(TryNew(hint, f.dataType).value, [])]
  {
    var (f, hint, rest) := ReadHead(c, env, revision, bytes).value;
    var b := TryNew(hint, f.dataType).value;
    var grown := fr.builders + [Cached(b, [])];
    assert grown[|fr.builders| := Cached(b, [])] == grown;
  }

  /** A cached builder that is what a new one would be changes nothing. */
  lemma ColumnShared(c: Codec, env: Env, revision: nat, rows: nat, st: ReadState, fr: ReadState, bytes: seq<byte>)
    requires rows > 0 && |fr.builders| <= |st.builders| && st.fields == fr.fields && st.columns == fr.columns
    requires Drained(st.builders)
    requires ReadColumn(c, env, revision, rows, |fr.builders|, fr, bytes).0.Ok?
    requires Compatible(st.builders, ReadColumn(c, env, revision, rows, |fr.builders|, fr, bytes).1.builders)
    ensures var (r, fr') := ReadColumn(c, env, revision, rows, |fr.builders|, fr, bytes);
            ReadColumn(c, env, revision, rows, |fr.builders|, st, bytes)
            == (r, fr'.(builders := Longer(st.builders, fr'.builders)))
  {
    var i := |fr.builders|;
    FreshColumn(c, env, revision, rows, fr, bytes);
    var fr' := ReadColumn(c, env, revision, rows, i, fr, bytes).1;
    if i < |st.builders| {
      assert st.builders[i] == fr'.builders[i];
      assert st.builders[i := st.builders[i]] == st.builders;
    } else {
      assert st.builders[..i] == fr'.builders[..i];
      assert st.builders + [fr'.builders[i]] == fr'.builders;
      assert fr'.builders[i := fr'.builders[i]] == fr'.builders;
    }
  }

  /** Reading columns only adds builders, one for each. */
  lemma {:induction false} FreshColumns(c: Codec, env: Env, revision: nat, rows: nat, n: nat, fr: ReadState, bytes: seq<byte>)
    requires rows > 0 && |fr.builders| <= n && Drained(fr.builders)
    requires ReadColumns(ColumnReader(c, env, revision, rows), |fr.builders|, n, fr, bytes).0.Ok?
    ensures var fr' := ReadColumns(ColumnReader(c, env, revision, rows), |fr.builders|, n, fr, bytes).1;
            |fr'.builders| == n && fr.builders <= fr'.builders && Drained(fr'.builders)
    decreases n - |fr.builders|
  {
    if |fr.builders| < n {
      FreshColumn(c, env, revision, rows, fr, bytes);
      var (r, next) := ReadColumn(c, env, revision, rows, |fr.builders|, fr, bytes);
      FreshColumns(c, env, revision, rows, n, next, r.value);
    }
  }

  lemma {:induction false} ColumnsShared(c: Codec, env: Env, revision: nat, rows: nat, n: nat, st: ReadState,
      fr: ReadState, bytes: seq<byte>)
    requires rows > 0 && |fr.builders| <= n && |fr.builders| <= |st.builders|
    requires Drained(fr.builders) && Drained(st.builders) && st.fields == fr.fields && st.columns == fr.columns
    requires ReadColumns(ColumnReader(c, env, revision, rows), |fr.builders|, n, fr, bytes).0.Ok?
    requires Compatible(st.builders, ReadColumns(ColumnReader(c, env, revision, rows), |fr.builders|, n, fr, bytes).1.builders)
    ensures var (r, fr') := ReadColumns(ColumnReader(c, env, revision, rows), |fr.builders|, n, fr, bytes);
            ReadColumns(ColumnReader(c, env, revision, rows), |fr.builders|, n, st, bytes)
            == (r, fr'.(builders := Longer(st.builders, fr'.builders)))
    decreases n - |fr.builders|
  {
    FreshColumns(c, env, revision, rows, n, fr, bytes);
    if |fr.builders| == n {
      var same := Longer(st.builders, fr.builders);
      assert |st.builders| >= |fr.builders|;
    } else {
      var i := |fr.builders|;
      FreshColumn(c, env, revision, rows, fr, bytes);
      var (r, next) := ReadColumn(c, env, revision, rows, i, fr, bytes);
      FreshColumns(c, env, revision, rows, n, next, r.value);
      ColumnShared(c, env, revision, rows, st, fr, bytes);
      var st' := st.(fields := next.fields, columns := next.columns, builders := Longer(st.builders, next.builders));
      ColumnsShared(c, env, revision, rows, n, st', next, r.value);
    }
  }

  /** Columns without rows do not touch the builders. */
  lemma {:induction false} EmptyColumnsShared(c: Codec, env: Env, revision: nat, i: nat, n: nat, st: ReadState,
      fr: ReadState, bytes: seq<byte>)
    requires i <= n && st.fields == fr.fields && st.columns == fr.columns
    ensures var (r, fr') := ReadColumns(ColumnReader(c, env, revision, 0), i, n, fr, bytes);
            && fr'.builders == fr.builders
            && ReadColumns(ColumnReader(c, env, revision, 0), i, n, st, bytes) == (r, fr'.(builders := st.builders))
    decreases n - i
  {
    if i < n {
      var (r, next) := ReadColumn(c, env, revision, 0, i, fr, bytes);
      if r.Ok? {
        EmptyColumnsShared(c, env, revision, i + 1, n, st.(fields := next.fields, columns := next.columns), next, r.value);
      }
    }
  }

  /** For any bytes at all: a block that a new reader reads, a reader with drained builders
      reads the same, as long as the builders it has are those the block needs. */
  lemma SharedIsFresh(c: Codec, env: Env, revision: nat, st: ReadState, bytes: seq<byte>)
    requires Clean(st) && ReadBlock(c, env, revision, FRESH, bytes).0.Ok?
    requires Compatible(st.builders, ReadBlock(c, env, revision, FRESH, bytes).1.builders)
    ensures var (r, fr') := ReadBlock(c, env, revision, FRESH, bytes);
            && ReadBlock(c, env, revision, st, bytes) == (r, ReadState(Longer(st.builders, fr'.builders), [], []))
            && Drained(fr'.builders)
  {
    var front := ReadInfo(DEFAULT_INFO, bytes).value.1;
    var (n, rows, body) := ReadCounts(front).value;
    if n == 0 && rows == 0 {
    } else if rows == 0 {
      EmptyColumnsShared(c, env, revision, 0, n, st, FRESH, body);
    } else {
      FreshColumns(c, env, revision, rows, n, FRESH, body);
      ColumnsShared(c, env, revision, rows, n, st, FRESH, body);
    }
  }

  // ---------------------------------------------------------------------------
  // Streams of blocks
  // ---------------------------------------------------------------------------

  type BlockResult = Result<(Batch, seq<byte>), BlockError>
  type ManyResult = Result<(seq<Batch>, seq<byte>), BlockError>

  /** A way to read one block through a state. */
  type BlockRead = (ReadState, seq<byte>) -> (BlockResult, ReadState)

  function Blocks(c: Codec, env: Env, revision: nat): BlockRead {
    (st, bytes) => ReadBlock(c, env, revision, st, bytes)
  }

  /** `count` blocks through one state. */
  function ReadMany(read: BlockRead, st: ReadState, bytes: seq<byte>, count: nat): ManyResult
    decreases count
  {
    if count == 0 then Ok(([], bytes))
    else
      match read(st, bytes)
      case (Err(e), _) => Err(e)
      case (Ok((batch, rest)), st') => Prepend(batch, ReadMany(read, st', rest, count - 1))
  }

  /** `count` blocks, each through a new state. */
  function FreshMany(read: BlockRead, bytes: seq<byte>, count: nat): ManyResult
    decreases count
  {
    if count == 0 then Ok(([], bytes))
    else
      match read(FRESH, bytes)
      case (Err(e), _) => Err(e)
      case (Ok((batch, rest)), _) => Prepend(batch, FreshMany(read, rest, count - 1))
  }

  function Prepend(batch: Batch, rest: ManyResult): ManyResult {
    match rest
    case Err(e) => Err(e)
    case Ok((batches, tail)) => Ok(([batch] + batches, tail))
  }

  /** Every block on the way has the columns of one schema, or no rows. */
  predicate OneSchema(read: BlockRead, schema: seq<Cached>, bytes: seq<byte>, count: nat)
    decreases count
  {
    count == 0 ||
    match read(FRESH, bytes)
    case (Err(_), _) => true
    case (Ok((_, rest)), fr) =>
      (fr.builders == [] || fr.builders == schema) && OneSchema(read, schema, rest, count - 1)
  }

  /** The state does not show: `SharedIsFresh`, of any way to read blocks. */
  ghost predicate Shareable(read: BlockRead) {
    forall st, bytes | Clean(st) && read(FRESH, bytes).0.Ok? && Compatible(st.builders, read(FRESH, bytes).1.builders) ::
      var (r, fr) := read(FRESH, bytes);
      read(st, bytes) == (r, ReadState(Longer(st.builders, fr.builders), [], [])) && Drained(fr.builders)
  }

  lemma BlocksShareable(c: Codec, env: Env, revision: nat)
    ensures Shareable(Blocks(c, env, revision))
  {
    var read := Blocks(c, env, revision);
    forall st, bytes | Clean(st) && read(FRESH, bytes).0.Ok? && Compatible(st.builders, read(FRESH, bytes).1.builders)
      ensures var (r, fr) := read(FRESH, bytes);
              read(st, bytes) == (r, ReadState(Longer(st.builders, fr.builders), [], [])) && Drained(fr.builders)
    {
      SharedIsFresh(c, env, revision, st, bytes);
    }
  }

  lemma {:induction false} ManyShared(read: BlockRead, schema: seq<Cached>, st: ReadState, bytes: seq<byte>, count: nat)
    requires Shareable(read) && Clean(st) && (st.builders == [] || st.builders == schema)
    requires OneSchema(read, schema, bytes, count) && FreshMany(read, bytes, count).Ok?
    ensures ReadMany(read, st, bytes, count) == FreshMany(read, bytes, count)
    decreases count
  {
    if count > 0 {
      var (r, fr) := read(FRESH, bytes);
      assert Compatible(st.builders, fr.builders);
      ManyShared(read, schema, ReadState(Longer(st.builders, fr.builders), [], []), r.value.1, count - 1);
    }
  }

  /** One shared state reads a stream of one schema as new states do, block for block. */
  lemma SharedStream(c: Codec, env: Env, revision: nat, schema: seq<Cached>, st: ReadState, bytes: seq<byte>, count: nat)
    requires Clean(st) && (st.builders == [] || st.builders == schema)
    requires OneSchema(Blocks(c, env, revision), schema, bytes, count)
    requires FreshMany(Blocks(c, env, revision), bytes, count).Ok?
    ensures ReadMany(Blocks(c, env, revision), st, bytes, count) == FreshMany(Blocks(c, env, revision), bytes, count)
  {
    BlocksShareable(c, env, revision);
    ManyShared(Blocks(c, env, revision), schema, st, bytes, count);
  }

  // ---------------------------------------------------------------------------
  // Written blocks
  // ---------------------------------------------------------------------------

  /** The type of a column as it arrives. */
  function Arriving(env: Env, t: Type): DataType
    requires ToArrow(env, Printed(t)).Ok?
  {
    ToArrow(env, Printed(t)).value.0
  }

  function ArrivingHint(env: Env, t: Type): Type
    requires ToArrow(env, Printed(t)).Ok?
  {
    Hint(Printed(t), Arriving(env, t))
  }

  function ArrivingField(env: Env, name: seq<byte>, t: Type): ColumnField
    requires ToArrow(env, Printed(t)).Ok?
  {
    ColumnField(name, Arriving(env, t), ToArrow(env, Printed(t)).value.1)
  }

  function BuilderFor(env: Env, t: Type): Option<Cached> {
    if ToArrow(env, Printed(t)).Err? then None
    else
      match TryNew(ArrivingHint(env, t), Arriving(env, t))
      case Err(_) => None
      case Ok(b) => Some(Cached(b, []))
  }

  /** What was encoded as a type, the empty builder made for its arrival decodes, losing
      nothing, up to the last byte and no further. */
  ghost predicate Returns(c: Codec, env: Env, t: Type, cells: Cells) {
    c.encode(t, cells).Some? && BuilderFor(env, t).Some? ==>
      forall rest ::
        c.decode(ArrivingHint(env, t), BuilderFor(env, t).value.builder, [], |cells|, c.encode(t, cells).value + rest)
        == Done(cells, rest)
  }

  /** What a sent column must satisfy to arrive. */
  ghost predicate Sendable(c: Codec, env: Env, f: ColumnField, t: Type, col: Column) {
    && |f.name| <= MAX_STRING && |c.show(t)| <= MAX_STRING && c.parse(c.show(t)) == Some(Printed(t))
    && Buildable(Printed(t)) && !Strict(env) && (MapHasString(Printed(t)) ==> StringsOn(env))
    && ToArrow(env, Printed(t)).Ok?
    && (ToArrow(env, Printed(t)).value.1 || None !in col.cells)
    && (col.cells != [] ==> Returns(c, env, t, col.cells))
  }

  lemma BuilderMade(env: Env, t: Type)
    requires Buildable(Printed(t)) && !Strict(env) && (MapHasString(Printed(t)) ==> StringsOn(env))
    ensures BuilderFor(env, t).Some? && Fits(BuilderFor(env, t).value.builder, Arriving(env, t))
    ensures BuilderFor(env, t).value.leftover == []
  {
    BuilderFitsIff(env, Printed(t));
  }

  lemma HeadReadsBack(c: Codec, env: Env, revision: nat, f: ColumnField, t: Type, rest: seq<byte>)
    requires c.parse(c.show(t)) == Some(Printed(t)) && |f.name| <= MAX_STRING && |c.show(t)| <= MAX_STRING
    requires ToArrow(env, Printed(t)).Ok?
    ensures ReadHead(c, env, revision, StringBytes(f.name) + (StringBytes(c.show(t)) + CustomByte(revision)) + rest)
         == Ok((ArrivingField(env, f.name, t), ArrivingHint(env, t), rest))
  {
    var custom := CustomByte(revision) + rest;
    var typed := StringBytes(c.show(t)) + custom;
    ConcatAssoc(StringBytes(c.show(t)), CustomByte(revision), rest);
    ConcatAssoc(StringBytes(f.name), StringBytes(c.show(t)) + CustomByte(revision), rest);
    StringRoundTripIff(f.name, typed);
    StringRoundTripIff(c.show(t), custom);
    assert revision < CUSTOM_SERIALIZATION ==> custom == rest;
    assert revision >= CUSTOM_SERIALIZATION ==> custom[1..] == rest;
  }

  /** A column with rows and a builder of its own. */
  lemma ColumnDecodes(c: Codec, env: Env, revision: nat, fr: ReadState, bytes: seq<byte>, f: ColumnField, hint: Type,
      body: seq<byte>, b: Builder, cells: Cells, tail: seq<byte>)
    requires cells != [] && ReadHead(c, env, revision, bytes) == Ok((f, hint, body))
    requires TryNew(hint, f.dataType) == Ok(b) && Fits(b, f.dataType)
    requires c.decode(hint, b, [], |cells|, body) == Done(cells, tail)
    ensures ReadColumn(c, env, revision, |cells|, |fr.builders|, fr, bytes)
         == (Ok(tail), Push(fr.(builders := fr.builders + [Cached(b, [])]), f, Column(f.dataType, cells)))
  {
    var grown := fr.builders + [Cached(b, [])];
    assert grown[|fr.builders| := Cached(b, [])] == grown;
  }

  /** What the state gains from a column. */
  datatype Gained = Gained(field: ColumnField, column: Column, builder: Cached)

  function Gain(g: Gained, rows: nat, st: ReadState): ReadState {
    Push(if rows == 0 then st else st.(builders := st.builders + [g.builder]), g.field, g.column)
  }

  function GainOf(env: Env, f: ColumnField, t: Type, col: Column): Gained
    requires Arrives(env, t)
  {
    Gained(ArrivingField(env, f.name, t), Column(Arriving(env, t), col.cells), BuilderFor(env, t).value)
  }

  /** The type has an Arrow type and a builder. */
  predicate Arrives(env: Env, t: Type) {
    ToArrow(env, Printed(t)).Ok? && BuilderFor(env, t).Some?
  }

  predicate AllArrive(env: Env, types: seq<Type>) {
    forall i | 0 <= i < |types| :: Arrives(env, types[i])
  }

  lemma ColumnReadsBack(c: Codec, env: Env, revision: nat, header: seq<(seq<byte>, Type)>, f: ColumnField, col: Column,
      t: Type, fr: ReadState, rest: seq<byte>)
    requires SentType(env, header, f) == Some(t) && Sendable(c, env, f, t, col)
    requires WriteColumn(c, env, revision, header, f, col).Some?
    ensures Arrives(env, t)
    ensures ReadColumn(c, env, revision, |col.cells|, |fr.builders|, fr,
                       WriteColumn(c, env, revision, header, f, col).value + rest)
         == (Ok(rest), Gain(GainOf(env, f, t, col), |col.cells|, fr))
  {
    var head := StringBytes(f.name) + (StringBytes(c.show(t)) + CustomByte(revision));
    BuilderMade(env, t);
    if col.cells == [] {
      HeadReadsBack(c, env, revision, f, t, rest);
    } else {
      var body := c.encode(t, col.cells).value;
      ConcatAssoc(head, body, rest);
      HeadReadsBack(c, env, revision, f, t, body + rest);
      var b := BuilderFor(env, t).value.builder;
      assert c.decode(ArrivingHint(env, t), b, [], |col.cells|, body + rest) == Done(col.cells, rest);
      ColumnDecodes(c, env, revision, fr, head + (body + rest), ArrivingField(env, f.name, t), ArrivingHint(env, t),
        body + rest, b, col.cells, rest);
    }
  }

  ghost predicate AllSendable(c: Codec, env: Env, header: seq<(seq<byte>, Type)>, fields: seq<ColumnField>,
      columns: seq<Column>, types: seq<Type>, rows: nat)
  {
    && |fields| == |columns| == |types|
    && forall i | 0 <= i < |fields| ::
         && SentType(env, header, fields[i]) == Some(types[i])
         && Sendable(c, env, fields[i], types[i], columns[i])
         && |columns[i].cells| == rows
  }

  /** The builders a schema needs. */
  function BuildersFor(env: Env, types: seq<Type>): seq<Cached>
    requires AllArrive(env, types)
  {
    seq(|types|, i requires 0 <= i < |types| => BuilderFor(env, types[i]).value)
  }

  function FieldsFor(env: Env, fields: seq<ColumnField>, types: seq<Type>): seq<ColumnField>
    requires |fields| == |types| && AllArrive(env, types)
  {
    seq(|fields|, i requires 0 <= i < |fields| => ArrivingField(env, fields[i].name, types[i]))
  }

  function ColumnsFor(env: Env, columns: seq<Column>, types: seq<Type>): seq<Column>
    requires |columns| == |types| && AllArrive(env, types)
  {
    seq(|columns|, i requires 0 <= i < |columns| => Column(Arriving(env, types[i]), columns[i].cells))
  }

  function GainsFor(env: Env, fields: seq<ColumnField>, columns: seq<Column>, types: seq<Type>): seq<Gained>
    requires |fields| == |columns| == |types| && AllArrive(env, types)
  {
    seq(|fields|, i requires 0 <= i < |fields| => GainOf(env, fields[i], types[i], columns[i]))
  }

  /** The state once all columns are read. */
  function GainAll(gains: seq<Gained>, rows: nat, st: ReadState): ReadState
    decreases gains
  {
    if gains == [] then st else GainAll(gains[1..], rows, Gain(gains[0], rows, st))
  }

  lemma {:induction false} GainAllIs(gains: seq<Gained>, rows: nat, st: ReadState)
    ensures var st' := GainAll(gains, rows, st);
            && st'.fields == st.fields + seq(|gains|, i requires 0 <= i < |gains| => gains[i].field)
            && st'.columns == st.columns + seq(|gains|, i requires 0 <= i < |gains| => gains[i].column)
            && st'.builders == if rows == 0 then st.builders
                               else st.builders + seq(|gains|, i requires 0 <= i < |gains| => gains[i].builder)
    decreases gains
  {
    if gains != [] { GainAllIs(gains[1..], rows, Gain(gains[0], rows, st)); }
  }

  lemma AllSentArrive(c: Codec, env: Env, header: seq<(seq<byte>, Type)>, fields: seq<ColumnField>, columns: seq<Column>,
      types: seq<Type>, rows: nat)
    requires AllSendable(c, env, header, fields, columns, types, rows)
    ensures AllArrive(env, types)
  {
    forall i | 0 <= i < |types| ensures Arrives(env, types[i]) {
      assert Sendable(c, env, fields[i], types[i], columns[i]);
      BuilderMade(env, types[i]);
    }
  }

  /** Without rows the position of a column does not matter. */
  lemma EmptyReadAnywhere(c: Codec, env: Env, revision: nat, i: nat, st: ReadState, bytes: seq<byte>, rows: nat)
    requires rows > 0 ==> |st.builders| == i
    ensures ReadColumn(c, env, revision, rows, i, st, bytes) == ReadColumn(c, env, revision, rows, |st.builders|, st, bytes)
  {
  }

  /** The piece is read as its column, at its position, whatever follows it. */
  ghost predicate ReadsAs(read: ColumnRead, k: nat, g: Gained, rows: nat, piece: seq<byte>) {
    forall st: ReadState, tail | rows > 0 ==> |st.builders| == k ::
      read(k, st, piece + tail) == (Ok(tail), Gain(g, rows, st))
  }

  ghost predicate ReadsPieces(read: ColumnRead, i: nat, gains: seq<Gained>, rows: nat, pieces: seq<seq<byte>>)
    requires |gains| == |pieces|
  {
    forall k | 0 <= k < |pieces| :: ReadsAs(read, i + k, gains[k], rows, pieces[k])
  }

  lemma PiecesRest(read: ColumnRead, i: nat, gains: seq<Gained>, rows: nat, pieces: seq<seq<byte>>)
    requires |gains| == |pieces| > 0 && ReadsPieces(read, i, gains, rows, pieces)
    ensures ReadsAs(read, i, gains[0], rows, pieces[0])
    ensures ReadsPieces(read, i + 1, gains[1..], rows, pieces[1..])
  {
    assert ReadsAs(read, i + 0, gains[0], rows, pieces[0]);
    forall k | 0 <= k < |pieces[1..]| ensures ReadsAs(read, (i + 1) + k, gains[1..][k], rows, pieces[1..][k]) {
      assert ReadsAs(read, i + (k + 1), gains[k + 1], rows, pieces[k + 1]);
    }
  }

  lemma ReadFirstPiece(read: ColumnRead, i: nat, n: nat, g: Gained, rows: nat, piece: seq<byte>, fr: ReadState, more: seq<byte>)
    requires i < n && ReadsAs(read, i, g, rows, piece)
    requires rows > 0 ==> |fr.builders| == i
    ensures ReadColumns(read, i, n, fr, piece + more) == ReadColumns(read, i + 1, n, Gain(g, rows, fr), more)
  {
    assert read(i, fr, piece + more) == (Ok(more), Gain(g, rows, fr));
  }

  /** Reading goes on behind the pieces as if they had just been gained. */
  lemma {:induction false} PiecesRead(read: ColumnRead, i: nat, n: nat, gains: seq<Gained>, rows: nat, pieces: seq<seq<byte>>,
      fr: ReadState, rest: seq<byte>)
    requires |gains| == |pieces| && i + |pieces| <= n && ReadsPieces(read, i, gains, rows, pieces)
    requires rows > 0 ==> |fr.builders| == i
    ensures ReadColumns(read, i, n, fr, Concat(pieces) + rest)
         == ReadColumns(read, i + |pieces|, n, GainAll(gains, rows, fr), rest)
    decreases |pieces|
  {
    if pieces == [] {
      assert [] + rest == rest;
    } else {
      var more := Concat(pieces[1..]) + rest;
      ConcatAssoc(pieces[0], Concat(pieces[1..]), rest);
      PiecesRest(read, i, gains, rows, pieces);
      ReadFirstPiece(read, i, n, gains[0], rows, pieces[0], fr, more);
      PiecesRead(read, i + 1, n, gains[1..], rows, pieces[1..], Gain(gains[0], rows, fr), rest);
    }
  }

  lemma {:induction false} WrittenPieces(c: Codec, env: Env, revision: nat, header: seq<(seq<byte>, Type)>,
      fields: seq<ColumnField>, columns: seq<Column>) returns (pieces: seq<seq<byte>>)
    requires |fields| == |columns| && WriteColumns(c, env, revision, header, fields, columns).Some?
    ensures |pieces| == |fields| && WriteColumns(c, env, revision, header, fields, columns) == Some(Concat(pieces))
    ensures forall k | 0 <= k < |fields| :: WriteColumn(c, env, revision, header, fields[k], columns[k]) == Some(pieces[k])
    decreases |fields|
  {
    if fields == [] {
      pieces := [];
    } else {
      var later := WrittenPieces(c, env, revision, header, fields[1..], columns[1..]);
      pieces := [WriteColumn(c, env, revision, header, fields[0], columns[0]).value] + later;
      assert pieces[1..] == later;
    }
  }

  lemma PieceRead(c: Codec, env: Env, revision: nat, header: seq<(seq<byte>, Type)>, f: ColumnField, col: Column, t: Type,
      rows: nat, i: nat, st: ReadState, piece: seq<byte>, rest: seq<byte>)
    requires SentType(env, header, f) == Some(t) && Sendable(c, env, f, t, col) && |col.cells| == rows
    requires WriteColumn(c, env, revision, header, f, col) == Some(piece)
    requires rows > 0 ==> |st.builders| == i
    ensures Arrives(env, t)
    ensures ReadColumn(c, env, revision, rows, i, st, piece + rest) == (Ok(rest), Gain(GainOf(env, f, t, col), rows, st))
  {
    EmptyReadAnywhere(c, env, revision, i, st, piece + rest, rows);
    ColumnReadsBack(c, env, revision, header, f, col, t, st, rest);
  }

  lemma PiecesAreRead(c: Codec, env: Env, revision: nat, header: seq<(seq<byte>, Type)>,
      fields: seq<ColumnField>, columns: seq<Column>, types: seq<Type>, rows: nat, pieces: seq<seq<byte>>)
    requires AllSendable(c, env, header, fields, columns, types, rows) && AllArrive(env, types)
    requires |pieces| == |fields|
    requires forall k | 0 <= k < |fields| :: WriteColumn(c, env, revision, header, fields[k], columns[k]) == Some(pieces[k])
    ensures ReadsPieces(ColumnReader(c, env, revision, rows), 0, GainsFor(env, fields, columns, types), rows, pieces)
  {
    var read, gains := ColumnReader(c, env, revision, rows), GainsFor(env, fields, columns, types);
    forall k | 0 <= k < |pieces| ensures ReadsAs(read, 0 + k, gains[k], rows, pieces[k]) {
      forall st: ReadState, tail | rows > 0 ==> |st.builders| == k
        ensures read(k, st, pieces[k] + tail) == (Ok(tail), Gain(gains[k], rows, st))
      {
        PieceRead(c, env, revision, header, fields[k], columns[k], types[k], rows, k, st, pieces[k], tail);
      }
    }
  }

  lemma ColumnsReadBack(c: Codec, env: Env, revision: nat, header: seq<(seq<byte>, Type)>,
      fields: seq<ColumnField>, columns: seq<Column>, types: seq<Type>, rows: nat, read: ColumnRead, gains: seq<Gained>,
      rest: seq<byte>)
    requires AllSendable(c, env, header, fields, columns, types, rows) && AllArrive(env, types)
    requires WriteColumns(c, env, revision, header, fields, columns).Some?
    requires read == ColumnReader(c, env, revision, rows) && gains == GainsFor(env, fields, columns, types)
    ensures ReadColumns(read, 0, |fields|, FRESH, WriteColumns(c, env, revision, header, fields, columns).value + rest)
         == (Ok(rest), GainAll(gains, rows, FRESH))
  {
    var pieces := WrittenPieces(c, env, revision, header, fields, columns);
    PiecesAreRead(c, env, revision, header, fields, columns, types, rows, pieces);
    PiecesRead(read, 0, |fields|, gains, rows, pieces, FRESH, rest);
  }

  /** A batch fit to be sent: at least one column unless it has no rows either, counts the
      wire can carry. */
  ghost predicate SendableBatch(c: Codec, env: Env, header: seq<(seq<byte>, Type)>, types: seq<Type>, batch: Batch) {
    && AllSendable(c, env, header, batch.fields, batch.columns, types, batch.rows)
    && |batch.fields| < TWO63 && batch.rows < TWO63
    && (batch.fields == [] ==> batch.rows == 0)
  }

  /** The batch as it arrives: same names, values and rows; types as announced. */
  function Arrived(env: Env, types: seq<Type>, batch: Batch): Batch
    requires |batch.fields| == |batch.columns| == |types| && AllArrive(env, types)
  {
    Batch(FieldsFor(env, batch.fields, types), ColumnsFor(env, batch.columns, types), batch.rows)
  }

  lemma ArrivedIsBatch(c: Codec, env: Env, header: seq<(seq<byte>, Type)>, types: seq<Type>, batch: Batch)
    requires SendableBatch(c, env, header, types, batch) && batch.fields != [] && AllArrive(env, types)
    ensures MakeBatch(FieldsFor(env, batch.fields, types), ColumnsFor(env, batch.columns, types))
         == Ok(Arrived(env, types, batch))
  {
    forall i | 0 <= i < |types| ensures Sendable(c, env, batch.fields[i], types[i], batch.columns[i]) {}
  }

  /** A block written to a server that knows block info reads back, through a new state, as
      the batch that was sent, and the bytes behind it are left. */
  lemma BlockRoundTrip(c: Codec, env: Env, revision: nat, header: seq<(seq<byte>, Type)>, types: seq<Type>, batch: Batch,
      rest: seq<byte>)
    requires revision > 0 && SendableBatch(c, env, header, types, batch)
    requires WriteBlock(c, env, revision, header, batch).Some?
    ensures AllArrive(env, types)
    ensures ReadBlock(c, env, revision, FRESH, WriteBlock(c, env, revision, header, batch).value + rest)
         == (Ok((Arrived(env, types, batch), rest)),
             ReadState(if batch.rows == 0 then [] else BuildersFor(env, types), [], []))
  {
    AllSentArrive(c, env, header, batch.fields, batch.columns, types, batch.rows);
    var body := WriteColumns(c, env, revision, header, batch.fields, batch.columns).value;
    ConcatAssoc(InfoBytes(DEFAULT_INFO), Counts(batch) + body, rest);
    ConcatAssoc(Counts(batch), body, rest);
    InfoReadsBack(DEFAULT_INFO, DEFAULT_INFO, Counts(batch) + (body + rest));
    CountsReadBack(batch, body + rest);
    if batch.fields == [] {
      assert body == [] && [] + rest == rest;
      assert Arrived(env, types, batch) == Batch([], [], 0);
    } else {
      ColumnsReadBack(c, env, revision, header, batch.fields, batch.columns, types, batch.rows,
        ColumnReader(c, env, revision, batch.rows), GainsFor(env, batch.fields, batch.columns, types), rest);
      ArrivedIsBatch(c, env, header, types, batch);
      FreshGain(env, batch.fields, batch.columns, types, batch.rows);
    }
  }

  lemma FreshGain(env: Env, fields: seq<ColumnField>, columns: seq<Column>, types: seq<Type>, rows: nat)
    requires |fields| == |columns| == |types| && AllArrive(env, types)
    ensures GainAll(GainsFor(env, fields, columns, types), rows, FRESH)
         == ReadState(if rows == 0 then [] else BuildersFor(env, types), FieldsFor(env, fields, types),
                      ColumnsFor(env, columns, types))
  {
    var gains := GainsFor(env, fields, columns, types);
    GainAllIs(gains, rows, FRESH);
    assert [] + seq(|gains|, i requires 0 <= i < |gains| => gains[i].field) == FieldsFor(env, fields, types);
    assert [] + seq(|gains|, i requires 0 <= i < |gains| => gains[i].column) == ColumnsFor(env, columns, types);
    assert [] + seq(|gains|, i requires 0 <= i < |gains| => gains[i].builder) == BuildersFor(env, types);
  }

  // ---------------------------------------------------------------------------
  // A whole query: many blocks of one schema, one state
  // ---------------------------------------------------------------------------

  function WriteAll(c: Codec, env: Env, revision: nat, header: seq<(seq<byte>, Type)>, batches: seq<Batch>): Option<seq<byte>>
    requires forall b | b in batches :: |b.fields| == |b.columns|
  {
    if batches == [] then Some([])
    else
      match WriteBlock(c, env, revision, header, batches[0])
      case None => None
      case Some(bytes) => Joined(bytes, WriteAll(c, env, revision, header, batches[1..]))
  }

  /** The blocks of a query have the columns of one schema, with rows or without, or are
      empty altogether. */
  ghost predicate SendableAll(c: Codec, env: Env, header: seq<(seq<byte>, Type)>, types: seq<Type>, batches: seq<Batch>) {
    forall b | b in batches :: SendableBatch(c, env, header, if b.fields == [] then [] else types, b)
  }

  ghost function ArrivedAll(env: Env, types: seq<Type>, batches: seq<Batch>): seq<Batch>
    requires AllArrive(env, types)
    requires forall b | b in batches :: |b.fields| == |b.columns| && (b.fields == [] || |b.fields| == |types|)
  {
    if batches == [] then []
    else [Arrived(env, if batches[0].fields == [] then [] else types, batches[0])] + ArrivedAll(env, types, batches[1..])
  }

  lemma NextBlock(read: BlockRead, schema: seq<Cached>, bytes: seq<byte>, batch: Batch, rest: seq<byte>, fr: ReadState, n: nat)
    requires read(FRESH, bytes) == (Ok((batch, rest)), fr) && (fr.builders == [] || fr.builders == schema)
    ensures FreshMany(read, bytes, n + 1) == Prepend(batch, FreshMany(read, rest, n))
    ensures OneSchema(read, schema, bytes, n + 1) <==> OneSchema(read, schema, rest, n)
  {
  }

  lemma {:induction false} WrittenFresh(c: Codec, env: Env, revision: nat, header: seq<(seq<byte>, Type)>, types: seq<Type>,
      batches: seq<Batch>, rest: seq<byte>)
    requires revision > 0 && SendableAll(c, env, header, types, batches)
    requires AllArrive(env, types)
    requires WriteAll(c, env, revision, header, batches).Some?
    ensures var bytes := WriteAll(c, env, revision, header, batches).value + rest;
            && FreshMany(Blocks(c, env, revision), bytes, |batches|) == Ok((ArrivedAll(env, types, batches), rest))
            && OneSchema(Blocks(c, env, revision), BuildersFor(env, types), bytes, |batches|)
    decreases |batches|
  {
    if batches == [] {
      assert [] + rest == rest;
    } else {
      var b := batches[0];
      var own := if b.fields == [] then [] else types;
      var bytes := WriteBlock(c, env, revision, header, b).value;
      var more := WriteAll(c, env, revision, header, batches[1..]).value + rest;
      ConcatAssoc(bytes, WriteAll(c, env, revision, header, batches[1..]).value, rest);
      OneBlockRead(c, env, revision, header, own, types, b, more);
      var fr := ReadState(if b.rows == 0 then [] else BuildersFor(env, own), [], []);
      NextBlock(Blocks(c, env, revision), BuildersFor(env, types), bytes + more, Arrived(env, own, b), more, fr, |batches| - 1);
      WrittenFresh(c, env, revision, header, types, batches[1..], rest);
    }
  }

  lemma OneBlockRead(c: Codec, env: Env, revision: nat, header: seq<(seq<byte>, Type)>, own: seq<Type>, types: seq<Type>,
      b: Batch, more: seq<byte>)
    requires revision > 0 && AllArrive(env, types) && own == (if b.fields == [] then [] else types)
    requires SendableBatch(c, env, header, own, b) && WriteBlock(c, env, revision, header, b).Some?
    ensures AllArrive(env, own)
    ensures Blocks(c, env, revision)(FRESH, WriteBlock(c, env, revision, header, b).value + more)
         == (Ok((Arrived(env, own, b), more)), ReadState(if b.rows == 0 then [] else BuildersFor(env, own), [], []))
  {
    BlockRoundTrip(c, env, revision, header, own, b, more);
  }

  /** All the blocks of a query, read through one state that keeps its builders, give the
      batches that were sent. */
  lemma QueryRoundTrip(c: Codec, env: Env, revision: nat, header: seq<(seq<byte>, Type)>, types: seq<Type>,
      batches: seq<Batch>, rest: seq<byte>)
    requires revision > 0 && SendableAll(c, env, header, types, batches)
    requires AllArrive(env, types)
    requires WriteAll(c, env, revision, header, batches).Some?
    ensures ReadMany(Blocks(c, env, revision), FRESH, WriteAll(c, env, revision, header, batches).value + rest, |batches|)
         == Ok((ArrivedAll(env, types, batches), rest))
  {
    WrittenFresh(c, env, revision, header, types, batches, rest);
    SharedStream(c, env, revision, BuildersFor(env, types), FRESH,
      WriteAll(c, env, revision, header, batches).value + rest, |batches|);
  }

  // ---------------------------------------------------------------------------
  // The cache, and where blocks do not read back
  // ---------------------------------------------------------------------------

  /** In every run a column with rows finds its builder at its own position: a cached one,
      or one pushed exactly there. No other builder is touched. */
  lemma CacheKeepsUp(c: Codec, env: Env, revision: nat, rows: nat, i: nat, st: ReadState, bytes: seq<byte>)
    requires rows > 0 && i <= |st.builders|
    ensures var (r, st') := ReadColumn(c, env, revision, rows, i, st, bytes);
            && (r.Ok? ==> i < |st'.builders|)
            && |st.builders| <= |st'.builders| <= |st.builders| + 1
            && (|st'.builders| > |st.builders| ==> i == |st.builders|)
            && forall k | 0 <= k < |st.builders| && k != i :: st'.builders[k] == st.builders[k]
  {
  }

  /** A read of one column adds its field and array, or nothing. */
  ghost predicate Appends(read: ColumnRead) {
    forall i, st, bytes ::
      var (r, st') := read(i, st, bytes);
      && st.fields <= st'.fields && st.columns <= st'.columns
      && |st'.fields| == if r.Ok? then |st.fields| + 1 else |st.fields|
  }

  lemma ColumnAppends(c: Codec, env: Env, revision: nat, rows: nat)
    ensures Appends(ColumnReader(c, env, revision, rows))
  {
  }

  lemma {:induction false} ColumnsAppend(read: ColumnRead, i: nat, n: nat, st: ReadState, bytes: seq<byte>)
    requires i <= n && Appends(read)
    ensures var (r, st') := ReadColumns(read, i, n, st, bytes);
            && st.fields <= st'.fields && st.columns <= st'.columns
            && (r.Ok? ==> |st'.fields| == |st.fields| + (n - i))
    decreases n - i
  {
    if i < n {
      var (r, next) := read(i, st, bytes);
      if r.Ok? { ColumnsAppend(read, i + 1, n, next, r.value); }
    }
  }

  /** Fields a broken-off read left behind come first in the next batch. */
  lemma LeftoversFirst(c: Codec, env: Env, revision: nat, st: ReadState, bytes: seq<byte>)
    requires ReadBlock(c, env, revision, st, bytes).0.Ok?
    ensures var batch := ReadBlock(c, env, revision, st, bytes).0.value.0;
            batch == Batch([], [], 0) || (st.fields <= batch.fields && st.columns <= batch.columns)
  {
    var front := ReadInfo(DEFAULT_INFO, bytes).value.1;
    var (n, rows, body) := ReadCounts(front).value;
    ColumnAppends(c, env, revision, rows);
    ColumnsAppend(ColumnReader(c, env, revision, rows), 0, n, st, body);
  }

  /** The same state with more fields and arrays in front. */
  function Behind(fs: seq<ColumnField>, cs: seq<Column>, st: ReadState): ReadState {
    st.(fields := fs + st.fields, columns := cs + st.columns)
  }

  /** A read of one column does not look at the fields and arrays before it. */
  ghost predicate Blind(read: ColumnRead, fs: seq<ColumnField>, cs: seq<Column>) {
    forall i, st, bytes ::
      read(i, Behind(fs, cs, st), bytes) == (read(i, st, bytes).0, Behind(fs, cs, read(i, st, bytes).1))
  }

  lemma PushBehind(fs: seq<ColumnField>, cs: seq<Column>, st: ReadState, f: ColumnField, col: Column)
    ensures Push(Behind(fs, cs, st), f, col) == Behind(fs, cs, Push(st, f, col))
  {
    ConcatAssoc(fs, st.fields, [f]);
    ConcatAssoc(cs, st.columns, [col]);
  }

  lemma ColumnBlind(c: Codec, env: Env, revision: nat, rows: nat, fs: seq<ColumnField>, cs: seq<Column>)
    ensures Blind(ColumnReader(c, env, revision, rows), fs, cs)
  {
    forall i, st, bytes
      ensures ReadColumn(c, env, revision, rows, i, Behind(fs, cs, st), bytes)
           == (ReadColumn(c, env, revision, rows, i, st, bytes).0,
               Behind(fs, cs, ReadColumn(c, env, revision, rows, i, st, bytes).1))
    {
      OneColumnBlind(c, env, revision, rows, i, fs, cs, st, bytes);
    }
  }

  lemma OneColumnBlind(c: Codec, env: Env, revision: nat, rows: nat, i: nat, fs: seq<ColumnField>, cs: seq<Column>,
      st: ReadState, bytes: seq<byte>)
    ensures ReadColumn(c, env, revision, rows, i, Behind(fs, cs, st), bytes)
         == (ReadColumn(c, env, revision, rows, i, st, bytes).0,
             Behind(fs, cs, ReadColumn(c, env, revision, rows, i, st, bytes).1))
  {
    var head := ReadHead(c, env, revision, bytes);
    if head.Ok? {
      var (f, hint, rest) := head.value;
      if rows == 0 {
        PushBehind(fs, cs, st, f, Column(f.dataType, []));
      } else if EnsureBuilder(st.builders, i, hint, f.dataType).Ok? {
        var builders := EnsureBuilder(st.builders, i, hint, f.dataType).value;
        var k := BuilderAt(builders, i);
        match c.decode(hint, builders[k].builder, builders[k].leftover, rows, rest)
        case Failed(_) =>
        case Done(cells, _) =>
          PushBehind(fs, cs, st.(builders := builders[k := builders[k].(leftover := [])]), f,
            Column(MadeType(builders[k].builder, f.dataType), cells));
      }
    }
  }

  lemma {:induction false} ColumnsBlind(read: ColumnRead, i: nat, n: nat, fs: seq<ColumnField>, cs: seq<Column>,
      st: ReadState, bytes: seq<byte>)
    requires i <= n && Blind(read, fs, cs)
    ensures ReadColumns(read, i, n, Behind(fs, cs, st), bytes)
         == (ReadColumns(read, i, n, st, bytes).0, Behind(fs, cs, ReadColumns(read, i, n, st, bytes).1))
    decreases n - i
  {
    if i < n {
      assert read(i, Behind(fs, cs, st), bytes) == (read(i, st, bytes).0, Behind(fs, cs, read(i, st, bytes).1));
      var (r, next) := read(i, st, bytes);
      if r.Ok? { ColumnsBlind(read, i + 1, n, fs, cs, next, r.value); }
    }
  }

  lemma SameBatchIff(fs: seq<ColumnField>, cs: seq<Column>, fields: seq<ColumnField>, columns: seq<Column>)
    requires MakeBatch(fields, columns).Ok?
    ensures MakeBatch(fs + fields, cs + columns) == MakeBatch(fields, columns) <==> fs == [] && cs == []
  {
    if fs == [] && cs == [] {
      assert fs + fields == fields && cs + columns == columns;
    }
    if MakeBatch(fs + fields, cs + columns) == MakeBatch(fields, columns) {
      assert |fs + fields| == |fields| && |cs + columns| == |columns|;
    }
  }

  /** A batch with columns comes out the same through a state that holds fields or arrays as
      through one that does not if and only if it holds none. */
  lemma LeftoverFieldsLeak(c: Codec, env: Env, revision: nat, builders: seq<Cached>, fs: seq<ColumnField>, cs: seq<Column>,
      bytes: seq<byte>)
    requires ReadBlock(c, env, revision, ReadState(builders, [], []), bytes).0.Ok?
    requires ReadBlock(c, env, revision, ReadState(builders, [], []), bytes).0.value.0 != Batch([], [], 0)
    ensures ReadBlock(c, env, revision, ReadState(builders, fs, cs), bytes).0
         == ReadBlock(c, env, revision, ReadState(builders, [], []), bytes).0
       <==> fs == [] && cs == []
  {
    var st := ReadState(builders, [], []);
    var front := ReadInfo(DEFAULT_INFO, bytes).value.1;
    var (n, rows, body) := ReadCounts(front).value;
    var read := ColumnReader(c, env, revision, rows);
    ColumnBlind(c, env, revision, rows, fs, cs);
    ColumnsBlind(read, 0, n, fs, cs, st, body);
    assert fs + [] == fs && cs + [] == cs;
    assert Behind(fs, cs, st) == ReadState(builders, fs, cs);
    var (r, st') := ReadColumns(read, 0, n, st, body);
    SameBatchIff(fs, cs, st'.fields, st'.columns);
  }

  /** What reading the first `k` columns of a block leaves. */
  function CutState(env: Env, types: seq<Type>, batch: Batch, k: nat): ReadState
    requires |batch.fields| == |batch.columns| == |types| && AllArrive(env, types) && k <= |types|
  {
    ReadState(if batch.rows == 0 then [] else BuildersFor(env, types)[..k],
              FieldsFor(env, batch.fields, types)[..k], ColumnsFor(env, batch.columns, types)[..k])
  }

  /** A block whose bytes end behind any `k` of its columns: the read fails, and the state is
      left with the fields and arrays of exactly those columns. */
  lemma BrokenOffLeaves(c: Codec, env: Env, revision: nat, header: seq<(seq<byte>, Type)>, types: seq<Type>, batch: Batch,
      k: nat) returns (cut: nat)
    requires revision > 0 && SendableBatch(c, env, header, types, batch) && k < |batch.fields|
    requires WriteBlock(c, env, revision, header, batch).Some?
    ensures AllArrive(env, types)
    ensures cut <= |WriteBlock(c, env, revision, header, batch).value|
    ensures ReadBlock(c, env, revision, FRESH, WriteBlock(c, env, revision, header, batch).value[..cut])
         == (Err(BadBytes), CutState(env, types, batch, k))
  {
    AllSentArrive(c, env, header, batch.fields, batch.columns, types, batch.rows);
    var pieces := BlockPieces(c, env, revision, header, batch);
    cut := CutBytes(InfoBytes(DEFAULT_INFO), Counts(batch), pieces, k, WriteBlock(c, env, revision, header, batch).value);
    CutColumns(c, env, revision, header, batch, types, pieces, k);
    BodyFails(c, env, revision, batch, Concat(pieces[..k]), CutState(env, types, batch, k));
  }

  lemma BlockPieces(c: Codec, env: Env, revision: nat, header: seq<(seq<byte>, Type)>, batch: Batch)
      returns (pieces: seq<seq<byte>>)
    requires revision > 0 && |batch.fields| == |batch.columns| && WriteBlock(c, env, revision, header, batch).Some?
    ensures |pieces| == |batch.fields|
    ensures WriteBlock(c, env, revision, header, batch).value == InfoBytes(DEFAULT_INFO) + (Counts(batch) + Concat(pieces))
    ensures forall j | 0 <= j < |pieces| ::
              WriteColumn(c, env, revision, header, batch.fields[j], batch.columns[j]) == Some(pieces[j])
  {
    pieces := WrittenPieces(c, env, revision, header, batch.fields, batch.columns);
  }

  /** Behind info and counts, what fails is the reading of the columns. */
  lemma BodyFails(c: Codec, env: Env, revision: nat, batch: Batch, body: seq<byte>, st: ReadState)
    requires |batch.fields| < TWO63 && batch.rows < TWO63 && batch.fields != []
    requires ReadColumns(ColumnReader(c, env, revision, batch.rows), 0, |batch.fields|, FRESH, body) == (Err(BadBytes), st)
    ensures ReadBlock(c, env, revision, FRESH, InfoBytes(DEFAULT_INFO) + (Counts(batch) + body)) == (Err(BadBytes), st)
  {
    InfoReadsBack(DEFAULT_INFO, DEFAULT_INFO, Counts(batch) + body);
    CountsReadBack(batch, body);
  }

  lemma CutColumns(c: Codec, env: Env, revision: nat, header: seq<(seq<byte>, Type)>, batch: Batch, types: seq<Type>,
      pieces: seq<seq<byte>>, k: nat)
    requires AllSendable(c, env, header, batch.fields, batch.columns, types, batch.rows) && AllArrive(env, types)
    requires |pieces| == |batch.fields| && k < |batch.fields|
    requires forall j | 0 <= j < |pieces| ::
               WriteColumn(c, env, revision, header, batch.fields[j], batch.columns[j]) == Some(pieces[j])
    ensures ReadColumns(ColumnReader(c, env, revision, batch.rows), 0, |batch.fields|, FRESH, Concat(pieces[..k]))
         == (Err(BadBytes), CutState(env, types, batch, k))
  {
    var rows, n := batch.rows, |batch.fields|;
    var read, gains := ColumnReader(c, env, revision, rows), GainsFor(env, batch.fields, batch.columns, types);
    PiecesAreRead(c, env, revision, header, batch.fields, batch.columns, types, rows, pieces);
    forall j | 0 <= j < k ensures ReadsAs(read, 0 + j, gains[..k][j], rows, pieces[..k][j]) {
      assert ReadsAs(read, 0 + j, gains[j], rows, pieces[j]);
    }
    PiecesRead(read, 0, n, gains[..k], rows, pieces[..k], FRESH, []);
    assert Concat(pieces[..k]) + [] == Concat(pieces[..k]);
    CutGains(env, batch.fields, batch.columns, types, rows, k);
    EndRefused(c, env, revision, rows, k, n, GainAll(gains[..k], rows, FRESH));
  }

  lemma CutBytes(info: seq<byte>, counts: seq<byte>, pieces: seq<seq<byte>>, k: nat, whole: seq<byte>) returns (cut: nat)
    requires k <= |pieces| && whole == info + (counts + Concat(pieces))
    ensures cut <= |whole| && whole[..cut] == info + (counts + Concat(pieces[..k]))
  {
    cut := |info| + |counts| + |Concat(pieces[..k])|;
    ConcatAppend(pieces[..k], pieces[k..]);
    assert pieces[..k] + pieces[k..] == pieces;
    var early, late := Concat(pieces[..k]), Concat(pieces[k..]);
    ConcatAssoc(counts, early, late);
    ConcatAssoc(info, counts + early, late);
    assert ((info + (counts + early)) + late)[..|info + (counts + early)|] == info + (counts + early);
  }

  lemma EndRefused(c: Codec, env: Env, revision: nat, rows: nat, i: nat, n: nat, st: ReadState)
    requires i < n
    ensures ReadColumns(ColumnReader(c, env, revision, rows), i, n, st, []) == (Err(BadBytes), st)
  {
    assert DecodeString([]).Err?;
    assert ReadColumn(c, env, revision, rows, i, st, []) == (Err(BadBytes), st);
  }

  lemma CutGains(env: Env, fields: seq<ColumnField>, columns: seq<Column>, types: seq<Type>, rows: nat, k: nat)
    requires |fields| == |columns| == |types| && AllArrive(env, types) && k <= |fields|
    ensures GainAll(GainsFor(env, fields, columns, types)[..k], rows, FRESH)
         == ReadState(if rows == 0 then [] else BuildersFor(env, types)[..k], FieldsFor(env, fields, types)[..k],
                      ColumnsFor(env, columns, types)[..k])
  {
    var gains := GainsFor(env, fields, columns, types)[..k];
    GainAllIs(gains, rows, FRESH);
    assert [] + seq(|gains|, i requires 0 <= i < |gains| => gains[i].field) == FieldsFor(env, fields, types)[..k];
    assert [] + seq(|gains|, i requires 0 <= i < |gains| => gains[i].column) == ColumnsFor(env, columns, types)[..k];
    assert [] + seq(|gains|, i requires 0 <= i < |gains| => gains[i].builder) == BuildersFor(env, types)[..k];
  }

  /** The writer leaves block info out for revision 0; the reader reads it all the same, and
      takes a column count of three or more for an unknown info field. */
  lemma RevisionZeroRefused(c: Codec, env: Env, header: seq<(seq<byte>, Type)>, batch: Batch, st: ReadState, rest: seq<byte>)
    requires |batch.fields| == |batch.columns| && 3 <= |batch.fields| < TWO63
    requires WriteBlock(c, env, 0, header, batch).Some?
    ensures ReadBlock(c, env, 0, st, WriteBlock(c, env, 0, header, batch).value + rest) == (Err(UnknownInfoField), st)
  {
    var body := WriteColumns(c, env, 0, header, batch.fields, batch.columns).value;
    var n, rows := Varint(|batch.fields|), Varint(batch.rows);
    assert WriteBlock(c, env, 0, header, batch).value + rest == n + (rows + (body + rest)) by {
      assert [] + (Counts(batch) + body) == Counts(batch) + body;
      ConcatAssoc(n + rows, body, rest);
      ConcatAssoc(n, rows, body + rest);
    }
    VarintRoundTripIff(|batch.fields|, rows + (body + rest));
  }

  /** Decoders never give back more bytes than they were given. */
  ghost predicate Shortens(c: Codec) {
    forall hint, b, leftover, rows, bytes ::
      var d := c.decode(hint, b, leftover, rows, bytes);
      d.Done? ==> |d.rest| <= |bytes|
  }

  lemma {:induction false} ColumnsShorten(c: Codec, env: Env, revision: nat, rows: nat, i: nat, n: nat, st: ReadState,
      bytes: seq<byte>)
    requires i <= n && Shortens(c)
    ensures var (r, _) := ReadColumns(ColumnReader(c, env, revision, rows), i, n, st, bytes);
            r.Ok? ==> |r.value| <= |bytes|
    decreases n - i
  {
    if i < n {
      var (r, next) := ReadColumn(c, env, revision, rows, i, st, bytes);
      if r.Ok? { ColumnsShorten(c, env, revision, rows, i + 1, n, next, r.value); }
    }
  }

  /** A block without columns at revision 0: its column count ends the info, its row count is
      taken for the column count, and the row count is read from the bytes behind the block. */
  lemma RevisionZeroNoColumns(c: Codec, env: Env, header: seq<(seq<byte>, Type)>, rows: nat, st: ReadState, rest: seq<byte>)
    requires Shortens(c) && rows < TWO63
    ensures WriteBlock(c, env, 0, header, Batch([], [], rows)).Some?
    ensures var (r, _) := ReadBlock(c, env, 0, st, WriteBlock(c, env, 0, header, Batch([], [], rows)).value + rest);
            r.Ok? ==> |r.value.1| < |rest|
  {
    assert [] + (Counts(Batch([], [], rows)) + []) == Varint(0) + Varint(rows);
    ConcatAssoc(Varint(0), Varint(rows), rest);
    VarintRoundTripIff(0, Varint(rows) + rest);
    VarintRoundTripIff(rows, rest);
    if DecodeVarint(rest).Ok? {
      var (more, body) := DecodeVarint(rest).value;
      ColumnsShorten(c, env, 0, more, 0, rows, st, body);
    }
  }

  lemma ShortVarint(n: nat, rest: seq<byte>)
    requires n < 0x80
    ensures Varint(n) == [n] && DecodeVarint([n] + rest) == Ok((n, rest))
  {
    assert VarintBytes(n, MAX_VARINT) == [Octet(n)];
    VarintRoundTripIff(n, rest);
  }

  /** A number of an unknown field ends the reading of the info. */
  lemma UnknownField(info: Info, n: nat, rest: seq<byte>)
    requires 3 <= n < TWO63
    ensures ReadInfo(info, Varint(n) + rest) == Err(UnknownInfoField)
  {
    VarintRoundTripIff(n, rest);
  }

  /** What a block of columns begins with at revision 0. */
  lemma RevisionZeroBytes(c: Codec, env: Env, header: seq<(seq<byte>, Type)>, batch: Batch, rest: seq<byte>)
      returns (tail: seq<byte>)
    requires |batch.fields| == |batch.columns| && batch.fields != []
    requires WriteBlock(c, env, 0, header, batch).Some?
    ensures SentType(env, header, batch.fields[0]).Some?
    ensures WriteBlock(c, env, 0, header, batch).value + rest
         == Varint(|batch.fields|) + (Varint(batch.rows) + (StringBytes(batch.fields[0].name)
              + (StringBytes(c.show(SentType(env, header, batch.fields[0]).value)) + tail)))
  {
    var n, rows, name := Varint(|batch.fields|), Varint(batch.rows), StringBytes(batch.fields[0].name);
    var body := WriteColumns(c, env, 0, header, batch.fields, batch.columns).value;
    var behind := FirstName(c, env, header, batch.fields, batch.columns);
    var kind := StringBytes(c.show(SentType(env, header, batch.fields[0]).value));
    tail := behind + rest;
    assert [] + (Counts(batch) + body) == (n + rows) + body;
    ConcatAssoc(n + rows, body, rest);
    ConcatAssoc(n, rows, body + rest);
    ConcatAssoc(name, kind + behind, rest);
    ConcatAssoc(kind, behind, rest);
  }

  lemma FirstName(c: Codec, env: Env, header: seq<(seq<byte>, Type)>, fields: seq<ColumnField>, columns: seq<Column>)
      returns (behind: seq<byte>)
    requires |fields| == |columns| && fields != [] && WriteColumns(c, env, 0, header, fields, columns).Some?
    ensures SentType(env, header, fields[0]).Some?
    ensures WriteColumns(c, env, 0, header, fields, columns).value
         == StringBytes(fields[0].name) + (StringBytes(c.show(SentType(env, header, fields[0]).value)) + behind)
  {
    var t, col := SentType(env, header, fields[0]).value, columns[0];
    var name, kind := StringBytes(fields[0].name), StringBytes(c.show(t));
    var body := if col.cells == [] then [] else c.encode(t, col.cells).value;
    var later := WriteColumns(c, env, 0, header, fields[1..], columns[1..]).value;
    assert kind + CustomByte(0) == kind && (name + kind) + [] == name + kind;
    behind := body + later;
    ConcatAssoc(name, kind, body + later);
    ConcatAssoc(name + kind, body, later);
  }

  /** A text of at least one byte and fewer than 128, none of them below 3 or above 127. */
  predicate Readable(text: seq<byte>) {
    0 < |text| < 0x80 && forall i | 0 <= i < |text| :: 3 <= text[i] < 0x80
  }

  /** Bytes at which reading info stops within the first few: a short length, then bytes that
      are no field numbers. */
  predicate Stopping(s: seq<byte>) {
    |s| >= 6 && 0 < s[0] < 0x80 && forall i | 1 <= i < 6 :: 3 <= s[i] < 0x80
  }

  lemma NameStops(name: seq<byte>, kind: seq<byte>, tail: seq<byte>)
    requires Readable(name) && Readable(kind) && |kind| >= 3
    ensures Stopping(StringBytes(name) + (StringBytes(kind) + tail))
  {
    ShortVarint(|name|, []);
    ShortVarint(|kind|, []);
    var s := ([|name|] + name) + (([|kind|] + kind) + tail);
    forall i | 1 <= i < 6 ensures 3 <= s[i] < 0x80 {
      var j := i - 1 - |name|;
      assert s[i] == if i <= |name| then name[i - 1] else if j == 0 then |kind| else kind[j - 1];
    }
  }

  lemma ByteStops(info: Info, s: seq<byte>, i: nat)
    requires Stopping(s) && 1 <= i < 6
    ensures ReadInfo(info, s[i..]) == Err(UnknownInfoField)
  {
    assert s[i..] == [s[i]] + s[i + 1..];
    ShortVarint(s[i], s[i + 1..]);
    UnknownField(info, s[i], s[i + 1..]);
  }

  lemma StartStops(info: Info, s: seq<byte>)
    requires Stopping(s)
    ensures ReadInfo(info, s) == Err(UnknownInfoField)
  {
    assert s == [s[0]] + s[1..];
    ShortVarint(s[0], s[1..]);
    NumberStops(info, s[0], s[1..], s);
  }

  /** A field number in front of the rest of such bytes. */
  lemma NumberStops(info: Info, n: nat, rest: seq<byte>, s: seq<byte>)
    requires Stopping(s) && 0 < n < TWO63 && (rest == s || rest == s[1..])
    ensures ReadInfo(info, Varint(n) + rest) == Err(UnknownInfoField)
  {
    var skip := if rest == s then 0 else 1;
    assert rest == s[skip..];
    VarintRoundTripIff(n, rest);
    if n == 1 {
      assert rest[1..] == s[skip + 1..];
      ByteStops(info.(isOverflows := rest[0] != 0), s, skip + 1);
    } else if n == 2 {
      assert rest[4..] == s[skip + 4..];
      ByteStops(info.(bucket := AsI32(FromLE(rest[..4]))), s, skip + 4);
    }
  }

  /** The bytes of a number but the first are those of the number without its low group. */
  lemma VarintTail(n: nat)
    requires n < TWO63
    ensures |Varint(n)| > 0
    ensures Varint(n)[1..] == if n < 0x80 then [] else Varint(n / 0x80)
  {
    if n >= 0x80 { SlotsSpare(n / 0x80, MAX_VARINT - 1); }
  }

  lemma {:induction false} SlotsSpare(v: nat, slots: nat)
    requires slots > 0 && v < Pow128(slots)
    ensures VarintBytes(v, slots + 1) == VarintBytes(v, slots)
    decreases slots
  {
    if v >= 0x80 { SlotsSpare(v / 0x80, slots - 1); }
  }

  /** Some bytes of the row count are taken; what is left of it, or the bytes behind it, stops
      the reading. */
  lemma RowsStop(info: Info, rows: nat, s: seq<byte>, taken: nat)
    requires Stopping(s) && rows < TWO63 && taken <= 4
    ensures taken <= |Varint(rows) + s|
    ensures taken > 0 ==> ReadInfo(info, (Varint(rows) + s)[taken..]) == Err(UnknownInfoField)
    decreases taken
  {
    VarintTail(rows);
    if taken > 0 {
      if rows < 0x80 {
        assert Varint(rows) + s == Varint(rows) + s && |Varint(rows)| == 1;
        assert (Varint(rows) + s)[taken..] == s[taken - 1..];
        if taken == 1 { assert s[0..] == s; StartStops(info, s); } else { ByteStops(info, s, taken - 1); }
      } else {
        var high := Varint(rows / 0x80);
        assert (Varint(rows) + s)[taken..] == (high + s)[taken - 1..];
        RowsStop(info, rows / 0x80, s, taken - 1);
        if taken == 1 {
          assert (high + s)[0..] == high + s;
          NumberStops(info, rows / 0x80, s, s);
        }
      }
    }
  }

  /** One or two columns at revision 0, with any number of rows: the column count is taken for
      an info field and bytes of the row count and the first names for its value, and what
      comes next is no info field. */
  lemma RevisionZeroFewColumns(c: Codec, env: Env, header: seq<(seq<byte>, Type)>, batch: Batch, st: ReadState, rest: seq<byte>)
    requires 1 <= |batch.fields| == |batch.columns| <= 2 && batch.rows < TWO63
    requires WriteBlock(c, env, 0, header, batch).Some? && SentType(env, header, batch.fields[0]).Some?
    requires Readable(batch.fields[0].name)
    requires var kind := c.show(SentType(env, header, batch.fields[0]).value); Readable(kind) && |kind| >= 3
    ensures ReadBlock(c, env, 0, st, WriteBlock(c, env, 0, header, batch).value + rest) == (Err(UnknownInfoField), st)
  {
    var tail := RevisionZeroBytes(c, env, header, batch, rest);
    var name, kind := batch.fields[0].name, c.show(SentType(env, header, batch.fields[0]).value);
    var s := StringBytes(name) + (StringBytes(kind) + tail);
    NameStops(name, kind, tail);
    var after := Varint(batch.rows) + s;
    VarintRoundTripIff(|batch.fields|, after);
    if |batch.fields| == 1 {
      RowsStop(DEFAULT_INFO.(isOverflows := after[0] != 0), batch.rows, s, 1);
    } else {
      RowsStop(DEFAULT_INFO.(bucket := AsI32(FromLE(after[..4]))), batch.rows, s, 4);
    }
  }

  /** One column at revision 0: the row count is taken for the overflow flag and the length
      of the name for an info field. */
  lemma RevisionZeroOneColumn(c: Codec, env: Env, header: seq<(seq<byte>, Type)>, batch: Batch, st: ReadState, rest: seq<byte>)
    requires |batch.fields| == |batch.columns| == 1 && batch.rows < 0x80 && 3 <= |batch.fields[0].name| < TWO63
    requires WriteBlock(c, env, 0, header, batch).Some?
    ensures ReadBlock(c, env, 0, st, WriteBlock(c, env, 0, header, batch).value + rest) == (Err(UnknownInfoField), st)
  {
    var behind := RevisionZeroBytes(c, env, header, batch, rest);
    var tail := StringBytes(c.show(SentType(env, header, batch.fields[0]).value)) + behind;
    var name := batch.fields[0].name;
    var after := StringBytes(name) + tail;
    ShortVarint(batch.rows, []);
    ShortVarint(1, [batch.rows] + after);
    assert ([batch.rows] + after)[1..] == after;
    ConcatAssoc(Varint(|name|), name, tail);
    UnknownField(DEFAULT_INFO.(isOverflows := batch.rows != 0), |name|, name + tail);
  }

  /** Two columns at revision 0: the row count, the length of the first name and its first two
      bytes are taken for the bucket number and the third byte for an info field. */
  lemma RevisionZeroTwoColumns(c: Codec, env: Env, header: seq<(seq<byte>, Type)>, batch: Batch, st: ReadState, rest: seq<byte>)
    requires |batch.fields| == |batch.columns| == 2 && batch.rows < 0x80
    requires 3 <= |batch.fields[0].name| < 0x80 && 3 <= batch.fields[0].name[2] < 0x80
    requires WriteBlock(c, env, 0, header, batch).Some?
    ensures ReadBlock(c, env, 0, st, WriteBlock(c, env, 0, header, batch).value + rest) == (Err(UnknownInfoField), st)
  {
    var behind := RevisionZeroBytes(c, env, header, batch, rest);
    var tail := StringBytes(c.show(SentType(env, header, batch.fields[0]).value)) + behind;
    var name := batch.fields[0].name;
    ShortVarint(batch.rows, []);
    var le, after := [batch.rows, |name|, name[0], name[1]], name[3..] + tail;
    ShortVarint(2, le + ([name[2]] + after));
    ShortVarint(|name|, []);
    ShortVarint(name[2], after);
    BucketBytes(batch.rows, name, tail);
    assert (le + ([name[2]] + after))[..4] == le && (le + ([name[2]] + after))[4..] == [name[2]] + after;
    UnknownField(DEFAULT_INFO.(bucket := AsI32(FromLE(le))), name[2], after);
  }

  lemma BucketBytes(rows: byte, name: seq<byte>, tail: seq<byte>)
    requires 3 <= |name| < 0x80
    ensures [rows] + (([|name|] + name) + tail) == [rows, |name|, name[0], name[1]] + ([name[2]] + (name[3..] + tail))
  {
    assert name == [name[0], name[1]] + ([name[2]] + name[3..]);
  }

  /** A batch of rows without columns is written, but no batch can be made of it. */
  lemma NoColumnsRefused(c: Codec, env: Env, revision: nat, header: seq<(seq<byte>, Type)>, rows: nat, rest: seq<byte>)
    requires 0 < rows < TWO63 && revision > 0
    ensures WriteBlock(c, env, revision, header, Batch([], [], rows)).Some?
    ensures ReadBlock(c, env, revision, FRESH, WriteBlock(c, env, revision, header, Batch([], [], rows)).value + rest)
         == (Err(BadBatch), FRESH)
  {
    var batch := Batch([], [], rows);
    ConcatAssoc(InfoBytes(DEFAULT_INFO), Counts(batch) + [], rest);
    ConcatAssoc(Counts(batch), [], rest);
    InfoReadsBack(DEFAULT_INFO, DEFAULT_INFO, Counts(batch) + ([] + rest));
    CountsReadBack(batch, [] + rest);
  }
}
