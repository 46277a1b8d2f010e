/** The bytes of a block, said byte by byte. */
module BlockLayout {
  import opened Common
  import opened Wire
  import opened ArrowTypes
  import opened TypeBuilder
  import opened Block

  // ---------------------------------------------------------------------------
  // The layout
  // ---------------------------------------------------------------------------

  /** A length and the text. */
  function TextBytes(text: seq<byte>): seq<byte> {
    Varint(|text|) + text
  }

  /** Entry `k` is the first of the server's header with this name. */
  predicate FirstInHeader(header: seq<(seq<byte>, Type)>, name: seq<byte>, k: nat) {
    k < |header| && header[k].0 == name && forall j | 0 <= j < k :: header[j].0 != name
  }

  /** Geo types stand for points of two floats, or for arrays of them. */
  function PlainType(t: Type): Type {
    match t
    case Geo(Point) => Type.Tuple([Simple(Scalar.Float64), Simple(Scalar.Float64)])
    case Geo(Ring) => Type.Array(Type.Tuple([Simple(Scalar.Float64), Simple(Scalar.Float64)]))
    case Geo(Polygon) => Type.Array(Type.Array(Type.Tuple([Simple(Scalar.Float64), Simple(Scalar.Float64)])))
    case Geo(MultiPolygon) =>
      Type.Array(Type.Array(Type.Array(Type.Tuple([Simple(Scalar.Float64), Simple(Scalar.Float64)]))))
    case _ => t
  }

  /** The type a column goes out as: the header's for its name, or else its Arrow type's. */
  ghost predicate GoesAs(env: Env, header: seq<(seq<byte>, Type)>, f: ColumnField, t: Type) {
    if exists k: nat :: FirstInHeader(header, f.name, k) then
      exists k: nat :: FirstInHeader(header, f.name, k) && t == PlainType(header[k].1)
    else
      exists u :: ToCh(env, f.dataType, f.nullable) == Ok(u) && t == PlainType(u)
  }

  /** Name, type name, from revision 54454 on one byte 0, and the values if there are any. */
  ghost predicate ColumnLaid(c: Codec, env: Env, revision: nat, header: seq<(seq<byte>, Type)>, f: ColumnField, col: Column,
      bytes: seq<byte>)
  {
    exists t, custom: seq<byte>, values: seq<byte> ::
      && GoesAs(env, header, f, t)
      && custom == (if revision >= 54454 then [0] else [])
      && (if col.cells == [] then values == [] else c.encode(t, col.cells) == Some(values))
      && bytes == TextBytes(f.name) + (TextBytes(c.show(t)) + (custom + values))
  }

  /** Block info unless the revision is 0: field 1 with the overflow flag unset, as 2; field 2
      with bucket -1; field 0.  Then the number of columns, the number of rows and the columns. */
  ghost predicate BlockLaid(c: Codec, env: Env, revision: nat, header: seq<(seq<byte>, Type)>, batch: Batch, bytes: seq<byte>)
    requires |batch.fields| == |batch.columns|
  {
    exists info: seq<byte>, pieces: seq<seq<byte>> ::
      && info == (if revision > 0 then [1, 2, 2, 255, 255, 255, 255, 0] else [])
      && |pieces| == |batch.fields|
      && (forall i | 0 <= i < |pieces| :: ColumnLaid(c, env, revision, header, batch.fields[i], batch.columns[i], pieces[i]))
      && bytes == info + (Varint(|batch.fields|) + (Varint(batch.rows) + Concat(pieces)))
  }

  // ---------------------------------------------------------------------------
  // The writer keeps to it
  // ---------------------------------------------------------------------------

  lemma {:induction false} HeaderFirst(header: seq<(seq<byte>, Type)>, name: seq<byte>)
    ensures HeaderType(header, name).Some? <==> exists k: nat :: FirstInHeader(header, name, k)
    ensures forall k: nat | FirstInHeader(header, name, k) :: HeaderType(header, name) == Some(header[k].1)
    decreases header
  {
    if header != [] {
      var later := header[1..];
      HeaderFirst(later, name);
      if header[0].0 == name {
        assert FirstInHeader(header, name, 0);
      } else {
        forall k: nat | FirstInHeader(header, name, k)
          ensures FirstInHeader(later, name, k - 1)
        {
          assert later[k - 1] == header[k];
        }
        forall k: nat | FirstInHeader(later, name, k)
          ensures FirstInHeader(header, name, k + 1)
        {
          assert header[k + 1] == later[k];
        }
      }
    }
  }

  lemma SimplifiedIsPlain(t: Type)
    ensures Simplified(t) == PlainType(t)
  {
    if t.Geo? {
      var point := Type.Tuple([FLOAT, FLOAT]);
      assert NestType(0) == point && NestType(1) == Type.Array(point);
      assert NestType(2) == Type.Array(Type.Array(point)) && NestType(3) == Type.Array(Type.Array(Type.Array(point)));
    }
  }

  lemma SentGoesAs(env: Env, header: seq<(seq<byte>, Type)>, f: ColumnField)
    ensures SentType(env, header, f).Some? ==> GoesAs(env, header, f, SentType(env, header, f).value)
    ensures SentType(env, header, f).None? ==> forall t :: !GoesAs(env, header, f, t)
    ensures forall t :: GoesAs(env, header, f, t) ==> SentType(env, header, f) == Some(t)
  {
    HeaderFirst(header, f.name);
    if HeaderType(header, f.name).Some? {
      var k: nat :| FirstInHeader(header, f.name, k);
      SimplifiedIsPlain(header[k].1);
    } else if ToCh(env, f.dataType, f.nullable).Ok? {
      SimplifiedIsPlain(ToCh(env, f.dataType, f.nullable).value);
    }
  }

  lemma WrittenColumnLaid(c: Codec, env: Env, revision: nat, header: seq<(seq<byte>, Type)>, f: ColumnField, col: Column)
    requires WriteColumn(c, env, revision, header, f, col).Some?
    ensures ColumnLaid(c, env, revision, header, f, col, WriteColumn(c, env, revision, header, f, col).value)
  {
    SentGoesAs(env, header, f);
    var t := SentType(env, header, f).value;
    var custom: seq<byte> := if revision >= 54454 then [0] else [];
    var values: seq<byte> := if col.cells == [] then [] else c.encode(t, col.cells).value;
    assert CustomByte(revision) == custom;
    ConcatAssoc(TextBytes(f.name), TextBytes(c.show(t)) + custom, values);
    ConcatAssoc(TextBytes(c.show(t)), custom, values);
    assert custom + [] == custom;
  }

  lemma InfoLaid()
    ensures InfoBytes(DEFAULT_INFO) == [1, 2, 2, 255, 255, 255, 255, 0]
  {
    assert Varint(0) == [0] && Varint(1) == [1] && Varint(2) == [2];
    assert AsU32(-1) == 0xFFFF_FFFF;
    assert LE(0, 0) == [] && LE(255, 1) == [255] + LE(0, 0);
    assert LE(0xFFFF, 2) == [255] + LE(255, 1);
    assert LE(0xFF_FFFF, 3) == [255] + LE(0xFFFF, 2);
    assert LE(0xFFFF_FFFF, 4) == [255] + LE(0xFF_FFFF, 3);
    assert LE(0xFFFF_FFFF, 4) == [255, 255, 255, 255];
  }

  lemma {:induction false} ColumnsLaid(c: Codec, env: Env, revision: nat, header: seq<(seq<byte>, Type)>,
      fields: seq<ColumnField>, columns: seq<Column>) returns (pieces: seq<seq<byte>>)
    requires |fields| == |columns| && WriteColumns(c, env, revision, header, fields, columns).Some?
    ensures |pieces| == |fields| && WriteColumns(c, env, revision, header, fields, columns) == Some(Concat(pieces))
    ensures forall i | 0 <= i < |pieces| :: ColumnLaid(c, env, revision, header, fields[i], columns[i], pieces[i])
    decreases |fields|
  {
    if fields == [] {
      pieces := [];
    } else {
      WrittenColumnLaid(c, env, revision, header, fields[0], columns[0]);
      var later := ColumnsLaid(c, env, revision, header, fields[1..], columns[1..]);
      pieces := [WriteColumn(c, env, revision, header, fields[0], columns[0]).value] + later;
      assert pieces[1..] == later;
      forall i | 0 < i < |pieces| ensures ColumnLaid(c, env, revision, header, fields[i], columns[i], pieces[i]) {
        assert ColumnLaid(c, env, revision, header, fields[1..][i - 1], columns[1..][i - 1], later[i - 1]);
      }
    }
  }

  /** What is written for a batch is laid out this way. */
  lemma WrittenBlockLaid(c: Codec, env: Env, revision: nat, header: seq<(seq<byte>, Type)>, batch: Batch)
    requires |batch.fields| == |batch.columns| && WriteBlock(c, env, revision, header, batch).Some?
    ensures BlockLaid(c, env, revision, header, batch, WriteBlock(c, env, revision, header, batch).value)
  {
    InfoLaid();
    var pieces := ColumnsLaid(c, env, revision, header, batch.fields, batch.columns);
    var info: seq<byte> := if revision > 0 then [1, 2, 2, 255, 255, 255, 255, 0] else [];
    ConcatAssoc(Varint(|batch.fields|), Varint(batch.rows), Concat(pieces));
    assert WriteBlock(c, env, revision, header, batch).value
        == info + (Varint(|batch.fields|) + (Varint(batch.rows) + Concat(pieces)));
  }

  /** A column can be written if and only if it has a type to go as and values that fit it. */
  ghost predicate Writable(c: Codec, env: Env, header: seq<(seq<byte>, Type)>, f: ColumnField, col: Column) {
    exists t :: GoesAs(env, header, f, t) && (col.cells == [] || c.encode(t, col.cells).Some?)
  }

  lemma ColumnWritableIff(c: Codec, env: Env, revision: nat, header: seq<(seq<byte>, Type)>, f: ColumnField, col: Column)
    ensures WriteColumn(c, env, revision, header, f, col).Some? <==> Writable(c, env, header, f, col)
  {
    SentGoesAs(env, header, f);
    if Writable(c, env, header, f, col) {
      var t :| GoesAs(env, header, f, t) && (col.cells == [] || c.encode(t, col.cells).Some?);
      assert SentType(env, header, f) == Some(t);
    }
  }

  lemma {:induction false} ColumnsWritableIff(c: Codec, env: Env, revision: nat, header: seq<(seq<byte>, Type)>,
      fields: seq<ColumnField>, columns: seq<Column>)
    requires |fields| == |columns|
    ensures WriteColumns(c, env, revision, header, fields, columns).Some?
       <==> forall i | 0 <= i < |fields| :: Writable(c, env, header, fields[i], columns[i])
    decreases |fields|
  {
    if fields != [] {
      ColumnWritableIff(c, env, revision, header, fields[0], columns[0]);
      ColumnsWritableIff(c, env, revision, header, fields[1..], columns[1..]);
      assert forall i | 0 < i < |fields| :: fields[i] == fields[1..][i - 1] && columns[i] == columns[1..][i - 1];
      if forall i | 0 <= i < |fields| :: Writable(c, env, header, fields[i], columns[i]) {
        forall i | 0 <= i < |fields[1..]| ensures Writable(c, env, header, fields[1..][i], columns[1..][i]) {
          assert fields[1..][i] == fields[i + 1] && columns[1..][i] == columns[i + 1];
        }
      }
    }
  }

  /** A batch can be written if and only if all its columns can. */
  lemma BlockWritableIff(c: Codec, env: Env, revision: nat, header: seq<(seq<byte>, Type)>, batch: Batch)
    requires |batch.fields| == |batch.columns|
    ensures WriteBlock(c, env, revision, header, batch).Some?
       <==> forall i | 0 <= i < |batch.fields| :: Writable(c, env, header, batch.fields[i], batch.columns[i])
  {
    ColumnsWritableIff(c, env, revision, header, batch.fields, batch.columns);
  }

  // ---------------------------------------------------------------------------
  // Reading
  // ---------------------------------------------------------------------------

  /** Whatever the bytes and the state, a batch that is read is one: as many columns as fields,
      each of its field's type and as long as there are rows, nulls only where they may be. */
  lemma ReadBatchSound(c: Codec, env: Env, revision: nat, st: ReadState, bytes: seq<byte>)
    requires ReadBlock(c, env, revision, st, bytes).0.Ok?
    ensures var batch := ReadBlock(c, env, revision, st, bytes).0.value.0;
            && |batch.fields| == |batch.columns|
            && forall i | 0 <= i < |batch.columns| ::
                 && |batch.columns[i].cells| == batch.rows
                 && batch.columns[i].dataType == batch.fields[i].dataType
                 && (None in batch.columns[i].cells ==> batch.fields[i].nullable)
  {
  }

  /** Every array read so far is of the type that its builder made. */
  ghost predicate AllMade(st: ReadState, n: nat) {
    && |st.fields| == |st.columns| == n <= |st.builders|
    && forall k | 0 <= k < n ::
         && !(st.fields[k].dataType == Plain(ArrowScalar.Null))
         && st.columns[k].dataType == if Fits(st.builders[k].builder, st.fields[k].dataType) then st.fields[k].dataType
                                      else Plain(ArrowScalar.Null)
  }

  lemma ArrivesTyped(env: Env, t: Type)
    requires ToArrow(env, t).Ok?
    ensures ToArrow(env, t).value.0 != Plain(ArrowScalar.Null)
  {
    if StripNull(t).Geo? { assert NestDataType(GeoDepth(StripNull(t).kind)).Struct? || NestDataType(GeoDepth(StripNull(t).kind)).ListLike?; }
  }

  lemma OneColumnMade(c: Codec, env: Env, revision: nat, rows: nat, i: nat, st: ReadState, bytes: seq<byte>)
    requires rows > 0 && AllMade(st, i)
    requires ReadColumn(c, env, revision, rows, i, st, bytes).0.Ok?
    ensures AllMade(ReadColumn(c, env, revision, rows, i, st, bytes).1, i + 1)
  {
    var (f, hint, rest) := ReadHead(c, env, revision, bytes).value;
    var (name, after) := DecodeString(bytes).value;
    var (typeName, more) := DecodeString(after).value;
    ArrivesTyped(env, c.parse(typeName).value);
    var st' := ReadColumn(c, env, revision, rows, i, st, bytes).1;
    assert forall k | 0 <= k < i :: st'.fields[k] == st.fields[k] && st'.columns[k] == st.columns[k];
    assert forall k | 0 <= k < i :: st'.builders[k].builder == st.builders[k].builder;
  }

  lemma {:induction false} ColumnsMade(c: Codec, env: Env, revision: nat, rows: nat, i: nat, n: nat, st: ReadState,
      bytes: seq<byte>)
    requires rows > 0 && i <= n && AllMade(st, i)
    ensures var (r, st') := ReadColumns(ColumnReader(c, env, revision, rows), i, n, st, bytes);
            r.Ok? ==> AllMade(st', n)
    decreases n - i
  {
    if i < n {
      var (r, next) := ReadColumn(c, env, revision, rows, i, st, bytes);
      if r.Ok? {
        OneColumnMade(c, env, revision, rows, i, st, bytes);
        ColumnsMade(c, env, revision, rows, i + 1, n, next, r.value);
      }
    }
  }

  /** A batch with rows is read only through builders that make its types: a cached builder of
      another type fails the batch. */
  lemma BuildersMakeTypes(c: Codec, env: Env, revision: nat, builders: seq<Cached>, bytes: seq<byte>)
    requires ReadBlock(c, env, revision, ReadState(builders, [], []), bytes).0.Ok?
    requires var info := ReadInfo(DEFAULT_INFO, bytes).value.1; ReadCounts(info).Ok? && ReadCounts(info).value.1 > 0
    ensures var (r, st) := ReadBlock(c, env, revision, ReadState(builders, [], []), bytes);
            var batch := r.value.0;
            && |batch.fields| <= |st.builders|
            && forall k | 0 <= k < |batch.fields| :: Fits(st.builders[k].builder, batch.fields[k].dataType)
  {
    var (n, rows, body) := ReadCounts(ReadInfo(DEFAULT_INFO, bytes).value.1).value;
    ColumnsMade(c, env, revision, rows, 0, n, ReadState(builders, [], []), body);
  }

  /** Block info as it may arrive: any fields 1 and 2, in any order, and a 0. */
  datatype InfoField = Overflows(flag: byte) | Bucket(bits: seq<byte>)

  function InfoSpelt(fields: seq<InfoField>): seq<byte> {
    if fields == [] then [0]
    else (match fields[0] case Overflows(flag) => [1, flag] case Bucket(bits) => [2] + bits) + InfoSpelt(fields[1..])
  }

  predicate LastFlag(fields: seq<InfoField>, k: nat) {
    k < |fields| && fields[k].Overflows? && forall j | k < j < |fields| :: !fields[j].Overflows?
  }

  predicate LastBucket(fields: seq<InfoField>, k: nat) {
    k < |fields| && fields[k].Bucket? && forall j | k < j < |fields| :: !fields[j].Bucket?
  }

  /** The bits, in two's complement. */
  predicate Number32(bits: seq<byte>, n: int) {
    -0x8000_0000 <= n < 0x8000_0000 && (n == FromLE(bits) || n == FromLE(bits) - 0x1_0000_0000)
  }

  /** The last flag counts, any byte but 0 as set, and so does the last bucket. */
  ghost predicate InfoMeans(info: Info, fields: seq<InfoField>, r: Info) {
    && (forall k: nat | LastFlag(fields, k) :: r.isOverflows == !(fields[k].flag == 0))
    && (forall k: nat | LastBucket(fields, k) :: Number32(fields[k].bits, r.bucket))
    && ((forall j | 0 <= j < |fields| :: !fields[j].Overflows?) ==> r.isOverflows == info.isOverflows)
    && ((forall j | 0 <= j < |fields| :: !fields[j].Bucket?) ==> r.bucket == info.bucket)
  }

  ghost predicate InfoRead(info: Info, fields: seq<InfoField>, rest: seq<byte>, r: Result<(Info, seq<byte>), BlockError>) {
    r.Ok? && r.value.1 == rest && InfoMeans(info, fields, r.value.0)
  }

  lemma SmallVarint(n: nat, rest: seq<byte>)
    requires n < 3
    ensures DecodeVarint([n] + rest) == Ok((n, rest))
  {
    assert Varint(0) == [0] && Varint(1) == [1] && Varint(2) == [2];
    VarintRoundTripIff(n, rest);
  }

  lemma FlagRead(info: Info, flag: byte, rest: seq<byte>)
    ensures ReadInfo(info, [1, flag] + rest) == ReadInfo(info.(isOverflows := !(flag == 0)), rest)
  {
    assert [1, flag] + rest == [1] + ([flag] + rest);
    SmallVarint(1, [flag] + rest);
    assert ([flag] + rest)[1..] == rest;
  }

  lemma BucketRead(info: Info, bits: seq<byte>, rest: seq<byte>) returns (n: int)
    requires |bits| == 4
    ensures Number32(bits, n) && ReadInfo(info, ([2] + bits) + rest) == ReadInfo(info.(bucket := n), rest)
  {
    n := AsI32(FromLE(bits));
    assert ([2] + bits) + rest == [2] + (bits + rest);
    SmallVarint(2, bits + rest);
    assert (bits + rest)[..4] == bits && (bits + rest)[4..] == rest;
    FromLEBound(bits);
    Pow256Values();
    DivModUnique(FromLE(bits), 0x1_0000_0000, 0, FromLE(bits));
  }

  lemma FieldMeans(info: Info, next: Info, fields: seq<InfoField>, r: Info)
    requires fields != [] && InfoMeans(next, fields[1..], r)
    requires fields[0].Overflows? ==> next == info.(isOverflows := !(fields[0].flag == 0))
    requires fields[0].Bucket? ==> next.isOverflows == info.isOverflows && Number32(fields[0].bits, next.bucket)
    ensures InfoMeans(info, fields, r)
  {
    var later := fields[1..];
    assert forall j | 0 < j < |fields| :: fields[j] == later[j - 1];
    forall k: nat | LastFlag(fields, k) ensures r.isOverflows == !(fields[k].flag == 0) {
      if k > 0 { assert LastFlag(later, k - 1); }
    }
    forall k: nat | LastBucket(fields, k) ensures Number32(fields[k].bits, r.bucket) {
      if k > 0 { assert LastBucket(later, k - 1); }
    }
  }

  /** However the fields of block info are arranged, they are read for what they mean. */
  lemma {:induction false} InfoReads(info: Info, fields: seq<InfoField>, rest: seq<byte>)
    requires forall k | 0 <= k < |fields| :: fields[k].Bucket? ==> |fields[k].bits| == 4
    ensures InfoRead(info, fields, rest, ReadInfo(info, InfoSpelt(fields) + rest))
    decreases fields
  {
    if fields == [] {
      SmallVarint(0, rest);
    } else {
      var more := InfoSpelt(fields[1..]);
      var next := info;
      if fields[0].Overflows? {
        var flag := fields[0].flag;
        next := info.(isOverflows := !(flag == 0));
        ConcatAssoc([1, flag], more, rest);
        FlagRead(info, flag, more + rest);
      } else {
        var bits := fields[0].bits;
        ConcatAssoc([2] + bits, more, rest);
        var n := BucketRead(info, bits, more + rest);
        next := info.(bucket := n);
      }
      InfoReads(next, fields[1..], rest);
      FieldMeans(info, next, fields, ReadInfo(next, more + rest).value.0);
    }
  }

  /** The head of a column as it arrives: a type name nobody knows, a type without an Arrow type
      and a missing byte are told apart; else the field has the name and the Arrow type. */
  lemma HeadRead(c: Codec, env: Env, revision: nat, name: seq<byte>, typeName: seq<byte>, rest: seq<byte>)
    requires |name| <= 0x4000_0000 && |typeName| <= 0x4000_0000
    ensures ReadHead(c, env, revision, TextBytes(name) + (TextBytes(typeName) + rest)) ==
              if c.parse(typeName).None? then Err(UnknownType)
              else
                var t := c.parse(typeName).value;
                if ToArrow(env, t).Err? then Err(NoArrowType)
                else if revision >= 54454 && rest == [] then Err(BadBytes)
                else
                  var (dt, nullable) := ToArrow(env, t).value;
                  Ok((ColumnField(name, dt, nullable), Hint(t, dt), if revision >= 54454 then rest[1..] else rest))
  {
    StringRoundTripIff(name, TextBytes(typeName) + rest);
    StringRoundTripIff(typeName, rest);
    assert StringBytes(name) == TextBytes(name) && StringBytes(typeName) == TextBytes(typeName);
  }

  /** What becomes of a cached builder: values read empty it, values that fail stay in it. */
  predicate Emptied(outcome: Decoded, was: Cached, now: Cached) {
    now.builder == was.builder && now.leftover == if outcome.Failed? then outcome.leftover else []
  }

  /** A column with rows behind a good head fails only for want of a builder, which leaves the
      state alone, or if its values fail under its own builder. */
  lemma ColumnFaults(c: Codec, env: Env, revision: nat, rows: nat, i: nat, st: ReadState, bytes: seq<byte>)
    requires rows > 0 && ReadHead(c, env, revision, bytes).Ok?
    ensures var (f, hint, rest) := ReadHead(c, env, revision, bytes).value;
            var (r, st') := ReadColumn(c, env, revision, rows, i, st, bytes);
            if i < |st.builders| then
              var was := st.builders[i];
              var outcome := c.decode(hint, was.builder, was.leftover, rows, rest);
              && r == (if outcome.Failed? then Err(ColumnFailed) else Ok(outcome.rest))
              && |st'.builders| == |st.builders| && Emptied(outcome, was, st'.builders[i])
              && forall k | 0 <= k < |st.builders| && k != i :: st'.builders[k] == st.builders[k]
            else if TryNew(hint, f.dataType).Err? then r == Err(NoBuilder) && st' == st
            else
              var was := Cached(TryNew(hint, f.dataType).value, []);
              var outcome := c.decode(hint, was.builder, [], rows, rest);
              && r == (if outcome.Failed? then Err(ColumnFailed) else Ok(outcome.rest))
              && |st'.builders| == |st.builders| + 1 && Emptied(outcome, was, st'.builders[|st.builders|])
              && forall k | 0 <= k < |st.builders| :: st'.builders[k] == st.builders[k]
  {
  }

  lemma {:induction false} ColumnsBlame(read: ColumnRead, i: nat, n: nat, st: ReadState, bytes: seq<byte>)
    requires i <= n && forall k, st, bytes :: read(k, st, bytes).0 != Err(BadBatch)
    ensures ReadColumns(read, i, n, st, bytes).0 != Err(BadBatch)
    decreases n - i
  {
    if i < n {
      var (r, st') := read(i, st, bytes);
      if r.Ok? { ColumnsBlame(read, i + 1, n, st', r.value); }
    }
  }

  /** Block info fails on bytes that end, or on a field that is none. */
  lemma {:induction false} InfoBlames(info: Info, bytes: seq<byte>)
    ensures ReadInfo(info, bytes).Err? ==> ReadInfo(info, bytes).error.BadBytes? || ReadInfo(info, bytes).error.UnknownInfoField?
    decreases |bytes|
  {
    if DecodeVarint(bytes).Ok? {
      var (n, rest) := DecodeVarint(bytes).value;
      if n == 1 && rest != [] { InfoBlames(info.(isOverflows := rest[0] != 0), rest[1..]); }
      if n == 2 && |rest| >= 4 { InfoBlames(info.(bucket := AsI32(FromLE(rest[..4]))), rest[4..]); }
    }
  }

  /** A batch that is put together, well or badly, leaves no field and no array in the state. */
  lemma BatchEmpties(c: Codec, env: Env, revision: nat, st: ReadState, bytes: seq<byte>)
    requires var r := ReadBlock(c, env, revision, st, bytes).0;
             r == Err(BadBatch) || (r.Ok? && r.value.0.fields != [])
    ensures var st' := ReadBlock(c, env, revision, st, bytes).1;
            st'.fields == [] && st'.columns == []
  {
    InfoBlames(DEFAULT_INFO, bytes);
    var front := ReadInfo(DEFAULT_INFO, bytes).value.1;
    var (n, rows, body) := ReadCounts(front).value;
    forall k, st, bytes ensures ColumnReader(c, env, revision, rows)(k, st, bytes).0 != Err(BadBatch) {
    }
    ColumnsBlame(ColumnReader(c, env, revision, rows), 0, n, st, body);
  }

  /** A column head at revision 54454 or later takes one byte more than at any before. */
  lemma HeadSkipsCustom(c: Codec, env: Env, bytes: seq<byte>, early: nat, late: nat)
    requires early < 54454 <= late && ReadHead(c, env, early, bytes).Ok?
    ensures var (f, hint, rest) := ReadHead(c, env, early, bytes).value;
            ReadHead(c, env, late, bytes) == if rest == [] then Err(BadBytes) else Ok((f, hint, rest[1..]))
  {
  }
}
