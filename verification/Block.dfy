/** Arrow record batches as native blocks: the writer, and the reader with the state it
    keeps from block to block. */
module Block {
  import opened Common
  import opened Wire
  import opened ArrowTypes
  import opened TypeBuilder

  /** First revision whose columns carry a custom-serialization byte. */
  const CUSTOM_SERIALIZATION := 54454

  // ---------------------------------------------------------------------------
  // Data model
  // ---------------------------------------------------------------------------

  type Cells = seq<Option<seq<byte>>>

  datatype ColumnField = ColumnField(name: seq<byte>, dataType: DataType, nullable: bool)

  datatype Column = Column(dataType: DataType, cells: Cells)

  datatype Batch = Batch(fields: seq<ColumnField>, columns: seq<Column>, rows: nat)

  /** What decoding one column leaves: all of it and the bytes behind, or what the builder
      had taken when it failed. */
  datatype Decoded = Done(cells: Cells, rest: seq<byte>) | Failed(leftover: Cells)

  /** How types are printed and parsed and how the values of one column are laid out. A
      decoder may depend on the builder it is given and on what is left in it. */
  datatype Codec = Codec(
    show: Type -> seq<byte>,
    parse: seq<byte> -> Option<Type>,
    encode: (Type, Cells) -> Option<seq<byte>>,
    decode: (Type, Builder, Cells, nat, seq<byte>) -> Decoded)

  /** A builder kept for the next block, and what is left in it: nothing, unless a read
      broke off. */
  datatype Cached = Cached(builder: Builder, leftover: Cells)

  datatype ReadState = ReadState(builders: seq<Cached>, fields: seq<ColumnField>, columns: seq<Column>)

  const FRESH := ReadState([], [], [])

  datatype BlockError =
    BadBytes | UnknownInfoField | UnknownType | NoArrowType | NoBuilder | ColumnFailed | BadBatch | NotEncodable

  // ---------------------------------------------------------------------------
  // Block info
  // ---------------------------------------------------------------------------

  datatype Info = Info(isOverflows: bool, bucket: int)

  const DEFAULT_INFO := Info(false, -1)

  function AsU32(n: int): nat {
    n % 0x1_0000_0000
  }

  function InfoBytes(info: Info): seq<byte> {
    Varint(1) + ([if info.isOverflows then 1 else 2] + (Varint(2) + (LE(AsU32(info.bucket), 4) + Varint(0))))
  }

  function ReadInfo(info: Info, bytes: seq<byte>): (r: Result<(Info, seq<byte>), BlockError>)
    ensures r.Ok? ==> |r.value.1| < |bytes|
    decreases |bytes|
  {
    match DecodeVarint(bytes)
    case Err(_) => Err(BadBytes)
    case Ok((n, rest)) =>
      if n == 0 then Ok((info, rest))
      else if n == 1 then
        if rest == [] then Err(BadBytes) else ReadInfo(info.(isOverflows := rest[0] != 0), rest[1..])
      else if n == 2 then
        if |rest| < 4 then Err(BadBytes) else ReadInfo(info.(bucket := AsI32(FromLE(rest[..4]))), rest[4..])
      else Err(UnknownInfoField)
  }

  // ---------------------------------------------------------------------------
  // Writing
  // ---------------------------------------------------------------------------

  function HeaderType(header: seq<(seq<byte>, Type)>, name: seq<byte>): Option<Type> {
    if header == [] then None
    else if header[0].0 == name then Some(header[0].1)
    else HeaderType(header[1..], name)
  }

  function Simplified(t: Type): Type {
    if t.Geo? then NormalizeGeo(t.kind) else t
  }

  /** The ClickHouse type a column is sent as: the server's, or else the one the Arrow type
      maps to. */
  function SentType(env: Env, header: seq<(seq<byte>, Type)>, f: ColumnField): Option<Type> {
    if HeaderType(header, f.name).Some? then Some(Simplified(HeaderType(header, f.name).value))
    else
      match ToCh(env, f.dataType, f.nullable)
      case Err(_) => None
      case Ok(t) => Some(Simplified(t))
  }

  /** The type a printed type names: the binary types print as the string types. */
  function Printed(t: Type): Type
    decreases t
  {
    match t
    case Simple(s) => Simple(if s.Binary? then Scalar.String else if s.FixedSizedBinary? then FixedSizedString(s.size) else s)
    case Nullable(x) => Nullable(Printed(x))
    case LowCardinality(x) => LowCardinality(Printed(x))
    case Array(x) => Array(Printed(x))
    case Tuple(items) => Tuple(PrintedAll(items))
    case Map(k, v) => Type.Map(Printed(k), Printed(v))
    case _ => t
  }

  function PrintedAll(items: seq<Type>): (r: seq<Type>)
    ensures |r| == |items|
    decreases items
  {
    if items == [] then [] else [Printed(items[0])] + PrintedAll(items[1..])
  }

  function CustomByte(revision: nat): seq<byte> {
    if revision >= CUSTOM_SERIALIZATION then [0] else []
  }

  function WriteColumn(c: Codec, env: Env, revision: nat, header: seq<(seq<byte>, Type)>, f: ColumnField, col: Column)
      : Option<seq<byte>>
  {
    match SentType(env, header, f)
    case None => None
    case Some(t) =>
      var head := StringBytes(f.name) + (StringBytes(c.show(t)) + CustomByte(revision));
      if col.cells == [] then Some(head)
      else
        match c.encode(t, col.cells)
        case None => None
        case Some(body) => Some(head + body)
  }

  function WriteColumns(c: Codec, env: Env, revision: nat, header: seq<(seq<byte>, Type)>, fields: seq<ColumnField>,
      columns: seq<Column>): Option<seq<byte>>
    requires |fields| == |columns|
    decreases |fields|
  {
    if fields == [] then Some([])
    else
      match WriteColumn(c, env, revision, header, fields[0], columns[0])
      case None => None
      case Some(bytes) =>
        match WriteColumns(c, env, revision, header, fields[1..], columns[1..])
        case None => None
        case Some(rest) => Some(bytes + rest)
  }

  function Counts(batch: Batch): seq<byte> {
    Varint(|batch.fields|) + Varint(batch.rows)
  }

  function WriteBlock(c: Codec, env: Env, revision: nat, header: seq<(seq<byte>, Type)>, batch: Batch): Option<seq<byte>>
    requires |batch.fields| == |batch.columns|
  {
    match WriteColumns(c, env, revision, header, batch.fields, batch.columns)
    case None => None
    case Some(body) => Some((if revision > 0 then InfoBytes(DEFAULT_INFO) else []) + (Counts(batch) + body))
  }

  method Write(c: Codec, env: Env, revision: nat, header: seq<(seq<byte>, Type)>, batch: Batch)
      returns (written: Option<seq<byte>>)
    requires |batch.fields| == |batch.columns|
    ensures written == WriteBlock(c, env, revision, header, batch)
  {
    var out: seq<byte> := [];
    if revision > 0 {
      out := InfoBytes(DEFAULT_INFO);
    }
    ghost var info := out;
    out := out + Varint(|batch.fields|);
    out := out + Varint(batch.rows);
    ConcatAssoc(info, Varint(|batch.fields|), Varint(batch.rows));
    var body := WriteAllColumns(c, env, revision, header, batch.fields, batch.columns);
    if body.None? {
      return None;
    }
    ConcatAssoc(info, Counts(batch), body.value);
    out := out + body.value;
    return Some(out);
  }

  method WriteAllColumns(c: Codec, env: Env, revision: nat, header: seq<(seq<byte>, Type)>, fields: seq<ColumnField>,
      columns: seq<Column>) returns (written: Option<seq<byte>>)
    requires |fields| == |columns|
    ensures written == WriteColumns(c, env, revision, header, fields, columns)
  {
    var out: seq<byte> := [];
    JoinedNothing(WriteColumns(c, env, revision, header, fields, columns));
    assert fields[0..] == fields && columns[0..] == columns;
    for i := 0 to |fields|
      invariant WriteColumns(c, env, revision, header, fields, columns)
             == Joined(out, WriteColumns(c, env, revision, header, fields[i..], columns[i..]))
    {
      assert fields[i..][1..] == fields[i + 1..] && columns[i..][1..] == columns[i + 1..];
      assert fields[i..][0] == fields[i] && columns[i..][0] == columns[i];
      var bytes := WriteColumn(c, env, revision, header, fields[i], columns[i]);
      if bytes.None? {
        return None;
      }
      JoinedStep(out, bytes.value, WriteColumns(c, env, revision, header, fields[i + 1..], columns[i + 1..]));
      out := out + bytes.value;
    }
    assert fields[|fields|..] == [] && out + [] == out;
    return Some(out);
  }

  function Joined(front: seq<byte>, rest: Option<seq<byte>>): Option<seq<byte>> {
    if rest.None? then None else Some(front + rest.value)
  }

  lemma JoinedNothing(rest: Option<seq<byte>>)
    ensures Joined([], rest) == rest
  {
    if rest.Some? { assert [] + rest.value == rest.value; }
  }

  lemma JoinedStep(front: seq<byte>, bytes: seq<byte>, rest: Option<seq<byte>>)
    ensures Joined(front, Joined(bytes, rest)) == Joined(front + bytes, rest)
  {
    if rest.Some? { ConcatAssoc(front, bytes, rest.value); }
  }

  // ---------------------------------------------------------------------------
  // Reading
  // ---------------------------------------------------------------------------

  /** The start of a column: its field, and the type its builder and values follow. */
  function ReadHead(c: Codec, env: Env, revision: nat, bytes: seq<byte>): Result<(ColumnField, Type, seq<byte>), BlockError> {
    match DecodeString(bytes)
    case Err(_) => Err(BadBytes)
    case Ok((name, after)) =>
      match DecodeString(after)
      case Err(_) => Err(BadBytes)
      case Ok((typeName, rest)) =>
        if c.parse(typeName).None? then Err(UnknownType)
        else
          var t := c.parse(typeName).value;
          match ToArrow(env, t)
          case Err(_) => Err(NoArrowType)
          case Ok((dt, nullable)) =>
            if revision < CUSTOM_SERIALIZATION then Ok((ColumnField(name, dt, nullable), Hint(t, dt), rest))
            else if rest == [] then Err(BadBytes)
            else Ok((ColumnField(name, dt, nullable), Hint(t, dt), rest[1..]))
  }

  /** The builder of column `i`: the cached one, or a new one at the end of the cache. */
  function EnsureBuilder(builders: seq<Cached>, i: nat, hint: Type, dt: DataType): (r: Result<seq<Cached>, BlockError>)
    ensures r.Ok? ==> r.value != []
  {
    if i < |builders| then Ok(builders)
    else
      match TryNew(hint, dt)
      case Err(_) => Err(NoBuilder)
      case Ok(b) => Ok(builders + [Cached(b, [])])
  }

  /** Where the builder of column `i` is: the cached one, or the last one pushed. */
  function BuilderAt(builders: seq<Cached>, i: nat): (k: nat)
    requires builders != []
    ensures k < |builders|
  {
    if i < |builders| then i else |builders| - 1
  }

  /** An array of a type the builder does not make is refused with the batch. */
  function MadeType(b: Builder, dt: DataType): DataType {
    if Fits(b, dt) then dt else Plain(Null)
  }

  function ReadColumn(c: Codec, env: Env, revision: nat, rows: nat, i: nat, st: ReadState, bytes: seq<byte>)
      : (Result<seq<byte>, BlockError>, ReadState)
  {
    match ReadHead(c, env, revision, bytes)
    case Err(e) => (Err(e), st)
    case Ok((f, hint, rest)) =>
      if rows == 0 then (Ok(rest), Push(st, f, Column(f.dataType, [])))
      else
        match EnsureBuilder(st.builders, i, hint, f.dataType)
        case Err(e) => (Err(e), st)
        case Ok(builders) =>
          var k := BuilderAt(builders, i);
          match c.decode(hint, builders[k].builder, builders[k].leftover, rows, rest)
          case Failed(leftover) => (Err(ColumnFailed), st.(builders := builders[k := builders[k].(leftover := leftover)]))
          case Done(cells, tail) =>
            (Ok(tail),
             Push(st.(builders := builders[k := builders[k].(leftover := [])]), f,
                  Column(MadeType(builders[k].builder, f.dataType), cells)))
  }

  function Push(st: ReadState, f: ColumnField, col: Column): ReadState {
    st.(fields := st.fields + [f], columns := st.columns + [col])
  }

  /** A way to read the column at a position through a state. */
  type ColumnRead = (nat, ReadState, seq<byte>) -> (Result<seq<byte>, BlockError>, ReadState)

  function ColumnReader(c: Codec, env: Env, revision: nat, rows: nat): ColumnRead {
    (i, st, bytes) => ReadColumn(c, env, revision, rows, i, st, bytes)
  }

  /** The columns from `i` on. */
  function ReadColumns(read: ColumnRead, i: nat, n: nat, st: ReadState, bytes: seq<byte>)
      : (Result<seq<byte>, BlockError>, ReadState)
    requires i <= n
    decreases n - i
  {
    if i == n then (Ok(bytes), st)
    else
      var (r, st') := read(i, st, bytes);
      match r
      case Err(e) => (Err(e), st')
      case Ok(rest) => ReadColumns(read, i + 1, n, st', rest)
  }

  /** `RecordBatch::try_new`: one column per field, of its type, all equally long, nulls only
      where the field allows them; the row count comes from the first column. */
  function MakeBatch(fields: seq<ColumnField>, columns: seq<Column>): Result<Batch, BlockError> {
    if && |fields| == |columns| && columns != []
       && (forall i | 0 <= i < |columns| :: |columns[i].cells| == |columns[0].cells|)
       && (forall i | 0 <= i < |columns| :: columns[i].dataType == fields[i].dataType)
       && (forall i | 0 <= i < |columns| :: fields[i].nullable || None !in columns[i].cells)
    then Ok(Batch(fields, columns, |columns[0].cells|))
    else Err(BadBatch)
  }

  function ReadCounts(bytes: seq<byte>): Result<(nat, nat, seq<byte>), BlockError> {
    match DecodeVarint(bytes)
    case Err(_) => Err(BadBytes)
    case Ok((n, after)) =>
      match DecodeVarint(after)
      case Err(_) => Err(BadBytes)
      case Ok((rows, rest)) => Ok((n, rows, rest))
  }

  function ReadBlock(c: Codec, env: Env, revision: nat, st: ReadState, bytes: seq<byte>)
      : (Result<(Batch, seq<byte>), BlockError>, ReadState)
  {
    match ReadInfo(DEFAULT_INFO, bytes)
    case Err(e) => (Err(e), st)
    case Ok((_, front)) =>
      match ReadCounts(front)
      case Err(e) => (Err(e), st)
      case Ok((n, rows, body)) =>
        if n == 0 && rows == 0 then (Ok((Batch([], [], 0), body)), st)
        else
          var (r, st') := ReadColumns(ColumnReader(c, env, revision, rows), 0, n, st, body);
          match r
          case Err(e) => (Err(e), st')
          case Ok(rest) =>
            match MakeBatch(st'.fields, st'.columns)
            case Err(e) => (Err(e), st'.(fields := [], columns := []))
            case Ok(batch) => (Ok((batch, rest)), st'.(fields := [], columns := []))
  }

  /** `ArrowDeserializerState`, one per query. */
  class ArrowDeserializer {
    var builders: seq<Cached>
    var fields: seq<ColumnField>
    var columns: seq<Column>

    function State(): ReadState
      reads this
    {
      ReadState(builders, fields, columns)
    }

    constructor ()
      ensures State() == FRESH
    {
      builders := [];
      fields := [];
      columns := [];
    }

    method Take() returns (fs: seq<ColumnField>, cs: seq<Column>)
      modifies this`fields, this`columns
      ensures fs == old(fields) && cs == old(columns) && fields == [] && columns == []
    {
      fs := fields;
      cs := columns;
      fields := [];
      columns := [];
    }

    /** The loop over the info fields. */
    method ReadBlockInfo(reader: Reader) returns (r: Result<Info, BlockError>)
      modifies reader
      ensures match ReadInfo(DEFAULT_INFO, old(reader.unread))
              case Err(e) => r == Err(e)
              case Ok((info, rest)) => r == Ok(info) && reader.unread == rest
    {
      var info := DEFAULT_INFO;
      while true
        invariant ReadInfo(info, reader.unread) == ReadInfo(DEFAULT_INFO, old(reader.unread))
        decreases |reader.unread|
      {
        var n := reader.ReadVarUint();
        if n.Err? {
          return Err(BadBytes);
        }
        if n.value == 0 {
          return Ok(info);
        } else if n.value == 1 {
          var b := reader.GetByte();
          if b.None? {
            return Err(BadBytes);
          }
          info := info.(isOverflows := b.value != 0);
        } else if n.value == 2 {
          if |reader.unread| < 4 {
            return Err(BadBytes);
          }
          info := info.(bucket := AsI32(FromLE(reader.unread[..4])));
          reader.unread := reader.unread[4..];
        } else {
          return Err(UnknownInfoField);
        }
      }
    }

    method ReadOneHead(c: Codec, env: Env, revision: nat, reader: Reader)
        returns (r: Result<(ColumnField, Type), BlockError>)
      modifies reader
      ensures match ReadHead(c, env, revision, old(reader.unread))
              case Err(e) => r == Err(e)
              case Ok((f, hint, rest)) => r == Ok((f, hint)) && reader.unread == rest
    {
      var name := reader.ReadString();
      if name.Err? {
        return Err(BadBytes);
      }
      var typeName := reader.ReadString();
      if typeName.Err? {
        return Err(BadBytes);
      }
      var t := c.parse(typeName.value);
      if t.None? {
        return Err(UnknownType);
      }
      var arrow := ToArrow(env, t.value);
      if arrow.Err? {
        return Err(NoArrowType);
      }
      var (dt, nullable) := arrow.value;
      if revision >= CUSTOM_SERIALIZATION {
        var custom := reader.GetByte();
        if custom.None? {
          return Err(BadBytes);
        }
      }
      return Ok((ColumnField(name.value, dt, nullable), Hint(t.value, dt)));
    }

    method ReadOneColumn(c: Codec, env: Env, revision: nat, rows: nat, i: nat, reader: Reader)
        returns (r: Result<(), BlockError>)
      modifies this, reader
      ensures var (result, st) := ReadColumn(c, env, revision, rows, i, old(State()), old(reader.unread));
              && State() == st
              && match result
                 case Err(e) => r == Err(e)
                 case Ok(rest) => r == Ok(()) && reader.unread == rest
    {
      var head := ReadOneHead(c, env, revision, reader);
      if head.Err? {
        return Err(head.error);
      }
      var (f, hint) := head.value;
      var col := Column(f.dataType, []);
      if rows > 0 {
        if i >= |builders| {
          var b := TryNew(hint, f.dataType);
          if b.Err? {
            return Err(NoBuilder);
          }
          builders := builders + [Cached(b.value, [])];
        }
        var k := BuilderAt(builders, i);
        match c.decode(hint, builders[k].builder, builders[k].leftover, rows, reader.unread) {
          case Failed(leftover) =>
            builders := builders[k := builders[k].(leftover := leftover)];
            return Err(ColumnFailed);
          case Done(cells, rest) =>
            reader.unread := rest;
            col := Column(MadeType(builders[k].builder, f.dataType), cells);
            builders := builders[k := builders[k].(leftover := [])];
        }
      }
      columns := columns + [col];
      fields := fields + [f];
      return Ok(());
    }

    method Read(c: Codec, env: Env, revision: nat, reader: Reader) returns (r: Result<Batch, BlockError>)
      modifies this, reader
      ensures var (result, st) := ReadBlock(c, env, revision, old(State()), old(reader.unread));
              && State() == st
              && match result
                 case Err(e) => r == Err(e)
                 case Ok((batch, rest)) => r == Ok(batch) && reader.unread == rest
    {
      var info := ReadBlockInfo(reader);
      if info.Err? {
        return Err(info.error);
      }
      var n := reader.ReadVarUint();
      if n.Err? {
        return Err(BadBytes);
      }
      var rows := reader.ReadVarUint();
      if rows.Err? {
        return Err(BadBytes);
      }
      if n.value == 0 && rows.value == 0 {
        return Ok(Batch([], [], 0));
      }
      ghost var read := ColumnReader(c, env, revision, rows.value);
      ghost var whole := ReadColumns(read, 0, n.value, State(), reader.unread);
      for i := 0 to n.value
        invariant ReadColumns(read, i, n.value, State(), reader.unread) == whole
      {
        var column := ReadOneColumn(c, env, revision, rows.value, i, reader);
        if column.Err? {
          return Err(column.error);
        }
      }
      var fs, cs := Take();
      r := MakeBatch(fs, cs);
    }
  }
}
