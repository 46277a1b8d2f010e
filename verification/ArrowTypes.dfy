/** The two type systems and the conversions between them. */
module ArrowTypes {
  import opened Common

  // ---------------------------------------------------------------------------
  // Types
  // ---------------------------------------------------------------------------

  /** A time zone of the zone database, by name. */
  datatype Tz = Tz(name: string)

  const UTC := Tz("UTC")

  /** ClickHouse types that are not built from others; decimals carry their scale. */
  datatype Scalar =
    | Int8 | Int16 | Int32 | Int64 | Int128 | Int256
    | UInt8 | UInt16 | UInt32 | UInt64 | UInt128 | UInt256
    | Float32 | Float64
    | Decimal32(scale: nat) | Decimal64(scale: nat) | Decimal128(scale: nat) | Decimal256(scale: nat)
    | String | FixedSizedString(size: nat) | Binary | FixedSizedBinary(size: nat)
    | Uuid | Date | Date32 | DateTime(tz: Tz) | DateTime64(precision: nat, tz: Tz)
    | Ipv4 | Ipv6 | Object

  datatype GeoKind = Point | Ring | Polygon | MultiPolygon

  datatype EnumWidth = Enum8 | Enum16

  /** A ClickHouse type. */
  datatype Type =
    | Simple(scalar: Scalar)
    | Geo(kind: GeoKind)
    | Enum(width: EnumWidth, pairs: seq<(string, int)>)
    | Nullable(inner: Type)
    | LowCardinality(inner: Type)
    | Array(inner: Type)
    | Tuple(items: seq<Type>)
    | Map(key: Type, value: Type)

  datatype TimeUnit = Second | Millisecond | Microsecond | Nanosecond

  /** Arrow types that are not built from others; decimal scales are 8-bit and binary
      sizes 32-bit signed. */
  datatype ArrowScalar =
    | Null | Boolean
    | Int8 | Int16 | Int32 | Int64 | UInt8 | UInt16 | UInt32 | UInt64
    | Float16 | Float32 | Float64
    | Decimal32(precision: nat, scale: int) | Decimal64(precision: nat, scale: int)
    | Decimal128(precision: nat, scale: int) | Decimal256(precision: nat, scale: int)
    | Date32 | Date64
    | Time32(unit: TimeUnit) | Time64(unit: TimeUnit) | Duration(unit: TimeUnit)
    | Timestamp(unit: TimeUnit, zone: Option<string>)
    | Interval
    | FixedSizeBinary(size: int)
    | Binary | LargeBinary | BinaryView | Utf8 | LargeUtf8 | Utf8View
    | Union | RunEndEncoded

  datatype ListKind = List | LargeList | ListView | LargeListView | FixedSizeList(length: int)

  /** `TupleField(i)` stands for the name `field_<i>`. */
  datatype FieldName = Item | Entries | Key | Value | TupleField(i: nat) | Other(name: string)

  datatype Field = Field(name: FieldName, dataType: DataType, nullable: bool)

  /** An Arrow data type. */
  datatype DataType =
    | Plain(scalar: ArrowScalar)
    | ListLike(list: ListKind, item: Field)
    | Dictionary(keyType: DataType, valueType: DataType)
    | Struct(fields: seq<Field>)
    | Map(entries: Field, sorted: bool)

  datatype ArrowOptions = ArrowOptions(
    stringsAsStrings: bool,
    useDate32ForDate: bool,
    strictSchema: bool,
    nullableArrayDefaultEmpty: bool)

  /** The options given to a conversion and the zone names the zone database knows. */
  datatype Env = Env(options: Option<ArrowOptions>, zones: set<string>)

  /** `Panic`: an `unreachable!` or `unwrap` in the source. */
  datatype TypeError = NotNullable | Unsupported | MalformedMap | Panic

  predicate IsNullable(t: Type) { t.Nullable? }

  function StripNull(t: Type): Type {
    if t.Nullable? then t.inner else t
  }

  // Casts between the integer widths of the two sides.

  function AsI8(n: nat): int {
    var low := n % 0x100;
    if low < 0x80 then low else low - 0x100
  }

  function AsI32(n: nat): int {
    var low := n % 0x1_0000_0000;
    if low < 0x8000_0000 then low else low - 0x1_0000_0000
  }

  /** A cast of any integer to the 64-bit size type. */
  function ToUsize(n: int): nat {
    n % 0x1_0000_0000_0000_0000
  }

  // ---------------------------------------------------------------------------
  // Arrow to ClickHouse
  // ---------------------------------------------------------------------------

  /** A zone name the database does not know falls back to UTC. */
  function ZoneOf(env: Env, name: Option<string>): Tz {
    match name
    case None => UTC
    case Some(n) => if n in env.zones then Tz(n) else UTC
  }

  function Strict(env: Env): bool {
    env.options.Some? && env.options.value.strictSchema
  }

  function RefusesNullableList(env: Env): bool {
    Strict(env) && !env.options.value.nullableArrayDefaultEmpty
  }

  /** `None` for the types that have no counterpart. */
  function ScalarToCh(env: Env, s: ArrowScalar): Option<Scalar> {
    match s
    case Int8 => Some(Scalar.Int8)
    case Int16 => Some(Scalar.Int16)
    case Int32 => Some(Scalar.Int32)
    case Int64 => Some(Scalar.Int64)
    case Interval => Some(Scalar.Int64)
    case UInt8 => Some(Scalar.UInt8)
    case Boolean => Some(Scalar.UInt8)
    case UInt16 => Some(Scalar.UInt16)
    case UInt32 => Some(Scalar.UInt32)
    case UInt64 => Some(Scalar.UInt64)
    case Float32 => Some(Scalar.Float32)
    case Float64 => Some(Scalar.Float64)
    case Decimal32(_, scale) => Some(Scalar.Decimal32(ToUsize(scale)))
    case Decimal64(_, scale) => Some(Scalar.Decimal64(ToUsize(scale)))
    case Decimal128(p, scale) =>
      if p <= 9 then Some(Scalar.Decimal32(ToUsize(scale)))
      else if p <= 18 then Some(Scalar.Decimal64(ToUsize(scale)))
      else if p <= 38 then Some(Scalar.Decimal128(ToUsize(scale)))
      else Some(Scalar.Decimal256(ToUsize(scale)))
    case Decimal256(_, scale) => Some(Scalar.Decimal256(ToUsize(scale)))
    case Date32 =>
      if env.options.Some? && env.options.value.useDate32ForDate then Some(Scalar.Date32) else Some(Scalar.Date)
    case Date64 => Some(Scalar.DateTime64(3, UTC))
    case Time32(unit) => Some(AtUnit(unit, UTC))
    case Time64(unit) => Some(AtUnit(unit, UTC))
    case Duration(unit) => Some(AtUnit(unit, UTC))
    case Timestamp(unit, zone) => Some(AtUnit(unit, ZoneOf(env, Some(if zone.Some? then zone.value else "UTC"))))
    case FixedSizeBinary(n) => Some(Scalar.FixedSizedBinary(ToUsize(n)))
    case Utf8 => Some(Scalar.String)
    case LargeUtf8 => Some(Scalar.String)
    case Utf8View => Some(Scalar.String)
    case Binary => Some(Scalar.Binary)
    case LargeBinary => Some(Scalar.Binary)
    case BinaryView => Some(Scalar.Binary)
    case _ => None
  }

  function AtUnit(unit: TimeUnit, tz: Tz): Scalar {
    match unit
    case Second => Scalar.DateTime(tz)
    case Millisecond => Scalar.DateTime64(3, tz)
    case Microsecond => Scalar.DateTime64(6, tz)
    case Nanosecond => Scalar.DateTime64(9, tz)
  }

  /** Nullability is kept except on arrays and maps. */
  function Wrap(nullable: bool, t: Type): Type {
    if nullable && !t.Array? && !t.Map? then Type.Nullable(t) else t
  }

  /** `arrow_to_ch_type`. */
  function ToCh(env: Env, dt: DataType, nullable: bool): Result<Type, TypeError>
    decreases dt
  {
    match dt
    case Plain(scalar) =>
      (match ScalarToCh(env, scalar)
       case None => Err(Unsupported)
       case Some(s) => Ok(Wrap(nullable, Simple(s))))
    case ListLike(_, item) =>
      if nullable && RefusesNullableList(env) then Err(NotNullable)
      else
        (match ToCh(env, item.dataType, item.nullable)
         case Err(e) => Err(e)
         case Ok(t) => Ok(Type.Array(t)))
    case Dictionary(_, valueType) =>
      if nullable && Strict(env) then Err(NotNullable)
      else
        // nullability moves to the dictionary values
        (match ToCh(env, valueType, nullable)
         case Err(e) => Err(e)
         case Ok(t) => Ok(Type.LowCardinality(t)))
    case Struct(fields) =>
      (match FieldsToCh(env, fields)
       case Err(e) => Err(e)
       case Ok(ts) => Ok(Wrap(nullable, Type.Tuple(ts))))
    case Map(entries, _) =>
      if !entries.dataType.Struct? || |entries.dataType.fields| < 2 then Err(MalformedMap)
      else
        var k, v := entries.dataType.fields[0], entries.dataType.fields[1];
        match ToCh(env, k.dataType, k.nullable)
        case Err(e) => Err(e)
        case Ok(kt) =>
          match ToCh(env, v.dataType, v.nullable)
          case Err(e) => Err(e)
          case Ok(vt) => Ok(Type.Map(kt, vt))
  }

  function FieldToCh(env: Env, f: Field): Result<Type, TypeError>
    decreases f
  {
    ToCh(env, f.dataType, f.nullable)
  }

  function FieldsToCh(env: Env, fields: seq<Field>): Result<seq<Type>, TypeError>
    decreases fields
  {
    if fields == [] then Ok([])
    else
      match FieldToCh(env, fields[0])
      case Err(e) => Err(e)
      case Ok(t) =>
        match FieldsToCh(env, fields[1..])
        case Err(e) => Err(e)
        case Ok(ts) => Ok([t] + ts)
  }

  // ---------------------------------------------------------------------------
  // ClickHouse to Arrow
  // ---------------------------------------------------------------------------

  function ListOf(dt: DataType, nullable: bool): DataType {
    DataType.ListLike(List, Field(Item, dt, nullable))
  }

  const FLOAT := Simple(Scalar.Float64)
  const FLOAT_TYPE := Plain(ArrowScalar.Float64)
  const POINT_FIELDS := [Field(TupleField(0), FLOAT_TYPE, false), Field(TupleField(1), FLOAT_TYPE, false)]

  /** A point under `depth` levels of arrays. */
  function NestType(depth: nat): Type {
    if depth == 0 then Type.Tuple([FLOAT, FLOAT]) else Type.Array(NestType(depth - 1))
  }

  function NestDataType(depth: nat): DataType {
    if depth == 0 then DataType.Struct(POINT_FIELDS) else ListOf(NestDataType(depth - 1), false)
  }

  function GeoDepth(kind: GeoKind): nat {
    match kind
    case Point => 0
    case Ring => 1
    case Polygon => 2
    case MultiPolygon => 3
  }

  /** Geo types stand for nested tuples of floats. */
  function NormalizeGeo(kind: GeoKind): Type {
    NestType(GeoDepth(kind))
  }

  function ScalarToArrow(env: Env, s: Scalar): Option<ArrowScalar> {
    match s
    case Int8 => Some(ArrowScalar.Int8)
    case Int16 => Some(ArrowScalar.Int16)
    case Int32 => Some(ArrowScalar.Int32)
    case Int64 => Some(ArrowScalar.Int64)
    case UInt8 => Some(ArrowScalar.UInt8)
    case UInt16 => Some(ArrowScalar.UInt16)
    case UInt32 => Some(ArrowScalar.UInt32)
    case UInt64 => Some(ArrowScalar.UInt64)
    case Int128 => Some(ArrowScalar.FixedSizeBinary(16))
    case UInt128 => Some(ArrowScalar.FixedSizeBinary(16))
    case Ipv6 => Some(ArrowScalar.FixedSizeBinary(16))
    case Uuid => Some(ArrowScalar.FixedSizeBinary(16))
    case Int256 => Some(ArrowScalar.FixedSizeBinary(32))
    case UInt256 => Some(ArrowScalar.FixedSizeBinary(32))
    case Float32 => Some(ArrowScalar.Float32)
    case Float64 => Some(ArrowScalar.Float64)
    case Decimal32(scale) => Some(ArrowScalar.Decimal128(9, AsI8(scale)))
    case Decimal64(scale) => Some(ArrowScalar.Decimal128(18, AsI8(scale)))
    case Decimal128(scale) => Some(ArrowScalar.Decimal128(38, AsI8(scale)))
    case Decimal256(scale) => Some(ArrowScalar.Decimal256(76, AsI8(scale)))
    case String =>
      if env.options.Some? && env.options.value.stringsAsStrings then Some(ArrowScalar.Utf8) else Some(ArrowScalar.Binary)
    case FixedSizedString(n) => Some(ArrowScalar.FixedSizeBinary(AsI32(n)))
    case FixedSizedBinary(n) => Some(ArrowScalar.FixedSizeBinary(AsI32(n)))
    case Binary => Some(ArrowScalar.Binary)
    case Object => Some(ArrowScalar.Utf8)
    case Date => Some(ArrowScalar.Date32)
    case Date32 => Some(ArrowScalar.Date32)
    case DateTime(tz) => Some(ArrowScalar.Timestamp(Second, Some(tz.name)))
    case DateTime64(p, tz) =>
      if p == 0 then Some(ArrowScalar.Timestamp(Second, Some(tz.name)))
      else if p <= 3 then Some(ArrowScalar.Timestamp(Millisecond, Some(tz.name)))
      else if p <= 6 then Some(ArrowScalar.Timestamp(Microsecond, Some(tz.name)))
      else if p <= 9 then Some(ArrowScalar.Timestamp(Nanosecond, Some(tz.name)))
      else None
    case Ipv4 => Some(ArrowScalar.FixedSizeBinary(4))
  }

  /** `ch_to_arrow_type`: the data type and whether the field is nullable. */
  function ToArrow(env: Env, t: Type): Result<(DataType, bool), TypeError>
    decreases t
  {
    var nullable := IsNullable(t);
    match StripNull(t)
    case Simple(s) =>
      (match ScalarToArrow(env, s)
       case None => Err(Unsupported)
       case Some(scalar) => Ok((Plain(scalar), nullable)))
    // the geo normaliser is given the type with its Nullable still on and panics on it
    case Geo(kind) => if nullable then Err(Panic) else Ok((NestDataType(GeoDepth(kind)), false))
    case Enum(width, _) =>
      var key := if width.Enum8? then ArrowScalar.Int8 else ArrowScalar.Int16;
      Ok((DataType.Dictionary(Plain(key), Plain(Utf8)), nullable))
    case Nullable(_) => Err(Panic)
    case LowCardinality(inner) =>
      if nullable && Strict(env) then Err(NotNullable)
      else
        (match ToArrow(env, inner)
         case Err(e) => Err(e)
         case Ok((dt, _)) => Ok((DataType.Dictionary(Plain(ArrowScalar.Int32), dt), IsNullable(inner))))
    case Array(inner) =>
      if nullable && RefusesNullableList(env) then Err(NotNullable)
      else
        (match ToArrow(env, inner)
         case Err(e) => Err(e)
         case Ok((dt, itemNull)) => Ok((ListOf(dt, itemNull), nullable)))
    case Tuple(items) =>
      (match ItemsToArrow(env, items, 0)
       case Err(e) => Err(e)
       case Ok(fields) => Ok((DataType.Struct(fields), nullable)))
    case Map(k, v) =>
      match ToArrow(env, k)
      case Err(e) => Err(e)
      case Ok((kdt, _)) =>
        match ToArrow(env, v)
        case Err(e) => Err(e)
        case Ok((vdt, valueNull)) => Ok((MapOf(kdt, vdt, valueNull), nullable))
  }

  function MapOf(k: DataType, v: DataType, valueNull: bool): DataType {
    DataType.Map(Field(Entries, DataType.Struct([Field(Key, k, false), Field(Value, v, valueNull)]), false), false)
  }

  function ItemsToArrow(env: Env, items: seq<Type>, from: nat): Result<seq<Field>, TypeError>
    decreases items
  {
    if items == [] then Ok([])
    else
      match ToArrow(env, items[0])
      case Err(e) => Err(e)
      case Ok((dt, nullable)) =>
        match ItemsToArrow(env, items[1..], from + 1)
        case Err(e) => Err(e)
        case Ok(fields) => Ok([Field(TupleField(from), dt, nullable)] + fields)
  }

  /** A geo type converts as the nested type it stands for. */
  lemma GeoConverts(env: Env, kind: GeoKind)
    ensures ToArrow(env, Type.Geo(kind)) == ToArrow(env, NormalizeGeo(kind))
  {
    NestedPoint(env, GeoDepth(kind));
  }

  lemma {:induction false} NestedPoint(env: Env, depth: nat)
    ensures ToArrow(env, NestType(depth)) == Ok((NestDataType(depth), false))
  {
    if depth == 0 {
      FloatItem(env, [], 1);
      assert [FLOAT] + [] == [FLOAT] && [POINT_FIELDS[1]] + [] == [POINT_FIELDS[1]];
      assert ItemsToArrow(env, [], 2) == Ok([]);
      assert ItemsToArrow(env, [FLOAT], 1) == Ok([POINT_FIELDS[1]]);
      FloatItem(env, [FLOAT], 0);
      assert [FLOAT] + [FLOAT] == [FLOAT, FLOAT] && [POINT_FIELDS[0]] + [POINT_FIELDS[1]] == POINT_FIELDS;
    } else {
      NestedPoint(env, depth - 1);
    }
  }

  lemma FloatItem(env: Env, rest: seq<Type>, from: nat)
    requires ItemsToArrow(env, rest, from + 1).Ok?
    ensures ItemsToArrow(env, [FLOAT] + rest, from)
         == Ok([Field(TupleField(from), FLOAT_TYPE, false)] + ItemsToArrow(env, rest, from + 1).value)
  {
    assert ([FLOAT] + rest)[1..] == rest;
  }
}
