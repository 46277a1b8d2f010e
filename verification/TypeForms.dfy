/** What a conversion of types keeps, measured on each side alone, and the form it gives. */
module TypeForms {
  import opened Common
  import opened ArrowTypes
  import N = TypeBuilder

  // ---------------------------------------------------------------------------
  // What the values of a scalar type are
  // ---------------------------------------------------------------------------

  /** Whole numbers by width and sign; floats by width; decimals by the digits they hold and
      their scale; instants by the nanoseconds of a tick and the zone; texts; bytes of any or
      of one length. */
  datatype Meaning =
    | Whole(bits: nat, signed: bool)
    | Real(bits: nat)
    | Decimal(digits: nat, scale: nat)
    | Day
    | Instant(tick: nat, zone: Tz)
    | Text
    | Bytes
    | Block(size: nat)

  function Pow10(n: nat): nat {
    if n == 0 then 1 else 10 * Pow10(n - 1)
  }

  function Tick(unit: TimeUnit): nat {
    match unit
    case Second => 1_000_000_000
    case Millisecond => 1_000_000
    case Microsecond => 1_000
    case Nanosecond => 1
  }

  /** The decimal formats hold 9, 18, 38 and 76 digits. */
  function Digits(precision: nat): nat {
    if precision <= 9 then 9 else if precision <= 18 then 18 else if precision <= 38 then 38 else 76
  }

  /** Zones that are not known, and missing ones, are UTC. */
  function Zone(env: Env, name: Option<string>): Tz {
    if name.Some? && name.value in env.zones then Tz(name.value) else Tz("UTC")
  }

  /** A size as it is after a cast to 64 bits. */
  function Cast(n: int): nat {
    if n < 0 && n >= -0x1_0000_0000_0000_0000 then n + 0x1_0000_0000_0000_0000 else n % 0x1_0000_0000_0000_0000
  }

  function OfArrow(env: Env, s: ArrowScalar): Option<Meaning> {
    match s
    case Boolean => Some(Whole(8, false))
    case Int8 => Some(Whole(8, true))
    case Int16 => Some(Whole(16, true))
    case Int32 => Some(Whole(32, true))
    case Int64 => Some(Whole(64, true))
    case Interval => Some(Whole(64, true))
    case UInt8 => Some(Whole(8, false))
    case UInt16 => Some(Whole(16, false))
    case UInt32 => Some(Whole(32, false))
    case UInt64 => Some(Whole(64, false))
    case Float32 => Some(Real(32))
    case Float64 => Some(Real(64))
    case Decimal32(_, scale) => Some(Decimal(9, Cast(scale)))
    case Decimal64(_, scale) => Some(Decimal(18, Cast(scale)))
    case Decimal128(p, scale) => Some(Decimal(Digits(p), Cast(scale)))
    case Decimal256(_, scale) => Some(Decimal(76, Cast(scale)))
    case Date32 => Some(Day)
    case Date64 => Some(Instant(1_000_000, Tz("UTC")))
    case Time32(unit) => Some(Instant(Tick(unit), Tz("UTC")))
    case Time64(unit) => Some(Instant(Tick(unit), Tz("UTC")))
    case Duration(unit) => Some(Instant(Tick(unit), Tz("UTC")))
    case Timestamp(unit, zone) => Some(Instant(Tick(unit), Zone(env, zone)))
    case FixedSizeBinary(n) => Some(Block(Cast(n)))
    case Binary => Some(Bytes)
    case LargeBinary => Some(Bytes)
    case BinaryView => Some(Bytes)
    case Utf8 => Some(Text)
    case LargeUtf8 => Some(Text)
    case Utf8View => Some(Text)
    case Null => None
    case Float16 => None
    case Union => None
    case RunEndEncoded => None
  }

  function OfCh(s: Scalar): Option<Meaning> {
    match s
    case Int8 => Some(Whole(8, true))
    case Int16 => Some(Whole(16, true))
    case Int32 => Some(Whole(32, true))
    case Int64 => Some(Whole(64, true))
    case Int128 => Some(Whole(128, true))
    case Int256 => Some(Whole(256, true))
    case UInt8 => Some(Whole(8, false))
    case UInt16 => Some(Whole(16, false))
    case UInt32 => Some(Whole(32, false))
    case UInt64 => Some(Whole(64, false))
    case UInt128 => Some(Whole(128, false))
    case UInt256 => Some(Whole(256, false))
    case Float32 => Some(Real(32))
    case Float64 => Some(Real(64))
    case Decimal32(scale) => Some(Decimal(9, scale))
    case Decimal64(scale) => Some(Decimal(18, scale))
    case Decimal128(scale) => Some(Decimal(38, scale))
    case Decimal256(scale) => Some(Decimal(76, scale))
    case Date => Some(Day)
    case Date32 => Some(Day)
    case DateTime(tz) => Some(Instant(1_000_000_000, tz))
    case DateTime64(p, tz) => if p <= 9 then Some(Instant(Pow10(9 - p), tz)) else None
    case String => Some(Text)
    case Binary => Some(Bytes)
    case FixedSizedBinary(n) => Some(Block(n))
    case _ => None
  }

  lemma Powers()
    ensures Pow10(0) == 1 && Pow10(1) == 10 && Pow10(2) == 100 && Pow10(3) == 1_000
    ensures Pow10(6) == 1_000_000 && Pow10(9) == 1_000_000_000
  {
    assert Pow10(4) == 10_000 && Pow10(5) == 100_000;
    assert Pow10(7) == 10_000_000 && Pow10(8) == 100_000_000;
  }

  lemma CastIs(n: int)
    ensures ToUsize(n) == Cast(n)
  {
    var m := 0x1_0000_0000_0000_0000;
    if -m <= n < 0 { DivModUnique(n + m, m, 0, n + m); }
  }

  lemma AtUnitMeans(unit: TimeUnit, tz: Tz)
    ensures OfCh(AtUnit(unit, tz)) == Some(Instant(Tick(unit), tz))
    ensures AtUnit(unit, tz).DateTime? || AtUnit(unit, tz).DateTime64?
  {
    Powers();
  }

  ghost predicate Keeps(env: Env, s: ArrowScalar) {
    && (ScalarToCh(env, s).None? <==> s.Null? || s.Float16? || s.Union? || s.RunEndEncoded?)
    && (ScalarToCh(env, s).Some? ==> OfCh(ScalarToCh(env, s).value) == OfArrow(env, s) != None)
  }

  lemma TimesKeep(env: Env, s: ArrowScalar)
    requires s.Date64? || s.Time32? || s.Time64? || s.Duration? || s.Timestamp?
    ensures Keeps(env, s)
  {
    if s.Date64? {
      Powers();
    } else if s.Timestamp? {
      AtUnitMeans(s.unit, Zone(env, s.zone));
    } else {
      AtUnitMeans(s.unit, UTC);
    }
  }

  lemma SizesKeep(env: Env, s: ArrowScalar)
    requires s.Decimal32? || s.Decimal64? || s.Decimal128? || s.Decimal256? || s.FixedSizeBinary?
    ensures Keeps(env, s)
  {
    CastIs(if s.FixedSizeBinary? then s.size else s.scale);
  }

  /** From Arrow every scalar keeps what its values are, and the only ones without a counterpart
      are those that have no meaning here; days become the wide dates only on request. */
  lemma ScalarToChKeeps(env: Env, s: ArrowScalar)
    ensures ScalarToCh(env, s).None? <==> s.Null? || s.Float16? || s.Union? || s.RunEndEncoded?
    ensures ScalarToCh(env, s).Some? ==> OfCh(ScalarToCh(env, s).value) == OfArrow(env, s) != None
    ensures s.Date32? ==>
              ScalarToCh(env, s) == Some(if env.options.Some? && env.options.value.useDate32ForDate then Scalar.Date32 else Scalar.Date)
  {
    if s.Date64? || s.Time32? || s.Time64? || s.Duration? || s.Timestamp? {
      TimesKeep(env, s);
    } else if s.Decimal32? || s.Decimal64? || s.Decimal128? || s.Decimal256? || s.FixedSizeBinary? {
      SizesKeep(env, s);
    } else {
      OthersKeep(env, s);
    }
  }

  lemma OthersKeep(env: Env, s: ArrowScalar)
    requires !s.Date64? && !s.Time32? && !s.Time64? && !s.Duration? && !s.Timestamp?
    requires !s.Decimal32? && !s.Decimal64? && !s.Decimal128? && !s.Decimal256? && !s.FixedSizeBinary?
    ensures Keeps(env, s)
  {
  }

  // ---------------------------------------------------------------------------
  // Arrow to ClickHouse, at every depth
  // ---------------------------------------------------------------------------

  /** The type carries what the Arrow type does: scalars their meaning, lists of every kind
      their items, dictionaries their values, structs their fields in order, maps keys before
      values.  Nullability stays on scalars and tuples, moves to the values of a dictionary,
      and is dropped from lists and maps. */
  ghost predicate Carries(env: Env, dt: DataType, nullable: bool, t: Type)
    decreases dt
  {
    match dt
    case Plain(s) =>
      && t.Nullable? == nullable
      && StripNull(t).Simple? && OfCh(StripNull(t).scalar) == OfArrow(env, s) != None
      && (s.Date32? ==> StripNull(t).scalar.Date32? == (env.options.Some? && env.options.value.useDate32ForDate))
    case ListLike(_, item) => t.Array? && Carries(env, item.dataType, item.nullable, t.inner)
    case Dictionary(_, valueType) => t.LowCardinality? && Carries(env, valueType, nullable, t.inner)
    case Struct(fields) =>
      && t.Nullable? == nullable
      && StripNull(t).Tuple? && |StripNull(t).items| == |fields|
      && forall i | 0 <= i < |fields| :: CarriesField(env, fields[i], StripNull(t).items[i])
    case Map(entries, _) =>
      && t.Map?
      && entries.dataType.Struct? && |entries.dataType.fields| >= 2
      && CarriesField(env, entries.dataType.fields[0], t.key)
      && CarriesField(env, entries.dataType.fields[1], t.value)
  }

  ghost predicate CarriesField(env: Env, f: Field, t: Type)
    decreases f
  {
    Carries(env, f.dataType, f.nullable, t)
  }

  /** Every scalar below has a counterpart, and maps have two fields. */
  predicate Supported(dt: DataType)
    decreases dt
  {
    match dt
    case Plain(s) => !s.Null? && !s.Float16? && !s.Union? && !s.RunEndEncoded?
    case ListLike(_, item) => Supported(item.dataType)
    case Dictionary(_, valueType) => Supported(valueType)
    case Struct(fields) => forall i | 0 <= i < |fields| :: SupportedField(fields[i])
    case Map(entries, _) =>
      && entries.dataType.Struct? && |entries.dataType.fields| >= 2
      && SupportedField(entries.dataType.fields[0]) && SupportedField(entries.dataType.fields[1])
  }

  predicate SupportedField(f: Field)
    decreases f
  {
    Supported(f.dataType)
  }

  ghost predicate Converted(env: Env, dt: DataType, nullable: bool, r: Result<Type, TypeError>) {
    && (r.Ok? ==> Supported(dt) && Carries(env, dt, nullable, r.value))
    && (!Strict(env) && Supported(dt) ==> r.Ok?)
  }

  /** Whatever converts carries what it was, at every depth, and outside strict mode everything
      supported converts. */
  lemma {:induction false} ToChCarries(env: Env, dt: DataType, nullable: bool)
    ensures Converted(env, dt, nullable, ToCh(env, dt, nullable))
    decreases dt
  {
    match dt
    case Plain(s) => ScalarToChKeeps(env, s);
    case ListLike(_, item) => ToChCarries(env, item.dataType, item.nullable);
    case Dictionary(_, valueType) => ToChCarries(env, valueType, nullable);
    case Struct(fields) => FieldsCarry(env, fields);
    case Map(entries, _) =>
      if entries.dataType.Struct? && |entries.dataType.fields| >= 2 {
        var fields := entries.dataType.fields;
        ToChCarries(env, fields[0].dataType, fields[0].nullable);
        ToChCarries(env, fields[1].dataType, fields[1].nullable);
        assert Supported(dt) ==> SupportedField(fields[0]) && SupportedField(fields[1]);
        assert Supported(dt) ==> Supported(fields[0].dataType) && Supported(fields[1].dataType);
      }
  }

  lemma {:induction false} FieldCarries(env: Env, f: Field)
    ensures Converted(env, f.dataType, f.nullable, FieldToCh(env, f))
    decreases f
  {
    ToChCarries(env, f.dataType, f.nullable);
  }

  lemma {:induction false} FieldsCarry(env: Env, fields: seq<Field>)
    ensures var r := FieldsToCh(env, fields);
            && (r.Ok? ==>
                  && |r.value| == |fields|
                  && forall i | 0 <= i < |fields| :: SupportedField(fields[i]) && CarriesField(env, fields[i], r.value[i]))
            && (!Strict(env) && (forall i | 0 <= i < |fields| :: SupportedField(fields[i])) ==> r.Ok?)
    decreases fields
  {
    if fields != [] {
      FieldCarries(env, fields[0]);
      FieldsCarry(env, fields[1..]);
      assert forall i | 0 < i < |fields| :: fields[i] == fields[1..][i - 1];
      if !Strict(env) && forall i | 0 <= i < |fields| :: SupportedField(fields[i]) {
        forall i | 0 <= i < |fields[1..]| ensures SupportedField(fields[1..][i]) {
          assert fields[1..][i] == fields[i + 1];
        }
      }
    }
  }

  /** A scalar without a counterpart is somewhere below. */
  predicate HoldsUnknown(dt: DataType)
    decreases dt
  {
    match dt
    case Plain(s) => s.Null? || s.Float16? || s.Union? || s.RunEndEncoded?
    case ListLike(_, item) => HoldsUnknown(item.dataType)
    case Dictionary(_, valueType) => HoldsUnknown(valueType)
    case Struct(fields) => exists i | 0 <= i < |fields| :: UnknownField(fields[i])
    case Map(entries, _) => HoldsUnknown(entries.dataType)
  }

  predicate UnknownField(f: Field)
    decreases f
  {
    HoldsUnknown(f.dataType)
  }

  /** A map whose entries are not a struct of two fields or more is somewhere below. */
  predicate HoldsBadMap(dt: DataType)
    decreases dt
  {
    match dt
    case Plain(_) => false
    case ListLike(_, item) => HoldsBadMap(item.dataType)
    case Dictionary(_, valueType) => HoldsBadMap(valueType)
    case Struct(fields) => exists i | 0 <= i < |fields| :: BadMapField(fields[i])
    case Map(entries, _) =>
      !entries.dataType.Struct? || |entries.dataType.fields| < 2 || HoldsBadMap(entries.dataType)
  }

  predicate BadMapField(f: Field)
    decreases f
  {
    HoldsBadMap(f.dataType)
  }

  predicate Blamed(env: Env, unknown: bool, badMap: bool, e: TypeError) {
    match e
    case Unsupported => unknown
    case MalformedMap => badMap
    case NotNullable => env.options.Some? && env.options.value.strictSchema
    case Panic => false
  }

  /** A conversion that fails says why: what it blames is there. */
  lemma {:induction false} ToChBlames(env: Env, dt: DataType, nullable: bool)
    ensures ToCh(env, dt, nullable).Err? ==>
              Blamed(env, HoldsUnknown(dt), HoldsBadMap(dt), ToCh(env, dt, nullable).error)
    decreases dt
  {
    match dt
    case Plain(s) => ScalarToChKeeps(env, s);
    case ListLike(_, item) => ToChBlames(env, item.dataType, item.nullable);
    case Dictionary(_, valueType) => ToChBlames(env, valueType, nullable);
    case Struct(fields) => FieldsBlame(env, fields);
    case Map(entries, _) =>
      if entries.dataType.Struct? && |entries.dataType.fields| >= 2 {
        var k, v := entries.dataType.fields[0], entries.dataType.fields[1];
        FieldBlames(env, k);
        FieldBlames(env, v);
        assert UnknownField(k) || UnknownField(v) ==> HoldsUnknown(entries.dataType);
        assert BadMapField(k) || BadMapField(v) ==> HoldsBadMap(entries.dataType);
      }
  }

  lemma {:induction false} FieldBlames(env: Env, f: Field)
    ensures FieldToCh(env, f).Err? ==> Blamed(env, UnknownField(f), BadMapField(f), FieldToCh(env, f).error)
    decreases f
  {
    ToChBlames(env, f.dataType, f.nullable);
  }

  lemma {:induction false} FieldsBlame(env: Env, fields: seq<Field>)
    ensures FieldsToCh(env, fields).Err? ==>
              Blamed(env, exists i | 0 <= i < |fields| :: UnknownField(fields[i]),
                exists i | 0 <= i < |fields| :: BadMapField(fields[i]), FieldsToCh(env, fields).error)
    decreases fields
  {
    if fields != [] {
      FieldBlames(env, fields[0]);
      FieldsBlame(env, fields[1..]);
      assert forall i | 0 <= i < |fields[1..]| :: fields[1..][i] == fields[i + 1];
    }
  }

  // ---------------------------------------------------------------------------
  // ClickHouse to Arrow
  // ---------------------------------------------------------------------------

  /** How many bytes the values take that Arrow holds as blocks of bytes. */
  function BlockSize(s: Scalar): Option<nat> {
    match s
    case Ipv4 => Some(4)
    case Ipv6 => Some(16)
    case Uuid => Some(16)
    case Int128 => Some(16)
    case UInt128 => Some(16)
    case Int256 => Some(32)
    case UInt256 => Some(32)
    case _ => None
  }

  /** The same low bits, with a sign. */
  predicate CutTo(n: nat, half: nat, i: int) {
    0 - half <= i < half && half > 0 && (n - i) % (2 * half) == 0
  }

  /** What a ClickHouse scalar is held as: wide numbers, addresses and identifiers as blocks of
      their size, fixed texts and bytes as blocks of theirs cut to 32 signed bits, decimals with
      all their digits and the scale cut to 8 signed bits, instants in the coarsest unit that
      still tells their ticks apart, and texts as text or bytes as the options say. */
  predicate HeldAs(env: Env, s: Scalar, a: ArrowScalar) {
    if BlockSize(s).Some? then a == ArrowScalar.FixedSizeBinary(BlockSize(s).value)
    else
      match s
      case FixedSizedString(n) => a.FixedSizeBinary? && CutTo(n, 0x8000_0000, a.size)
      case FixedSizedBinary(n) => a.FixedSizeBinary? && CutTo(n, 0x8000_0000, a.size)
      case Decimal32(scale) => a.Decimal128? && a.precision == 9 && CutTo(scale, 0x80, a.scale)
      case Decimal64(scale) => a.Decimal128? && a.precision == 18 && CutTo(scale, 0x80, a.scale)
      case Decimal128(scale) => a.Decimal128? && a.precision == 38 && CutTo(scale, 0x80, a.scale)
      case Decimal256(scale) => a.Decimal256? && a.precision == 76 && CutTo(scale, 0x80, a.scale)
      case DateTime(tz) => a == ArrowScalar.Timestamp(Second, Some(tz.name))
      case DateTime64(p, tz) =>
        && p <= 9 && a.Timestamp? && a.zone == Some(tz.name)
        && Tick(a.unit) <= Pow10(9 - p) && (p > 0 ==> Pow10(9 - p) < 1000 * Tick(a.unit))
        && (p == 0 ==> a.unit.Second?)
      case String => if env.options.Some? && env.options.value.stringsAsStrings then a.Utf8? else a.Binary?
      case Object => a.Utf8?
      case Date => a.Date32?
      case Date32 => a.Date32?
      case _ => OfArrow(env, a) == OfCh(s) != None && !a.Boolean? && !a.Interval? && !a.LargeBinary? && !a.BinaryView?
  }

  lemma ScalarHeld(env: Env, s: Scalar)
    ensures ScalarToArrow(env, s).None? <==> s.DateTime64? && s.precision > 9
    ensures ScalarToArrow(env, s).Some? ==> HeldAs(env, s, ScalarToArrow(env, s).value)
  {
    if s.DateTime64? {
      InstantHeld(env, s);
    } else if BlockSize(s).Some? {
      BlockHeld(env, s);
    } else if s.FixedSizedString? || s.FixedSizedBinary? {
      WidthHeld(env, s);
    } else if s.Decimal32? || s.Decimal64? || s.Decimal128? || s.Decimal256? {
      DecimalHeld(env, s);
    } else {
      OtherHeld(env, s);
    }
  }

  lemma Cut8(n: nat)
    ensures CutTo(n, 0x80, AsI8(n))
    ensures forall i | CutTo(n, 0x80, i) :: i == AsI8(n)
  {
  }

  lemma Cut32(n: nat)
    ensures CutTo(n, 0x8000_0000, AsI32(n))
    ensures forall i | CutTo(n, 0x8000_0000, i) :: i == AsI32(n)
  {
  }

  lemma WidthHeld(env: Env, s: Scalar)
    requires s.FixedSizedString? || s.FixedSizedBinary?
    ensures ScalarToArrow(env, s).Some? && HeldAs(env, s, ScalarToArrow(env, s).value)
  {
    Cut32(s.size);
  }

  lemma DecimalHeld(env: Env, s: Scalar)
    requires s.Decimal32? || s.Decimal64? || s.Decimal128? || s.Decimal256?
    ensures ScalarToArrow(env, s).Some? && HeldAs(env, s, ScalarToArrow(env, s).value)
  {
    Cut8(s.scale);
  }

  lemma BlockHeld(env: Env, s: Scalar)
    requires BlockSize(s).Some?
    ensures ScalarToArrow(env, s).Some? && HeldAs(env, s, ScalarToArrow(env, s).value)
  {
  }

  lemma OtherHeld(env: Env, s: Scalar)
    requires !s.DateTime64? && BlockSize(s).None? && !s.FixedSizedString? && !s.FixedSizedBinary?
    requires !s.Decimal32? && !s.Decimal64? && !s.Decimal128? && !s.Decimal256?
    ensures ScalarToArrow(env, s).Some? && HeldAs(env, s, ScalarToArrow(env, s).value)
  {
  }

  lemma InstantHeld(env: Env, s: Scalar)
    requires s.DateTime64?
    ensures ScalarToArrow(env, s).None? <==> s.precision > 9
    ensures ScalarToArrow(env, s).Some? ==> HeldAs(env, s, ScalarToArrow(env, s).value)
  {
    if s.precision <= 9 { TickFits(s.precision); }
  }

  lemma TickFits(p: nat)
    requires p <= 9
    ensures Pow10(9 - p) == if p == 0 then 1_000_000_000 else if p == 1 then 100_000_000 else if p == 2 then 10_000_000
                            else if p == 3 then 1_000_000 else if p == 4 then 100_000 else if p == 5 then 10_000
                            else if p == 6 then 1_000 else if p == 7 then 100 else if p == 8 then 10 else 1
  {
    assert Pow10(4) == 10_000 && Pow10(5) == 100_000;
    Powers();
    assert Pow10(7) == 10_000_000 && Pow10(8) == 100_000_000;
  }

  /** The nullability of the Arrow field: a dictionary shows its values'. */
  function Shown(t: Type): bool {
    match StripNull(t)
    case LowCardinality(x) => x.Nullable?
    case Geo(_) => false
    case _ => t.Nullable?
  }

  /** A point, or lists of them `depth` deep, of plain numbers that are never null. */
  predicate PointsDeep(depth: nat, dt: DataType) {
    if depth == 0 then
      && dt.Struct? && |dt.fields| == 2
      && dt.fields[0] == Field(TupleField(0), Plain(ArrowScalar.Float64), false)
      && dt.fields[1] == Field(TupleField(1), Plain(ArrowScalar.Float64), false)
    else
      dt.ListLike? && dt.list.List? && dt.item.name.Item? && !dt.item.nullable && PointsDeep(depth - 1, dt.item.dataType)
  }

  /** The form of the Arrow type: dictionaries keyed by Int32, or by the enum's width over text;
      plain lists of a field `item`; structs with fields numbered by place; maps that are not
      sorted, with entries and keys that are never null and the key before the value. */
  ghost predicate Form(env: Env, t: Type, dt: DataType)
    decreases t
  {
    match StripNull(t)
    case Simple(s) => dt.Plain? && HeldAs(env, s, dt.scalar)
    case Geo(kind) =>
      PointsDeep(match kind case Point => 0 case Ring => 1 case Polygon => 2 case MultiPolygon => 3, dt)
    case Enum(width, _) =>
      dt == DataType.Dictionary(Plain(if width.Enum8? then ArrowScalar.Int8 else ArrowScalar.Int16), Plain(ArrowScalar.Utf8))
    case Nullable(_) => false
    case LowCardinality(x) => dt.Dictionary? && dt.keyType == Plain(ArrowScalar.Int32) && Form(env, x, dt.valueType)
    case Array(x) =>
      && dt.ListLike? && dt.list.List? && dt.item.name.Item? && dt.item.nullable == Shown(x)
      && Form(env, x, dt.item.dataType)
    case Tuple(items) =>
      && dt.Struct? && |dt.fields| == |items|
      && forall i | 0 <= i < |items| ::
           && dt.fields[i].name == TupleField(i) && dt.fields[i].nullable == Shown(items[i])
           && Form(env, items[i], dt.fields[i].dataType)
    case Map(k, v) =>
      && dt.Map? && !dt.sorted && dt.entries.name.Entries? && !dt.entries.nullable
      && dt.entries.dataType.Struct? && |dt.entries.dataType.fields| == 2
      && var fields := dt.entries.dataType.fields;
         && fields[0].name.Key? && !fields[0].nullable && Form(env, k, fields[0].dataType)
         && fields[1].name.Value? && fields[1].nullable == Shown(v) && Form(env, v, fields[1].dataType)
  }

  /** What converts: precisions up to 9, no Nullable around Nullable or around a geo type, and
      in strict mode none around a dictionary or, unless nulls become empty arrays, a list. */
  predicate Accepted(env: Env, t: Type)
    decreases t
  {
    var strict := env.options.Some? && env.options.value.strictSchema;
    match StripNull(t)
    case Simple(s) => s.DateTime64? ==> s.precision <= 9
    case Geo(_) => !t.Nullable?
    case Enum(_, _) => true
    case Nullable(_) => false
    case LowCardinality(x) => !(t.Nullable? && strict) && Accepted(env, x)
    case Array(x) => !(t.Nullable? && strict && !env.options.value.nullableArrayDefaultEmpty) && Accepted(env, x)
    case Tuple(items) => forall i | 0 <= i < |items| :: Accepted(env, items[i])
    case Map(k, v) => Accepted(env, k) && Accepted(env, v)
  }

  ghost predicate Formed(env: Env, t: Type, r: Result<(DataType, bool), TypeError>) {
    && (r.Ok? <==> Accepted(env, t))
    && (r.Ok? ==> r.value.1 == Shown(t) && Form(env, t, r.value.0))
  }

  lemma {:induction false} NestDeep(depth: nat)
    ensures PointsDeep(depth, NestDataType(depth))
  {
    if depth > 0 { NestDeep(depth - 1); }
  }

  /** Every type that is accepted, and no other, converts, to a type of this form. */
  lemma {:induction false} ToArrowFormed(env: Env, t: Type)
    ensures Formed(env, t, ToArrow(env, t))
    decreases t
  {
    match StripNull(t)
    case Simple(s) => SimpleFormed(env, t);
    case Geo(kind) => GeoFormed(env, t);
    case Enum(_, _) => EnumFormed(env, t);
    case Nullable(_) =>
    case LowCardinality(x) =>
      ToArrowFormed(env, x);
      DictionaryFormed(env, t);
    case Array(x) =>
      ToArrowFormed(env, x);
      ListFormed(env, t);
    case Tuple(items) =>
      ItemsFormed(env, items, 0);
      StructFormed(env, t);
    case Map(k, v) =>
      ToArrowFormed(env, k);
      ToArrowFormed(env, v);
      MapFormed(env, t);
  }

  lemma SimpleFormed(env: Env, t: Type)
    requires StripNull(t).Simple?
    ensures Formed(env, t, ToArrow(env, t))
  {
    ScalarHeld(env, StripNull(t).scalar);
  }

  lemma GeoFormed(env: Env, t: Type)
    requires StripNull(t).Geo?
    ensures Formed(env, t, ToArrow(env, t))
  {
    NestDeep(GeoDepth(StripNull(t).kind));
  }

  lemma EnumFormed(env: Env, t: Type)
    requires StripNull(t).Enum?
    ensures Formed(env, t, ToArrow(env, t))
  {
  }

  lemma DictionaryFormed(env: Env, t: Type)
    requires StripNull(t).LowCardinality? && Formed(env, StripNull(t).inner, ToArrow(env, StripNull(t).inner))
    ensures Formed(env, t, ToArrow(env, t))
  {
  }

  lemma ListFormed(env: Env, t: Type)
    requires StripNull(t).Array? && Formed(env, StripNull(t).inner, ToArrow(env, StripNull(t).inner))
    ensures Formed(env, t, ToArrow(env, t))
  {
  }

  lemma MapFormed(env: Env, t: Type)
    requires StripNull(t).Map? && Formed(env, StripNull(t).key, ToArrow(env, StripNull(t).key))
    requires Formed(env, StripNull(t).value, ToArrow(env, StripNull(t).value))
    ensures Formed(env, t, ToArrow(env, t))
  {
  }

  ghost predicate AllFormed(env: Env, items: seq<Type>, from: nat) {
    var r := ItemsToArrow(env, items, from);
    && (r.Ok? <==> forall i | 0 <= i < |items| :: Accepted(env, items[i]))
    && (r.Ok? ==>
          && |r.value| == |items|
          && forall i | 0 <= i < |items| ::
               && r.value[i].name == TupleField(from + i) && r.value[i].nullable == Shown(items[i])
               && Form(env, items[i], r.value[i].dataType))
  }

  lemma StructFormed(env: Env, t: Type)
    requires StripNull(t).Tuple? && AllFormed(env, StripNull(t).items, 0)
    ensures Formed(env, t, ToArrow(env, t))
  {
  }

  lemma {:induction false} ItemsFormed(env: Env, items: seq<Type>, from: nat)
    ensures AllFormed(env, items, from)
    decreases items
  {
    if items != [] {
      ToArrowFormed(env, items[0]);
      ItemsFormed(env, items[1..], from + 1);
      assert forall i | 0 < i < |items| :: items[i] == items[1..][i - 1];
    }
  }

  /** Some type below is written with a precision above 9. */
  predicate TooPrecise(t: Type)
    decreases t
  {
    match t
    case Simple(s) => s.DateTime64? && s.precision > 9
    case Nullable(x) => TooPrecise(x)
    case LowCardinality(x) => TooPrecise(x)
    case Array(x) => TooPrecise(x)
    case Tuple(items) => exists i | 0 <= i < |items| :: TooPrecise(items[i])
    case Map(k, v) => TooPrecise(k) || TooPrecise(v)
    case _ => false
  }

  /** Some type below is Nullable around Nullable or around a geo type. */
  predicate Misnested(t: Type)
    decreases t
  {
    match t
    case Nullable(x) => x.Nullable? || x.Geo? || Misnested(x)
    case LowCardinality(x) => Misnested(x)
    case Array(x) => Misnested(x)
    case Tuple(items) => exists i | 0 <= i < |items| :: Misnested(items[i])
    case Map(k, v) => Misnested(k) || Misnested(v)
    case _ => false
  }

  predicate ArrowBlamed(env: Env, tooPrecise: bool, misnested: bool, e: TypeError) {
    match e
    case Unsupported => tooPrecise
    case Panic => misnested
    case NotNullable => env.options.Some? && env.options.value.strictSchema
    case MalformedMap => false
  }

  lemma {:induction false} ToArrowBlames(env: Env, t: Type)
    ensures ToArrow(env, t).Err? ==> ArrowBlamed(env, TooPrecise(t), Misnested(t), ToArrow(env, t).error)
    decreases t
  {
    match StripNull(t)
    case LowCardinality(x) => ToArrowBlames(env, x);
    case Array(x) => ToArrowBlames(env, x);
    case Tuple(items) => ItemsBlame(env, items, 0);
    case Map(k, v) =>
      ToArrowBlames(env, k);
      ToArrowBlames(env, v);
    case _ =>
  }

  lemma {:induction false} ItemsBlame(env: Env, items: seq<Type>, from: nat)
    ensures ItemsToArrow(env, items, from).Err? ==>
              ArrowBlamed(env, exists i | 0 <= i < |items| :: TooPrecise(items[i]),
                exists i | 0 <= i < |items| :: Misnested(items[i]), ItemsToArrow(env, items, from).error)
    decreases items
  {
    if items != [] {
      ToArrowBlames(env, items[0]);
      ItemsBlame(env, items[1..], from + 1);
      assert forall i | 0 <= i < |items[1..]| :: items[1..][i] == items[i + 1];
    }
  }

  // ---------------------------------------------------------------------------
  // Normalisation
  // ---------------------------------------------------------------------------

  /** The Arrow type holds text or bytes. */
  predicate Textual(env: Env, a: ArrowScalar) {
    OfArrow(env, a) == Some(Text) || OfArrow(env, a) == Some(Bytes)
    || (OfArrow(env, a).Some? && OfArrow(env, a).value.Block?)
  }

  ghost predicate MeansAfter(env: Env, s: Scalar, a: ArrowScalar) {
    var n := N.NormalizeScalar(s, a);
    OfCh(if n.Some? then n.value else s) == if Textual(env, a) then OfArrow(env, a) else OfCh(s)
  }

  lemma StringMeans(env: Env, a: ArrowScalar)
    ensures MeansAfter(env, Scalar.String, a)
  {
    if a.FixedSizeBinary? { CastIs(a.size); }
  }

  lemma BinaryMeans(env: Env, a: ArrowScalar)
    ensures MeansAfter(env, Scalar.Binary, a)
  {
    if a.FixedSizeBinary? { CastIs(a.size); }
  }

  /** Normalised against any text or bytes of Arrow, a text or bytes type means what the Arrow
      type does; against anything else it stays as it is. */
  lemma NormalizedMeans(env: Env, s: Scalar, a: ArrowScalar)
    requires s.String? || s.Binary?
    ensures MeansAfter(env, s, a)
  {
    StringMeans(env, a);
    BinaryMeans(env, a);
  }

  /** Fixed bytes become fixed text of their own size against text, fixed text becomes fixed
      bytes of the Arrow type's size, and no other type is touched. */
  lemma FixedNormalized(s: Scalar, a: ArrowScalar)
    requires !s.String? && !s.Binary?
    ensures N.NormalizeScalar(s, a)
         == if s.FixedSizedString? && a.FixedSizeBinary? then Some(FixedSizedBinary(Cast(a.size)))
            else if s.FixedSizedBinary? && (a.Utf8? || a.Utf8View?) then Some(FixedSizedString(s.size))
            else None
  {
    if a.FixedSizeBinary? { CastIs(a.size); }
  }

  /** Normalisation goes into lists, but not into those of a fixed length. */
  lemma HintArray(x: Type, dt: DataType)
    ensures N.Hint(Type.Array(x), dt)
         == if dt.ListLike? && !dt.list.FixedSizeList? then Type.Array(N.Hint(x, dt.item.dataType)) else Type.Array(x)
  {
    var t := Type.Array(x);
    assert StripNull(t) == t && N.Normalize(t, dt) == N.NormalizeCore(t, dt);
  }

  /** It goes into dictionaries, against plain text or bytes too. */
  lemma HintDictionary(x: Type, dt: DataType)
    ensures N.Hint(LowCardinality(x), dt)
         == if dt.Dictionary? then LowCardinality(N.Hint(x, dt.valueType))
            else if dt.Plain? && IsTextOrBytes(dt.scalar) then LowCardinality(N.Hint(x, dt))
            else LowCardinality(x)
  {
    var t := LowCardinality(x);
    assert StripNull(t) == t && N.Normalize(t, dt) == N.NormalizeCore(t, dt);
  }

  /** It goes into tuples against structs, as far as both reach. */
  lemma HintTuple(items: seq<Type>, dt: DataType)
    ensures !dt.Struct? ==> N.Hint(Type.Tuple(items), dt) == Type.Tuple(items)
    ensures dt.Struct? ==>
              && N.Hint(Type.Tuple(items), dt).Tuple? && Min(|items|, |dt.fields|) <= |N.Hint(Type.Tuple(items), dt).items|
              && forall i | 0 <= i < Min(|items|, |dt.fields|) ::
                   N.Hint(Type.Tuple(items), dt).items[i] == N.Hint(items[i], dt.fields[i].dataType)
    ensures dt.Struct? && |items| <= |dt.fields| ==> |N.Hint(Type.Tuple(items), dt).items| == |items|
  {
    var t := Type.Tuple(items);
    assert StripNull(t) == t && N.Normalize(t, dt) == N.NormalizeCore(t, dt);
  }

  /** Maps, enums and geo types it leaves alone, and scalars against anything that is not one. */
  lemma HintLeaves(t: Type, dt: DataType)
    requires t.Map? || t.Enum? || t.Geo? || (t.Simple? && !dt.Plain?)
    ensures N.Hint(t, dt) == t
  {
    assert StripNull(t) == t && N.Normalize(t, dt) == N.NormalizeCore(t, dt);
  }

  predicate IsTextOrBytes(a: ArrowScalar) {
    || a.Utf8? || a.LargeUtf8? || a.Utf8View?
    || a.Binary? || a.LargeBinary? || a.BinaryView? || a.FixedSizeBinary?
  }

  /** How many dictionaries stand around the type in them. */
  function Around(t: Type): nat {
    if t.LowCardinality? then 1 + Around(t.inner) else 0
  }

  function Inside(t: Type): Type {
    if t.LowCardinality? then Inside(t.inner) else t
  }

  /** Nullable types are normalised inside and stay nullable: in dictionaries, what is in them. */
  lemma HintNullable(x: Type, dt: DataType)
    requires !x.Nullable?
    ensures var t, u := Type.Nullable(x), N.Hint(x, dt);
            if N.Normalize(x, dt).None? then N.Hint(t, dt) == t
            else
              && Around(N.Hint(t, dt)) == Around(u)
              && Inside(N.Hint(t, dt)) == if Inside(u).Nullable? then Inside(u) else Type.Nullable(Inside(u))
  {
    MovesInside(N.Hint(x, dt));
  }

  lemma {:induction false} MovesInside(t: Type)
    ensures Around(N.IntoNullable(t)) == Around(t)
    ensures Inside(N.IntoNullable(t)) == if Inside(t).Nullable? then Inside(t) else Type.Nullable(Inside(t))
    decreases t
  {
    if t.LowCardinality? { MovesInside(t.inner); }
  }
}
