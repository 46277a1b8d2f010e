/** The array builder of any type against any Arrow type: when there is one, and what it makes. */
module BuilderForms {
  import opened Common
  import opened ArrowTypes
  import F = TypeForms
  import opened TypeBuilder

  // ---------------------------------------------------------------------------
  // Scalars
  // ---------------------------------------------------------------------------

  predicate Zoned(dt: DataType) {
    dt.Plain? && dt.scalar.Timestamp? && dt.scalar.zone.Some?
  }

  function ZoneFor(dt: DataType, tz: Tz): Option<string> {
    if Zoned(dt) then Some(tz.name) else None
  }

  /** What the builder of a scalar makes: text for strings, instants with the type's own zone if
      the Arrow type has any, and all else as it is announced. */
  predicate Made(s: Scalar, dt: DataType, a: ArrowScalar) {
    if F.BlockSize(s).Some? then a == ArrowScalar.FixedSizeBinary(F.BlockSize(s).value)
    else
      match s
      case FixedSizedString(n) => a.FixedSizeBinary? && F.CutTo(n, 0x8000_0000, a.size)
      case FixedSizedBinary(n) => a.FixedSizeBinary? && F.CutTo(n, 0x8000_0000, a.size)
      case Decimal32(scale) => a.Decimal128? && a.precision == 9 && F.CutTo(scale, 0x80, a.scale)
      case Decimal64(scale) => a.Decimal128? && a.precision == 18 && F.CutTo(scale, 0x80, a.scale)
      case Decimal128(scale) => a.Decimal128? && a.precision == 38 && F.CutTo(scale, 0x80, a.scale)
      case Decimal256(scale) => a.Decimal256? && a.precision == 76 && F.CutTo(scale, 0x80, a.scale)
      case DateTime(tz) => a == ArrowScalar.Timestamp(Second, ZoneFor(dt, tz))
      case DateTime64(p, tz) =>
        && p <= 9 && a.Timestamp? && a.zone == ZoneFor(dt, tz)
        && F.Tick(a.unit) <= F.Pow10(9 - p) && (p > 0 ==> F.Pow10(9 - p) < 1000 * F.Tick(a.unit))
        && (p == 0 ==> a.unit.Second?)
      case String => a.Utf8?
      case Object => a.Utf8?
      case Date => a.Date32?
      case Date32 => a.Date32?
      case _ => F.OfArrow(Env(None, {}), a) == F.OfCh(s) != None
                && !a.Boolean? && !a.Interval? && !a.LargeBinary? && !a.BinaryView?
  }

  /** Why there is no builder for a scalar: a scale of more than all digits, a negative width, or
      a precision above 9. */
  ghost predicate ScalarRefused(s: Scalar, e: BuildError) {
    match s
    case Decimal32(scale) => e == BadDecimal && exists i :: F.CutTo(scale, 0x80, i) && i > 9
    case Decimal64(scale) => e == BadDecimal && exists i :: F.CutTo(scale, 0x80, i) && i > 18
    case Decimal128(scale) => e == BadDecimal && exists i :: F.CutTo(scale, 0x80, i) && i > 38
    case Decimal256(scale) => e == BadDecimal && exists i :: F.CutTo(scale, 0x80, i) && i > 76
    case FixedSizedString(n) => e == NegativeWidth && exists i :: F.CutTo(n, 0x8000_0000, i) && i < 0
    case FixedSizedBinary(n) => e == NegativeWidth && exists i :: F.CutTo(n, 0x8000_0000, i) && i < 0
    case DateTime64(p, _) => e == BadPrecision && p > 9
    case _ => false
  }

  ghost predicate ScalarOutcome(s: Scalar, dt: DataType, r: Result<Builder, BuildError>) {
    match r
    case Ok(b) => b.Leaf? && Made(s, dt, b.makes) && forall e :: !ScalarRefused(s, e)
    case Err(e) => ScalarRefused(s, e)
  }

  predicate IsCut(s: Scalar) {
    || s.Decimal32? || s.Decimal64? || s.Decimal128? || s.Decimal256?
    || s.FixedSizedString? || s.FixedSizedBinary?
  }

  lemma DecimalOutcome(s: Scalar, dt: DataType)
    requires s.Decimal32? || s.Decimal64? || s.Decimal128? || s.Decimal256?
    ensures ScalarOutcome(s, dt, ScalarBuilder(s, dt))
  {
    F.Cut8(s.scale);
  }

  lemma WidthOutcome(s: Scalar, dt: DataType)
    requires s.FixedSizedString? || s.FixedSizedBinary?
    ensures ScalarOutcome(s, dt, ScalarBuilder(s, dt))
  {
    F.Cut32(s.size);
  }

  lemma InstantOutcome(s: Scalar, dt: DataType)
    requires s.DateTime? || s.DateTime64?
    ensures ScalarOutcome(s, dt, ScalarBuilder(s, dt))
  {
    if s.DateTime64? && s.precision <= 9 { F.TickFits(s.precision); }
  }

  lemma BlockOutcome(s: Scalar, dt: DataType)
    requires F.BlockSize(s).Some?
    ensures ScalarOutcome(s, dt, ScalarBuilder(s, dt))
  {
  }

  predicate IsWord(s: Scalar) {
    s.String? || s.Object? || s.Binary? || s.Date? || s.Date32?
  }

  lemma WordOutcome(s: Scalar, dt: DataType)
    requires IsWord(s)
    ensures ScalarOutcome(s, dt, ScalarBuilder(s, dt))
  {
  }

  lemma NumberOutcome(s: Scalar, dt: DataType)
    requires !IsCut(s) && !s.DateTime? && !s.DateTime64? && F.BlockSize(s).None? && !IsWord(s)
    ensures ScalarOutcome(s, dt, ScalarBuilder(s, dt))
  {
  }

  /** The builder of a scalar, against any Arrow type. */
  lemma ScalarBuilt(s: Scalar, dt: DataType)
    ensures ScalarOutcome(s, dt, ScalarBuilder(s, dt))
  {
    if F.BlockSize(s).Some? {
      BlockOutcome(s, dt);
    } else if s.DateTime? || s.DateTime64? {
      InstantOutcome(s, dt);
    } else if s.FixedSizedString? || s.FixedSizedBinary? {
      WidthOutcome(s, dt);
    } else if IsCut(s) {
      DecimalOutcome(s, dt);
    } else if IsWord(s) {
      WordOutcome(s, dt);
    } else {
      NumberOutcome(s, dt);
    }
  }

  // ---------------------------------------------------------------------------
  // All types
  // ---------------------------------------------------------------------------

  /** The builder is one of the type against the Arrow type: lists of the Arrow type's kind, but
      no views; dictionaries with its keys, if those are whole numbers; structs of as many fields
      as the tuple has items; maps by their first two fields; enums whatever the Arrow type. */
  ghost predicate Built(t: Type, dt: DataType, b: Builder)
    decreases t
  {
    match StripNull(t)
    case Simple(s) => b.Leaf? && Made(s, dt, b.makes) && forall e :: !ScalarRefused(s, e)
    case Enum(width, _) => b == EnumKeys(width)
    case Geo(_) => false
    case Nullable(_) => false
    case Array(x) =>
      && dt.ListLike? && !dt.list.ListView? && !dt.list.LargeListView?
      && b.ListOfItems? && b.list == dt.list && Built(StripNull(x), dt.item.dataType, b.item)
    case LowCardinality(x) =>
      && dt.Dictionary? && dt.keyType.Plain? && F.OfArrow(Env(None, {}), dt.keyType.scalar).Some?
      && F.OfArrow(Env(None, {}), dt.keyType.scalar).value.Whole?
      && !dt.keyType.scalar.Boolean? && !dt.keyType.scalar.Interval?
      && b.Keyed? && b.index == dt.keyType.scalar && Built(StripNull(x), dt.valueType, b.value)
    case Tuple(items) =>
      && dt.Struct? && |items| == |dt.fields| && b.Record? && |b.fields| == |items|
      && forall i | 0 <= i < |items| :: Built(items[i], dt.fields[i].dataType, b.fields[i])
    case Map(k, v) =>
      && dt.Map? && dt.entries.dataType.Struct? && |dt.entries.dataType.fields| >= 2
      && b.Pairs? && Built(k, dt.entries.dataType.fields[0].dataType, b.key)
      && Built(v, dt.entries.dataType.fields[1].dataType, b.value)
  }

  ghost predicate BuiltFrom(t: Type, dt: DataType, r: Result<Builder, BuildError>) {
    match r
    case Ok(b) => Built(t, dt, b)
    case Err(_) => NoneBuilt(t, dt)
  }

  ghost predicate NoneBuilt(t: Type, dt: DataType) {
    forall b :: !Built(t, dt, b)
  }

  lemma KeysAreWhole(a: ArrowScalar)
    ensures IsKey(a) <==>
              && F.OfArrow(Env(None, {}), a).Some? && F.OfArrow(Env(None, {}), a).value.Whole?
              && !a.Boolean? && !a.Interval?
  {
  }

  /** For every type against every Arrow type there is a builder if and only if one can be, and
      it is that. */
  lemma {:induction false} TryNewBuilds(t: Type, dt: DataType)
    ensures BuiltFrom(t, dt, TryNew(t, dt))
    decreases t
  {
    match StripNull(t)
    case Simple(s) => ScalarBuilt(s, dt);
    case Array(x) =>
      if dt.ListLike? { TryNewBuilds(StripNull(x), dt.item.dataType); }
    case LowCardinality(x) =>
      if dt.Dictionary? {
        if dt.keyType.Plain? { KeysAreWhole(dt.keyType.scalar); }
        TryNewBuilds(StripNull(x), dt.valueType);
      }
    case Tuple(items) =>
      if dt.Struct? && |items| == |dt.fields| {
        AllBuild(items, dt.fields);
        TupleBuilds(t, dt);
      }
    case Map(k, v) =>
      if dt.Map? && dt.entries.dataType.Struct? && |dt.entries.dataType.fields| >= 2 {
        TryNewBuilds(k, dt.entries.dataType.fields[0].dataType);
        TryNewBuilds(v, dt.entries.dataType.fields[1].dataType);
      }
    case _ =>
  }

  lemma TupleBuilds(t: Type, dt: DataType)
    requires StripNull(t).Tuple? && dt.Struct? && |StripNull(t).items| == |dt.fields|
    requires var items := StripNull(t).items;
             match TryNewAll(items, dt.fields)
             case Ok(bs) => |bs| == |items| && forall i | 0 <= i < |items| :: Built(items[i], dt.fields[i].dataType, bs[i])
             case Err(_) => exists i | 0 <= i < |items| :: NoneBuilt(items[i], dt.fields[i].dataType)
    ensures BuiltFrom(t, dt, TryNew(t, dt))
  {
    var items := StripNull(t).items;
    if TryNewAll(items, dt.fields).Err? {
      var i :| 0 <= i < |items| && NoneBuilt(items[i], dt.fields[i].dataType);
      forall b | Built(t, dt, b) ensures false { ItemBuilt(t, dt, b, i); }
    }
  }

  lemma ItemBuilt(t: Type, dt: DataType, b: Builder, i: nat)
    requires StripNull(t).Tuple? && i < |StripNull(t).items| && Built(t, dt, b)
    ensures dt.Struct? && i < |dt.fields| && b.Record? && i < |b.fields|
    ensures Built(StripNull(t).items[i], dt.fields[i].dataType, b.fields[i])
  {
  }

  lemma {:induction false} AllBuild(items: seq<Type>, fields: seq<Field>)
    requires |items| == |fields|
    ensures match TryNewAll(items, fields)
            case Ok(bs) => |bs| == |items| && forall i | 0 <= i < |items| :: Built(items[i], fields[i].dataType, bs[i])
            case Err(_) => exists i | 0 <= i < |items| :: NoneBuilt(items[i], fields[i].dataType)
    decreases items
  {
    if items != [] {
      TryNewBuilds(items[0], fields[0].dataType);
      AllBuild(items[1..], fields[1..]);
      assert forall i | 0 < i < |items| :: items[i] == items[1..][i - 1] && fields[i] == fields[1..][i - 1];
      if TryNew(items[0], fields[0].dataType).Ok? && TryNewAll(items[1..], fields[1..]).Err? {
        var i :| 0 <= i < |items[1..]| && NoneBuilt(items[1..][i], fields[1..][i].dataType);
        assert NoneBuilt(items[i + 1], fields[i + 1].dataType);
      }
    }
  }
}
