/** Normalising a ClickHouse type against its Arrow type, and the array builder made from
    the result. */
module TypeBuilder {
  import opened Common
  import opened ArrowTypes
  import opened TypeTrip

  // ---------------------------------------------------------------------------
  // normalize_type
  // ---------------------------------------------------------------------------

  predicate IsText(s: ArrowScalar) {
    s.Utf8? || s.LargeUtf8? || s.Utf8View?
  }

  predicate IsBytes(s: ArrowScalar) {
    s.Binary? || s.LargeBinary? || s.BinaryView?
  }

  function IntoNullable(t: Type): Type {
    match t
    case Nullable(_) => t
    case LowCardinality(x) => LowCardinality(IntoNullable(x))
    case _ => Nullable(t)
  }

  function NormalizeScalar(s: Scalar, a: ArrowScalar): Option<Scalar> {
    if s.String? && IsBytes(a) then Some(Scalar.Binary)
    else if (s.String? || s.FixedSizedString? || s.Binary?) && a.FixedSizeBinary? then
      Some(FixedSizedBinary(ToUsize(a.size)))
    else if s.Binary? && IsText(a) then Some(Scalar.String)
    else if s.FixedSizedBinary? && (a.Utf8? || a.Utf8View?) then Some(FixedSizedString(s.size))
    else None
  }

  /** `None`: nothing to change. */
  function Normalize(t: Type, dt: DataType): Option<Type>
    decreases t, 1
  {
    var core := NormalizeCore(StripNull(t), dt);
    if core.None? then None
    else Some(if IsNullable(t) then IntoNullable(core.value) else core.value)
  }

  function NormalizeCore(t: Type, dt: DataType): Option<Type>
    decreases t, 0
  {
    match t
    case Simple(s) =>
      if !dt.Plain? then None
      else (match NormalizeScalar(s, dt.scalar) case None => None case Some(s') => Some(Simple(s')))
    case Array(x) =>
      if !dt.ListLike? || dt.list.FixedSizeList? then None
      else (match Normalize(x, dt.item.dataType) case None => None case Some(x') => Some(Array(x')))
    case LowCardinality(x) =>
      if dt.Dictionary? then
        (match Normalize(x, dt.valueType) case None => None case Some(x') => Some(LowCardinality(x')))
      else if dt.Plain? && (IsText(dt.scalar) || IsBytes(dt.scalar) || dt.scalar.FixedSizeBinary?) then
        (match Normalize(x, dt) case None => None case Some(x') => Some(LowCardinality(x')))
      else None
    case Tuple(items) =>
      if !dt.Struct? then None
      else if exists i | 0 <= i < |items| && i < |dt.fields| :: Normalize(items[i], dt.fields[i].dataType).Some?
      then Some(Tuple(NormalizeItems(items, dt.fields)))
      else None
    case _ => None
  }

  /** The type after normalisation. */
  function Hint(t: Type, dt: DataType): Type
    decreases t, 2
  {
    if Normalize(t, dt).Some? then Normalize(t, dt).value else t
  }

  /** Element by element, as far as both sides go. */
  function NormalizeItems(items: seq<Type>, fields: seq<Field>): (ts: seq<Type>)
    ensures |ts| == Min(|items|, |fields|)
    ensures forall i | 0 <= i < |ts| :: ts[i] == Hint(items[i], fields[i].dataType)
    decreases items
  {
    if items == [] || fields == [] then []
    else
      var first := items[0];
      [Hint(first, fields[0].dataType)] + NormalizeItems(items[1..], fields[1..])
  }

  predicate Changes(items: seq<Type>, fields: seq<Field>, i: nat)
    requires i < |items| && i < |fields|
  {
    Normalize(items[i], fields[i].dataType).Some?
  }

  /** The loop that copies a tuple only once something in it changes. */
  method NormalizeTuple(items: seq<Type>, fields: seq<Field>) returns (r: Option<seq<Type>>)
    ensures r == if exists i | 0 <= i < |items| && i < |fields| :: Changes(items, fields, i)
                 then Some(NormalizeItems(items, fields)) else None
  {
    ghost var whole := NormalizeItems(items, fields);
    var deferred: Option<seq<Type>> := None;
    for i := 0 to Min(|items|, |fields|)
      invariant deferred.None? ==> items[..i] == whole[..i] && forall j | 0 <= j < i :: !Changes(items, fields, j)
      invariant deferred.Some? ==> deferred.value == whole[..i] && exists j | 0 <= j < i :: Changes(items, fields, j)
    {
      assert whole[..i + 1] == whole[..i] + [whole[i]];
      assert items[..i + 1] == items[..i] + [items[i]];
      var normalized := Normalize(items[i], fields[i].dataType);
      assert normalized.Some? <==> Changes(items, fields, i);
      if normalized.Some? {
        if deferred.None? {
          deferred := Some(items[..i]);
        }
        deferred := Some(deferred.value + [normalized.value]);
      } else if deferred.Some? {
        deferred := Some(deferred.value + [items[i]]);
      }
    }
    assert whole[..Min(|items|, |fields|)] == whole;
    return deferred;
  }

  // ---------------------------------------------------------------------------
  // Laws of normalisation
  // ---------------------------------------------------------------------------

  lemma {:induction false} IntoNullableSettled(t: Type, dt: DataType)
    requires Normalize(t, dt).None?
    ensures Normalize(IntoNullable(t), dt).None?
    decreases t
  {
    match t
    case LowCardinality(x) =>
      if dt.Dictionary? {
        IntoNullableSettled(x, dt.valueType);
      } else if dt.Plain? && (IsText(dt.scalar) || IsBytes(dt.scalar) || dt.scalar.FixedSizeBinary?) {
        IntoNullableSettled(x, dt);
      }
    case _ =>
  }

  /** A normalised type is settled: normalising again changes nothing, for every type
      against every Arrow type. */
  lemma {:induction false} NormalizeSettles(t: Type, dt: DataType)
    requires Normalize(t, dt).Some?
    ensures Normalize(Normalize(t, dt).value, dt).None?
    decreases t, 1
  {
    var core := NormalizeCore(StripNull(t), dt).value;
    CoreSettles(StripNull(t), dt);
    if IsNullable(t) {
      IntoNullableSettled(core, dt);
    }
  }

  lemma {:induction false} CoreSettles(t: Type, dt: DataType)
    requires NormalizeCore(t, dt).Some?
    ensures Normalize(NormalizeCore(t, dt).value, dt).None?
    decreases t, 0
  {
    match t
    case Array(x) => NormalizeSettles(x, dt.item.dataType);
    case LowCardinality(x) => NormalizeSettles(x, if dt.Dictionary? then dt.valueType else dt);
    case Tuple(items) =>
      var ts := NormalizeItems(items, dt.fields);
      forall i | 0 <= i < |ts|
        ensures Normalize(ts[i], dt.fields[i].dataType).None?
      {
        HintSettled(items[i], dt.fields[i].dataType);
      }
    case _ =>
  }

  lemma {:induction false} HintSettled(t: Type, dt: DataType)
    ensures Normalize(Hint(t, dt), dt).None?
    decreases t, 2
  {
    if Normalize(t, dt).Some? { NormalizeSettles(t, dt); }
  }

  predicate IsTextual(s: Scalar) {
    s.String? || s.FixedSizedString? || s.Binary? || s.FixedSizedBinary?
  }

  function NullIf(n: bool, t: Type): Type {
    if n then Nullable(t) else t
  }

  /** A type with its nullability moved to where it is read (into dictionaries) and its
      string and binary leaves made alike: shape and nullability at every depth, nothing
      else. */
  function Form(t: Type, n: bool): Type
    decreases t
  {
    var m := n || IsNullable(t);
    match StripNull(t)
    case Simple(s) => NullIf(m, Simple(if IsTextual(s) then Scalar.String else s))
    case LowCardinality(x) => LowCardinality(Form(x, m))
    case Array(x) => NullIf(m, Array(Form(x, false)))
    case Tuple(items) => NullIf(m, Tuple(Forms(items)))
    case other => NullIf(m, other)
  }

  function Forms(items: seq<Type>): (ts: seq<Type>)
    ensures |ts| == |items|
    ensures forall i | 0 <= i < |items| :: ts[i] == Form(items[i], false)
    decreases items
  {
    if items == [] then [] else [Form(items[0], false)] + Forms(items[1..])
  }

  /** Wherever normalisation pairs a tuple with a struct, the struct has a field for every
      item. */
  predicate Covered(t: Type, dt: DataType)
    decreases t
  {
    match StripNull(t)
    case Array(x) => dt.ListLike? ==> Covered(x, dt.item.dataType)
    case LowCardinality(x) => Covered(x, if dt.Dictionary? then dt.valueType else dt)
    case Tuple(items) =>
      dt.Struct? ==> |items| <= |dt.fields| && forall i | 0 <= i < |items| :: Covered(items[i], dt.fields[i].dataType)
    case _ => true
  }

  lemma {:induction false} FormIntoNullable(t: Type, n: bool)
    requires t.Nullable? ==> !t.inner.Nullable?
    ensures Form(IntoNullable(t), n) == Form(t, true)
    decreases t
  {
    match t
    case LowCardinality(x) =>
      if !(x.Nullable? && x.inner.Nullable?) {
        FormIntoNullable(x, n);
        FormIntoNullable(x, true);
      }
    case _ =>
  }

  /** Normalisation changes string and binary leaves only: shape and nullability stay. */
  lemma {:induction false} NormalizeKeepsForm(t: Type, dt: DataType, n: bool)
    requires Covered(t, dt) && Normalize(t, dt).Some?
    ensures Form(Normalize(t, dt).value, n) == Form(t, n)
    ensures var t' := Normalize(t, dt).value; t'.Nullable? ==> !t'.inner.Nullable?
    decreases t, 1
  {
    var core := NormalizeCore(StripNull(t), dt).value;
    CoreKeepsForm(StripNull(t), dt, if IsNullable(t) then true else n);
    if IsNullable(t) {
      FormIntoNullable(core, n);
    }
  }

  lemma {:induction false} CoreKeepsForm(t: Type, dt: DataType, n: bool)
    requires Covered(t, dt) && NormalizeCore(t, dt).Some?
    ensures Form(NormalizeCore(t, dt).value, n) == Form(t, n)
    ensures !NormalizeCore(t, dt).value.Nullable?
    decreases t, 0
  {
    match t
    case Array(x) => NormalizeKeepsForm(x, dt.item.dataType, false);
    case LowCardinality(x) => NormalizeKeepsForm(x, if dt.Dictionary? then dt.valueType else dt, n);
    case Tuple(items) =>
      forall i | 0 <= i < |items|
        ensures Form(Hint(items[i], dt.fields[i].dataType), false) == Form(items[i], false)
      {
        HintKeepsForm(items[i], dt.fields[i].dataType);
      }
      assert Forms(NormalizeItems(items, dt.fields)) == Forms(items);
    case _ =>
  }

  lemma {:induction false} HintKeepsForm(t: Type, dt: DataType)
    requires Covered(t, dt)
    ensures Form(Hint(t, dt), false) == Form(t, false)
    decreases t, 2
  {
    if Normalize(t, dt).Some? { NormalizeKeepsForm(t, dt, false); }
  }

  /** Against a shorter struct a tuple loses items, as soon as one kept item changes. */
  lemma ShortStructCutsTuple(items: seq<Type>, fields: seq<Field>)
    requires Normalize(Tuple(items), DataType.Struct(fields)).Some?
    ensures Normalize(Tuple(items), DataType.Struct(fields)).value.Tuple?
    ensures |Normalize(Tuple(items), DataType.Struct(fields)).value.items| == |items| <==> |items| <= |fields|
  {
  }

  // ---------------------------------------------------------------------------
  // The array builder
  // ---------------------------------------------------------------------------

  /** A builder, by the Arrow type of the arrays it finishes. */
  datatype Builder =
    | Leaf(makes: ArrowScalar)
    | EnumKeys(width: EnumWidth)
    | ListOfItems(list: ListKind, item: Builder)
    | Keyed(index: ArrowScalar, value: Builder)
    | Pairs(key: Builder, value: Builder)
    | Record(fields: seq<Builder>)

  datatype BuildError = UnexpectedType | Mismatch | BadDecimal | BadPrecision | NegativeWidth | Unimplemented

  /** The Arrow library's rule for a decimal builder. */
  function DecimalBuilder(makes: ArrowScalar, precision: nat, scale: int): Result<Builder, BuildError> {
    if scale > precision then Err(BadDecimal) else Ok(Leaf(makes))
  }

  function WidthBuilder(n: nat): Result<Builder, BuildError> {
    if AsI32(n) < 0 then Err(NegativeWidth) else Ok(Leaf(FixedSizeBinary(AsI32(n))))
  }

  function ZonedBuilder(unit: TimeUnit, tz: Tz, dt: DataType): Builder {
    var zoned := dt.Plain? && dt.scalar.Timestamp? && dt.scalar.zone.Some?;
    Leaf(Timestamp(unit, if zoned then Some(tz.name) else None))
  }

  function ScalarBuilder(s: Scalar, dt: DataType): Result<Builder, BuildError> {
    match s
    case Int8 => Ok(Leaf(ArrowScalar.Int8))
    case Int16 => Ok(Leaf(ArrowScalar.Int16))
    case Int32 => Ok(Leaf(ArrowScalar.Int32))
    case Int64 => Ok(Leaf(ArrowScalar.Int64))
    case UInt8 => Ok(Leaf(ArrowScalar.UInt8))
    case UInt16 => Ok(Leaf(ArrowScalar.UInt16))
    case UInt32 => Ok(Leaf(ArrowScalar.UInt32))
    case UInt64 => Ok(Leaf(ArrowScalar.UInt64))
    case Float32 => Ok(Leaf(ArrowScalar.Float32))
    case Float64 => Ok(Leaf(ArrowScalar.Float64))
    case Decimal32(scale) => DecimalBuilder(ArrowScalar.Decimal128(9, AsI8(scale)), 9, AsI8(scale))
    case Decimal64(scale) => DecimalBuilder(ArrowScalar.Decimal128(18, AsI8(scale)), 18, AsI8(scale))
    case Decimal128(scale) => DecimalBuilder(ArrowScalar.Decimal128(38, AsI8(scale)), 38, AsI8(scale))
    case Decimal256(scale) => DecimalBuilder(ArrowScalar.Decimal256(76, AsI8(scale)), 76, AsI8(scale))
    case Date => Ok(Leaf(ArrowScalar.Date32))
    case Date32 => Ok(Leaf(ArrowScalar.Date32))
    case DateTime(tz) => Ok(ZonedBuilder(Second, tz, dt))
    case DateTime64(p, tz) =>
      if p == 0 then Ok(ZonedBuilder(Second, tz, dt))
      else if p <= 3 then Ok(ZonedBuilder(Millisecond, tz, dt))
      else if p <= 6 then Ok(ZonedBuilder(Microsecond, tz, dt))
      else if p <= 9 then Ok(ZonedBuilder(Nanosecond, tz, dt))
      else Err(BadPrecision)
    case String => Ok(Leaf(Utf8))
    case Object => Ok(Leaf(Utf8))
    case FixedSizedString(n) => WidthBuilder(n)
    case Binary => Ok(Leaf(ArrowScalar.Binary))
    case FixedSizedBinary(n) => WidthBuilder(n)
    case Ipv4 => Ok(Leaf(FixedSizeBinary(4)))
    case Ipv6 => Ok(Leaf(FixedSizeBinary(16)))
    case Uuid => Ok(Leaf(FixedSizeBinary(16)))
    case Int128 => Ok(Leaf(FixedSizeBinary(16)))
    case UInt128 => Ok(Leaf(FixedSizeBinary(16)))
    case Int256 => Ok(Leaf(FixedSizeBinary(32)))
    case UInt256 => Ok(Leaf(FixedSizeBinary(32)))
  }

  predicate IsKey(a: ArrowScalar) {
    a.UInt8? || a.UInt16? || a.UInt32? || a.UInt64? || a.Int8? || a.Int16? || a.Int32? || a.Int64?
  }

  /** `TypedBuilder::try_new`. */
  function TryNew(t: Type, dt: DataType): Result<Builder, BuildError>
    decreases t
  {
    match StripNull(t)
    case Simple(s) => ScalarBuilder(s, dt)
    case Enum(width, _) => Ok(EnumKeys(width))
    case Geo(_) => Err(Unimplemented)
    case Nullable(_) => Err(UnexpectedType)
    case Array(x) =>
      if !dt.ListLike? || dt.list.ListView? || dt.list.LargeListView? then Err(Mismatch)
      else
        (match TryNew(StripNull(x), dt.item.dataType)
         case Err(e) => Err(e)
         case Ok(b) => Ok(ListOfItems(dt.list, b)))
    case LowCardinality(x) =>
      if !dt.Dictionary? || !dt.keyType.Plain? || !IsKey(dt.keyType.scalar) then Err(Mismatch)
      else
        (match TryNew(StripNull(x), dt.valueType)
         case Err(e) => Err(e)
         case Ok(b) => Ok(Keyed(dt.keyType.scalar, b)))
    case Tuple(items) =>
      if !dt.Struct? || |items| != |dt.fields| then Err(Mismatch)
      else
        (match TryNewAll(items, dt.fields)
         case Err(e) => Err(e)
         case Ok(bs) => Ok(Record(bs)))
    case Map(k, v) =>
      if !dt.Map? || !dt.entries.dataType.Struct? || |dt.entries.dataType.fields| < 2 then Err(Mismatch)
      else
        var fields := dt.entries.dataType.fields;
        match TryNew(k, fields[0].dataType)
        case Err(e) => Err(e)
        case Ok(kb) =>
          match TryNew(v, fields[1].dataType)
          case Err(e) => Err(e)
          case Ok(vb) => Ok(Pairs(kb, vb))
  }

  function TryNewAll(items: seq<Type>, fields: seq<Field>): Result<seq<Builder>, BuildError>
    requires |items| == |fields|
    decreases items
  {
    if items == [] then Ok([])
    else
      match TryNew(items[0], fields[0].dataType)
      case Err(e) => Err(e)
      case Ok(b) =>
        match TryNewAll(items[1..], fields[1..])
        case Err(e) => Err(e)
        case Ok(bs) => Ok([b] + bs)
  }

  /** The arrays of the builder are of this Arrow type. */
  predicate Fits(b: Builder, dt: DataType)
    decreases b
  {
    match b
    case Leaf(makes) => dt == Plain(makes)
    case EnumKeys(width) =>
      dt == DataType.Dictionary(Plain(if width.Enum8? then ArrowScalar.Int8 else ArrowScalar.Int16), Plain(Utf8))
    case ListOfItems(list, item) => dt.ListLike? && dt.list == list && Fits(item, dt.item.dataType)
    case Keyed(key, value) => dt.Dictionary? && dt.keyType == Plain(key) && Fits(value, dt.valueType)
    case Pairs(k, v) =>
      && dt.Map? && dt.entries.dataType.Struct? && |dt.entries.dataType.fields| == 2
      && Fits(k, dt.entries.dataType.fields[0].dataType)
      && Fits(v, dt.entries.dataType.fields[1].dataType)
    case Record(bs) =>
      dt.Struct? && |dt.fields| == |bs| && forall i | 0 <= i < |bs| :: Fits(bs[i], dt.fields[i].dataType)
  }

  // ---------------------------------------------------------------------------
  // The builder of the normalised type against the announced Arrow type
  // ---------------------------------------------------------------------------

  /** Types a builder exists for: no geo types, valid precisions, scales and widths. */
  predicate Buildable(t: Type)
    decreases t
  {
    match StripNull(t)
    case Simple(s) =>
      (match s
       case Decimal32(scale) => AsI8(scale) <= 9
       case Decimal64(scale) => AsI8(scale) <= 18
       case Decimal128(scale) => AsI8(scale) <= 38
       case Decimal256(scale) => AsI8(scale) <= 76
       case FixedSizedString(n) => AsI32(n) >= 0
       case FixedSizedBinary(n) => AsI32(n) >= 0
       case DateTime64(p, _) => p <= 9
       case _ => true)
    case Geo(_) => false
    case Enum(_, _) => true
    case Nullable(_) => false
    case LowCardinality(x) => Buildable(x)
    case Array(x) => Buildable(x)
    case Tuple(items) => forall i | 0 <= i < |items| :: Buildable(items[i])
    case Map(k, v) => Buildable(k) && Buildable(v)
  }

  predicate HasString(t: Type)
    decreases t
  {
    match StripNull(t)
    case Simple(s) => s.String?
    case LowCardinality(x) => HasString(x)
    case Array(x) => HasString(x)
    case Tuple(items) => exists i | 0 <= i < |items| :: HasString(items[i])
    case Map(k, v) => HasString(k) || HasString(v)
    case _ => false
  }

  /** A string inside a map, where normalisation does not look. */
  predicate MapHasString(t: Type)
    decreases t
  {
    match StripNull(t)
    case LowCardinality(x) => MapHasString(x)
    case Array(x) => MapHasString(x)
    case Tuple(items) => exists i | 0 <= i < |items| :: MapHasString(items[i])
    case Map(k, v) => HasString(k) || HasString(v)
    case _ => false
  }

  /** Whether a builder, if there is one, makes arrays of type `dt`. */
  function Judged(b: Result<Builder, BuildError>, dt: DataType): Option<bool> {
    if b.Ok? then Some(Fits(b.value, dt)) else None
  }

  /** A builder for `hint` exists, and it makes arrays of type `dt` exactly when `ok`. */
  ghost predicate BuildsIff(hint: Type, dt: DataType, ok: bool) {
    Judged(TryNew(hint, dt), dt) == Some(ok)
  }

  function Announced(env: Env, t: Type): DataType
    requires ToArrow(env, t).Ok?
  {
    ToArrow(env, t).value.0
  }

  lemma ScalarBuilds(env: Env, s: Scalar)
    requires Buildable(Simple(s))
    ensures ScalarToArrow(env, s).Some?
    ensures BuildsIff(Simple(s), Plain(ScalarToArrow(env, s).value), s.String? ==> StringsOn(env))
  {
  }

  lemma ScalarHintBuilds(env: Env, s: Scalar)
    requires Buildable(Simple(s)) && ScalarToArrow(env, s).Some?
    ensures var dt := Plain(ScalarToArrow(env, s).value);
            BuildsIff(CoreHint(Simple(s), dt), dt, true)
  {
    var a := ScalarToArrow(env, s).value;
    if s.FixedSizedString? {
      assert NormalizeScalar(s, a) == Some(FixedSizedBinary(ToUsize(AsI32(s.size))));
      assert ToUsize(AsI32(s.size)) == AsI32(s.size);
    } else if !s.String? {
      ScalarKept(env, s);
      ScalarBuilds(env, s);
    }
  }

  lemma ScalarKept(env: Env, s: Scalar)
    requires !s.String? && !s.FixedSizedString? && ScalarToArrow(env, s).Some?
    ensures NormalizeScalar(s, ScalarToArrow(env, s).value).None?
  {
  }

  /** The builder of `t`, with or without its outer Nullable, fits unless a string is
      announced as binary. */
  ghost predicate RawWell(env: Env, t: Type) {
    && ToArrow(env, t).Ok?
    && BuildsIff(t, Announced(env, t), HasString(t) ==> StringsOn(env))
    && BuildsIff(StripNull(t), Announced(env, t), HasString(t) ==> StringsOn(env))
  }

  lemma DictionaryRaw(env: Env, t: Type)
    requires !Strict(env) && StripNull(t).LowCardinality? && RawWell(env, StripNull(t).inner)
    ensures RawWell(env, t)
  {
  }

  lemma ArrayRaw(env: Env, t: Type)
    requires !Strict(env) && StripNull(t).Array? && RawWell(env, StripNull(t).inner)
    ensures RawWell(env, t)
  {
  }

  lemma MapRaw(env: Env, t: Type)
    requires StripNull(t).Map? && RawWell(env, StripNull(t).key) && RawWell(env, StripNull(t).value)
    ensures RawWell(env, t)
  {
  }

  predicate All(oks: seq<bool>) {
    forall i | 0 <= i < |oks| :: oks[i]
  }

  /** A record builder from builders of the items. */
  lemma RecordBuilds(env: Env, items: seq<Type>, hints: seq<Type>, oks: seq<bool>)
    requires |hints| == |oks| == |items|
    requires forall i | 0 <= i < |items| ::
      ToArrow(env, items[i]).Ok? && BuildsIff(hints[i], Announced(env, items[i]), oks[i])
    ensures ItemsToArrow(env, items, 0).Ok? && |ItemsToArrow(env, items, 0).value| == |items|
    ensures forall i | 0 <= i < |items| :: ItemsToArrow(env, items, 0).value[i].dataType == Announced(env, items[i])
    ensures BuildsIff(Tuple(hints), DataType.Struct(ItemsToArrow(env, items, 0).value), All(oks))
  {
    BuildsAll(env, items, hints, oks, 0);
    var fields := ItemsToArrow(env, items, 0).value;
    assert TryNew(Tuple(hints), DataType.Struct(fields)) == Ok(Record(TryNewAll(hints, fields).value));
  }

  lemma TupleRaw(env: Env, t: Type)
    requires StripNull(t).Tuple?
    requires forall i | 0 <= i < |StripNull(t).items| :: RawWell(env, StripNull(t).items[i])
    ensures RawWell(env, t)
  {
    var items := StripNull(t).items;
    var oks := seq(|items|, i requires 0 <= i < |items| => HasString(items[i]) ==> StringsOn(env));
    RecordBuilds(env, items, items, oks);
    assert StripNull(t) == Tuple(items) && TryNew(t, Announced(env, t)) == TryNew(Tuple(items), Announced(env, t));
    assert All(oks) <==> (HasString(t) ==> StringsOn(env)) by {
      assert HasString(t) <==> exists i | 0 <= i < |items| :: HasString(items[i]);
    }
  }

  /** Without normalisation. */
  lemma {:induction false} RawBuilds(env: Env, t: Type)
    requires Buildable(t) && !Strict(env)
    ensures RawWell(env, t)
    decreases t
  {
    match StripNull(t)
    case Simple(s) => ScalarBuilds(env, s);
    case Enum(_, _) =>
    case LowCardinality(x) =>
      RawBuilds(env, x);
      DictionaryRaw(env, t);
    case Array(x) =>
      RawBuilds(env, x);
      ArrayRaw(env, t);
    case Tuple(items) =>
      forall i | 0 <= i < |items|
        ensures RawWell(env, items[i])
      {
        RawBuilds(env, items[i]);
      }
      TupleRaw(env, t);
    case Map(k, v) =>
      RawBuilds(env, k);
      RawBuilds(env, v);
      MapRaw(env, t);
  }

  /** Item by item: the fields announced, and for builders made from any hints. */
  lemma {:induction false} BuildsAll(env: Env, items: seq<Type>, hints: seq<Type>, oks: seq<bool>, from: nat)
    requires |hints| == |oks| == |items|
    requires forall i | 0 <= i < |items| ::
      ToArrow(env, items[i]).Ok? && BuildsIff(hints[i], Announced(env, items[i]), oks[i])
    ensures ItemsToArrow(env, items, from).Ok? && |ItemsToArrow(env, items, from).value| == |items|
    ensures var fields := ItemsToArrow(env, items, from).value;
            && (forall i | 0 <= i < |items| :: fields[i].dataType == Announced(env, items[i]))
            && TryNewAll(hints, fields).Ok?
            && |TryNewAll(hints, fields).value| == |items|
            && forall i | 0 <= i < |items| :: Fits(TryNewAll(hints, fields).value[i], fields[i].dataType) <==> oks[i]
    decreases items
  {
    if items != [] {
      BuildsAll(env, items[1..], hints[1..], oks[1..], from + 1);
      var fields := ItemsToArrow(env, items, from).value;
      assert fields[1..] == ItemsToArrow(env, items[1..], from + 1).value;
    }
  }

  /** Normalisation below the outer Nullable. */
  function CoreHint(t: Type, dt: DataType): Type {
    if NormalizeCore(t, dt).Some? then NormalizeCore(t, dt).value else t
  }

  lemma {:induction false} TryNewIgnoresNull(t: Type, dt: DataType)
    ensures TryNew(IntoNullable(t), dt) == TryNew(t, dt)
    decreases t
  {
    match t
    case LowCardinality(x) => if dt.Dictionary? { TryNewIgnoresNull(x, dt.valueType); }
    case _ =>
  }

  lemma {:induction false} CoreNotNullable(t: Type, dt: DataType)
    requires !t.Nullable?
    ensures !CoreHint(t, dt).Nullable?
  {
  }

  /** The builder does not see where normalisation put the outer Nullable. */
  lemma HintIgnoresNull(t: Type, dt: DataType)
    requires !StripNull(t).Nullable?
    ensures TryNew(Hint(t, dt), dt) == TryNew(CoreHint(StripNull(t), dt), dt)
    ensures TryNew(StripNull(Hint(t, dt)), dt) == TryNew(CoreHint(StripNull(t), dt), dt)
  {
    var core := CoreHint(StripNull(t), dt);
    CoreNotNullable(StripNull(t), dt);
    TryNewIgnoresNull(core, dt);
  }

  /** After normalisation: right unless a string inside a map is announced as binary. */
  ghost predicate HintWell(env: Env, t: Type) {
    && ToArrow(env, t).Ok?
    && BuildsIff(Hint(t, Announced(env, t)), Announced(env, t), MapHasString(t) ==> StringsOn(env))
    && BuildsIff(StripNull(Hint(t, Announced(env, t))), Announced(env, t), MapHasString(t) ==> StringsOn(env))
  }

  lemma WellFromCore(env: Env, t: Type)
    requires !StripNull(t).Nullable? && ToArrow(env, t).Ok?
    requires BuildsIff(CoreHint(StripNull(t), Announced(env, t)), Announced(env, t), MapHasString(t) ==> StringsOn(env))
    ensures HintWell(env, t)
  {
    HintIgnoresNull(t, Announced(env, t));
  }

  lemma ScalarHint(env: Env, t: Type)
    requires StripNull(t).Simple? && Buildable(t)
    ensures HintWell(env, t)
  {
    ScalarBuilds(env, StripNull(t).scalar);
    ScalarHintBuilds(env, StripNull(t).scalar);
    WellFromCore(env, t);
  }

  lemma EnumHint(env: Env, t: Type)
    requires StripNull(t).Enum?
    ensures HintWell(env, t)
  {
    WellFromCore(env, t);
  }

  lemma MapHint(env: Env, t: Type)
    requires StripNull(t).Map? && RawWell(env, t)
    ensures HintWell(env, t)
  {
    WellFromCore(env, t);
  }

  lemma DictionaryHint(env: Env, t: Type)
    requires !Strict(env) && StripNull(t).LowCardinality? && HintWell(env, StripNull(t).inner)
    ensures HintWell(env, t)
  {
    var x := StripNull(t).inner;
    var dt := Announced(env, t);
    assert dt == DataType.Dictionary(Plain(ArrowScalar.Int32), Announced(env, x));
    assert CoreHint(StripNull(t), dt) == LowCardinality(Hint(x, Announced(env, x)));
    WellFromCore(env, t);
  }

  lemma ArrayHint(env: Env, t: Type)
    requires !Strict(env) && StripNull(t).Array? && HintWell(env, StripNull(t).inner)
    ensures HintWell(env, t)
  {
    var x := StripNull(t).inner;
    var dt := Announced(env, t);
    assert dt.item.dataType == Announced(env, x);
    assert CoreHint(StripNull(t), dt) == Array(Hint(x, Announced(env, x)));
    WellFromCore(env, t);
  }

  lemma TupleCore(items: seq<Type>, fields: seq<Field>, hints: seq<Type>)
    requires |items| == |fields| == |hints|
    requires forall i | 0 <= i < |items| :: hints[i] == Hint(items[i], fields[i].dataType)
    ensures CoreHint(Tuple(items), DataType.Struct(fields)) == Tuple(hints)
  {
    assert NormalizeItems(items, fields) == hints;
    if NormalizeCore(Tuple(items), DataType.Struct(fields)).None? {
      assert hints == items;
    }
  }

  lemma TupleHint(env: Env, t: Type)
    requires StripNull(t).Tuple?
    requires forall i | 0 <= i < |StripNull(t).items| :: HintWell(env, StripNull(t).items[i])
    ensures HintWell(env, t)
  {
    var items := StripNull(t).items;
    var hints := seq(|items|, i requires 0 <= i < |items| => Hint(items[i], Announced(env, items[i])));
    var oks := seq(|items|, i requires 0 <= i < |items| => MapHasString(items[i]) ==> StringsOn(env));
    RecordBuilds(env, items, hints, oks);
    var fields := ItemsToArrow(env, items, 0).value;
    TupleCore(items, fields, hints);
    assert StripNull(t) == Tuple(items) && Announced(env, t) == DataType.Struct(fields);
    assert All(oks) <==> (MapHasString(t) ==> StringsOn(env)) by {
      assert MapHasString(t) <==> exists i | 0 <= i < |items| :: MapHasString(items[i]);
    }
    WellFromCore(env, t);
  }

  /** For every type a builder exists for, the builder of the normalised type can be made,
      and it makes exactly the announced arrays if and only if strings are read as strings
      or no string hides inside a map. */
  lemma {:induction false} BuilderFitsIff(env: Env, t: Type)
    requires Buildable(t) && !Strict(env)
    ensures HintWell(env, t)
    decreases t
  {
    match StripNull(t)
    case Simple(_) => ScalarHint(env, t);
    case Enum(_, _) => EnumHint(env, t);
    case LowCardinality(x) =>
      BuilderFitsIff(env, x);
      DictionaryHint(env, t);
    case Array(x) =>
      BuilderFitsIff(env, x);
      ArrayHint(env, t);
    case Tuple(items) =>
      forall i | 0 <= i < |items|
        ensures HintWell(env, items[i])
      {
        BuilderFitsIff(env, items[i]);
      }
      TupleHint(env, t);
    case Map(_, _) =>
      RawBuilds(env, t);
      MapHint(env, t);
  }
}
