/** Which types come back from Arrow, which unchanged, and when a second trip changes nothing. */
module TypeTrip {
  import opened Common
  import opened ArrowTypes

  function Trip(env: Env, t: Type): Result<Type, TypeError> {
    match ToArrow(env, t)
    case Err(e) => Err(e)
    case Ok((dt, nullable)) => ToCh(env, dt, nullable)
  }

  function StringsOn(env: Env): bool {
    env.options.Some? && env.options.value.stringsAsStrings
  }

  function Date32On(env: Env): bool {
    env.options.Some? && env.options.value.useDate32ForDate
  }

  // ---------------------------------------------------------------------------
  // The type that comes back, said on the ClickHouse side alone
  // ---------------------------------------------------------------------------

  /** Types the trip is defined on: known zones, precisions up to 9, no Nullable around
      Nullable or around a geo type. */
  predicate Convertible(env: Env, t: Type)
    decreases t
  {
    match StripNull(t)
    case Simple(s) =>
      && (s.DateTime? ==> s.tz.name in env.zones)
      && (s.DateTime64? ==> s.tz.name in env.zones && s.precision <= 9)
    case Geo(_) => !IsNullable(t)
    case Enum(_, _) => true
    case Nullable(_) => false
    case LowCardinality(x) => Convertible(env, x)
    case Array(x) => Convertible(env, x)
    case Tuple(items) => forall i | 0 <= i < |items| :: Convertible(env, items[i])
    case Map(k, v) => Convertible(env, k) && Convertible(env, v)
  }

  /** The nullability the Arrow field gets: a dictionary shows its values'. */
  function FieldNull(t: Type): bool {
    match StripNull(t)
    case LowCardinality(x) => IsNullable(x)
    case _ => IsNullable(t)
  }

  function Fixed(n: nat): Scalar {
    FixedSizedBinary(ToUsize(AsI32(n)))
  }

  function CanonScalar(env: Env, s: Scalar): Scalar {
    match s
    case Int128 => FixedSizedBinary(16)
    case UInt128 => FixedSizedBinary(16)
    case Ipv6 => FixedSizedBinary(16)
    case Uuid => FixedSizedBinary(16)
    case Int256 => FixedSizedBinary(32)
    case UInt256 => FixedSizedBinary(32)
    case Ipv4 => FixedSizedBinary(4)
    case Decimal32(scale) => Scalar.Decimal32(ToUsize(AsI8(scale)))
    case Decimal64(scale) => Scalar.Decimal64(ToUsize(AsI8(scale)))
    case Decimal128(scale) => Scalar.Decimal128(ToUsize(AsI8(scale)))
    case Decimal256(scale) => Scalar.Decimal256(ToUsize(AsI8(scale)))
    case String => if StringsOn(env) then Scalar.String else Scalar.Binary
    case Object => Scalar.String
    case FixedSizedString(n) => Fixed(n)
    case FixedSizedBinary(n) => Fixed(n)
    case Date => if Date32On(env) then Scalar.Date32 else Scalar.Date
    case Date32 => if Date32On(env) then Scalar.Date32 else Scalar.Date
    case DateTime64(p, tz) =>
      if p == 0 then Scalar.DateTime(tz)
      else if p <= 3 then Scalar.DateTime64(3, tz)
      else if p <= 6 then Scalar.DateTime64(6, tz)
      else Scalar.DateTime64(9, tz)
    case _ => s
  }

  /** What becomes of `t` when its field has nullability `n`. */
  function Canon(env: Env, t: Type, n: bool): Type
    decreases t
  {
    match StripNull(t)
    case Simple(s) => Wrap(n, Simple(CanonScalar(env, s)))
    case Geo(kind) => Wrap(n, NormalizeGeo(kind))
    case Enum(_, _) => LowCardinality(Wrap(n, Simple(Scalar.String)))
    case Nullable(_) => t
    case LowCardinality(x) => LowCardinality(Canon(env, x, n))
    case Array(x) => Array(Canon(env, x, FieldNull(x)))
    case Tuple(items) => Wrap(n, Tuple(CanonAll(env, items)))
    case Map(k, v) => Type.Map(Canon(env, k, false), Canon(env, v, FieldNull(v)))
  }

  function CanonAll(env: Env, items: seq<Type>): (ts: seq<Type>)
    ensures |ts| == |items|
    ensures forall i | 0 <= i < |items| :: ts[i] == Canon(env, items[i], FieldNull(items[i]))
    decreases items
  {
    if items == [] then [] else [Canon(env, items[0], FieldNull(items[0]))] + CanonAll(env, items[1..])
  }

  lemma ScalarTrip(env: Env, s: Scalar)
    requires Convertible(env, Simple(s))
    ensures ScalarToArrow(env, s).Some?
    ensures ScalarToCh(env, ScalarToArrow(env, s).value) == Some(CanonScalar(env, s))
  {
  }

  lemma {:induction false} NestTrip(env: Env, depth: nat, n: bool)
    requires !Strict(env)
    ensures ToCh(env, NestDataType(depth), n) == Ok(Wrap(n, NestType(depth)))
  {
    if depth == 0 {
      var fields := POINT_FIELDS;
      assert fields[1..] == [fields[1]] && fields[1..][1..] == [];
      assert FieldToCh(env, fields[0]) == Ok(FLOAT) && FieldToCh(env, fields[1]) == Ok(FLOAT);
      assert FieldsToCh(env, fields[1..][1..]) == Ok([]);
      assert FieldsToCh(env, fields[1..]) == Ok([FLOAT] + []);
      assert [FLOAT] + [] == [FLOAT] && [FLOAT] + [FLOAT] == [FLOAT, FLOAT];
    } else {
      NestTrip(env, depth - 1, false);
      var dt := NestDataType(depth);
      assert dt.item.dataType == NestDataType(depth - 1) && !dt.item.nullable;
      assert Wrap(false, NestType(depth - 1)) == NestType(depth - 1);
      assert !RefusesNullableList(env);
    }
  }

  ghost predicate TripsAs(env: Env, t: Type, n: bool) {
    && ToArrow(env, t).Ok?
    && ToArrow(env, t).value.1 == FieldNull(t)
    && ToCh(env, ToArrow(env, t).value.0, n) == Ok(Canon(env, t, n))
  }

  lemma MapTrip(env: Env, t: Type, n: bool)
    requires StripNull(t).Map? && TripsAs(env, StripNull(t).key, false)
    requires TripsAs(env, StripNull(t).value, FieldNull(StripNull(t).value))
    ensures TripsAs(env, t, n)
  {
  }

  lemma DictionaryTrip(env: Env, t: Type, n: bool)
    requires StripNull(t).LowCardinality? && !Strict(env) && TripsAs(env, StripNull(t).inner, n)
    ensures TripsAs(env, t, n)
  {
  }

  lemma ArrayTrip(env: Env, t: Type, n: bool)
    requires StripNull(t).Array? && !Strict(env)
    requires TripsAs(env, StripNull(t).inner, FieldNull(StripNull(t).inner))
    ensures TripsAs(env, t, n)
  {
  }

  /** Both conversions succeed on every convertible type, and together they give the type
      read off the ClickHouse side, for any nullability of the field. */
  lemma {:induction false} TripIsCanon(env: Env, t: Type, n: bool)
    requires Convertible(env, t) && !Strict(env)
    ensures TripsAs(env, t, n)
    decreases t
  {
    match StripNull(t)
    case Simple(s) => ScalarTrip(env, s);
    case Geo(kind) => NestTrip(env, GeoDepth(kind), n);
    case Enum(_, _) =>
    case LowCardinality(x) =>
      TripIsCanon(env, x, n);
      DictionaryTrip(env, t, n);
    case Array(x) =>
      TripIsCanon(env, x, FieldNull(x));
      ArrayTrip(env, t, n);
    case Tuple(items) => ItemsTrip(env, items, 0);
    case Map(k, v) =>
      TripIsCanon(env, k, false);
      TripIsCanon(env, v, FieldNull(v));
      MapTrip(env, t, n);
  }

  lemma {:induction false} ItemsTrip(env: Env, items: seq<Type>, from: nat)
    requires !Strict(env) && forall i | 0 <= i < |items| :: Convertible(env, items[i])
    ensures ItemsToArrow(env, items, from).Ok?
    ensures FieldsToCh(env, ItemsToArrow(env, items, from).value) == Ok(CanonAll(env, items))
    decreases items
  {
    if items != [] {
      TripIsCanon(env, items[0], FieldNull(items[0]));
      ItemsTrip(env, items[1..], from + 1);
      var fields := ItemsToArrow(env, items, from).value;
      assert fields[1..] == ItemsToArrow(env, items[1..], from + 1).value;
    }
  }

  // ---------------------------------------------------------------------------
  // Fixed points
  // ---------------------------------------------------------------------------

  predicate CanonicalScalar(env: Env, s: Scalar) {
    match s
    case Int128 => false
    case UInt128 => false
    case Ipv6 => false
    case Uuid => false
    case Int256 => false
    case UInt256 => false
    case Ipv4 => false
    case Decimal32(scale) => ToUsize(AsI8(scale)) == scale
    case Decimal64(scale) => ToUsize(AsI8(scale)) == scale
    case Decimal128(scale) => ToUsize(AsI8(scale)) == scale
    case Decimal256(scale) => ToUsize(AsI8(scale)) == scale
    case String => StringsOn(env)
    case Object => false
    case FixedSizedString(_) => false
    case FixedSizedBinary(n) => ToUsize(AsI32(n)) == n
    case Date => !Date32On(env)
    case Date32 => Date32On(env)
    case DateTime64(p, _) => p == 3 || p == 6 || p == 9
    case _ => true
  }

  predicate IsDictOfNulls(t: Type) {
    t.LowCardinality? && t.inner.Nullable?
  }

  /** The canonical types. */
  predicate Canonical(env: Env, t: Type) {
    match t
    case Simple(s) => CanonicalScalar(env, s)
    case Geo(_) => false
    case Enum(_, _) => false
    case Nullable(x) => (x.Simple? || x.Tuple?) && Canonical(env, x)
    case LowCardinality(x) => Canonical(env, x) && !IsDictOfNulls(x)
    case Array(x) => Canonical(env, x)
    case Tuple(items) => forall i | 0 <= i < |items| :: Canonical(env, items[i])
    case Map(k, v) => Canonical(env, k) && !IsNullable(k) && !IsDictOfNulls(k) && Canonical(env, v)
  }

  lemma CanonScalarFixedIff(env: Env, s: Scalar)
    requires Convertible(env, Simple(s))
    ensures CanonScalar(env, s) == s <==> CanonicalScalar(env, s)
  {
  }

  lemma {:induction false} NotNullableGivesNotNullable(env: Env, t: Type)
    requires Convertible(env, t)
    ensures !IsNullable(Canon(env, t, false)) && !FieldNull(Canon(env, t, false))
    decreases t
  {
    match StripNull(t)
    case LowCardinality(x) => NotNullableGivesNotNullable(env, x);
    case _ =>
  }

  /** With its own nullability a type maps to itself if and only if it is canonical; with
      the nullability of its Arrow field the same holds unless it is a dictionary of
      nulls seen from outside. */
  lemma {:induction false} CanonFixedIff(env: Env, t: Type)
    requires Convertible(env, t)
    ensures Canon(env, t, FieldNull(t)) == t <==> Canonical(env, t)
    ensures Canon(env, t, IsNullable(t)) == t <==> Canonical(env, t) && !IsDictOfNulls(t)
    decreases t
  {
    if IsDictOfNulls(t) {
      NotNullableGivesNotNullable(env, t.inner);
    }
    match t
    case Simple(s) => CanonScalarFixedIff(env, s);
    case Nullable(x) => NullableFixedIff(env, x);
    case LowCardinality(x) => CanonFixedIff(env, x);
    case Array(x) => CanonFixedIff(env, x);
    case Tuple(items) => ItemsFixedIff(env, items);
    case Map(k, v) =>
      CanonFixedIff(env, k);
      CanonFixedIff(env, v);
      NotNullableGivesNotNullable(env, k);
    case _ =>
  }

  lemma {:induction false} NullableFixedIff(env: Env, x: Type)
    requires Convertible(env, Nullable(x))
    ensures Canon(env, Nullable(x), true) == Nullable(x) <==> (x.Simple? || x.Tuple?) && Canonical(env, x)
    ensures !x.Simple? && !x.Tuple? ==> !Canon(env, Nullable(x), FieldNull(Nullable(x))).Nullable?
    decreases x, 0
  {
    match x
    case Simple(s) => CanonScalarFixedIff(env, s);
    case Tuple(items) => ItemsFixedIff(env, items);
    case _ =>
  }

  lemma {:induction false} ItemsFixedIff(env: Env, items: seq<Type>)
    requires forall i | 0 <= i < |items| :: Convertible(env, items[i])
    ensures CanonAll(env, items) == items <==> forall i | 0 <= i < |items| :: Canonical(env, items[i])
    decreases items
  {
    forall i | 0 <= i < |items|
      ensures CanonAll(env, items)[i] == items[i] <==> Canonical(env, items[i])
    {
      CanonFixedIff(env, items[i]);
    }
  }

  /** The types that come back unchanged are exactly the canonical ones. */
  lemma TripFixedIff(env: Env, t: Type)
    requires Convertible(env, t) && !Strict(env)
    ensures Trip(env, t) == Ok(t) <==> Canonical(env, t)
  {
    TripIsCanon(env, t, FieldNull(t));
    CanonFixedIff(env, t);
  }

  // ---------------------------------------------------------------------------
  // Idempotence
  // ---------------------------------------------------------------------------

  /** Values that can be null in a dictionary: scalars, tuples, points. */
  predicate HoldsNull(t: Type) {
    match StripNull(t)
    case Simple(_) => true
    case Tuple(_) => true
    case Geo(kind) => kind.Point?
    case _ => false
  }

  /** Under a dictionary with nullability `n`, `t` becomes a second dictionary that holds
      nulls: the next trip cannot see them. */
  predicate BuriesNulls(t: Type, n: bool) {
    n && match StripNull(t)
         case Enum(_, _) => true
         case LowCardinality(w) => HoldsNull(w)
         case _ => false
  }

  /** One trip reaches a canonical type: no nulls get buried, and text either stays text
      or does not come from objects and enums. */
  predicate Settles(env: Env, t: Type, n: bool)
    decreases t
  {
    match StripNull(t)
    case Simple(s) => s.Object? ==> StringsOn(env)
    case Enum(_, _) => StringsOn(env)
    case LowCardinality(x) => Settles(env, x, n) && !BuriesNulls(x, n)
    case Array(x) => Settles(env, x, FieldNull(x))
    case Tuple(items) => forall i | 0 <= i < |items| :: Settles(env, items[i], FieldNull(items[i]))
    case Map(k, v) => Settles(env, k, false) && Settles(env, v, FieldNull(v))
    case _ => true
  }

  lemma CastTwice(n: nat)
    ensures ToUsize(AsI8(ToUsize(AsI8(n)))) == ToUsize(AsI8(n))
    ensures ToUsize(AsI32(ToUsize(AsI32(n)))) == ToUsize(AsI32(n))
  {
    var m := AsI8(n);
    assert m < 0 ==> ToUsize(m) == m + 0x1_0000_0000_0000_0000;
    assert ToUsize(m) % 0x100 == n % 0x100;
    var k := AsI32(n);
    assert k < 0 ==> ToUsize(k) == k + 0x1_0000_0000_0000_0000;
    assert ToUsize(k) % 0x1_0000_0000 == n % 0x1_0000_0000;
  }

  lemma ScalarSettles(env: Env, s: Scalar)
    requires Convertible(env, Simple(s))
    ensures Convertible(env, Simple(CanonScalar(env, s)))
    ensures CanonicalScalar(env, CanonScalar(env, s)) <==> (s.Object? ==> StringsOn(env))
  {
    match s
    case Decimal32(scale) => CastTwice(scale);
    case Decimal64(scale) => CastTwice(scale);
    case Decimal128(scale) => CastTwice(scale);
    case Decimal256(scale) => CastTwice(scale);
    case FixedSizedString(n) => CastTwice(n);
    case FixedSizedBinary(n) => CastTwice(n);
    case _ =>
  }

  lemma {:induction false} NestCanonical(env: Env, depth: nat)
    ensures Canonical(env, NestType(depth)) && Convertible(env, NestType(depth))
  {
    if depth == 0 {
      assert Canonical(env, FLOAT) && Convertible(env, FLOAT);
    } else {
      NestCanonical(env, depth - 1);
    }
  }

  ghost predicate SettlesWell(env: Env, t: Type, n: bool) {
    var c := Canon(env, t, n);
    && Convertible(env, c)
    && (Canonical(env, c) <==> Settles(env, t, n))
    && (IsDictOfNulls(c) <==> BuriesNulls(t, n))
    && (FieldNull(c) ==> n)
  }

  lemma DictionarySettles(env: Env, t: Type, n: bool)
    requires StripNull(t).LowCardinality? && Convertible(env, t)
    requires SettlesWell(env, StripNull(t).inner, n)
    ensures SettlesWell(env, t, n)
  {
    var x := StripNull(t).inner;
    assert Canon(env, t, n) == LowCardinality(Canon(env, x, n));
    match StripNull(x)
    case Geo(kind) => assert NestType(GeoDepth(kind)).Tuple? <==> kind.Point?;
    case _ =>
  }

  lemma EnumSettles(env: Env, t: Type, n: bool)
    requires StripNull(t).Enum?
    ensures SettlesWell(env, t, n)
  {
    assert Canonical(env, Simple(Scalar.String)) == StringsOn(env);
  }

  lemma ArraySettles(env: Env, t: Type, n: bool)
    requires StripNull(t).Array? && Convertible(env, t)
    requires SettlesWell(env, StripNull(t).inner, FieldNull(StripNull(t).inner))
    ensures SettlesWell(env, t, n)
  {
  }

  lemma MapSettles(env: Env, t: Type, n: bool)
    requires StripNull(t).Map? && Convertible(env, t)
    requires SettlesWell(env, StripNull(t).key, false)
    requires SettlesWell(env, StripNull(t).value, FieldNull(StripNull(t).value))
    ensures SettlesWell(env, t, n)
  {
    NotNullableGivesNotNullable(env, StripNull(t).key);
  }

  /** The result of a trip is canonical exactly when the type settles. */
  lemma {:induction false} CanonSettles(env: Env, t: Type, n: bool)
    requires Convertible(env, t)
    ensures SettlesWell(env, t, n)
    decreases t
  {
    match StripNull(t)
    case Simple(s) => ScalarSettles(env, s);
    case Geo(kind) => NestCanonical(env, GeoDepth(kind));
    case Enum(_, _) => EnumSettles(env, t, n);
    case LowCardinality(x) =>
      CanonSettles(env, x, n);
      DictionarySettles(env, t, n);
    case Array(x) =>
      CanonSettles(env, x, FieldNull(x));
      ArraySettles(env, t, n);
    case Tuple(items) => ItemsSettle(env, items);
    case Map(k, v) =>
      CanonSettles(env, k, false);
      CanonSettles(env, v, FieldNull(v));
      MapSettles(env, t, n);
  }

  lemma {:induction false} ItemsSettle(env: Env, items: seq<Type>)
    requires forall i | 0 <= i < |items| :: Convertible(env, items[i])
    ensures forall i | 0 <= i < |items| ::
      var c := Canon(env, items[i], FieldNull(items[i]));
      Convertible(env, c) && (Canonical(env, c) <==> Settles(env, items[i], FieldNull(items[i])))
    decreases items
  {
    forall i | 0 <= i < |items|
      ensures var c := Canon(env, items[i], FieldNull(items[i]));
              Convertible(env, c) && (Canonical(env, c) <==> Settles(env, items[i], FieldNull(items[i])))
    {
      CanonSettles(env, items[i], FieldNull(items[i]));
    }
  }

  /** A second trip changes nothing if and only if the type settles. */
  lemma TripIdempotentIff(env: Env, t: Type)
    requires Convertible(env, t) && !Strict(env)
    ensures Trip(env, t) == Ok(Canon(env, t, FieldNull(t)))
    ensures Trip(env, Canon(env, t, FieldNull(t))) == Trip(env, t) <==> Settles(env, t, FieldNull(t))
  {
    var c := Canon(env, t, FieldNull(t));
    TripIsCanon(env, t, FieldNull(t));
    CanonSettles(env, t, FieldNull(t));
    TripFixedIff(env, c);
  }

  /** What ClickHouse accepts: a LowCardinality holds a scalar, nullable or not. */
  predicate Legal(t: Type) {
    match StripNull(t)
    case LowCardinality(x) => StripNull(x).Simple?
    case Array(x) => Legal(x)
    case Tuple(items) => forall i | 0 <= i < |items| :: Legal(items[i])
    case Map(k, v) => Legal(k) && Legal(v)
    case _ => true
  }

  lemma {:induction false} LegalSettles(env: Env, t: Type, n: bool)
    requires Legal(t) && StringsOn(env)
    ensures Settles(env, t, n)
    decreases t
  {
    match StripNull(t)
    case Array(x) => LegalSettles(env, x, FieldNull(x));
    case Tuple(items) =>
      forall i | 0 <= i < |items|
        ensures Settles(env, items[i], FieldNull(items[i]))
      {
        LegalSettles(env, items[i], FieldNull(items[i]));
      }
    case Map(k, v) =>
      LegalSettles(env, k, false);
      LegalSettles(env, v, FieldNull(v));
    case _ =>
  }

  /** With strings read as strings, one trip settles every type ClickHouse accepts: the
      second trip is the identity. */
  lemma LegalTripIdempotent(env: Env, t: Type)
    requires Convertible(env, t) && Legal(t) && StringsOn(env) && !Strict(env)
    ensures Trip(env, t).Ok? && Trip(env, Trip(env, t).value) == Trip(env, t)
  {
    LegalSettles(env, t, FieldNull(t));
    TripIdempotentIff(env, t);
  }

  /** A nullable enum in a dictionary, which ClickHouse refuses, shows that the condition
      is needed: the first trip makes it a dictionary of a dictionary of nullable strings,
      the second loses the nulls. */
  lemma BuriedNullsLost(env: Env)
    requires StringsOn(env) && !Strict(env)
    ensures var t := LowCardinality(Nullable(Type.Enum(Enum8, [])));
            var once := LowCardinality(LowCardinality(Nullable(Simple(Scalar.String))));
            Trip(env, t) == Ok(once)
            && Trip(env, once) == Ok(LowCardinality(LowCardinality(Simple(Scalar.String))))
  {
    var text := Simple(Scalar.String);
    var t := LowCardinality(Nullable(Type.Enum(Enum8, [])));
    var once := LowCardinality(LowCardinality(Nullable(text)));
    TripIsCanon(env, t, true);
    TripIsCanon(env, once, false);
    assert Canon(env, LowCardinality(Nullable(text)), false) == LowCardinality(Canon(env, Nullable(text), false));
  }
}
