/** Laws of the type conversions: what they can produce, and what strict mode changes. */
module TypeLaws {
  import opened Common
  import opened ArrowTypes

  // ---------------------------------------------------------------------------
  // Forbidden nestings
  // ---------------------------------------------------------------------------

  /** At no depth a Nullable directly around Nullable, Array, Map or LowCardinality. */
  ghost predicate WellNested(t: Type) {
    match t
    case Nullable(x) => !x.Nullable? && !x.Array? && !x.Map? && !x.LowCardinality? && WellNested(x)
    case LowCardinality(x) => WellNested(x)
    case Array(x) => WellNested(x)
    case Tuple(items) => forall i | 0 <= i < |items| :: WellNested(items[i])
    case Map(k, v) => WellNested(k) && WellNested(v)
    case _ => true
  }

  /** Whatever the Arrow type, the nullability and the options. */
  lemma {:induction false} ToChWellNested(env: Env, dt: DataType, nullable: bool)
    requires ToCh(env, dt, nullable).Ok?
    ensures WellNested(ToCh(env, dt, nullable).value)
    decreases dt
  {
    match dt
    case Plain(_) =>
    case ListLike(_, item) => ToChWellNested(env, item.dataType, item.nullable);
    case Dictionary(_, valueType) => ToChWellNested(env, valueType, nullable);
    case Struct(fields) => FieldsWellNested(env, fields);
    case Map(entries, _) =>
      var fields := entries.dataType.fields;
      ToChWellNested(env, fields[0].dataType, fields[0].nullable);
      ToChWellNested(env, fields[1].dataType, fields[1].nullable);
  }

  lemma {:induction false} FieldWellNested(env: Env, f: Field)
    requires FieldToCh(env, f).Ok?
    ensures WellNested(FieldToCh(env, f).value)
    decreases f
  {
    ToChWellNested(env, f.dataType, f.nullable);
  }

  lemma {:induction false} FieldsWellNested(env: Env, fields: seq<Field>)
    requires FieldsToCh(env, fields).Ok?
    ensures forall i | 0 <= i < |FieldsToCh(env, fields).value| :: WellNested(FieldsToCh(env, fields).value[i])
    decreases fields
  {
    if fields != [] {
      FieldWellNested(env, fields[0]);
      FieldsWellNested(env, fields[1..]);
    }
  }

  // ---------------------------------------------------------------------------
  // Strict mode
  // ---------------------------------------------------------------------------

  function Relaxed(env: Env): Env {
    match env.options
    case None => env
    case Some(o) => env.(options := Some(o.(strictSchema := false)))
  }

  /** What strict mode refuses: a nullable dictionary, or, unless nulls become empty
      arrays, a nullable list, anywhere the conversion looks. */
  predicate Refused(env: Env, dt: DataType, nullable: bool)
    decreases dt
  {
    match dt
    case Plain(_) => false
    case ListLike(_, item) => (nullable && RefusesNullableList(env)) || Refused(env, item.dataType, item.nullable)
    case Dictionary(_, valueType) => (nullable && Strict(env)) || Refused(env, valueType, nullable)
    case Struct(fields) => exists i | 0 <= i < |fields| :: RefusedField(env, fields[i])
    case Map(entries, _) =>
      entries.dataType.Struct? && |entries.dataType.fields| >= 2
      && var k, v := entries.dataType.fields[0], entries.dataType.fields[1];
         Refused(env, k.dataType, k.nullable) || Refused(env, v.dataType, v.nullable)
  }

  predicate RefusedField(env: Env, f: Field)
    decreases f
  {
    Refused(env, f.dataType, f.nullable)
  }

  /** Strict mode only rejects, and rejects exactly what it must: it succeeds if and only
      if the relaxed conversion does and nothing refused occurs, with the same type. */
  lemma {:induction false} StrictOnlyRejects(env: Env, dt: DataType, nullable: bool)
    ensures ToCh(env, dt, nullable).Ok? <==> ToCh(Relaxed(env), dt, nullable).Ok? && !Refused(env, dt, nullable)
    ensures ToCh(env, dt, nullable).Ok? ==> ToCh(env, dt, nullable) == ToCh(Relaxed(env), dt, nullable)
    decreases dt
  {
    match dt
    case Plain(scalar) => assert ScalarToCh(env, scalar) == ScalarToCh(Relaxed(env), scalar);
    case ListLike(_, item) => StrictOnlyRejects(env, item.dataType, item.nullable);
    case Dictionary(_, valueType) => StrictOnlyRejects(env, valueType, nullable);
    case Struct(fields) => StrictOnlyRejectsFields(env, fields);
    case Map(entries, _) =>
      if entries.dataType.Struct? && |entries.dataType.fields| >= 2 {
        var fields := entries.dataType.fields;
        StrictOnlyRejects(env, fields[0].dataType, fields[0].nullable);
        StrictOnlyRejects(env, fields[1].dataType, fields[1].nullable);
      }
  }

  lemma {:induction false} StrictOnlyRejectsField(env: Env, f: Field)
    ensures FieldToCh(env, f).Ok? <==> FieldToCh(Relaxed(env), f).Ok? && !RefusedField(env, f)
    ensures FieldToCh(env, f).Ok? ==> FieldToCh(env, f) == FieldToCh(Relaxed(env), f)
    decreases f
  {
    StrictOnlyRejects(env, f.dataType, f.nullable);
  }

  lemma {:induction false} StrictOnlyRejectsFields(env: Env, fields: seq<Field>)
    ensures FieldsToCh(env, fields).Ok?
       <==> FieldsToCh(Relaxed(env), fields).Ok? && !exists i | 0 <= i < |fields| :: RefusedField(env, fields[i])
    ensures FieldsToCh(env, fields).Ok? ==> FieldsToCh(env, fields) == FieldsToCh(Relaxed(env), fields)
    decreases fields
  {
    if fields != [] {
      var rest := fields[1..];
      StrictOnlyRejectsField(env, fields[0]);
      StrictOnlyRejectsFields(env, rest);
      assert forall i | 0 <= i < |rest| :: rest[i] == fields[i + 1];
      if exists i | 0 <= i < |fields| :: RefusedField(env, fields[i]) {
        var i :| 0 <= i < |fields| && RefusedField(env, fields[i]);
        assert i > 0 ==> RefusedField(env, rest[i - 1]);
      }
    }
  }
}
