/** Settings lists: the round trip with its terminator, and what the server ends up with when
    only the difference from its own settings is sent. */
module SettingsLaws {
  import opened Common
  import opened Wire
  import opened Settings

  const TERMINATOR: seq<byte> := StringBytes([])

  predicate AllSendable(fl: Floats, list: seq<Setting>) {
    forall s | s in list :: Sendable(fl, s)
  }

  predicate AllKeyed(list: seq<Setting>) {
    forall s | s in list :: s.key != []
  }

  function AllReceived(fl: Floats, list: seq<Setting>): (r: seq<Setting>)
    ensures |r| == |list|
  {
    if list == [] then [] else [Received(fl, list[0])] + AllReceived(fl, list[1..])
  }

  /** A value is encoded if and only if the format has room for its type. */
  lemma {:induction false} EncodeOkIff(fl: Floats, list: seq<Setting>, revision: nat)
    ensures Encode(fl, list, revision).Ok? <==>
              forall s | s in list ::
                if revision <= STRINGS_REVISION then s.value.Int? || s.value.Bool? else s.custom ==> s.value.Text?
    decreases list
  {
    if list != [] {
      EncodeOkIff(fl, list[1..], revision);
      assert list == [list[0]] + list[1..];
    }
  }

  /** Up to the first empty key, or the terminator. */
  function Readable(list: seq<Setting>): seq<Setting> {
    if list == [] || list[0].key == [] then [] else [list[0]] + Readable(list[1..])
  }

  lemma TerminatorStops(fl: Floats, rest: seq<byte>)
    ensures Decode(fl, TERMINATOR + rest) == Ok(([], rest))
  {
    StringRoundTripIff([], rest);
  }

  lemma DecodeKeyed(fl: Floats, bytes: seq<byte>, key: seq<byte>, after: seq<byte>, s: Setting, more: seq<byte>)
    requires DecodeString(bytes) == Ok((key, after))
    ensures key == [] ==> Decode(fl, bytes) == Ok(([], after))
    ensures key != [] && DecodeSetting(fl, key, after) == Ok((s, more)) && Decode(fl, more).Ok? ==>
              Decode(fl, bytes).Ok? && Decode(fl, bytes).value.0 == [s] + Decode(fl, more).value.0
              && Decode(fl, bytes).value.1 == Decode(fl, more).value.1
  {
  }

  lemma {:induction false} ReadableReadsBack(fl: Floats, list: seq<Setting>, revision: nat, rest: seq<byte>)
    requires revision > STRINGS_REVISION && AllSendable(fl, list)
    ensures Encode(fl, list, revision).Ok?
    ensures var r := Decode(fl, Encode(fl, list, revision).value + (TERMINATOR + rest));
            && r.Ok? && r.value.0 == AllReceived(fl, Readable(list))
            && (AllKeyed(list) ==> r.value.1 == rest)
    decreases list
  {
    if list == [] {
      TerminatorStops(fl, rest);
      assert [] + (TERMINATOR + rest) == TERMINATOR + rest;
    } else {
      var s := list[0];
      assert list == [s] + list[1..];
      assert forall x | x in list[1..] :: x in list;
      var tail := Encode(fl, list[1..], revision);
      ReadableReadsBack(fl, list[1..], revision, rest);
      var more := tail.value + (TERMINATOR + rest);
      SettingReadsBack(fl, s, revision, more);
      var bytes := EncodeSetting(fl, s, revision).value;
      ConcatAssoc(bytes, tail.value, TERMINATOR + rest);
      DecodeKeyed(fl, bytes + more, s.key, DecodeString(bytes + more).value.1, Received(fl, s), more);
      if s.key != [] {
        assert Readable(list) == [s] + Readable(list[1..]);
        assert AllReceived(fl, Readable(list)) == [Received(fl, s)] + AllReceived(fl, Readable(list[1..]));
      }
    }
  }

  lemma {:induction false} ReadableAll(list: seq<Setting>)
    ensures AllKeyed(list) <==> |Readable(list)| == |list|
    ensures AllKeyed(list) ==> Readable(list) == list
    ensures |Readable(list)| <= |list|
    decreases list
  {
    if list != [] {
      ReadableAll(list[1..]);
      assert list == [list[0]] + list[1..];
    }
  }

  /** A settings list reads back, each value printed and parsed, with the bytes behind it
      left, if and only if no key is empty: an empty key is the terminator. */
  lemma ListRoundTripIff(fl: Floats, list: seq<Setting>, revision: nat, rest: seq<byte>)
    requires revision > STRINGS_REVISION && AllSendable(fl, list)
    ensures Encode(fl, list, revision).Ok?
    ensures Decode(fl, Encode(fl, list, revision).value + (TERMINATOR + rest)) == Ok((AllReceived(fl, list), rest))
            <==> AllKeyed(list)
  {
    ReadableReadsBack(fl, list, revision, rest);
    ReadableAll(list);
  }

  // ---------------------------------------------------------------------------
  // The difference
  // ---------------------------------------------------------------------------

  function ValueIn(list: seq<Setting>, key: seq<byte>): Option<Value> {
    if Get(list, key).None? then None else Some(Get(list, key).value.value)
  }

  /** One list laid over another. */
  function Over(list: seq<Setting>, base: seq<Setting>, key: seq<byte>): Option<Value> {
    if ValueIn(list, key).Some? then ValueIn(list, key) else ValueIn(base, key)
  }

  lemma {:induction false} GetReceived(fl: Floats, list: seq<Setting>, key: seq<byte>)
    ensures Get(AllReceived(fl, list), key)
         == if Get(list, key).None? then None else Some(Received(fl, Get(list, key).value))
    decreases list
  {
    if list != [] { GetReceived(fl, list[1..], key); }
  }

  lemma OneOfKey(list: seq<Setting>, a: Setting, b: Setting)
    requires Distinct(list) && a in list && b in list && a.key == b.key
    ensures a == b
  {
    var i :| 0 <= i < |list| && list[i] == a;
    var j :| 0 <= j < |list| && list[j] == b;
    assert i == j;
  }

  lemma GetDelta(list: seq<Setting>, ignore: seq<Setting>, key: seq<byte>)
    requires Distinct(list)
    ensures Get(Delta(list, ignore), key)
         == if Get(list, key).Some? && !Ignored(ignore, Get(list, key).value) then Get(list, key) else None
  {
    var got, asked := Get(Delta(list, ignore), key), Get(list, key);
    if got.Some? {
      OneOfKey(list, got.value, asked.value);
    } else if asked.Some? {
      assert asked.value !in Delta(list, ignore);
    }
  }

  /** What the server has for a key after the difference is laid over what it had: the value
      asked for, printed and parsed once if it was sent. */
  lemma DeltaGives(fl: Floats, list: seq<Setting>, ignore: seq<Setting>, key: seq<byte>)
    requires Distinct(list)
    ensures Over(AllReceived(fl, Delta(list, ignore)), ignore, key)
         == if Get(list, key).None? then ValueIn(ignore, key)
            else
              var s := Get(list, key).value;
              Some(if Ignored(ignore, s) then s.value else Received(fl, s).value)
  {
    GetReceived(fl, Delta(list, ignore), key);
    GetDelta(list, ignore, key);
  }

  predicate Survives(fl: Floats, s: Setting) {
    Received(fl, s).value == s.value
  }

  /** Sending the difference has exactly the effect of the full list laid over the server's
      settings, for every key, if and only if every value sent survives being printed. */
  lemma DeltaExactIff(fl: Floats, list: seq<Setting>, ignore: seq<Setting>)
    requires Distinct(list)
    ensures (forall key :: Over(AllReceived(fl, Delta(list, ignore)), ignore, key) == Over(list, ignore, key))
            <==> (forall s | s in Delta(list, ignore) :: Survives(fl, s))
  {
    forall key
      ensures Over(AllReceived(fl, Delta(list, ignore)), ignore, key) == Over(list, ignore, key)
              <==> (Get(list, key).Some? && !Ignored(ignore, Get(list, key).value) ==> Survives(fl, Get(list, key).value))
    {
      DeltaGives(fl, list, ignore, key);
    }
    forall s | s in list ensures Get(list, s.key) == Some(s) {
      GetsItself(list, s);
    }
    if forall key :: Over(AllReceived(fl, Delta(list, ignore)), ignore, key) == Over(list, ignore, key) {
      forall s | s in Delta(list, ignore) ensures Survives(fl, s) {
        assert Over(AllReceived(fl, Delta(list, ignore)), ignore, s.key) == Over(list, ignore, s.key);
      }
    }
  }

  lemma GetsItself(list: seq<Setting>, s: Setting)
    requires Distinct(list) && s in list
    ensures Get(list, s.key) == Some(s)
  {
    OneOfKey(list, s, Get(list, s.key).value);
  }

  /** From the bytes: the difference, encoded and decoded, laid over what the server had,
      is the full list laid over it if and only if what was sent survives being printed. */
  lemma DeltaRoundTripIff(fl: Floats, list: seq<Setting>, ignore: seq<Setting>, revision: nat, rest: seq<byte>)
    requires revision > STRINGS_REVISION && Distinct(list)
    requires AllSendable(fl, Delta(list, ignore)) && AllKeyed(Delta(list, ignore))
    ensures Encode(fl, Delta(list, ignore), revision).Ok?
    ensures var r := Decode(fl, Encode(fl, Delta(list, ignore), revision).value + (TERMINATOR + rest));
            && r.Ok? && r.value.1 == rest
            && ((forall key :: Over(r.value.0, ignore, key) == Over(list, ignore, key))
                <==> (forall s | s in Delta(list, ignore) :: Survives(fl, s)))
  {
    ListRoundTripIff(fl, Delta(list, ignore), revision, rest);
    DeltaExactIff(fl, list, ignore);
  }

  /** Which settings survive: custom ones, booleans, integers but 0 and 1, and texts that
      read as nothing else. */
  lemma SurvivesIff(fl: Floats, s: Setting)
    requires s.value.Int? ==> FitsI64(s.value.i)
    requires !s.value.Float?
    ensures Survives(fl, s) <==>
              s.custom ||
              match s.value
              case Bool(_) => true
              case Int(i) => i != 0 && i != 1
              case Text(t) => Lower(t) != TRUE && Lower(t) != FALSE && ParseInt(t).None? && fl.parse(t).None?
  {
    match s.value
    case Bool(b) => BoolSurvives(fl, b);
    case Int(i) => IntSurvivesIff(fl, i);
    case Text(t) => TextSurvivesIff(fl, t);
  }

  // ---------------------------------------------------------------------------
  // Changing a setting
  // ---------------------------------------------------------------------------

  /** Setting a key gives it the value and changes no other; keys stay distinct, and a
      setting that was there keeps its flags. */
  lemma {:induction false} AddedGives(list: seq<Setting>, key: seq<byte>, value: Value)
    ensures var after := Added(list, key, value);
            && Get(after, key) == Some(if Get(list, key).None? then Setting(key, value, false, false)
                                       else Get(list, key).value.(value := value))
            && (forall other | other != key :: Get(after, other) == Get(list, other))
    decreases list
  {
    if list != [] && list[0].key != key {
      AddedGives(list[1..], key, value);
      assert Added(list, key, value)[1..] == Added(list[1..], key, value);
    }
  }

  lemma {:induction false} AddedDistinct(list: seq<Setting>, key: seq<byte>, value: Value)
    requires Distinct(list)
    ensures Distinct(Added(list, key, value))
    decreases list
  {
    if k :| 0 <= k < |list| && list[k].key == key {
      AddedAt(list, k, key, value);
    } else {
      AddedAt(list, |list|, key, value);
    }
  }
}
