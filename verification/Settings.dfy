/** Query settings: printing and parsing values, the wire format with its terminator, and
    sending only what differs from what the server already has. */
module Settings {
  import opened Common
  import opened Wire

  const STRINGS_REVISION := 54429
  const TWO64 := 0x1_0000_0000_0000_0000

  // ---------------------------------------------------------------------------
  // Values as text
  // ---------------------------------------------------------------------------

  /** Texts are their UTF-8 bytes. A float is the number of its bit pattern. */
  datatype Value = Int(i: int) | Bool(b: bool) | Float(code: nat) | Text(s: seq<byte>)

  datatype Setting = Setting(key: seq<byte>, value: Value, important: bool, custom: bool)

  /** How floats are printed and parsed. */
  datatype Floats = Floats(show: nat -> seq<byte>, parse: seq<byte> -> Option<nat>)

  predicate FitsI64(i: int) {
    -TWO63 <= i < TWO63
  }

  const ZERO: byte := 48
  const PLUS: byte := 43
  const MINUS: byte := 45
  const TRUE: seq<byte> := [116, 114, 117, 101]
  const FALSE: seq<byte> := [102, 97, 108, 115, 101]

  function Digits(n: nat): (s: seq<byte>)
    ensures s != []
  {
    if n < 10 then [ZERO + n] else Digits(n / 10) + [ZERO + n % 10]
  }

  predicate IsDigit(b: byte) {
    ZERO <= b < ZERO + 10
  }

  predicate AllDigits(s: seq<byte>) {
    forall k | 0 <= k < |s| :: IsDigit(s[k])
  }

  function DigitsValue(s: seq<byte>): nat
    requires AllDigits(s)
    decreases |s|
  {
    if s == [] then 0 else 10 * DigitsValue(s[..|s| - 1]) + (s[|s| - 1] - ZERO)
  }

  function ShowInt(i: int): seq<byte> {
    if i < 0 then [MINUS] + Digits(-i) else Digits(i)
  }

  function ShowBool(b: bool): seq<byte> {
    if b then TRUE else FALSE
  }

  function Show(fl: Floats, v: Value): seq<byte> {
    match v
    case Int(i) => ShowInt(i)
    case Bool(b) => ShowBool(b)
    case Float(code) => fl.show(code)
    case Text(s) => s
  }

  /** A sign, at least one digit, and no overflow. */
  function ParseInt(s: seq<byte>): Option<int> {
    var signed := s != [] && (s[0] == MINUS || s[0] == PLUS);
    var digits := if signed then s[1..] else s;
    if digits == [] || !AllDigits(digits) then None
    else
      var i: int := if signed && s[0] == MINUS then 0 - DigitsValue(digits) else DigitsValue(digits);
      if FitsI64(i) then Some(i) else None
  }

  function Lower(s: seq<byte>): (r: seq<byte>)
    ensures |r| == |s|
    ensures forall k | 0 <= k < |s| :: r[k] == if 65 <= s[k] <= 90 then s[k] + 32 else s[k]
    decreases |s|
  {
    if s == [] then []
    else Lower(s[..|s| - 1]) + [if 65 <= s[|s| - 1] <= 90 then s[|s| - 1] + 32 else s[|s| - 1]]
  }

  /** `parse_setting_value`. */
  function Parse(fl: Floats, s: seq<byte>): Value {
    if Lower(s) == TRUE || s == [ZERO + 1] then Bool(true)
    else if Lower(s) == FALSE || s == [ZERO] then Bool(false)
    else if ParseInt(s).Some? then Int(ParseInt(s).value)
    else if fl.parse(s).Some? then Float(fl.parse(s).value)
    else Text(s)
  }

  lemma {:induction false} DigitsReadBack(n: nat)
    ensures AllDigits(Digits(n)) && DigitsValue(Digits(n)) == n
  {
    if n >= 10 {
      DigitsReadBack(n / 10);
      var front := Digits(n / 10);
      assert (front + [ZERO + n % 10])[..|front|] == front;
    }
  }

  lemma IntReadsBack(i: int)
    requires FitsI64(i)
    ensures ParseInt(ShowInt(i)) == Some(i)
  {
    if i < 0 {
      DigitsReadBack(-i);
      assert ShowInt(i)[1..] == Digits(-i);
    } else {
      DigitsReadBack(i);
      assert IsDigit(Digits(i)[0]);
    }
  }

  lemma ZeroAndOne()
    ensures ParseInt([ZERO]) == Some(0) && ShowInt(0) == [ZERO]
    ensures ParseInt([ZERO + 1]) == Some(1) && ShowInt(1) == [ZERO + 1]
  {
    assert ShowInt(0) == [ZERO] && ShowInt(1) == [ZERO + 1];
    IntReadsBack(0);
    IntReadsBack(1);
  }

  lemma IntIsNoWord(i: int)
    ensures Lower(ShowInt(i)) != TRUE && Lower(ShowInt(i)) != FALSE
  {
    var s := ShowInt(i);
    assert s[0] == MINUS || IsDigit(s[0]) by {
      if i >= 0 { DigitsReadBack(i); }
    }
    assert Lower(s)[0] == s[0];
  }

  /** An integer setting comes back as itself exactly when it is not 0 or 1, which come back
      as booleans. */
  lemma IntSurvivesIff(fl: Floats, i: int)
    requires FitsI64(i)
    ensures Parse(fl, Show(fl, Int(i))) == if i == 0 then Bool(false) else if i == 1 then Bool(true) else Int(i)
    ensures Parse(fl, Show(fl, Int(i))) == Int(i) <==> i != 0 && i != 1
  {
    IntIsNoWord(i);
    IntReadsBack(i);
    ZeroAndOne();
  }

  lemma BoolSurvives(fl: Floats, b: bool)
    ensures Parse(fl, Show(fl, Bool(b))) == Bool(b)
  {
    assert Lower(ShowBool(b)) == ShowBool(b);
    assert TRUE[0] != FALSE[0];
  }

  /** A text comes back as itself exactly when it does not read as anything else; then it
      has neither a boolean's spelling nor an integer's. */
  lemma TextSurvivesIff(fl: Floats, s: seq<byte>)
    ensures Parse(fl, Show(fl, Text(s))) == Text(s) <==>
              && Lower(s) != TRUE && Lower(s) != FALSE
              && ParseInt(s).None? && fl.parse(s).None?
  {
    ZeroAndOne();
  }

  /** What has come back once comes back again, unless a spelling like 00 or +1 came back
      as the integer 0 or 1: then it turns into a boolean. */
  lemma ParseSettlesIff(fl: Floats, s: seq<byte>)
    requires !Parse(fl, s).Float?
    ensures Parse(fl, Show(fl, Parse(fl, s))) == Parse(fl, s) <==> Parse(fl, s) != Int(0) && Parse(fl, s) != Int(1)
  {
    match Parse(fl, s)
    case Bool(b) => BoolSurvives(fl, b);
    case Int(i) => IntSurvivesIff(fl, i);
    case Text(_) =>
  }

  // ---------------------------------------------------------------------------
  // One setting on the wire
  // ---------------------------------------------------------------------------

  datatype SettingError = UnsupportedType | BadBytes

  function Flags(s: Setting): nat {
    (if s.important then 1 else 0) + (if s.custom then 2 else 0)
  }

  function AsU64(i: int): nat {
    i % TWO64
  }

  function LegacyValue(v: Value): nat
    requires v.Int? || v.Bool?
  {
    if v.Int? then AsU64(v.i) else if v.b then 1 else 0
  }

  function EncodeSetting(fl: Floats, s: Setting, revision: nat): Result<seq<byte>, SettingError> {
    if revision <= STRINGS_REVISION then
      if !s.value.Int? && !s.value.Bool? then Err(UnsupportedType)
      else Ok(StringBytes(s.key) + Varint(LegacyValue(s.value)))
    else if s.custom && !s.value.Text? then Err(UnsupportedType)
    else Ok(StringBytes(s.key) + (Varint(Flags(s)) + StringBytes(Show(fl, s.value))))
  }

  function DecodeSetting(fl: Floats, key: seq<byte>, bytes: seq<byte>): (r: Result<(Setting, seq<byte>), SettingError>)
    ensures r.Ok? ==> |r.value.1| < |bytes|
  {
    match DecodeVarint(bytes)
    case Err(_) => Err(BadBytes)
    case Ok((flags, after)) =>
      match DecodeString(after)
      case Err(_) => Err(BadBytes)
      case Ok((text, rest)) =>
        var custom := flags / 2 % 2 == 1;
        Ok((Setting(key, if custom then Text(text) else Parse(fl, text), flags % 2 == 1, custom), rest))
  }

  /** A setting as it comes back: custom texts untouched, all else printed and parsed. */
  function Received(fl: Floats, s: Setting): Setting {
    if s.custom then s else s.(value := Parse(fl, Show(fl, s.value)))
  }

  predicate Sendable(fl: Floats, s: Setting) {
    && |s.key| <= MAX_STRING && |Show(fl, s.value)| <= MAX_STRING
    && (s.custom ==> s.value.Text?)
  }

  lemma DecodeParts(fl: Floats, key: seq<byte>, bytes: seq<byte>, flags: nat, after: seq<byte>, text: seq<byte>, rest: seq<byte>)
    requires DecodeVarint(bytes) == Ok((flags, after)) && DecodeString(after) == Ok((text, rest))
    ensures DecodeSetting(fl, key, bytes)
         == Ok((Setting(key, if flags / 2 % 2 == 1 then Text(text) else Parse(fl, text), flags % 2 == 1, flags / 2 % 2 == 1), rest))
  {
  }

  lemma FlagsReadBack(s: Setting)
    ensures Flags(s) < 4 && (Flags(s) % 2 == 1 <==> s.important) && (Flags(s) / 2 % 2 == 1 <==> s.custom)
  {
  }

  lemma SettingReadsBack(fl: Floats, s: Setting, revision: nat, rest: seq<byte>)
    requires revision > STRINGS_REVISION && Sendable(fl, s)
    ensures EncodeSetting(fl, s, revision).Ok?
    ensures var bytes := EncodeSetting(fl, s, revision).value + rest;
            && DecodeString(bytes).Ok? && DecodeString(bytes).value.0 == s.key
            && DecodeSetting(fl, s.key, DecodeString(bytes).value.1) == Ok((Received(fl, s), rest))
  {
    var text := Show(fl, s.value);
    var after := StringBytes(text) + rest;
    ConcatAssoc(StringBytes(s.key), Varint(Flags(s)) + StringBytes(text), rest);
    ConcatAssoc(Varint(Flags(s)), StringBytes(text), rest);
    StringRoundTripIff(s.key, Varint(Flags(s)) + after);
    FlagsReadBack(s);
    VarintRoundTripIff(Flags(s), after);
    StringRoundTripIff(text, rest);
    DecodeParts(fl, s.key, Varint(Flags(s)) + after, Flags(s), after, text, rest);
  }

  lemma LegacyBits(i: int)
    requires FitsI64(i)
    ensures AsU64(i) % TWO63 == if i < 0 then i + TWO63 else i
  {
    DivModUnique(AsU64(i), TWO63, if i < 0 then 1 else 0, if i < 0 then i + TWO63 else i);
  }

  /** A legacy integer is read back by a varint reader as itself exactly when it is not
      negative: the top bit of a negative one is never written. */
  lemma LegacyIntIff(i: int, rest: seq<byte>)
    requires FitsI64(i)
    ensures DecodeVarint(Varint(LegacyValue(Int(i))) + rest) == Ok((if i < 0 then i + TWO63 else i, rest))
    ensures DecodeVarint(Varint(LegacyValue(Int(i))) + rest) == Ok((i, rest)) <==> i >= 0
  {
    LegacyBits(i);
    VarintRoundTripIff(AsU64(i), rest);
    assert LegacyValue(Int(i)) == AsU64(i);
  }

  // ---------------------------------------------------------------------------
  // Lists of settings
  // ---------------------------------------------------------------------------

  /** The first setting of a key. */
  function Get(list: seq<Setting>, key: seq<byte>): (r: Option<Setting>)
    ensures r.Some? ==> r.value in list && r.value.key == key
    ensures r.None? <==> forall s | s in list :: s.key != key
  {
    if list == [] then None else if list[0].key == key then Some(list[0]) else Get(list[1..], key)
  }

  predicate Distinct(list: seq<Setting>) {
    forall i, j | 0 <= i < j < |list| :: list[i].key != list[j].key
  }

  function Encode(fl: Floats, list: seq<Setting>, revision: nat): Result<seq<byte>, SettingError> {
    if list == [] then Ok([])
    else
      match EncodeSetting(fl, list[0], revision)
      case Err(e) => Err(e)
      case Ok(bytes) =>
        match Encode(fl, list[1..], revision)
        case Err(e) => Err(e)
        case Ok(more) => Ok(bytes + more)
  }

  /** The server has this key with this value already; flags are not compared. */
  predicate Ignored(ignore: seq<Setting>, s: Setting) {
    Get(ignore, s.key).Some? && Get(ignore, s.key).value.value == s.value
  }

  function Delta(list: seq<Setting>, ignore: seq<Setting>): (d: seq<Setting>)
    ensures forall s :: s in d <==> s in list && !Ignored(ignore, s)
  {
    if list == [] then []
    else (if Ignored(ignore, list[0]) then [] else [list[0]]) + Delta(list[1..], ignore)
  }

  /** Until an empty key. */
  function Decode(fl: Floats, bytes: seq<byte>): Result<(seq<Setting>, seq<byte>), SettingError>
    decreases |bytes|
  {
    match DecodeString(bytes)
    case Err(_) => Err(BadBytes)
    case Ok((key, after)) =>
      if key == [] then Ok(([], after))
      else
        match DecodeSetting(fl, key, after)
        case Err(e) => Err(e)
        case Ok((s, rest)) =>
          match Decode(fl, rest)
          case Err(e) => Err(e)
          case Ok((list, tail)) => Ok(([s] + list, tail))
  }

  /** `Settings`: a list changed in place. */
  class SettingList {
    var list: seq<Setting>

    constructor (initial: seq<Setting>)
      ensures list == initial
    {
      list := initial;
    }

    /** The first setting of the key changes its value and keeps its flags; a new key goes to
        the end. */
    method AddSetting(key: seq<byte>, value: Value)
      modifies this
      ensures list == Added(old(list), key, value)
    {
      var i := 0;
      while i < |list|
        invariant 0 <= i <= |list| && list == old(list)
        invariant forall j | 0 <= j < i :: list[j].key != key
      {
        if list[i].key == key {
          AddedAt(list, i, key, value);
          list := list[i := list[i].(value := value)];
          return;
        }
        i := i + 1;
      }
      AddedAt(list, i, key, value);
      list := list + [Setting(key, value, false, false)];
    }

    method EncodeAll(fl: Floats, revision: nat) returns (r: Result<seq<byte>, SettingError>)
      ensures r == Encode(fl, list, revision)
    {
      r := EncodeWithIgnore(fl, revision, []);
      NothingIgnored(list);
    }

    method EncodeWithIgnore(fl: Floats, revision: nat, ignore: seq<Setting>) returns (r: Result<seq<byte>, SettingError>)
      ensures r == Encode(fl, Delta(list, ignore), revision)
    {
      var out: seq<byte> := [];
      assert list[0..] == list;
      for i := 0 to |list|
        invariant Continues(Encode(fl, Delta(list, ignore), revision), out, Encode(fl, Delta(list[i..], ignore), revision))
      {
        assert list[i..][0] == list[i] && list[i..][1..] == list[i + 1..];
        var later := Delta(list[i + 1..], ignore);
        if Ignored(ignore, list[i]) {
          assert Delta(list[i..], ignore) == later;
          continue;
        }
        assert Delta(list[i..], ignore) == [list[i]] + later;
        EncodeStep(fl, list[i], later, revision, Encode(fl, Delta(list, ignore), revision), out);
        var bytes := EncodeSetting(fl, list[i], revision);
        if bytes.Err? {
          return bytes;
        }
        out := out + bytes.value;
      }
      assert out + [] == out;
      return Ok(out);
    }

    method DecodeInto(fl: Floats, reader: Reader) returns (r: Result<(), SettingError>)
      modifies this, reader
      ensures match Decode(fl, old(reader.unread))
              case Err(e) => r == Err(e)
              case Ok((settings, rest)) => r == Ok(()) && list == settings && reader.unread == rest
    {
      var settings: seq<Setting> := [];
      while true
        invariant MoreRead(Decode(fl, old(reader.unread)), settings, Decode(fl, reader.unread))
        decreases |reader.unread|
      {
        var key := reader.ReadString();
        if key.Err? {
          return Err(BadBytes);
        }
        if key.value == [] {
          assert settings + [] == settings;
          list := settings;
          return Ok(());
        }
        var flags := reader.ReadVarUint();
        if flags.Err? {
          return Err(BadBytes);
        }
        var text := reader.ReadString();
        if text.Err? {
          return Err(BadBytes);
        }
        var custom := flags.value / 2 % 2 == 1;
        var value := if custom then Text(text.value) else Parse(fl, text.value);
        var s := Setting(key.value, value, flags.value % 2 == 1, custom);
        MoreReadStep(Decode(fl, old(reader.unread)), settings, s, Decode(fl, reader.unread));
        settings := settings + [s];
      }
    }
  }

  function Added(list: seq<Setting>, key: seq<byte>, value: Value): seq<Setting> {
    if list == [] then [Setting(key, value, false, false)]
    else if list[0].key == key then [list[0].(value := value)] + list[1..]
    else [list[0]] + Added(list[1..], key, value)
  }

  lemma {:induction false} AddedAt(list: seq<Setting>, i: nat, key: seq<byte>, value: Value)
    requires i <= |list| && (forall j | 0 <= j < i :: list[j].key != key) && (i < |list| ==> list[i].key == key)
    ensures Added(list, key, value)
         == if i < |list| then list[i := list[i].(value := value)] else list + [Setting(key, value, false, false)]
    decreases i
  {
    if i > 0 {
      AddedAt(list[1..], i - 1, key, value);
    }
  }

  lemma EncodeStep(fl: Floats, s: Setting, later: seq<Setting>, revision: nat, whole: Result<seq<byte>, SettingError>,
      out: seq<byte>)
    requires Continues(whole, out, Encode(fl, [s] + later, revision))
    ensures var one := EncodeSetting(fl, s, revision);
            if one.Err? then whole == one else Continues(whole, out + one.value, Encode(fl, later, revision))
  {
    assert ([s] + later)[1..] == later;
    var one, more := EncodeSetting(fl, s, revision), Encode(fl, later, revision);
    if one.Ok? && more.Ok? { ConcatAssoc(out, one.value, more.value); }
  }

  lemma {:induction false} NothingIgnored(list: seq<Setting>)
    ensures Delta(list, []) == list
    decreases list
  {
    if list != [] { NothingIgnored(list[1..]); }
  }

  ghost predicate MoreRead(whole: Result<(seq<Setting>, seq<byte>), SettingError>, done: seq<Setting>,
      rest: Result<(seq<Setting>, seq<byte>), SettingError>)
  {
    match rest
    case Err(e) => whole == Err(e)
    case Ok((list, tail)) => whole.Ok? && whole.value.0 == done + list && whole.value.1 == tail
  }

  lemma MoreReadStep(whole: Result<(seq<Setting>, seq<byte>), SettingError>, done: seq<Setting>, s: Setting,
      rest: Result<(seq<Setting>, seq<byte>), SettingError>)
    ensures var one := match rest
                       case Err(e) => Err(e)
                       case Ok((list, tail)) => Ok(([s] + list, tail));
            MoreRead(whole, done, one) ==> MoreRead(whole, done + [s], rest)
  {
    if rest.Ok? { ConcatAssoc(done, [s], rest.value.0); }
  }
}
