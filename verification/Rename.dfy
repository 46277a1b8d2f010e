/** Rename rules for struct fields, and exactly which names each rule lets one read back. */
module Rename {
  import opened Common

  datatype Rule =
    None | LowerCase | UpperCase | PascalCase | CamelCase | SnakeCase
    | ScreamingSnakeCase | KebabCase | ScreamingKebabCase

  predicate IsLower(c: char) {
    'a' <= c <= 'z'
  }

  predicate IsUpper(c: char) {
    'A' <= c <= 'Z'
  }

  predicate IsAscii(c: char) {
    c < 128 as char
  }

  function ToUpper(c: char): char {
    if IsLower(c) then (c as int - 32) as char else c
  }

  function ToLower(c: char): char {
    if IsUpper(c) then (c as int + 32) as char else c
  }

  function Map(f: char -> char, s: string): (r: string)
    ensures |r| == |s| && forall i | 0 <= i < |s| :: r[i] == f(s[i])
  {
    seq(|s|, i requires 0 <= i < |s| => f(s[i]))
  }

  function Dash(c: char): char {
    if c == '_' then '-' else c
  }

  function Undash(c: char): char {
    if c == '-' then '_' else c
  }

  /** Underscores go, and what follows one is capitalized. */
  function Pascal(s: string, capitalize: bool): string {
    if s == "" then ""
    else if s[0] == '_' then Pascal(s[1..], true)
    else [if capitalize then ToUpper(s[0]) else s[0]] + Pascal(s[1..], false)
  }

  /** The first byte cannot be cut off an empty name, or off a character of several bytes. */
  datatype Renamed = Name(name: string) | Panics

  function Camel(pascal: string): Renamed {
    if pascal == "" || !IsAscii(pascal[0]) then Panics
    else Name([ToLower(pascal[0])] + pascal[1..])
  }

  function Apply(rule: Rule, field: string): Renamed {
    match rule
    case None => Name(field)
    case LowerCase => Name(field)
    case SnakeCase => Name(field)
    case UpperCase => Name(Map(ToUpper, field))
    case PascalCase => Name(Pascal(field, true))
    case CamelCase => Camel(Pascal(field, true))
    case ScreamingSnakeCase => Name(Map(ToUpper, field))
    case KebabCase => Name(Map(Dash, field))
    case ScreamingKebabCase => Name(Map(Dash, Map(ToUpper, field)))
  }

  method PascalLoop(field: string) returns (pascal: string)
    ensures pascal == Pascal(field, true)
  {
    pascal := "";
    var capitalize := true;
    assert field[0..] == field;
    for i := 0 to |field|
      invariant pascal + Pascal(field[i..], capitalize) == Pascal(field, true)
    {
      var ch := field[i];
      assert field[i..][0] == ch && field[i..][1..] == field[i + 1..];
      if ch == '_' {
        capitalize := true;
      } else if capitalize {
        ConcatAssoc(pascal, [ToUpper(ch)], Pascal(field[i + 1..], false));
        pascal := pascal + [ToUpper(ch)];
        capitalize := false;
      } else {
        ConcatAssoc(pascal, [ch], Pascal(field[i + 1..], false));
        pascal := pascal + [ch];
      }
    }
    assert pascal + "" == pascal;
  }

  /** camelCase fails exactly on names without a character other than underscores, and on
      those whose first such character is not ASCII. */
  lemma {:induction false} CamelPanicsIff(s: string)
    ensures Apply(CamelCase, s) == Panics <==> (forall i | 0 <= i < |s| :: s[i] == '_') || !IsAscii(FirstLetter(s))
  {
    PascalFirst(s);
  }

  /** The first character other than an underscore. */
  function FirstLetter(s: string): char {
    if s == "" then '_' else if s[0] == '_' then FirstLetter(s[1..]) else s[0]
  }

  lemma {:induction false} PascalFirst(s: string)
    ensures Pascal(s, true) == "" <==> forall i | 0 <= i < |s| :: s[i] == '_'
    ensures Pascal(s, true) != "" ==> Pascal(s, true)[0] == ToUpper(FirstLetter(s))
    decreases s
  {
    if s != "" && s[0] == '_' {
      PascalFirst(s[1..]);
      assert forall i | 0 < i < |s| :: s[i] == s[1..][i - 1];
    }
  }

  // ---------------------------------------------------------------------------
  // Reading names back
  // ---------------------------------------------------------------------------

  /** An underscore before every capital but the first character, and no capitals. */
  function Unpascal(p: string): string {
    if p == "" then "" else [ToLower(p[0])] + Split(p[1..])
  }

  function Split(p: string): string {
    if p == "" then ""
    else (if IsUpper(p[0]) then ['_', ToLower(p[0])] else [p[0]]) + Split(p[1..])
  }

  predicate NoCapitals(s: string) {
    forall i | 0 <= i < |s| :: !IsUpper(s[i])
  }

  /** Every underscore stands before a lowercase letter. */
  predicate Joined(s: string) {
    s == "" || ((s[0] == '_' ==> 1 < |s| && IsLower(s[1])) && Joined(s[1..]))
  }

  /** No capitals, no leading underscore, and lowercase letters after the others. */
  predicate Recoverable(s: string) {
    NoCapitals(s) && (s != "" ==> s[0] != '_') && Joined(s)
  }

  lemma {:induction false} SplitNoCapitals(p: string)
    ensures NoCapitals(Split(p))
    decreases p
  {
    if p != "" {
      SplitNoCapitals(p[1..]);
      var head := if IsUpper(p[0]) then ['_', ToLower(p[0])] else [p[0]];
      assert Split(p) == head + Split(p[1..]) && NoCapitals(head);
    }
  }

  lemma CapitalsRest(s: string)
    requires s != "" && NoCapitals(s)
    ensures !IsUpper(s[0]) && NoCapitals(s[1..])
  {
  }

  lemma PascalUnfold(s: string, capitalize: bool)
    requires s != ""
    ensures s[0] == '_' ==> Pascal(s, capitalize) == Pascal(s[1..], true)
    ensures s[0] != '_' && !IsUpper(s[0]) ==>
              Split(Pascal(s, capitalize))
              == (if capitalize && IsLower(s[0]) then ['_', s[0]] else [s[0]]) + Split(Pascal(s[1..], false))
    ensures s[0] != '_' && !IsUpper(s[0]) ==>
              Unpascal(Pascal(s, true)) == [s[0]] + Split(Pascal(s[1..], false))
  {
    if s[0] != '_' {
      var c := if capitalize then ToUpper(s[0]) else s[0];
      var rest := Pascal(s[1..], false);
      assert ([c] + rest)[1..] == rest && ([ToUpper(s[0])] + rest)[1..] == rest;
    }
  }

  lemma {:induction false} SplitLength(s: string, capitalize: bool)
    requires NoCapitals(s)
    ensures |Split(Pascal(s, capitalize))| <= |s| + (if capitalize then 1 else 0)
    decreases s
  {
    if s != "" {
      CapitalsRest(s);
      PascalUnfold(s, capitalize);
      SplitLength(s[1..], s[0] == '_');
    }
  }

  /** The tail of a name, after its first character. */
  lemma {:induction false} TailReadsBackIff(s: string)
    requires NoCapitals(s)
    ensures Split(Pascal(s, false)) == s <==> Joined(s)
    decreases s
  {
    if s != "" {
      CapitalsRest(s);
      PascalUnfold(s, false);
      assert s == [s[0]] + s[1..];
      if s[0] == '_' {
        CapitalReadsBackIff(s[1..]);
      } else {
        TailReadsBackIff(s[1..]);
        SameHead(s[0], Split(Pascal(s[1..], false)), s[1..]);
      }
    }
  }

  lemma SameHead(c: char, a: string, b: string)
    ensures [c] + a == [c] + b <==> a == b
  {
    assert ([c] + a)[1..] == a && ([c] + b)[1..] == b;
  }

  /** The tail after an underscore, which has to bring the underscore back. */
  lemma {:induction false} CapitalReadsBackIff(s: string)
    requires NoCapitals(s)
    ensures Split(Pascal(s, true)) == ['_'] + s <==> s != "" && IsLower(s[0]) && Joined(s)
    decreases s
  {
    if s != "" {
      CapitalsRest(s);
      PascalUnfold(s, true);
      if s[0] == '_' {
        SplitLength(s[1..], true);
      } else if IsLower(s[0]) {
        TailReadsBackIff(s[1..]);
        var a := Split(Pascal(s[1..], false));
        assert ['_', s[0]] + a == ['_'] + ([s[0]] + a);
        SameHead('_', [s[0]] + a, s);
        assert s == [s[0]] + s[1..];
        SameHead(s[0], a, s[1..]);
      } else {
        SplitLength(s[1..], false);
      }
    }
  }

  /** A name comes back from PascalCase if and only if it is recoverable. */
  lemma PascalReadsBackIff(s: string)
    ensures Unpascal(Pascal(s, true)) == s <==> Recoverable(s)
  {
    UnpascalNoCapitals(Pascal(s, true));
    if s != "" && NoCapitals(s) {
      CapitalsRest(s);
      PascalUnfold(s, true);
      if s[0] == '_' {
        UnpascalShorter(s[1..]);
      } else {
        TailReadsBackIff(s[1..]);
        assert s == [s[0]] + s[1..];
        SameHead(s[0], Split(Pascal(s[1..], false)), s[1..]);
      }
    }
  }

  lemma UnpascalNoCapitals(p: string)
    ensures NoCapitals(Unpascal(p))
  {
    if p != "" {
      SplitNoCapitals(p[1..]);
    }
  }

  lemma {:induction false} UnpascalShorter(s: string)
    requires NoCapitals(s)
    ensures |Unpascal(Pascal(s, true))| <= |s|
    decreases s
  {
    if s != "" {
      CapitalsRest(s);
      PascalUnfold(s, true);
      if s[0] == '_' {
        UnpascalShorter(s[1..]);
      } else {
        SplitLength(s[1..], false);
      }
    }
  }

  /** camelCase, where it does not fail, is read back the same way. */
  lemma CamelReadsBackIff(s: string)
    requires Apply(CamelCase, s).Name?
    ensures Unpascal(Apply(CamelCase, s).name) == s <==> Recoverable(s)
  {
    PascalReadsBackIff(s);
    var p := Pascal(s, true);
    assert ([ToLower(p[0])] + p[1..])[1..] == p[1..];
  }

  // ---------------------------------------------------------------------------
  // Distinct fields keep distinct columns
  // ---------------------------------------------------------------------------

  /** Lowercase-led alphanumeric segments joined by single underscores. */
  predicate Canonical(s: string) {
    && s != "" && IsLower(s[0])
    && forall i | 0 <= i < |s| ::
         && (IsLower(s[i]) || '0' <= s[i] <= '9' || s[i] == '_')
         && (s[i] == '_' ==> Followed(s, i))
  }

  predicate Followed(s: string, i: nat) {
    i + 1 < |s| && IsLower(s[i + 1])
  }

  /** The name a renamed canonical name came from. */
  function Restored(rule: Rule, name: string): string {
    match rule
    case None => name
    case LowerCase => name
    case SnakeCase => name
    case UpperCase => Map(ToLower, name)
    case PascalCase => Unpascal(name)
    case CamelCase => Unpascal(name)
    case ScreamingSnakeCase => Map(ToLower, name)
    case KebabCase => Map(Undash, name)
    case ScreamingKebabCase => Map(ToLower, Map(Undash, name))
  }

  lemma {:induction false} CanonicalJoined(s: string)
    requires forall i | 0 <= i < |s| :: s[i] == '_' ==> Followed(s, i)
    ensures Joined(s)
    decreases s
  {
    if s != "" {
      forall i | 0 <= i < |s[1..]| && s[1..][i] == '_' ensures Followed(s[1..], i) {
        assert s[i + 1] == '_' && Followed(s, i + 1);
      }
      assert s[0] == '_' ==> Followed(s, 0);
      CanonicalJoined(s[1..]);
    }
  }

  lemma CanonicalRecoverable(s: string)
    requires Canonical(s)
    ensures Recoverable(s) && Apply(CamelCase, s).Name?
  {
    CanonicalJoined(s);
    CamelPanicsIff(s);
    assert s[0] != '_' && FirstLetter(s) == s[0];
  }

  lemma MapsRestored(s: string)
    requires Canonical(s)
    ensures Map(ToLower, Map(ToUpper, s)) == s && Map(Undash, Map(Dash, s)) == s
    ensures Map(ToLower, Map(Undash, Map(Dash, Map(ToUpper, s)))) == s
  {
  }

  lemma CanonicalRestored(rule: Rule, s: string)
    requires Canonical(s)
    ensures Apply(rule, s).Name? && Restored(rule, Apply(rule, s).name) == s
  {
    CanonicalRecoverable(s);
    match rule
    case PascalCase => PascalReadsBackIff(s);
    case CamelCase => CamelReadsBackIff(s);
    case _ => MapsRestored(s);
  }

  /** Every rule is injective on canonical names. */
  lemma RulesKeepDistinct(rule: Rule, a: string, b: string)
    requires Canonical(a) && Canonical(b)
    ensures Apply(rule, a) == Apply(rule, b) <==> a == b
  {
    CanonicalRestored(rule, a);
    CanonicalRestored(rule, b);
  }

  /** Off the canonical names two fields can meet in one column. */
  lemma DigitSegmentsMeet()
    ensures Apply(PascalCase, "a_1") == Apply(PascalCase, "a1") && Apply(KebabCase, "a_b") == Apply(KebabCase, "a-b")
  {
    assert "a_1"[1..] == "_1" && "_1"[1..] == "1" && "1"[1..] == "" && "a1"[1..] == "1";
    assert Pascal("1", true) == "1" && Pascal("1", false) == "1";
    assert Pascal("_1", false) == "1";
    assert Map(Dash, "a_b") == "a-b" == Map(Dash, "a-b");
  }

  // ---------------------------------------------------------------------------
  // What each rule does to each character
  // ---------------------------------------------------------------------------

  /** A letter from a to z becomes its capital; nothing else changes. */
  predicate Raised(c: char, r: char) {
    if 'a' <= c <= 'z' then r as int == c as int - 32 else r == c
  }

  /** The rules that keep every character in its place. */
  lemma RuleByCharacter(rule: Rule, field: string)
    ensures rule.None? || rule.LowerCase? || rule.SnakeCase? ==> Apply(rule, field) == Name(field)
    ensures rule.UpperCase? || rule.ScreamingSnakeCase? || rule.KebabCase? || rule.ScreamingKebabCase? ==>
              && Apply(rule, field).Name? && |Apply(rule, field).name| == |field|
              && forall i | 0 <= i < |field| ::
                   var r := Apply(rule, field).name[i];
                   if field[i] == '_' then r == if rule.UpperCase? || rule.ScreamingSnakeCase? then '_' else '-'
                   else if rule.KebabCase? then r == field[i]
                   else Raised(field[i], r)
  {
  }

  /** The places of the characters other than underscores, behind `from`. */
  function Letters(s: string, from: nat): seq<nat>
    requires from <= |s|
    decreases |s| - from
  {
    if from == |s| then [] else (if s[from] == '_' then [] else [from]) + Letters(s, from + 1)
  }

  lemma {:induction false} LettersBehind(s: string, from: nat)
    requires from <= |s|
    ensures forall k | 0 <= k < |Letters(s, from)| :: from <= Letters(s, from)[k] < |s| && s[Letters(s, from)[k]] != '_'
    ensures forall k, j | 0 <= k < j < |Letters(s, from)| :: Letters(s, from)[k] < Letters(s, from)[j]
    ensures forall i | from <= i < |s| && s[i] != '_' :: i in Letters(s, from)
    decreases |s| - from
  {
    if from < |s| { LettersBehind(s, from + 1); }
  }

  lemma PascalStep(s: string, from: nat, capitalize: bool)
    requires from < |s|
    ensures Pascal(s[from..], capitalize)
         == if s[from] == '_' then Pascal(s[from + 1..], true)
            else [if capitalize then ToUpper(s[from]) else s[from]] + Pascal(s[from + 1..], false)
  {
    assert s[from..][0] == s[from] && s[from..][1..] == s[from + 1..];
  }

  lemma {:induction false} PascalLength(s: string, from: nat, capitalize: bool)
    requires from <= |s|
    ensures |Pascal(s[from..], capitalize)| == |Letters(s, from)|
    decreases |s| - from
  {
    if from < |s| {
      PascalStep(s, from, capitalize);
      PascalLength(s, from + 1, s[from] == '_');
    }
  }

  lemma {:induction false} PascalChar(s: string, from: nat, capitalize: bool, k: nat)
    requires from <= |s| && k < |Letters(s, from)|
    ensures var i := Letters(s, from)[k];
            && from <= i < |s| && k < |Pascal(s[from..], capitalize)|
            && Pascal(s[from..], capitalize)[k]
               == if (i == from && capitalize) || (i > from && s[i - 1] == '_') then ToUpper(s[i]) else s[i]
    decreases |s| - from
  {
    PascalLength(s, from, capitalize);
    PascalStep(s, from, capitalize);
    if s[from] == '_' {
      PascalChar(s, from + 1, true, k);
    } else if k > 0 {
      PascalChar(s, from + 1, false, k - 1);
    }
  }

  /** PascalCase keeps the characters other than underscores in order, and raises those at the
      beginning and those behind an underscore. */
  lemma PascalByCharacter(field: string)
    ensures var places, pascal := Letters(field, 0), Pascal(field, true);
            && Apply(PascalCase, field) == Name(pascal) && |pascal| == |places|
            && (forall i :: i in places <==> 0 <= i < |field| && field[i] != '_')
            && (forall k, j | 0 <= k < j < |places| :: places[k] < places[j])
            && forall k | 0 <= k < |places| ::
                 var i := places[k];
                 0 <= i < |field|
                 && if i == 0 || field[i - 1] == '_' then Raised(field[i], pascal[k]) else pascal[k] == field[i]
  {
    LettersBehind(field, 0);
    PascalLength(field, 0, true);
    assert field[0..] == field;
    forall k | 0 <= k < |Letters(field, 0)|
      ensures var i := Letters(field, 0)[k];
              if i == 0 || field[i - 1] == '_' then Raised(field[i], Pascal(field, true)[k])
              else Pascal(field, true)[k] == field[i]
    {
      PascalChar(field, 0, true, k);
    }
  }

  /** camelCase is PascalCase with the first letter lowered. */
  lemma CamelByCharacter(field: string)
    ensures Apply(CamelCase, field).Name? ==>
              var pascal, camel := Pascal(field, true), Apply(CamelCase, field).name;
              && |camel| == |pascal| > 0 && camel[1..] == pascal[1..]
              && if 'A' <= pascal[0] <= 'Z' then camel[0] as int == pascal[0] as int + 32 else camel[0] == pascal[0]
  {
  }
}
