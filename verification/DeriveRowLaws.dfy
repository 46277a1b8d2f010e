/** Reading a derived row agrees with a reference decoder that looks columns up by name. */
module DeriveRowLaws {
  import opened Common
  import opened DeriveRow

  // ---------------------------------------------------------------------------
  // Columns as a map from names
  // ---------------------------------------------------------------------------

  ghost predicate Distinct(names: seq<string>) {
    forall i, j | 0 <= i < j < |names| :: names[i] != names[j]
  }

  ghost predicate DistinctNames(cols: seq<Column>) {
    forall i, j | 0 <= i < j < |cols| :: cols[i].name != cols[j].name
  }

  /** The columns, each name once, are the entries of the map, in some order. */
  ghost predicate Lists(cols: seq<Column>, m: map<string, Value>) {
    && DistinctNames(cols)
    && forall col: Column :: col in cols <==> col.name in m && m[col.name] == col.value
  }

  ghost function ToMap(cols: seq<Column>): map<string, Value>
    requires DistinctNames(cols)
  {
    map col: Column | col in cols :: col.name := col.value
  }

  lemma ToMapListed(cols: seq<Column>)
    requires DistinctNames(cols)
    ensures Lists(cols, ToMap(cols))
  {
  }

  lemma ListsName(cols: seq<Column>, m: map<string, Value>, k: string)
    requires Lists(cols, m) && k in m
    ensures Column(k, m[k]) in cols
  {
  }

  // ---------------------------------------------------------------------------
  // Which field a column belongs to
  // ---------------------------------------------------------------------------

  predicate Belongs(s: Struct, i: nat, k: string)
    requires i < |s.fields|
  {
    var f := s.fields[i];
    if f.shape.Flatten? then k in ColumnNames(f.shape.inner)
    else k !in PullNames(s.fields) && Arm(s.fields, k) == i
  }

  lemma InnerNameInjective(f: Field)
    ensures forall a, b | Takes(f, a) && Takes(f, b) && InnerName(f, a) == InnerName(f, b) :: a == b
  {
    forall a, b | Takes(f, a) && Takes(f, b) && InnerName(f, a) == InnerName(f, b)
      ensures a == b
    {
      if f.shape.Nested? {
        assert a == Dotted(f) + InnerName(f, a) && b == Dotted(f) + InnerName(f, b);
      }
    }
  }

  /** The columns of field `i`, under the names the field's own struct knows. */
  ghost function Part(s: Struct, m: map<string, Value>, i: nat): map<string, Value>
    requires i < |s.fields|
  {
    InnerNameInjective(s.fields[i]);
    map k | k in m && Belongs(s, i, k) :: InnerName(s.fields[i], k) := m[k]
  }

  function Inner(f: Field, col: Column): Column {
    Column(InnerName(f, col.name), col.value)
  }

  /** The same selection from a sequence of columns. */
  function Mine(s: Struct, cols: seq<Column>, i: nat): seq<Column>
    requires i < |s.fields|
    decreases |cols|
  {
    if cols == [] then []
    else
      var x := |cols| - 1;
      Mine(s, cols[..x], i) + if Belongs(s, i, cols[x].name) then [Inner(s.fields[i], cols[x])] else []
  }

  lemma {:induction false} MineHas(s: Struct, cols: seq<Column>, i: nat)
    requires i < |s.fields|
    ensures forall d :: d in Mine(s, cols, i) <==>
              exists col | col in cols :: Belongs(s, i, col.name) && d == Inner(s.fields[i], col)
    ensures DistinctNames(cols) && !s.fields[i].shape.Flatten? ==> DistinctNames(Mine(s, cols, i))
    decreases |cols|
  {
    if cols != [] {
      var x := |cols| - 1;
      MineHas(s, cols[..x], i);
      assert cols == cols[..x] + [cols[x]];
      if DistinctNames(cols) && !s.fields[i].shape.Flatten? && Belongs(s, i, cols[x].name) {
        LastStaysDistinct(s, cols, i);
      }
    }
  }

  lemma LastStaysDistinct(s: Struct, cols: seq<Column>, i: nat)
    requires i < |s.fields| && !s.fields[i].shape.Flatten? && cols != [] && DistinctNames(cols)
    requires var init := Mine(s, cols[..|cols| - 1], i);
             && DistinctNames(init)
             && forall d | d in init ::
                  exists col | col in cols[..|cols| - 1] :: Belongs(s, i, col.name) && d == Inner(s.fields[i], col)
    requires Belongs(s, i, cols[|cols| - 1].name)
    ensures DistinctNames(Mine(s, cols, i))
  {
    var x := |cols| - 1;
    var f, init := s.fields[i], Mine(s, cols[..x], i);
    InnerNameInjective(f);
    forall y | 0 <= y < |init|
      ensures init[y].name != InnerName(f, cols[x].name)
    {
      assert init[y] in init;
      var col :| col in cols[..x] && Belongs(s, i, col.name) && init[y] == Inner(f, col);
      assert Takes(f, col.name) && Takes(f, cols[x].name);
    }
  }

  lemma MineLists(s: Struct, cols: seq<Column>, m: map<string, Value>, i: nat)
    requires i < |s.fields| && !s.fields[i].shape.Flatten? && Lists(cols, m)
    ensures Lists(Mine(s, cols, i), Part(s, m, i))
  {
    MineHas(s, cols, i);
    var f, part := s.fields[i], Part(s, m, i);
    InnerNameInjective(f);
    forall d: Column
      ensures d in Mine(s, cols, i) <==> d.name in part && part[d.name] == d.value
    {
      if d.name in part && part[d.name] == d.value {
        var k :| k in m && Belongs(s, i, k) && InnerName(f, k) == d.name;
        ListsName(cols, m, k);
        assert d == Inner(f, Column(k, m[k]));
      }
    }
  }

  // ---------------------------------------------------------------------------
  // The reference decoder
  // ---------------------------------------------------------------------------

  ghost function Height(part: map<string, Value>): nat
    requires part != map[]
  {
    var k :| k in part;
    if part[k].Array? then |part[k].items| else 0
  }

  /** Arrays of one length. */
  ghost predicate Even(part: map<string, Value>) {
    part != map[] && forall k | k in part :: part[k].Array? && |part[k].items| == Height(part)
  }

  ghost function Slice(part: map<string, Value>, j: nat): map<string, Value>
    requires Even(part) && j < Height(part)
  {
    map k | k in part :: part[k].items[j]
  }

  /** The row in a map from column names to values, if there is one. */
  ghost function Ref(c: Conv, s: Struct, m: map<string, Value>): Option<Row>
    decreases s, 2
  {
    if && Sized(s.fields) && Distinct(PullNames(s.fields)) && (forall n | n in PullNames(s.fields) :: n in m)
       && forall i | 0 <= i < |s.fields| :: RefCells(c, s, m)[i].Some?
    then Some(seq(|s.fields|, i requires 0 <= i < |s.fields| => RefCells(c, s, m)[i].value))
    else None
  }

  ghost function RefCells(c: Conv, s: Struct, m: map<string, Value>): (cells: seq<Option<Cell>>)
    ensures |cells| == |s.fields|
    decreases s, 1
  {
    seq(|s.fields|, i requires 0 <= i < |s.fields| => RefField(c, s.fields[i], Part(s, m, i)))
  }

  ghost function RefField(c: Conv, f: Field, part: map<string, Value>): Option<Cell>
    decreases f, 0
  {
    if f.skipDe then f.missing
    else
      match f.shape
      case Flat(kind) =>
        if f.name !in part then f.missing
        else
          (match c.from(kind, part[f.name])
           case None => None
           case Some(x) => Some(Leaf(x)))
      case Nested(inner) =>
        if Even(part) && forall j | 0 <= j < Height(part) :: Ref(c, inner, Slice(part, j)).Some?
        then Some(Rows(seq(Height(part), j requires 0 <= j < Height(part) => Ref(c, inner, Slice(part, j)).value)))
        else None
      case Flatten(inner) =>
        (match Ref(c, inner, part)
         case None => None
         case Some(row) => Some(Sub(row)))
  }

  /** Some arm takes the name, at every level. */
  ghost predicate Known(s: Struct, k: string)
    decreases s
  {
    || k in PullNames(s.fields)
    || (var i := Arm(s.fields, k);
        i < |s.fields| &&
        var f := s.fields[i];
        f.shape.Nested? ==> Known(f.shape.inner, InnerName(f, k)))
  }

  /** A flattened struct reads every column it announces. */
  ghost predicate Closed(s: Struct)
    decreases s
  {
    forall i | 0 <= i < |s.fields| && !s.fields[i].skipDe ::
      var f := s.fields[i];
      match f.shape
      case Flat(_) => true
      case Nested(inner) => Closed(inner)
      case Flatten(inner) => Closed(inner) && forall n | n in ColumnNames(inner) :: Known(inner, n)
  }

  function Succeeded<T>(r: Result<T, RowError>): Option<T> {
    if r.Ok? then Some(r.value) else None
  }

  /** Both succeed with the same value, or both fail. */
  ghost predicate Agrees<T(!new)>(r: Result<T, RowError>, o: Option<T>) {
    Succeeded(r) == o
  }

  // ---------------------------------------------------------------------------
  // Pulling out flattened columns
  // ---------------------------------------------------------------------------

  function Without(m: map<string, Value>, names: seq<string>): map<string, Value> {
    map k | k in m && k !in names :: m[k]
  }

  lemma SwapRemoveLists(cols: seq<Column>, i: nat, m: map<string, Value>)
    requires Lists(cols, m) && i < |cols|
    ensures Lists(SwapRemove(cols, i), m - {cols[i].name})
  {
    var r, m' := SwapRemove(cols, i), m - {cols[i].name};
    forall col: Column
      ensures col in r <==> col.name in m' && m'[col.name] == col.value
    {
      if col in cols && col.name != cols[i].name {
        var j :| 0 <= j < |cols| && cols[j] == col;
        assert r[if j == |cols| - 1 then i else j] == col;
      }
    }
  }

  lemma {:induction false} PullLists(names: seq<string>, cols: seq<Column>, m: map<string, Value>, acc: map<string, Value>)
    requires Lists(cols, m)
    ensures var r := Pull(names, cols, acc);
            && (r.Ok? <==> Distinct(names) && forall n | n in names :: n in m)
            && (r.Ok? ==>
                  && Lists(r.value.0, Without(m, names))
                  && (forall n | n in names :: n in r.value.1 && r.value.1[n] == m[n])
                  && (forall k | k in acc && k !in names :: k in r.value.1 && r.value.1[k] == acc[k]))
    decreases names
  {
    if names == [] {
      assert Without(m, names) == m;
    } else {
      var n, later := names[0], names[1..];
      assert names == [n] + later;
      var i := FindName(cols, n);
      if i == |cols| {
        assert n !in m by {
          if n in m { ListsName(cols, m, n); }
        }
      } else {
        assert cols[i] in cols;
        var m', acc' := m - {n}, acc[n := cols[i].value];
        SwapRemoveLists(cols, i, m);
        PullLists(later, SwapRemove(cols, i), m', acc');
        assert Distinct(names) <==> Distinct(later) && n !in later by {
          DistinctCons(names);
        }
        assert n !in later ==> Without(m', later) == Without(m, names);
      }
    }
  }

  lemma DistinctCons(names: seq<string>)
    requires names != []
    ensures Distinct(names) <==> Distinct(names[1..]) && names[0] !in names[1..]
  {
    if Distinct(names[1..]) && names[0] !in names[1..] {
      forall i, j | 0 <= i < j < |names| ensures names[i] != names[j] {
        assert names[j] == names[1..][j - 1];
        if i > 0 { assert names[i] == names[1..][i - 1]; }
      }
    }
    if Distinct(names) {
      forall i, j | 0 <= i < j < |names[1..]| ensures names[1..][i] != names[1..][j] {
        assert names[1..][i] == names[i + 1] && names[1..][j] == names[j + 1];
      }
    }
  }

  function Selected(names: seq<string>, m: map<string, Value>): seq<Column>
    requires forall n | n in names :: n in m
  {
    seq(|names|, k requires 0 <= k < |names| => Column(names[k], m[names[k]]))
  }

  lemma {:induction false} TakesOut(names: seq<string>, pulled: map<string, Value>)
    requires Distinct(names) && forall n | n in names :: n in pulled
    ensures TakeOut(names, pulled) == Ok((Selected(names, pulled), Without(pulled, names)))
    decreases names
  {
    if names == [] {
      assert Without(pulled, names) == pulled;
    } else {
      DistinctCons(names);
      var n, later := names[0], names[1..];
      TakesOut(later, pulled - {n});
      assert Selected(names, pulled) == [Column(n, pulled[n])] + Selected(later, pulled - {n});
      assert Without(pulled - {n}, later) == Without(pulled, names);
    }
  }

  lemma SelectedLists(names: seq<string>, m: map<string, Value>, part: map<string, Value>)
    requires Distinct(names) && forall n | n in names :: n in m
    requires part == map k | k in m && k in names :: m[k]
    ensures Lists(Selected(names, m), part)
  {
    var cols := Selected(names, m);
    forall col: Column
      ensures col in cols <==> col.name in part && part[col.name] == col.value
    {
      if col.name in part && part[col.name] == col.value {
        var k :| 0 <= k < |names| && names[k] == col.name;
        assert cols[k] == col;
      }
    }
  }

  // ---------------------------------------------------------------------------
  // The match loop, field by field
  // ---------------------------------------------------------------------------

  function FillAll(c: Conv, f: Field, cols: seq<Column>): Result<Slot, RowError>
    decreases |cols|
  {
    if cols == [] then Ok(EMPTY_SLOT)
    else
      var x := |cols| - 1;
      match FillAll(c, f, cols[..x])
      case Err(e) => Err(e)
      case Ok(slot) => Fill(c, f, slot, cols[x])
  }

  lemma {:induction false} PulledBelongs(fields: seq<Field>, i: nat)
    requires i < |fields| && fields[i].shape.Flatten?
    ensures forall n | n in ColumnNames(fields[i].shape.inner) :: n in PullNames(fields)
    decreases fields
  {
    if i > 0 { PulledBelongs(fields[1..], i - 1); }
  }

  lemma BelongsIsArm(s: Struct, i: nat, k: string)
    requires i < |s.fields| && k !in PullNames(s.fields)
    ensures Belongs(s, i, k) <==> Arm(s.fields, k) == i
  {
    if s.fields[i].shape.Flatten? { PulledBelongs(s.fields, i); }
  }

  lemma {:induction false} PulledFrom(fields: seq<Field>, n: string)
    requires n in PullNames(fields)
    ensures exists j | 0 <= j < |fields| :: fields[j].shape.Flatten? && n in ColumnNames(fields[j].shape.inner)
    decreases fields
  {
    var f := fields[0];
    if f.shape.Flatten? && n in ColumnNames(f.shape.inner) {
    } else {
      PulledFrom(fields[1..], n);
      var j :| 0 <= j < |fields[1..]| && fields[1..][j].shape.Flatten? && n in ColumnNames(fields[1..][j].shape.inner);
      assert fields[j + 1] == fields[1..][j];
    }
  }

  /** Some arm, or a flattened struct, takes the name. */
  predicate Claimed(s: Struct, k: string) {
    k in PullNames(s.fields) || Arm(s.fields, k) < |s.fields|
  }

  /** Every claimed name belongs to one field and to no other. */
  lemma OneFieldEach(s: Struct, k: string) returns (i: nat)
    requires Distinct(PullNames(s.fields)) && Claimed(s, k)
    ensures i < |s.fields|
    ensures forall j | 0 <= j < |s.fields| :: Belongs(s, j, k) <==> j == i
  {
    if k in PullNames(s.fields) {
      PulledFrom(s.fields, k);
      i :| 0 <= i < |s.fields| && s.fields[i].shape.Flatten? && k in ColumnNames(s.fields[i].shape.inner);
      forall j | 0 <= j < |s.fields| && j != i && s.fields[j].shape.Flatten?
        ensures k !in ColumnNames(s.fields[j].shape.inner)
      {
        if k in ColumnNames(s.fields[j].shape.inner) { PulledOnce(s.fields, Min(i, j), if i < j then j else i, k); }
      }
    } else {
      i := Arm(s.fields, k);
      forall j | 0 <= j < |s.fields| ensures Belongs(s, j, k) <==> j == i { BelongsIsArm(s, j, k); }
    }
  }

  lemma {:induction false} PulledOnce(fields: seq<Field>, i: nat, j: nat, k: string)
    requires i < j < |fields| && Distinct(PullNames(fields))
    requires fields[i].shape.Flatten? && fields[j].shape.Flatten?
    requires k in ColumnNames(fields[i].shape.inner)
    ensures k !in ColumnNames(fields[j].shape.inner)
    decreases fields
  {
    var later := fields[1..];
    assert fields[j] == later[j - 1];
    DistinctSplit(if fields[0].shape.Flatten? then ColumnNames(fields[0].shape.inner) else [], PullNames(later));
    if i == 0 {
      PulledBelongs(later, j - 1);
    } else {
      assert fields[i] == later[i - 1];
      PulledOnce(later, i - 1, j - 1, k);
    }
  }

  /** How many columns the fields before `n` take. */
  function Taken(s: Struct, cols: seq<Column>, n: nat): nat
    requires n <= |s.fields|
  {
    if n == 0 then 0 else Taken(s, cols, n - 1) + |Mine(s, cols, n - 1)|
  }

  lemma {:induction false} TakenLast(s: Struct, init: seq<Column>, col: Column, n: nat, i: nat)
    requires n <= |s.fields| && forall j | 0 <= j < |s.fields| :: Belongs(s, j, col.name) <==> j == i
    ensures Taken(s, init + [col], n) == Taken(s, init, n) + if i < n then 1 else 0
    decreases n
  {
    if n > 0 {
      TakenLast(s, init, col, n - 1, i);
      assert (init + [col])[..|init|] == init;
    }
  }

  /** Every column is consumed exactly once: the fields' shares add up to all columns. */
  lemma {:induction false} EachColumnOnce(s: Struct, cols: seq<Column>)
    requires Distinct(PullNames(s.fields)) && forall col | col in cols :: Claimed(s, col.name)
    ensures Taken(s, cols, |s.fields|) == |cols|
    decreases |cols|
  {
    if cols == [] {
      NoneTaken(s, |s.fields|);
    } else {
      var x := |cols| - 1;
      assert cols == cols[..x] + [cols[x]];
      EachColumnOnce(s, cols[..x]);
      var i := OneFieldEach(s, cols[x].name);
      TakenLast(s, cols[..x], cols[x], |s.fields|, i);
    }
  }

  lemma {:induction false} NoneTaken(s: Struct, n: nat)
    requires n <= |s.fields|
    ensures Taken(s, [], n) == 0
  {
    if n > 0 { NoneTaken(s, n - 1); }
  }

  lemma FillAllAppend(c: Conv, f: Field, cols: seq<Column>, col: Column)
    ensures var before := FillAll(c, f, cols);
            FillAll(c, f, cols + [col]) == if before.Ok? then Fill(c, f, before.value, col) else before
  {
    assert (cols + [col])[..|cols|] == cols;
  }

  function Alone(c: Conv, s: Struct, cols: seq<Column>, i: nat): Result<Slot, RowError>
    requires i < |s.fields|
  {
    FillAll(c, s.fields[i], Mine(s, cols, i))
  }

  ghost predicate Splits(c: Conv, s: Struct, cols: seq<Column>) {
    && (MatchAll(c, s, cols).Ok? <==> forall i | 0 <= i < |s.fields| :: Alone(c, s, cols, i).Ok?)
    && (MatchAll(c, s, cols).Ok? ==> forall i | 0 <= i < |s.fields| ::
          Alone(c, s, cols, i) == Ok(MatchAll(c, s, cols).value[i]))
  }

  lemma AloneAppend(c: Conv, s: Struct, init: seq<Column>, col: Column, i: nat)
    requires i < |s.fields| && col.name !in PullNames(s.fields)
    ensures var before := Alone(c, s, init, i);
            Alone(c, s, init + [col], i) ==
              if Arm(s.fields, col.name) == i && before.Ok?
              then Fill(c, s.fields[i], before.value, Inner(s.fields[i], col))
              else before
  {
    BelongsIsArm(s, i, col.name);
    assert (init + [col])[..|init|] == init;
    FillAllAppend(c, s.fields[i], Mine(s, init, i), Inner(s.fields[i], col));
    assert Mine(s, init, i) + [] == Mine(s, init, i);
  }

  /** The loop over all columns does to each field what its own columns do alone. */
  lemma {:induction false} MatchSplits(c: Conv, s: Struct, cols: seq<Column>)
    requires forall col | col in cols :: col.name !in PullNames(s.fields) && Arm(s.fields, col.name) < |s.fields|
    ensures Splits(c, s, cols)
    decreases |cols|
  {
    if cols != [] {
      var x := |cols| - 1;
      assert cols == cols[..x] + [cols[x]];
      MatchSplits(c, s, cols[..x]);
      SplitsStep(c, s, cols[..x], cols[x]);
    }
  }

  function Alones(c: Conv, s: Struct, cols: seq<Column>): (rs: seq<Result<Slot, RowError>>)
    ensures |rs| == |s.fields|
    ensures forall i | 0 <= i < |s.fields| :: rs[i] == Alone(c, s, cols, i)
  {
    seq(|s.fields|, i requires 0 <= i < |s.fields| => Alone(c, s, cols, i))
  }

  /** Succeeds exactly when all results do, with their values. */
  ghost predicate AllSlots(r: Result<seq<Slot>, RowError>, rs: seq<Result<Slot, RowError>>) {
    && (r.Ok? <==> forall i | 0 <= i < |rs| :: rs[i].Ok?)
    && (r.Ok? ==> |r.value| == |rs| && forall i | 0 <= i < |rs| :: rs[i] == Ok(r.value[i]))
  }

  lemma SplitsIsAll(c: Conv, s: Struct, cols: seq<Column>)
    ensures Splits(c, s, cols) <==> AllSlots(MatchAll(c, s, cols), Alones(c, s, cols))
  {
    var rs := Alones(c, s, cols);
    assert (forall i | 0 <= i < |s.fields| :: Alone(c, s, cols, i).Ok?) <==> forall i | 0 <= i < |rs| :: rs[i].Ok?;
  }

  lemma SplitsStep(c: Conv, s: Struct, init: seq<Column>, col: Column)
    requires col.name !in PullNames(s.fields) && Arm(s.fields, col.name) < |s.fields| && Splits(c, s, init)
    ensures Splits(c, s, init + [col])
  {
    var a, before := Arm(s.fields, col.name), MatchAll(c, s, init);
    var olds, news := Alones(c, s, init), Alones(c, s, init + [col]);
    var inner := Inner(s.fields[a], col);
    forall i | 0 <= i < |olds|
      ensures news[i] == if i == a && olds[i].Ok? then Fill(c, s.fields[i], olds[i].value, inner) else olds[i]
    {
      AloneAppend(c, s, init, col, i);
    }
    SplitsIsAll(c, s, init);
    MatchAppended(c, s, init, col);
    OneMoreFilled(c, s.fields, before, MatchAll(c, s, init + [col]), olds, news, a, inner);
    SplitsIsAll(c, s, init + [col]);
  }

  /** One more column for field `a`. */
  lemma OneMoreFilled(c: Conv, fields: seq<Field>, before: Result<seq<Slot>, RowError>, after: Result<seq<Slot>, RowError>,
      olds: seq<Result<Slot, RowError>>, news: seq<Result<Slot, RowError>>, a: nat, col: Column)
    requires |fields| == |olds| == |news| && a < |fields| && AllSlots(before, olds)
    requires forall i | 0 <= i < |olds| ::
               news[i] == if i == a && olds[i].Ok? then Fill(c, fields[i], olds[i].value, col) else olds[i]
    requires after == if before.Err? then before else FillAt(c, fields, before.value, a, col)
    ensures AllSlots(after, news)
  {
    if before.Err? {
      var i :| 0 <= i < |olds| && olds[i].Err?;
      assert news[i].Err?;
    } else {
      assert olds[a] == Ok(before.value[a]);
      SlotsFilled(before.value, after, olds, news, a, Fill(c, fields[a], before.value[a], col));
    }
  }

  lemma MatchAppended(c: Conv, s: Struct, init: seq<Column>, col: Column)
    requires Arm(s.fields, col.name) < |s.fields|
    ensures var a, before := Arm(s.fields, col.name), MatchAll(c, s, init);
            MatchAll(c, s, init + [col])
            == if before.Err? then before else FillAt(c, s.fields, before.value, a, Inner(s.fields[a], col))
  {
    assert (init + [col])[..|init|] == init;
  }

  /** One slot filled is one result changed. */
  lemma SlotsFilled(before: seq<Slot>, after: Result<seq<Slot>, RowError>, olds: seq<Result<Slot, RowError>>,
      news: seq<Result<Slot, RowError>>, a: nat, filled: Result<Slot, RowError>)
    requires |before| == |olds| == |news| && a < |before|
    requires forall i | 0 <= i < |olds| :: olds[i] == Ok(before[i])
    requires forall i | 0 <= i < |olds| :: news[i] == if i == a then filled else olds[i]
    requires after == if filled.Err? then Err(filled.error) else Ok(before[a := filled.value])
    ensures after.Ok? <==> forall i | 0 <= i < |news| :: news[i].Ok?
    ensures after.Ok? ==> forall i | 0 <= i < |news| :: news[i] == Ok(after.value[i])
  {
    assert news[a] == filled;
  }

  // ---------------------------------------------------------------------------
  // One field
  // ---------------------------------------------------------------------------

  predicate EvenCols(cols: seq<Column>) {
    forall x | 0 <= x < |cols| :: cols[x].value.Array? && cols[0].value.Array? && |cols[x].value.items| == |cols[0].value.items|
  }

  function Unpacked(cols: seq<Column>): seq<(string, seq<Value>)>
    requires EvenCols(cols)
  {
    seq(|cols|, x requires 0 <= x < |cols| => (cols[x].name, cols[x].value.items))
  }

  lemma EvenAppend(init: seq<Column>, col: Column)
    ensures EvenCols(init + [col]) <==>
              EvenCols(init) && col.value.Array? && (init != [] ==> |col.value.items| == |init[0].value.items|)
  {
    var cols := init + [col];
    assert forall y | 0 <= y < |init| :: cols[y] == init[y];
    assert cols[|init|] == col;
  }

  lemma UnpackedAppend(init: seq<Column>, col: Column)
    requires EvenCols(init) && EvenCols(init + [col]) && col.value.Array?
    ensures Unpacked(init + [col]) == Unpacked(init) + [(col.name, col.value.items)]
  {
  }

  lemma {:induction false} FillNested(c: Conv, f: Field, cols: seq<Column>)
    requires f.shape.Nested?
    ensures FillAll(c, f, cols).Ok? <==> EvenCols(cols)
    ensures EvenCols(cols) ==> FillAll(c, f, cols).value.ext == Unpacked(cols)
    decreases |cols|
  {
    if cols != [] {
      var x := |cols| - 1;
      var init := cols[..x];
      assert cols == init + [cols[x]];
      FillNested(c, f, init);
      EvenAppend(init, cols[x]);
      FillAllAppend(c, f, init, cols[x]);
      if EvenCols(init) {
        assert x > 0 ==> Unpacked(init)[0].1 == init[0].value.items;
        if EvenCols(cols) { UnpackedAppend(init, cols[x]); }
      }
    }
  }

  lemma EvenListed(cols: seq<Column>, part: map<string, Value>)
    requires Lists(cols, part) && cols != []
    ensures part != map[]
    ensures EvenCols(cols) <==> Even(part)
    ensures Even(part) ==> |cols[0].value.items| == Height(part)
  {
    assert cols[0] in cols;
    var h: string :| h in part && Height(part) == if part[h].Array? then |part[h].items| else 0;
    ListsName(cols, part, h);
    if EvenCols(cols) {
      forall k | k in part ensures part[k].Array? && |part[k].items| == Height(part) {
        ListsName(cols, part, k);
      }
    }
    if Even(part) {
      forall x | 0 <= x < |cols|
        ensures cols[x].value.Array? && |cols[x].value.items| == Height(part)
      {
        assert cols[x] in cols;
      }
    }
  }

  lemma RowListed(cols: seq<Column>, part: map<string, Value>, j: nat)
    requires Lists(cols, part) && EvenCols(cols) && Even(part) && cols != []
    requires j < Height(part) == |cols[0].value.items|
    ensures HasRow(Unpacked(cols), j) && Lists(RowAt(Unpacked(cols), j), Slice(part, j))
  {
    var row, slice := RowAt(Unpacked(cols), j), Slice(part, j);
    forall col: Column
      ensures col in row <==> col.name in slice && slice[col.name] == col.value
    {
      if col in row {
        var x :| 0 <= x < |row| && row[x] == col;
        assert cols[x] in cols;
      }
      if col.name in slice && slice[col.name] == col.value {
        ListsName(cols, part, col.name);
        var x :| 0 <= x < |cols| && cols[x] == Column(col.name, part[col.name]);
        assert row[x] == col;
      }
    }
  }

  predicate Rectangular(ext: seq<(string, seq<Value>)>, h: nat) {
    forall k | 0 <= k < |ext| :: |ext[k].1| == h
  }

  function RowResults(c: Conv, inner: Struct, ext: seq<(string, seq<Value>)>, h: nat): (r: seq<Result<Row, RowError>>)
    requires Rectangular(ext, h)
    ensures |r| == h
  {
    seq(h, j requires 0 <= j < h => Deser(c, inner, RowAt(ext, j)))
  }

  ghost predicate Chains(row: Result<Row, RowError>, rest: Result<seq<Row>, RowError>, all: Result<seq<Row>, RowError>) {
    && (all.Ok? <==> row.Ok? && rest.Ok?)
    && (all.Ok? ==> all.value == [row.value] + rest.value)
  }

  /** A chain succeeds exactly when each of its rows does, and collects them in order. */
  lemma {:induction false} ChainCollects(rows: seq<Result<Row, RowError>>, tails: seq<Result<seq<Row>, RowError>>, j: nat)
    requires |tails| == |rows| + 1 && j <= |rows| && tails[|rows|] == Ok([])
    requires forall y | 0 <= y < |rows| :: Chains(rows[y], tails[y + 1], tails[y])
    ensures tails[j].Ok? <==> forall y | j <= y < |rows| :: rows[y].Ok?
    ensures tails[j].Ok? ==> |tails[j].value| == |rows| - j
    ensures tails[j].Ok? ==> forall x | 0 <= x < |rows| - j :: rows[j + x] == Ok(tails[j].value[x])
    decreases |rows| - j
  {
    if j < |rows| {
      ChainCollects(rows, tails, j + 1);
      assert Chains(rows[j], tails[j + 1], tails[j]);
      if tails[j].Ok? {
        forall x | 0 <= x < |rows| - j ensures rows[j + x] == Ok(tails[j].value[x]) {
          if x > 0 { assert rows[j + x] == rows[(j + 1) + (x - 1)]; }
        }
      }
    }
  }

  lemma RebuildAll(c: Conv, inner: Struct, ext: seq<(string, seq<Value>)>, h: nat)
    requires ext != [] && Rectangular(ext, h)
    ensures var r, rows := RebuildFrom(c, inner, ext, 0), RowResults(c, inner, ext, h);
            && (r.Ok? <==> forall y | 0 <= y < h :: rows[y].Ok?)
            && (r.Ok? ==> |r.value| == h && forall y | 0 <= y < h :: rows[y] == Ok(r.value[y]))
  {
    var rows := RowResults(c, inner, ext, h);
    var tails := seq(h + 1, y requires 0 <= y <= h => RebuildFrom(c, inner, ext, y));
    assert tails[h] == Ok([]) by {
      assert |ext[0].1| == h;
    }
    forall y | 0 <= y < h ensures Chains(rows[y], tails[y + 1], tails[y]) {
      RebuildUnfold(c, inner, ext, h, y);
    }
    ChainCollects(rows, tails, 0);
    assert forall y | 0 <= y < h :: rows[0 + y] == rows[y];
  }

  lemma RebuildUnfold(c: Conv, inner: Struct, ext: seq<(string, seq<Value>)>, h: nat, j: nat)
    requires ext != [] && Rectangular(ext, h) && j < h
    ensures Chains(RowResults(c, inner, ext, h)[j], RebuildFrom(c, inner, ext, j + 1), RebuildFrom(c, inner, ext, j))
  {
  }

  /** What a field's own columns make of it. */
  function DecodeField(c: Conv, f: Field, cols: seq<Column>): Result<Cell, RowError> {
    match FillAll(c, f, cols)
    case Err(e) => Err(e)
    case Ok(slot) =>
      match SlotValue(c, f, slot)
      case Err(e) => Err(e)
      case Ok(v) => OrMissing(f, v)
  }

  lemma FirstTwoDiffer(cols: seq<Column>)
    requires DistinctNames(cols)
    ensures |cols| > 1 ==> cols[0].name != cols[1].name
  {
  }

  lemma OneColumn(cols: seq<Column>, part: map<string, Value>, name: string)
    requires Lists(cols, part) && forall k | k in part :: k == name
    ensures cols == if name in part then [Column(name, part[name])] else []
  {
    forall x | 0 <= x < |cols|
      ensures cols[x] == Column(name, part[cols[x].name]) && name in part
    {
      assert cols[x] in cols;
    }
    FirstTwoDiffer(cols);
    assert |cols| <= 1;
    assert |cols| == 1 ==> cols[0] == Column(name, part[cols[0].name]) && name in part;
    if name in part {
      ListsName(cols, part, name);
      var x :| 0 <= x < |cols| && cols[x] == Column(name, part[name]);
      assert cols == [Column(name, part[name])];
    } else {
      assert cols == [];
    }
  }

  lemma FlatAgrees(c: Conv, f: Field, cols: seq<Column>, part: map<string, Value>)
    requires f.shape.Flat? && !f.skipDe && Lists(cols, part) && forall k | k in part :: k == f.name
    ensures Agrees(DecodeField(c, f, cols), RefField(c, f, part))
  {
    OneColumn(cols, part, f.name);
    if f.name in part { OneFlat(c, f, cols[0]); }
  }

  lemma OneFlat(c: Conv, f: Field, col: Column)
    requires f.shape.Flat? && !f.skipDe
    ensures var x := c.from(f.shape.kind, col.value);
            DecodeField(c, f, [col]) == if x.Some? then Ok(Leaf(x.value)) else Err(Conversion)
  {
    assert [col][..0] == [];
    assert FillAll(c, f, [col]) == Fill(c, f, EMPTY_SLOT, col);
  }

  /** No column at all: never a value. */
  lemma NestedNeedsColumn(c: Conv, f: Field)
    requires f.shape.Nested? && !f.skipDe
    ensures DecodeField(c, f, []).Err?
    ensures Deser(c, f.shape.inner, []).Ok? ==> DecodeField(c, f, []) == Err(Diverges)
  {
    assert FillAll(c, f, []) == Ok(EMPTY_SLOT);
    assert SlotValue(c, f, EMPTY_SLOT).Err?;
    var none: seq<(string, seq<Value>)> := [];
    assert EMPTY_SLOT.ext == none;
    assert Deser(c, f.shape.inner, []).Ok? ==> Rebuild(c, f.shape.inner, none) == Err(Diverges);
    assert Deser(c, f.shape.inner, []).Ok? ==> SlotValue(c, f, EMPTY_SLOT) == Err(Diverges);
  }

  lemma NestedAgrees(c: Conv, f: Field, cols: seq<Column>, part: map<string, Value>)
    requires f.shape.Nested? && !f.skipDe && Lists(cols, part)
    requires forall j, row | Even(part) && 0 <= j < Height(part) && Lists(row, Slice(part, j)) ::
               Agrees(Deser(c, f.shape.inner, row), Ref(c, f.shape.inner, Slice(part, j)))
    ensures Agrees(DecodeField(c, f, cols), RefField(c, f, part))
  {
    FillNested(c, f, cols);
    if cols == [] {
      NestedNeedsColumn(c, f);
      forall k | k in part ensures false { ListsName(cols, part, k); }
      assert part == map[];
    } else {
      EvenListed(cols, part);
      if EvenCols(cols) { RowsAgree(c, f, cols, part); }
    }
  }

  lemma RowsAgree(c: Conv, f: Field, cols: seq<Column>, part: map<string, Value>)
    requires f.shape.Nested? && !f.skipDe && Lists(cols, part) && cols != [] && EvenCols(cols) && Even(part)
    requires |cols[0].value.items| == Height(part)
    requires forall j, row | 0 <= j < Height(part) && Lists(row, Slice(part, j)) ::
               Agrees(Deser(c, f.shape.inner, row), Ref(c, f.shape.inner, Slice(part, j)))
    ensures Agrees(DecodeField(c, f, cols), RefField(c, f, part))
  {
    var inner, ext, h := f.shape.inner, Unpacked(cols), Height(part);
    FillNested(c, f, cols);
    RebuildAll(c, inner, ext, h);
    forall j | 0 <= j < h
      ensures Agrees(RowResults(c, inner, ext, h)[j], Ref(c, inner, Slice(part, j)))
    {
      RowListed(cols, part, j);
    }
    var r, os := RebuildFrom(c, inner, ext, 0), seq(h, j requires 0 <= j < h => Ref(c, inner, Slice(part, j)));
    RowsCollected(r, RowResults(c, inner, ext, h), os);
    RebuiltField(c, f, cols, r);
    if r.Ok? {
      assert forall j | 0 <= j < h :: os[j] == Ref(c, inner, Slice(part, j));
      RowsReferred(c, f, part, r.value);
    } else {
      var j :| 0 <= j < h && os[j].None?;
      assert Ref(c, inner, Slice(part, j)).None?;
    }
  }

  lemma RebuiltField(c: Conv, f: Field, cols: seq<Column>, r: Result<seq<Row>, RowError>)
    requires f.shape.Nested? && !f.skipDe && cols != [] && EvenCols(cols)
    requires r == RebuildFrom(c, f.shape.inner, Unpacked(cols), 0)
    ensures Succeeded(DecodeField(c, f, cols)) == if r.Ok? then Some(Rows(r.value)) else None
  {
    FillNested(c, f, cols);
    assert Rebuild(c, f.shape.inner, Unpacked(cols)) == r;
  }

  lemma RowsReferred(c: Conv, f: Field, part: map<string, Value>, rows: seq<Row>)
    requires f.shape.Nested? && !f.skipDe && Even(part) && |rows| == Height(part)
    requires forall j | 0 <= j < |rows| :: Ref(c, f.shape.inner, Slice(part, j)) == Some(rows[j])
    ensures RefField(c, f, part) == Some(Rows(rows))
  {
    assert rows == seq(Height(part), j requires 0 <= j < Height(part) => Ref(c, f.shape.inner, Slice(part, j)).value);
  }

  /** Row by row agreement is agreement on the rows. */
  lemma RowsCollected(r: Result<seq<Row>, RowError>, rs: seq<Result<Row, RowError>>, os: seq<Option<Row>>)
    requires |rs| == |os| && forall j | 0 <= j < |rs| :: Agrees(rs[j], os[j])
    requires r.Ok? <==> forall j | 0 <= j < |rs| :: rs[j].Ok?
    requires r.Ok? ==> |r.value| == |rs| && forall j | 0 <= j < |rs| :: rs[j] == Ok(r.value[j])
    ensures r.Ok? ==> |r.value| == |os| && forall j | 0 <= j < |os| :: os[j] == Some(r.value[j])
    ensures r.Err? ==> exists j | 0 <= j < |os| :: os[j].None?
  {
    if r.Err? {
      var j :| 0 <= j < |rs| && rs[j].Err?;
      assert os[j].None?;
    }
  }

  // ---------------------------------------------------------------------------
  // The whole struct
  // ---------------------------------------------------------------------------

  lemma {:induction false} RectifySplits(c: Conv, fields: seq<Field>, slots: seq<Slot>)
    requires |slots| == |fields|
    ensures Rectify(c, fields, slots).Ok? <==> forall i | 0 <= i < |fields| :: SlotValue(c, fields[i], slots[i]).Ok?
    ensures Rectify(c, fields, slots).Ok? ==> forall i | 0 <= i < |fields| ::
              Ok(Rectify(c, fields, slots).value[i]) == SlotValue(c, fields[i], slots[i])
    decreases fields
  {
    if fields != [] {
      RectifySplits(c, fields[1..], slots[1..]);
      assert forall i | 0 < i < |fields| :: fields[i] == fields[1..][i - 1] && slots[i] == slots[1..][i - 1];
    }
  }

  /** One field of the result, its flattened columns looked up in `m`. */
  function PartOf(c: Conv, f: Field, v: Option<Cell>, m: map<string, Value>): Result<Cell, RowError> {
    if f.shape.Flatten? && !f.skipDe && forall n | n in ColumnNames(f.shape.inner) :: n in m then
      match Deser(c, f.shape.inner, Selected(ColumnNames(f.shape.inner), m))
      case Err(e) => Err(e)
      case Ok(row) => Ok(Sub(row))
    else OrMissing(f, v)
  }

  lemma DistinctSplit(a: seq<string>, b: seq<string>)
    requires Distinct(a + b)
    ensures Distinct(a) && Distinct(b) && forall n | n in a :: n !in b
  {
    var whole := a + b;
    forall i, j | 0 <= i < j < |a| ensures a[i] != a[j] {
      assert whole[i] == a[i] && whole[j] == a[j];
    }
    forall i, j | 0 <= i < j < |b| ensures b[i] != b[j] {
      assert whole[|a| + i] == b[i] && whole[|a| + j] == b[j];
    }
    forall i, j | 0 <= i < |a| && 0 <= j < |b| ensures a[i] != b[j] {
      assert whole[i] == a[i] && whole[|a| + j] == b[j];
    }
  }

  ghost predicate Supplies(pulled: map<string, Value>, names: seq<string>, m: map<string, Value>) {
    forall n | n in names :: n in m && n in pulled && pulled[n] == m[n]
  }

  lemma BuildOneIsPart(c: Conv, f: Field, v: Option<Cell>, pulled: map<string, Value>, m: map<string, Value>,
      here: seq<string>)
    requires here == if f.shape.Flatten? then ColumnNames(f.shape.inner) else []
    requires Distinct(here) && Supplies(pulled, here, m)
    ensures var one, part := BuildOne(c, f, v, pulled), PartOf(c, f, v, m);
            && (one.Ok? <==> part.Ok?)
            && (one.Ok? ==> one.value.0 == part.value && forall k | k in pulled && k !in here ::
                  k in one.value.1 && one.value.1[k] == pulled[k])
  {
    if f.shape.Flatten? && !f.skipDe {
      TakesOut(here, pulled);
      assert Selected(here, pulled) == Selected(here, m);
    }
  }

  function Parts(c: Conv, fields: seq<Field>, vs: seq<Option<Cell>>, m: map<string, Value>)
      : (rs: seq<Result<Cell, RowError>>)
    requires |vs| == |fields|
    ensures |rs| == |fields|
  {
    seq(|fields|, i requires 0 <= i < |fields| => PartOf(c, fields[i], vs[i], m))
  }

  /** Succeeds exactly when all parts do, with their values. */
  ghost predicate Collects(r: Result<Row, RowError>, rs: seq<Result<Cell, RowError>>) {
    && (r.Ok? <==> forall i | 0 <= i < |rs| :: rs[i].Ok?)
    && (r.Ok? ==> |r.value| == |rs| && forall i | 0 <= i < |rs| :: rs[i] == Ok(r.value[i]))
  }

  lemma ConsCollects(r: Result<Row, RowError>, head: Result<Cell, RowError>, tail: Result<Row, RowError>,
      rs: seq<Result<Cell, RowError>>, later: seq<Result<Cell, RowError>>)
    requires rs == [head] + later && (head.Ok? ==> Collects(tail, later))
    requires r.Ok? <==> head.Ok? && tail.Ok?
    requires r.Ok? ==> r.value == [head.value] + tail.value
    ensures Collects(r, rs)
  {
    assert rs[0] == head;
    assert forall i | 0 <= i < |later| :: rs[i + 1] == later[i];
    if head.Ok? && tail.Ok? {
      forall i | 0 <= i < |rs| ensures rs[i] == Ok(r.value[i]) {
        if i > 0 { assert rs[i] == later[i - 1]; }
      }
    }
  }

  lemma PartsRest(c: Conv, fields: seq<Field>, vs: seq<Option<Cell>>, m: map<string, Value>)
    requires |vs| == |fields| > 0
    ensures Parts(c, fields, vs, m) == [PartOf(c, fields[0], vs[0], m)] + Parts(c, fields[1..], vs[1..], m)
  {
  }

  lemma {:induction false} BuildSplits(c: Conv, fields: seq<Field>, vs: seq<Option<Cell>>, pulled: map<string, Value>,
      m: map<string, Value>)
    requires |vs| == |fields| && Distinct(PullNames(fields)) && Supplies(pulled, PullNames(fields), m)
    ensures Collects(Build(c, fields, vs, pulled), Parts(c, fields, vs, m))
    decreases fields
  {
    if fields != [] {
      var f := fields[0];
      var here := if f.shape.Flatten? then ColumnNames(f.shape.inner) else [];
      DistinctSplit(here, PullNames(fields[1..]));
      BuildOneIsPart(c, f, vs[0], pulled, m, here);
      PartsRest(c, fields, vs, m);
      var one := BuildOne(c, f, vs[0], pulled);
      var left := if one.Ok? then one.value.1 else pulled;
      if one.Ok? {
        BuildSplits(c, fields[1..], vs[1..], left, m);
      }
      ConsCollects(Build(c, fields, vs, pulled), PartOf(c, f, vs[0], m), Build(c, fields[1..], vs[1..], left),
        Parts(c, fields, vs, m), Parts(c, fields[1..], vs[1..], m));
    }
  }

  lemma {:induction false} PullNamesOf(fields: seq<Field>, i: nat)
    requires i < |fields| && fields[i].shape.Flatten? && Distinct(PullNames(fields))
    ensures Distinct(ColumnNames(fields[i].shape.inner))
    decreases fields
  {
    var here := if fields[0].shape.Flatten? then ColumnNames(fields[0].shape.inner) else [];
    DistinctSplit(here, PullNames(fields[1..]));
    if i > 0 { PullNamesOf(fields[1..], i - 1); }
  }

  /** All of `deserialize_row` after the columns are pulled, field by field. */
  function FieldResult(c: Conv, s: Struct, i: nat, rest: seq<Column>, m: map<string, Value>): Result<Cell, RowError>
    requires i < |s.fields|
  {
    var f := s.fields[i];
    if f.shape.Flatten? && !f.skipDe then PartOf(c, f, None, m) else DecodeField(c, f, Mine(s, rest, i))
  }

  /** What is left to match after the pull is known by name. */
  ghost predicate Ready(s: Struct, rest: seq<Column>, pulled: map<string, Value>, m: map<string, Value>) {
    && Distinct(PullNames(s.fields)) && Supplies(pulled, PullNames(s.fields), m)
    && forall col | col in rest :: col.name !in PullNames(s.fields) && Arm(s.fields, col.name) < |s.fields|
  }

  lemma FlattenHasNoSlot(s: Struct, i: nat, rest: seq<Column>, pulled: map<string, Value>, m: map<string, Value>)
    requires i < |s.fields| && s.fields[i].shape.Flatten? && Ready(s, rest, pulled, m)
    ensures Mine(s, rest, i) == []
    ensures forall n | n in ColumnNames(s.fields[i].shape.inner) :: n in m
  {
    PulledBelongs(s.fields, i);
    MineHas(s, rest, i);
    forall d | d in Mine(s, rest, i) ensures false {}
    if |Mine(s, rest, i)| > 0 { assert Mine(s, rest, i)[0] in Mine(s, rest, i); }
  }

  lemma FinishSplits(c: Conv, s: Struct, rest: seq<Column>, pulled: map<string, Value>, m: map<string, Value>)
    requires Ready(s, rest, pulled, m)
    ensures Collects(Finish(c, s, rest, pulled), FieldResults(c, s, rest, m))
  {
    MatchSplits(c, s, rest);
    forall i | 0 <= i < |s.fields| && s.fields[i].shape.Flatten?
      ensures Mine(s, rest, i) == []
      ensures forall n | n in ColumnNames(s.fields[i].shape.inner) :: n in m
    {
      FlattenHasNoSlot(s, i, rest, pulled, m);
    }
    if MatchAll(c, s, rest).Err? {
      var i :| 0 <= i < |s.fields| && Alone(c, s, rest, i).Err?;
      assert FieldResults(c, s, rest, m)[i].Err?;
    } else {
      SlotsSplit(c, s, rest, pulled, m, MatchAll(c, s, rest).value);
    }
  }

  lemma PartIsResult(c: Conv, s: Struct, i: nat, rest: seq<Column>, pulled: map<string, Value>, m: map<string, Value>,
      slot: Slot, v: Option<Cell>)
    requires i < |s.fields| && Ready(s, rest, pulled, m)
    requires Alone(c, s, rest, i) == Ok(slot) && SlotValue(c, s.fields[i], slot) == Ok(v)
    ensures PartOf(c, s.fields[i], v, m) == FieldResult(c, s, i, rest, m)
    ensures Lacks(s.fields[i], v) ==> PartOf(c, s.fields[i], v, m).Err?
  {
    if s.fields[i].shape.Flatten? { FlattenHasNoSlot(s, i, rest, pulled, m); }
  }

  lemma SlotsSplit(c: Conv, s: Struct, rest: seq<Column>, pulled: map<string, Value>, m: map<string, Value>, slots: seq<Slot>)
    requires Ready(s, rest, pulled, m) && MatchAll(c, s, rest) == Ok(slots)
    requires forall i | 0 <= i < |s.fields| :: Alone(c, s, rest, i) == Ok(slots[i])
    ensures Collects(Finish(c, s, rest, pulled), FieldResults(c, s, rest, m))
  {
    RectifySplits(c, s.fields, slots);
    if Rectify(c, s.fields, slots).Err? {
      var i :| 0 <= i < |s.fields| && SlotValue(c, s.fields[i], slots[i]).Err?;
      assert Alone(c, s, rest, i) == Ok(slots[i]);
      assert FieldResults(c, s, rest, m)[i].Err?;
    } else {
      var vs := Rectify(c, s.fields, slots).value;
      PartsAreResults(c, s, rest, pulled, m, slots, vs);
      BuildSplits(c, s.fields, vs, pulled, m);
    }
  }

  lemma PartsAreResults(c: Conv, s: Struct, rest: seq<Column>, pulled: map<string, Value>, m: map<string, Value>,
      slots: seq<Slot>, vs: seq<Option<Cell>>)
    requires Ready(s, rest, pulled, m) && |slots| == |vs| == |s.fields|
    requires forall i | 0 <= i < |s.fields| :: Alone(c, s, rest, i) == Ok(slots[i])
    requires forall i | 0 <= i < |s.fields| :: SlotValue(c, s.fields[i], slots[i]) == Ok(vs[i])
    ensures Parts(c, s.fields, vs, m) == FieldResults(c, s, rest, m)
    ensures forall i | 0 <= i < |s.fields| && Lacks(s.fields[i], vs[i]) :: FieldResults(c, s, rest, m)[i].Err?
  {
    forall i | 0 <= i < |s.fields|
      ensures Parts(c, s.fields, vs, m)[i] == FieldResults(c, s, rest, m)[i]
      ensures Lacks(s.fields[i], vs[i]) ==> FieldResults(c, s, rest, m)[i].Err?
    {
      PartIsResult(c, s, i, rest, pulled, m, slots[i], vs[i]);
    }
  }

  ghost predicate AllKnown(s: Struct, m: map<string, Value>) {
    Closed(s) && forall k | k in m :: Known(s, k)
  }

  lemma SkippedAgrees(c: Conv, s: Struct, i: nat, rest: seq<Column>, m: map<string, Value>)
    requires i < |s.fields| && s.fields[i].skipDe && !s.fields[i].shape.Flatten?
    ensures Agrees(FieldResult(c, s, i, rest, m), RefField(c, s.fields[i], Part(s, m, i)))
  {
    MineHas(s, rest, i);
    forall d | d in Mine(s, rest, i) ensures false {}
    assert |Mine(s, rest, i)| > 0 ==> Mine(s, rest, i)[0] in Mine(s, rest, i);
    assert FillAll(c, s.fields[i], Mine(s, rest, i)) == Ok(EMPTY_SLOT);
  }

  lemma FlattenAgrees(c: Conv, s: Struct, i: nat, m: map<string, Value>, rest: seq<Column>)
    requires i < |s.fields| && s.fields[i].shape.Flatten? && !s.fields[i].skipDe && AllKnown(s, m)
    requires Distinct(PullNames(s.fields)) && forall n | n in PullNames(s.fields) :: n in m
    ensures Agrees(FieldResult(c, s, i, rest, m), RefField(c, s.fields[i], Part(s, m, i)))
    decreases s, 0
  {
    var inner := s.fields[i].shape.inner;
    var names, part := ColumnNames(inner), Part(s, m, i);
    PulledBelongs(s.fields, i);
    PullNamesOf(s.fields, i);
    assert part == map k | k in m && k in names :: m[k];
    SelectedLists(names, m, part);
    Decodes(c, inner, Selected(names, m), part);
  }

  lemma FieldAgrees(c: Conv, s: Struct, i: nat, rest: seq<Column>, m: map<string, Value>)
    requires i < |s.fields| && !s.fields[i].skipDe && !s.fields[i].shape.Flatten? && AllKnown(s, m)
    requires Lists(rest, Without(m, PullNames(s.fields)))
    ensures Agrees(FieldResult(c, s, i, rest, m), RefField(c, s.fields[i], Part(s, m, i)))
    decreases s, 0
  {
    var f, part := s.fields[i], Part(s, m, i);
    MineLists(s, rest, Without(m, PullNames(s.fields)), i);
    assert part == Part(s, Without(m, PullNames(s.fields)), i);
    if f.shape.Flat? {
      FlatAgrees(c, f, Mine(s, rest, i), part);
    } else {
      assert forall k | k in part :: Known(f.shape.inner, k);
      NestedDecodes(c, f, Mine(s, rest, i), part);
    }
  }

  lemma NestedDecodes(c: Conv, f: Field, cols: seq<Column>, part: map<string, Value>)
    requires f.shape.Nested? && !f.skipDe && Lists(cols, part) && AllKnown(f.shape.inner, part)
    ensures Agrees(DecodeField(c, f, cols), RefField(c, f, part))
    decreases f
  {
    var inner := f.shape.inner;
    forall j, row | Even(part) && 0 <= j < Height(part) && Lists(row, Slice(part, j))
      ensures Agrees(Deser(c, inner, row), Ref(c, inner, Slice(part, j)))
    {
      Decodes(c, inner, row, Slice(part, j));
    }
    NestedAgrees(c, f, cols, part);
  }

  /** Reading columns, each name once and all of them known, agrees with the reference
      decoder: whatever the order of the columns, through the swaps of the pull, the order
      in which nested columns arrive, and every level of nesting. */
  lemma {:induction false} Decodes(c: Conv, s: Struct, cols: seq<Column>, m: map<string, Value>)
    requires Lists(cols, m) && AllKnown(s, m)
    ensures Agrees(Deser(c, s, cols), Ref(c, s, m))
    decreases s, 1
  {
    var names := PullNames(s.fields);
    PullLists(names, cols, m, map[]);
    var p := Pull(names, cols, map[]);
    if Sized(s.fields) && p.Ok? {
      var (rest, pulled) := p.value;
      forall col | col in rest
        ensures col.name !in names && Arm(s.fields, col.name) < |s.fields|
      {
        assert col.name in Without(m, names) && Known(s, col.name);
      }
      forall i | 0 <= i < |s.fields|
        ensures Agrees(FieldResults(c, s, rest, m)[i], RefCells(c, s, m)[i])
      {
        if s.fields[i].shape.Flatten? && !s.fields[i].skipDe {
          FlattenAgrees(c, s, i, m, rest);
        } else if s.fields[i].skipDe {
          if s.fields[i].shape.Flatten? {
            FlattenHasNoSlot(s, i, rest, pulled, m);
          } else {
            SkippedAgrees(c, s, i, rest, m);
          }
        } else {
          FieldAgrees(c, s, i, rest, m);
        }
      }
      FieldsMakeRow(c, s, rest, pulled, m);
      assert Deser(c, s, cols) == Finish(c, s, rest, pulled);
    }
  }

  /** Field by field agreement is agreement on the row. */
  lemma CellsMakeRow(r: Result<Row, RowError>, rs: seq<Result<Cell, RowError>>, o: Option<Row>, os: seq<Option<Cell>>)
    requires |rs| == |os| && forall i | 0 <= i < |rs| :: Agrees(rs[i], os[i])
    requires Collects(r, rs)
    requires o.Some? <==> forall i | 0 <= i < |os| :: os[i].Some?
    requires o.Some? ==> |o.value| == |os| && forall i | 0 <= i < |os| :: os[i] == Some(o.value[i])
    ensures Agrees(r, o)
  {
    if o.Some? {
      forall i | 0 <= i < |rs| ensures rs[i].Ok? {
        assert os[i].Some?;
      }
      assert r.value == o.value;
    } else {
      var i :| 0 <= i < |os| && os[i].None?;
      assert rs[i].Err?;
    }
  }

  function FieldResults(c: Conv, s: Struct, rest: seq<Column>, m: map<string, Value>): (rs: seq<Result<Cell, RowError>>)
    ensures |rs| == |s.fields|
  {
    seq(|s.fields|, i requires 0 <= i < |s.fields| => FieldResult(c, s, i, rest, m))
  }

  lemma FieldsMakeRow(c: Conv, s: Struct, rest: seq<Column>, pulled: map<string, Value>, m: map<string, Value>)
    requires Ready(s, rest, pulled, m) && Sized(s.fields)
    requires forall i | 0 <= i < |s.fields| :: Agrees(FieldResults(c, s, rest, m)[i], RefCells(c, s, m)[i])
    ensures Agrees(Finish(c, s, rest, pulled), Ref(c, s, m))
  {
    FinishSplits(c, s, rest, pulled, m);
    CellsMakeRow(Finish(c, s, rest, pulled), FieldResults(c, s, rest, m), Ref(c, s, m), RefCells(c, s, m));
  }

  /** Any permutation of known columns gives the same row, or no row either way. */
  lemma OrderIrrelevant(c: Conv, s: Struct, a: seq<Column>, b: seq<Column>)
    requires multiset(a) == multiset(b) && DistinctNames(a)
    requires Closed(s) && forall col | col in a :: Known(s, col.name)
    ensures Deser(c, s, a).Ok? <==> Deser(c, s, b).Ok?
    ensures Deser(c, s, a).Ok? ==> Deser(c, s, a).value == Deser(c, s, b).value
  {
    var m := ToMap(a);
    ToMapListed(a);
    PermutedLists(a, b, m);
    Decodes(c, s, a, m);
    Decodes(c, s, b, m);
  }

  lemma PermutedLists(a: seq<Column>, b: seq<Column>, m: map<string, Value>)
    requires multiset(a) == multiset(b) && Lists(a, m)
    ensures Lists(b, m)
  {
    forall col: Column ensures col in a <==> col in b {
      assert col in multiset(a) <==> col in multiset(b);
    }
    forall i, j | 0 <= i < j < |b| ensures b[i].name != b[j].name {
      TwiceInB(a, b, i, j);
      assert b[i] in a && b[j] in a;
    }
  }

  /** Two places of a sequence hold one column at most once each. */
  lemma TwiceInB(a: seq<Column>, b: seq<Column>, i: nat, j: nat)
    requires multiset(a) == multiset(b) && DistinctNames(a) && i < j < |b|
    ensures b[i] != b[j]
  {
    OnceAtMost(a, b[i]);
    assert b == b[..i] + [b[i]] + b[i + 1..j] + [b[j]] + b[j + 1..];
    assert multiset(b)[b[i]] >= if b[i] == b[j] then 2 else 1;
  }

  lemma {:induction false} OnceAtMost(a: seq<Column>, col: Column)
    requires DistinctNames(a)
    ensures multiset(a)[col] <= 1
    decreases |a|
  {
    if a != [] {
      var x := |a| - 1;
      assert a == a[..x] + [a[x]];
      OnceAtMost(a[..x], col);
      assert a[x] !in a[..x] by {
        assert forall y | 0 <= y < x :: a[..x][y].name != a[x].name;
      }
    }
  }
}
