/** Load counters of up to four connections in one atomic word, under any interleaving. */
module LoadBalancer {
  import opened Common

  const WORD := 0x1_0000_0000_0000_0000
  const MAX_LANES := 4

  type Word = n: nat | n < WORD
  type LaneCount = n: nat | 0 < n <= MAX_LANES witness 1

  /** `weight << (8 * i)`. */
  function Shift(weight: int, i: nat): int
    requires i < MAX_LANES
  {
    if i == 0 then weight
    else if i == 1 then weight * 0x100
    else if i == 2 then weight * 0x1_0000
    else weight * 0x100_0000
  }

  /** `(word >> (8 * i)) & 0xFF`. */
  function Lane(word: nat, i: nat): nat
    requires i < MAX_LANES
  {
    if i == 0 then word % 0x100
    else if i == 1 then word / 0x100 % 0x100
    else if i == 2 then word / 0x1_0000 % 0x100
    else word / 0x100_0000 % 0x100
  }

  function FetchAdd(word: nat, lane: nat, weight: nat): Word
    requires lane < MAX_LANES
  {
    (word + Shift(weight, lane)) % WORD
  }

  function FetchSub(word: nat, lane: nat, weight: nat): Word
    requires lane < MAX_LANES
  {
    (word - Shift(weight, lane)) % WORD
  }

  lemma NothingAdded(word: Word, lane: nat)
    requires lane < MAX_LANES
    ensures FetchAdd(word, lane, 0) == word == FetchSub(word, lane, 0)
  {
    assert Shift(0, lane) == 0;
  }

  /** The first of lanes `0..n` with the smallest reading (`min_by_key` keeps the
      first minimum). */
  function LeastLoaded(word: nat, n: nat): (idx: nat)
    requires 0 < n <= MAX_LANES
    ensures idx < n
    ensures forall i | 0 <= i < n :: Lane(word, idx) <= Lane(word, i)
    ensures forall i | 0 <= i < idx :: Lane(word, idx) < Lane(word, i)
  {
    if n == 1 then 0
    else
      var best := LeastLoaded(word, n - 1);
      if Lane(word, n - 1) < Lane(word, best) then n - 1 else best
  }

  /** The lane an assignment picks: a key decides it outright, otherwise the word
      loaded at this instant does. */
  function Pick(word: nat, n: nat, key: Option<nat>): (idx: nat)
    requires 0 < n <= MAX_LANES
    ensures idx < n
  {
    match key
    case Some(k) => k % n
    case None => LeastLoaded(word, n)
  }

  /** The balancer as one object, for callers that do not race. */
  class AtomicLoad {
    var loadCounter: Word
    var maxConnections: LaneCount

    /** The source asserts both bounds. */
    constructor (connections: nat)
      requires 0 < connections <= MAX_LANES
      ensures loadCounter == 0 && maxConnections == connections
    {
      maxConnections := connections;
      loadCounter := 0;
    }

    method Assign(key: Option<nat>, weight: nat) returns (idx: nat)
      modifies this`loadCounter
      ensures idx < maxConnections
      ensures idx == Pick(old(loadCounter), maxConnections, key)
      ensures loadCounter == FetchAdd(old(loadCounter), idx, weight)
    {
      match key {
        case Some(k) => idx := k % maxConnections;
        case None =>
          idx := 0;
          for i := 1 to maxConnections
            invariant idx < i && idx == LeastLoaded(loadCounter, i)
          {
            if Lane(loadCounter, i) < Lane(loadCounter, idx) {
              idx := i;
            }
          }
      }
      if weight == 0 {
        NothingAdded(loadCounter, idx);
        return;
      }
      loadCounter := FetchAdd(loadCounter, idx, weight);
    }

    method Finish(weight: nat, idx: nat)
      requires idx < MAX_LANES
      modifies this`loadCounter
      ensures loadCounter == FetchSub(old(loadCounter), idx, weight)
    {
      if weight == 0 {
        NothingAdded(loadCounter, idx);
        return;
      }
      loadCounter := FetchSub(loadCounter, idx, weight);
    }
  }

  // ---------------------------------------------------------------------------
  // Racing operations
  // ---------------------------------------------------------------------------

  /** One atomic instruction of a client operation.  `Choose` loads the word and
      picks a lane (the first choice is the connection index the caller keeps),
      `Add` is the fetch_add of `assign` on the lane just picked, `Sub` is the
      fetch_sub of `finish` on the connection index kept by the caller. */
  datatype Instr = Choose(key: Option<nat>) | Add(weight: nat) | Sub(weight: nat)

  /** An operation in progress.  `held` is the net weight it has put on each lane:
      it exists for specification only and no instruction reads it. */
  datatype Task = Task(todo: seq<Instr>, lane: nat, conn: Option<nat>, held: seq<int>)

  datatype State = State(word: nat, tasks: seq<Task>)

  ghost predicate TaskOk(t: Task) {
    && |t.held| == MAX_LANES
    && t.lane < MAX_LANES
    && (t.conn.Some? ==> t.conn.value < MAX_LANES)
  }

  ghost predicate StateOk(s: State) {
    s.word < WORD && forall t | t in s.tasks :: TaskOk(t)
  }

  function Start(script: seq<Instr>): Task {
    Task(script, 0, None, [0, 0, 0, 0])
  }

  /** Task `t` executes its next instruction against the shared word. */
  function Execute(word: nat, n: nat, t: Task): (nat, Task)
    requires 0 < n <= MAX_LANES
    requires TaskOk(t)
  {
    if t.todo == [] then (word, t)
    else
      var rest := t.(todo := t.todo[1..]);
      match t.todo[0]
      case Choose(key) =>
        var idx := Pick(word, n, key);
        (word, rest.(lane := idx, conn := if t.conn.None? then Some(idx) else t.conn))
      case Add(w) =>
        (FetchAdd(word, t.lane, w), rest.(held := t.held[t.lane := t.held[t.lane] + w]))
      case Sub(w) =>
        if t.conn.None? then (word, rest)
        else (FetchSub(word, t.conn.value, w),
              rest.(held := t.held[t.conn.value := t.held[t.conn.value] - w]))
  }

  /** The scheduler lets task `i` move (a missing task stutters). */
  function Step(s: State, n: nat, i: nat): (s': State)
    requires 0 < n <= MAX_LANES && StateOk(s)
    ensures StateOk(s') && |s'.tasks| == |s.tasks|
  {
    if i >= |s.tasks| then s
    else
      var (word, t) := Execute(s.word, n, s.tasks[i]);
      State(word, s.tasks[i := t])
  }

  function Run(s: State, n: nat, schedule: seq<nat>): (s': State)
    requires 0 < n <= MAX_LANES && StateOk(s)
    ensures StateOk(s') && |s'.tasks| == |s.tasks|
    decreases schedule
  {
    if schedule == [] then s else Run(Step(s, n, schedule[0]), n, schedule[1..])
  }

  /** The connection an operation keeps is the first that was picked for it, whatever is picked
      for it later. */
  lemma {:induction false} ConnectionKept(s: State, n: nat, schedule: seq<nat>, i: nat)
    requires 0 < n <= MAX_LANES && StateOk(s) && i < |s.tasks| && s.tasks[i].conn.Some?
    ensures Run(s, n, schedule).tasks[i].conn == s.tasks[i].conn
    decreases schedule
  {
    if schedule != [] { ConnectionKept(Step(s, n, schedule[0]), n, schedule[1..], i); }
  }

  // ---------------------------------------------------------------------------
  // The ledger: the word is the packed sum of what every task holds
  // ---------------------------------------------------------------------------

  function Packed(held: seq<int>): int
    requires |held| == MAX_LANES
  {
    held[0] + held[1] * 0x100 + held[2] * 0x1_0000 + held[3] * 0x100_0000
  }

  function Sum(ts: seq<Task>, f: Task -> int): int {
    if ts == [] then 0 else f(ts[0]) + Sum(ts[1..], f)
  }

  lemma {:induction false} SumUpdate(ts: seq<Task>, i: nat, t: Task, f: Task -> int)
    requires i < |ts|
    ensures Sum(ts[i := t], f) == Sum(ts, f) - f(ts[i]) + f(t)
  {
    if i == 0 {
      assert ts[0 := t][1..] == ts[1..];
    } else {
      assert ts[i := t][1..] == ts[1..][i - 1 := t];
      SumUpdate(ts[1..], i - 1, t, f);
    }
  }

  /** Net weight all tasks have put on lane `l` and not yet taken back. */
  function Outstanding(ts: seq<Task>, l: nat): int
    requires l < MAX_LANES
  {
    Sum(ts, (t: Task) => if |t.held| == MAX_LANES then t.held[l] else 0)
  }

  function Loads(s: State): (loads: seq<int>)
    ensures |loads| == MAX_LANES
    ensures forall l | 0 <= l < MAX_LANES :: loads[l] == Outstanding(s.tasks, l)
  {
    [Outstanding(s.tasks, 0), Outstanding(s.tasks, 1), Outstanding(s.tasks, 2), Outstanding(s.tasks, 3)]
  }

  ghost predicate Balanced(s: State) {
    s.word == Packed(Loads(s)) % WORD
  }

  lemma OutstandingUpdate(ts: seq<Task>, i: nat, t: Task, l: nat)
    requires i < |ts| && TaskOk(ts[i]) && TaskOk(t) && l < MAX_LANES
    ensures Outstanding(ts[i := t], l) == Outstanding(ts, l) - ts[i].held[l] + t.held[l]
  {
    SumUpdate(ts, i, t, (t: Task) => if |t.held| == MAX_LANES then t.held[l] else 0);
  }

  lemma ModShift(a: int, b: int)
    ensures (a % WORD + b) % WORD == (a + b) % WORD
  {
    var q := a / WORD;
    assert a + b == (a % WORD + b) + WORD * q;
    ModMultiple(a % WORD + b, q);
  }

  lemma ModMultiple(a: int, q: int)
    ensures (a + WORD * q) % WORD == a % WORD
  {
  }

  /** One instruction moves the word by exactly what it moves in the task's holdings. */
  lemma ExecuteLedger(word: nat, n: nat, t: Task)
    requires 0 < n <= MAX_LANES && TaskOk(t) && word < WORD
    ensures TaskOk(Execute(word, n, t).1)
    ensures Execute(word, n, t).0
         == (word + (Packed(Execute(word, n, t).1.held) - Packed(t.held))) % WORD
  {
    WordIsItself(word);
    if t.todo != [] {
      match t.todo[0] {
        case Choose(key) =>
        case Add(w) => AddLedger(word, t.held, t.lane, w);
        case Sub(w) => if t.conn.Some? { SubLedger(word, t.held, t.conn.value, w); }
      }
    }
  }

  lemma WordIsItself(word: nat)
    requires word < WORD
    ensures (word + 0) % WORD == word
  {
  }

  lemma AddLedger(word: nat, held: seq<int>, l: nat, w: nat)
    requires |held| == MAX_LANES && l < MAX_LANES
    ensures FetchAdd(word, l, w) == (word + (Packed(held[l := held[l] + w]) - Packed(held))) % WORD
  {
    PackedUpdate(held, l, w);
  }

  lemma SubLedger(word: nat, held: seq<int>, l: nat, w: nat)
    requires |held| == MAX_LANES && l < MAX_LANES
    ensures FetchSub(word, l, w) == (word + (Packed(held[l := held[l] - w]) - Packed(held))) % WORD
  {
    PackedUpdate(held, l, 0 - w);
  }

  lemma PackedUpdate(held: seq<int>, l: nat, w: int)
    requires |held| == MAX_LANES && l < MAX_LANES
    ensures Packed(held[l := held[l] + w]) == Packed(held) + Shift(w, l)
  {
  }

  lemma LoadsUpdate(ts: seq<Task>, i: nat, t: Task, word: nat, word': nat)
    requires i < |ts| && TaskOk(ts[i]) && TaskOk(t)
    ensures Packed(Loads(State(word', ts[i := t])))
         == Packed(Loads(State(word, ts))) + (Packed(t.held) - Packed(ts[i].held))
  {
    OutstandingUpdate(ts, i, t, 0);
    OutstandingUpdate(ts, i, t, 1);
    OutstandingUpdate(ts, i, t, 2);
    OutstandingUpdate(ts, i, t, 3);
  }

  lemma StepBalanced(s: State, n: nat, i: nat)
    requires 0 < n <= MAX_LANES && StateOk(s) && Balanced(s)
    ensures Balanced(Step(s, n, i))
  {
    if i < |s.tasks| {
      var t' := Execute(s.word, n, s.tasks[i]).1;
      ExecuteLedger(s.word, n, s.tasks[i]);
      LoadsUpdate(s.tasks, i, t', s.word, Step(s, n, i).word);
      ModShift(Packed(Loads(s)), Packed(t'.held) - Packed(s.tasks[i].held));
    }
  }

  /** Conservation in every interleaving, matched or not: the packed word is the
      256-ary sum of the outstanding loads, modulo the word size. */
  lemma {:induction false} RunBalanced(s: State, n: nat, schedule: seq<nat>)
    requires 0 < n <= MAX_LANES && StateOk(s) && Balanced(s)
    ensures Balanced(Run(s, n, schedule))
    decreases schedule
  {
    if schedule != [] {
      StepBalanced(s, n, schedule[0]);
      RunBalanced(Step(s, n, schedule[0]), n, schedule[1..]);
    }
  }

  /** Every lane reads back exactly its outstanding load if and only if every
      outstanding load fits a byte: inside that range no carry or borrow crosses
      a lane, outside it some lane is wrong. */
  lemma LanesExact(s: State)
    requires StateOk(s) && Balanced(s)
    ensures (forall l | 0 <= l < MAX_LANES :: Lane(s.word, l) == Outstanding(s.tasks, l))
       <==> (forall l | 0 <= l < MAX_LANES :: 0 <= Outstanding(s.tasks, l) <= 0xFF)
  {
    var loads := Loads(s);
    if forall l | 0 <= l < MAX_LANES :: 0 <= Outstanding(s.tasks, l) <= 0xFF {
      assert forall l | 0 <= l < MAX_LANES :: 0 <= loads[l] <= 0xFF;
      DigitsExact(loads[0], loads[1], loads[2], loads[3]);
      assert s.word == Packed(loads);
    }
    assert forall l | 0 <= l < MAX_LANES :: 0 <= Lane(s.word, l) <= 0xFF;
  }

  lemma DigitsExact(a: nat, b: nat, c: nat, d: nat)
    requires a <= 0xFF && b <= 0xFF && c <= 0xFF && d <= 0xFF
    ensures var word := a + b * 0x100 + c * 0x1_0000 + d * 0x100_0000;
            word < WORD && Lane(word, 0) == a && Lane(word, 1) == b && Lane(word, 2) == c && Lane(word, 3) == d
  {
    var word := a + b * 0x100 + c * 0x1_0000 + d * 0x100_0000;
    assert word / 0x100 == b + c * 0x100 + d * 0x1_0000;
    assert word / 0x1_0000 == c + d * 0x100;
    assert word / 0x100_0000 == d;
  }

  // ---------------------------------------------------------------------------
  // Client operations: what they assign and what they finish
  // ---------------------------------------------------------------------------

  /** The client calls that go through the balancer. */
  datatype Call = QueryRaw | Insert | InsertMany | InsertRows | QueryRows

  /** Weights: an unfinished Query or an InsertMany costs 3, an Insert 2, a finished
      Query 1.  Inserts are keyed by query id, finished queries are not. */
  function Script(call: Call, key: nat): seq<Instr> {
    match call
    case QueryRaw => [Choose(None), Add(1), Sub(1)]
    case Insert => [Choose(Some(key)), Add(3), Choose(Some(key)), Add(2), Sub(5)]
    case InsertMany => [Choose(Some(key)), Add(3), Choose(Some(key)), Add(3), Sub(6)]
    case InsertRows => [Choose(Some(key)), Add(3), Choose(Some(key)), Add(2), Sub(1)]
    case QueryRows => [Choose(None), Add(1), Sub(6)]
  }

  /** What a script puts on its lanes, and what it takes back. */
  function Charged(script: seq<Instr>): nat {
    if script == [] then 0 else (if script[0].Add? then script[0].weight else 0) + Charged(script[1..])
  }

  function GivenBack(script: seq<Instr>): nat {
    if script == [] then 0 else (if script[0].Sub? then script[0].weight else 0) + GivenBack(script[1..])
  }

  /** Every lane is chosen this way, at least once. */
  predicate Chosen(script: seq<Instr>, key: Option<nat>) {
    && (exists i | 0 <= i < |script| :: script[i].Choose?)
    && forall i | 0 <= i < |script| && script[i].Choose? :: script[i].key == key
  }

  /** What the calls charge and give back: a raw query 1 and 1, an insert 5 and 5, many inserts 6
      and 6, an insert of rows 5 and 1, a query for rows 1 and 6.  Queries go to the least
      loaded lane, inserts to the lane of their key, and every charge is for a lane just chosen. */
  lemma CallCharges(call: Call, key: nat)
    ensures Charged(Script(call, key)) == if call.QueryRaw? || call.QueryRows? then 1 else if call.InsertMany? then 6 else 5
    ensures GivenBack(Script(call, key))
         == if call.QueryRaw? || call.InsertRows? then 1 else if call.Insert? then 5 else 6
    ensures Chosen(Script(call, key), if call.QueryRaw? || call.QueryRows? then None else Some(key))
    ensures forall i | 0 <= i < |Script(call, key)| && Script(call, key)[i].Add? :: i > 0 && Script(call, key)[i - 1].Choose?
    ensures forall i | 0 <= i < |Script(call, key)| && Script(call, key)[i].Sub? :: i == |Script(call, key)| - 1
  {
    var s := Script(call, key);
    assert s[0].Choose?;
    assert Charged(s) == Charged(s[1..]) && GivenBack(s) == GivenBack(s[1..]);
    assert Charged(s[1..]) == s[1].weight + Charged(s[2..]) && GivenBack(s[1..]) == GivenBack(s[2..]);
    if |s| == 5 {
      assert Charged(s[2..]) == Charged(s[3..]) && GivenBack(s[2..]) == GivenBack(s[3..]);
      assert Charged(s[3..]) == s[3].weight + Charged(s[4..]) && GivenBack(s[3..]) == GivenBack(s[4..]);
      assert Charged(s[4..]) == Charged(s[5..]) && GivenBack(s[4..]) == s[4].weight + GivenBack(s[5..]);
    } else {
      assert Charged(s[2..]) == Charged(s[3..]) && GivenBack(s[2..]) == s[2].weight + GivenBack(s[3..]);
    }
  }

  /** Total weight added minus weight taken back. */
  function Net(script: seq<Instr>): int {
    if script == [] then 0
    else
      NetOf(script[0]) + Net(script[1..])
  }

  function NetOf(instr: Instr): int {
    match instr case Choose(_) => 0 case Add(w) => w case Sub(w) => 0 - w
  }

  /** The script first picks a lane and never picks by load again. */
  ghost predicate Homed(script: seq<Instr>) {
    && script != []
    && script[0].Choose?
    && forall i | 0 < i < |script| && script[i].Choose? ::
         script[i] == script[0] && script[0].key.Some?
  }

  /** What is known of a task that runs `script`: the executed part has put its
      whole net weight on one lane, the connection it remembers. */
  ghost predicate AtHome(t: Task, script: seq<Instr>, n: nat)
    requires 0 < n <= MAX_LANES && Homed(script)
  {
    && TaskOk(t)
    && |t.todo| <= |script|
    && t.todo == script[|script| - |t.todo|..]
    && (t.todo == script ==> t == Start(script))
    && (t.todo != script ==>
          && t.conn == Some(t.lane)
          && t.lane < n
          && (script[0].key.Some? ==> t.lane == script[0].key.value % n)
          && forall l | 0 <= l < MAX_LANES ::
               t.held[l] == if l == t.lane then Net(script) - Net(t.todo) else 0)
  }

  lemma ExecuteAtHome(word: nat, n: nat, t: Task, script: seq<Instr>)
    requires 0 < n <= MAX_LANES && Homed(script) && AtHome(t, script, n)
    ensures AtHome(Execute(word, n, t).1, script, n)
  {
    if t.todo == script {
      FirstChoiceHomes(word, n, script);
    } else if t.todo != [] {
      LaterInstrStaysHome(word, n, t, script);
    }
  }

  lemma FirstChoiceHomes(word: nat, n: nat, script: seq<Instr>)
    requires 0 < n <= MAX_LANES && Homed(script)
    ensures AtHome(Execute(word, n, Start(script)).1, script, n)
  {
    assert Net(script) == NetOf(script[0]) + Net(script[1..]);
  }

  lemma LaterInstrStaysHome(word: nat, n: nat, t: Task, script: seq<Instr>)
    requires 0 < n <= MAX_LANES && Homed(script) && AtHome(t, script, n)
    requires t.todo != [] && t.todo != script
    ensures AtHome(Execute(word, n, t).1, script, n)
  {
    var k := |script| - |t.todo|;
    assert t.todo[0] == script[k];
    assert t.todo[1..] == script[k + 1..];
    assert Net(t.todo) == NetOf(t.todo[0]) + Net(t.todo[1..]);
  }

  ghost predicate AllAtHome(s: State, scripts: seq<seq<Instr>>, n: nat)
    requires 0 < n <= MAX_LANES
  {
    && |s.tasks| == |scripts|
    && forall i | 0 <= i < |scripts| :: Homed(scripts[i]) && AtHome(s.tasks[i], scripts[i], n)
  }

  function Fresh(scripts: seq<seq<Instr>>): (s: State)
    ensures |s.tasks| == |scripts|
    ensures forall i | 0 <= i < |scripts| :: s.tasks[i] == Start(scripts[i])
    ensures StateOk(s)
  {
    State(0, seq(|scripts|, i requires 0 <= i < |scripts| => Start(scripts[i])))
  }

  lemma {:induction false} SumAllZero(ts: seq<Task>, f: Task -> int)
    requires forall t | t in ts :: f(t) == 0
    ensures Sum(ts, f) == 0
  {
    if ts != [] { SumAllZero(ts[1..], f); }
  }

  lemma FreshBalanced(scripts: seq<seq<Instr>>)
    ensures Balanced(Fresh(scripts))
  {
    var s := Fresh(scripts);
    forall l | 0 <= l < MAX_LANES
      ensures Outstanding(s.tasks, l) == 0
    {
      SumAllZero(s.tasks, (t: Task) => if |t.held| == MAX_LANES then t.held[l] else 0);
    }
    assert Loads(s) == [0, 0, 0, 0];
  }

  lemma StepAtHome(s: State, scripts: seq<seq<Instr>>, n: nat, i: nat)
    requires 0 < n <= MAX_LANES && StateOk(s) && AllAtHome(s, scripts, n)
    ensures AllAtHome(Step(s, n, i), scripts, n)
  {
    var tasks' := Step(s, n, i).tasks;
    forall j | 0 <= j < |scripts|
      ensures Homed(scripts[j]) && AtHome(tasks'[j], scripts[j], n)
    {
      if j == i {
        ExecuteAtHome(s.word, n, s.tasks[i], scripts[i]);
      } else {
        assert tasks'[j] == s.tasks[j];
      }
    }
  }

  /** Affinity in every interleaving: a homed operation only ever touches one lane,
      below the number of lanes, and a keyed one the lane its key names. */
  lemma {:induction false} RunAtHome(s: State, scripts: seq<seq<Instr>>, n: nat, schedule: seq<nat>)
    requires 0 < n <= MAX_LANES && StateOk(s)
    requires AllAtHome(s, scripts, n)
    ensures AllAtHome(Run(s, n, schedule), scripts, n)
    decreases schedule
  {
    if schedule != [] {
      StepAtHome(s, scripts, n, schedule[0]);
      RunAtHome(Step(s, n, schedule[0]), scripts, n, schedule[1..]);
    }
  }

  /** What a whole call leaves on its lane. */
  function Residue(call: Call): int {
    match call
    case InsertRows => 4
    case QueryRows => -5
    case _ => 0
  }

  lemma ScriptsHomed(call: Call, key: nat)
    ensures Homed(Script(call, key))
    ensures Net(Script(call, key)) == Residue(call)
  {
    var s := Script(call, key);
    assert Net(s) == NetOf(s[0]) + Net(s[1..]);
    assert Net(s[1..]) == NetOf(s[1]) + Net(s[2..]);
    assert Net(s[2..]) == NetOf(s[2]) + Net(s[3..]);
    if |s| == 5 {
      assert Net(s[3..]) == NetOf(s[3]) + Net(s[4..]);
      assert Net(s[4..]) == NetOf(s[4]) + Net(s[5..]);
    }
  }

  function Scripts(calls: seq<(Call, nat)>): (scripts: seq<seq<Instr>>)
    ensures |scripts| == |calls|
    ensures forall i | 0 <= i < |calls| :: scripts[i] == Script(calls[i].0, calls[i].1)
  {
    seq(|calls|, i requires 0 <= i < |calls| => Script(calls[i].0, calls[i].1))
  }

  /** The state any schedule leads to from an idle pool. */
  function After(calls: seq<(Call, nat)>, n: nat, schedule: seq<nat>): (s: State)
    requires 0 < n <= MAX_LANES
    ensures StateOk(s) && |s.tasks| == |calls|
  {
    Run(Fresh(Scripts(calls)), n, schedule)
  }

  lemma AfterInvariant(calls: seq<(Call, nat)>, n: nat, schedule: seq<nat>)
    requires 0 < n <= MAX_LANES
    ensures Balanced(After(calls, n, schedule))
    ensures AllAtHome(After(calls, n, schedule), Scripts(calls), n)
  {
    forall i | 0 <= i < |calls|
      ensures Homed(Script(calls[i].0, calls[i].1))
    {
      ScriptsHomed(calls[i].0, calls[i].1);
    }
    FreshBalanced(Scripts(calls));
    RunBalanced(Fresh(Scripts(calls)), n, schedule);
    RunAtHome(Fresh(Scripts(calls)), Scripts(calls), n, schedule);
  }

  /** The query and the insert that share a query id always go to one connection,
      an existing one, in every interleaving with every other operation. */
  lemma SameConnection(calls: seq<(Call, nat)>, n: nat, schedule: seq<nat>, i: nat, j: nat)
    requires 0 < n <= MAX_LANES
    requires i < |calls| && j < |calls|
    requires calls[i].1 == calls[j].1
    requires !calls[i].0.QueryRaw? && !calls[i].0.QueryRows?
    requires !calls[j].0.QueryRaw? && !calls[j].0.QueryRows?
    ensures var s := After(calls, n, schedule);
            s.tasks[i].conn.Some? && s.tasks[j].conn.Some? ==>
              s.tasks[i].conn == s.tasks[j].conn && s.tasks[i].lane == s.tasks[i].conn.value < n
  {
    AfterInvariant(calls, n, schedule);
    var s := After(calls, n, schedule);
    assert AtHome(s.tasks[i], Scripts(calls)[i], n);
    assert AtHome(s.tasks[j], Scripts(calls)[j], n);
  }

  /** What the finished calls homed at lane `l` have left behind there. */
  function Leftover(calls: seq<(Call, nat)>, tasks: seq<Task>, l: nat): int
    requires |calls| == |tasks|
  {
    if calls == [] then 0
    else
      (if tasks[0].conn == Some(l) then Residue(calls[0].0) else 0)
      + Leftover(calls[1..], tasks[1..], l)
  }

  ghost predicate AtRest(s: State) {
    forall t | t in s.tasks :: t.todo == []
  }

  lemma {:induction false} LeftoverIsOutstanding(calls: seq<(Call, nat)>, tasks: seq<Task>, n: nat, l: nat)
    requires 0 < n <= MAX_LANES && |calls| == |tasks| && l < MAX_LANES
    requires forall i | 0 <= i < |calls| ::
      Homed(Script(calls[i].0, calls[i].1)) && AtHome(tasks[i], Script(calls[i].0, calls[i].1), n) && tasks[i].todo == []
    ensures Outstanding(tasks, l) == Leftover(calls, tasks, l)
  {
    if calls != [] {
      ScriptsHomed(calls[0].0, calls[0].1);
      assert AtHome(tasks[0], Script(calls[0].0, calls[0].1), n);
      LeftoverIsOutstanding(calls[1..], tasks[1..], n, l);
    }
  }

  /** When every call has finished, in whatever order the threads ran, a lane is left
      with 4 for each row insert and with -5 for each row query that used it. */
  lemma RestLoads(calls: seq<(Call, nat)>, n: nat, schedule: seq<nat>, l: nat)
    requires 0 < n <= MAX_LANES && l < MAX_LANES
    requires AtRest(After(calls, n, schedule))
    ensures Outstanding(After(calls, n, schedule).tasks, l)
         == Leftover(calls, After(calls, n, schedule).tasks, l)
  {
    AfterInvariant(calls, n, schedule);
    LeftoverIsOutstanding(calls, After(calls, n, schedule).tasks, n, l);
  }

  ghost predicate Matched(calls: seq<(Call, nat)>) {
    forall c | c in calls :: !c.0.InsertRows? && !c.0.QueryRows?
  }

  lemma {:induction false} MatchedLeavesNothing(calls: seq<(Call, nat)>, tasks: seq<Task>, l: nat)
    requires |calls| == |tasks| && Matched(calls)
    ensures Leftover(calls, tasks, l) == 0
  {
    if calls != [] {
      assert calls[0] in calls;
      MatchedLeavesNothing(calls[1..], tasks[1..], l);
    }
  }

  /** Calls whose finish matches their assigns bring the word back to zero. */
  lemma MatchedCallsReturnToZero(calls: seq<(Call, nat)>, n: nat, schedule: seq<nat>)
    requires 0 < n <= MAX_LANES && Matched(calls)
    requires AtRest(After(calls, n, schedule))
    ensures After(calls, n, schedule).word == 0
  {
    var s := After(calls, n, schedule);
    AfterInvariant(calls, n, schedule);
    RestLoads(calls, n, schedule, 0);
    RestLoads(calls, n, schedule, 1);
    RestLoads(calls, n, schedule, 2);
    RestLoads(calls, n, schedule, 3);
    MatchedLeavesNothing(calls, s.tasks, 0);
    MatchedLeavesNothing(calls, s.tasks, 1);
    MatchedLeavesNothing(calls, s.tasks, 2);
    MatchedLeavesNothing(calls, s.tasks, 3);
    BalancedZeroIff(s, [0, 0, 0, 0]);
  }

  lemma SmallSum(x: int)
    requires -WORD < x < WORD
    ensures x % WORD == 0 <==> x == 0
  {
    if x < 0 { DivModUnique(x + WORD, WORD, 0, x + WORD); }
  }

  /** Small signed digits add up to nothing only if all are zero. */
  lemma SmallDigits(a: int, b: int, c: int, d: int)
    requires -127 <= a <= 127 && -127 <= b <= 127 && -127 <= c <= 127 && -127 <= d <= 127
    ensures (a + b * 0x100 + c * 0x1_0000 + d * 0x100_0000) % WORD == 0 <==> a == 0 && b == 0 && c == 0 && d == 0
  {
    SmallSum(a + b * 0x100 + c * 0x1_0000 + d * 0x100_0000);
    if a + b * 0x100 + c * 0x1_0000 + d * 0x100_0000 == 0 {
      OneDigit(a, b + c * 0x100 + d * 0x1_0000);
      OneDigit(b, c + d * 0x100);
      OneDigit(c, d);
    }
  }

  lemma OneDigit(a: int, rest: int)
    requires -127 <= a <= 127 && a + 0x100 * rest == 0
    ensures a == 0 && rest == 0
  {
  }

  /** What is left behind on each lane. */
  function Leftovers(calls: seq<(Call, nat)>, tasks: seq<Task>): (left: seq<int>)
    requires |calls| == |tasks|
    ensures |left| == MAX_LANES
  {
    [Leftover(calls, tasks, 0), Leftover(calls, tasks, 1), Leftover(calls, tasks, 2), Leftover(calls, tasks, 3)]
  }

  /** At rest, as long as no lane is off by more than 127, the word is zero if and only if no
      lane has anything left over. */
  lemma RestZeroIff(calls: seq<(Call, nat)>, n: nat, schedule: seq<nat>)
    requires 0 < n <= MAX_LANES && AtRest(After(calls, n, schedule))
    requires forall x | x in Leftovers(calls, After(calls, n, schedule).tasks) :: -127 <= x <= 127
    ensures After(calls, n, schedule).word == 0 <==> Leftovers(calls, After(calls, n, schedule).tasks) == [0, 0, 0, 0]
  {
    var s := After(calls, n, schedule);
    AfterInvariant(calls, n, schedule);
    RestLoads(calls, n, schedule, 0);
    RestLoads(calls, n, schedule, 1);
    RestLoads(calls, n, schedule, 2);
    RestLoads(calls, n, schedule, 3);
    BalancedZeroIff(s, Leftovers(calls, s.tasks));
  }

  lemma BalancedZeroIff(s: State, left: seq<int>)
    requires Balanced(s) && Loads(s) == left && forall x | x in left :: -127 <= x <= 127
    ensures s.word == 0 <==> left == [0, 0, 0, 0]
  {
    assert left[0] in left && left[1] in left && left[2] in left && left[3] in left;
    SmallDigits(left[0], left[1], left[2], left[3]);
  }

  function Unfinished(ts: seq<Task>): int {
    Sum(ts, (t: Task) => if t.todo == [] then 0 else 1)
  }

  lemma {:induction false} SumBounds(ts: seq<Task>, f: Task -> int, g: Task -> int, k: nat)
    requires forall t | t in ts :: 0 <= f(t) <= k * g(t)
    ensures 0 <= Sum(ts, f) <= k * Sum(ts, g)
  {
    if ts != [] {
      assert ts[0] in ts;
      SumBounds(ts[1..], f, g, k);
      assert k * (g(ts[0]) + Sum(ts[1..], g)) == k * g(ts[0]) + k * Sum(ts[1..], g);
    }
  }

  /** At every point of its script a matched call holds between 0 and 6. */
  lemma MatchedHolds(call: Call, key: nat, k: nat)
    requires !call.InsertRows? && !call.QueryRows?
    requires k <= |Script(call, key)|
    ensures 0 <= Net(Script(call, key)) - Net(Script(call, key)[k..]) <= if k == |Script(call, key)| then 0 else 6
  {
    var s := Script(call, key);
    assert Net(s) == NetOf(s[0]) + Net(s[1..]);
    assert Net(s[1..]) == NetOf(s[1]) + Net(s[2..]);
    assert Net(s[2..]) == NetOf(s[2]) + Net(s[3..]);
    if |s| == 5 {
      assert Net(s[3..]) == NetOf(s[3]) + Net(s[4..]);
      assert Net(s[4..]) == NetOf(s[4]) + Net(s[5..]);
    }
    assert k == 0 ==> s[k..] == s;
  }

  lemma MatchedTaskHolds(t: Task, call: Call, key: nat, n: nat, l: nat)
    requires 0 < n <= MAX_LANES && l < MAX_LANES
    requires !call.InsertRows? && !call.QueryRows?
    requires Homed(Script(call, key)) && AtHome(t, Script(call, key), n)
    ensures 0 <= t.held[l] <= if t.todo == [] then 0 else 6
  {
    if t.todo == Script(call, key) {
      assert t.held[l] == 0;
    } else {
      MatchedHolds(call, key, |Script(call, key)| - |t.todo|);
    }
  }

  lemma MatchedLoadBound(s: State, calls: seq<(Call, nat)>, n: nat, l: nat)
    requires 0 < n <= MAX_LANES && l < MAX_LANES && Matched(calls)
    requires AllAtHome(s, Scripts(calls), n)
    ensures 0 <= Outstanding(s.tasks, l) <= 6 * Unfinished(s.tasks)
  {
    var f := (t: Task) => if |t.held| == MAX_LANES then t.held[l] else 0;
    var g := (t: Task) => if t.todo == [] then 0 else 1;
    forall t | t in s.tasks
      ensures 0 <= f(t) <= 6 * g(t)
    {
      var i :| 0 <= i < |s.tasks| && s.tasks[i] == t;
      assert calls[i] in calls;
      assert Homed(Scripts(calls)[i]) && AtHome(s.tasks[i], Scripts(calls)[i], n);
      MatchedTaskHolds(t, calls[i].0, calls[i].1, n, l);
    }
    SumBounds(s.tasks, f, g, 6);
  }

  /** As long as at most 42 matched calls are unfinished, every lane reads exactly
      the load outstanding on it, whatever the interleaving. */
  lemma FortyTwoCallsStayExact(calls: seq<(Call, nat)>, n: nat, schedule: seq<nat>)
    requires 0 < n <= MAX_LANES && Matched(calls)
    requires Unfinished(After(calls, n, schedule).tasks) <= 42
    ensures forall l | 0 <= l < MAX_LANES ::
      Lane(After(calls, n, schedule).word, l) == Outstanding(After(calls, n, schedule).tasks, l)
  {
    var s := After(calls, n, schedule);
    AfterInvariant(calls, n, schedule);
    assert AllAtHome(s, Scripts(calls), n);
    forall l | 0 <= l < MAX_LANES
      ensures 0 <= Outstanding(s.tasks, l) <= 6 * Unfinished(s.tasks)
    {
      MatchedLoadBound(s, calls, n, l);
    }
    LanesExact(s);
  }

  /** A single row query takes back 6 for the 1 it was assigned: the word wraps and
      every lane of an idle pool reads at least 251. */
  lemma QueryRowsUnderflows(n: nat, key: nat)
    requires 0 < n <= MAX_LANES
    ensures var s := After([(QueryRows, key)], n, [0, 0, 0]);
            AtRest(s) && s.word == WORD - 5
            && forall l | 0 <= l < MAX_LANES :: Lane(s.word, l) >= 251
  {
    assert Scripts([(QueryRows, key)]) == [Script(QueryRows, key)];
    QueryRowsSteps(n, key);
    RunThree(Fresh([Script(QueryRows, key)]), n, 0);
    WrappedLanes(WORD - 5);
  }

  lemma WrappedLanes(word: nat)
    requires word == WORD - 5
    ensures forall l | 0 <= l < MAX_LANES :: Lane(word, l) >= 251
  {
    assert Lane(word, 0) == 251;
    assert word / 0x100 == 0xFF_FFFF_FFFF_FFFF;
    assert word / 0x1_0000 == 0xFFFF_FFFF_FFFF;
    assert word / 0x100_0000 == 0xFF_FFFF_FFFF;
    assert Lane(word, 1) == 0xFF && Lane(word, 2) == 0xFF && Lane(word, 3) == 0xFF;
  }

  lemma QueryRowsSteps(n: nat, key: nat)
    requires 0 < n <= MAX_LANES
    ensures var s1 := State(0, [Task([Add(1), Sub(6)], 0, Some(0), [0, 0, 0, 0])]);
            var s2 := State(1, [Task([Sub(6)], 0, Some(0), [1, 0, 0, 0])]);
            && Step(Fresh([Script(QueryRows, key)]), n, 0) == s1
            && Step(s1, n, 0) == s2
            && Step(s2, n, 0) == State(WORD - 5, [Task([], 0, Some(0), [-5, 0, 0, 0])])
  {
    IdlePoolPicksFirst(n);
    assert [0, 0, 0, 0][0 := 1] == [1, 0, 0, 0];
    assert [1, 0, 0, 0][0 := -5] == [-5, 0, 0, 0];
    assert FetchSub(1, 0, 6) == WORD - 5;
    assert Script(QueryRows, key)[1..] == [Add(1), Sub(6)];
    assert [Add(1), Sub(6)][1..] == [Sub(6)];
    assert [Sub(6)][1..] == [];
    var t2 := Task([Sub(6)], 0, Some(0), [1, 0, 0, 0]);
    assert t2.held[0 := t2.held[0] - 6] == [-5, 0, 0, 0];
    assert Execute(1, n, t2) == (WORD - 5, Task([], 0, Some(0), [-5, 0, 0, 0]));
  }

  lemma IdlePoolPicksFirst(n: nat)
    requires 0 < n <= MAX_LANES
    ensures LeastLoaded(0, n) == 0
  {
    assert forall l | 0 <= l < n :: Lane(0, l) == 0;
  }

  lemma RunThree(s: State, n: nat, i: nat)
    requires 0 < n <= MAX_LANES && StateOk(s)
    ensures Run(s, n, [i, i, i]) == Step(Step(Step(s, n, i), n, i), n, i)
  {
    assert [i, i, i][1..] == [i, i] && [i, i][1..] == [i] && [i][1..] == [];
    var s' := Step(s, n, i);
    assert Run(s, n, [i, i, i]) == Run(s', n, [i, i]);
    assert Run(s', n, [i, i]) == Run(Step(s', n, i), n, [i]);
  }

  // ---------------------------------------------------------------------------
  // Balance
  // ---------------------------------------------------------------------------

  /** Tasks that have picked lane `i` but not added yet. */
  function Waiting(ts: seq<Task>, i: nat): int {
    Sum(ts, (t: Task) => if |t.todo| == 1 && t.lane == i then 1 else 0)
  }

  function Between(ts: seq<Task>): int {
    Sum(ts, (t: Task) => if |t.todo| == 1 then 1 else 0)
  }

  /** An unkeyed assign of weight at most `w`. */
  ghost predicate Assigning(t: Task, w: nat, n: nat) {
    && TaskOk(t)
    && (forall l | 0 <= l < MAX_LANES :: 0 <= t.held[l])
    && (|t.todo| == 1 ==> t.lane < n)
    && (t.todo == []
        || (|t.todo| == 1 && t.todo[0].Add? && t.todo[0].weight <= w)
        || (|t.todo| == 2 && t.todo[0] == Choose(None) && t.todo[1].Add? && t.todo[1].weight <= w))
  }

  /** Along the whole schedule at most `racers` tasks are between their load and
      their fetch_add, and every lane stays below 256. */
  ghost predicate Calm(s: State, n: nat, schedule: seq<nat>, racers: nat)
    requires 0 < n <= MAX_LANES && StateOk(s)
    decreases schedule
  {
    && Between(s.tasks) <= racers
    && (forall l | 0 <= l < MAX_LANES :: Outstanding(s.tasks, l) <= 0xFF)
    && (schedule != [] ==> Calm(Step(s, n, schedule[0]), n, schedule[1..], racers))
  }

  ghost predicate Even(s: State, n: nat, w: nat, racers: nat)
    requires n <= MAX_LANES
  {
    forall i, j | 0 <= i < n && 0 <= j < n ::
      Outstanding(s.tasks, i) + w * Waiting(s.tasks, i) <= Outstanding(s.tasks, j) + w * racers
  }

  lemma {:induction false} WaitingWithinBetween(ts: seq<Task>, i: nat)
    ensures 0 <= Waiting(ts, i) <= Between(ts)
  {
    if ts != [] { WaitingWithinBetween(ts[1..], i); }
  }

  lemma {:induction false} SumNonNegative(ts: seq<Task>, f: Task -> int)
    requires forall t | t in ts :: 0 <= f(t)
    ensures 0 <= Sum(ts, f)
  {
    if ts != [] { SumNonNegative(ts[1..], f); }
  }

  lemma OutstandingNonNegative(ts: seq<Task>, w: nat, n: nat)
    requires forall t | t in ts :: Assigning(t, w, n)
    ensures forall l | 0 <= l < MAX_LANES :: 0 <= Outstanding(ts, l)
  {
    forall l | 0 <= l < MAX_LANES
      ensures 0 <= Outstanding(ts, l)
    {
      SumNonNegative(ts, (t: Task) => if |t.held| == MAX_LANES then t.held[l] else 0);
    }
  }

  lemma WaitingUpdate(ts: seq<Task>, i: nat, t: Task, l: nat)
    requires i < |ts|
    ensures Waiting(ts[i := t], l) == Waiting(ts, l)
      - (if |ts[i].todo| == 1 && ts[i].lane == l then 1 else 0) + (if |t.todo| == 1 && t.lane == l then 1 else 0)
  {
    SumUpdate(ts, i, t, (t: Task) => if |t.todo| == 1 && t.lane == l then 1 else 0);
  }

  lemma PickKeepsEven(s: State, n: nat, k: nat, w: nat, racers: nat, i: nat, j: nat)
    requires 0 < n <= MAX_LANES && StateOk(s) && i < n && j < n && k < |s.tasks|
    requires forall l | 0 <= l < MAX_LANES :: Lane(s.word, l) == Outstanding(s.tasks, l)
    requires |s.tasks[k].todo| == 2 && Assigning(s.tasks[k], w, n)
    requires Between(Step(s, n, k).tasks) <= racers
    requires Outstanding(s.tasks, i) + w * Waiting(s.tasks, i) <= Outstanding(s.tasks, j) + w * racers
    ensures var ts := Step(s, n, k).tasks;
            Outstanding(ts, i) + w * Waiting(ts, i) <= Outstanding(ts, j) + w * racers
  {
    var t' := Execute(s.word, n, s.tasks[k]).1;
    var ts := Step(s, n, k).tasks;
    OutstandingUpdate(s.tasks, k, t', i);
    OutstandingUpdate(s.tasks, k, t', j);
    WaitingUpdate(s.tasks, k, t', i);
    if i == t'.lane {
      assert Lane(s.word, i) <= Lane(s.word, j);
      WaitingWithinBetween(ts, i);
      Scale(w, Waiting(ts, i), racers);
    }
  }

  lemma AddKeepsEven(s: State, n: nat, k: nat, w: nat, racers: nat, i: nat, j: nat)
    requires 0 < n <= MAX_LANES && StateOk(s) && i < n && j < n && k < |s.tasks|
    requires |s.tasks[k].todo| == 1 && Assigning(s.tasks[k], w, n)
    requires Outstanding(s.tasks, i) + w * Waiting(s.tasks, i) <= Outstanding(s.tasks, j) + w * racers
    ensures var ts := Step(s, n, k).tasks;
            Outstanding(ts, i) + w * Waiting(ts, i) <= Outstanding(ts, j) + w * racers
  {
    var t := s.tasks[k];
    var t' := Execute(s.word, n, t).1;
    var ts := Step(s, n, k).tasks;
    OutstandingUpdate(s.tasks, k, t', i);
    OutstandingUpdate(s.tasks, k, t', j);
    WaitingUpdate(s.tasks, k, t', i);
    if i == t.lane {
      assert w * (Waiting(s.tasks, i) - 1) == w * Waiting(s.tasks, i) - w;
    }
  }

  lemma StepEven(s: State, n: nat, k: nat, w: nat, racers: nat)
    requires 0 < n <= MAX_LANES && StateOk(s) && Balanced(s)
    requires forall t | t in s.tasks :: Assigning(t, w, n)
    requires forall l | 0 <= l < MAX_LANES :: Outstanding(s.tasks, l) <= 0xFF
    requires Between(Step(s, n, k).tasks) <= racers
    requires Even(s, n, w, racers)
    ensures Even(Step(s, n, k), n, w, racers)
    ensures forall t | t in Step(s, n, k).tasks :: Assigning(t, w, n)
  {
    if k < |s.tasks| && s.tasks[k].todo != [] {
      var t := s.tasks[k];
      assert t in s.tasks;
      var t' := Execute(s.word, n, t).1;
      var ts' := s.tasks[k := t'];
      OutstandingNonNegative(s.tasks, w, n);
      LanesExact(s);
      forall i, j | 0 <= i < n && 0 <= j < n
        ensures Outstanding(ts', i) + w * Waiting(ts', i) <= Outstanding(ts', j) + w * racers
      {
        if |t.todo| == 2 {
          PickKeepsEven(s, n, k, w, racers, i, j);
        } else {
          AddKeepsEven(s, n, k, w, racers, i, j);
        }
      }
    } else if k < |s.tasks| {
      assert s.tasks[k := s.tasks[k]] == s.tasks;
    }
  }

  lemma Scale(w: nat, a: int, b: int)
    requires a <= b
    ensures w * a <= w * b
  {
  }

  lemma {:induction false} RunEven(s: State, n: nat, schedule: seq<nat>, w: nat, racers: nat)
    requires 0 < n <= MAX_LANES && StateOk(s) && Balanced(s)
    requires forall t | t in s.tasks :: Assigning(t, w, n)
    requires Even(s, n, w, racers)
    requires Calm(s, n, schedule, racers)
    ensures Even(Run(s, n, schedule), n, w, racers)
    decreases schedule
  {
    if schedule != [] {
      StepEven(s, n, schedule[0], w, racers);
      StepBalanced(s, n, schedule[0]);
      RunEven(Step(s, n, schedule[0]), n, schedule[1..], w, racers);
    }
  }

  function Assigns(weights: seq<nat>): (scripts: seq<seq<Instr>>)
    ensures |scripts| == |weights|
    ensures forall i | 0 <= i < |weights| :: scripts[i] == [Choose(None), Add(weights[i])]
  {
    seq(|weights|, i requires 0 <= i < |weights| => [Choose(None), Add(weights[i])])
  }

  lemma FreshEven(weights: seq<nat>, n: nat, w: nat, racers: nat)
    requires n <= MAX_LANES
    requires forall x | x in weights :: x <= w
    ensures Even(Fresh(Assigns(weights)), n, w, racers)
    ensures forall t | t in Fresh(Assigns(weights)).tasks :: Assigning(t, w, n)
  {
    var s0 := Fresh(Assigns(weights));
    forall l | 0 <= l < MAX_LANES
      ensures Outstanding(s0.tasks, l) == 0 && Waiting(s0.tasks, l) == 0
    {
      SumAllZero(s0.tasks, (t: Task) => if |t.held| == MAX_LANES then t.held[l] else 0);
      SumAllZero(s0.tasks, (t: Task) => if |t.todo| == 1 && t.lane == l then 1 else 0);
    }
    Scale(w, 0, racers);
    forall t | t in s0.tasks
      ensures Assigning(t, w, n)
    {
      var k :| 0 <= k < |s0.tasks| && s0.tasks[k] == t;
      assert weights[k] in weights;
    }
  }

  /** Unkeyed assigns of weight at most `w`, raced by at most `racers` threads and
      with nothing finishing, keep any two lanes within `racers * w` of each other;
      for one thread at a time that is `w`. */
  lemma SpreadBound(weights: seq<nat>, n: nat, schedule: seq<nat>, w: nat, racers: nat, i: nat, j: nat)
    requires 0 < n <= MAX_LANES && i < n && j < n
    requires forall x | x in weights :: x <= w
    requires Calm(Fresh(Assigns(weights)), n, schedule, racers)
    ensures var s := Run(Fresh(Assigns(weights)), n, schedule);
            Outstanding(s.tasks, i) - Outstanding(s.tasks, j) <= w * racers
  {
    var s0 := Fresh(Assigns(weights));
    FreshBalanced(Assigns(weights));
    FreshEven(weights, n, w, racers);
    RunEven(s0, n, schedule, w, racers);
    var s := Run(s0, n, schedule);
    WaitingWithinBetween(s.tasks, i);
    assert Even(s, n, w, racers);
    Scale(w, 0, Waiting(s.tasks, i));
  }
}
