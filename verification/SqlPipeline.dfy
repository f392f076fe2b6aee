/**
  The asynchronous SQL pipeline: producers, the copy thread and the workers as
  atomic steps under the source's locks, interleaved in any order.
 */
module SqlPipeline {
  import opened Wrappers
  import opened Define
  import opened LoopList

  const WORKER_LEN := 50     // capacity of a worker's own ring
  const SQL_LEN := 1024 * 4

  /** stSqlOperation */
  datatype Op = Op(hashCode: nat, sql: string, col: Option<nat>)

  /** strcpy_q into szSqlStr: a longer statement is cut. */
  function Stored(sql: string): (r: string)
    ensures r <= sql && |r| == Min(|sql|, 4094)
  {
    sql[..Min(SQL_LEN - 2, |sql|)]
  }

  /** Where a worker is in SqlProcessThread:
      Starting  before the test of m_MyPool
      Top       at the head of the loop
      Parked    in front of m_Active, under the condition lock
      Passed    after it, before the look at the size of the issue ring
      Merging   before taking the lock of the issue ring
      Draining  at the test of the size of its own ring
      Ended     returned, m_MyPool was not set yet */
  datatype Pc = Starting | Top | Parked | Passed | Merging | Draining | Ended

  datatype Worker = Worker(active: bool, pc: Pc, list: seq<Op>, done: seq<Op>)

  /** The shared state, and three records of the past: the operations the
      receive ring has accepted, which worker each of the first of them went to,
      and (in each worker) those executed. */
  datatype State = State(
    cap: nat, receive: seq<Op>, issue: seq<Op>, copying: bool, workers: seq<Worker>, sqlCount: nat,
    accepted: seq<Op>, owner: seq<nat>)

  datatype Step =
    | Exec(op: Op)                   // execSqlAsy, execSelectSqlAsy
    | CopyCheck                      // the copy thread's unlocked test
    | CopyMerge                      // its merge under both locks
    | Begin(w: nat, poolSet: bool)   // a worker's test of m_MyPool
    | Work(w: nat)                   // a worker's next step
    | SetActive(w: nat, on: bool)    // the supervisor
    | ResetCount                     // the supervisor

  ghost predicate Enabled(s: State, step: Step) {
    match step
    case Exec(op) => true
    case CopyCheck => !s.copying && |s.receive| > 0 && |s.issue| < s.cap
    case CopyMerge => s.copying
    case Begin(w, _) => w < |s.workers| && s.workers[w].pc == Starting
    case Work(w) => w < |s.workers| && s.workers[w].pc !in {Starting, Ended}
                    && (s.workers[w].pc == Parked ==> s.workers[w].active)
    case SetActive(w, _) => w < |s.workers|
    case ResetCount => true
  }

  ghost function Next(s: State, step: Step): State
    requires Enabled(s, step)
  {
    match step
    case Exec(op) =>
      s.(receive := Pushed(s.receive, s.cap, op), sqlCount := s.sqlCount + 1,
         accepted := if |s.receive| < s.cap then s.accepted + [op] else s.accepted)
    case CopyCheck => s.(copying := true)
    case CopyMerge =>
      var n := Moved(|s.issue|, s.cap, |s.receive|);
      s.(copying := false, issue := s.issue + s.receive[..n], receive := s.receive[n..])
    case Begin(w, poolSet) => SetWorker(s, w, s.workers[w].(pc := if poolSet then Top else Ended))
    case Work(w) => Worked(s, w)
    case SetActive(w, on) => SetWorker(s, w, s.workers[w].(active := on))
    case ResetCount => s.(sqlCount := 0)
  }

  ghost function SetWorker(s: State, w: nat, k: Worker): State
    requires w < |s.workers|
  {
    s.(workers := s.workers[w := k])
  }

  /** A worker's next step. It passes Parked only while it is active. */
  ghost function Worked(s: State, w: nat): State
    requires w < |s.workers|
  {
    var k := s.workers[w];
    match k.pc
    case Starting => s
    case Ended => s
    case Top => SetWorker(s, w, k.(pc := if |k.list| < WORKER_LEN then Parked else Draining))
    case Parked => SetWorker(s, w, k.(pc := Passed))
    case Passed => SetWorker(s, w, k.(pc := if |s.issue| > 0 then Merging else Draining))
    case Merging =>
      var n := Moved(|k.list|, WORKER_LEN, |s.issue|);
      SetWorker(s, w, k.(pc := Draining, list := k.list + s.issue[..n]))
        .(issue := s.issue[n..], owner := s.owner + seq(n, _ => w))
    case Draining =>
      if k.list == [] then SetWorker(s, w, k.(pc := Top))
      else SetWorker(s, w, k.(list := k.list[1..], done := k.done + [k.list[0]]))
  }

  // ---------------------------------------------------------------- runs

  /** A pool right after its construction: `started` says which workers begin active. */
  ghost function Initial(poolMax: nat, started: seq<bool>): State {
    State(if poolMax < 1 then DEFAULT_LEN else poolMax, [], [], false,
          seq(|started|, i requires 0 <= i < |started| => Worker(started[i], Starting, [], [])), 0, [], [])
  }

  ghost predicate CanRun(s: State, steps: seq<Step>)
    decreases |steps|
  {
    steps != [] ==> Enabled(s, steps[0]) && CanRun(Next(s, steps[0]), steps[1..])
  }

  ghost function Run(s: State, steps: seq<Step>): State
    requires CanRun(s, steps)
    decreases |steps|
  {
    if steps == [] then s else Run(Next(s, steps[0]), steps[1..])
  }

  // ---------------------------------------------------------------- the invariant

  /** The elements of a that went to worker w, in order. */
  ghost function Mine<T>(a: seq<T>, owner: seq<nat>, w: nat): (r: seq<T>)
    requires |owner| <= |a|
    decreases |owner|
  {
    if owner == [] then []
    else
      var last := |owner| - 1;
      Mine(a, owner[..last], w) + if owner[last] == w then [a[last]] else []
  }

  ghost predicate Bounded(s: State) {
    && 0 < s.cap && |s.receive| <= s.cap && |s.issue| <= s.cap
    && (s.copying ==> |s.receive| > 0 && |s.issue| < s.cap)
    && forall w :: 0 <= w < |s.workers| ==>
      |s.workers[w].list| <= WORKER_LEN && (s.workers[w].pc != Draining ==> s.workers[w].list == [])
  }

  /** Every accepted operation is in one place: those with an owner were taken
      by it in their order, the others wait in the issue and receive rings. */
  ghost predicate Placed(s: State) {
    && |s.owner| <= |s.accepted|
    && s.accepted[|s.owner|..] == s.issue + s.receive
    && (forall i :: 0 <= i < |s.owner| ==> s.owner[i] < |s.workers|)
    && forall w :: 0 <= w < |s.workers| ==>
      Mine(s.accepted, s.owner, w) == s.workers[w].done + s.workers[w].list
  }

  ghost predicate Inv(s: State) {
    Bounded(s) && Placed(s)
  }

  lemma InitialInv(poolMax: nat, started: seq<bool>)
    ensures Inv(Initial(poolMax, started))
  {
  }

  /** What is accepted later does not change what a worker got. */
  lemma {:induction false} MineGrows<T>(a: seq<T>, b: seq<T>, owner: seq<nat>, w: nat)
    requires |owner| <= |a|
    ensures Mine(a + b, owner, w) == Mine(a, owner, w)
    decreases |owner|
  {
    if owner != [] {
      MineGrows(a, b, owner[..|owner| - 1], w);
    }
  }

  /** A worker that takes the next n elements gets them behind its own. */
  lemma {:induction false} MineTakes<T>(a: seq<T>, owner: seq<nat>, w: nat, v: nat, n: nat)
    requires |owner| + n <= |a|
    ensures Mine(a, owner + seq(n, _ => w), v) ==
            Mine(a, owner, v) + if v == w then a[|owner|..|owner| + n] else []
    decreases n
  {
    var all := owner + seq(n, _ => w);
    if n == 0 {
      assert all == owner;
    } else {
      MineTakes(a, owner, w, v, n - 1);
      assert all[..|all| - 1] == owner + seq(n - 1, _ => w);
      assert a[|owner|..|owner| + n] == a[|owner|..|owner| + n - 1] + [a[|owner| + n - 1]];
    }
  }

  lemma ExecPlaced(s: State, op: Op)
    requires Inv(s)
    ensures Inv(Next(s, Exec(op)))
  {
    if |s.receive| < s.cap {
      forall w | 0 <= w < |s.workers| ensures Mine(s.accepted + [op], s.owner, w) == Mine(s.accepted, s.owner, w) {
        MineGrows(s.accepted, [op], s.owner, w);
      }
      assert (s.accepted + [op])[|s.owner|..] == s.issue + (s.receive + [op]);
    }
  }

  lemma SplitAt(a: seq<Op>, m: nat, issue: seq<Op>, receive: seq<Op>, n: nat)
    requires m <= |a| && a[m..] == issue + receive && n <= |issue|
    ensures a[m + n..] == issue[n..] + receive && a[m..m + n] == issue[..n]
  {
    assert a[m + n..] == a[m..][n..] && a[m..m + n] == a[m..][..n];
  }

  lemma MergingPlaced(s: State, w: nat)
    requires Inv(s) && w < |s.workers| && s.workers[w].pc == Merging
    ensures Inv(Worked(s, w))
  {
    hide Mine;
    var s', k := Worked(s, w), s.workers[w];
    var n := Moved(|k.list|, WORKER_LEN, |s.issue|);
    SplitAt(s.accepted, |s.owner|, s.issue, s.receive, n);
    forall v | 0 <= v < |s.workers|
      ensures Mine(s'.accepted, s'.owner, v) == s'.workers[v].done + s'.workers[v].list
    {
      MineTakes(s.accepted, s.owner, w, v, n);
    }
  }

  lemma CopyPlaced(s: State)
    requires Inv(s) && s.copying
    ensures Inv(Next(s, CopyMerge))
  {
    var n := Moved(|s.issue|, s.cap, |s.receive|);
    assert s.issue + s.receive[..n] + s.receive[n..] == s.issue + s.receive;
  }

  lemma DrainingPlaced(s: State, w: nat)
    requires Inv(s) && w < |s.workers| && s.workers[w].pc == Draining
    ensures Inv(Worked(s, w))
  {
    var k := s.workers[w];
    if k.list != [] {
      assert k.done + [k.list[0]] + k.list[1..] == k.done + k.list;
    }
  }

  /** Every step keeps the invariant. */
  lemma StepInv(s: State, step: Step)
    requires Inv(s) && Enabled(s, step)
    ensures Inv(Next(s, step))
  {
    hide Mine;
    match step
    case Exec(op) => ExecPlaced(s, op);
    case CopyMerge => CopyPlaced(s);
    case Work(w) => WorkInv(s, w);
    case _ =>
  }

  lemma WorkInv(s: State, w: nat)
    requires Inv(s) && w < |s.workers|
    ensures Inv(Worked(s, w))
  {
    hide Mine;
    match s.workers[w].pc
    case Merging => MergingPlaced(s, w);
    case Draining => DrainingPlaced(s, w);
    case _ =>
  }

  lemma {:induction false} RunInv(s: State, steps: seq<Step>)
    requires Inv(s) && CanRun(s, steps)
    ensures Inv(Run(s, steps))
    decreases |steps|
  {
    if steps != [] {
      StepInv(s, steps[0]);
      RunInv(Next(s, steps[0]), steps[1..]);
    }
  }

  // ---------------------------------------------------------------- what is taken in

  /** A call is taken in exactly when the receive ring has room. */
  lemma ExecTaken(s: State, op: Op)
    ensures var s' := Next(s, Exec(op));
      && (|s.receive| < s.cap ==> s'.receive == s.receive + [op] && s'.accepted == s.accepted + [op])
      && (|s.receive| >= s.cap ==> s'.receive == s.receive && s'.accepted == s.accepted)
      && s'.sqlCount == s.sqlCount + 1 && s' == s.(receive := s'.receive, accepted := s'.accepted, sqlCount := s'.sqlCount)
  {
  }

  /** The operations asked for in a run that found room in the receive ring. */
  ghost function TakenIn(s: State, steps: seq<Step>): seq<Op>
    requires CanRun(s, steps)
    decreases |steps|
  {
    if steps == [] then []
    else
      (if steps[0].Exec? && |s.receive| < s.cap then [steps[0].op] else []) + TakenIn(Next(s, steps[0]), steps[1..])
  }

  /** These are the accepted ones, in the order of the calls. */
  lemma {:induction false} RunTakes(s: State, steps: seq<Step>)
    requires CanRun(s, steps)
    ensures Run(s, steps).accepted == s.accepted + TakenIn(s, steps) && Run(s, steps).cap == s.cap
    decreases |steps|
  {
    if steps == [] {
      assert s.accepted + [] == s.accepted;
    } else {
      var s1 := Next(s, steps[0]);
      NextTakes(s, steps[0]);
      RunTakes(s1, steps[1..]);
      var first := if steps[0].Exec? && |s.receive| < s.cap then [steps[0].op] else [];
      assert s.accepted + first + TakenIn(s1, steps[1..]) == s.accepted + (first + TakenIn(s1, steps[1..]));
    }
  }

  lemma NextTakes(s: State, step: Step)
    requires Enabled(s, step)
    ensures Next(s, step).cap == s.cap
    ensures Next(s, step).accepted == s.accepted + if step.Exec? && |s.receive| < s.cap then [step.op] else []
  {
    assert s.accepted + [] == s.accepted;
  }

  /** No call is refused while fewer than cap operations are in the pipeline. */
  lemma RefusedOnlyWhenFull(s: State, op: Op)
    requires Inv(s) && |s.accepted| - |s.owner| < s.cap
    ensures Next(s, Exec(op)).accepted == s.accepted + [op]
  {
    assert |s.issue + s.receive| == |s.accepted| - |s.owner|;
  }

  /** The supervisor decides whether a parked worker goes on, and a pool that is
      set whether a starting one runs. */
  lemma Controls(s: State, w: nat, on: bool)
    requires w < |s.workers|
    ensures s.workers[w].pc == Parked ==> (Enabled(Next(s, SetActive(w, on)), Work(w)) <==> on)
    ensures s.workers[w].pc == Starting ==> (Enabled(Next(s, Begin(w, on)), Work(w)) <==> on)
    ensures Next(s, SetActive(w, on)).workers[w] == s.workers[w].(active := on)
  {
  }

  // ---------------------------------------------------------------- what it gives

  /** The positions that went to worker w. */
  ghost function Positions(owner: seq<nat>, w: nat): (r: seq<nat>)
    ensures forall i :: 0 <= i < |r| ==> r[i] < |owner| && owner[r[i]] == w
    ensures forall p: nat :: p < |owner| && owner[p] == w ==> p in r
    ensures forall i, j :: 0 <= i < j < |r| ==> r[i] < r[j]
    decreases |owner|
  {
    if owner == [] then []
    else
      var last := |owner| - 1;
      Positions(owner[..last], w) + if owner[last] == w then [last] else []
  }

  lemma {:induction false} MineAt<T>(a: seq<T>, owner: seq<nat>, w: nat)
    requires |owner| <= |a|
    ensures |Mine(a, owner, w)| == |Positions(owner, w)|
    ensures forall i :: 0 <= i < |Mine(a, owner, w)| ==> Mine(a, owner, w)[i] == a[Positions(owner, w)[i]]
    decreases |owner|
  {
    if owner != [] {
      MineAt(a, owner[..|owner| - 1], w);
    }
  }

  /** In every run a worker executes operations in the order they were accepted:
      those it has executed are the first of those it was given, and only it was
      given those. */
  lemma ExecutedInOrder(poolMax: nat, started: seq<bool>, steps: seq<Step>, w: nat)
    requires CanRun(Initial(poolMax, started), steps)
    requires w < |Run(Initial(poolMax, started), steps).workers|
    ensures var s := Run(Initial(poolMax, started), steps);
      var (p, done) := (Positions(s.owner, w), s.workers[w].done);
      && |s.owner| <= |s.accepted| && |done| <= |p|
      && (forall i, j :: 0 <= i < j < |p| ==> p[i] < p[j])
      && forall i :: 0 <= i < |done| ==> p[i] < |s.owner| && s.owner[p[i]] == w && done[i] == s.accepted[p[i]]
  {
    hide Mine, Positions, Run, CanRun;
    InitialInv(poolMax, started);
    RunInv(Initial(poolMax, started), steps);
    var s := Run(Initial(poolMax, started), steps);
    MineAt(s.accepted, s.owner, w);
  }

  /** What all workers together have executed and still hold. */
  ghost function Held(ws: seq<Worker>): multiset<Op> {
    if ws == [] then multiset{}
    else Held(ws[..|ws| - 1]) + multiset(ws[|ws| - 1].done) + multiset(ws[|ws| - 1].list)
  }

  /** What went to the first n workers. */
  ghost function Given(a: seq<Op>, owner: seq<nat>, n: nat): multiset<Op>
    requires |owner| <= |a|
  {
    if n == 0 then multiset{} else Given(a, owner, n - 1) + multiset(Mine(a, owner, n - 1))
  }

  lemma MineLast(a: seq<Op>, owner: seq<nat>, w: nat)
    requires 0 < |owner| <= |a|
    ensures var last := |owner| - 1;
      multiset(Mine(a, owner, w)) ==
      multiset(Mine(a, owner[..last], w)) + if owner[last] == w then multiset{a[last]} else multiset{}
  {
  }

  lemma Reorder(a: multiset<Op>, b: multiset<Op>, c: multiset<Op>, d: multiset<Op>)
    ensures (a + b) + (c + d) == (a + c) + (b + d)
  {
  }

  lemma {:induction false} GivenLast(a: seq<Op>, owner: seq<nat>, n: nat)
    requires 0 < |owner| <= |a|
    ensures var last := |owner| - 1;
      Given(a, owner, n) == Given(a, owner[..last], n) + if owner[last] < n then multiset{a[last]} else multiset{}
  {
    hide Mine, Given;
    var last, none := |owner| - 1, multiset{};
    var x := multiset{a[last]};
    if n == 0 {
      GivenZero(a, owner);
      GivenZero(a, owner[..last]);
    } else {
      GivenLast(a, owner, n - 1);
      MineLast(a, owner, n - 1);
      GivenMore(a, owner, n);
      GivenMore(a, owner[..last], n);
      Reorder(Given(a, owner[..last], n - 1), if owner[last] < n - 1 then x else none,
              multiset(Mine(a, owner[..last], n - 1)), if owner[last] == n - 1 then x else none);
    }
  }

  lemma GivenZero(a: seq<Op>, owner: seq<nat>)
    requires |owner| <= |a|
    ensures Given(a, owner, 0) == multiset{}
  {
  }

  lemma GivenMore(a: seq<Op>, owner: seq<nat>, n: nat)
    requires |owner| <= |a| && 0 < n
    ensures Given(a, owner, n) == Given(a, owner, n - 1) + multiset(Mine(a, owner, n - 1))
  {
  }

  lemma {:induction false} GivenNone(a: seq<Op>, n: nat)
    ensures Given(a, [], n) == multiset{}
  {
    if n > 0 {
      GivenNone(a, n - 1);
    }
  }

  lemma TakenLast(a: seq<Op>, m: nat)
    requires m < |a|
    ensures multiset(a[..m + 1]) == multiset(a[..m]) + multiset{a[m]}
  {
    assert a[..m + 1] == a[..m] + [a[m]];
  }

  lemma {:induction false} GivenAll(a: seq<Op>, owner: seq<nat>, n: nat)
    requires |owner| <= |a| && forall i :: 0 <= i < |owner| ==> owner[i] < n
    ensures Given(a, owner, n) == multiset(a[..|owner|])
    decreases |owner|
  {
    hide Given;
    if owner == [] {
      GivenNone(a, n);
    } else {
      var last := |owner| - 1;
      GivenAll(a, owner[..last], n);
      GivenLast(a, owner, n);
      TakenLast(a, last);
    }
  }

  lemma {:induction false} GivenHeld(a: seq<Op>, owner: seq<nat>, ws: seq<Worker>)
    requires |owner| <= |a| && forall w :: 0 <= w < |ws| ==> Mine(a, owner, w) == ws[w].done + ws[w].list
    ensures Given(a, owner, |ws|) == Held(ws)
    decreases |ws|
  {
    if ws != [] {
      GivenHeld(a, owner, ws[..|ws| - 1]);
    }
  }

  lemma InvConserves(s: State)
    requires Inv(s)
    ensures multiset(s.accepted) == Held(s.workers) + multiset(s.issue) + multiset(s.receive)
  {
    GivenAll(s.accepted, s.owner, |s.workers|);
    GivenHeld(s.accepted, s.owner, s.workers);
    assert s.accepted == s.accepted[..|s.owner|] + s.accepted[|s.owner|..];
  }

  /** In every run each operation that was asked for and found room is in exactly one of the receive ring,
      the issue ring, one worker's ring, or executed once; and a worker waiting
      on m_Active holds nothing. */
  lemma NothingLostOrDoubled(poolMax: nat, started: seq<bool>, steps: seq<Step>)
    requires CanRun(Initial(poolMax, started), steps)
    ensures var (s, taken) := (Run(Initial(poolMax, started), steps), TakenIn(Initial(poolMax, started), steps));
      && s.accepted == taken && multiset(taken) == Held(s.workers) + multiset(s.issue) + multiset(s.receive)
      && forall w :: 0 <= w < |s.workers| && s.workers[w].pc in {Parked, Ended} ==> s.workers[w].list == []
  {
    hide Held, Run, CanRun, TakenIn;
    InitialInv(poolMax, started);
    RunTakes(Initial(poolMax, started), steps);
    RunInv(Initial(poolMax, started), steps);
    InvConserves(Run(Initial(poolMax, started), steps));
  }

  lemma {:induction false} MineOnly(a: seq<Op>, owner: seq<nat>)
    requires |owner| <= |a| && forall i :: 0 <= i < |owner| ==> owner[i] == 0
    ensures Mine(a, owner, 0) == a[..|owner|]
    decreases |owner|
  {
    if owner != [] {
      MineOnly(a, owner[..|owner| - 1]);
    }
  }

  /** With a single worker the pipeline is one queue. */
  lemma SingleWorkerIsFifo(s: State)
    requires Inv(s) && |s.workers| == 1
    ensures s.workers[0].done + s.workers[0].list + s.issue + s.receive == s.accepted
  {
    MineOnly(s.accepted, s.owner);
    assert s.accepted == s.accepted[..|s.owner|] + s.accepted[|s.owner|..];
  }

  // ---------------------------------------------------------------- progress

  ghost predicate Idle(s: State) {
    s.receive == [] && s.issue == [] && forall w :: 0 <= w < |s.workers| ==> s.workers[w].list == []
  }

  /** Steps of the copy thread and of running workers. */
  ghost predicate Internal(step: Step) {
    step.CopyCheck? || step.CopyMerge? || step.Work?
  }

  ghost function Listed(ws: seq<Worker>): nat {
    if ws == [] then 0 else Listed(ws[..|ws| - 1]) + |ws[|ws| - 1].list|
  }

  lemma {:induction false} ListedUpdate(ws: seq<Worker>, w: nat, k: Worker)
    requires w < |ws|
    ensures Listed(ws[w := k]) + |ws[w].list| == Listed(ws) + |k.list|
    decreases |ws|
  {
    var last := |ws| - 1;
    if w == last {
      assert ws[w := k][..last] == ws[..last];
    } else {
      ListedUpdate(ws[..last], w, k);
      assert ws[w := k][..last] == ws[..last][w := k];
    }
  }

  ghost function PcRank(pc: Pc): nat {
    match pc
    case Draining => 5
    case Top => 4
    case Parked => 3
    case Passed => 2
    case _ => 1
  }

  /** What is left to do, as seen by worker a. */
  ghost function Todo(s: State, a: nat): nat
    requires a < |s.workers|
  {
    30 * |s.receive| + 20 * |s.issue| + 10 * Listed(s.workers) + PcRank(s.workers[a].pc) + if s.copying then 0 else 1
  }

  ghost predicate Running(s: State, a: nat) {
    a < |s.workers| && s.workers[a].active && s.workers[a].pc !in {Starting, Ended}
  }

  lemma WorkTodo(s: State, a: nat, w: nat)
    requires Inv(s) && Running(s, a) && w < |s.workers|
    requires if s.workers[w].list != [] then true else w == a && s.issue != []
    ensures Enabled(s, Work(w)) && Running(Worked(s, w), a) && Todo(Worked(s, w), a) < Todo(s, a)
  {
    hide Mine;
    ListedUpdate(s.workers, w, Worked(s, w).workers[w]);
  }

  lemma CopyTodo(s: State, a: nat, step: Step)
    requires Inv(s) && Running(s, a) && s.receive != [] && s.issue == []
    requires step == if s.copying then CopyMerge else CopyCheck
    ensures Enabled(s, step) && Running(Next(s, step), a) && Todo(Next(s, step), a) < Todo(s, a)
  {
    hide Mine;
  }

  /** While anything waits, some step brings the end nearer. */
  lemma Progress(s: State, a: nat) returns (step: Step)
    requires Inv(s) && Running(s, a) && !Idle(s)
    ensures Internal(step) && Enabled(s, step) && Running(Next(s, step), a)
    ensures Inv(Next(s, step)) && Todo(Next(s, step), a) < Todo(s, a)
  {
    hide Mine, Todo;
    if w: nat :| w < |s.workers| && s.workers[w].list != [] {
      WorkTodo(s, a, w);
      step := Work(w);
    } else if s.issue != [] {
      WorkTodo(s, a, a);
      step := Work(a);
    } else {
      step := if s.copying then CopyMerge else CopyCheck;
      CopyTodo(s, a, step);
    }
    StepInv(s, step);
  }

  /** No operation is stranded: while one worker runs and is active, the copy
      thread and the workers alone can execute everything accepted. */
  lemma {:induction false} Drainable(s: State, a: nat) returns (steps: seq<Step>)
    requires Inv(s) && Running(s, a)
    ensures (forall i :: 0 <= i < |steps| ==> Internal(steps[i])) && CanRun(s, steps) && Inv(Run(s, steps))
    ensures Idle(Run(s, steps)) && Run(s, steps).accepted == s.accepted && |Run(s, steps).owner| == |s.accepted|
    decreases Todo(s, a)
  {
    hide Mine, Todo;
    if Idle(s) {
      return [];
    }
    var step := Progress(s, a);
    var rest := Drainable(Next(s, step), a);
    steps := [step] + rest;
  }

  // ---------------------------------------------------------------- fair schedules

  /** An endless run: steps(i) takes states(i) to states(i + 1). */
  ghost predicate Endless(states: nat -> State, steps: nat -> Step) {
    Inv(states(0)) && forall i: nat :: Follows(states, steps, i)
  }

  ghost predicate Follows(states: nat -> State, steps: nat -> Step, i: nat) {
    Enabled(states(i), steps(i)) && states(i + 1) == Next(states(i), steps(i))
  }

  datatype Thread = Copy | WorkerOf(w: nat)

  ghost predicate Ready(s: State, t: Thread) {
    match t
    case Copy => Enabled(s, CopyCheck) || Enabled(s, CopyMerge)
    case WorkerOf(w) => Enabled(s, Work(w)) || Enabled(s, Begin(w, true))
  }

  ghost predicate By(step: Step, t: Thread) {
    match t
    case Copy => step.CopyCheck? || step.CopyMerge?
    case WorkerOf(w) => step == Work(w) || (step.Begin? && step.w == w)
  }

  /** A thread that stays ready gets its turn at some time. */
  ghost predicate Fair(states: nat -> State, steps: nat -> Step) {
    forall t, i: nat :: GetsTurn(states, steps, t, i)
  }

  ghost predicate GetsTurn(states: nat -> State, steps: nat -> Step, t: Thread, i: nat) {
    exists j: nat :: i <= j && (By(steps(j), t) || !Ready(states(j), t))
  }

  /** From i on the supervisor does not stop worker a. */
  ghost predicate KeptActive(steps: nat -> Step, a: nat, i: nat) {
    forall j: nat :: i <= j ==> steps(j) != SetActive(a, false)
  }

  /** How many operations the owner of operation q was given before it. */
  ghost function Before(s: State, q: nat): nat
    requires q < |s.owner|
  {
    |Positions(s.owner[..q], s.owner[q])|
  }

  /** Operation q, counted as accepted, has been executed by its owner. */
  ghost predicate Executed(s: State, q: nat) {
    && q < |s.owner| && s.owner[q] < |s.workers| && q < |s.accepted|
    && var done := s.workers[s.owner[q]].done;
       Before(s, q) < |done| && done[Before(s, q)] == s.accepted[q]
  }

  /** How far operation q is from being executed: by the operations before it in
      its owner's ring, or, with no owner yet, by those before it in the issue and
      receive rings and then by the way of worker a to the issue ring, or of the
      copy thread when that ring is empty. */
  ghost function Distance(s: State, q: nat, a: nat): int
    requires a < |s.workers| && forall i :: 0 <= i < |s.owner| ==> s.owner[i] < |s.workers|
  {
    if q < |s.owner| then Before(s, q) + 1 - |s.workers[s.owner[q]].done|
    else 100 * (q - |s.owner| + 1) + if s.issue == [] then (if s.copying then 60 else 61) else Way(s.workers[a])
  }

  ghost function Way(k: Worker): nat {
    match k.pc
    case Draining => 4 + |k.list|
    case Top => 3
    case Parked => 2
    case Passed => 1
    case _ => 0
  }

  /** The thread whose turn brings operation q nearer. */
  ghost function Helpful(s: State, q: nat, a: nat): Thread {
    if q < |s.owner| then WorkerOf(s.owner[q]) else if s.issue == [] then Copy else WorkerOf(a)
  }

  /** Once taken, an operation is in its owner's ring until it is executed. */
  lemma OwnedDistance(s: State, q: nat)
    requires Inv(s) && q < |s.owner|
    ensures var k := s.workers[s.owner[q]];
      && Before(s, q) < |k.done| + |k.list| <= |k.done| + WORKER_LEN
      && (|k.done| <= Before(s, q) ==> k.pc == Draining && k.list != [])
      && (Before(s, q) < |k.done| <==> Executed(s, q))
  {
    hide Mine, Positions;
    var w := s.owner[q];
    MineAt(s.accepted, s.owner, w);
    PositionAt(s.owner, q);
  }

  lemma {:induction false} PositionAt(owner: seq<nat>, q: nat)
    requires q < |owner|
    ensures |Positions(owner[..q], owner[q])| < |Positions(owner, owner[q])|
    ensures Positions(owner, owner[q])[|Positions(owner[..q], owner[q])|] == q
    decreases |owner|
  {
    var last := |owner| - 1;
    if q < last {
      PositionAt(owner[..last], q);
      assert owner[..last][..q] == owner[..q];
    }
  }

  /** No step moves an operation that is owned farther away, and a turn of its
      owner brings it nearer. */
  lemma OwnedStep(s: State, step: Step, q: nat, a: nat)
    requires Inv(s) && Running(s, a) && Enabled(s, step) && q < |s.owner| && !Executed(s, q)
    ensures var s' := Next(s, step);
      && Inv(s') && a < |s'.workers| && Ready(s, Helpful(s, q, a)) && Helpful(s', q, a) == Helpful(s, q, a)
      && Distance(s', q, a) <= Distance(s, q, a)
      && (By(step, Helpful(s, q, a)) ==> Distance(s', q, a) < Distance(s, q, a))
  {
    hide Mine, Positions;
    StepInv(s, step);
    OwnedDistance(s, q);
    assert Next(s, step).owner[..q] == s.owner[..q];
  }

  /** The same for one that waits in the rings: a merge brings it nearer or gives it
      an owner; until then worker a comes nearer to the issue ring, or the copy
      thread to filling it. */
  lemma WaitingStep(s: State, step: Step, q: nat, a: nat)
    requires Inv(s) && Running(s, a) && Enabled(s, step) && step != SetActive(a, false)
    requires |s.owner| <= q < |s.accepted|
    ensures var s' := Next(s, step);
      && Inv(s') && a < |s'.workers| && Ready(s, Helpful(s, q, a))
      && Distance(s', q, a) <= Distance(s, q, a)
      && (By(step, Helpful(s, q, a)) ==> Distance(s', q, a) < Distance(s, q, a))
      && (Distance(s', q, a) == Distance(s, q, a) ==> Helpful(s', q, a) == Helpful(s, q, a))
  {
    hide Mine, Positions, Before;
    StepInv(s, step);
    if step.Work? {
      WaitingWork(s, step.w, q, a);
    }
  }

  lemma WaitingWork(s: State, w: nat, q: nat, a: nat)
    requires Inv(s) && Running(s, a) && Enabled(s, Work(w)) && Inv(Worked(s, w)) && a < |Worked(s, w).workers|
    requires |s.owner| <= q < |s.accepted|
    ensures var s' := Worked(s, w);
      && Distance(s', q, a) <= Distance(s, q, a)
      && (w == a && s.issue != [] ==> Distance(s', q, a) < Distance(s, q, a))
      && (Distance(s', q, a) == Distance(s, q, a) ==> q >= |s'.owner| && (s'.issue == [] <==> s.issue == []))
  {
    hide Mine, Positions, Before, Placed;
    if s.workers[w].pc == Merging && s.issue != [] {
      MergedDistance(s, w, q, a);
    }
  }

  /** A merge makes the issue ring shorter. */
  lemma MergedDistance(s: State, w: nat, q: nat, a: nat)
    requires Inv(s) && Running(s, a) && w < |s.workers| && Inv(Worked(s, w)) && a < |Worked(s, w).workers|
    requires s.workers[w].pc == Merging && s.issue != [] && |s.owner| <= q < |s.accepted|
    ensures Distance(Worked(s, w), q, a) < Distance(s, q, a)
  {
    hide Mine, Positions, Before;
    var s' := Worked(s, w);
    assert |s'.owner| > |s.owner|;
    if q < |s'.owner| {
      OwnedDistance(s', q);
    }
  }

  lemma StaysRunning(s: State, step: Step, a: nat)
    requires Running(s, a) && Enabled(s, step) && step != SetActive(a, false)
    ensures Running(Next(s, step), a) && s.accepted <= Next(s, step).accepted
  {
  }

  /** From i to j an operation comes no farther, and while it comes no nearer the
      same thread can help it. */
  lemma {:induction false} Steady(states: nat -> State, steps: nat -> Step, q: nat, a: nat, i: nat, j: nat) returns (e: Option<nat>)
    requires Endless(states, steps) && KeptActive(steps, a, i) && i <= j
    requires Inv(states(i)) && Running(states(i), a) && q < |states(i).accepted|
    ensures e.Some? ==> i <= e.value && Executed(states(e.value), q) && states(i).accepted <= states(e.value).accepted
    ensures Inv(states(j)) && Running(states(j), a) && states(i).accepted <= states(j).accepted
    ensures e.None? ==> !Executed(states(j), q) && Distance(states(j), q, a) <= Distance(states(i), q, a)
    ensures e.None? && Distance(states(j), q, a) == Distance(states(i), q, a) ==>
              Helpful(states(j), q, a) == Helpful(states(i), q, a)
    decreases j - i
  {
    hide Inv, Executed, Distance, Helpful, Running, Next, Enabled;
    if i == j {
      e := if Executed(states(j), q) then Some(j) else None;
    } else {
      e := Steady(states, steps, q, a, i, j - 1);
      AStep(states, steps, q, a, j - 1);
      if e.None? && Executed(states(j), q) {
        e := Some(j);
      }
    }
  }

  lemma AStep(states: nat -> State, steps: nat -> Step, q: nat, a: nat, i: nat)
    requires Endless(states, steps) && steps(i) != SetActive(a, false)
    requires Inv(states(i)) && Running(states(i), a) && q < |states(i).accepted|
    ensures Inv(states(i + 1)) && Running(states(i + 1), a) && states(i).accepted <= states(i + 1).accepted
    ensures !Executed(states(i), q) ==>
      && Ready(states(i), Helpful(states(i), q, a))
      && Distance(states(i + 1), q, a) <= Distance(states(i), q, a)
      && (By(steps(i), Helpful(states(i), q, a)) ==> Distance(states(i + 1), q, a) < Distance(states(i), q, a))
      && (Distance(states(i + 1), q, a) == Distance(states(i), q, a) ==>
          Helpful(states(i + 1), q, a) == Helpful(states(i), q, a))
  {
    hide Inv, Executed, Distance, Helpful, Running, Next, Enabled, Ready, By;
    assert Follows(states, steps, i);
    StepInv(states(i), steps(i));
    StaysRunning(states(i), steps(i), a);
    if !Executed(states(i), q) {
      if q < |states(i).owner| {
        OwnedStep(states(i), steps(i), q, a);
      } else {
        WaitingStep(states(i), steps(i), q, a);
      }
    }
  }

  lemma {:induction false} Comes(states: nat -> State, steps: nat -> Step, q: nat, a: nat, i: nat) returns (e: nat)
    requires Endless(states, steps) && Fair(states, steps) && KeptActive(steps, a, i)
    requires Inv(states(i)) && Running(states(i), a) && q < |states(i).accepted|
    ensures i <= e && Executed(states(e), q) && q < |states(e).accepted| && states(e).accepted[q] == states(i).accepted[q]
    decreases Distance(states(i), q, a)
  {
    hide Inv, Distance, Helpful, Running, Next, Enabled, Ready, By, Executed;
    var t := Helpful(states(i), q, a);
    assert GetsTurn(states, steps, t, i);
    var j: nat :| i <= j && (By(steps(j), t) || !Ready(states(j), t));
    var found := Steady(states, steps, q, a, i, j);
    if found.Some? {
      return found.value;
    }
    AStep(states, steps, q, a, j);
    if Executed(states(j + 1), q) {
      return j + 1;
    }
    FarUnlessExecuted(states(j), q, a);
    FarUnlessExecuted(states(j + 1), q, a);
    e := Comes(states, steps, q, a, j + 1);
  }

  /** Under every fair schedule each accepted operation is executed at some time,
      with any producers and whatever else the supervisor does, if one worker is
      running and is not stopped. */
  lemma EachIsExecuted(states: nat -> State, steps: nat -> Step, q: nat, a: nat, i: nat) returns (e: nat)
    requires Endless(states, steps) && Fair(states, steps) && KeptActive(steps, a, i)
    requires Running(states(i), a) && q < |states(i).accepted|
    ensures i <= e && Executed(states(e), q) && q < |states(e).accepted| && states(e).accepted[q] == states(i).accepted[q]
  {
    hide Inv, Running, Next, Enabled, Executed;
    InvAlways(states, steps, i);
    e := Comes(states, steps, q, a, i);
  }

  /** So a call that finds room leads to the execution of its operation, by some
      worker, with the code and the text given. */
  lemma EachCallIsExecuted(states: nat -> State, steps: nat -> Step, op: Op, a: nat, i: nat) returns (e: nat, w: nat, k: nat)
    requires Endless(states, steps) && Fair(states, steps) && KeptActive(steps, a, i)
    requires Running(states(i), a) && steps(i) == Exec(op) && |states(i).receive| < states(i).cap
    ensures i < e && w < |states(e).workers| && k < |states(e).workers[w].done| && states(e).workers[w].done[k] == op
  {
    hide Inv, Running, Fair, KeptActive, Executed;
    assert Follows(states, steps, i);
    var q := |states(i).accepted|;
    ExecTaken(states(i), op);
    KeptAt(steps, a, i);
    StaysRunning(states(i), steps(i), a);
    KeptLater(steps, a, i);
    e := EachIsExecuted(states, steps, q, a, i + 1);
    w, k := ExecutedWhere(states(e), q);
  }

  lemma KeptAt(steps: nat -> Step, a: nat, i: nat)
    requires KeptActive(steps, a, i)
    ensures steps(i) != SetActive(a, false)
  {
  }

  lemma KeptLater(steps: nat -> Step, a: nat, i: nat)
    requires KeptActive(steps, a, i)
    ensures KeptActive(steps, a, i + 1)
  {
  }

  lemma ExecutedWhere(s: State, q: nat) returns (w: nat, k: nat)
    requires Executed(s, q)
    ensures q < |s.accepted| && w < |s.workers| && k < |s.workers[w].done| && s.workers[w].done[k] == s.accepted[q]
  {
    w, k := s.owner[q], Before(s, q);
  }

  lemma {:induction false} InvAlways(states: nat -> State, steps: nat -> Step, i: nat)
    requires Endless(states, steps)
    ensures Inv(states(i))
  {
    hide Inv, Next, Enabled;
    if i > 0 {
      InvAlways(states, steps, i - 1);
      assert Follows(states, steps, i - 1);
      StepInv(states(i - 1), steps(i - 1));
    }
  }

  /** No worker takes anything: all wait to be made active or have returned. */
  ghost predicate AllParked(s: State) {
    forall w :: 0 <= w < |s.workers| ==> s.workers[w].pc == Ended || (s.workers[w].pc == Parked && !s.workers[w].active)
  }

  /** The running worker is needed: with none, and none woken, what waits is never
      executed, however fair the schedule. */
  lemma {:induction false} StrandedUnlessWoken(states: nat -> State, steps: nat -> Step, q: nat, i: nat, j: nat)
    requires Endless(states, steps) && i <= j && forall k: nat, w: nat :: i <= k ==> steps(k) != SetActive(w, true)
    requires AllParked(states(i)) && |states(i).owner| <= q
    ensures AllParked(states(j)) && states(j).owner == states(i).owner && !Executed(states(j), q)
    decreases j - i
  {
    hide Inv;
    if i < j {
      StrandedUnlessWoken(states, steps, q, i, j - 1);
      assert Follows(states, steps, j - 1);
      ParkedStep(states(j - 1), steps(j - 1));
    }
  }

  lemma ParkedStep(s: State, step: Step)
    requires AllParked(s) && Enabled(s, step) && forall w: nat :: step != SetActive(w, true)
    ensures AllParked(Next(s, step)) && Next(s, step).owner == s.owner
  {
    if step.SetActive? {
      assert step != SetActive(step.w, true);
    }
  }

  lemma FarUnlessExecuted(s: State, q: nat, a: nat)
    requires Inv(s) && Running(s, a) && q < |s.accepted|
    ensures Executed(s, q) || Distance(s, q, a) > 0
  {
    hide Mine, Positions, Before;
    if q < |s.owner| {
      OwnedDistance(s, q);
    }
  }
}
