/**
  The bodies of the pipeline's threads on the rings themselves. Each contract
  gives the effect that SqlPipeline's steps have on the contents of the rings.
 */
module SqlThreads {
  import opened Wrappers
  import opened Define
  import opened LoopList
  import opened SqlPipeline

  /** The rings and counters of SqlConnPool. */
  class Rings {
    const receive: LoopList<Op>  // m_sqlCacheReceive
    const issue: LoopList<Op>    // m_sqlCacheIssue
    var sqlCount: nat            // m_nSqlCountPerSapce
    var maxCache: nat            // m_MaxCache

    ghost predicate Valid()
      reads this, receive, issue
    {
      receive.Valid() && issue.Valid() && receive != issue && receive.buf != issue.buf
      && receive.capacity == issue.capacity
    }

    /** The rings and the counter are those of a state of the pipeline. */
    ghost predicate Shows(s: State)
      requires Valid()
      reads this, receive, receive.buf, issue, issue.buf
    {
      s.cap == receive.capacity && s.receive == receive.Contents() && s.issue == issue.Contents() && s.sqlCount == sqlCount
    }

    constructor (poolMax: nat)
      ensures Valid() && fresh(receive) && fresh(issue) && fresh(receive.buf) && fresh(issue.buf)
      ensures forall started :: Shows(Initial(poolMax, started))
    {
      receive := new LoopList(poolMax);
      issue := new LoopList(poolMax);
      sqlCount, maxCache := 0, 0;
    }

    /** execSqlAsy. The code is returned and the call is counted even when the
        ring is full and the operation dropped. */
    method ExecSqlAsy(sql: Option<string>, hashCode: nat) returns (code: nat)
      requires Valid()
      modifies this`sqlCount, receive, receive.buf
      ensures Valid() && receive.buf == old(receive.buf) && issue.Contents() == old(issue.Contents())
      ensures code == if sql.Some? then hashCode else 0
      ensures sqlCount == old(sqlCount) + if sql.Some? then 1 else 0
      ensures sql.Some? ==> forall s :: old(Shows(s)) ==> Shows(Next(s, Exec(Op(hashCode, Stored(sql.value), None))))
      ensures !(sql.Some?) ==> forall s :: old(Shows(s)) ==> Shows(s)
      ensures receive.Contents() == old(receive.Contents()) +
        if sql.Some? && |old(receive.Contents())| < receive.capacity then [Op(hashCode, Stored(sql.value), None)] else []
    {
      if sql.None? {
        return 0;
      }
      var pushed := receive.PushBack(Op(hashCode, Stored(sql.value), None));
      sqlCount := sqlCount + 1;
      return hashCode;
    }

    /** execSelectSqlAsy */
    method ExecSelectSqlAsy(sql: Option<string>, column: Option<nat>, hashCode: nat) returns (code: nat)
      requires Valid()
      modifies this`sqlCount, receive, receive.buf
      ensures Valid() && receive.buf == old(receive.buf) && issue.Contents() == old(issue.Contents())
      ensures code == if sql.Some? && column.Some? then hashCode else 0
      ensures sqlCount == old(sqlCount) + if sql.Some? && column.Some? then 1 else 0
      ensures sql.Some? && column.Some? ==> forall s :: old(Shows(s)) ==> Shows(Next(s, Exec(Op(hashCode, Stored(sql.value), column))))
      ensures !(sql.Some? && column.Some?) ==> forall s :: old(Shows(s)) ==> Shows(s)
      ensures receive.Contents() == old(receive.Contents()) +
        if sql.Some? && column.Some? && |old(receive.Contents())| < receive.capacity then [Op(hashCode, Stored(sql.value), column)] else []
    {
      if sql.None? || column.None? {
        return 0;
      }
      var pushed := receive.PushBack(Op(hashCode, Stored(sql.value), column));
      sqlCount := sqlCount + 1;
      return hashCode;
    }

    /** One turn of SqlCacheCopyThread. */
    method CopyTurn()
      requires Valid()
      modifies this`maxCache, receive, issue, issue.buf
      ensures Valid() && receive.buf == old(receive.buf) && issue.buf == old(issue.buf)
      ensures forall s :: old(Shows(s)) && !s.copying ==> CanRun(s, CopySteps(s)) && Shows(Run(s, CopySteps(s)))
      ensures var n := Moved(|old(issue.Contents())|, issue.capacity, |old(receive.Contents())|);
        && issue.Contents() == old(issue.Contents()) + old(receive.Contents())[..n]
        && receive.Contents() == old(receive.Contents())[n..]
        && maxCache == if n == 0 then old(maxCache)
                       else Max(Max(old(maxCache), |old(receive.Contents())|), |issue.Contents()|)
    {
      hide Run, CanRun, CopySteps;
      assert issue.Contents() == issue.Contents() + receive.Contents()[..0];
      forall s | Shows(s) && !s.copying ensures Copied(s) {
        CopyRuns(s);
      }
      if receive.size > 0 && !issue.IsFull() {
        maxCache := Max(maxCache, receive.size);
        var moved := issue.Merge(receive);
        maxCache := Max(maxCache, issue.size);
      }
    }
  }

  /** The ring and counter of a worker (CSqlBase). */
  class SqlWorker {
    const list: LoopList<Op>  // m_sqllist
    var count: nat            // n_Count

    constructor ()
      ensures list.Valid() && list.Contents() == [] && list.capacity == WORKER_LEN && fresh(list) && fresh(list.buf)
    {
      list := new LoopList(WORKER_LEN);
      count := 0;
    }

    /** One turn of SqlProcessThread that passed the wait: takes operations while
        there is room, then executes every operation it holds. `oks` is what the
        database answered to each. */
    method ProcessTurn(issue: LoopList<Op>) returns (executed: seq<Op>, oks: seq<bool>)
      requires list.Valid() && issue.Valid() && issue != list && issue.buf != list.buf
      modifies this`count, list, list.buf, issue
      ensures list.Valid() && issue.Valid() && issue.buf == old(issue.buf) && list.buf == old(list.buf)
      ensures list.Contents() == [] && issue.capacity == old(issue.capacity) && list.capacity == old(list.capacity)
      ensures var n := Moved(|old(list.Contents())|, list.capacity, |old(issue.Contents())|);
        executed == old(list.Contents()) + old(issue.Contents())[..n] && issue.Contents() == old(issue.Contents())[n..]
      ensures |oks| == |executed| && count == old(count) + Succeeded(oks)
    {
      executed, oks := [], [];
      assert list.Contents() == list.Contents() + issue.Contents()[..0];
      if !list.IsFull() {
        if issue.size > 0 {
          var moved := list.Merge(issue);
        }
      }
      if list.size > 0 {
        executed, oks := Drain();
      }
    }

    /** Executes the held operations, oldest first. */
    method Drain() returns (executed: seq<Op>, oks: seq<bool>)
      requires list.Valid() && list.Contents() != []
      modifies this`count, list
      ensures list.Valid() && list.buf == old(list.buf) && list.capacity == old(list.capacity)
      ensures list.Contents() == [] && executed == old(list.Contents())
      ensures |oks| == |executed| && count == old(count) + Succeeded(oks)
    {
      hide Elements, Succeeded;
      executed, oks := [], [];
      NoneSucceeded();
      ghost var held := list.Contents();
      var sqlCount := 0;
      while true
        invariant list.Valid() && list.buf == old(list.buf) && list.capacity == old(list.capacity)
        invariant list.Contents() != [] && executed + list.Contents() == held && count == old(count)
        invariant |oks| == |executed| && sqlCount == Succeeded(oks)
        decreases list.size
      {
        ghost var rest := list.Contents();
        var op := list.PopFront();
        var ok := *;  // bExecuteSql
        assert executed + rest == executed + [rest[0]] + rest[1..];
        MoreSucceeded(oks, ok);
        executed, oks := executed + [op.value], oks + [ok];
        if ok {
          sqlCount := sqlCount + 1;
        }
        if list.size == 0 {
          break;
        }
      }
      count := count + sqlCount;
    }
  }

  function Succeeded(oks: seq<bool>): (r: nat)
    ensures r == multiset(oks)[true]
  {
    assert oks != [] ==> oks == oks[..|oks| - 1] + [oks[|oks| - 1]];
    if oks == [] then 0 else Succeeded(oks[..|oks| - 1]) + if oks[|oks| - 1] then 1 else 0
  }

  lemma NoneSucceeded()
    ensures Succeeded([]) == 0
  {
  }

  lemma MoreSucceeded(oks: seq<bool>, ok: bool)
    ensures Succeeded(oks + [ok]) == Succeeded(oks) + if ok then 1 else 0
  {
    assert (oks + [ok])[..|oks|] == oks;
  }

  // ---------------------------------------------------------------- turns as steps

  /** The steps of a turn of the copy thread. */
  ghost function CopySteps(s: State): seq<Step> {
    if |s.receive| > 0 && |s.issue| < s.cap then [CopyCheck, CopyMerge] else []
  }

  ghost predicate Copied(s: State) {
    CanRun(s, CopySteps(s)) &&
    var n := Moved(|s.issue|, s.cap, |s.receive|);
    Run(s, CopySteps(s)) == s.(issue := s.issue + s.receive[..n], receive := s.receive[n..])
  }

  lemma CopyRuns(s: State)
    requires !s.copying
    ensures Copied(s)
  {
    if |s.receive| > 0 && |s.issue| < s.cap {
      RunTwo(s, CopyCheck, CopyMerge, []);
      assert CopySteps(s) == [CopyCheck, CopyMerge] + [];
    } else {
      assert s.issue + s.receive[..0] == s.issue;
    }
  }

  /** The steps of a worker that holds n operations, up to its next turn. */
  function DrainSteps(w: nat, n: nat): (r: seq<Step>)
    ensures |r| == n + 1
  {
    if n == 0 then [Work(w)] else [Work(w)] + DrainSteps(w, n - 1)
  }

  lemma {:induction false} DrainRuns(s: State, w: nat)
    requires w < |s.workers| && s.workers[w].pc == Draining
    ensures var (k, steps) := (s.workers[w], DrainSteps(w, |s.workers[w].list|));
      CanRun(s, steps) && Run(s, steps) == SetWorker(s, w, k.(pc := Top, list := [], done := k.done + k.list))
    decreases |s.workers[w].list|
  {
    var k := s.workers[w];
    if k.list != [] {
      var s1 := Worked(s, w);
      DrainRuns(s1, w);
      assert k.done + [k.list[0]] + k.list[1..] == k.done + k.list;
      assert s.workers[w := s1.workers[w]][w := k.(pc := Top, list := [], done := k.done + k.list)]
          == s.workers[w := k.(pc := Top, list := [], done := k.done + k.list)];
      assert Next(s, Work(w)) == s1;
    } else {
      assert k.done + k.list == k.done;
    }
  }

  /** A turn of a worker with no other thread in between: the steps from the look
      at the issue ring do to the rings what ProcessTurn does. */
  lemma TurnRuns(s: State, w: nat) returns (steps: seq<Step>)
    requires w < |s.workers| && s.workers[w].pc == Passed && s.workers[w].list == []
    ensures CanRun(s, steps)
    ensures var (k, n) := (s.workers[w], Moved(0, WORKER_LEN, |s.issue|));
      Run(s, steps) == SetWorker(s, w, k.(pc := Top, done := k.done + s.issue[..n]))
                       .(issue := s.issue[n..], owner := s.owner + seq(n, _ => w))
  {
    var k, n := s.workers[w], Moved(0, WORKER_LEN, |s.issue|);
    var s1 := Next(s, Work(w));
    if |s.issue| == 0 {
      DrainRuns(s1, w);
      steps := [Work(w)] + DrainSteps(w, 0);
      assert steps[1..] == DrainSteps(w, 0);
      assert k.done + s.issue[..n] == k.done && s.owner + seq(n, _ => w) == s.owner;
    } else {
      var s2 := Next(s1, Work(w));
      assert s2.workers[w] == k.(pc := Draining, list := s.issue[..n]);
      DrainRuns(s2, w);
      steps := [Work(w), Work(w)] + DrainSteps(w, n);
      RunTwo(s, Work(w), Work(w), DrainSteps(w, n));
      TakenWorker(s.workers, w, s1.workers[w], s2.workers[w]);
      TakenWorker(s.workers, w, s2.workers[w], k.(pc := Top, done := k.done + s.issue[..n]));
    }
  }

  lemma RunTwo(s: State, a: Step, b: Step, rest: seq<Step>)
    requires Enabled(s, a) && Enabled(Next(s, a), b) && CanRun(Next(Next(s, a), b), rest)
    ensures CanRun(s, [a, b] + rest) && Run(s, [a, b] + rest) == Run(Next(Next(s, a), b), rest)
  {
    hide Next, Enabled;
    assert ([a, b] + rest)[1..] == [b] + rest && ([b] + rest)[1..] == rest;
  }

  lemma TakenWorker(ws: seq<Worker>, w: nat, k: Worker, last: Worker)
    requires w < |ws|
    ensures ws[w := k][w := last] == ws[w := last]
  {
  }
}
