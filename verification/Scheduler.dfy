/** The nested round-robin of `kernel/scheduler.c`: which threads `KeSchedule`
    switches between, call after call, and who gets their turn. */
module Scheduler {
  import opened Words

  datatype Task = Task(threads: nat, current: nat)
  datatype Job = Job(tasks: seq<Task>, current: nat)
  datatype State = State(jobs: seq<Job>, current: nat)

  /** What one call settles on: the thread left and the thread entered. */
  datatype Choice = Choice(job: nat, task: nat, old_: nat, new_: nat)

  /** A cursor that ran off its table starts again. */
  function Pick(cursor: nat, n: nat): nat {
    if cursor >= n then 0 else cursor
  }

  /** The tables that the next call looks into are not empty. */
  predicate Ready(s: State) {
    && |s.jobs| > 0
    && var job := s.jobs[Pick(s.current, |s.jobs|)];
       |job.tasks| > 0 && job.tasks[Pick(job.current, |job.tasks|)].threads > 0
  }

  function Step(s: State): (State, Choice)
    requires Ready(s)
  {
    var j := Pick(s.current, |s.jobs|);
    var job := s.jobs[j];
    var t := Pick(job.current, |job.tasks|);
    var task := job.tasks[t];
    var old_ := Pick(task.current, task.threads);
    var new_ := Pick(old_ + 1, task.threads);
    (State(s.jobs[j := Job(job.tasks[t := Task(task.threads, new_ + 1)], t + 1)], j + 1), Choice(j, t, old_, new_))
  }

  /** The cursors of a state lie in their tables or right behind them. */
  predicate Bounded(s: State) {
    && s.current <= |s.jobs|
    && forall j <- s.jobs :: j.current <= |j.tasks| && forall t <- j.tasks :: t.current <= t.threads
  }

  class KernelScheduler {
    var jobs: seq<Job>
    var currentJob: nat

    function View(): State
      reads this
    {
      State(jobs, currentJob)
    }

    /** No cursor is past the end of its table, whatever is created in between. */
    predicate Valid()
      reads this
    {
      Bounded(View())
    }

    constructor ()
      ensures Valid() && View() == State([], 0)
    {
      jobs, currentJob := [], 0;
    }

    method CreateJob() returns (job: nat)
      requires Valid()
      modifies this
      ensures Valid() && job == old(|jobs|) && View() == old(View()).(jobs := old(jobs) + [Job([], 0)])
    {
      job := |jobs|;
      jobs := jobs + [Job([], 0)];
    }

    method CreateTask(job: nat) returns (task: nat)
      requires Valid() && job < |jobs|
      modifies this
      ensures Valid() && task == old(|jobs[job].tasks|)
      ensures View() == old(View()).(jobs := old(jobs)[job := old(jobs[job]).(tasks :=
                          old(jobs[job].tasks) + [Task(0, 0)])])
    {
      task := |jobs[job].tasks|;
      jobs := jobs[job := jobs[job].(tasks := jobs[job].tasks + [Task(0, 0)])];
    }

    method CreateThread(job: nat, task: nat) returns (thread: nat)
      requires Valid() && job < |jobs| && task < |jobs[job].tasks|
      modifies this
      ensures Valid() && thread == old(jobs[job].tasks[task].threads)
      ensures View() == old(View()).(jobs := old(jobs)[job := old(jobs[job]).(tasks :=
                          old(jobs[job].tasks)[task := old(jobs[job].tasks[task]).(threads := thread + 1)])])
    {
      var tasks := jobs[job].tasks;
      thread := tasks[task].threads;
      jobs := jobs[job := jobs[job].(tasks := tasks[task := tasks[task].(threads := thread + 1)])];
    }

    /** `KeSchedule`.  A call with an empty table on its way leaves the table. */
    method Schedule() returns (c: Choice)
      requires Valid() && Ready(View())
      modifies this
      ensures Valid() && (View(), c) == Step(old(View()))
    {
      if currentJob >= |jobs| {
        currentJob := 0;
      }
      var j := currentJob;
      var job := jobs[j];
      currentJob := currentJob + 1;
      var cursor := job.current;
      if cursor >= |job.tasks| {
        cursor := 0;
      }
      var t := cursor;
      var task := job.tasks[t];
      var thread := task.current;
      if thread >= task.threads {
        thread := 0;
      }
      var old_ := thread;
      thread := thread + 1;
      if thread >= task.threads {
        thread := 0;
      }
      var new_ := thread;
      thread := thread + 1;
      jobs := jobs[j := Job(job.tasks[t := Task(task.threads, thread)], cursor + 1)];
      c := Choice(j, t, old_, new_);
    }
  }

  // ---------- what call number k does ----------

  /** A cursor over `n` entries after `m` picks. */
  function Cursor(m: nat, n: nat): nat
    requires n > 0
  {
    if m == 0 then 0 else (m - 1) % n + 1
  }

  lemma CursorPicks(m: nat, n: nat)
    requires n > 0
    ensures Pick(Cursor(m, n), n) == m % n
    ensures Cursor(m + 1, n) == m % n + 1
  {
    if m > 0 {
      NextMod(m - 1, n);
    }
  }

  lemma NextMod(k: nat, n: nat)
    requires n > 0
    ensures (k + 1) % n == if k % n + 1 == n then 0 else k % n + 1
    ensures (k + 1) / n == if k % n + 1 == n then k / n + 1 else k / n
  {
    var q, r := k / n, k % n;
    assert k == n * q + r;
    if r + 1 == n {
      assert k + 1 == n * (q + 1) + 0;
      DivModUnique(k + 1, q + 1, 0, n);
    } else {
      DivModUnique(k + 1, q, r + 1, n);
    }
  }

  /** How many of `k` round-robin picks among `n` went to entry `i`. */
  function Visits(k: nat, i: nat, n: nat): nat
    requires n > 0
  {
    k / n + if i < k % n then 1 else 0
  }

  lemma VisitsStep(k: nat, i: nat, n: nat)
    requires n > 0 && i < n
    ensures Visits(k + 1, i, n) == Visits(k, i, n) + if k % n == i then 1 else 0
    ensures Visits(k, k % n, n) == k / n
  {
    NextMod(k, n);
  }

  /** Tables as they are right after they were created, none of them empty. */
  predicate Fresh(s: State) {
    && |s.jobs| > 0 && s.current == 0
    && forall j <- s.jobs :: FreshJob(j)
  }

  predicate FreshJob(j: Job) {
    |j.tasks| > 0 && j.current == 0 && forall t <- j.tasks :: t.threads > 0 && t.current == 0
  }

  function TaskAfter(t: Task, w: nat): Task
    requires t.threads > 0
  {
    Task(t.threads, Cursor(2 * w, t.threads))
  }

  function JobAfter(j: Job, v: nat): (r: Job)
    requires FreshJob(j)
    ensures |r.tasks| == |j.tasks|
  {
    Job(seq(|j.tasks|, t requires 0 <= t < |j.tasks| => TaskAfter(j.tasks[t], Visits(v, t, |j.tasks|))),
        Cursor(v, |j.tasks|))
  }

  /** The cursors after `k` calls, said outright. */
  function StateAfter(s: State, k: nat): (r: State)
    requires Fresh(s)
    ensures |r.jobs| == |s.jobs|
  {
    State(seq(|s.jobs|, i requires 0 <= i < |s.jobs| => JobAfter(s.jobs[i], Visits(k, i, |s.jobs|))),
          Cursor(k, |s.jobs|))
  }

  /** The choice of call `k` (counted from 0), said outright. */
  function ChoiceAt(s: State, k: nat): Choice
    requires Fresh(s)
  {
    var j, v := k % |s.jobs|, k / |s.jobs|;
    assert s.jobs[j] in s.jobs;
    var tasks := s.jobs[j].tasks;
    var t, w := v % |tasks|, v / |tasks|;
    assert tasks[t] in tasks;
    var n := tasks[t].threads;
    Choice(j, t, (2 * w) % n, (2 * w + 1) % n)
  }

  lemma JobStep(j: Job, v: nat)
    requires FreshJob(j)
    ensures var a, t := JobAfter(j, v), v % |j.tasks|; var w := v / |j.tasks|; var n := j.tasks[t].threads;
            && Pick(a.current, |a.tasks|) == t
            && a.tasks[t] == Task(n, Cursor(2 * w, n)) && n > 0
            && JobAfter(j, v + 1) == Job(a.tasks[t := Task(n, Cursor(2 * w + 2, n))], t + 1)
  {
    var t := v % |j.tasks|;
    CursorPicks(v, |j.tasks|);
    VisitsStep(v, t, |j.tasks|);
    assert j.tasks[t] in j.tasks;
    var a, c := JobAfter(j, v), JobAfter(j, v + 1);
    forall i | 0 <= i < |j.tasks| && i != t
      ensures c.tasks[i] == a.tasks[i]
    {
      VisitsStep(v, i, |j.tasks|);
    }
  }

  /** One call from the state after `k` calls makes the choice of call `k` and
      leads to the state after `k + 1`. */
  lemma CallStep(s: State, k: nat)
    requires Fresh(s)
    ensures Ready(StateAfter(s, k)) && Step(StateAfter(s, k)) == (StateAfter(s, k + 1), ChoiceAt(s, k))
  {
    var n := |s.jobs|;
    var j, a, c := k % n, StateAfter(s, k), StateAfter(s, k + 1);
    CursorPicks(k, n);
    VisitsStep(k, j, n);
    assert s.jobs[j] in s.jobs;
    var v := k / n;
    JobStep(s.jobs[j], v);
    var tasks := s.jobs[j].tasks;
    var t, w := v % |tasks|, v / |tasks|;
    CursorPicks(2 * w, tasks[t].threads);
    CursorPicks(2 * w + 1, tasks[t].threads);
    forall i | 0 <= i < n && i != j
      ensures c.jobs[i] == a.jobs[i]
    {
      VisitsStep(k, i, n);
    }
    assert c.jobs == a.jobs[j := JobAfter(s.jobs[j], v + 1)];
  }

  /** `k` calls in a row, and what they choose. */
  ghost predicate Calls(s: State, choices: seq<Choice>, e: State)
    decreases |choices|
  {
    if choices == [] then s == e
    else
      var init := choices[..|choices| - 1];
      exists m :: Calls(s, init, m) && Ready(m) && Step(m) == (e, choices[|choices| - 1])
  }

  /** Every run of calls from fresh tables makes the choices said outright. */
  lemma {:induction false} RunOfCalls(s: State, choices: seq<Choice>, e: State)
    requires Fresh(s) && Calls(s, choices, e)
    ensures e == StateAfter(s, |choices|)
    ensures forall k :: 0 <= k < |choices| ==> choices[k] == ChoiceAt(s, k)
    decreases |choices|
  {
    if choices == [] {
      FreshIsZero(s);
    } else {
      var n := |choices| - 1;
      var m :| Calls(s, choices[..n], m) && Ready(m) && Step(m) == (e, choices[n]);
      RunOfCalls(s, choices[..n], m);
      CallStep(s, n);
      forall k | 0 <= k < n
        ensures choices[k] == ChoiceAt(s, k)
      {
        assert choices[k] == choices[..n][k];
      }
    }
  }

  lemma FreshIsZero(s: State)
    requires Fresh(s)
    ensures StateAfter(s, 0) == s
  {
    var z := StateAfter(s, 0);
    forall i | 0 <= i < |s.jobs|
      ensures z.jobs[i] == s.jobs[i]
    {
      var j := s.jobs[i];
      assert j in s.jobs;
      forall t | 0 <= t < |j.tasks|
        ensures JobAfter(j, 0).tasks[t] == j.tasks[t]
      {
        assert j.tasks[t] in j.tasks;
      }
      assert JobAfter(j, 0).tasks == j.tasks;
    }
  }

  // ---------- who gets a turn ----------

  /** The thread entered at visit `w` of a task with `n` threads. */
  function Entered(w: nat, n: nat): nat
    requires n > 0
  {
    (2 * w + 1) % n
  }

  /** A thread is entered at some visit exactly when the number of threads is odd
      or its own index is. */
  lemma EnteredIff(x: nat, n: nat)
    requires x < n
    ensures (exists w: nat :: Entered(w, n) == x) <==> n % 2 == 1 || x % 2 == 1
  {
    if n % 2 == 1 || x % 2 == 1 {
      var w := if x % 2 == 1 then (x - 1) / 2 else (x - 1 + n) / 2;
      FirstTurn(x, n);
      assert Entered(w, n) == x;
    } else {
      forall w: nat
        ensures Entered(w, n) != x
      {
        EvenOnlyOdd(w, n);
      }
    }
  }

  lemma FirstTurn(x: nat, n: nat)
    requires x < n && (n % 2 == 1 || x % 2 == 1)
    ensures var w := if x % 2 == 1 then (x - 1) / 2 else (x - 1 + n) / 2; w < n && Entered(w, n) == x
  {
    if x % 2 == 1 {
      DivModUnique(x, 0, x, n);
    } else {
      DivModUnique(x + n, 1, x, n);
    }
  }

  lemma EvenOnlyOdd(w: nat, n: nat)
    requires n > 0 && n % 2 == 0
    ensures Entered(w, n) % 2 == 1
  {
    var q, r, h := (2 * w + 1) / n, (2 * w + 1) % n, n / 2;
    assert 2 * w + 1 == n * q + r;
    assert n == 2 * h;
    assert n * q == 2 * (h * q) by {
      assert (2 * h) * q == 2 * (h * q);
    }
  }

  /** With an odd number of threads each is entered exactly once in any `n`
      consecutive visits of its task. */
  lemma OddIsFair(x: nat, n: nat, w0: nat)
    requires x < n && n % 2 == 1
    ensures exists w :: w0 <= w < w0 + n && Entered(w, n) == x
    ensures forall w, w' :: w0 <= w < w' < w0 + n ==> Entered(w, n) != Entered(w', n)
  {
    FirstTurn(x, n);
    var u := if x % 2 == 1 then (x - 1) / 2 else (x - 1 + n) / 2;
    var w := InWindow(u, n, w0);
    forall w, w' | w0 <= w < w' < w0 + n
      ensures Entered(w, n) != Entered(w', n)
    {
      DifferentTurns(w, w', n);
    }
  }

  /** The visit in the window that is a whole number of rounds away from `u`. */
  lemma InWindow(u: nat, n: nat, w0: nat) returns (w: nat)
    requires u < n
    ensures w0 <= w < w0 + n && Entered(w, n) == Entered(u, n)
  {
    var q, r := w0 / n, w0 % n;
    assert w0 == n * q + r;
    var m := if u >= r then q else q + 1;
    w := n * m + u;
    assert n * (q + 1) == n * q + n;
    var p, e := (2 * u + 1) / n, (2 * u + 1) % n;
    assert 2 * u + 1 == n * p + e;
    assert 2 * w + 1 == n * (2 * m + p) + e by {
      assert n * (2 * m + p) == 2 * (n * m) + n * p;
    }
    DivModUnique(2 * w + 1, 2 * m + p, e, n);
  }

  lemma DifferentTurns(w: nat, w': nat, n: nat)
    requires n % 2 == 1 && w < w' < w + n
    ensures Entered(w, n) != Entered(w', n)
  {
    var q, q', e, e' := (2 * w + 1) / n, (2 * w' + 1) / n, Entered(w, n), Entered(w', n);
    assert 2 * w + 1 == n * q + e && 2 * w' + 1 == n * q' + e';
    Distribute(n, q', q);
    NoHalfRound(n, q' - q, w' - w);
  }

  lemma Distribute(n: nat, x: int, y: int)
    ensures n * (x - y) == n * x - n * y
  {
  }

  lemma NoHalfRound(n: nat, d: int, e: nat)
    requires n % 2 == 1 && 0 < e < n
    ensures n * d != 2 * e
  {
    if d <= 0 {
      MulMonotone(n, d, 0);
    } else if d >= 2 {
      MulMonotone(n, 2, d);
    }
  }

  // ---------- turns in runs ----------

  predicate Present(s: State, j: nat, t: nat) {
    j < |s.jobs| && t < |s.jobs[j].tasks|
  }

  /** The number of threads of a task. */
  function Threads(s: State, j: nat, t: nat): nat
    requires Present(s, j, t)
  {
    s.jobs[j].tasks[t].threads
  }

  /** The call that is visit `w` of a task. */
  function VisitCall(s: State, j: nat, t: nat, w: nat): nat
    requires Present(s, j, t)
  {
    (w * |s.jobs[j].tasks| + t) * |s.jobs| + j
  }

  lemma ThreadsPositive(s: State, j: nat, t: nat)
    requires Fresh(s) && Present(s, j, t)
    ensures Threads(s, j, t) > 0
  {
    assert s.jobs[j] in s.jobs && s.jobs[j].tasks[t] in s.jobs[j].tasks;
  }

  /** That call visits the task, and enters thread 2w + 1 in turn. */
  lemma VisitAt(s: State, j: nat, t: nat, w: nat)
    requires Fresh(s) && Present(s, j, t)
    ensures Threads(s, j, t) > 0
    ensures var c := ChoiceAt(s, VisitCall(s, j, t, w));
            c.job == j && c.task == t && c.new_ == Entered(w, Threads(s, j, t))
  {
    ThreadsPositive(s, j, t);
    var v := w * |s.jobs[j].tasks| + t;
    DivModUnique(VisitCall(s, j, t, w), v, j, |s.jobs|);
    DivModUnique(v, w, t, |s.jobs[j].tasks|);
  }

  /** Every call is a visit of the task it picks. */
  lemma IsVisit(s: State, k: nat) returns (w: nat)
    requires Fresh(s)
    ensures var c := ChoiceAt(s, k); Present(s, c.job, c.task) && k == VisitCall(s, c.job, c.task, w)
  {
    var j, v := k % |s.jobs|, k / |s.jobs|;
    assert s.jobs[j] in s.jobs;
    w := v / |s.jobs[j].tasks|;
  }

  /** Calls from fresh tables can go on for ever. */
  lemma {:induction false} RunExists(s: State, k: nat) returns (choices: seq<Choice>, e: State)
    requires Fresh(s)
    ensures |choices| == k && Calls(s, choices, e)
    decreases k
  {
    if k == 0 {
      choices, e := [], s;
    } else {
      var init, m := RunExists(s, k - 1);
      RunOfCalls(s, init, m);
      CallStep(s, k - 1);
      choices, e := init + [ChoiceAt(s, k - 1)], StateAfter(s, k);
      assert choices[..|choices| - 1] == init;
    }
  }

  predicate Enters(c: Choice, j: nat, t: nat, x: nat) {
    c.job == j && c.task == t && c.new_ == x
  }

  /** Some run of calls enters thread `x` of the task. */
  ghost predicate GetsTurn(s: State, j: nat, t: nat, x: nat) {
    exists choices, e, k :: Calls(s, choices, e) && 0 <= k < |choices| && Enters(choices[k], j, t, x)
  }

  /** A thread ever gets a turn if and only if the number of threads of its task is
      odd or its own index is. */
  lemma ThreadGetsTurnIff(s: State, j: nat, t: nat, x: nat)
    requires Fresh(s) && Present(s, j, t) && x < Threads(s, j, t)
    ensures GetsTurn(s, j, t, x) <==> Threads(s, j, t) % 2 == 1 || x % 2 == 1
  {
    hide Fresh, Calls, VisitCall;
    var n := Threads(s, j, t);
    EnteredIff(x, n);
    if GetsTurn(s, j, t, x) {
      var choices, e, k :| Calls(s, choices, e) && 0 <= k < |choices| && Enters(choices[k], j, t, x);
      RunOfCalls(s, choices, e);
      var w := IsVisit(s, k);
      VisitAt(s, j, t, w);
    }
    if w: nat :| Entered(w, n) == x {
      VisitAt(s, j, t, w);
      var k := VisitCall(s, j, t, w);
      var choices, e := RunExists(s, k + 1);
      RunOfCalls(s, choices, e);
      assert Enters(choices[k], j, t, x);
    }
  }

  /** In every run, with an odd number of threads, each thread of a task is entered
      exactly once in any as many consecutive visits of the task. */
  lemma TurnsAreFair(s: State, choices: seq<Choice>, e: State, j: nat, t: nat, x: nat, w0: nat)
    requires Fresh(s) && Calls(s, choices, e) && Present(s, j, t)
    requires Threads(s, j, t) % 2 == 1 && x < Threads(s, j, t)
    requires VisitCall(s, j, t, w0 + Threads(s, j, t) - 1) < |choices|
    ensures forall w :: w0 <= w < w0 + Threads(s, j, t) ==> VisitCall(s, j, t, w) < |choices|
    ensures exists w :: w0 <= w < w0 + Threads(s, j, t) && Enters(choices[VisitCall(s, j, t, w)], j, t, x)
    ensures forall w, w' :: w0 <= w < w' < w0 + Threads(s, j, t) ==>
              !(Enters(choices[VisitCall(s, j, t, w)], j, t, x) && Enters(choices[VisitCall(s, j, t, w')], j, t, x))
  {
    hide Fresh, Calls, VisitCall, ChoiceAt;
    var n := Threads(s, j, t);
    RunOfCalls(s, choices, e);
    OddIsFair(x, n, w0);
    forall w | w0 <= w < w0 + n
      ensures VisitCall(s, j, t, w) < |choices|
      ensures Enters(choices[VisitCall(s, j, t, w)], j, t, x) <==> Entered(w, n) == x
    {
      VisitsInOrder(s, j, t, w, w0 + n - 1);
      VisitAt(s, j, t, w);
    }
    var w :| w0 <= w < w0 + n && Entered(w, n) == x;
    assert Enters(choices[VisitCall(s, j, t, w)], j, t, x);
  }

  lemma VisitsInOrder(s: State, j: nat, t: nat, w: nat, w': nat)
    requires Present(s, j, t) && w <= w'
    ensures VisitCall(s, j, t, w) <= VisitCall(s, j, t, w')
  {
    var a, b := |s.jobs[j].tasks|, |s.jobs|;
    MulMonotone(a, w, w');
    MulMonotone(b, w * a + t, w' * a + t);
  }

  /** In every run, with an even number of threads, only odd ones are entered. */
  lemma EvenStarves(s: State, choices: seq<Choice>, e: State, k: nat)
    requires Fresh(s) && Calls(s, choices, e) && k < |choices|
    ensures var c := choices[k];
            Present(s, c.job, c.task) && (Threads(s, c.job, c.task) % 2 == 0 ==> c.new_ % 2 == 1)
  {
    RunOfCalls(s, choices, e);
    var c := ChoiceAt(s, k);
    var w := IsVisit(s, k);
    VisitAt(s, c.job, c.task, w);
    if Threads(s, c.job, c.task) % 2 == 0 {
      EvenOnlyOdd(w, Threads(s, c.job, c.task));
    }
  }

  // ---------- any state ----------

  lemma PickInCircle(cursor: nat, n: nat)
    requires cursor <= n && n > 0
    ensures Pick(cursor, n) == cursor % n
  {
    if cursor == n {
      DivModUnique(cursor, 1, 0, n);
    } else {
      DivModUnique(cursor, 0, cursor, n);
    }
  }

  /** A call from any state that calls and creates can lead to goes round all three
      tables: job and task at their cursors, the thread at its cursor left, the next
      one in the circle entered; only these three cursors move, each right behind what
      was picked last. */
  lemma AnyCall(s: State)
    requires Bounded(s) && Ready(s)
    ensures var (e, c) := Step(s); var j := s.current % |s.jobs|;
            && c.job == j && e.current == j + 1 && |e.jobs| == |s.jobs|
            && (forall i :: 0 <= i < |s.jobs| && i != j ==> e.jobs[i] == s.jobs[i])
            && var old_, new_ := s.jobs[j], e.jobs[j];
            && |old_.tasks| > 0 && var t := old_.current % |old_.tasks|;
            && c.task == t && new_.current == t + 1 && |new_.tasks| == |old_.tasks|
            && (forall i :: 0 <= i < |old_.tasks| && i != t ==> new_.tasks[i] == old_.tasks[i])
            && var n := old_.tasks[t].threads;
            && n > 0 && c.old_ == old_.tasks[t].current % n && c.new_ == (c.old_ + 1) % n
            && new_.tasks[t] == Task(n, c.new_ + 1)
  {
    PickInCircle(s.current, |s.jobs|);
    var j := s.current % |s.jobs|;
    assert s.jobs[j] in s.jobs;
    var job := s.jobs[j];
    PickInCircle(job.current, |job.tasks|);
    var t := job.current % |job.tasks|;
    assert job.tasks[t] in job.tasks;
    PickInCircle(job.tasks[t].current, job.tasks[t].threads);
    PickInCircle(job.tasks[t].current % job.tasks[t].threads + 1, job.tasks[t].threads);
  }

  /** With an even number of threads, a call from any such state enters threads of one
      parity, told by the cursor, and leaves the cursor with the parity it had: the
      threads of the other parity wait until one is created. */
  lemma ParityKept(s: State)
    requires Bounded(s) && Ready(s)
    ensures var (e, c) := Step(s);
            && c.job < |s.jobs| && c.task < |s.jobs[c.job].tasks|
            && c.job < |e.jobs| && c.task < |e.jobs[c.job].tasks|
            && var task, after := s.jobs[c.job].tasks[c.task], e.jobs[c.job].tasks[c.task];
            (task.threads % 2 == 0 ==>
               c.new_ % 2 == (task.current + 1) % 2 && after.current % 2 == task.current % 2)
  {
    AnyCall(s);
    var c := Step(s).1;
    var task := s.jobs[c.job].tasks[c.task];
    assert task in s.jobs[c.job].tasks && s.jobs[c.job] in s.jobs;
    hide Step;
    if task.threads % 2 == 0 {
      EvenCircle(task.current, task.threads);
    }
  }

  lemma EvenCircle(cursor: nat, n: nat)
    requires n > 0 && n % 2 == 0 && cursor <= n
    ensures (cursor % n + 1) % n % 2 == (cursor + 1) % 2
  {
    PickInCircle(cursor, n);
    var at := Pick(cursor, n);
    PickInCircle(at + 1, n);
  }
}
