/**
 test.py: the worker threads, the shared input and output queues, and the dispatch, break, collect and
 join phases of run_tests, as a state machine. Every interleaving of the threads' steps is a run.
 */
module TestScheduler {
  import opened Basics

  /** A test with what the scheduler knows about it and the code that running it will return. */
  datatype Job = Job(displayName: string, isSkip: bool, skipReason: string, returncode: int)

  datatype Config = Config(jobs: seq<Job>, processors: nat)

  /** How many processes to use: all that are online, or as many as the user asked for, if that is no more.
      A limit of 0 is no limit. */
  function ProcessorsToUse(online: int, processLimit: int): int {
    if processLimit != 0 && online >= processLimit then processLimit else online
  }

  /** One thread is started per process to use, none at all for a negative number of them. */
  function Launch(jobs: seq<Job>, online: int, processLimit: int): Config {
    var processors := ProcessorsToUse(online, processLimit);
    Config(jobs, if processors < 0 then 0 else processors)
  }

  /** What travels through the input queue. Jobs are identified by their position in the job list. */
  datatype Token = Work(job: nat) | Break

  /** What a worker has done with a job; Interrupted is a job sent back with its break flag set. */
  datatype Outcome = Interrupted | Skipped | Returned(code: int)

  datatype Report = Report(job: nat, outcome: Outcome)

  /** Where a worker thread is in its loop. */
  datatype Worker =
    | Waiting                  // about to call input_queue.get()
    | Took(job: nat)           // has a real job, has not looked at thread_exit yet
    | Running(job: nat)        // inside run_job_synchronously
    | Ready(report: Report)    // about to call output_queue.put()
    | Stopped                  // has consumed a break token

  datatype State = State(
    dispatched: nat,           // jobs the main thread has queued
    breaks: nat,               // break tokens the main thread has queued
    joined: nat,               // threads the main thread has joined
    inq: seq<Token>,
    workers: seq<Worker>,
    outq: seq<Report>,
    collected: seq<Report>,    // reports the main thread has taken, in order
    threadExit: bool)

  datatype Step =
    | Dispatch | SendBreak | Collect | Join
    | Get(w: nat) | Check(w: nat) | Run(w: nat) | Put(w: nat)
    | Interrupt

  function Init(c: Config): State {
    State(0, 0, 0, [], seq(c.processors, _ => Waiting), [], [], false)
  }

  predicate Enabled(c: Config, s: State, step: Step) {
    match step
    case Dispatch => s.dispatched < |c.jobs|
    case SendBreak => s.dispatched == |c.jobs| && s.breaks < c.processors
    case Collect => s.dispatched == |c.jobs| && s.breaks == c.processors && |s.collected| < |c.jobs| && s.outq != []
    case Join => s.dispatched == |c.jobs| && s.breaks == c.processors && |s.collected| == |c.jobs|
                 && s.joined < |s.workers| && s.workers[s.joined] == Stopped
    case Get(w) => w < |s.workers| && s.workers[w] == Waiting && s.inq != []
    case Check(w) => w < |s.workers| && s.workers[w].Took? && s.workers[w].job < |c.jobs|
    case Run(w) => w < |s.workers| && s.workers[w].Running? && s.workers[w].job < |c.jobs|
    case Put(w) => w < |s.workers| && s.workers[w].Ready?
    case Interrupt => true
  }

  function Apply(c: Config, s: State, step: Step): State
    requires Enabled(c, s, step)
  {
    match step
    case Dispatch => s.(inq := s.inq + [Work(s.dispatched)], dispatched := s.dispatched + 1)
    case SendBreak => s.(inq := s.inq + [Break], breaks := s.breaks + 1)
    case Collect => s.(outq := s.outq[1..], collected := s.collected + [s.outq[0]])
    case Join => s.(joined := s.joined + 1)
    case Get(w) =>
      var worker := match s.inq[0] case Work(j) => Took(j) case Break => Stopped;
      s.(inq := s.inq[1..], workers := s.workers[w := worker])
    case Check(w) =>
      var j := s.workers[w].job;
      var worker := if s.threadExit then Ready(Report(j, Interrupted))
                    else if c.jobs[j].isSkip then Ready(Report(j, Skipped))
                    else Running(j);
      s.(workers := s.workers[w := worker])
    case Run(w) =>
      var j := s.workers[w].job;
      s.(workers := s.workers[w := Ready(Report(j, Returned(c.jobs[j].returncode)))])
    case Put(w) =>
      s.(outq := s.outq + [s.workers[w].report], workers := s.workers[w := Waiting])
    case Interrupt => s.(threadExit := true)
  }

  /** The main thread has collected every result and joined every thread. */
  predicate Finished(c: Config, s: State) {
    s.dispatched == |c.jobs| && s.breaks == c.processors && |s.collected| == |c.jobs| && s.joined == c.processors
  }

  // ---------- runs

  ghost predicate StepsTo(c: Config, s: State, step: Step, s': State) {
    Enabled(c, s, step) && s' == Apply(c, s, step)
  }

  /** The state reached from s by taking the given steps, each of them enabled in its turn. */
  ghost predicate RunsTo(c: Config, s: State, steps: seq<Step>, s': State)
    decreases |steps|
  {
    if steps == [] then s' == s
    else
      var last := steps[|steps|-1];
      exists m :: RunsTo(c, s, steps[..|steps|-1], m) && StepsTo(c, m, last, s')
  }

  ghost predicate Reachable(c: Config, s: State) {
    exists steps :: RunsTo(c, Init(c), steps, s)
  }

  // ---------- where the jobs are

  function Map<A, B>(f: A -> B, s: seq<A>): (r: seq<B>)
    ensures |r| == |s| && forall i :: 0 <= i < |s| ==> r[i] == f(s[i])
  {
    seq(|s|, i requires 0 <= i < |s| => f(s[i]))
  }

  function JobHeld(w: Worker): Option<nat> {
    match w
    case Took(j) => Some(j)
    case Running(j) => Some(j)
    case Ready(r) => Some(r.job)
    case _ => None
  }

  function HeldJobs(ws: seq<Worker>): seq<Option<nat>> {
    Map(JobHeld, ws)
  }

  function ReportedJobs(rs: seq<Report>): seq<nat> {
    Map((r: Report) => r.job, rs)
  }

  /** How many copies of job j exist in the whole system. */
  function Copies(c: Config, s: State, j: nat): nat {
    (if s.dispatched <= j < |c.jobs| then 1 else 0)
    + multiset(s.inq)[Work(j)]
    + multiset(HeldJobs(s.workers))[Some(j)]
    + multiset(ReportedJobs(s.outq))[j]
    + multiset(ReportedJobs(s.collected))[j]
  }

  /** How many jobs, of any identity, exist in the whole system. */
  function Population(c: Config, s: State): int {
    (|c.jobs| - s.dispatched)
    + (|s.inq| - multiset(s.inq)[Break])
    + (|s.workers| - multiset(HeldJobs(s.workers))[None])
    + |s.outq| + |s.collected|
  }

  ghost predicate EveryJobOnce(c: Config, s: State) {
    && s.dispatched <= |c.jobs|
    && Population(c, s) == |c.jobs|
    && forall j: nat :: Copies(c, s, j) == if j < |c.jobs| then 1 else 0
  }

  /** Break tokens: each one sent is still queued or has stopped a worker, and all of them come last. */
  ghost predicate BreaksLast(c: Config, s: State) {
    && |s.workers| == c.processors
    && s.breaks <= c.processors
    && multiset(s.inq)[Break] + multiset(s.workers)[Stopped] == s.breaks
    && (s.breaks > 0 ==> s.dispatched == |c.jobs|)
    && (forall i, k :: 0 <= i < k < |s.inq| && s.inq[i] == Break ==> s.inq[k] == Break)
    && (Stopped in s.workers ==> forall i :: 0 <= i < |s.inq| ==> s.inq[i] == Break)
  }

  ghost predicate MainInOrder(c: Config, s: State) {
    && |s.collected| <= |c.jobs|
    && s.joined <= c.processors == |s.workers|
    && (s.collected != [] || s.joined > 0 ==> s.dispatched == |c.jobs| && s.breaks == c.processors)
    && (s.joined > 0 ==> |s.collected| == |c.jobs|)
    && (forall w :: 0 <= w < s.joined ==> s.workers[w] == Stopped)
  }

  /** The outcome of an undisturbed job. */
  function Verdict(job: Job): Outcome {
    if job.isSkip then Skipped else Returned(job.returncode)
  }

  /** A report is what the job deserves, unless an interrupt cut it short. */
  ghost predicate Truthful(c: Config, threadExit: bool, r: Report) {
    r.job < |c.jobs| && (r.outcome == Verdict(c.jobs[r.job]) || (threadExit && r.outcome == Interrupted))
  }

  ghost predicate WorkerTruthful(c: Config, threadExit: bool, w: Worker) {
    match w
    case Took(j) => j < |c.jobs|
    case Running(j) => j < |c.jobs| && !c.jobs[j].isSkip
    case Ready(r) => Truthful(c, threadExit, r)
    case _ => true
  }

  ghost predicate ReportsTruthful(c: Config, s: State) {
    && (forall i :: 0 <= i < |s.inq| && s.inq[i].Work? ==> s.inq[i].job < |c.jobs|)
    && (forall w :: 0 <= w < |s.workers| ==> WorkerTruthful(c, s.threadExit, s.workers[w]))
    && (forall i :: 0 <= i < |s.outq| ==> Truthful(c, s.threadExit, s.outq[i]))
    && (forall i :: 0 <= i < |s.collected| ==> Truthful(c, s.threadExit, s.collected[i]))
  }

  ghost predicate Inv(c: Config, s: State) {
    EveryJobOnce(c, s) && BreaksLast(c, s) && MainInOrder(c, s) && ReportsTruthful(c, s)
  }

  // ---------- every step keeps the invariant

  lemma MapAppend<A, B>(f: A -> B, s: seq<A>, x: A)
    ensures Map(f, s + [x]) == Map(f, s) + [f(x)]
  {
  }

  lemma MapTail<A, B>(f: A -> B, s: seq<A>)
    requires s != []
    ensures Map(f, s) == [f(s[0])] + Map(f, s[1..])
  {
  }

  lemma MapUpdate<A, B>(f: A -> B, s: seq<A>, i: nat, x: A)
    requires i < |s|
    ensures Map(f, s[i := x]) == Map(f, s)[i := f(x)]
  {
  }

  lemma InitInv(c: Config)
    ensures Inv(c, Init(c))
  {
    var ws := Init(c).workers;
    AllSame(ws, Waiting);
    AllSame(HeldJobs(ws), None);
  }

  lemma {:induction false} AllSame<T>(s: seq<T>, x: T)
    requires forall i :: 0 <= i < |s| ==> s[i] == x
    ensures multiset(s)[x] == |s| && forall y :: y != x ==> multiset(s)[y] == 0
  {
    if s != [] {
      AllSame(s[1..], x);
      assert s == [s[0]] + s[1..];
    }
  }

  lemma CountAppend<T>(s: seq<T>, x: T, y: T)
    ensures multiset(s + [x])[y] == multiset(s)[y] + One(x == y)
  {
  }

  lemma CountTail<T>(s: seq<T>, y: T)
    requires s != []
    ensures multiset(s[1..])[y] == multiset(s)[y] - One(s[0] == y)
  {
    assert s == [s[0]] + s[1..];
  }

  lemma CountUpdate<T>(s: seq<T>, i: nat, x: T, y: T)
    requires i < |s|
    ensures multiset(s[i := x])[y] == multiset(s)[y] - One(s[i] == y) + One(x == y)
  {
  }

  lemma HeldUpdate(ws: seq<Worker>, w: nat, worker: Worker, h: Option<nat>)
    requires w < |ws|
    ensures multiset(HeldJobs(ws[w := worker]))[h]
         == multiset(HeldJobs(ws))[h] - One(JobHeld(ws[w]) == h) + One(JobHeld(worker) == h)
  {
    MapUpdate(JobHeld, ws, w, worker);
    CountUpdate(HeldJobs(ws), w, JobHeld(worker), h);
  }

  lemma ReportedAppend(rs: seq<Report>, r: Report, j: nat)
    ensures multiset(ReportedJobs(rs + [r]))[j] == multiset(ReportedJobs(rs))[j] + One(r.job == j)
  {
    MapAppend((r: Report) => r.job, rs, r);
    CountAppend(ReportedJobs(rs), r.job, j);
  }

  lemma ReportedTail(rs: seq<Report>, j: nat)
    requires rs != []
    ensures multiset(ReportedJobs(rs[1..]))[j] == multiset(ReportedJobs(rs))[j] - One(rs[0].job == j)
  {
    MapTail((r: Report) => r.job, rs);
    CountTail(ReportedJobs(rs), j);
  }

  /** The counts of every job and of the whole population are the same in two states. */
  ghost predicate SameJobs(c: Config, s: State, s': State, j: nat) {
    Copies(c, s', j) == Copies(c, s, j) && Population(c, s') == Population(c, s)
  }

  lemma GetConserves(c: Config, s: State, w: nat, j: nat)
    requires Enabled(c, s, Get(w)) && s.dispatched <= |c.jobs|
    ensures SameJobs(c, s, Apply(c, s, Get(w)), j)
  {
    var worker := Apply(c, s, Get(w)).workers[w];
    HeldUpdate(s.workers, w, worker, Some(j));
    HeldUpdate(s.workers, w, worker, None);
    CountTail(s.inq, Work(j));
    CountTail(s.inq, Break);
  }

  lemma PutConserves(c: Config, s: State, w: nat, j: nat)
    requires Enabled(c, s, Put(w)) && s.dispatched <= |c.jobs|
    ensures SameJobs(c, s, Apply(c, s, Put(w)), j)
  {
    HeldUpdate(s.workers, w, Waiting, Some(j));
    HeldUpdate(s.workers, w, Waiting, None);
    ReportedAppend(s.outq, s.workers[w].report, j);
  }

  lemma CollectConserves(c: Config, s: State, j: nat)
    requires Enabled(c, s, Collect) && s.dispatched <= |c.jobs|
    ensures SameJobs(c, s, Apply(c, s, Collect), j)
  {
    ReportedAppend(s.collected, s.outq[0], j);
    ReportedTail(s.outq, j);
  }

  lemma DispatchConserves(c: Config, s: State, j: nat)
    requires Enabled(c, s, Dispatch) && s.dispatched <= |c.jobs|
    ensures SameJobs(c, s, Apply(c, s, Dispatch), j)
  {
    CountAppend(s.inq, Work(s.dispatched), Work(j));
    CountAppend(s.inq, Work(s.dispatched), Break);
  }

  lemma SameJobConserves(c: Config, s: State, w: nat, worker: Worker, j: nat)
    requires w < |s.workers| && JobHeld(worker) == JobHeld(s.workers[w]) && s.dispatched <= |c.jobs|
    ensures SameJobs(c, s, s.(workers := s.workers[w := worker]), j)
  {
    HeldUpdate(s.workers, w, worker, Some(j));
    HeldUpdate(s.workers, w, worker, None);
  }

  /** No step creates or loses a copy of a job. */
  lemma StepConserves(c: Config, s: State, step: Step, j: nat)
    requires Enabled(c, s, step) && s.dispatched <= |c.jobs|
    ensures SameJobs(c, s, Apply(c, s, step), j)
  {
    match step
    case Dispatch => DispatchConserves(c, s, j);
    case SendBreak =>
      CountAppend(s.inq, Break, Work(j));
      CountAppend(s.inq, Break, Break);
    case Collect => CollectConserves(c, s, j);
    case Join =>
    case Get(w) => GetConserves(c, s, w, j);
    case Check(w) => SameJobConserves(c, s, w, Apply(c, s, step).workers[w], j);
    case Run(w) => SameJobConserves(c, s, w, Apply(c, s, step).workers[w], j);
    case Put(w) => PutConserves(c, s, w, j);
    case Interrupt =>
  }

  lemma GetKeepsBreaksLast(c: Config, s: State, w: nat)
    requires BreaksLast(c, s) && Enabled(c, s, Get(w))
    ensures BreaksLast(c, Apply(c, s, Get(w)))
  {
    var worker := Apply(c, s, Get(w)).workers[w];
    CountTail(s.inq, Break);
    CountUpdate(s.workers, w, worker, Stopped);
    var ws := s.workers[w := worker];
    if Stopped in ws && Stopped !in s.workers {
      var v :| 0 <= v < |ws| && ws[v] == Stopped;
      assert s.workers[v] in s.workers;
      assert v == w && s.inq[0] == Break;
    }
  }

  lemma NonBreakWorker(c: Config, s: State, w: nat, worker: Worker, s': State)
    requires BreaksLast(c, s) && w < |s.workers| && s.workers[w] != Stopped && worker != Stopped
    requires s'.workers == s.workers[w := worker] && s'.inq == s.inq
    requires s'.breaks == s.breaks && s'.dispatched == s.dispatched
    ensures BreaksLast(c, s')
  {
    CountUpdate(s.workers, w, worker, Stopped);
    var ws := s'.workers;
    if Stopped in ws {
      var v :| 0 <= v < |ws| && ws[v] == Stopped;
      assert s.workers[v] in s.workers;
    }
  }

  lemma DispatchKeepsBreaksLast(c: Config, s: State)
    requires BreaksLast(c, s) && Enabled(c, s, Dispatch)
    ensures BreaksLast(c, Apply(c, s, Dispatch))
  {
    assert s.breaks == 0;
    CountAppend(s.inq, Work(s.dispatched), Break);
    CountedMember(s.inq, Break);
    CountedMember(s.workers, Stopped);
  }

  lemma SendBreakKeepsBreaksLast(c: Config, s: State)
    requires BreaksLast(c, s) && Enabled(c, s, SendBreak)
    ensures BreaksLast(c, Apply(c, s, SendBreak))
  {
    CountAppend(s.inq, Break, Break);
  }

  lemma UntouchedQueue(c: Config, s: State, s': State)
    requires BreaksLast(c, s) && s'.workers == s.workers && s'.inq == s.inq
    requires s'.breaks == s.breaks && s'.dispatched == s.dispatched
    ensures BreaksLast(c, s')
  {
  }

  lemma StepKeepsBreaksLast(c: Config, s: State, step: Step)
    requires BreaksLast(c, s) && Enabled(c, s, step)
    ensures BreaksLast(c, Apply(c, s, step))
  {
    var s' := Apply(c, s, step);
    match step
    case Get(w) => GetKeepsBreaksLast(c, s, w);
    case Dispatch => DispatchKeepsBreaksLast(c, s);
    case SendBreak => SendBreakKeepsBreaksLast(c, s);
    case Collect => UntouchedQueue(c, s, s');
    case Join => UntouchedQueue(c, s, s');
    case Check(w) => NonBreakWorker(c, s, w, s'.workers[w], s');
    case Run(w) => NonBreakWorker(c, s, w, s'.workers[w], s');
    case Put(w) => NonBreakWorker(c, s, w, s'.workers[w], s');
    case Interrupt => UntouchedQueue(c, s, s');
  }

  lemma StepKeepsMainInOrder(c: Config, s: State, step: Step)
    requires BreaksLast(c, s) && MainInOrder(c, s) && Enabled(c, s, step)
    ensures MainInOrder(c, Apply(c, s, step))
  {
  }

  lemma StepKeepsReportsTruthful(c: Config, s: State, step: Step)
    requires ReportsTruthful(c, s) && Enabled(c, s, step)
    ensures ReportsTruthful(c, Apply(c, s, step))
  {
  }

  lemma StepInv(c: Config, s: State, step: Step)
    requires Inv(c, s) && Enabled(c, s, step)
    ensures Inv(c, Apply(c, s, step))
  {
    var s' := Apply(c, s, step);
    assert EveryJobOnce(c, s') by {
      forall j: nat ensures Copies(c, s', j) == if j < |c.jobs| then 1 else 0 {
        StepConserves(c, s, step, j);
        assert SameJobs(c, s, s', j);
        assert Copies(c, s, j) == if j < |c.jobs| then 1 else 0;
      }
      StepConserves(c, s, step, 0);
    }
    StepKeepsBreaksLast(c, s, step);
    StepKeepsMainInOrder(c, s, step);
    StepKeepsReportsTruthful(c, s, step);
  }

  lemma {:induction false} RunKeepsInv(c: Config, s: State, steps: seq<Step>, s': State)
    requires Inv(c, s) && RunsTo(c, s, steps, s')
    ensures Inv(c, s')
    decreases |steps|
  {
    if steps != [] {
      var front, last := steps[..|steps|-1], steps[|steps|-1];
      var m :| RunsTo(c, s, front, m) && StepsTo(c, m, last, s');
      RunKeepsInv(c, s, front, m);
      StepInv(c, m, last);
    }
  }

  lemma RunInv(c: Config, steps: seq<Step>, s: State)
    requires RunsTo(c, Init(c), steps, s)
    ensures Inv(c, s)
  {
    InitInv(c);
    RunKeepsInv(c, Init(c), steps, s);
  }

  lemma ReachableInv(c: Config, s: State)
    requires Reachable(c, s)
    ensures Inv(c, s)
  {
    var steps :| RunsTo(c, Init(c), steps, s);
    RunInv(c, steps, s);
  }

  // ---------- no deadlock

  /** Some thread, or the main thread, can make a step of its own. */
  ghost predicate CanMove(c: Config, s: State) {
    exists step :: step != Interrupt && Enabled(c, s, step)
  }

  lemma CountedMember<T>(s: seq<T>, x: T)
    ensures multiset(s)[x] > 0 <==> exists i :: 0 <= i < |s| && s[i] == x
  {
    assert x in multiset(s) <==> x in s;
  }

  lemma WorkerMoves(c: Config, s: State, w: nat)
    requires ReportsTruthful(c, s) && w < |s.workers| && JobHeld(s.workers[w]).Some?
    ensures CanMove(c, s)
  {
    match s.workers[w]
    case Took(j) => assert Enabled(c, s, Check(w));
    case Running(j) => assert Enabled(c, s, Run(w));
    case Ready(r) => assert Enabled(c, s, Put(w));
  }

  /** With a worker thread at all, an unfinished system can always make a step. */
  lemma NeverStuck(c: Config, s: State)
    requires Inv(c, s) && !Finished(c, s) && (c.processors >= 1 || c.jobs == [])
    ensures CanMove(c, s)
  {
    if s.dispatched < |c.jobs| {
      assert Enabled(c, s, Dispatch);
    } else if s.breaks < c.processors {
      assert Enabled(c, s, SendBreak);
    } else if w :| 0 <= w < |s.workers| && JobHeld(s.workers[w]).Some? {
      WorkerMoves(c, s, w);
    } else if |s.collected| < |c.jobs| {
      if s.outq != [] {
        assert Enabled(c, s, Collect);
      } else {
        AllSame(HeldJobs(s.workers), None);
        assert multiset(s.inq)[Break] < |s.inq|;
        var i := SomeWork(s.inq);
        assert Stopped !in s.workers;
        assert s.workers[0] in s.workers;
        assert Enabled(c, s, Get(0));
      }
    } else if s.workers[s.joined] == Stopped {
      assert Enabled(c, s, Join);
    } else {
      NotAll(s.workers, Stopped, s.joined);
      assert Enabled(c, s, Get(s.joined));
    }
  }

  lemma {:induction false} SomeWork(inq: seq<Token>) returns (i: nat)
    requires multiset(inq)[Break] < |inq|
    ensures i < |inq| && inq[i].Work?
  {
    if inq[0].Work? {
      i := 0;
    } else {
      assert inq == [inq[0]] + inq[1..];
      i := SomeWork(inq[1..]);
      i := i + 1;
    }
  }

  lemma NotAll<T>(s: seq<T>, x: T, i: nat)
    requires i < |s| && s[i] != x
    ensures multiset(s)[x] < |s|
  {
    assert s == s[..i] + [s[i]] + s[i+1..];
    CountAtMost(s[..i], x);
    CountAtMost(s[i+1..], x);
  }

  lemma {:induction false} CountAtMost<T>(s: seq<T>, x: T)
    ensures multiset(s)[x] <= |s|
  {
    if s != [] {
      assert s == [s[0]] + s[1..];
      CountAtMost(s[1..], x);
    }
  }

  // ---------- the end of a run

  /** When the main thread is done, every thread has stopped, every queue is empty, every job came back once. */
  lemma FinishedIsClean(c: Config, s: State)
    requires Inv(c, s) && Finished(c, s)
    ensures forall w :: 0 <= w < |s.workers| ==> s.workers[w] == Stopped
    ensures s.inq == [] && s.outq == []
    ensures forall j: nat :: multiset(ReportedJobs(s.collected))[j] == if j < |c.jobs| then 1 else 0
  {
    AllSame(s.workers, Stopped);
    CountAtMost(s.inq, Break);
    CountAtMost(HeldJobs(s.workers), None);
    forall j: nat ensures multiset(ReportedJobs(s.collected))[j] == if j < |c.jobs| then 1 else 0 {
      assert Copies(c, s, j) == if j < |c.jobs| then 1 else 0;
      if multiset(HeldJobs(s.workers))[Some(j)] > 0 {
        CountedMember(HeldJobs(s.workers), Some(j));
      }
    }
  }

  // ---------- termination

  function WorkerRank(w: Worker): nat {
    match w
    case Took(_) => 4
    case Running(_) => 3
    case Ready(_) => 2
    case _ => 0
  }

  function WorkersRank(ws: seq<Worker>): nat {
    if ws == [] then 0 else WorkerRank(ws[0]) + WorkersRank(ws[1..])
  }

  /** How many steps, interrupts aside, the system can still make. */
  function Rank(c: Config, s: State): int {
    6 * (|c.jobs| - s.dispatched)
    + 5 * |s.inq| - 4 * multiset(s.inq)[Break]
    + WorkersRank(s.workers)
    + |s.outq|
    + 2 * (c.processors - s.breaks)
    + (c.processors - s.joined)
  }

  lemma {:induction false} WorkersRankUpdate(ws: seq<Worker>, w: nat, worker: Worker)
    requires w < |ws|
    ensures WorkersRank(ws[w := worker]) == WorkersRank(ws) - WorkerRank(ws[w]) + WorkerRank(worker)
  {
    if w == 0 {
      assert ws[w := worker][1..] == ws[1..];
    } else {
      WorkersRankUpdate(ws[1..], w - 1, worker);
      assert ws[w := worker][1..] == ws[1..][w-1 := worker];
    }
  }

  lemma RankNonNegative(c: Config, s: State)
    requires Inv(c, s)
    ensures Rank(c, s) >= 0
  {
    CountAtMost(s.inq, Break);
  }

  lemma StepLowersRank(c: Config, s: State, step: Step)
    requires Enabled(c, s, step)
    ensures Rank(c, Apply(c, s, step)) <= Rank(c, s) - One(step != Interrupt)
  {
    match step
    case Dispatch => CountAppend(s.inq, Work(s.dispatched), Break);
    case SendBreak => CountAppend(s.inq, Break, Break);
    case Collect =>
    case Join =>
    case Get(w) =>
      CountTail(s.inq, Break);
      WorkersRankUpdate(s.workers, w, Apply(c, s, step).workers[w]);
    case Check(w) => WorkersRankUpdate(s.workers, w, Apply(c, s, step).workers[w]);
    case Run(w) => WorkersRankUpdate(s.workers, w, Apply(c, s, step).workers[w]);
    case Put(w) => WorkersRankUpdate(s.workers, w, Waiting);
    case Interrupt =>
  }

  lemma FirstRank(c: Config)
    ensures Rank(c, Init(c)) <= 6 * |c.jobs| + 3 * c.processors
  {
    WaitingRank(Init(c).workers);
  }

  lemma {:induction false} RunRank(c: Config, steps: seq<Step>, s: State)
    requires RunsTo(c, Init(c), steps, s)
    ensures |steps| - multiset(steps)[Interrupt] + Rank(c, s) <= 6 * |c.jobs| + 3 * c.processors
    decreases |steps|
  {
    if steps == [] {
      FirstRank(c);
    } else {
      var front, last := steps[..|steps|-1], steps[|steps|-1];
      var m :| RunsTo(c, Init(c), front, m) && StepsTo(c, m, last, s);
      RunRank(c, front, m);
      StepLowersRank(c, m, last);
      InterruptsMore(steps, front, last);
    }
  }

  lemma InterruptsMore(steps: seq<Step>, front: seq<Step>, last: Step)
    requires steps != [] && front == steps[..|steps|-1] && last == steps[|steps|-1]
    ensures multiset(steps)[Interrupt] == multiset(front)[Interrupt] + One(last == Interrupt)
  {
    assert steps == front + [last];
    CountAppend(front, last, Interrupt);
  }

  /** Every run, however scheduled, makes at most 6 steps per job and 3 per worker, interrupts aside. */
  lemma RunsAreShort(c: Config, steps: seq<Step>, s: State)
    requires RunsTo(c, Init(c), steps, s)
    ensures |steps| - multiset(steps)[Interrupt] <= 6 * |c.jobs| + 3 * c.processors
  {
    RunInv(c, steps, s);
    RankNonNegative(c, s);
    RunRank(c, steps, s);
  }

  lemma {:induction false} WaitingRank(ws: seq<Worker>)
    requires forall w :: 0 <= w < |ws| ==> ws[w] == Waiting
    ensures WorkersRank(ws) == 0
  {
    if ws != [] {
      WaitingRank(ws[1..]);
    }
  }

  // ---------- exactly when the system is free of deadlock

  ghost predicate NothingReported(s: State) {
    s.workers == [] && s.outq == [] && s.collected == []
  }

  lemma StepReportsNothing(c: Config, s: State, step: Step)
    requires NothingReported(s) && Enabled(c, s, step)
    ensures NothingReported(Apply(c, s, step))
  {
  }

  lemma {:induction false} NoWorkersNoReports(c: Config, steps: seq<Step>, s: State)
    requires c.processors == 0 && RunsTo(c, Init(c), steps, s)
    ensures NothingReported(s)
    decreases |steps|
  {
    if steps != [] {
      var n := |steps| - 1;
      var m :| RunsTo(c, Init(c), steps[..n], m) && StepsTo(c, m, steps[n], s);
      NoWorkersNoReports(c, steps[..n], m);
      StepReportsNothing(c, m, steps[n]);
    }
  }

  lemma {:induction false} DispatchRun(c: Config, k: nat) returns (steps: seq<Step>, s: State)
    requires k <= |c.jobs|
    ensures RunsTo(c, Init(c), steps, s) && s.dispatched == k && s.breaks == 0
  {
    if k == 0 {
      steps, s := [], Init(c);
    } else {
      var before, m := DispatchRun(c, k - 1);
      steps, s := before + [Dispatch], Apply(c, m, Dispatch);
      var last := steps[|steps|-1];
      assert steps[..|steps|-1] == before;
      assert RunsTo(c, Init(c), steps[..|steps|-1], m) && StepsTo(c, m, last, s);
    }
  }

  /** The system can always go on until it is finished if and only if it has a worker, or nothing to do. */
  lemma DeadlockFreeConfigIff(c: Config)
    ensures (forall s :: Reachable(c, s) && !Finished(c, s) ==> CanMove(c, s))
       <==> c.processors >= 1 || c.jobs == []
  {
    if c.processors >= 1 || c.jobs == [] {
      forall s | Reachable(c, s) && !Finished(c, s) ensures CanMove(c, s) {
        ReachableInv(c, s);
        NeverStuck(c, s);
      }
    } else {
      var steps, s := DispatchRun(c, |c.jobs|);
      NoWorkersNoReports(c, steps, s);
      assert Reachable(c, s) && !Finished(c, s);
      forall step | step != Interrupt ensures !Enabled(c, s, step) {}
      assert !CanMove(c, s);
    }
  }

  /** So with a processor online, what hangs a run that has jobs is a negative process limit. */
  lemma DeadlockFreeIff(jobs: seq<Job>, online: int, processLimit: int)
    ensures var c := Launch(jobs, online, processLimit);
            (forall s :: Reachable(c, s) && !Finished(c, s) ==> CanMove(c, s))
            <==> (online >= 1 && processLimit >= 0) || jobs == []
  {
    DeadlockFreeConfigIff(Launch(jobs, online, processLimit));
  }

  // ---------- an interrupt stops all work that has not begun

  predicate Begun(w: Worker, j: nat) {
    (w.Running? && w.job == j) || (w.Ready? && w.report.job == j && w.report.outcome != Interrupted)
  }

  /** No worker has begun job j, and no result of it exists but one that says it was cut off. */
  ghost predicate NotBegun(s: State, j: nat) {
    && (forall w :: 0 <= w < |s.workers| ==> !Begun(s.workers[w], j))
    && (forall i :: 0 <= i < |s.outq| && s.outq[i].job == j ==> s.outq[i].outcome == Interrupted)
    && (forall i :: 0 <= i < |s.collected| && s.collected[i].job == j ==> s.collected[i].outcome == Interrupted)
  }

  lemma StepNotBegun(c: Config, s: State, step: Step, j: nat)
    requires Enabled(c, s, step) && s.threadExit && NotBegun(s, j)
    ensures Apply(c, s, step).threadExit && NotBegun(Apply(c, s, step), j)
  {
    match step
    case Run(w) => assert !Begun(s.workers[w], j);
    case Put(w) => assert !Begun(s.workers[w], j);
    case _ =>
  }

  /** Once the interrupt flag is set, a job that no worker has begun is never begun in any continuation. */
  lemma {:induction false} InterruptStopsWork(c: Config, s: State, steps: seq<Step>, s': State, j: nat)
    requires s.threadExit && NotBegun(s, j) && RunsTo(c, s, steps, s')
    ensures s'.threadExit && NotBegun(s', j)
    decreases |steps|
  {
    if steps != [] {
      var front, last := steps[..|steps|-1], steps[|steps|-1];
      var m :| RunsTo(c, s, front, m) && StepsTo(c, m, last, s');
      InterruptStopsWork(c, s, front, m, j);
      StepNotBegun(c, m, last, j);
    }
  }

  /** In the end such a job has come back once, as cut off. */
  lemma InterruptedComesBack(c: Config, s: State, steps: seq<Step>, s': State, j: nat)
    requires Reachable(c, s) && s.threadExit && NotBegun(s, j) && j < |c.jobs|
    requires RunsTo(c, s, steps, s') && Finished(c, s')
    ensures multiset(s'.collected)[Report(j, Interrupted)] == 1
    ensures forall i :: 0 <= i < |s'.collected| && s'.collected[i].job == j ==> s'.collected[i].outcome == Interrupted
  {
    ReachableInv(c, s);
    RunKeepsInv(c, s, steps, s');
    FinishedIsClean(c, s');
    InterruptStopsWork(c, s, steps, s', j);
    OneReport(s'.collected, j);
  }

  lemma {:induction false} OneReport(rs: seq<Report>, j: nat)
    requires forall i :: 0 <= i < |rs| && rs[i].job == j ==> rs[i].outcome == Interrupted
    ensures multiset(rs)[Report(j, Interrupted)] == multiset(ReportedJobs(rs))[j]
  {
    if rs != [] {
      OneReport(rs[1..], j);
      CountTail(rs, Report(j, Interrupted));
      ReportedTail(rs, j);
    }
  }
}
