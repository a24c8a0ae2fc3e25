/**
 test.py: in which order the worker threads get the jobs and the main thread their results. Both queues are first
 in, first out.
 */
module TestOrder {
  import opened Basics
  import opened TestScheduler

  /** The jobs among some tokens, in order. */
  ghost function QueuedJobs(tokens: seq<Token>): seq<nat> {
    if tokens == [] then []
    else
      match tokens[0]
      case Work(j) => [j] + QueuedJobs(tokens[1..])
      case Break => QueuedJobs(tokens[1..])
  }

  /** The numbers from a up to b. */
  ghost function Range(a: nat, b: nat): seq<nat>
    requires a <= b
  {
    seq(b - a, i requires 0 <= i < b - a => a + i)
  }

  lemma {:induction false} QueuedMore(tokens: seq<Token>, t: Token)
    ensures QueuedJobs(tokens + [t]) == QueuedJobs(tokens) + if t.Work? then [t.job] else []
  {
    if tokens == [] {
      assert tokens + [t] == [t] && [t][1..] == [];
    } else {
      assert (tokens + [t])[1..] == tokens[1..] + [t];
      QueuedMore(tokens[1..], t);
    }
  }

  /** The input queue holds the jobs dispatched last, in the order of dispatch; all others have been taken. */
  ghost predicate LatestQueued(s: State) {
    var q := QueuedJobs(s.inq);
    |q| <= s.dispatched && q == Range(s.dispatched - |q|, s.dispatched)
  }

  lemma RangeMore(a: nat, b: nat)
    requires a <= b
    ensures Range(a, b + 1) == Range(a, b) + [b]
  {
  }

  lemma RangeTail(a: nat, b: nat)
    requires a < b
    ensures Range(a, b)[0] == a && Range(a, b)[1..] == Range(a + 1, b)
  {
  }

  lemma StepKeepsQueue(c: Config, s: State, step: Step)
    requires LatestQueued(s) && Enabled(c, s, step)
    ensures LatestQueued(Apply(c, s, step))
  {
    var n, k := s.dispatched, |QueuedJobs(s.inq)|;
    match step
    case Dispatch =>
      QueuedMore(s.inq, Work(n));
      RangeMore(n - k, n);
    case SendBreak =>
      QueuedMore(s.inq, Break);
    case Get(w) =>
      if s.inq[0].Work? {
        RangeTail(n - k, n);
      }
    case _ =>
  }

  lemma {:induction false} RunKeepsQueue(c: Config, s: State, steps: seq<Step>, s': State)
    requires LatestQueued(s) && RunsTo(c, s, steps, s')
    ensures LatestQueued(s')
    decreases |steps|
  {
    if steps != [] {
      var front, last := steps[..|steps|-1], steps[|steps|-1];
      var m :| RunsTo(c, s, front, m) && StepsTo(c, m, last, s');
      RunKeepsQueue(c, s, front, m);
      StepKeepsQueue(c, m, last);
    }
  }

  /** Jobs are taken in the order in which they were dispatched: a worker that takes one takes the first that has
      not been taken. */
  lemma TakenInOrder(c: Config, s: State, w: nat)
    requires Reachable(c, s) && Enabled(c, s, Get(w)) && s.inq[0].Work?
    ensures s.inq[0].job < s.dispatched
    ensures forall j: nat :: Work(j) in s.inq <==> s.inq[0].job <= j < s.dispatched
  {
    var steps :| RunsTo(c, Init(c), steps, s);
    RunKeepsQueue(c, Init(c), steps, s);
    var q := QueuedJobs(s.inq);
    assert q[0] == s.inq[0].job;
    forall j: nat ensures Work(j) in s.inq <==> j in q {
      QueuedMember(s.inq, j);
    }
    forall j: nat ensures j in q <==> s.inq[0].job <= j < s.dispatched {
      if s.inq[0].job <= j < s.dispatched {
        assert q[j-q[0]] == j;
      }
    }
  }

  lemma {:induction false} QueuedMember(tokens: seq<Token>, j: nat)
    ensures Work(j) in tokens <==> j in QueuedJobs(tokens)
  {
    if tokens != [] {
      QueuedMember(tokens[1..], j);
      assert tokens == [tokens[0]] + tokens[1..];
    }
  }

  // ---------- one worker

  ghost function Held(w: Worker): seq<nat> {
    match JobHeld(w)
    case None => []
    case Some(j) => [j]
  }

  /** All jobs dispatched, from the one collected first to the one queued last. */
  ghost function InLine(s: State): seq<nat>
    requires |s.workers| == 1
  {
    ReportedJobs(s.collected) + (ReportedJobs(s.outq) + (Held(s.workers[0]) + QueuedJobs(s.inq)))
  }

  ghost predicate Lined(s: State) {
    |s.workers| == 1 && InLine(s) == Range(0, s.dispatched)
  }

  lemma Shift(a: seq<nat>, x: seq<nat>, b: seq<nat>)
    ensures (a + x) + b == a + (x + b)
  {
  }

  lemma LastInLine(done: seq<nat>, out: seq<nat>, held: seq<nat>, queued: seq<nat>, x: seq<nat>)
    ensures (done + (out + (held + queued))) + x == done + (out + (held + (queued + x)))
  {
    Shift(held, queued, x);
    Shift(out, held + queued, x);
    Shift(done, out + (held + queued), x);
  }

  lemma CollectKeepsLine(collected: seq<Report>, outq: seq<Report>, rest: seq<nat>)
    requires outq != []
    ensures ReportedJobs(collected + [outq[0]]) + (ReportedJobs(outq[1..]) + rest)
         == ReportedJobs(collected) + (ReportedJobs(outq) + rest)
  {
    MapAppend((r: Report) => r.job, collected, outq[0]);
    MapTail((r: Report) => r.job, outq);
    Shift(ReportedJobs(collected), [outq[0].job], ReportedJobs(outq[1..]) + rest);
    Shift([outq[0].job], ReportedJobs(outq[1..]), rest);
  }

  lemma StepKeepsLine(c: Config, s: State, step: Step)
    requires Lined(s) && Enabled(c, s, step)
    ensures Lined(Apply(c, s, step))
  {
    var done, out := ReportedJobs(s.collected), ReportedJobs(s.outq);
    var held, queued := Held(s.workers[0]), QueuedJobs(s.inq);
    match step
    case Dispatch =>
      QueuedMore(s.inq, Work(s.dispatched));
      RangeMore(0, s.dispatched);
      LastInLine(done, out, held, queued, [s.dispatched]);
    case SendBreak =>
      QueuedMore(s.inq, Break);
    case Collect =>
      CollectKeepsLine(s.collected, s.outq, held + queued);
    case Put(w) =>
      MapAppend((r: Report) => r.job, s.outq, s.workers[w].report);
      Shift(out, [s.workers[w].report.job], queued);
    case _ =>
  }

  lemma {:induction false} RunKeepsLine(c: Config, s: State, steps: seq<Step>, s': State)
    requires Lined(s) && RunsTo(c, s, steps, s')
    ensures Lined(s')
    decreases |steps|
  {
    if steps != [] {
      var front, last := steps[..|steps|-1], steps[|steps|-1];
      var m :| RunsTo(c, s, front, m) && StepsTo(c, m, last, s');
      RunKeepsLine(c, s, front, m);
      StepKeepsLine(c, m, last);
    }
  }

  /** With one worker, results are collected in the order in which the jobs were dispatched. */
  lemma OneWorkerKeepsOrder(c: Config, s: State, i: nat)
    requires c.processors == 1 && Reachable(c, s) && i < |s.collected|
    ensures s.collected[i].job == i
  {
    var steps :| RunsTo(c, Init(c), steps, s);
    RunKeepsLine(c, Init(c), steps, s);
    assert InLine(s)[i] == ReportedJobs(s.collected)[i];
  }

  // ---------- how many workers

  /** As many workers as processors are online; fewer if the user asks for fewer, and none for a negative number. */
  lemma WorkersStarted(jobs: seq<Job>, online: int, processLimit: int)
    ensures var started := |Init(Launch(jobs, online, processLimit)).workers|;
            && (processLimit == 0 || 0 <= online < processLimit ==> started == if online < 0 then 0 else online)
            && (0 < processLimit <= online ==> started == processLimit)
            && (processLimit < 0 <= online ==> started == 0)
            && (online <= 0 ==> started == 0)
  {
  }
}
