/** The dispatcher, the worker processes, their two shared queues and the shutdown sentinels of
    py/gen_wavetables/multiproc.py, as a state machine whose steps interleave freely. */
module WorkerPool {

  datatype Option<T> = None | Some(value: T)

  /** A worker between two messages, running the user function on a task, about to send the result,
      or ended. */
  datatype Worker = Idle | Running(task: nat) | Finished(task: nat) | Stopped

  /** Where the main process is: distributing tasks, sending sentinels, joining workers, done. */
  datatype Phase = Dispatching | Stopping(sent: nat) | Joining(joined: nat) | Returned

  /** A task argument of None reads as a sentinel at the other end of the queue. */
  datatype Config = Config(isNone: seq<bool>, processN: nat) {
    function TaskN(): nat { |isNone| }
  }

  datatype State = State(
    phase: Phase,
    nextSrcIdx: nat,
    pendingN: int,
    resultL: seq<nat>,              // the tasks whose results were collected, in that order
    inQ: seq<Option<nat>>,          // task indexes; None is a None task or a sentinel
    outQ: seq<nat>,                 // the tasks whose results wait to be collected
    workers: seq<Worker>)

  datatype Step =
    | Send | Receive | EndDispatch | SendSentinel | EndStopping | Join | EndJoining
    | Take(w: nat) | Run(w: nat) | Put(w: nat)
    | Sleep

  function Init(c: Config): State {
    State(Dispatching, 0, 0, [], [], [], seq(c.processN, _ => Idle))
  }

  /** A further task may be sent: a process is free for it. */
  predicate MaySend(c: Config, s: State) { s.pendingN < c.processN && s.nextSrcIdx < c.TaskN() }

  predicate Enabled(c: Config, s: State, step: Step) {
    match step
    case Send => s.phase.Dispatching? && |s.resultL| < c.TaskN() && MaySend(c, s)
    case Receive => s.phase.Dispatching? && |s.resultL| < c.TaskN() && !MaySend(c, s) && s.outQ != []
    case EndDispatch => s.phase.Dispatching? && |s.resultL| >= c.TaskN()
    case SendSentinel => s.phase.Stopping? && s.phase.sent < c.processN
    case EndStopping => s.phase.Stopping? && s.phase.sent >= c.processN
    case Join => s.phase.Joining? && s.phase.joined < |s.workers| && s.workers[s.phase.joined].Stopped?
    case EndJoining => s.phase.Joining? && s.phase.joined >= c.processN
    case Take(w) => w < |s.workers| && s.workers[w].Idle? && s.inQ != []
    case Run(w) => w < |s.workers| && s.workers[w].Running?
    case Put(w) => w < |s.workers| && s.workers[w].Finished?
    case Sleep => true
  }

  function Apply(c: Config, s: State, step: Step): State
    requires Enabled(c, s, step)
  {
    match step
    case Send =>
      var m := if c.isNone[s.nextSrcIdx] then None else Some(s.nextSrcIdx);
      s.(inQ := s.inQ + [m], nextSrcIdx := s.nextSrcIdx + 1, pendingN := s.pendingN + 1)
    case Receive =>
      s.(outQ := s.outQ[1..], resultL := s.resultL + [s.outQ[0]], pendingN := s.pendingN - 1)
    case EndDispatch => s.(phase := Stopping(0))
    case SendSentinel => s.(inQ := s.inQ + [None], phase := Stopping(s.phase.sent + 1))
    case EndStopping => s.(phase := Joining(0))
    case Join => s.(phase := Joining(s.phase.joined + 1))
    case EndJoining => s.(phase := Returned)
    case Take(w) =>
      var m := s.inQ[0];
      s.(inQ := s.inQ[1..], workers := s.workers[w := if m.None? then Stopped else Running(m.value)])
    case Run(w) => s.(workers := s.workers[w := Finished(s.workers[w].task)])
    case Put(w) => s.(outQ := s.outQ + [s.workers[w].task], workers := s.workers[w := Idle])
    case Sleep => s
  }

  /** The states that some interleaving reaches. */
  ghost predicate IsRun(c: Config, steps: seq<Step>, states: seq<State>) {
    && |states| == |steps| + 1 && states[0] == Init(c)
    && forall i :: 0 <= i < |steps| ==>
         Enabled(c, states[i], steps[i]) && states[i + 1] == Apply(c, states[i], steps[i])
  }

  // ----------------------------------------------------------------- where the tasks are

  function B(b: bool): nat { if b then 1 else 0 }

  /** How often task t waits in the task queue. */
  function InQueue(q: seq<Option<nat>>, t: nat): nat {
    if q == [] then 0 else B(q[0] == Some(t)) + InQueue(q[1..], t)
  }

  function Nones(q: seq<Option<nat>>): nat { if q == [] then 0 else B(q[0].None?) + Nones(q[1..]) }

  predicate Holds(w: Worker, t: nat) { w == Running(t) || w == Finished(t) }

  /** How many workers hold task t. */
  function Held(ws: seq<Worker>, t: nat): nat { if ws == [] then 0 else B(Holds(ws[0], t)) + Held(ws[1..], t) }

  function CountStopped(ws: seq<Worker>): nat {
    if ws == [] then 0 else B(ws[0].Stopped?) + CountStopped(ws[1..])
  }

  function CountBusy(ws: seq<Worker>): nat {
    if ws == [] then 0 else B(ws[0].Running? || ws[0].Finished?) + CountBusy(ws[1..])
  }

  function Occurs(s: seq<nat>, t: nat): nat { if s == [] then 0 else B(s[0] == t) + Occurs(s[1..], t) }

  /** The number of tasks among the first k that are not None. */
  function TaskCount(c: Config, k: nat): nat
    requires k <= c.TaskN()
  {
    if k == 0 then 0 else B(!c.isNone[k - 1]) + TaskCount(c, k - 1)
  }

  lemma {:induction false} QueueAppend(q: seq<Option<nat>>, m: Option<nat>, t: nat)
    ensures InQueue(q + [m], t) == InQueue(q, t) + B(m == Some(t))
    ensures Nones(q + [m]) == Nones(q) + B(m.None?)
  {
    if q == [] {
      assert q + [m] == [m];
    } else {
      assert (q + [m])[1..] == q[1..] + [m];
      QueueAppend(q[1..], m, t);
    }
  }

  lemma {:induction false} OccursAppend(s: seq<nat>, x: nat, t: nat)
    ensures Occurs(s + [x], t) == Occurs(s, t) + B(x == t)
  {
    if s == [] {
      assert s + [x] == [x];
    } else {
      assert (s + [x])[1..] == s[1..] + [x];
      OccursAppend(s[1..], x, t);
    }
  }

  lemma {:induction false} WorkerChanges(ws: seq<Worker>, w: nat, x: Worker, t: nat)
    requires w < |ws|
    ensures Held(ws[w := x], t) + B(Holds(ws[w], t)) == Held(ws, t) + B(Holds(x, t))
    ensures CountStopped(ws[w := x]) + B(ws[w].Stopped?) == CountStopped(ws) + B(x.Stopped?)
    ensures CountBusy(ws[w := x]) + B(ws[w].Running? || ws[w].Finished?)
            == CountBusy(ws) + B(x.Running? || x.Finished?)
  {
    if w == 0 {
      assert ws[w := x][1..] == ws[1..];
    } else {
      assert ws[w := x][1..] == ws[1..][w - 1 := x];
      WorkerChanges(ws[1..], w - 1, x, t);
    }
  }

  /** In how many places task t is. */
  function Places(s: State, t: nat): nat {
    InQueue(s.inQ, t) + Held(s.workers, t) + Occurs(s.outQ, t) + Occurs(s.resultL, t)
  }

  /** How many tasks there are in all places together. */
  function Total(s: State): int {
    |s.inQ| - Nones(s.inQ) + CountBusy(s.workers) + |s.outQ| + |s.resultL|
  }

  /** Every task sent is in exactly one place: in the task queue, held by a worker, in the result
      queue, or collected. And the pending count is what was sent less what was collected. */
  ghost predicate Conserved(c: Config, s: State) {
    && s.nextSrcIdx <= c.TaskN() && |s.workers| == c.processN
    && (forall t: nat :: Places(s, t) == B(t < s.nextSrcIdx && !c.isNone[t]))
    && Total(s) == TaskCount(c, s.nextSrcIdx)
    && s.pendingN == s.nextSrcIdx - |s.resultL| && s.pendingN <= c.processN
    && (!s.phase.Dispatching? ==> |s.resultL| >= c.TaskN())
  }

  lemma {:induction false} IdleWorkers(n: nat, t: nat)
    ensures var ws := seq(n, _ => Idle); Held(ws, t) == 0 && CountStopped(ws) == 0 && CountBusy(ws) == 0
  {
    if n > 0 {
      assert seq(n, _ => Idle)[1..] == seq(n - 1, _ => Idle);
      IdleWorkers(n - 1, t);
    }
  }

  lemma InitConserves(c: Config)
    ensures Conserved(c, Init(c))
  {
    forall t: nat ensures Places(Init(c), t) == 0 { IdleWorkers(c.processN, t); }
    IdleWorkers(c.processN, 0);
  }

  /** What a step does to the places of one task and to the total. */
  lemma StepPlaces(c: Config, s: State, step: Step, t: nat)
    requires Conserved(c, s) && Enabled(c, s, step)
    ensures var u := Apply(c, s, step);
            && Places(u, t) == Places(s, t) + B(step.Send? && t == s.nextSrcIdx && !c.isNone[t])
            && Total(u) == Total(s) + B(step.Send? && !c.isNone[s.nextSrcIdx])
  {
    var u := Apply(c, s, step);
    match step
    case Send => QueueAppend(s.inQ, u.inQ[|s.inQ|], t);
    case Receive => OccursAppend(s.resultL, s.outQ[0], t);
    case SendSentinel => QueueAppend(s.inQ, None, t);
    case Take(w) => WorkerChanges(s.workers, w, u.workers[w], t);
    case Run(w) => WorkerChanges(s.workers, w, u.workers[w], t);
    case Put(w) => WorkerChanges(s.workers, w, Idle, t); OccursAppend(s.outQ, s.workers[w].task, t);
    case _ =>
  }

  lemma StepConserves(c: Config, s: State, step: Step)
    requires Conserved(c, s) && Enabled(c, s, step)
    ensures Conserved(c, Apply(c, s, step))
  {
    var u := Apply(c, s, step);
    StepPlaces(c, s, step, 0);
    forall t: nat ensures Places(u, t) == B(t < u.nextSrcIdx && !c.isNone[t]) {
      StepPlaces(c, s, step, t);
    }
  }

  // ----------------------------------------------------------------- exactly once

  lemma {:induction false} InQueueBound(q: seq<Option<nat>>, t: nat)
    ensures InQueue(q, t) <= |q| - Nones(q)
  {
    if q != [] { InQueueBound(q[1..], t); }
  }

  lemma {:induction false} HeldBound(ws: seq<Worker>, t: nat)
    ensures Held(ws, t) <= CountBusy(ws) && CountBusy(ws) + CountStopped(ws) <= |ws|
  {
    if ws != [] { HeldBound(ws[1..], t); }
  }

  lemma {:induction false} OccursBound(s: seq<nat>, t: nat)
    ensures Occurs(s, t) <= |s|
  {
    if s != [] { OccursBound(s[1..], t); }
  }

  lemma {:induction false} TaskCountBound(c: Config, k: nat)
    requires k <= c.TaskN()
    ensures TaskCount(c, k) <= k
    ensures TaskCount(c, k) == k <==> forall t :: 0 <= t < k ==> !c.isNone[t]
  {
    if k > 0 { TaskCountBound(c, k - 1); }
  }

  predicate NoNoneTasks(c: Config) { forall t :: 0 <= t < c.TaskN() ==> !c.isNone[t] }

  /** When the distribution ends there is exactly one result per task, no task was None, and
      nothing is left in the queues or with a worker. */
  lemma DispatchedMeansDone(c: Config, s: State)
    requires Conserved(c, s) && !s.phase.Dispatching?
    ensures NoNoneTasks(c) && |s.resultL| == c.TaskN()
    ensures forall t: nat :: Occurs(s.resultL, t) == B(t < c.TaskN())
    ensures s.outQ == [] && |s.inQ| == Nones(s.inQ) && CountBusy(s.workers) == 0
  {
    var n := s.nextSrcIdx;
    InQueueBound(s.inQ, 0);
    TaskCountBound(c, n);
    if n < c.TaskN() { TaskCountBound(c, c.TaskN()); }
    assert |s.resultL| == n == c.TaskN();
    forall t: nat ensures Occurs(s.resultL, t) == B(t < c.TaskN()) {
      assert Places(s, t) == B(t < n && !c.isNone[t]);
      InQueueBound(s.inQ, t);
      HeldBound(s.workers, t);
      OccursBound(s.outQ, t);
    }
  }

  // ----------------------------------------------------------------- shutdown

  function SentinelsSent(c: Config, p: Phase): nat {
    match p
    case Dispatching => 0
    case Stopping(k) => k
    case _ => c.processN
  }

  /** Each sentinel sent either waits in the task queue or has ended one worker; before all results
      are collected there is none. */
  ghost predicate Ordered(c: Config, s: State) {
    && Conserved(c, s)
    && Nones(s.inQ) + CountStopped(s.workers) == SentinelsSent(c, s.phase) <= c.processN
    && (s.phase.Joining? ==>
          s.phase.joined <= c.processN && forall w :: 0 <= w < s.phase.joined ==> s.workers[w].Stopped?)
    && (s.phase.Returned? ==> forall w :: 0 <= w < c.processN ==> s.workers[w].Stopped?)
  }

  lemma InitIsOrdered(c: Config)
    ensures Ordered(c, Init(c))
  {
    InitConserves(c);
    IdleWorkers(c.processN, 0);
  }

  lemma StepKeepsOrder(c: Config, s: State, step: Step)
    requires NoNoneTasks(c) && Ordered(c, s) && Enabled(c, s, step)
    ensures Ordered(c, Apply(c, s, step))
  {
    var u := Apply(c, s, step);
    StepConserves(c, s, step);
    match step
    case Send => QueueAppend(s.inQ, u.inQ[|s.inQ|], 0);
    case SendSentinel => QueueAppend(s.inQ, None, 0);
    case Take(w) => WorkerChanges(s.workers, w, u.workers[w], 0);
    case Run(w) => WorkerChanges(s.workers, w, u.workers[w], 0);
    case Put(w) => WorkerChanges(s.workers, w, Idle, 0);
    case _ =>
  }

  lemma {:induction false} AllStopped(ws: seq<Worker>)
    requires forall w :: 0 <= w < |ws| ==> ws[w].Stopped?
    ensures CountStopped(ws) == |ws|
  {
    if ws != [] {
      assert forall w :: 0 <= w < |ws[1..]| ==> ws[1..][w] == ws[w + 1];
      AllStopped(ws[1..]);
    }
  }

  /** When the main process returns, every worker has ended, each on one sentinel, and both queues
      are empty. */
  lemma ReturnedMeansClean(c: Config, s: State)
    requires Ordered(c, s) && s.phase.Returned?
    ensures CountStopped(s.workers) == c.processN && s.inQ == [] && s.outQ == []
  {
    DispatchedMeansDone(c, s);
    AllStopped(s.workers);
  }

  // ----------------------------------------------------------------- progress

  function Work(ws: seq<Worker>): nat {
    if ws == [] then 0
    else (if ws[0].Running? then 3 else if ws[0].Finished? then 2 else 0) + Work(ws[1..])
  }

  lemma {:induction false} WorkChanges(ws: seq<Worker>, w: nat, x: Worker)
    requires w < |ws|
    ensures Work(ws[w := x]) + Work([ws[w]]) == Work(ws) + Work([x])
  {
    if w == 0 {
      assert ws[w := x][1..] == ws[1..];
    } else {
      assert ws[w := x][1..] == ws[1..][w - 1 := x];
      WorkChanges(ws[1..], w - 1, x);
    }
  }

  function PhaseWork(c: Config, p: Phase): int {
    match p
    case Dispatching => 3 * c.processN + 3
    case Stopping(k) => 3 * c.processN + 2 - 2 * k
    case Joining(i) => c.processN + 1 - i
    case Returned => 0
  }

  /** The stages that tasks, sentinels and the main process still have before them. */
  function Remaining(c: Config, s: State): int {
    6 * (c.TaskN() - s.nextSrcIdx) + 4 * |s.inQ| - 3 * Nones(s.inQ) + Work(s.workers) + |s.outQ| + PhaseWork(c, s.phase)
  }

  lemma {:induction false} NonesBound(q: seq<Option<nat>>)
    ensures Nones(q) <= |q|
  {
    if q != [] { NonesBound(q[1..]); }
  }

  lemma RemainingIsNat(c: Config, s: State)
    requires Ordered(c, s)
    ensures Remaining(c, s) >= 0
  {
    NonesBound(s.inQ);
  }

  /** Every step but sleeping brings the end closer. */
  lemma StepAdvances(c: Config, s: State, step: Step)
    requires Ordered(c, s) && Enabled(c, s, step) && !step.Sleep?
    ensures Remaining(c, Apply(c, s, step)) < Remaining(c, s)
  {
    var u := Apply(c, s, step);
    match step
    case Send => QueueAppend(s.inQ, u.inQ[|s.inQ|], 0);
    case SendSentinel => QueueAppend(s.inQ, None, 0);
    case Take(w) => WorkChanges(s.workers, w, u.workers[w]);
    case Run(w) => WorkChanges(s.workers, w, u.workers[w]);
    case Put(w) => WorkChanges(s.workers, w, Idle);
    case _ =>
  }

  lemma {:induction false} SomeBusy(ws: seq<Worker>) returns (w: nat)
    requires CountBusy(ws) > 0
    ensures w < |ws| && (ws[w].Running? || ws[w].Finished?)
  {
    if ws[0].Running? || ws[0].Finished? {
      w := 0;
    } else {
      w := SomeBusy(ws[1..]);
      w := w + 1;
    }
  }

  lemma {:induction false} NoneBusy(ws: seq<Worker>, w: nat)
    requires w < |ws| && CountBusy(ws) == 0
    ensures !ws[w].Running? && !ws[w].Finished? && (ws[w].Stopped? ==> CountStopped(ws) > 0)
    ensures !ws[w].Stopped? ==> CountStopped(ws) < |ws|
  {
    HeldBound(ws[1..], 0);
    if w > 0 { NoneBusy(ws[1..], w - 1); }
  }

  /** With a process and no None task, some step that is not sleeping is possible until the main
      process has returned. */
  lemma SomeStepIsEnabled(c: Config, s: State) returns (step: Step)
    requires c.processN >= 1 && NoNoneTasks(c) && Ordered(c, s) && !s.phase.Returned?
    ensures !step.Sleep? && Enabled(c, s, step)
  {
    match s.phase
    case Dispatching =>
      if |s.resultL| >= c.TaskN() {
        step := EndDispatch;
      } else if MaySend(c, s) {
        step := Send;
      } else if s.outQ != [] {
        step := Receive;
      } else {
        TaskCountBound(c, s.nextSrcIdx);
        step := WorkerStep(c, s);
      }
    case Stopping(k) => step := if k < c.processN then SendSentinel else EndStopping;
    case Joining(i) =>
      if i >= c.processN {
        step := EndJoining;
      } else if s.workers[i].Stopped? {
        step := Join;
      } else {
        DispatchedMeansDone(c, s);
        NoneBusy(s.workers, i);
        step := Take(i);
      }
  }

  lemma WorkerStep(c: Config, s: State) returns (step: Step)
    requires c.processN >= 1 && Ordered(c, s) && s.phase.Dispatching?
    requires |s.inQ| - Nones(s.inQ) + CountBusy(s.workers) > 0
    ensures !step.Sleep? && Enabled(c, s, step)
  {
    if CountBusy(s.workers) > 0 {
      var w := SomeBusy(s.workers);
      step := if s.workers[w].Running? then Run(w) else Put(w);
    } else {
      NoneBusy(s.workers, 0);
      step := Take(0);
    }
  }

  // ----------------------------------------------------------------- all runs

  function Steps(steps: seq<Step>): nat {
    if steps == [] then 0 else Steps(steps[..|steps| - 1]) + B(!steps[|steps| - 1].Sleep?)
  }

  lemma {:induction false} RunConserves(c: Config, steps: seq<Step>, states: seq<State>)
    requires IsRun(c, steps, states)
    ensures Conserved(c, states[|steps|])
  {
    if steps == [] {
      InitConserves(c);
    } else {
      var n := |steps| - 1;
      RunConserves(c, steps[..n], states[..n + 1]);
      StepConserves(c, states[n], steps[n]);
    }
  }

  /** Every run of a pool without None tasks shuts down in order, and takes no more steps, apart
      from sleeping, than the stages there were in the beginning. */
  lemma {:induction false} RunIsOrderly(c: Config, steps: seq<Step>, states: seq<State>)
    requires NoNoneTasks(c) && IsRun(c, steps, states)
    ensures var s := states[|steps|];
            Ordered(c, s) && 0 <= Remaining(c, s) <= Remaining(c, Init(c)) - Steps(steps)
  {
    if steps == [] {
      InitIsOrdered(c);
    } else {
      var n := |steps| - 1;
      RunIsOrderly(c, steps[..n], states[..n + 1]);
      StepKeepsOrder(c, states[n], steps[n]);
      if !steps[n].Sleep? { StepAdvances(c, states[n], steps[n]); }
    }
    RemainingIsNat(c, states[|steps|]);
  }

  /** With a process and no None task, every run that can only sleep has returned: whatever the order of
      the steps, it cannot stop before, and it takes at most Remaining(c, Init(c)) working steps. */
  lemma MaximalRunReturns(c: Config, steps: seq<Step>, states: seq<State>)
    requires c.processN >= 1 && NoNoneTasks(c) && IsRun(c, steps, states)
    ensures (forall step :: Enabled(c, states[|steps|], step) ==> step.Sleep?) <==> states[|steps|].phase.Returned?
    ensures Steps(steps) <= Remaining(c, Init(c))
  {
    var s := states[|steps|];
    RunIsOrderly(c, steps, states);
    if s.phase.Returned? {
      ReturnedMeansClean(c, s);
      forall step | Enabled(c, s, step) ensures step.Sleep? { OnlySleep(c, s, step); }
    } else {
      var step := SomeStepIsEnabled(c, s);
    }
  }

  lemma OnlySleep(c: Config, s: State, step: Step)
    requires Ordered(c, s) && s.phase.Returned? && Enabled(c, s, step)
    ensures step.Sleep?
  {
    DispatchedMeansDone(c, s);
  }

  ghost predicate CanReturn(c: Config) {
    exists steps: seq<Step>, states: seq<State> :: IsRun(c, steps, states) && states[|steps|].phase.Returned?
  }

  lemma {:induction false} Completion(c: Config, steps: seq<Step>, states: seq<State>)
    requires c.processN >= 1 && NoNoneTasks(c) && IsRun(c, steps, states)
    ensures CanReturn(c)
    decreases Remaining(c, Init(c)) - Steps(steps)
  {
    RunIsOrderly(c, steps, states);
    var s := states[|steps|];
    if !s.phase.Returned? {
      var step := SomeStepIsEnabled(c, s);
      var steps', states' := steps + [step], states + [Apply(c, s, step)];
      assert steps'[..|steps|] == steps;
      StepKeepsOrder(c, s, step);
      RunIsOrderly(c, steps', states');
      Completion(c, steps', states');
    }
  }

  /** Without a process nothing but sleeping is ever possible while there are tasks. */
  lemma {:induction false} NobodyWorks(c: Config, steps: seq<Step>, states: seq<State>)
    requires c.processN == 0 && c.TaskN() > 0 && IsRun(c, steps, states)
    ensures states[|steps|] == Init(c)
  {
    if steps != [] {
      var n := |steps| - 1;
      NobodyWorks(c, steps[..n], states[..n + 1]);
    }
  }

  /** The pool can finish exactly when there are no tasks, or there is a process and no task is
      None: a None task ends the worker that takes it, and its result never comes. */
  lemma CanReturnExactlyWhen(c: Config)
    ensures CanReturn(c) <==> c.TaskN() == 0 || (c.processN >= 1 && NoNoneTasks(c))
  {
    if CanReturn(c) && c.TaskN() > 0 {
      var steps: seq<Step>, states: seq<State> :| IsRun(c, steps, states) && states[|steps|].phase.Returned?;
      RunConserves(c, steps, states);
      DispatchedMeansDone(c, states[|steps|]);
      if c.processN == 0 { NobodyWorks(c, steps, states); }
    }
    if c.processN >= 1 && NoNoneTasks(c) {
      Completion(c, [], [Init(c)]);
    } else if c.TaskN() == 0 {
      NoTasks(c);
    }
  }

  lemma NoTasks(c: Config)
    requires c.TaskN() == 0 && c.processN == 0
    ensures CanReturn(c)
  {
    var s0 := Init(c);
    var steps := [EndDispatch, EndStopping, EndJoining];
    var s1 := Apply(c, s0, EndDispatch);
    var s2 := Apply(c, s1, EndStopping);
    assert IsRun(c, steps, [s0, s1, s2, Apply(c, s2, EndJoining)]);
  }
}
