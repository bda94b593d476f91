/** The loader makes progress: nothing deadlocks, and without new calls every schedule comes to
    an end, with every caller returned and every worker gone. */
module LoaderProgress {
  import opened Loader

  // ---- somebody can always go on ----

  /** Every caller has returned and every worker has exited. */
  predicate Quiet(s: System) {
    && (forall c | 0 <= c < |s.callers| :: s.callers[c].Returned?)
    && (forall w | 0 <= w < |s.workers| :: s.workers[w].at.Exited?)
  }

  lemma LiveWorkerCanStep(s: System, w: nat)
    requires Inv(s) && w < |s.workers| && !s.workers[w].at.Exited?
    ensures WorkerEnabled(s, w)
  {
    var me := s.workers[w];
    assert WorkerInv(s, me);
    if me.at.Loading? {
      assert Holds(me, me.at.i);
    }
  }

  /** Exactly the quiet states have no step but a new call. */
  lemma OnlyQuietStops(s: System, steps: seq<Step>, t: System)
    requires Initial(s) && Runs(s, steps, t)
    ensures Quiet(t) <==> !(exists a: Step :: !a.Call? && Enabled(t, a))
  {
    InitialInv(s);
    RunKeepsInv(s, steps, t);
    if w: nat :| w < |t.workers| && !t.workers[w].at.Exited? {
      LiveWorkerCanStep(t, w);
      assert Enabled(t, WorkerStep(w));
    } else if t.holder != -1 {
      assert InControl(t.callers[t.holder]);
      assert Enabled(t, CallerStep(t.holder, 0));
    } else if c: nat :| c < |t.callers| && !t.callers[c].Returned? {
      assert !InControl(t.callers[c]);
      assert Enabled(t, CallerStep(c, 0));
    }
  }

  // ---- what is left to do ----

  /** The stages a caller has before it. */
  function StagesLeft(a: Caller): nat {
    match a
    case Scanned(_) => 9
    case Cancelling(_) => 8
    case Joining(_, _) => 7
    case Swapping(_) => 6
    case Announcing => 5
    case ReadingPaths => 4
    case ClearingCancel(_) => 3
    case ResettingIndex(_) => 2
    case Spawning(_, _) => 1
    case Returned => 0
  }

  function Stages(callers: seq<Caller>): nat {
    if callers == [] then 0 else StagesLeft(callers[0]) + Stages(callers[1..])
  }

  /** Workers the controlling caller has yet to join, or to start. */
  ghost function Rounds(s: System): int
    requires ControlInv(s)
  {
    match Controller(s)
    case Joining(_, k) => |s.workers| - k
    case Spawning(_, left) => left
    case _ => 0
  }

  /** The steps before a worker claims again, when it is not cancelled. */
  function StepsLeft(at: Place): nat {
    match at
    case Claiming => 1
    case FirstCheck(_) => 6
    case Loading(_) => 5
    case SecondCheck(_, _) => 4
    case Storing(_, _) => 3
    case Counting => 2
    case Exited => 0
  }

  function StepsOf(workers: seq<Worker>): nat {
    if workers == [] then 0 else StepsLeft(workers[0].at) + StepsOf(workers[1..])
  }

  function Unclaimed(s: System): nat {
    if s.nextAlbum < |s.paths| then |s.paths| - s.nextAlbum else 0
  }

  function WorkLeft(s: System): nat {
    StepsOf(s.workers) + 7 * Unclaimed(s)
  }

  lemma {:induction false} StagesUpdate(callers: seq<Caller>, c: nat, a: Caller)
    requires c < |callers|
    ensures Stages(callers[c := a]) == Stages(callers) - StagesLeft(callers[c]) + StagesLeft(a)
  {
    if c == 0 {
      assert callers[c := a][1..] == callers[1..];
    } else {
      StagesUpdate(callers[1..], c - 1, a);
      assert callers[c := a][1..] == callers[1..][c - 1 := a];
    }
  }

  lemma {:induction false} StepsUpdate(workers: seq<Worker>, w: nat, v: Worker)
    requires w < |workers|
    ensures StepsOf(workers[w := v]) == StepsOf(workers) - StepsLeft(workers[w].at) + StepsLeft(v.at)
  {
    if w == 0 {
      assert workers[w := v][1..] == workers[1..];
    } else {
      StepsUpdate(workers[1..], w - 1, v);
      assert workers[w := v][1..] == workers[1..][w - 1 := v];
    }
  }

  lemma WorkGoesDown(s: System, w: nat)
    requires WorkerEnabled(s, w) && s.workers[w].shared == s.paths
    ensures WorkLeft(WorkerNext(s, w)) < WorkLeft(s)
  {
    var t := WorkerNext(s, w);
    StepsUpdate(s.workers, w, t.workers[w]);
  }

  /** A worker's step leaves less work, and the callers where they were. */
  lemma WorkerWorks(s: System, w: nat)
    requires Inv(s) && WorkerEnabled(s, w)
    ensures var t := WorkerNext(s, w);
            Inv(t) && t.callers == s.callers && Rounds(t) == Rounds(s) && WorkLeft(t) < WorkLeft(s)
  {
    LiveWorker(s, w);
    WorkerStepKeepsInv(s, w);
    WorkGoesDown(s, w);
    hide ProgressInv, VersionInv, LibraryInv, WorkersInv, StartedInv, WorkLeft, ControllerInv;
  }

  /** A caller's step takes it to a later stage, or through one more worker of this one. */
  lemma CallerAdvances(s: System, c: nat, hardware: nat)
    requires Inv(s) && CallerEnabled(s, c)
    ensures var t := CallerNext(s, c, hardware);
            Inv(t) && Rounds(s) >= 0
            && (Stages(t.callers) < Stages(s.callers)
                || (Stages(t.callers) == Stages(s.callers) && 0 <= Rounds(t) < Rounds(s)))
  {
    var t := CallerNext(s, c, hardware);
    CallerHasControl(s, c, hardware);
    StepKeepsInv(s, CallerStep(c, hardware));
    hide ProgressInv, VersionInv, LibraryInv, WorkersInv, StartedInv;
    StagesUpdate(s.callers, c, t.callers[c]);
  }

  // ---- every schedule ends ----

  /** The first n steps of a schedule. */
  function Prefix(schedule: nat -> Step, n: nat): (steps: seq<Step>)
    ensures |steps| == n
  {
    seq(n, i requires 0 <= i => schedule(i))
  }

  function Later(schedule: nat -> Step): nat -> Step {
    (i: nat) => schedule(i + 1)
  }

  /** The first n steps are possible, and the one after them is not. */
  ghost predicate EndsAfter(s: System, schedule: nat -> Step, n: nat) {
    exists t :: Runs(s, Prefix(schedule, n), t) && !Enabled(t, schedule(n))
  }

  lemma EndsLater(s: System, schedule: nat -> Step, n: nat)
    requires Enabled(s, schedule(0)) && EndsAfter(Next(s, schedule(0)), Later(schedule), n)
    ensures EndsAfter(s, schedule, n + 1)
  {
    var rest := Later(schedule);
    var t :| Runs(Next(s, schedule(0)), Prefix(rest, n), t) && !Enabled(t, rest(n));
    assert Prefix(schedule, n + 1)[1..] == Prefix(rest, n);
    assert Runs(s, Prefix(schedule, n + 1), t);
  }

  /** Without new calls, no schedule of callers and workers goes on for ever, fair or not. */
  lemma {:induction false} EveryScheduleEnds(s: System, schedule: nat -> Step)
    requires Inv(s) && forall i: nat :: !schedule(i).Call?
    ensures exists n: nat :: EndsAfter(s, schedule, n)
    decreases Stages(s.callers), Rounds(s), WorkLeft(s)
  {
    hide Inv, WorkLeft, Stages, Rounds;
    var a := schedule(0);
    if !Enabled(s, a) {
      assert Runs(s, Prefix(schedule, 0), s);
      assert EndsAfter(s, schedule, 0);
    } else {
      match a {
        case CallerStep(c, hardware) => CallerAdvances(s, c, hardware);
        case WorkerStep(w) => WorkerWorks(s, w);
      }
      var rest := Later(schedule);
      EveryScheduleEnds(Next(s, a), rest);
      var n: nat :| EndsAfter(Next(s, a), rest, n);
      EndsLater(s, schedule, n);
    }
  }

  /** In every run: whatever the calls so far, without new ones the system comes to rest. */
  lemma ComesToRest(s: System, steps: seq<Step>, t: System, schedule: nat -> Step)
    requires Initial(s) && Runs(s, steps, t) && forall i: nat :: !schedule(i).Call?
    ensures exists n: nat :: EndsAfter(t, schedule, n)
  {
    InitialInv(s);
    RunKeepsInv(s, steps, t);
    EveryScheduleEnds(t, schedule);
  }

  // ---- joining the workers of a cancelled load ----

  /** The steps of a cancelled worker before it exits, at most. */
  function CancelledSteps(at: Place): (n: nat)
    ensures n <= 4
  {
    match at
    case Claiming => 2
    case FirstCheck(_) => 1
    case Loading(_) => 2
    case SecondCheck(_, _) => 1
    case Storing(_, _) => 4
    case Counting => 3
    case Exited => 0
  }

  function CancelledStepsOf(workers: seq<Worker>): (n: nat)
    ensures n <= 4 * |workers|
  {
    if workers == [] then 0 else CancelledSteps(workers[0].at) + CancelledStepsOf(workers[1..])
  }

  lemma {:induction false} CancelledUpdate(workers: seq<Worker>, w: nat, v: Worker)
    requires w < |workers|
    ensures CancelledStepsOf(workers[w := v])
         == CancelledStepsOf(workers) - CancelledSteps(workers[w].at) + CancelledSteps(v.at)
  {
    if w == 0 {
      assert workers[w := v][1..] == workers[1..];
    } else {
      CancelledUpdate(workers[1..], w - 1, v);
      assert workers[w := v][1..] == workers[1..][w - 1 := v];
    }
  }

  ghost predicate IsJoining(s: System) {
    ControlInv(s) && Controller(s).Joining?
  }

  ghost predicate HasJoined(s: System) {
    ControlInv(s) && Controller(s).Swapping?
  }

  ghost function JoinWork(s: System): int
    requires ControlInv(s)
  {
    CancelledStepsOf(s.workers) + Rounds(s) + 1
  }

  lemma JoinWorkBound(s: System)
    requires Inv(s) && IsJoining(s)
    ensures 1 <= JoinWork(s) <= 5 * |s.workers| + 1
  {
  }

  lemma CancelledWorkerLeaves(s: System, w: nat)
    requires WorkerEnabled(s, w) && s.cancel
    ensures CancelledStepsOf(WorkerNext(s, w).workers) < CancelledStepsOf(s.workers)
  {
    var t := WorkerNext(s, w);
    CancelledUpdate(s.workers, w, t.workers[w]);
  }

  /** While a caller joins, every step brings the end of the joining nearer. */
  lemma JoiningStep(s: System, a: Step)
    requires Inv(s) && IsJoining(s) && Enabled(s, a) && !a.Call?
    ensures var t := Next(s, a);
            Inv(t) && (HasJoined(t) || (IsJoining(t) && JoinWork(t) < JoinWork(s)))
  {
    StepKeepsInv(s, a);
    if a.WorkerStep? {
      WorkerWorks(s, a.w);
      CancelledWorkerLeaves(s, a.w);
    } else {
      CallerHasControl(s, a.c, a.hardware);
    }
  }

  ghost predicate JoinedAfter(s: System, steps: seq<Step>) {
    exists t :: Runs(s, steps, t) && HasJoined(t)
  }

  /** Cancelled workers are joined within a bounded number of steps, at most five for each. */
  lemma {:induction false} JoiningEnds(s: System, steps: seq<Step>, t: System)
    requires Inv(s) && IsJoining(s) && Runs(s, steps, t) && |steps| >= JoinWork(s)
    requires forall a | a in steps :: !a.Call?
    ensures exists i | 0 <= i <= |steps| :: JoinedAfter(s, steps[..i])
    decreases |steps|
  {
    JoinWorkBound(s);
    hide Inv, Rounds;
    var a, rest := steps[0], steps[1..];
    var u := Next(s, a);
    assert a in steps;
    JoiningStep(s, a);
    var i := 0;
    if HasJoined(u) {
      assert Runs(u, [], u);
    } else {
      assert forall x | x in rest :: x in steps;
      JoiningEnds(u, rest, t);
      i :| 0 <= i <= |rest| && JoinedAfter(u, rest[..i]);
    }
    assert JoinedAfter(u, rest[..i]);
    var v :| Runs(u, rest[..i], v) && HasJoined(v);
    assert steps[..i + 1][1..] == rest[..i];
    assert Runs(s, steps[..i + 1], v);
    assert JoinedAfter(s, steps[..i + 1]);
  }
}
