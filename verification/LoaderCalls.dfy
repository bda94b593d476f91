/** What the callers of the loader get: the library of every call is swapped in, once, and when the
    system comes to rest the library of one of the calls is there, with every album loaded. */
module LoaderCalls {
  import opened Loader
  import opened LoaderProgress

  /** The libraries that were scanned for the calls of a run, in order. */
  function CallsOf(steps: seq<Step>): seq<seq<Path>> {
    if steps == [] then []
    else NewCall(steps[0]) + CallsOf(steps[1..])
  }

  /** The caller has swapped its library in. */
  predicate HasSwapped(a: Caller) {
    !a.Scanned? && !a.Cancelling? && !a.Joining? && !a.Swapping?
  }

  predicate BringsLibrary(a: Caller, library: seq<Path>) {
    match a
    case Scanned(l) => l == library
    case Cancelling(l) => l == library
    case Joining(l, _) => l == library
    case Swapping(l) => l == library
    case _ => true
  }

  function SwappedOf(callers: seq<Caller>): (n: nat)
    ensures n <= |callers|
  {
    if callers == [] then 0 else (if HasSwapped(callers[0]) then 1 else 0) + SwappedOf(callers[1..])
  }

  /** The current library is the one of a call that has swapped, and of the caller in control if
      that has swapped. */
  ghost predicate CurrentInv(s: System, calls: seq<seq<Path>>)
    requires |s.callers| == |calls| && ControlInv(s)
  {
    && (s.gen == 0 ==> s.paths == [])
    && (s.gen > 0 ==> exists c | 0 <= c < |calls| :: HasSwapped(s.callers[c]) && s.paths == calls[c])
    && (s.holder != -1 && HasSwapped(s.callers[s.holder]) ==> s.paths == calls[s.holder])
  }

  ghost predicate CallsInv(s: System, calls: seq<seq<Path>>) {
    && |s.callers| == |calls| && ControlInv(s)
    && (forall c | 0 <= c < |calls| :: BringsLibrary(s.callers[c], calls[c]))
    && s.gen == SwappedOf(s.callers)
    && CurrentInv(s, calls)
  }

  lemma {:induction false} SwappedUpdate(callers: seq<Caller>, c: nat, a: Caller)
    requires c < |callers|
    ensures SwappedOf(callers[c := a])
         == SwappedOf(callers) - (if HasSwapped(callers[c]) then 1 else 0) + (if HasSwapped(a) then 1 else 0)
  {
    if c == 0 {
      assert callers[c := a][1..] == callers[1..];
    } else {
      SwappedUpdate(callers[1..], c - 1, a);
      assert callers[c := a][1..] == callers[1..][c - 1 := a];
    }
  }

  lemma {:induction false} SwappedAppend(callers: seq<Caller>, a: Caller)
    ensures SwappedOf(callers + [a]) == SwappedOf(callers) + (if HasSwapped(a) then 1 else 0)
  {
    if callers == [] {
      assert (callers + [a])[1..] == [];
    } else {
      SwappedAppend(callers[1..], a);
      assert (callers + [a])[1..] == callers[1..] + [a];
    }
  }

  lemma {:induction false} AllSwapped(callers: seq<Caller>)
    requires forall c | 0 <= c < |callers| :: callers[c].Returned?
    ensures SwappedOf(callers) == |callers|
  {
    if callers != [] {
      AllSwapped(callers[1..]);
    }
  }

  lemma CallKeepsCalls(s: System, calls: seq<seq<Path>>, library: seq<Path>)
    requires CallsInv(s, calls)
    ensures CallsInv(Next(s, Call(library)), calls + [library])
  {
    var t := Next(s, Call(library));
    SwappedAppend(s.callers, Scanned(library));
    if s.gen > 0 {
      var c :| 0 <= c < |calls| && HasSwapped(s.callers[c]) && s.paths == calls[c];
      assert HasSwapped(t.callers[c]) && (calls + [library])[c] == s.paths;
    }
  }

  /** What a caller's step does to the call: only the swap makes it one that has swapped. */
  lemma StepOfCaller(s: System, c: nat, hardware: nat, library: seq<Path>)
    requires CallerEnabled(s, c) && BringsLibrary(s.callers[c], library)
    ensures var t := CallerNext(s, c, hardware);
            && t.callers == s.callers[c := t.callers[c]] && BringsLibrary(t.callers[c], library)
            && (if s.callers[c].Swapping?
                then HasSwapped(t.callers[c]) && t.gen == s.gen + 1 && t.paths == library
                else HasSwapped(t.callers[c]) == HasSwapped(s.callers[c]) && t.gen == s.gen && t.paths == s.paths)
  {
    hide PathsOf, Skeletons, WorkerCount;
  }

  lemma CallerKeepsCurrent(s: System, calls: seq<seq<Path>>, c: nat, hardware: nat)
    requires Inv(s) && CallsInv(s, calls) && CallerEnabled(s, c)
    ensures var t := CallerNext(s, c, hardware); ControlInv(t) && CurrentInv(t, calls)
  {
    CallerHasControl(s, c, hardware);
    StepOfCaller(s, c, hardware, calls[c]);
    hide Inv, CallerNext, BringsLibrary, SwappedOf;
    var t := CallerNext(s, c, hardware);
    if s.callers[c].Swapping? {
      assert HasSwapped(t.callers[c]) && t.paths == calls[c];
    } else if s.gen > 0 {
      var d :| 0 <= d < |calls| && HasSwapped(s.callers[d]) && s.paths == calls[d];
      assert HasSwapped(t.callers[d]) && t.paths == calls[d];
    }
  }

  lemma CallerKeepsCalls(s: System, calls: seq<seq<Path>>, c: nat, hardware: nat)
    requires Inv(s) && CallsInv(s, calls) && CallerEnabled(s, c)
    ensures CallsInv(CallerNext(s, c, hardware), calls)
  {
    CallerKeepsCurrent(s, calls, c, hardware);
    StepOfCaller(s, c, hardware, calls[c]);
    hide Inv, CallerNext, CurrentInv, SwappedOf, BringsLibrary;
    SwappedUpdate(s.callers, c, CallerNext(s, c, hardware).callers[c]);
  }

  function NewCall(a: Step): seq<seq<Path>> {
    if a.Call? then [a.library] else []
  }

  lemma StepKeepsCalls(s: System, calls: seq<seq<Path>>, a: Step)
    requires Inv(s) && CallsInv(s, calls) && Enabled(s, a)
    ensures CallsInv(Next(s, a), calls + NewCall(a))
  {
    hide Inv, CallsInv;
    match a {
      case Call(library) => CallKeepsCalls(s, calls, library);
      case CallerStep(c, hardware) =>
        CallerKeepsCalls(s, calls, c, hardware);
        assert calls + [] == calls;
      case WorkerStep(w) =>
        WorkerKeepsCalls(s, calls, w);
        assert calls + [] == calls;
    }
  }

  lemma {:induction false} RunKeepsCalls(s: System, calls: seq<seq<Path>>, steps: seq<Step>, t: System)
    requires Inv(s) && CallsInv(s, calls) && Runs(s, steps, t)
    ensures CallsInv(t, calls + CallsOf(steps))
    decreases |steps|
  {
    hide Inv, CallsInv, Next, Enabled;
    if steps == [] {
      assert calls + [] == calls;
    } else {
      var a := steps[0];
      StepKeepsInv(s, a);
      StepKeepsCalls(s, calls, a);
      RunKeepsCalls(Next(s, a), calls + NewCall(a), steps[1..], t);
      assert calls + NewCall(a) + CallsOf(steps[1..]) == calls + CallsOf(steps);
    }
  }

  lemma WorkerKeepsCalls(s: System, calls: seq<seq<Path>>, w: nat)
    requires CallsInv(s, calls) && WorkerEnabled(s, w)
    ensures CallsInv(WorkerNext(s, w), calls)
  {
    var t := WorkerNext(s, w);
    assert t.callers == s.callers && t.holder == s.holder && t.gen == s.gen && t.paths == s.paths;
    if s.gen > 0 {
      var c :| 0 <= c < |calls| && HasSwapped(s.callers[c]) && s.paths == calls[c];
      assert HasSwapped(t.callers[c]);
    }
  }

  lemma InitialCalls(s: System)
    requires Initial(s)
    ensures CallsInv(s, [])
  {
  }

  /** In every run: each call's library has been swapped in at most once, and once if the call has
      returned; the library that is there is that of a call which has swapped. */
  lemma EveryCallSwapsOnce(s: System, steps: seq<Step>, t: System)
    requires Initial(s) && Runs(s, steps, t)
    ensures |t.callers| == |CallsOf(steps)| && t.gen == SwappedOf(t.callers)
    ensures t.gen == 0 ==> t.paths == []
    ensures t.gen > 0 ==> exists c | 0 <= c < |t.callers| :: HasSwapped(t.callers[c]) && t.paths == CallsOf(steps)[c]
  {
    InitialInv(s);
    InitialCalls(s);
    RunKeepsCalls(s, [], steps, t);
    assert [] + CallsOf(steps) == CallsOf(steps);
  }

  function LoadedAll(paths: seq<Path>): seq<Album> {
    seq(|paths|, i requires 0 <= i < |paths| => Loaded(paths[i]))
  }

  /** In every run, once nothing but a new call is possible: there is nothing, if nobody called, or
      else the library of one of the calls, with every album loaded from its own path. */
  lemma AtRestAllIsLoaded(s: System, steps: seq<Step>, t: System)
    requires Initial(s) && Runs(s, steps, t)
    requires !exists a: Step :: !a.Call? && Enabled(t, a)
    ensures Quiet(t) && t.gen == |CallsOf(steps)|
    ensures CallsOf(steps) == [] ==> t.albums == []
    ensures CallsOf(steps) != [] ==>
      exists c | 0 <= c < |CallsOf(steps)| :: t.albums == LoadedAll(CallsOf(steps)[c])
  {
    OnlyQuietStops(s, steps, t);
    EveryCallSwapsOnce(s, steps, t);
    AllSwapped(t.callers);
    QuietHasNoHolder(s, steps, t);
    forall i: nat | i < |t.paths| ensures |t.albums| == |t.paths| && t.albums[i] == Loaded(t.paths[i]) {
      FinishedMeansAllLoaded(s, steps, t, i);
    }
    assert t.albums == LoadedAll(t.paths);
  }

  lemma QuietHasNoHolder(s: System, steps: seq<Step>, t: System)
    requires Initial(s) && Runs(s, steps, t) && Quiet(t)
    ensures t.holder == -1 && |t.albums| == |t.paths|
  {
    InitialInv(s);
    RunKeepsInv(s, steps, t);
    if t.holder != -1 {
      HolderIsActive(t);
      assert false;
    }
  }

  lemma HolderIsActive(s: System)
    requires ControlInv(s) && s.holder != -1
    ensures !Quiet(s)
  {
    assert InControl(s.callers[s.holder]);
  }

  /** With a single call, its library is loaded whatever order callers and workers step in. */
  lemma OneCallIsLoaded(s: System, steps: seq<Step>, t: System, library: seq<Path>)
    requires Initial(s) && Runs(s, steps, t) && CallsOf(steps) == [library]
    requires !exists a: Step :: !a.Call? && Enabled(t, a)
    ensures t.albums == LoadedAll(library)
  {
    AtRestAllIsLoaded(s, steps, t);
  }

  // ---- and it is reached ----

  /** Somebody who chooses the steps: never a new call, and a possible step while there is one. */
  ghost predicate Diligent(pick: System -> Step) {
    forall s | Inv(s) && !Quiet(s) :: !pick(s).Call? && Enabled(s, pick(s))
  }

  ghost predicate Follows(s: System, pick: System -> Step, steps: seq<Step>)
    decreases |steps|
  {
    steps == []
    || (steps[0] == pick(s) && Enabled(s, steps[0]) && Follows(Next(s, steps[0]), pick, steps[1..]))
  }

  lemma {:induction false} RestIsReached(s: System, pick: System -> Step) returns (steps: seq<Step>, t: System)
    requires Inv(s) && Diligent(pick)
    ensures Follows(s, pick, steps) && Runs(s, steps, t) && Quiet(t) && CallsOf(steps) == []
    decreases Stages(s.callers), Rounds(s), WorkLeft(s)
  {
    if Quiet(s) {
      steps, t := [], s;
    } else {
      hide Inv, WorkLeft, Stages, Rounds, Quiet;
      var a := pick(s);
      match a {
        case CallerStep(c, hardware) => CallerAdvances(s, c, hardware);
        case WorkerStep(w) => WorkerWorks(s, w);
      }
      var rest;
      rest, t := RestIsReached(Next(s, a), pick);
      steps := [a] + rest;
      assert steps[1..] == rest;
    }
  }

  lemma FirstAndRest<T>(a: T, rest: seq<T>)
    ensures ([a] + rest)[0] == a && ([a] + rest)[1..] == rest
  {
  }

  lemma Whole<T>(s: seq<T>)
    requires s != []
    ensures [s[0]] + s[1..] == s
  {
  }

  lemma InOrder<T>(a: seq<T>, b: seq<T>, c: seq<T>)
    ensures a + b + c == a + (b + c)
  {
  }

  lemma NothingBefore<T>(s: seq<T>)
    ensures [] + s == s
  {
  }

  lemma CallsOfLonger(a: Step, rest: seq<Step>)
    ensures CallsOf([a] + rest) == NewCall(a) + CallsOf(rest)
  {
    FirstAndRest(a, rest);
  }

  lemma {:induction false} CallsOfBoth(steps: seq<Step>, more: seq<Step>)
    ensures CallsOf(steps + more) == CallsOf(steps) + CallsOf(more)
  {
    if steps == [] {
      NothingBefore(more);
      NothingBefore(CallsOf(more));
    } else {
      hide CallsOf, NewCall;
      var a, rest := steps[0], steps[1..];
      CallsOfBoth(rest, more);
      CallsOfLonger(a, rest);
      CallsOfLonger(a, rest + more);
      Whole(steps);
      InOrder([a], rest, more);
      InOrder(NewCall(a), CallsOf(rest), CallsOf(more));
    }
  }

  lemma {:induction false} RunsOn(s: System, steps: seq<Step>, t: System, more: seq<Step>, u: System)
    requires Runs(s, steps, t) && Runs(t, more, u)
    ensures Runs(s, steps + more, u)
    decreases |steps|
  {
    hide Next, Enabled;
    if steps == [] {
      assert steps + more == more;
    } else {
      RunsOn(Next(s, steps[0]), steps[1..], t, more, u);
      assert (steps + more)[0] == steps[0] && (steps + more)[1..] == steps[1..] + more;
    }
  }

  /** After any run, whoever chooses the further steps of callers and workers, without new calls and
      never idle while there is one to take, arrives where the library of one of the calls is there
      and every album of it is loaded. */
  lemma EveryAlbumGetsLoaded(s: System, steps: seq<Step>, t: System, pick: System -> Step)
    returns (more: seq<Step>, u: System)
    requires Initial(s) && Runs(s, steps, t) && CallsOf(steps) != [] && Diligent(pick)
    ensures Follows(t, pick, more) && Runs(t, more, u) && CallsOf(more) == []
    ensures exists c | 0 <= c < |CallsOf(steps)| :: u.albums == LoadedAll(CallsOf(steps)[c])
  {
    InitialInv(s);
    RunKeepsInv(s, steps, t);
    more, u := RestIsReached(t, pick);
    RunsOn(s, steps, t, more, u);
    CallsOfBoth(steps, more);
    assert CallsOf(steps) + [] == CallsOf(steps);
    OnlyQuietStops(s, steps + more, u);
    AtRestAllIsLoaded(s, steps + more, u);
  }
}
