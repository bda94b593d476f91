/** The background library loader: callers that replace the library and the worker threads
    that fill it in, as one system of small steps taken in any order. */
module Loader {
  type Path = string

  /** An album as the scan leaves it, and as a worker loads it. */
  datatype Album = Skeleton(path: Path) | Loaded(path: Path)

  /** Where a worker thread is. */
  datatype Place =
    | Claiming
    | FirstCheck(i: nat)
    | Loading(i: nat)
    | SecondCheck(i: nat, album: Album)
    | Storing(i: nat, album: Album)
    | Counting
    | Exited

  /** A worker: the paths it shares with the others of its generation. */
  datatype Worker = Worker(gen: nat, shared: seq<Path>, at: Place)

  /** Where a caller of setRootPath is, from the finished scan on. */
  datatype Caller =
    | Scanned(library: seq<Path>)
    | Cancelling(library: seq<Path>)
    | Joining(library: seq<Path>, k: nat)
    | Swapping(library: seq<Path>)
    | Announcing
    | ReadingPaths
    | ClearingCancel(shared: seq<Path>)
    | ResettingIndex(shared: seq<Path>)
    | Spawning(shared: seq<Path>, left: nat)
    | Returned

  /** `holder` is the caller that has loadControlMutex_, or -1. The last fields are history:
      which library this is and the paths it was scanned with, the indices of it that workers
      claimed and stored, and the number of stores and of version bumps ever. */
  datatype System = System(
    albums: seq<Album>, cancel: bool, nextAlbum: nat, version: nat,
    workers: seq<Worker>, callers: seq<Caller>, holder: int,
    gen: nat, paths: seq<Path>, claimed: seq<nat>, stored: set<nat>, stores: nat, bumps: nat)

  datatype Step =
    | Call(library: seq<Path>)
    | CallerStep(c: nat, hardware: nat)
    | WorkerStep(w: nat)

  const VERSIONS := 0x1_0000_0000

  function Skeletons(paths: seq<Path>): (s: seq<Album>)
    ensures |s| == |paths|
  {
    seq(|paths|, i requires 0 <= i < |paths| => Skeleton(paths[i]))
  }

  function PathsOf(albums: seq<Album>): (s: seq<Path>)
    ensures |s| == |albums|
  {
    seq(|albums|, i requires 0 <= i < |albums| => albums[i].path)
  }

  /** A number of workers that n albums can have: at most four, and two if there are two albums. */
  predicate FairCount(workers: nat, n: nat) {
    workers <= n && workers <= 4 && (workers < 2 ==> workers == n)
  }

  /** As many workers as paths, up to the hardware threads clamped to 2..4: the largest number that
      is within the paths, within four, and within the hardware threads unless it is two or less. */
  function WorkerCount(paths: seq<Path>, hardware: nat): (n: nat)
    ensures FairCount(n, |paths|) && (n <= 2 || n <= hardware)
    ensures n == |paths| || n == 4 || (n >= 2 && n >= hardware)
  {
    var clamped := if hardware < 2 then 2 else if hardware > 4 then 4 else hardware;
    if |paths| < clamped then |paths| else clamped
  }

  function ReplaceAlbum(albums: seq<Album>, i: nat, album: Album): seq<Album> {
    if i >= |albums| then albums else albums[i := album]
  }

  function Bump(s: System): System {
    s.(version := (s.version + 1) % VERSIONS, bumps := s.bumps + 1)
  }

  // ---- workers ----

  predicate WorkerEnabled(s: System, w: nat) {
    && w < |s.workers| && !s.workers[w].at.Exited?
    && (s.workers[w].at.Loading? ==> s.workers[w].at.i < |s.workers[w].shared|)
  }

  function Moved(s: System, w: nat, at: Place): System
    requires w < |s.workers|
  {
    s.(workers := s.workers[w := s.workers[w].(at := at)])
  }

  function WorkerNext(s: System, w: nat): System
    requires WorkerEnabled(s, w)
  {
    var me := s.workers[w];
    match me.at
    case Claiming =>
      var i := s.nextAlbum;
      var t := s.(nextAlbum := i + 1);
      if i < |me.shared| then Moved(t.(claimed := s.claimed + [i]), w, FirstCheck(i)) else Moved(t, w, Exited)
    case FirstCheck(i) => Moved(s, w, if s.cancel then Exited else Loading(i))
    case Loading(i) => Moved(s, w, SecondCheck(i, Loaded(me.shared[i])))
    case SecondCheck(i, album) => Moved(s, w, if s.cancel then Exited else Storing(i, album))
    case Storing(i, album) =>
      Moved(s.(albums := ReplaceAlbum(s.albums, i, album), stored := s.stored + {i}, stores := s.stores + 1),
            w, Counting)
    case Counting => Moved(Bump(s), w, Claiming)
  }

  // ---- callers ----

  predicate CallerEnabled(s: System, c: nat) {
    && c < |s.callers|
    && match s.callers[c]
       case Scanned(_) => s.holder == -1
       case Joining(_, k) => k < |s.workers| ==> s.workers[k].at.Exited?
       case Returned => false
       case _ => true
  }

  function CallerAt(s: System, c: nat, at: Caller): System
    requires c < |s.callers|
  {
    s.(callers := s.callers[c := at])
  }

  function CallerNext(s: System, c: nat, hardware: nat): System
    requires CallerEnabled(s, c)
  {
    match s.callers[c]
    case Scanned(library) => CallerAt(s.(holder := c), c, Cancelling(library))
    case Cancelling(library) => CallerAt(s.(cancel := true), c, Joining(library, 0))
    case Joining(library, k) =>
      if k < |s.workers| then CallerAt(s, c, Joining(library, k + 1))
      else CallerAt(s.(workers := []), c, Swapping(library))
    case Swapping(library) =>
      CallerAt(s.(albums := Skeletons(library), gen := s.gen + 1, paths := library,
                  claimed := [], stored := {}), c, Announcing)
    case Announcing => CallerAt(Bump(s), c, ReadingPaths)
    case ReadingPaths =>
      var shared := PathsOf(s.albums);
      if shared == [] then CallerAt(s.(holder := -1), c, Returned)
      else CallerAt(s, c, ClearingCancel(shared))
    case ClearingCancel(shared) => CallerAt(s.(cancel := false), c, ResettingIndex(shared))
    case ResettingIndex(shared) =>
      CallerAt(s.(nextAlbum := 0), c, Spawning(shared, WorkerCount(shared, hardware)))
    case Spawning(shared, left) =>
      if left == 0 then CallerAt(s.(holder := -1), c, Returned)
      else CallerAt(s.(workers := s.workers + [Worker(s.gen, shared, Claiming)]), c, Spawning(shared, left - 1))
  }

  predicate Enabled(s: System, a: Step) {
    match a
    case Call(_) => true
    case CallerStep(c, _) => CallerEnabled(s, c)
    case WorkerStep(w) => WorkerEnabled(s, w)
  }

  function Next(s: System, a: Step): System
    requires Enabled(s, a)
  {
    match a
    case Call(library) => s.(callers := s.callers + [Scanned(library)])
    case CallerStep(c, hardware) => CallerNext(s, c, hardware)
    case WorkerStep(w) => WorkerNext(s, w)
  }

  // ---- the invariant ----

  predicate InControl(a: Caller) {
    !a.Scanned? && !a.Returned?
  }

  /** Between swapping the library and resetting the index: no worker exists. */
  predicate Restarting(a: Caller) {
    a.Announcing? || a.ReadingPaths? || a.ClearingCancel? || a.ResettingIndex?
  }

  ghost predicate ControlInv(s: System) {
    && -1 <= s.holder < |s.callers|
    && (forall c | 0 <= c < |s.callers| :: InControl(s.callers[c]) <==> s.holder == c)
  }

  /** The caller that has the mutex, or one that has returned. */
  ghost function Controller(s: System): Caller
    requires ControlInv(s)
  {
    if s.holder == -1 then Returned else s.callers[s.holder]
  }

  ghost predicate ControllerInv(s: System)
    requires ControlInv(s)
  {
    match Controller(s)
    case Joining(_, k) => s.cancel && k <= |s.workers| && forall w | 0 <= w < k :: s.workers[w].at.Exited?
    case Swapping(_) => s.cancel && s.workers == []
    case Announcing => s.cancel && s.workers == []
    case ReadingPaths => s.cancel && s.workers == []
    case ClearingCancel(shared) => s.cancel && s.workers == [] && shared == s.paths != []
    case ResettingIndex(shared) => !s.cancel && s.workers == [] && shared == s.paths != []
    case Spawning(shared, left) =>
      !s.cancel && shared == s.paths != [] && FairCount(|s.workers| + left, |s.paths|)
    case _ => true
  }

  predicate Holds(w: Worker, i: nat) {
    match w.at
    case FirstCheck(j) => i == j
    case Loading(j) => i == j
    case SecondCheck(j, _) => i == j
    case Storing(j, _) => i == j
    case _ => false
  }

  predicate Carries(w: Worker, album: Album) {
    match w.at
    case SecondCheck(_, a) => a == album
    case Storing(_, a) => a == album
    case _ => false
  }

  /** A worker that has not exited belongs to the current library; what it holds is claimed,
      not stored yet, and loaded from the path of that index. */
  ghost predicate WorkerInv(s: System, w: Worker) {
    && (!w.at.Exited? ==> w.gen == s.gen && w.shared == s.paths)
    && (forall i: nat | Holds(w, i) :: i < s.nextAlbum && i < |s.paths| && i !in s.stored)
    && (forall i: nat, a | Holds(w, i) && i < |s.paths| && Carries(w, a) :: a == Loaded(s.paths[i]))
  }

  ghost predicate WorkersInv(s: System) {
    && (forall w | 0 <= w < |s.workers| :: WorkerInv(s, s.workers[w]))
    && (forall v, w, i: nat | 0 <= v < w < |s.workers| :: !(Holds(s.workers[v], i) && Holds(s.workers[w], i)))
  }

  ghost predicate LibraryInv(s: System) {
    && |s.albums| == |s.paths|
    && (forall i | 0 <= i < |s.albums| :: s.albums[i].path == s.paths[i])
    && (forall i: nat | i in s.stored :: i < |s.paths| && s.albums[i] == Loaded(s.paths[i]))
  }

  ghost predicate SomeoneHolds(s: System, i: nat) {
    exists w | 0 <= w < |s.workers| :: Holds(s.workers[w], i)
  }

  /** What is known of the current library while its index counter is in force. */
  ghost predicate ProgressInv(s: System) {
    && |s.claimed| == (if s.nextAlbum < |s.paths| then s.nextAlbum else |s.paths|)
    && (forall k | 0 <= k < |s.claimed| :: s.claimed[k] == k)
    && (forall i: nat | i in s.stored :: i < s.nextAlbum)
    && (!s.cancel ==>
          && (forall i: nat | i < |s.claimed| :: i in s.stored || SomeoneHolds(s, i))
          && (forall w | 0 <= w < |s.workers| && s.workers[w].at.Exited? :: s.nextAlbum >= |s.paths|))
  }

  /** With no restart in progress, a library with albums has its workers and is not cancelled. */
  ghost predicate StartedInv(s: System)
    requires ControlInv(s)
  {
    (Controller(s).Returned? || Controller(s).Cancelling?) && s.paths != [] ==>
      !s.cancel && FairCount(|s.workers|, |s.paths|)
  }

  ghost function Unannounced(workers: seq<Worker>): nat {
    if workers == [] then 0 else (if workers[0].at.Counting? then 1 else 0) + Unannounced(workers[1..])
  }

  /** Every swap and every store is announced once, or about to be. */
  ghost predicate VersionInv(s: System)
    requires ControlInv(s)
  {
    && s.version == s.bumps % VERSIONS
    && s.bumps + Unannounced(s.workers) + (if Controller(s).Announcing? then 1 else 0) == s.gen + s.stores
  }

  ghost predicate Inv(s: System) {
    && ControlInv(s) && ControllerInv(s) && LibraryInv(s) && WorkersInv(s)
    && (Restarting(Controller(s)) ==> s.claimed == [] && s.stored == {})
    && (!Restarting(Controller(s)) ==> ProgressInv(s))
    && StartedInv(s) && VersionInv(s)
  }

  ghost predicate Initial(s: System) {
    && s.albums == [] && s.paths == [] && !s.cancel && s.nextAlbum == 0 && s.version == 0
    && s.workers == [] && s.callers == [] && s.holder == -1
    && s.gen == 0 && s.claimed == [] && s.stored == {} && s.stores == 0 && s.bumps == 0
  }

  // ---- every step keeps it ----

  lemma {:induction false} UnannouncedUpdate(workers: seq<Worker>, w: nat, v: Worker)
    requires w < |workers|
    ensures Unannounced(workers[w := v])
         == Unannounced(workers) - (if workers[w].at.Counting? then 1 else 0) + (if v.at.Counting? then 1 else 0)
  {
    if w == 0 {
      assert workers[w := v][1..] == workers[1..];
    } else {
      UnannouncedUpdate(workers[1..], w - 1, v);
      assert workers[w := v][1..] == workers[1..][w - 1 := v];
    }
  }

  lemma {:induction false} UnannouncedAppend(workers: seq<Worker>, v: Worker)
    ensures Unannounced(workers + [v]) == Unannounced(workers) + (if v.at.Counting? then 1 else 0)
  {
    if workers != [] {
      UnannouncedAppend(workers[1..], v);
      assert (workers + [v])[1..] == workers[1..] + [v];
    } else {
      assert (workers + [v])[1..] == [];
    }
  }

  lemma {:induction false} AllExitedUnannounced(workers: seq<Worker>)
    requires forall w | 0 <= w < |workers| :: workers[w].at.Exited?
    ensures Unannounced(workers) == 0
  {
    if workers != [] {
      AllExitedUnannounced(workers[1..]);
    }
  }

  /** A worker that has not exited means nobody is between joining and spawning. */
  lemma LiveWorker(s: System, w: nat)
    requires Inv(s) && WorkerEnabled(s, w)
    ensures !Restarting(Controller(s)) && !Controller(s).Swapping?
    ensures s.workers[w].gen == s.gen && s.workers[w].shared == s.paths
  {
    assert WorkerInv(s, s.workers[w]);
  }

  lemma WorkerKeepsControl(s: System, w: nat)
    requires Inv(s) && WorkerEnabled(s, w)
    ensures var t := WorkerNext(s, w);
            ControlInv(t) && Controller(t) == Controller(s) && ControllerInv(t) && StartedInv(t)
  {
    LiveWorker(s, w);
  }

  lemma WorkerKeepsVersion(s: System, w: nat)
    requires Inv(s) && WorkerEnabled(s, w)
    ensures var t := WorkerNext(s, w); ControlInv(t) && VersionInv(t)
  {
    hide ProgressInv, WorkersInv, LibraryInv;
    WorkerKeepsControl(s, w);
    var t := WorkerNext(s, w);
    UnannouncedUpdate(s.workers, w, t.workers[w]);
    if s.workers[w].at.Counting? {
      VersionBumps(s.bumps);
    }
  }

  lemma VersionBumps(b: nat)
    ensures (b % VERSIONS + 1) % VERSIONS == (b + 1) % VERSIONS
  {
  }

  lemma WorkerKeepsLibrary(s: System, w: nat)
    requires Inv(s) && WorkerEnabled(s, w)
    ensures LibraryInv(WorkerNext(s, w))
  {
    LiveWorker(s, w);
    var me := s.workers[w];
    assert WorkerInv(s, me);
    if me.at.Storing? {
      assert Holds(me, me.at.i) && Carries(me, me.at.album);
    }
  }

  lemma WorkerKeepsItself(s: System, w: nat)
    requires WorkerEnabled(s, w) && WorkerInv(s, s.workers[w])
    requires s.workers[w].gen == s.gen && s.workers[w].shared == s.paths
    requires forall i: nat | i in s.stored :: i < s.nextAlbum
    ensures var t := WorkerNext(s, w); WorkerInv(t, t.workers[w])
  {
    hide ReplaceAlbum;
    var me := s.workers[w];
    match me.at
    case FirstCheck(i) => assert Holds(me, i);
    case Loading(i) => assert Holds(me, i);
    case SecondCheck(i, album) => assert Holds(me, i) && Carries(me, album);
    case _ =>
  }

  lemma WorkerKeepsOthers(s: System, w: nat, v: nat)
    requires Inv(s) && WorkerEnabled(s, w)
    requires v < |s.workers| && v != w
    ensures var t := WorkerNext(s, w);
            && WorkerInv(t, t.workers[v])
            && forall i: nat :: !(Holds(t.workers[v], i) && Holds(t.workers[w], i))
  {
    hide ProgressInv, VersionInv, LibraryInv, StartedInv;
    LiveWorker(s, w);
    var me, other := s.workers[w], s.workers[v];
    assert WorkerInv(s, me) && WorkerInv(s, other);
    if me.at.Storing? {
      assert Holds(me, me.at.i);
    }
  }

  lemma WorkerKeepsWorkers(s: System, w: nat)
    requires Inv(s) && WorkerEnabled(s, w)
    ensures WorkersInv(WorkerNext(s, w))
  {
    var t := WorkerNext(s, w);
    LiveWorker(s, w);
    assert WorkerInv(s, s.workers[w]);
    WorkerKeepsItself(s, w);
    forall v: nat | v < |t.workers| && v != w
      ensures WorkerInv(t, t.workers[v])
      ensures forall i: nat :: !(Holds(t.workers[v], i) && Holds(t.workers[w], i))
    {
      WorkerKeepsOthers(s, w, v);
    }
  }

  lemma WorkerKeepsProgress(s: System, w: nat)
    requires Inv(s) && WorkerEnabled(s, w)
    ensures ProgressInv(WorkerNext(s, w))
  {
    hide ReplaceAlbum, LibraryInv, VersionInv, StartedInv, ControllerInv;
    LiveWorker(s, w);
    var t, me := WorkerNext(s, w), s.workers[w];
    assert WorkerInv(s, me);
    if me.at.Storing? {
      assert Holds(me, me.at.i);
    }
    if !t.cancel {
      forall i: nat | i < |t.claimed| ensures i in t.stored || SomeoneHolds(t, i) {
        if i < |s.claimed| {
          if i !in s.stored {
            var v :| 0 <= v < |s.workers| && Holds(s.workers[v], i);
            assert i in t.stored || Holds(t.workers[v], i);
          }
        } else {
          assert Holds(t.workers[w], i);
        }
      }
    }
  }

  lemma WorkerStepKeepsInv(s: System, w: nat)
    requires Inv(s) && WorkerEnabled(s, w)
    ensures Inv(WorkerNext(s, w))
  {
    LiveWorker(s, w);
    WorkerKeepsControl(s, w);
    WorkerKeepsVersion(s, w);
    WorkerKeepsLibrary(s, w);
    WorkerKeepsWorkers(s, w);
    WorkerKeepsProgress(s, w);
  }

  lemma CallerHasControl(s: System, c: nat, hardware: nat)
    requires Inv(s) && CallerEnabled(s, c)
    ensures s.callers[c].Scanned? ==> Controller(s) == Returned
    ensures !s.callers[c].Scanned? ==> s.holder == c && Controller(s) == s.callers[c]
    ensures var t := CallerNext(s, c, hardware);
            ControlInv(t) && Controller(t) == t.callers[c]
  {
    assert InControl(s.callers[c]) <==> s.holder == c;
  }

  lemma CallerKeepsController(s: System, c: nat, hardware: nat)
    requires Inv(s) && CallerEnabled(s, c)
    ensures var t := CallerNext(s, c, hardware);
            && ControlInv(t) && ControllerInv(t) && StartedInv(t)
  {
    CallerHasControl(s, c, hardware);
    if s.callers[c].ReadingPaths? {
      assert PathsOf(s.albums) == s.paths;
    }
  }

  lemma CallerKeepsVersion(s: System, c: nat, hardware: nat)
    requires Inv(s) && CallerEnabled(s, c)
    ensures var t := CallerNext(s, c, hardware);
            ControlInv(t) && VersionInv(t)
  {
    CallerHasControl(s, c, hardware);
    match s.callers[c]
    case Joining(_, k) =>
      if k == |s.workers| {
        AllExitedUnannounced(s.workers);
      }
    case Announcing => VersionBumps(s.bumps);
    case Spawning(shared, _) => UnannouncedAppend(s.workers, Worker(s.gen, shared, Claiming));
    case _ =>
  }

  lemma CallerKeepsData(s: System, c: nat, hardware: nat)
    requires Inv(s) && CallerEnabled(s, c)
    ensures var t := CallerNext(s, c, hardware);
            && ControlInv(t) && LibraryInv(t) && WorkersInv(t)
            && (Restarting(Controller(t)) ==> t.claimed == [] && t.stored == {})
  {
    hide ProgressInv, VersionInv;
    CallerHasControl(s, c, hardware);
    var t := CallerNext(s, c, hardware);
    forall v | 0 <= v < |t.workers| ensures WorkerInv(t, t.workers[v]) {
      if v < |s.workers| {
        assert WorkerInv(s, s.workers[v]);
      }
    }
  }

  lemma CallerKeepsProgress(s: System, c: nat, hardware: nat)
    requires Inv(s) && CallerEnabled(s, c)
    ensures var t := CallerNext(s, c, hardware);
            ControlInv(t) && (!Restarting(Controller(t)) ==> ProgressInv(t))
  {
    CallerHasControl(s, c, hardware);
    var t := CallerNext(s, c, hardware);
    if !Restarting(Controller(t)) && !t.cancel && !Restarting(Controller(s)) {
      forall i: nat | i < |t.claimed| ensures i in t.stored || SomeoneHolds(t, i) {
        if i !in s.stored {
          var v :| 0 <= v < |s.workers| && Holds(s.workers[v], i);
          assert Holds(t.workers[v], i);
        }
      }
    }
  }

  lemma StepKeepsInv(s: System, a: Step)
    requires Inv(s) && Enabled(s, a)
    ensures Inv(Next(s, a))
  {
    match a
    case Call(_) =>
      var t := Next(s, a);
      assert ControlInv(t) && Controller(t) == Controller(s);
    case CallerStep(c, hardware) =>
      CallerKeepsController(s, c, hardware);
      CallerKeepsVersion(s, c, hardware);
      CallerKeepsData(s, c, hardware);
      CallerKeepsProgress(s, c, hardware);
    case WorkerStep(w) => WorkerStepKeepsInv(s, w);
  }

  // ---- every run ----

  ghost predicate Runs(s: System, steps: seq<Step>, t: System)
    decreases |steps|
  {
    if steps == [] then s == t
    else Enabled(s, steps[0]) && Runs(Next(s, steps[0]), steps[1..], t)
  }

  lemma {:induction false} RunKeepsInv(s: System, steps: seq<Step>, t: System)
    requires Inv(s) && Runs(s, steps, t)
    ensures Inv(t)
    decreases |steps|
  {
    if steps != [] {
      StepKeepsInv(s, steps[0]);
      RunKeepsInv(Next(s, steps[0]), steps[1..], t);
    }
  }

  lemma InitialInv(s: System)
    requires Initial(s)
    ensures Inv(s)
  {
  }

  /** In every run, a worker about to store works for the library it is about to change, at an
      index that exists, that no other worker holds and that was not stored before, and what it
      stores is the album of that index, loaded. */
  lemma StoresAreCurrent(s: System, steps: seq<Step>, t: System, w: nat)
    requires Initial(s) && Runs(s, steps, t)
    requires w < |t.workers| && t.workers[w].at.Storing?
    ensures var i := t.workers[w].at.i;
            && t.workers[w].gen == t.gen && i < |t.albums| && i !in t.stored
            && t.workers[w].at.album == Loaded(t.albums[i].path)
            && forall v: nat | v < |t.workers| && v != w :: !Holds(t.workers[v], i)
  {
    InitialInv(s);
    RunKeepsInv(s, steps, t);
    var me := t.workers[w];
    assert WorkerInv(t, me) && Holds(me, me.at.i) && Carries(me, me.at.album);
  }

  /** In every run, the claims of the current library are 0, 1, 2, ... without repetition. */
  lemma ClaimsAreDistinct(s: System, steps: seq<Step>, t: System, j: nat, k: nat)
    requires Initial(s) && Runs(s, steps, t)
    requires j < k < |t.claimed|
    ensures t.claimed[j] == j && t.claimed[k] == k && |t.claimed| <= |t.albums|
  {
    InitialInv(s);
    RunKeepsInv(s, steps, t);
  }

  /** In every run, no step other than a swap changes how many albums there are or their paths,
      and a swap happens only when every worker is gone. */
  lemma PathsStayWhileLoading(s: System, steps: seq<Step>, t: System, a: Step)
    requires Initial(s) && Runs(s, steps, t) && Enabled(t, a)
    ensures Next(t, a).gen == t.gen ==> PathsOf(Next(t, a).albums) == PathsOf(t.albums) == t.paths
    ensures Next(t, a).gen != t.gen ==> t.workers == [] && PathsOf(Next(t, a).albums) == Next(t, a).paths
  {
    hide ProgressInv, VersionInv, WorkersInv, StartedInv;
    InitialInv(s);
    RunKeepsInv(s, steps, t);
    StepKeepsInv(t, a);
    if a.CallerStep? {
      CallerHasControl(t, a.c, a.hardware);
    }
  }

  /** In every run: while nobody is restarting the loader, a library with albums is not cancelled
      and has from two to four workers, or one for its only album. */
  lemma RestartsLeaveWorkers(s: System, steps: seq<Step>, t: System)
    requires Initial(s) && Runs(s, steps, t) && t.holder == -1 && t.paths != []
    ensures !t.cancel && 1 <= |t.workers| <= 4 && |t.workers| <= |t.paths|
    ensures |t.workers| == 1 ==> |t.paths| == 1
  {
    InitialInv(s);
    RunKeepsInv(s, steps, t);
  }

  /** In every run: when nobody is restarting the loader and all its workers have exited, every
      album is loaded, each from its own path. */
  lemma FinishedMeansAllLoaded(s: System, steps: seq<Step>, t: System, i: nat)
    requires Initial(s) && Runs(s, steps, t)
    requires t.holder == -1
    requires forall w | 0 <= w < |t.workers| :: t.workers[w].at.Exited?
    requires i < |t.paths|
    ensures |t.albums| == |t.paths| && t.albums[i] == Loaded(t.paths[i])
  {
    InitialInv(s);
    RunKeepsInv(s, steps, t);
    assert t.workers[0].at.Exited?;
    assert i < |t.claimed|;
    assert !SomeoneHolds(t, i);
  }

  /** In every run, once the system is quiet the version has moved once for each library
      swapped in and once for each album stored, modulo 2^32. */
  lemma VersionCountsChanges(s: System, steps: seq<Step>, t: System)
    requires Initial(s) && Runs(s, steps, t)
    requires t.holder == -1 && forall w | 0 <= w < |t.workers| :: t.workers[w].at.Exited?
    ensures t.version == (t.gen + t.stores) % VERSIONS
  {
    InitialInv(s);
    RunKeepsInv(s, steps, t);
    AllExitedUnannounced(t.workers);
  }

  /** No worker ever indexes the shared paths out of range, so only Exited stops one. */
  lemma WorkersNeverStuck(s: System, steps: seq<Step>, t: System, w: nat)
    requires Initial(s) && Runs(s, steps, t)
    requires w < |t.workers|
    ensures WorkerEnabled(t, w) <==> !t.workers[w].at.Exited?
  {
    InitialInv(s);
    RunKeepsInv(s, steps, t);
    var me := t.workers[w];
    assert WorkerInv(t, me);
    if me.at.Loading? {
      assert Holds(me, me.at.i);
    }
  }
}
