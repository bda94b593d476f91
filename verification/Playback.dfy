/** The controller's commands on queue and engine, as values. `plays` tells whether the file
    that a command loads, if it loads one, can be opened and played. */
module Playback {
  import opened Songs
  import opened Engine

  /** The queue, the engine's state, and the file it has loaded unless it is stopped. */
  datatype Player = Player(queue: Queue, state: State, file: string)

  datatype Request =
    | LoadAlbum(paths: seq<string>)
    | Play
    | Pause
    | Stop
    | NextSong
    | PreviousSong
    | PlaySongAtIndex(i: int)
    | AutoAdvance

  const IDLE := Player(EMPTY, Stopped, "")

  function LoadAndPlay(q: Queue, path: string, plays: bool): Player {
    if plays then Player(q, Playing, path) else Player(q, Stopped, "")
  }

  function Advance(p: Player, plays: bool): Player {
    var a := Songs.Next(p.queue);
    if a.path == "" then IDLE else LoadAndPlay(a.queue, a.path, plays)
  }

  function Handle(p: Player, r: Request, plays: bool): (q: Player)
    requires InRange(p.queue)
    ensures InRange(q.queue)
  {
    match r
    case LoadAlbum(paths) => Player(Songs.Load(paths), Stopped, "")
    case Play =>
      if p.queue.playlist == [] then p
      else if p.state == Paused then p.(state := Playing)
      else if Current(p.queue) == "" then p
      else LoadAndPlay(p.queue, Current(p.queue), plays)
    case Pause => if p.state == Playing then p.(state := Paused) else p
    case Stop => IDLE
    case NextSong => Advance(p, plays)
    case AutoAdvance => Advance(p, plays)
    case PreviousSong =>
      var a := Songs.Previous(p.queue);
      if a.path == "" then p.(queue := a.queue) else LoadAndPlay(a.queue, a.path, plays)
    case PlaySongAtIndex(i) =>
      if p.queue.playlist == [] then p
      else
        var a := Songs.SkipTo(p.queue, i);
        if a.path == "" then p.(queue := a.queue) else LoadAndPlay(a.queue, a.path, plays)
  }

  // ---- what is loaded is what the queue points at ----

  /** Whenever the engine is not stopped, its file is the playlist entry at the index. */
  ghost predicate InSync(p: Player) {
    && InRange(p.queue)
    && (p.state != Stopped ==> p.queue.index >= 0 && p.file == p.queue.playlist[p.queue.index] && p.file != "")
  }

  /** The requests that move the index to an empty path: nothing is loaded, but the index has moved. */
  predicate MovesSilently(p: Player, r: Request)
    requires InRange(p.queue)
  {
    && p.state != Stopped
    && match r
       case PreviousSong => p.queue.index > 0 && p.queue.playlist[p.queue.index - 1] == ""
       case PlaySongAtIndex(i) => 0 <= i < |p.queue.playlist| && p.queue.playlist[i] == ""
       case _ => false
  }

  /** A request keeps engine and queue in step exactly when it does not go to an empty path. */
  lemma InSyncExactly(p: Player, r: Request, plays: bool)
    requires InSync(p)
    ensures InSync(Handle(p, r, plays)) <==> !MovesSilently(p, r)
  {
  }

  /** With an empty path before the current song, "previous" leaves the engine on the old one. */
  lemma EmptyPathExample()
    ensures var p := Player(Queue(["", "b.mp3"], 1), Playing, "b.mp3");
            InSync(p) && !InSync(Handle(p, PreviousSong, true))
  {
  }

  // ---- what each request does ----

  /** Playing this entry, or stopped at it, if it is a path; the two outcomes of going to it. */
  predicate WentTo(q: Player, paths: seq<string>, i: int, plays: bool) {
    && q.queue.playlist == paths && q.queue.index == i && 0 <= i < |paths|
    && (if plays then q.state == Playing && q.file == paths[i] else q.state == Stopped && q.file == "")
  }

  predicate IsOver(q: Player) {
    q.queue.playlist == [] && q.queue.index == -1 && q.state == Stopped && q.file == ""
  }

  /** "next" goes to the entry after the current one, whatever the state; without one, or with an
      empty path there, it ends the album. An auto-advance, stale or not, does the same. */
  lemma NextGoesOn(p: Player, plays: bool)
    requires InRange(p.queue)
    ensures var q, paths, i := Handle(p, NextSong, plays), p.queue.playlist, p.queue.index + 1;
            if i < |paths| && paths[i] != "" then WentTo(q, paths, i, plays) else IsOver(q)
    ensures Handle(p, AutoAdvance, plays) == Handle(p, NextSong, plays)
  {
  }

  /** "previous" goes to the entry before the current one; at the first it changes nothing, and
      with an empty path there it moves the position alone. */
  lemma PreviousGoesBack(p: Player, plays: bool)
    requires InRange(p.queue)
    ensures var q, paths, i := Handle(p, PreviousSong, plays), p.queue.playlist, p.queue.index - 1;
            if i < 0 then q == p
            else if paths[i] != "" then WentTo(q, paths, i, plays)
            else q == p.(queue := Queue(paths, i))
  {
  }

  lemma IndexIsPlayed(p: Player, i: int, plays: bool)
    requires InRange(p.queue)
    ensures var q, paths := Handle(p, PlaySongAtIndex(i), plays), p.queue.playlist;
            if i < 0 || i >= |paths| then q == p
            else if paths[i] != "" then WentTo(q, paths, i, plays)
            else q == p.(queue := Queue(paths, i))
  {
  }

  /** "play" resumes when paused, loading nothing; else it loads the current song, also when it plays. */
  lemma PlayStarts(p: Player, plays: bool)
    requires InRange(p.queue)
    ensures var q, paths, i := Handle(p, Play, plays), p.queue.playlist, p.queue.index;
            if paths == [] then q == p
            else if p.state == Paused then q.state == Playing && q.file == p.file && q.queue == p.queue
            else if paths[i] != "" then WentTo(q, paths, i, plays)
            else q == p
  {
  }

  /** "pause" stops nothing but the sound, and "play" takes up where it left off even if no file can
      be loaded any more. */
  lemma PauseThenPlay(p: Player, plays: bool, plays': bool)
    requires InRange(p.queue)
    ensures var q := Handle(p, Pause, plays);
            && q.queue == p.queue && q.file == p.file
            && (if p.state == Playing then q.state == Paused else q.state == p.state)
            && (p.state == Playing && p.queue.playlist != [] ==> Handle(q, Play, plays') == p)
  {
  }

  lemma StopEndsAndAlbumWaits(p: Player, paths: seq<string>, plays: bool)
    requires InRange(p.queue)
    ensures IsOver(Handle(p, Stop, plays))
    ensures var q := Handle(p, LoadAlbum(paths), plays);
            q.state == Stopped && q.file == "" && q.queue.playlist == paths
            && q.queue.index == if paths == [] then -1 else 0
  {
  }

  /** Going on and back again plays the same song again. */
  lemma PreviousAfterNext(p: Player, plays: bool)
    requires InRange(p.queue) && p.queue.index + 1 < |p.queue.playlist|
    requires p.queue.playlist[p.queue.index + 1] != "" && p.queue.playlist[p.queue.index] != ""
    ensures WentTo(Handle(Handle(p, NextSong, plays), PreviousSong, true), p.queue.playlist, p.queue.index, true)
  {
    NextGoesOn(p, plays);
    PreviousGoesBack(Handle(p, NextSong, plays), true);
  }

  ghost predicate NoEmptyPaths(paths: seq<string>) {
    "" !in paths
  }

  /** One request with the outcome of the load it may cause. */
  datatype Event = Event(request: Request, plays: bool)

  ghost function Run(p: Player, events: seq<Event>): (q: Player)
    requires InRange(p.queue)
    ensures InRange(q.queue)
    decreases |events|
  {
    if events == [] then p else Run(Handle(p, events[0].request, events[0].plays), events[1..])
  }

  ghost predicate RealAlbums(events: seq<Event>) {
    forall e | e in events && e.request.LoadAlbum? :: NoEmptyPaths(e.request.paths)
  }

  lemma {:induction false} RunStaysInSync(p: Player, events: seq<Event>)
    requires InSync(p) && NoEmptyPaths(p.queue.playlist) && RealAlbums(events)
    ensures InSync(Run(p, events)) && NoEmptyPaths(Run(p, events).queue.playlist)
    decreases |events|
  {
    if events != [] {
      var e, rest := events[0], events[1..];
      assert e in events;
      assert RealAlbums(rest) by {
        forall x | x in rest && x.request.LoadAlbum? ensures NoEmptyPaths(x.request.paths) {
          assert x in events;
        }
      }
      assert !MovesSilently(p, e.request);
      InSyncExactly(p, e.request, e.plays);
      RunStaysInSync(Handle(p, e.request, e.plays), rest);
    }
  }

  /** Over every run of requests, stale auto-advances and failing loads included, on albums
      without empty paths: the index is -1 for an empty playlist and otherwise in range, and
      an engine that is not stopped has loaded the entry at that index. */
  lemma AlwaysInSync(events: seq<Event>)
    requires RealAlbums(events)
    ensures var p := Run(IDLE, events);
            && InRange(p.queue)
            && (p.state != Stopped ==> p.file == Current(p.queue) != "")
  {
    RunStaysInSync(IDLE, events);
  }

  function Repeat(e: Event, k: nat): (s: seq<Event>)
    ensures |s| == k
  {
    if k == 0 then [] else [e] + Repeat(e, k - 1)
  }

  lemma {:induction false} AdvancesThrough(paths: seq<string>, i: nat, k: nat)
    requires NoEmptyPaths(paths) && i + k < |paths|
    ensures Run(Player(Queue(paths, i), Playing, paths[i]), Repeat(Event(AutoAdvance, true), k))
         == Player(Queue(paths, i + k), Playing, paths[i + k])
    decreases k
  {
    if k > 0 {
      var step := Event(AutoAdvance, true);
      assert Repeat(step, k)[1..] == Repeat(step, k - 1);
      assert paths[i + 1] != "" by {
        assert paths[i + 1] in paths;
      }
      assert Handle(Player(Queue(paths, i), Playing, paths[i]), AutoAdvance, true)
          == Player(Queue(paths, i + 1), Playing, paths[i + 1]);
      AdvancesThrough(paths, i + 1, k - 1);
    }
  }

  lemma {:induction false} RunBoth(p: Player, a: seq<Event>, b: seq<Event>)
    requires InRange(p.queue)
    ensures Run(p, a + b) == Run(Run(p, a), b)
    decreases |a|
  {
    if a == [] {
      assert a + b == b;
    } else {
      RunBoth(Handle(p, a[0].request, a[0].plays), a[1..], b);
      assert (a + b)[0] == a[0] && (a + b)[1..] == a[1..] + b;
    }
  }

  lemma {:induction false} Walk(paths: seq<string>, i: nat, k: nat, forth: bool)
    requires NoEmptyPaths(paths) && (if forth then i + k < |paths| else k <= i < |paths|)
    ensures Run(Player(Queue(paths, i), Playing, paths[i]),
                Repeat(Event(if forth then NextSong else PreviousSong, true), k))
         == var j := if forth then i + k else i - k; Player(Queue(paths, j), Playing, paths[j])
    decreases k
  {
    if k > 0 {
      var step := Event(if forth then NextSong else PreviousSong, true);
      var p, j := Player(Queue(paths, i), Playing, paths[i]), if forth then i + 1 else i - 1;
      assert Repeat(step, k)[0] == step && Repeat(step, k)[1..] == Repeat(step, k - 1);
      assert paths[j] in paths;
      NextGoesOn(p, true);
      PreviousGoesBack(p, true);
      assert Handle(p, step.request, true) == Player(Queue(paths, j), Playing, paths[j]);
      Walk(paths, j, k - 1, forth);
    }
  }

  /** As many songs back as forth leads to where one was. */
  lemma ThereAndBack(paths: seq<string>, i: nat, k: nat)
    requires NoEmptyPaths(paths) && i + k < |paths|
    ensures var p := Player(Queue(paths, i), Playing, paths[i]);
            Run(p, Repeat(Event(NextSong, true), k) + Repeat(Event(PreviousSong, true), k)) == p
  {
    var p := Player(Queue(paths, i), Playing, paths[i]);
    RunBoth(p, Repeat(Event(NextSong, true), k), Repeat(Event(PreviousSong, true), k));
    Walk(paths, i, k, true);
    Walk(paths, i + k, k, false);
  }

  /** An album loaded and started at song i plays on through its songs, one auto-advance each,
      and the advance after the last song ends it. */
  lemma AlbumPlaysThrough(paths: seq<string>, i: nat, k: nat)
    requires NoEmptyPaths(paths) && i + k < |paths|
    ensures var started := Handle(Handle(IDLE, LoadAlbum(paths), true), PlaySongAtIndex(i), true);
            var p := Run(started, Repeat(Event(AutoAdvance, true), k));
            && p.file == paths[i + k] && p.state == Playing
            && (i + k + 1 == |paths| ==> Handle(p, AutoAdvance, true) == IDLE)
  {
    assert paths[i] in paths;
    AdvancesThrough(paths, i, k);
  }
}

/** The controller object: the methods that work on the engine and the queue. */
module Controller {
  import opened Songs
  import opened SongQueues
  import opened Engine
  import opened Playback

  class PlaybackController {
    const engine: PlaybackEngine
    const queue: SongQueue

    ghost predicate Valid()
      reads this, engine, engine.host, queue
    {
      engine.Valid() && InRange(queue.View())
    }

    ghost function View(): Player
      reads this, engine, queue
    {
      Player(queue.View(), engine.state, if engine.state == Stopped then "" else engine.currentFile)
    }

    /** Whether the engine can load and play a file, given what the world answers. */
    predicate CanPlay(w: LoadAnswers)
      reads this, engine
    {
      w.recognised && w.opens && (Reusable(engine.sink, w) || CanOpen(w, engine.outputDevice))
    }

    constructor (host: AudioHost)
      requires host.sinks == []
      ensures Valid() && View() == IDLE && engine.host == host && fresh(engine) && fresh(queue)
    {
      engine := new PlaybackEngine(host);
      queue := new SongQueue();
    }

    method LoadAndPlaySong(path: string, w: LoadAnswers) returns (ok: bool)
      requires Valid()
      modifies engine, engine.host
      ensures Valid() && ok == old(CanPlay(w))
      ensures View() == LoadAndPlay(old(View()).queue, path, ok)
    {
      engine.StopPlayback();
      ok := engine.Load(path, w);
      if !ok {
        return;
      }
      engine.Play();
    }

    method LoadAlbum(paths: seq<string>)
      requires Valid()
      modifies engine, engine.host, queue
      ensures Valid() && View() == Handle(old(View()), Request.LoadAlbum(paths), true)
    {
      Stop();
      queue.LoadPlaylist(paths);
    }

    method Play(w: LoadAnswers)
      requires Valid()
      modifies engine, engine.host
      ensures Valid() && View() == Handle(old(View()), Request.Play, old(CanPlay(w)))
    {
      if queue.playlist == [] {
        return;
      }
      if engine.state == Paused {
        engine.Play();
        return;
      }
      var current := queue.GetCurrentSongPath();
      if current == "" {
        return;
      }
      var _ := LoadAndPlaySong(current, w);
    }

    method Pause()
      requires Valid()
      modifies engine, engine.host
      ensures Valid() && View() == Handle(old(View()), Request.Pause, true)
    {
      engine.Pause();
    }

    method Stop()
      requires Valid()
      modifies engine, engine.host, queue
      ensures Valid() && View() == Handle(old(View()), Request.Stop, true)
    {
      engine.StopPlayback();
      queue.Clear();
    }

    method Next(w: LoadAnswers)
      requires Valid()
      modifies engine, engine.host, queue
      ensures Valid() && View() == Handle(old(View()), Request.NextSong, old(CanPlay(w)))
    {
      var path := queue.Next();
      if path == "" {
        engine.StopPlayback();
        queue.Clear();
        return;
      }
      var _ := LoadAndPlaySong(path, w);
    }

    method Previous(w: LoadAnswers)
      requires Valid()
      modifies engine, engine.host, queue
      ensures Valid() && View() == Handle(old(View()), Request.PreviousSong, old(CanPlay(w)))
    {
      var path := queue.Previous();
      if path == "" {
        return;
      }
      var _ := LoadAndPlaySong(path, w);
    }

    method PlaySongAtIndex(i: int, w: LoadAnswers)
      requires Valid()
      modifies engine, engine.host, queue
      ensures Valid() && View() == Handle(old(View()), Request.PlaySongAtIndex(i), old(CanPlay(w)))
    {
      if queue.playlist == [] {
        return;
      }
      var path := queue.SkipTo(i);
      if path == "" {
        return;
      }
      var _ := LoadAndPlaySong(path, w);
    }

    method HandleAutoAdvance(w: LoadAnswers)
      requires Valid()
      modifies engine, engine.host, queue
      ensures Valid() && View() == Handle(old(View()), Request.AutoAdvance, old(CanPlay(w)))
    {
      var path := queue.Next();
      if path == "" {
        engine.StopPlayback();
        queue.Clear();
        return;
      }
      var _ := LoadAndPlaySong(path, w);
    }
  }
}
