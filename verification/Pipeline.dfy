/** One track through the player: the decode loop feeds the ring, the audio callback drains it. */
module Pipeline {
  import opened Slots
  import opened Spsc

  /** Where the decode loop is. */
  datatype Loop =
    | Top
    | LoadedWritePos(w: nat)
    | SpaceFound
    | Writing(chunk: seq<int>)
    | Finished

  /** The player while a track runs. `decoded`, `delivered` and `silent` are the samples that
      came out of the decoder, the samples handed to the device, and the callbacks that got
      nothing since the last one that got something. */
  datatype Track = Track(
    ring: Ring<int>, channels: nat, chunkFrames: nat,
    loop: Loop, endOfStream: bool, inCallback: bool,
    decoded: seq<int>, delivered: seq<int>, silent: nat)

  datatype Event =
    | LoadForSpace
    | CheckSpace
    | Decode(samples: seq<int>)
    | WriteStep
    | StopRequested
    | Callback(frames: nat)
    | ReadStep

  function Needed(t: Track): nat {
    t.chunkFrames * t.channels
  }

  /** The decoder returns at most the frames asked for; each frame has one sample a channel. */
  ghost predicate FromDecoder(t: Track, samples: seq<int>)
    requires t.channels > 0
  {
    |samples| <= Needed(t) && |samples| % t.channels == 0
  }

  /** The next step of a write that is under way. */
  function WriterStep(p: Producer<int>): Step<int> {
    if p.LoadedOwn? then LoadReadPos
    else if p.Copying? && p.done < p.n then CopyOneIn else PublishWrite
  }

  /** The next step of a read that is under way. */
  function ReaderStep(k: Consumer<int>): Step<int> {
    if k.LoadedRead? then LoadWritePos
    else if k.Taking? && |k.got| < k.n then CopyOneOut else PublishRead
  }

  ghost predicate Ready(t: Track, e: Event) {
    && t.channels > 0 && InBounds(t.ring)
    && match e
       case LoadForSpace => t.loop.Top?
       case CheckSpace => t.loop.LoadedWritePos?
       case Decode(samples) => t.loop.SpaceFound? && FromDecoder(t, samples) && t.ring.producer.Idle?
       case WriteStep => t.loop.Writing?
       case StopRequested => t.loop.Top?
       case Callback(_) => !t.inCallback && t.ring.consumer.Resting?
       case ReadStep => t.inCallback && !t.ring.consumer.Resting?
  }

  ghost function Happens(t: Track, e: Event): Track
    requires Ready(t, e)
  {
    match e
    case LoadForSpace => t.(loop := LoadedWritePos(t.ring.writePos))
    case CheckSpace =>
      var space := Distance(|t.ring.slots|, Distance(t.loop.w, t.ring.readPos));
      t.(loop := if space < Needed(t) then Top else SpaceFound)
    case Decode(samples) =>
      if samples == [] then t.(loop := Finished, endOfStream := true)
      else t.(loop := Writing(samples), decoded := t.decoded + samples,
              ring := Next(t.ring, BeginWrite(samples)))
    case WriteStep =>
      if t.ring.producer.Idle? then t.(loop := Top)
      else t.(ring := Next(t.ring, WriterStep(t.ring.producer)))
    case StopRequested => t.(loop := Finished)
    case Callback(frames) =>
      t.(inCallback := true, ring := Next(t.ring, BeginRead(frames * t.channels)))
    case ReadStep =>
      var k, s := t.ring.consumer, Next(t.ring, ReaderStep(t.ring.consumer));
      if !s.consumer.Resting? then t.(ring := s)
      else AfterRead(t.(ring := s), if k.Taking? then k.got else [])
  }

  /** The end of a callback that read `got`: the device plays whole frames of it. */
  ghost function AfterRead(t: Track, got: seq<int>): Track
    requires t.channels > 0
  {
    var framesRead := |got| / t.channels;
    WholeFrames(|got|, t.channels);
    t.(inCallback := false,
       delivered := t.delivered + got[..framesRead * t.channels],
       silent := if framesRead == 0 then t.silent + 1 else 0)
  }

  lemma WholeFrames(n: nat, c: nat)
    requires c > 0
    ensures 0 <= n / c * c <= n
    ensures n % c == 0 ==> n / c * c == n
  {
  }

  lemma MultiplesAdd(a: nat, b: nat, c: nat)
    requires c > 0 && a % c == 0 && b % c == 0
    ensures (a + b) % c == 0
    ensures b <= a ==> (a - b) % c == 0
  {
    var p, q := a / c, b / c;
    assert a == p * c && b == q * c;
    assert a + b == 0 + (p + q) * c && a - b == (p - q) * c;
    AddMultiple(0, p + q, c);
    if b <= a {
      MultipleOrder(q - p, c);
      AddMultiple(0, p - q, c);
    }
  }

  // ---- the invariant ----

  ghost function Fill(t: Track): int {
    |t.ring.written| - |t.ring.taken|
  }

  ghost function Free(t: Track): int {
    |t.ring.slots| - Fill(t)
  }

  /** Samples decoded whose write has not been published. */
  ghost function Pending(t: Track): seq<int> {
    if t.loop.Writing? && !t.ring.producer.Idle? then t.loop.chunk else []
  }

  /** What the ring still holds for the callback. */
  ghost function Unread(t: Track): seq<int>
    requires |t.ring.taken| <= |t.ring.written|
  {
    t.ring.written[|t.ring.taken|..]
  }

  /** A write that is under way will not be cut short. */
  ghost predicate LoopInv(t: Track)
    requires t.channels > 0
  {
    match t.loop
    case Top => t.ring.producer.Idle?
    case LoadedWritePos(w) => t.ring.producer.Idle? && w == t.ring.writePos
    case SpaceFound => t.ring.producer.Idle? && Free(t) >= Needed(t)
    case Finished => t.ring.producer.Idle?
    case Writing(chunk) =>
      && 0 < |chunk| <= Needed(t) && |chunk| % t.channels == 0
      && match t.ring.producer
         case Idle => true
         case LoadedOwn(data, _) => data == chunk && |chunk| <= Free(t)
         case Copying(data, _, n, _) => data == chunk && n == |chunk|
  }

  ghost predicate CallbackInv(t: Track)
    requires t.channels > 0
  {
    match t.ring.consumer
    case Resting => !t.inCallback
    case LoadedRead(count, _) => t.inCallback && count % t.channels == 0
    case Taking(_, n, _) => t.inCallback && n % t.channels == 0
  }

  ghost predicate TrackInv(t: Track) {
    && t.channels > 0 && Inv(t.ring)
    && |t.ring.written| % t.channels == 0 && |t.ring.taken| % t.channels == 0
    && LoopInv(t) && CallbackInv(t)
    && t.decoded == t.ring.written + Pending(t)
    && t.delivered == t.ring.taken
    && (t.endOfStream ==> t.loop.Finished?)
  }

  lemma RingDistance(t: Track)
    requires TrackInv(t)
    ensures Distance(t.ring.writePos, t.ring.readPos) == Fill(t)
    ensures Distance(|t.ring.slots|, Distance(t.ring.writePos, t.ring.readPos)) == Free(t)
  {
    WrappedDistance(|t.ring.written|, |t.ring.taken|);
  }

  lemma DecodeLoopKeepsInv(t: Track, e: Event)
    requires TrackInv(t) && Ready(t, e)
    requires !e.Callback? && !e.ReadStep? && !e.WriteStep?
    ensures TrackInv(Happens(t, e))
  {
    RingDistance(t);
    if e.Decode? && e.samples != [] {
      StepKeepsInv(t.ring, BeginWrite(e.samples));
      assert t.ring.written + [] == t.ring.written;
    }
  }

  /** No write is short: the space found is still there when the write looks again. */
  lemma WriteIsComplete(t: Track)
    requires TrackInv(t) && t.loop.Writing? && t.ring.producer.LoadedOwn?
    ensures InBounds(t.ring)
    ensures var p := Next(t.ring, LoadReadPos).producer; p.Copying? && p.n == |t.loop.chunk|
  {
    InvIsInBounds(t.ring);
    RingDistance(t);
  }

  lemma WriteStepKeepsTrackInv(t: Track)
    requires TrackInv(t) && Ready(t, WriteStep)
    ensures TrackInv(Happens(t, WriteStep))
  {
    var p := t.ring.producer;
    if !p.Idle? {
      StepKeepsInv(t.ring, WriterStep(p));
      if p.LoadedOwn? {
        WriteIsComplete(t);
      } else if p.done == p.n {
        MultiplesAdd(|t.ring.written|, p.n, t.channels);
        assert p.data[..p.n] == p.data;
        assert t.decoded + [] == t.decoded;
      }
    }
  }

  lemma CallbackKeepsInv(t: Track, frames: nat)
    requires TrackInv(t) && Ready(t, Callback(frames))
    ensures TrackInv(Happens(t, Callback(frames)))
  {
    StepKeepsInv(t.ring, BeginRead(frames * t.channels));
    AddMultiple(0, frames, t.channels);
  }

  lemma ReadLoads(t: Track)
    requires TrackInv(t) && Ready(t, ReadStep) && t.ring.consumer.LoadedRead?
    requires Inv(Next(t.ring, LoadWritePos))
    ensures TrackInv(Happens(t, ReadStep))
  {
    hide ValidCapacity;
    RingDistance(t);
    MultiplesAdd(|t.ring.written|, |t.ring.taken|, t.channels);
    assert t.delivered + [] == t.delivered;
  }

  lemma ReadEnds(t: Track)
    requires TrackInv(t) && Ready(t, ReadStep)
    requires t.ring.consumer.Taking? && |t.ring.consumer.got| == t.ring.consumer.n
    requires Inv(Next(t.ring, PublishRead))
    ensures TrackInv(Happens(t, ReadStep))
  {
    var k := t.ring.consumer;
    MultiplesAdd(|t.ring.taken|, k.n, t.channels);
    WholeFrames(k.n, t.channels);
    assert k.got[..k.n] == k.got;
  }

  lemma ReadStepKeepsTrackInv(t: Track)
    requires TrackInv(t) && Ready(t, ReadStep)
    ensures TrackInv(Happens(t, ReadStep))
  {
    var k := t.ring.consumer;
    StepKeepsInv(t.ring, ReaderStep(k));
    if k.LoadedRead? {
      ReadLoads(t);
    } else if |k.got| == k.n {
      ReadEnds(t);
    }
  }

  lemma EventKeepsInv(t: Track, e: Event)
    requires TrackInv(t) && Ready(t, e)
    ensures TrackInv(Happens(t, e))
  {
    match e
    case WriteStep => WriteStepKeepsTrackInv(t);
    case ReadStep => ReadStepKeepsTrackInv(t);
    case Callback(frames) => CallbackKeepsInv(t, frames);
    case _ => DecodeLoopKeepsInv(t, e);
  }

  // ---- every run of a track ----

  /** After load: an empty ring, the decode loop about to start, the device paused. */
  ghost predicate Started(t: Track) {
    && t.channels > 0 && Initial(t.ring) && t.loop.Top? && !t.endOfStream && !t.inCallback
    && t.decoded == t.delivered == []
  }

  ghost predicate Plays(t: Track, events: seq<Event>, u: Track)
    decreases |events|
  {
    if events == [] then t == u
    else Ready(t, events[0]) && Plays(Happens(t, events[0]), events[1..], u)
  }

  lemma {:induction false} PlayingKeepsInv(t: Track, events: seq<Event>, u: Track)
    requires TrackInv(t) && Plays(t, events, u)
    ensures TrackInv(u)
    decreases |events|
  {
    if events != [] {
      EventKeepsInv(t, events[0]);
      PlayingKeepsInv(Happens(t, events[0]), events[1..], u);
    }
  }

  /** Under every interleaving: what the device got, then what the ring holds, then what is
      being written, is exactly what was decoded. */
  lemma NothingIsLost(t: Track, events: seq<Event>, u: Track)
    requires Started(t) && Plays(t, events, u)
    ensures |u.ring.taken| <= |u.ring.written|
    ensures u.delivered + Unread(u) + Pending(u) == u.decoded
    ensures u.channels > 0 && |u.delivered| % u.channels == 0
  {
    assert t.ring.written + [] == t.ring.written;
    PlayingKeepsInv(t, events, u);
    assert u.ring.taken + Unread(u) == u.ring.written;
  }

  /** A track decoded to its end has been played from first sample to last exactly when the ring
      is drained. */
  lemma DrainedTrackIsComplete(t: Track, events: seq<Event>, u: Track)
    requires Started(t) && Plays(t, events, u) && u.endOfStream
    ensures u.delivered == u.decoded <==> Distance(u.ring.writePos, u.ring.readPos) == 0
  {
    NothingIsLost(t, events, u);
    PlayingKeepsInv(t, events, u);
    RingDistance(u);
    assert |u.decoded| == |u.delivered| + |Unread(u)|;
    assert u.delivered + [] + [] == u.delivered;
  }

  // ---- what came out of the decoder ----

  /** The samples the decoder returned during a run, in order. */
  function SamplesOf(events: seq<Event>): seq<int> {
    if events == [] then [] else (if events[0].Decode? then events[0].samples else []) + SamplesOf(events[1..])
  }

  /** What counts as decoded is what the decoder returned, all of it and in order, and the stream has
      ended exactly when the decoder returned nothing. */
  lemma {:induction false} DecodedIsWhatCame(t: Track, events: seq<Event>, u: Track)
    requires Plays(t, events, u)
    ensures u.decoded == t.decoded + SamplesOf(events)
    ensures u.endOfStream <==> t.endOfStream || Decode([]) in events
    decreases |events|
  {
    if events == [] {
      assert t.decoded + [] == t.decoded;
    } else {
      var e, v := events[0], Happens(t, events[0]);
      DecodedIsWhatCame(v, events[1..], u);
      assert events == [e] + events[1..];
      assert v.decoded == t.decoded + (if e.Decode? then e.samples else []);
      assert t.decoded + (if e.Decode? then e.samples else []) + SamplesOf(events[1..])
          == t.decoded + SamplesOf(events);
    }
  }

  // ---- what one callback delivers ----

  /** The callback goes on until the last event, and is over then. */
  ghost predicate UntilDone(t: Track, events: seq<Event>, u: Track)
    decreases |events|
  {
    if events == [] then t == u && !t.inCallback
    else t.inCallback && Ready(t, events[0]) && UntilDone(Happens(t, events[0]), events[1..], u)
  }

  lemma DecodeLoopLeavesCallback(t: Track, e: Event)
    requires TrackInv(t) && Ready(t, e) && !e.ReadStep? && !e.Callback?
    ensures var u := Happens(t, e);
            TrackInv(u) && u.ring.consumer == t.ring.consumer && u.inCallback == t.inCallback
            && u.delivered == t.delivered && u.channels == t.channels && Fill(u) >= Fill(t)
  {
    EventKeepsInv(t, e);
  }

  lemma {:induction false} BeforeTheLoad(t: Track, events: seq<Event>, u: Track)
    requires TrackInv(t) && t.inCallback && Plays(t, events, u) && ReadStep !in events
    ensures TrackInv(u) && u.ring.consumer == t.ring.consumer && u.inCallback
    ensures u.delivered == t.delivered && u.channels == t.channels && Fill(u) >= Fill(t)
    decreases |events|
  {
    hide TrackInv, Happens, Fill;
    if events != [] {
      assert events[0] in events && events == [events[0]] + events[1..];
      DecodeLoopLeavesCallback(t, events[0]);
      BeforeTheLoad(Happens(t, events[0]), events[1..], u);
    }
  }

  lemma CopyingGoesOn(t: Track)
    requires TrackInv(t) && Ready(t, ReadStep) && t.ring.consumer.Taking?
    ensures var k, u := t.ring.consumer, Happens(t, ReadStep);
            TrackInv(u)
            && (if |k.got| < k.n
                then u.inCallback && u.ring.consumer.Taking? && u.ring.consumer.n == k.n && u.delivered == t.delivered
                else !u.inCallback && |u.delivered| == |t.delivered| + k.n)
  {
    EventKeepsInv(t, ReadStep);
  }

  /** A read of n samples that is under way delivers n samples. */
  lemma {:induction false} TakingDelivers(t: Track, events: seq<Event>, u: Track)
    requires TrackInv(t) && t.ring.consumer.Taking? && UntilDone(t, events, u) && t.inCallback
    ensures TrackInv(u) && |u.delivered| == |t.delivered| + t.ring.consumer.n
    decreases |events|
  {
    hide TrackInv, Happens;
    var e, v := events[0], Happens(t, events[0]);
    if e.ReadStep? {
      CopyingGoesOn(t);
    } else {
      DecodeLoopLeavesCallback(t, e);
    }
    if v.inCallback {
      TakingDelivers(v, events[1..], u);
    }
  }

  lemma LoadDecides(t: Track)
    requires TrackInv(t) && Ready(t, ReadStep) && t.ring.consumer.LoadedRead?
    ensures var count, u := t.ring.consumer.count, Happens(t, ReadStep);
            TrackInv(u) && u.delivered == t.delivered && Fill(t) >= 0
            && (if count == 0 || Fill(t) == 0 then !u.inCallback
                else u.inCallback && u.ring.consumer.Taking? && u.ring.consumer.n == Min(count, Fill(t)))
  {
    EventKeepsInv(t, ReadStep);
    ReadTakesWhatIsThere(t.ring);
    assert t.delivered + [] == t.delivered;
  }

  /** Whatever the decode loop does meanwhile, a callback that asks for some frames delivers exactly
      that many, or all the samples that are in the ring when it looks, if those are fewer: the next
      samples in the order they were decoded. What was there when it was called is there when it
      looks. */
  lemma CallbackDelivers(t: Track, frames: nat, before: seq<Event>, v: Track, after: seq<Event>, u: Track)
    requires TrackInv(t) && Ready(t, Callback(frames))
    requires Plays(Happens(t, Callback(frames)), before, v) && ReadStep !in before
    requires Ready(v, ReadStep) && UntilDone(Happens(v, ReadStep), after, u)
    ensures Fill(v) >= Fill(t) >= 0 && frames * t.channels >= 0
    ensures var n := |t.delivered| + Min(frames * t.channels, Fill(v));
            n <= |u.decoded| && u.delivered == u.decoded[..n]
  {
    var start, loaded := Happens(t, Callback(frames)), Happens(v, ReadStep);
    EventKeepsInv(t, Callback(frames));
    CallbackStarts(t, frames);
    hide Happens, LoopInv, CallbackInv, Ready;
    BeforeTheLoad(start, before, v);
    LoadDecides(v);
    if loaded.inCallback {
      TakingDelivers(loaded, after, u);
    }
    DeliveredIsPrefix(u);
  }

  /** Steps of the callback and of nothing else. */
  function Alone(steps: nat): seq<Event> {
    if steps == 0 then [] else [ReadStep] + Alone(steps - 1)
  }

  lemma AloneBegins(steps: nat)
    requires steps > 0
    ensures Alone(steps) != [] && Alone(steps)[0] == ReadStep && Alone(steps)[1..] == Alone(steps - 1)
  {
  }

  lemma {:induction false} CopyingEndsAlone(t: Track) returns (u: Track)
    requires TrackInv(t) && t.ring.consumer.Taking?
    requires |t.ring.consumer.got| <= t.ring.consumer.n
    ensures UntilDone(t, Alone(t.ring.consumer.n - |t.ring.consumer.got| + 1), u)
    decreases t.ring.consumer.n - |t.ring.consumer.got|
  {
    var k := t.ring.consumer;
    var left := k.n - |k.got|;
    CopyingStep(t);
    CopyingGoesOn(t);
    AloneBegins(left + 1);
    hide TrackInv, Happens, Ready, Alone;
    var v := Happens(t, ReadStep);
    if left == 0 {
      AloneIsOver();
      u := v;
    } else {
      u := CopyingEndsAlone(v);
    }
  }

  lemma AloneIsOver()
    ensures Alone(0) == []
  {
  }

  lemma CopyingStep(t: Track)
    requires TrackInv(t) && t.ring.consumer.Taking?
    requires |t.ring.consumer.got| <= t.ring.consumer.n
    ensures Ready(t, ReadStep) && t.inCallback
    ensures var k, u := t.ring.consumer, Happens(t, ReadStep);
            |k.got| < k.n ==> u.ring.consumer.Taking? && |u.ring.consumer.got| == |k.got| + 1
  {
    InvIsInBounds(t.ring);
  }

  /** A callback never waits for the decode loop. By itself it is over after one look at the ring and,
      when there is something to deliver, a step for every sample and one to give the slots back. */
  lemma CallbackNeverWaits(t: Track, frames: nat) returns (u: Track)
    requires TrackInv(t) && Ready(t, Callback(frames))
    ensures Fill(t) >= 0 && frames * t.channels >= 0
    ensures var n := Min(frames * t.channels, Fill(t));
            UntilDone(Happens(t, Callback(frames)), Alone(if n == 0 then 1 else n + 2), u)
            && |u.delivered| == |t.delivered| + n
  {
    var start := Happens(t, Callback(frames));
    EventKeepsInv(t, Callback(frames));
    CallbackStarts(t, frames);
    var n := Min(frames * t.channels, Fill(t));
    LookingIsReady(start);
    LoadDecides(start);
    NothingTakenYet(start);
    AloneBegins(if n == 0 then 1 else n + 2);
    hide TrackInv, Happens, Ready, Alone;
    var loaded := Happens(start, ReadStep);
    if n == 0 {
      AloneIsOver();
      u := loaded;
    } else {
      u := CopyingEndsAlone(loaded);
    }
    assert Plays(start, [], start);
    CallbackDelivers(t, frames, [], start, Alone(if n == 0 then 0 else n + 1), u);
  }

  lemma LookingIsReady(t: Track)
    requires TrackInv(t) && t.ring.consumer.LoadedRead?
    ensures Ready(t, ReadStep) && t.inCallback
  {
    InvIsInBounds(t.ring);
  }

  lemma NothingTakenYet(t: Track)
    requires TrackInv(t) && Ready(t, ReadStep) && t.ring.consumer.LoadedRead?
    ensures var k := Happens(t, ReadStep).ring.consumer;
            k.Taking? ==> k.got == []
  {
  }

  lemma CallbackStarts(t: Track, frames: nat)
    requires TrackInv(t) && Ready(t, Callback(frames))
    ensures var u := Happens(t, Callback(frames));
            u.inCallback && u.delivered == t.delivered && u.channels == t.channels && Fill(u) == Fill(t) >= 0
            && u.ring.consumer.LoadedRead? && frames * t.channels >= 0
            && u.ring.consumer.count == frames * t.channels
  {
  }

  lemma DeliveredIsPrefix(t: Track)
    requires TrackInv(t)
    ensures |t.delivered| <= |t.decoded| && t.delivered == t.decoded[..|t.delivered|]
  {
  }

  // ---- silent callbacks ----

  const END_OF_STREAM_THRESHOLD := 5

  /** What the player takes for the end of the track. */
  predicate ReportsEnd(t: Track) {
    t.silent >= END_OF_STREAM_THRESHOLD
  }

  /** A callback is silent exactly when it asks for nothing or finds the ring empty at the moment
      it loads the write position. */
  lemma SilentExactlyWhenEmpty(t: Track)
    requires TrackInv(t) && Ready(t, ReadStep) && t.ring.consumer.LoadedRead?
    ensures var u := Happens(t, ReadStep);
            if Fill(t) == 0 || t.ring.consumer.count == 0
            then u == t.(ring := u.ring, inCallback := false, silent := t.silent + 1) && u.ring.consumer.Resting?
            else u.inCallback && u.silent == t.silent
  {
    RingDistance(t);
    assert t.delivered + [] == t.delivered;
  }

  /** A callback that found samples ends the silence. */
  lemma SoundEndsSilence(t: Track)
    requires TrackInv(t) && Ready(t, ReadStep)
    requires t.ring.consumer.Taking? && |t.ring.consumer.got| == t.ring.consumer.n
    ensures Happens(t, ReadStep).silent == 0
  {
    var n := t.ring.consumer.n;
    WholeFrames(n, t.channels);
    assert n / t.channels * t.channels == n > 0;
  }

  /** A silent callback that asked for samples after the end of the stream means the whole track
      has been played. */
  lemma SilenceAfterTheEnd(t: Track)
    requires TrackInv(t) && Ready(t, ReadStep) && t.endOfStream
    requires t.ring.consumer.LoadedRead? && t.ring.consumer.count > 0
    ensures Happens(t, ReadStep).silent > t.silent <==> t.delivered == t.decoded
  {
    SilentExactlyWhenEmpty(t);
    assert t.decoded == t.ring.written + [];
    assert t.delivered == t.ring.written[..|t.ring.taken|];
  }

  /** One callback on an empty ring, wherever the decode loop is. */
  lemma SilentCallback(t: Track, frames: nat)
    requires TrackInv(t) && !t.inCallback && Fill(t) == 0
    ensures Ready(t, Callback(frames)) && Ready(Happens(t, Callback(frames)), ReadStep)
    ensures var u := Happens(Happens(t, Callback(frames)), ReadStep);
            u == t.(silent := t.silent + 1) && TrackInv(u)
  {
    InvIsInBounds(t.ring);
    var v := Happens(t, Callback(frames));
    EventKeepsInv(t, Callback(frames));
    InvIsInBounds(v.ring);
    SilentExactlyWhenEmpty(v);
    EventKeepsInv(v, ReadStep);
  }

  function Callbacks(frames: nat, k: nat): seq<Event> {
    if k == 0 then [] else [Callback(frames), ReadStep] + Callbacks(frames, k - 1)
  }

  lemma {:induction false} SilenceAddsUp(t: Track, frames: nat, k: nat)
    requires TrackInv(t) && !t.inCallback && Fill(t) == 0
    ensures Plays(t, Callbacks(frames, k), t.(silent := t.silent + k))
    decreases k
  {
    hide TrackInv, Happens, Ready, Fill;
    if k > 0 {
      SilentCallback(t, frames);
      var v := t.(silent := t.silent + 1);
      FillIgnoresSilence(t, v);
      SilenceAddsUp(v, frames, k - 1);
      var events := Callbacks(frames, k);
      assert events[1..][0] == ReadStep && events[1..][1..] == Callbacks(frames, k - 1);
    }
  }

  lemma FillIgnoresSilence(t: Track, u: Track)
    requires u.ring == t.ring
    ensures Fill(u) == Fill(t)
  {
  }

  /** The report is no proof of the end: in any moment when the ring has run dry, the callbacks that
      follow bring it about with the decode loop where it is, at the end of the stream or not. */
  lemma UnderrunLooksLikeTheEnd(t: Track, events: seq<Event>, u: Track, frames: nat)
    requires Started(t) && Plays(t, events, u) && !u.inCallback && Fill(u) == 0
    ensures var v := u.(silent := u.silent + END_OF_STREAM_THRESHOLD);
            Plays(u, Callbacks(frames, END_OF_STREAM_THRESHOLD), v) && ReportsEnd(v) && v.endOfStream == u.endOfStream
  {
    NothingIsLost(t, events, u);
    StartedInv(t);
    PlayingKeepsInv(t, events, u);
    var k := END_OF_STREAM_THRESHOLD;
    SilenceAddsUp(u, frames, k);
  }

  lemma StartedInv(t: Track)
    requires Started(t)
    ensures TrackInv(t)
  {
    assert t.ring.written + [] == t.ring.written;
  }

  // ---- filling up before playback starts ----

  /** The decode loop turns back for lack of space exactly when less than a chunk is free. */
  lemma BlockedExactlyWhenFull(t: Track)
    requires TrackInv(t) && Ready(t, CheckSpace)
    ensures Happens(t, CheckSpace).loop.Top? <==> Fill(t) > |t.ring.slots| - Needed(t)
  {
    RingDistance(t);
  }

  ghost predicate OfDecodeLoop(e: Event) {
    e.LoadForSpace? || e.CheckSpace? || e.Decode? || e.WriteStep?
  }

  /** What the caller that waits for the prefill looks at. */
  ghost predicate StillWaiting(t: Track, target: nat) {
    Fill(t) < target && !t.endOfStream
  }

  /** Steps of the decode loop left in this round, at most. */
  ghost function StepsInRound(t: Track): nat {
    match t.loop
    case Top => Needed(t) + 7
    case LoadedWritePos(_) => Needed(t) + 6
    case SpaceFound => Needed(t) + 5
    case Finished => 0
    case Writing(_) =>
      match t.ring.producer
      case Idle => Needed(t) + 8
      case LoadedOwn(_, _) => Needed(t) + 4
      case Copying(_, _, n, done) => if done <= n then n - done + 2 else 0
  }

  /** Steps of the decode loop before the wait for `target` samples is over, at most. */
  ghost function StepsToGo(t: Track, target: nat): nat {
    if Fill(t) >= target then 0 else (target - Fill(t)) * (Needed(t) + 9) + StepsInRound(t)
  }

  lemma FewerRounds(d: nat, e: nat, k: nat)
    requires e < d
    ensures e * k + k <= d * k
  {
    assert (e + 1) * k <= d * k;
  }

  lemma PrefillProgress(t: Track, e: Event, target: nat)
    requires TrackInv(t) && OfDecodeLoop(e) && Ready(t, e)
    requires target + Needed(t) <= |t.ring.slots|
    requires StillWaiting(t, target)
    ensures var u := Happens(t, e);
            StillWaiting(u, target) ==> StepsToGo(u, target) < StepsToGo(t, target)
  {
    EventKeepsInv(t, e);
    RingDistance(t);
    var u := Happens(t, e);
    if StillWaiting(u, target) && Fill(u) > Fill(t) {
      FewerRounds(target - Fill(t), target - Fill(u), Needed(t) + 9);
    }
  }

  ghost predicate DecodeLoopOnly(events: seq<Event>) {
    forall e | e in events :: OfDecodeLoop(e)
  }

  /** The wait ends: whatever the decoder returns, no run of the decode loop longer than
      StepsToGo keeps the caller waiting, as long as the target leaves room for a chunk. */
  lemma {:induction false} PrefillEnds(t: Track, events: seq<Event>, u: Track, target: nat)
    requires TrackInv(t) && Plays(t, events, u) && DecodeLoopOnly(events)
    requires target + Needed(t) <= |t.ring.slots|
    requires StillWaiting(t, target) && |events| >= StepsToGo(t, target)
    ensures exists i | 0 <= i <= |events| :: WaitOverAfter(t, events[..i], target)
    decreases |events|
  {
    hide TrackInv, StepsInRound;
    FewerRounds(target - Fill(t), 0, Needed(t) + 9);
    var e, rest := events[0], events[1..];
    var v := Happens(t, e);
    assert e in events;
    EventKeepsInv(t, e);
    assert DecodeLoopOnly(rest) by {
      forall x | x in rest ensures OfDecodeLoop(x) {
        assert x in events;
      }
    }
    if StillWaiting(v, target) {
      PrefillProgress(t, e, target);
      PrefillEnds(v, rest, u, target);
      var i :| 0 <= i <= |rest| && WaitOverAfter(v, rest[..i], target);
      WaitOverLater(t, events, v, i, target);
    } else {
      assert Plays(v, [], v);
      assert WaitOverAfter(v, [], target);
      WaitOverLater(t, events, v, 0, target);
    }
  }

  ghost predicate WaitOverAfter(t: Track, events: seq<Event>, target: nat) {
    exists u :: Plays(t, events, u) && !StillWaiting(u, target)
  }

  lemma WaitOverLater(t: Track, events: seq<Event>, v: Track, i: nat, target: nat)
    requires events != [] && Ready(t, events[0]) && v == Happens(t, events[0])
    requires i < |events| && WaitOverAfter(v, events[1..][..i], target)
    ensures WaitOverAfter(t, events[..i + 1], target)
  {
    var u :| Plays(v, events[1..][..i], u) && !StillWaiting(u, target);
    var es := events[..i + 1];
    assert es[0] == events[0] && es[1..] == events[1..][..i];
    assert Plays(t, es, u);
  }

  /** And it cannot hang: while the loop has not finished, one of its steps can be taken. */
  lemma DecodeLoopCanStep(t: Track)
    requires TrackInv(t) && !t.loop.Finished?
    ensures exists e :: OfDecodeLoop(e) && Ready(t, e)
  {
    InvIsInBounds(t.ring);
    match t.loop
    case Top => assert Ready(t, LoadForSpace);
    case LoadedWritePos(_) => assert Ready(t, CheckSpace);
    case SpaceFound => assert Ready(t, Decode([]));
    case Writing(_) => assert Ready(t, WriteStep);
  }

  const RING_BUFFER_SIZE_SECONDS := 2
  const MAX_SAMPLE_RATE := 192000
  const MAX_CHANNELS := 2
  const DECODE_CHUNK_FRAMES := 1152

  /** With the configured sizes, a quarter of whatever space is free leaves room for a chunk,
      so starting playback never waits for ever. */
  lemma ConfiguredPrefillEnds(t: Track, events: seq<Event>, u: Track, available: nat)
    requires TrackInv(t) && t.channels <= MAX_CHANNELS && t.chunkFrames == DECODE_CHUNK_FRAMES
    requires |t.ring.slots| >= RING_BUFFER_SIZE_SECONDS * MAX_SAMPLE_RATE * MAX_CHANNELS
    requires available <= |t.ring.slots|
    requires Plays(t, events, u) && DecodeLoopOnly(events) && |events| >= StepsToGo(t, available / 4)
    requires StillWaiting(t, available / 4)
    ensures exists i | 0 <= i <= |events| :: WaitOverAfter(t, events[..i], available / 4)
  {
    PrefillEnds(t, events, u, available / 4);
  }
}
