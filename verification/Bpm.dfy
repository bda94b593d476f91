/** The streaming beat detector: what feeding does to its state as a value, and why the way the
    samples are cut into calls does not matter. The object is in `BpmDetectors`. */
module Bpm {
  import opened Beats
  import opened Bits

  // ---- the state as a value ----

  type Step = n: nat | n > 0 witness 1

  datatype Setup = Setup(rate: int, alpha: real, step: Step)

  datatype State = State(setup: Setup, pos: nat, lpf: real, accum: real, count: nat,
                         energies: seq<real>, beats: seq<int>, load: real)

  ghost predicate Good(s: State) {
    s.pos < s.setup.step && s.count < 25 && Spaced(s.beats) && 0.2 <= s.load <= 1.0
  }

  const INITIAL := State(Setup(0, 0.0, 1), 0, 0.0, 0.0, 0, [], [], 0.5)

  function SetupFor(rate: int): Setup
    requires rate > 0
  {
    Setup(rate, OMEGA / (rate as real + OMEGA), if rate / 500 > 1 then rate / 500 else 1)
  }

  function Configured(s: State, rate: int): (r: State)
    requires rate > 0 && Good(s)
    ensures Good(r)
  {
    if rate == s.setup.rate then s else s.(setup := SetupFor(rate), pos := 0)
  }

  function LoadAfter(before: seq<int>, after: seq<int>, load: real): (r: real)
    requires Spaced(after) && 0.2 <= load <= 1.0
    ensures 0.2 <= r <= 1.0
  {
    if after == before then load else NextLoad(after, load)
  }

  lemma BeatsStaySpaced(energies: seq<real>, beats: seq<int>, e: real)
    requires Spaced(beats)
    ensures Spaced(BeatsAfter(energies, beats, e))
  {
    var time := ENERGY_WINDOW * (|energies| + 1);
    if time - LastBeat(beats) > DEBOUNCE {
      SpacedAppend(beats, time);
    }
  }

  /** A window of the given energy is complete. */
  function EndWindow(s: State, e: real): (r: State)
    requires Good(s)
    ensures Good(r)
  {
    BeatsStaySpaced(s.energies, s.beats, e);
    var beats := BeatsAfter(s.energies, s.beats, e);
    s.(accum := 0.0, count := 0, energies := s.energies + [e], beats := beats,
       load := LoadAfter(s.beats, beats, s.load))
  }

  /** One value at the reduced rate. */
  function Sample(s: State): (r: State)
    requires Good(s)
    ensures Good(r)
  {
    var accum := s.accum + Square(s.lpf);
    if s.count + 1 < ENERGY_WINDOW then s.(accum := accum, count := s.count + 1)
    else EndWindow(s, MeanSquare(accum))
  }

  /** One frame, mixed down. */
  function Tick(s: State, mono: real): (r: State)
    requires Good(s)
    ensures Good(r)
  {
    var t := s.(lpf := LowPass(s.setup.alpha, mono, s.lpf));
    if s.pos + 1 < s.setup.step then t.(pos := s.pos + 1) else Sample(t.(pos := 0))
  }

  function Run(s: State, signal: seq<real>): (r: State)
    requires Good(s)
    ensures Good(r)
  {
    if signal == [] then s else Tick(Run(s, signal[..|signal| - 1]), signal[|signal| - 1])
  }

  function Total(frame: seq<int>): real {
    if frame == [] then 0.0 else Total(frame[..|frame| - 1]) + frame[|frame| - 1] as real
  }

  function Mono(frame: seq<int>): real
    requires frame != []
  {
    Total(frame) / |frame| as real
  }

  /** Whole frames mixed down; what is left over is dropped. */
  function Monos(samples: seq<int>, channels: nat): seq<real>
    requires channels > 0
    decreases |samples|
  {
    if |samples| < channels then []
    else [Mono(samples[..channels])] + Monos(samples[channels..], channels)
  }

  lemma OneMoreFrame(n: nat, channels: nat)
    requires channels > 0
    ensures (n + channels) / channels == n / channels + 1
  {
    var q, m := n / channels, n % channels;
    assert n == q * channels + m;
    assert n + channels == (q + 1) * channels + m;
    RemainderIs(n + channels, channels, q + 1, m);
  }

  lemma {:induction false} MonosLength(samples: seq<int>, channels: nat)
    requires channels > 0
    ensures |Monos(samples, channels)| == |samples| / channels
    decreases |samples|
  {
    if |samples| >= channels {
      MonosLength(samples[channels..], channels);
      OneMoreFrame(|samples| - channels, channels);
    } else {
      RemainderIs(|samples|, channels, 0, |samples|);
    }
  }

  lemma {:induction false} MonosAt(samples: seq<int>, channels: nat, f: nat)
    requires channels > 0 && f < |samples| / channels
    ensures |Monos(samples, channels)| == |samples| / channels
    ensures 0 <= f * channels <= f * channels + channels <= |samples|
    ensures Monos(samples, channels)[f] == Mono(samples[f * channels..f * channels + channels])
    decreases f
  {
    MonosLength(samples, channels);
    FrameFits(|samples|, channels, f);
    if f > 0 {
      var rest := samples[channels..];
      MonosLength(rest, channels);
      assert |Monos(samples, channels)| == 1 + |Monos(rest, channels)|;
      MonosAt(rest, channels, f - 1);
      assert (f - 1) * channels + channels == f * channels;
      assert rest[(f - 1) * channels..f * channels] == samples[f * channels..f * channels + channels];
    }
  }

  lemma FrameFits(n: nat, channels: nat, f: nat)
    requires channels > 0 && f < n / channels
    ensures 0 <= f * channels && f * channels + channels <= n
  {
    assert (f + 1) * channels <= n / channels * channels <= n;
  }

  function Feed(s: State, samples: seq<int>, channels: int, rate: int): (r: State)
    requires Good(s)
    ensures Good(r)
  {
    if samples == [] || channels <= 0 || rate <= 0 then s
    else Run(Configured(s, rate), Monos(samples, channels))
  }

  // ---- cutting the samples into calls ----

  lemma {:induction false} RunAppend(s: State, a: seq<real>, b: seq<real>)
    requires Good(s)
    ensures Run(s, a + b) == Run(Run(s, a), b)
    decreases b
  {
    if b == [] {
      assert a + b == a;
    } else {
      RunAppend(s, a, b[..|b| - 1]);
      assert (a + b)[..|a + b| - 1] == a + b[..|b| - 1];
    }
  }

  lemma {:induction false} MonosAppend(a: seq<int>, n: nat, b: seq<int>, channels: nat)
    requires channels > 0 && |a| == n * channels
    ensures Monos(a + b, channels) == Monos(a, channels) + Monos(b, channels)
    decreases n
  {
    if n == 0 {
      assert a + b == b;
    } else {
      assert |a| - channels == (n - 1) * channels && (n - 1) * channels >= 0;
      MonosAppend(a[channels..], n - 1, b, channels);
      assert (a + b)[..channels] == a[..channels];
      assert (a + b)[channels..] == a[channels..] + b;
    }
  }

  lemma RunNext(s: State, signal: seq<real>, f: nat)
    requires Good(s) && f < |signal|
    ensures Run(s, signal[..f + 1]) == Tick(Run(s, signal[..f]), signal[f])
  {
    assert signal[..f + 1][..f] == signal[..f];
  }

  lemma {:induction false} RunKeepsSetup(s: State, signal: seq<real>)
    requires Good(s)
    ensures Run(s, signal).setup == s.setup
  {
    if signal != [] {
      RunKeepsSetup(s, signal[..|signal| - 1]);
    }
  }

  /** Two calls cut at a frame boundary do what one call does. */
  lemma SplitFeed(s: State, a: seq<int>, n: nat, b: seq<int>, channels: int, rate: int)
    requires Good(s) && channels > 0 && |a| == n * channels
    ensures Feed(Feed(s, a, channels, rate), b, channels, rate) == Feed(s, a + b, channels, rate)
  {
    if a == [] {
      assert a + b == b;
    } else if b == [] {
      assert a + b == a;
    } else if rate > 0 {
      var t := Configured(s, rate);
      MonosAppend(a, n, b, channels);
      RunAppend(t, Monos(a, channels), Monos(b, channels));
      RunKeepsSetup(t, Monos(a, channels));
    }
  }

  function FeedAll(s: State, calls: seq<seq<int>>, channels: int, rate: int): (r: State)
    requires Good(s)
    ensures Good(r)
  {
    if calls == [] then s
    else Feed(FeedAll(s, calls[..|calls| - 1], channels, rate), calls[|calls| - 1], channels, rate)
  }

  function Flatten(calls: seq<seq<int>>): seq<int> {
    if calls == [] then [] else Flatten(calls[..|calls| - 1]) + calls[|calls| - 1]
  }

  ghost predicate WholeFrames(samples: seq<int>, channels: int) {
    exists n: nat :: |samples| == n * channels
  }

  lemma {:induction false} FlattenWhole(calls: seq<seq<int>>, channels: int)
    requires forall i | 0 <= i < |calls| :: WholeFrames(calls[i], channels)
    ensures WholeFrames(Flatten(calls), channels)
  {
    if calls == [] {
      assert |Flatten(calls)| == 0 * channels;
    } else {
      var k := |calls| - 1;
      FlattenWhole(calls[..k], channels);
      var n: nat :| |Flatten(calls[..k])| == n * channels;
      assert WholeFrames(calls[k], channels);
      var m: nat :| |calls[k]| == m * channels;
      assert |Flatten(calls)| == (n + m) * channels;
    }
  }

  /** However a stream is cut at frame boundaries into calls, empty ones included, the state after
      them is that of one call. */
  lemma {:induction false} CuttingDoesNotMatter(s: State, calls: seq<seq<int>>, channels: int, rate: int)
    requires Good(s) && channels > 0
    requires forall i | 0 <= i < |calls| - 1 :: WholeFrames(calls[i], channels)
    ensures FeedAll(s, calls, channels, rate) == Feed(s, Flatten(calls), channels, rate)
  {
    if calls != [] {
      var k := |calls| - 1;
      CuttingDoesNotMatter(s, calls[..k], channels, rate);
      FlattenWhole(calls[..k], channels);
      var n: nat :| |Flatten(calls[..k])| == n * channels;
      SplitFeed(s, Flatten(calls[..k]), n, calls[k], channels, rate);
    }
  }

  // ---- any run ----

  datatype Call = Feeding(samples: seq<int>, channels: int, rate: int) | Resetting

  /** The state after any calls, with any formats and in any order. */
  function After(calls: seq<Call>): (s: State)
    ensures Good(s)
  {
    if calls == [] then INITIAL
    else
      match calls[|calls| - 1]
      case Resetting => INITIAL
      case Feeding(samples, channels, rate) => Feed(After(calls[..|calls| - 1]), samples, channels, rate)
  }

  /** In every run the gaps between beats are at least 0.3 seconds, so the mean gap is never zero, the
      tempo is at most 200, and the load factor stays between 0.2 and 1. */
  lemma AlwaysPlausible(calls: seq<Call>)
    ensures var s := After(calls);
            0.2 <= s.load <= 1.0
            && (forall i | 0 <= i < |Gaps(s.beats)| :: Gaps(s.beats)[i] >= 0.3)
            && (|s.beats| >= 2 ==> MeanGap(s.beats) >= 0.3 && 0.0 < Tempo(s.beats) <= 200.0)
  {
    hide Spaced, Gaps, Feed;
    GapsAreLong(After(calls).beats);
  }

  // ---- the stream against the whole signal ----

  /** The values of the window that is not complete yet. */
  function OpenWindow(d: seq<real>): seq<real> {
    d[|d| - |d| % 25..]
  }

  ghost predicate WindowsMatch(s: State, d: seq<real>) {
    s.count == |d| % 25 && s.accum == SumSquares(OpenWindow(d)) && s.energies == Energies(d)
  }

  ghost predicate BeatsMatch(s: State) {
    s.beats == BeatTimes(s.energies) && s.load == Load(s.beats)
  }

  /** The state is what the batch pipeline makes of the signal so far. */
  ghost predicate Matches(s: State, setup: Setup, signal: seq<real>) {
    s.setup == setup
    && s.lpf == LastOf(Filtered(setup.alpha, signal))
    && s.pos == |signal| % setup.step
    && WindowsMatch(s, Decimated(setup.step, Filtered(setup.alpha, signal)))
    && BeatsMatch(s)
  }

  lemma OpenAppend(d: seq<real>, x: real)
    ensures var e, more := d + [x], OpenWindow(d) + [x];
            SumSquares(more) == SumSquares(OpenWindow(d)) + Square(x)
            && if |d| % 25 == 24 then |e| % 25 == 0 && e[|e| - 25..] == more else OpenWindow(e) == more
  {
    var open, k := OpenWindow(d), |d| - |d| % 25;
    var more, e := open + [x], d + [x];
    assert more[..|more| - 1] == open;
    assert e[k..] == more;
    if |d| % 25 == 24 {
      assert |e| - 25 == k;
    } else {
      assert |e| - |e| % 25 == k;
    }
  }

  lemma NothingOpen(d: seq<real>)
    ensures |d| % 25 == 0 ==> SumSquares(OpenWindow(d)) == 0.0
  {
  }

  lemma SampleWindows(s: State, d: seq<real>)
    requires Good(s) && WindowsMatch(s, d)
    ensures WindowsMatch(Sample(s), d + [s.lpf])
  {
    hide SumSquares, Energies, OpenWindow, BeatsAfter, LoadAfter, Spaced;
    OpenAppend(d, s.lpf);
    EnergiesAppend(d, s.lpf);
    NothingOpen(d + [s.lpf]);
  }

  lemma BeatTimesAppend(energies: seq<real>, e: real)
    ensures BeatTimes(energies + [e]) == BeatsAfter(energies, BeatTimes(energies), e)
  {
    assert (energies + [e])[..|energies|] == energies;
  }

  lemma WindowBeats(s: State, e: real)
    requires Good(s) && BeatsMatch(s)
    ensures BeatsMatch(EndWindow(s, e))
  {
    BeatTimesAppend(s.energies, e);
    var after := BeatsAfter(s.energies, s.beats, e);
    if after != s.beats {
      assert after[..|after| - 1] == s.beats;
    }
  }

  lemma SampleBeats(s: State)
    requires Good(s) && BeatsMatch(s)
    ensures BeatsMatch(Sample(s))
  {
    hide BeatTimes, Load, EndWindow, Spaced;
    WindowBeats(s, MeanSquare(s.accum + Square(s.lpf)));
  }

  lemma FilteredAppend(alpha: real, signal: seq<real>, x: real)
    ensures var f := Filtered(alpha, signal);
            Filtered(alpha, signal + [x]) == f + [LowPass(alpha, x, LastOf(f))]
  {
    assert (signal + [x])[..|signal|] == signal;
  }

  lemma DecimatedAppend(step: Step, f: seq<real>, x: real)
    ensures Decimated(step, f + [x]) ==
            if |f| % step + 1 == step then Decimated(step, f) + [x] else Decimated(step, f)
  {
    assert (f + [x])[..|f|] == f;
    NextMultiple(|f|, step);
  }

  lemma TickMatches(s: State, setup: Setup, signal: seq<real>, mono: real)
    requires Good(s) && Matches(s, setup, signal)
    ensures Matches(Tick(s, mono), setup, signal + [mono])
  {
    var f := Filtered(setup.alpha, signal);
    var x := LowPass(setup.alpha, mono, LastOf(f));
    FilteredAppend(setup.alpha, signal, mono);
    DecimatedAppend(setup.step, f, x);
    NextMultiple(|signal|, setup.step);
    if s.pos + 1 == setup.step {
      var t := s.(lpf := x, pos := 0);
      SampleWindows(t, Decimated(setup.step, f));
      SampleBeats(t);
    }
  }

  lemma StartMatches(setup: Setup)
    ensures Good(INITIAL.(setup := setup)) && Matches(INITIAL.(setup := setup), setup, [])
  {
    NextMultiple(0, setup.step);
  }

  /** From a reset detector, any signal leads to exactly the state of the batch pipeline. */
  lemma {:induction false} RunIsBatch(setup: Setup, signal: seq<real>)
    ensures Good(INITIAL.(setup := setup)) && Matches(Run(INITIAL.(setup := setup), signal), setup, signal)
  {
    hide Matches, Good, Tick;
    StartMatches(setup);
    if signal != [] {
      var n := |signal| - 1;
      var s := Run(INITIAL.(setup := setup), signal[..n]);
      RunIsBatch(setup, signal[..n]);
      TickMatches(s, setup, signal[..n], signal[n]);
      assert signal[..n] + [signal[n]] == signal;
    }
  }

  /** A whole track, in any number of calls, is analysed as the batch pipeline analyses it. */
  lemma TrackIsAnalysedWhole(calls: seq<seq<int>>, channels: int, rate: int)
    requires channels > 0 && rate > 0 && Flatten(calls) != []
    requires forall i | 0 <= i < |calls| - 1 :: WholeFrames(calls[i], channels)
    ensures Good(INITIAL)
    ensures Matches(FeedAll(INITIAL, calls, channels, rate), SetupFor(rate), Monos(Flatten(calls), channels))
  {
    CuttingDoesNotMatter(INITIAL, calls, channels, rate);
    RunIsBatch(SetupFor(rate), Monos(Flatten(calls), channels));
    assert Configured(INITIAL, rate) == INITIAL.(setup := SetupFor(rate));
  }
}
