/** The beat detector object: the same state as Bpm.State, in fields and two circular arrays. */
module Circular {
  import opened Beats
  import opened Bits

  /** The contents of a circular array from its oldest slot on. */
  function Rotated(a: seq<real>, pos: nat): (r: seq<real>)
    requires pos <= |a|
    ensures |r| == |a|
  {
    a[pos..] + a[..pos]
  }

  /** The array holds the newest |a| values of s, and zeros while there are fewer. */
  ghost predicate Holds(a: seq<real>, pos: nat, s: seq<real>) {
    |a| > 0 && pos == |s| % |a| && Rotated(a, pos) == Newest(|a|, s)
  }

  lemma PositionFits(a: seq<real>, pos: nat, s: seq<real>)
    requires Holds(a, pos, s)
    ensures pos < |a| && (|s| < |a| ==> pos == |s|)
  {
    if |s| < |a| {
      RemainderIs(|s|, |a|, 0, |s|);
    }
  }

  /** What is held determines the position and every slot. */
  lemma HeldDetermines(a: seq<real>, p: nat, b: seq<real>, q: nat, s: seq<real>)
    requires Holds(a, p, s) && Holds(b, q, s) && |a| == |b|
    ensures p == q && a == b
  {
    var r := Rotated(a, p);
    assert a[p..] == r[..|a| - p] && a[..p] == r[|a| - p..];
    assert b[p..] == r[..|a| - p] && b[..p] == r[|a| - p..];
    assert a == a[..p] + a[p..] && b == b[..p] + b[p..];
  }

  function Next(n: nat, pos: nat): (r: nat)
    requires pos < n
    ensures r < n
  {
    if pos + 1 == n then 0 else pos + 1
  }

  lemma RotatedWrite(a: seq<real>, pos: nat, x: real)
    requires pos < |a|
    ensures Rotated(a[pos := x], Next(|a|, pos)) == Rotated(a, pos)[1..] + [x]
  {
  }

  /** Writing at the position and moving on forgets the oldest value and adds the new one. */
  lemma Write(a: seq<real>, pos: nat, s: seq<real>, x: real)
    requires Holds(a, pos, s)
    ensures pos < |a| && Holds(a[pos := x], Next(|a|, pos), s + [x])
  {
    NextMultiple(|s|, |a|);
    RotatedWrite(a, pos, x);
    NewestAppend(|a|, s, x);
  }

  lemma SumSwaps(a: seq<real>, b: seq<real>)
    ensures Sum(a + b) == Sum(b + a)
  {
    SumAppend(a, b);
    SumAppend(b, a);
  }

  lemma TakeAndDrop(a: seq<real>, pos: nat)
    requires pos <= |a|
    ensures a[..pos] + a[pos..] == a
  {
  }

  lemma SumOfRotated(a: seq<real>, pos: nat)
    requires pos <= |a|
    ensures Sum(Rotated(a, pos)) == Sum(a)
  {
    hide Sum;
    TakeAndDrop(a, pos);
    SumSwaps(a[pos..], a[..pos]);
  }

  lemma ZerosHoldNothing(a: seq<real>)
    requires |a| > 0 && forall i | 0 <= i < |a| :: a[i] == 0.0
    ensures Holds(a, 0, [])
  {
    RemainderIs(0, |a|, 0, 0);
  }

  lemma SumOfHeld(a: seq<real>, pos: nat, s: seq<real>)
    requires Holds(a, pos, s)
    ensures Sum(a) == Sum(Newest(|a|, s))
  {
    SumOfRotated(a, pos);
  }

  /** The slots in use sum to the recent values, wherever the oldest is. */
  lemma SumOfUsed(a: seq<real>, pos: nat, s: seq<real>)
    requires Holds(a, pos, s)
    ensures var used := if |s| < |a| then |s| else |a|;
            Sum(a[..used]) == Sum(Recent(|a|, s)) && |Recent(|a|, s)| == used
  {
    PositionFits(a, pos, s);
    if |s| < |a| {
      assert a[..pos] == Rotated(a, pos)[|a| - pos..] == s;
    } else {
      SumOfHeld(a, pos, s);
      assert a[..|a|] == a;
    }
  }
}

module BpmDetectors {
  import opened Beats
  import opened Circular
  import Bpm

  class BpmDetector {
    var lpfState: real
    var alpha: real
    var cachedRate: int
    var downsampleStep: Bpm.Step
    var downsamplePos: nat
    var energyAccum: real
    var energyCount: nat
    const history: array<real>
    var historyPos: nat
    var totalSamples: int
    var lastBeatSample: int
    const intervals: array<real>
    var intervalPos: nat
    var intervalsCollected: nat
    var smoothedLoadFactor: real
    var loadFactor: real

    ghost var energies: seq<real>
    ghost var beats: seq<int>

    ghost predicate HistoryValid()
      reads this, history
    {
      history.Length == HISTORY_SIZE && Holds(history[..], historyPos, energies)
    }

    /** The intervals array holds the last gaps between beats, and the counters go with it. */
    ghost predicate IntervalsValid()
      reads this, intervals
    {
      var gaps := Gaps(beats);
      intervals.Length == INTERVAL_COUNT && Holds(intervals[..], intervalPos, gaps)
      && intervalsCollected == (if |gaps| < INTERVAL_COUNT then |gaps| else INTERVAL_COUNT)
      && lastBeatSample == LastBeat(beats) && Spaced(beats)
      && 0.2 <= smoothedLoadFactor <= 1.0 && loadFactor == smoothedLoadFactor
    }

    ghost predicate Valid()
      reads this, history, intervals
    {
      HistoryValid() && IntervalsValid() && Bpm.Good(State())
      && totalSamples == ENERGY_WINDOW * |energies| + energyCount
    }

    ghost function State(): Bpm.State
      reads this
    {
      Bpm.State(Bpm.Setup(cachedRate, alpha, downsampleStep), downsamplePos, lpfState, energyAccum, energyCount,
                energies, beats, smoothedLoadFactor)
    }

    constructor ()
      ensures Valid() && State() == Bpm.INITIAL && fresh(history) && fresh(intervals)
    {
      hide Holds, Spaced, Gaps, LastBeat;
      NoBeats();
      lpfState, alpha, cachedRate, downsampleStep, downsamplePos := 0.0, 0.0, 0, 1, 0;
      energyAccum, energyCount, historyPos, totalSamples, lastBeatSample := 0.0, 0, 0, 0, 0;
      history := new real[HISTORY_SIZE](_ => 0.0);
      intervals := new real[INTERVAL_COUNT](_ => 0.0);
      intervalPos, intervalsCollected, smoothedLoadFactor, loadFactor := 0, 0, 0.5, 0.5;
      energies, beats := [], [];
      new;
      ZerosHoldNothing(history[..]);
      ZerosHoldNothing(intervals[..]);
    }

    /** Detectors in the same state have the same fields, down to every slot of both arrays. So
        what is said of the state, such as that it does not depend on how the samples were cut
        into calls, holds of the fields too. */
    lemma SameStateSameFields(other: BpmDetector)
      requires Valid() && other.Valid() && State() == other.State()
      ensures lpfState == other.lpfState && alpha == other.alpha && cachedRate == other.cachedRate
      ensures downsampleStep == other.downsampleStep && downsamplePos == other.downsamplePos
      ensures energyAccum == other.energyAccum && energyCount == other.energyCount
      ensures history[..] == other.history[..] && historyPos == other.historyPos
      ensures totalSamples == other.totalSamples && lastBeatSample == other.lastBeatSample
      ensures intervals[..] == other.intervals[..] && intervalPos == other.intervalPos
      ensures intervalsCollected == other.intervalsCollected
      ensures smoothedLoadFactor == other.smoothedLoadFactor && loadFactor == other.loadFactor
    {
      hide Holds, Spaced, Gaps, LastBeat;
      HeldDetermines(history[..], historyPos, other.history[..], other.historyPos, energies);
      HeldDetermines(intervals[..], intervalPos, other.intervals[..], other.intervalPos, Gaps(beats));
    }

    method Fill(a: array<real>)
      requires a.Length > 0
      modifies a
      ensures Holds(a[..], 0, [])
    {
      for i := 0 to a.Length
        invariant forall j | 0 <= j < i :: a[j] == 0.0
      {
        a[i] := 0.0;
      }
      ZerosHoldNothing(a[..]);
    }

    /** No energies and no beats. */
    method ForgetBeats()
      requires history.Length == HISTORY_SIZE && intervals.Length == INTERVAL_COUNT
      modifies history, intervals, `historyPos, `energies
      modifies `lastBeatSample, `intervalPos, `intervalsCollected, `smoothedLoadFactor, `loadFactor, `beats
      ensures HistoryValid() && IntervalsValid()
      ensures energies == [] && beats == [] && smoothedLoadFactor == 0.5
    {
      hide Holds, Spaced, Gaps, LastBeat;
      NoBeats();
      historyPos, lastBeatSample, intervalPos, intervalsCollected, smoothedLoadFactor := 0, 0, 0, 0, 0.5;
      Fill(history);
      Fill(intervals);
      loadFactor := 0.5;
      energies, beats := [], [];
    }

    /** The filter and the open window, as in a new detector. */
    method ForgetSamples()
      modifies `lpfState, `alpha, `cachedRate, `downsampleStep, `downsamplePos, `energyAccum, `energyCount, `totalSamples
      ensures lpfState == alpha == energyAccum == 0.0 && cachedRate == downsamplePos == energyCount == totalSamples == 0
      ensures downsampleStep == 1
    {
      lpfState, alpha, cachedRate, downsampleStep, downsamplePos := 0.0, 0.0, 0, 1, 0;
      energyAccum, energyCount, totalSamples := 0.0, 0, 0;
    }

    /** Everything starts again. */
    method Reset()
      requires Valid()
      modifies this, history, intervals
      ensures Valid() && State() == Bpm.INITIAL
    {
      hide Holds, Spaced, Gaps, LastBeat;
      NoBeats();
      ForgetSamples();
      ForgetBeats();
    }

    function GetLoadFactor(): real
      reads this
    {
      loadFactor
    }

    method SumOf(a: array<real>, n: nat) returns (sum: real)
      requires n <= a.Length
      ensures sum == Sum(a[..n])
    {
      sum := 0.0;
      for i := 0 to n
        invariant sum == Sum(a[..i])
      {
        assert a[..i + 1][..i] == a[..i];
        sum := sum + a[i];
      }
    }

    /** A new gap between beats: the newest gaps give the tempo, and that the load. */
    method RecordGap(interval: real, ghost gaps: seq<real>)
      requires intervals.Length == INTERVAL_COUNT && Holds(intervals[..], intervalPos, gaps)
      requires intervalsCollected == if |gaps| < INTERVAL_COUNT then |gaps| else INTERVAL_COUNT
      requires Spaced(beats) && Gaps(beats) == gaps + [interval] && 0.2 <= smoothedLoadFactor <= 1.0
      modifies intervals, `intervalPos, `intervalsCollected, `smoothedLoadFactor, `loadFactor
      ensures Holds(intervals[..], intervalPos, Gaps(beats))
      ensures intervalsCollected == if |gaps| + 1 < INTERVAL_COUNT then |gaps| + 1 else INTERVAL_COUNT
      ensures smoothedLoadFactor == NextLoad(beats, old(smoothedLoadFactor))
      ensures loadFactor == if |gaps| == 0 then old(loadFactor) else smoothedLoadFactor
    {
      hide Holds, Spaced, Gaps, NextLoad;
      Write(intervals[..], intervalPos, gaps, interval);
      intervals[intervalPos] := interval;
      intervalPos := (intervalPos + 1) % INTERVAL_COUNT;
      if intervalsCollected < INTERVAL_COUNT {
        intervalsCollected := intervalsCollected + 1;
      }
      Estimate();
    }

    /** The load from the newest gaps, once there are two. */
    method Estimate()
      requires intervals.Length == INTERVAL_COUNT && Spaced(beats) && 0.2 <= smoothedLoadFactor <= 1.0
      requires Holds(intervals[..], intervalPos, Gaps(beats))
      requires intervalsCollected == if |Gaps(beats)| < INTERVAL_COUNT then |Gaps(beats)| else INTERVAL_COUNT
      modifies `smoothedLoadFactor, `loadFactor
      ensures smoothedLoadFactor == NextLoad(beats, old(smoothedLoadFactor))
      ensures loadFactor == if |Gaps(beats)| < 2 then old(loadFactor) else smoothedLoadFactor
    {
      hide Holds, Spaced, Gaps, Sum;
      GapsAreLong(beats);
      if intervalsCollected >= 2 {
        SumOfUsed(intervals[..], intervalPos, Gaps(beats));
        var sum := SumOf(intervals, intervalsCollected);
        assert intervals[..intervalsCollected] == intervals[..][..intervalsCollected];
        var mean := sum / intervalsCollected as real;
        assert mean == MeanGap(beats);
        smoothedLoadFactor := Smoothed(60.0 / mean, smoothedLoadFactor);
        loadFactor := smoothedLoadFactor;
      }
    }

    /** A new beat at totalSamples, some time after the last one. */
    method RecordBeat()
      requires IntervalsValid()
      requires totalSamples % 25 == 0 && totalSamples - lastBeatSample > DEBOUNCE
      modifies `lastBeatSample, `intervalPos, `intervalsCollected, `smoothedLoadFactor, `loadFactor, `beats, intervals
      ensures IntervalsValid() && beats == old(beats) + [totalSamples]
      ensures smoothedLoadFactor == NextLoad(beats, old(smoothedLoadFactor))
    {
      hide Holds, Spaced, Gaps, LastBeat, Tempo, Smoothed;
      ghost var gaps := Gaps(beats);
      SpacedAppend(beats, totalSamples);
      LastBeatIsPositive(beats);
      GapsAppend(beats, totalSamples);
      GapsAreLong(beats);
      if lastBeatSample > 0 {
        NoBeats();
        assert beats != [];
        beats := beats + [totalSamples];
        RecordGap((totalSamples - lastBeatSample) as real / TARGET_RATE, gaps);
      } else {
        beats := beats + [totalSamples];
      }
      lastBeatSample := totalSamples;
    }

    /** An energy window is complete at totalSamples. */
    method EndWindow(e: real)
      requires HistoryValid() && IntervalsValid() && totalSamples == ENERGY_WINDOW * (|energies| + 1)
      modifies history, intervals, `historyPos, `energies
      modifies `lastBeatSample, `intervalPos, `intervalsCollected, `smoothedLoadFactor, `loadFactor, `beats
      ensures HistoryValid() && IntervalsValid() && energies == old(energies) + [e]
      ensures beats == BeatsAfter(old(energies), old(beats), e)
      ensures smoothedLoadFactor == Bpm.LoadAfter(old(beats), beats, old(smoothedLoadFactor))
    {
      hide Holds, Spaced, Gaps, NextLoad, Sum;
      SumOfHeld(history[..], historyPos, energies);
      var histSum := SumOf(history, HISTORY_SIZE);
      assert history[..HISTORY_SIZE] == history[..];
      var localAvg := histSum / HISTORY_SIZE as real;
      assert localAvg == LocalAverage(energies);

      Write(history[..], historyPos, energies, e);
      history[historyPos] := e;
      historyPos := (historyPos + 1) % HISTORY_SIZE;
      energies := energies + [e];

      if e > ONSET_FACTOR * localAvg && totalSamples - lastBeatSample > DEBOUNCE {
        RecordBeat();
      }
    }

    /** One value at the reduced rate. */
    method Sample()
      requires Valid()
      modifies this, history, intervals
      ensures Valid() && State() == Bpm.Sample(old(State()))
    {
      hide Holds, Spaced, Gaps, LastBeat, NextLoad, BeatsAfter, Bpm.LoadAfter;
      totalSamples := totalSamples + 1;
      energyAccum := energyAccum + Square(lpfState);
      energyCount := energyCount + 1;
      if energyCount >= ENERGY_WINDOW {
        var e := MeanSquare(energyAccum);
        energyAccum, energyCount := 0.0, 0;
        EndWindow(e);
      }
    }

    /** One frame, mixed down. */
    method Advance(mono: real)
      requires Valid()
      modifies this, history, intervals
      ensures Valid() && State() == Bpm.Tick(old(State()), mono)
    {
      hide Holds, Spaced, Gaps, LastBeat, Bpm.Sample;
      lpfState := LowPass(alpha, mono, lpfState);
      downsamplePos := downsamplePos + 1;
      if downsamplePos >= downsampleStep {
        downsamplePos := 0;
        Sample();
      }
    }

    /** The mean over the channels of the frame that starts at `at`. */
    method MixDown(samples: seq<int>, at: nat, channels: nat) returns (mono: real)
      requires channels > 0 && at + channels <= |samples|
      ensures mono == Bpm.Mono(samples[at..at + channels])
    {
      ghost var frame := samples[at..at + channels];
      mono := 0.0;
      for c := 0 to channels
        invariant mono == Bpm.Total(frame[..c])
      {
        assert frame[..c + 1][..c] == frame[..c];
        mono := mono + samples[at + c] as real;
      }
      assert frame[..channels] == frame;
      mono := mono / channels as real;
    }

    method Configure(sampleRate: int)
      requires Valid() && sampleRate > 0
      modifies `cachedRate, `alpha, `downsampleStep, `downsamplePos
      ensures Valid() && State() == Bpm.Configured(old(State()), sampleRate)
    {
      if sampleRate != cachedRate {
        cachedRate := sampleRate;
        alpha := OMEGA / (sampleRate as real + OMEGA);
        downsampleStep := if sampleRate / 500 > 1 then sampleRate / 500 else 1;
        downsamplePos := 0;
      }
    }

    /** Interleaved samples of whole frames; an incomplete frame at the end is dropped. */
    method Feed(samples: seq<int>, channels: int, sampleRate: int)
      requires Valid()
      modifies this, history, intervals
      ensures Valid() && State() == Bpm.Feed(old(State()), samples, channels, sampleRate)
    {
      hide Holds, Spaced, Gaps, LastBeat, Bpm.Tick;
      if samples == [] || channels <= 0 || sampleRate <= 0 {
        return;
      }
      Configure(sampleRate);
      ghost var start, signal := State(), Bpm.Monos(samples, channels);
      var frameCount := |samples| / channels;
      Bpm.MonosLength(samples, channels);
      for f := 0 to frameCount
        invariant Valid() && State() == Bpm.Run(start, signal[..f])
      {
        Bpm.MonosAt(samples, channels, f);
        Bpm.RunNext(start, signal, f);
        var mono := MixDown(samples, f * channels, channels);
        Advance(mono);
      }
      assert signal[..frameCount] == signal;
    }
  }
}
