/** Beat detection as a pure function of a signal: filter, decimate, block energies, beats, load.
    The single-precision arithmetic of the program is real arithmetic here. */
module Beats {
  import opened Bits

  const TARGET_RATE := 500.0
  const OMEGA := 2.0 * 3.14159265 * 150.0
  const ENERGY_WINDOW := 25
  const HISTORY_SIZE := 43
  const DEBOUNCE := 125
  const INTERVAL_COUNT := 8
  const ONSET_FACTOR := 1.5
  const EMA_ALPHA := 0.15

  // ---- sums ----

  function Sum(s: seq<real>): real {
    if s == [] then 0.0 else Sum(s[..|s| - 1]) + s[|s| - 1]
  }

  lemma {:induction false} SumAppend(a: seq<real>, b: seq<real>)
    ensures Sum(a + b) == Sum(a) + Sum(b)
  {
    if b == [] {
      assert a + b == a;
    } else {
      SumAppend(a, b[..|b| - 1]);
      assert (a + b)[..|a + b| - 1] == a + b[..|b| - 1];
    }
  }

  lemma {:induction false} SumAtLeast(s: seq<real>, low: real)
    requires forall i | 0 <= i < |s| :: s[i] >= low
    ensures Sum(s) >= low * |s| as real
  {
    if s != [] {
      SumAtLeast(s[..|s| - 1], low);
    }
  }

  // ---- the last few values ----

  function Zeros(n: nat): seq<real> {
    seq(n, _ => 0.0)
  }

  lemma {:induction false} SumOfZeros(n: nat)
    ensures Sum(Zeros(n)) == 0.0
  {
    if n > 0 {
      assert Zeros(n)[..n - 1] == Zeros(n - 1);
      SumOfZeros(n - 1);
    }
  }

  /** The newest n values, with zeros before the first. */
  function Newest(n: nat, s: seq<real>): (r: seq<real>)
    ensures |r| == n
  {
    if |s| >= n then s[|s| - n..] else Zeros(n - |s|) + s
  }

  lemma NewestAppend(n: nat, s: seq<real>, x: real)
    requires n > 0
    ensures Newest(n, s + [x]) == Newest(n, s)[1..] + [x]
  {
  }

  /** The newest n values, or all if there are fewer. */
  function Recent(n: nat, s: seq<real>): seq<real> {
    if |s| >= n then s[|s| - n..] else s
  }

  // ---- beats ----

  function LastBeat(beats: seq<int>): int {
    if beats == [] then 0 else beats[|beats| - 1]
  }

  /** Beats come at the end of an energy window, and at least 150 samples apart. */
  ghost predicate Spaced(beats: seq<int>) {
    forall i | 0 <= i < |beats| :: beats[i] % 25 == 0 && beats[i] - LastBeat(beats[..i]) >= 150
  }

  /** The seconds between beats. */
  function Gaps(beats: seq<int>): seq<real> {
    if |beats| < 2 then []
    else
      var front := beats[..|beats| - 1];
      Gaps(front) + [(LastBeat(beats) - LastBeat(front)) as real / TARGET_RATE]
  }

  lemma NoBeats()
    ensures Spaced([]) && Gaps([]) == [] && LastBeat([]) == 0
  {
  }

  lemma SpacedPrefix(beats: seq<int>, n: nat)
    requires Spaced(beats) && n <= |beats|
    ensures Spaced(beats[..n])
  {
    forall i | 0 <= i < n ensures beats[..n][..i] == beats[..i] {
    }
  }

  lemma SpacedAppend(beats: seq<int>, time: int)
    requires Spaced(beats) && time % 25 == 0 && time - LastBeat(beats) > DEBOUNCE
    ensures Spaced(beats + [time])
  {
    var all := beats + [time];
    assert LastBeat(beats) % 25 == 0;
    assert time - LastBeat(beats) >= 150;
    forall i | 0 <= i < |all| ensures all[i] % 25 == 0 && all[i] - LastBeat(all[..i]) >= 150 {
      if i < |beats| {
        assert all[..i] == beats[..i] && all[i] == beats[i];
      } else {
        assert all[..i] == beats;
      }
    }
  }

  lemma {:induction false} LastBeatIsPositive(beats: seq<int>)
    requires Spaced(beats)
    ensures LastBeat(beats) >= 150 * |beats|
  {
    if beats != [] {
      SpacedPrefix(beats, |beats| - 1);
      LastBeatIsPositive(beats[..|beats| - 1]);
    }
  }

  lemma GapsAppend(beats: seq<int>, time: int)
    ensures LastBeat(beats + [time]) == time
    ensures Gaps(beats + [time]) ==
            if beats == [] then [] else Gaps(beats) + [(time - LastBeat(beats)) as real / TARGET_RATE]
    ensures beats == [] ==> Gaps(beats) == []
  {
    assert (beats + [time])[..|beats|] == beats;
  }

  /** Every gap between beats is at least 0.3 seconds. */
  lemma {:induction false} GapsAreLong(beats: seq<int>)
    requires Spaced(beats)
    ensures |Gaps(beats)| == if |beats| < 2 then 0 else |beats| - 1
    ensures forall i | 0 <= i < |Gaps(beats)| :: Gaps(beats)[i] >= 0.3
  {
    if |beats| >= 2 {
      SpacedPrefix(beats, |beats| - 1);
      GapsAreLong(beats[..|beats| - 1]);
    }
  }

  lemma MeanIsLong(beats: seq<int>)
    requires Spaced(beats) && |beats| >= 2
    ensures var recent := Recent(INTERVAL_COUNT, Gaps(beats));
            |recent| > 0 && Sum(recent) / |recent| as real >= 0.3
  {
    hide Spaced, Gaps, Sum;
    var recent := Recent(INTERVAL_COUNT, Gaps(beats));
    GapsAreLong(beats);
    SumAtLeast(recent, 0.3);
    QuotientAtLeast(Sum(recent), |recent| as real, 0.3);
  }

  function MeanGap(beats: seq<int>): (mean: real)
    requires Spaced(beats) && |beats| >= 2
    ensures mean >= 0.3
  {
    var recent := Recent(INTERVAL_COUNT, Gaps(beats));
    MeanIsLong(beats);
    Sum(recent) / |recent| as real
  }

  lemma QuotientAtLeast(x: real, n: real, low: real)
    requires n > 0.0 && x >= low * n
    ensures x / n >= low
  {
    var q := x / n;
    assert q * n == x;
    if q < low {
      assert q * n < low * n;
    }
  }

  /** The tempo never exceeds 200 beats a minute. */
  function Tempo(beats: seq<int>): (bpm: real)
    requires Spaced(beats) && |beats| >= 2
    ensures 0.0 < bpm <= 200.0
  {
    var mean := MeanGap(beats);
    TempoBound(mean);
    60.0 / mean
  }

  lemma TempoBound(mean: real)
    requires mean >= 0.3
    ensures 0.0 < 60.0 / mean <= 200.0
  {
    var q := 60.0 / mean;
    assert q * mean == 60.0;
    assert (q - 200.0) * mean == 60.0 - 200.0 * mean <= 0.0;
  }

  function Clamp(x: real, low: real, high: real): real {
    if x < low then low else if high < x then high else x
  }

  function Smoothed(bpm: real, load: real): (r: real)
    requires 0.2 <= load <= 1.0
    ensures 0.2 <= r <= 1.0
  {
    EMA_ALPHA * Clamp((bpm - 60.0) / 120.0, 0.2, 1.0) + (1.0 - EMA_ALPHA) * load
  }

  /** The load factor after the last of the beats, given the one before it. */
  function NextLoad(beats: seq<int>, load: real): (r: real)
    requires Spaced(beats) && 0.2 <= load <= 1.0
    ensures 0.2 <= r <= 1.0
  {
    if |beats| < 3 then load else Smoothed(Tempo(beats), load)
  }

  function LocalAverage(energies: seq<real>): real {
    Sum(Newest(HISTORY_SIZE, energies)) / HISTORY_SIZE as real
  }

  /** The beats after energy e has followed the given energies. */
  function BeatsAfter(energies: seq<real>, beats: seq<int>, e: real): seq<int> {
    var time := ENERGY_WINDOW * (|energies| + 1);
    if e > ONSET_FACTOR * LocalAverage(energies) && time - LastBeat(beats) > DEBOUNCE then beats + [time] else beats
  }

  // ---- the whole signal at once ----

  function LowPass(alpha: real, x: real, before: real): real {
    alpha * x + (1.0 - alpha) * before
  }

  /** First-order low-pass. */
  function Filtered(alpha: real, signal: seq<real>): (r: seq<real>)
    ensures |r| == |signal|
  {
    if signal == [] then []
    else
      var n := |signal| - 1;
      var before := Filtered(alpha, signal[..n]);
      before + [LowPass(alpha, signal[n], LastOf(before))]
  }

  function LastOf(s: seq<real>): real {
    if s == [] then 0.0 else s[|s| - 1]
  }

  /** Every step-th value. */
  function Decimated(step: nat, s: seq<real>): seq<real>
    requires step > 0
  {
    if s == [] then []
    else
      var before := Decimated(step, s[..|s| - 1]);
      if |s| % step == 0 then before + [s[|s| - 1]] else before
  }

  lemma NextMultiple(n: nat, step: nat)
    requires step > 0
    ensures (n + 1) % step == (if n % step + 1 == step then 0 else n % step + 1)
    ensures (n + 1) / step == n / step + (if n % step + 1 == step then 1 else 0)
  {
    var q, m := n / step, n % step;
    assert n == q * step + m;
    if m + 1 == step {
      assert n + 1 == (q + 1) * step;
      RemainderIs(n + 1, step, q + 1, 0);
    } else {
      RemainderIs(n + 1, step, q, m + 1);
    }
  }

  lemma {:induction false} DecimatedAt(step: nat, s: seq<real>, i: nat)
    requires step > 0
    ensures |Decimated(step, s)| == |s| / step
    ensures i < |s| / step ==> 0 <= (i + 1) * step - 1 < |s| && Decimated(step, s)[i] == s[(i + 1) * step - 1]
  {
    if s == [] {
      RemainderIs(0, step, 0, 0);
    } else {
      var n := |s| - 1;
      NextMultiple(n, step);
      DecimatedAt(step, s[..n], i);
      if |s| % step == 0 && i == |s| / step - 1 {
        assert (i + 1) * step == |s|;
      }
    }
  }

  function Square(x: real): (r: real)
    ensures r >= 0.0
  {
    x * x
  }

  function SumSquares(s: seq<real>): (r: real)
    ensures r >= 0.0
  {
    if s == [] then 0.0 else SumSquares(s[..|s| - 1]) + Square(s[|s| - 1])
  }

  function MeanSquare(sum: real): real {
    sum / ENERGY_WINDOW as real
  }

  function WindowEnergy(s: seq<real>, k: nat): real
    requires 25 * k + 25 <= |s|
  {
    MeanSquare(SumSquares(s[25 * k..25 * k + 25]))
  }

  /** The mean squares of consecutive whole windows. */
  function Energies(s: seq<real>): (r: seq<real>)
    ensures |r| == |s| / 25
  {
    seq(|s| / 25, k requires 0 <= k < |s| / 25 => WindowEnergy(s, k))
  }

  lemma EnergiesAppend(s: seq<real>, x: real)
    ensures var t := s + [x];
            Energies(t) == if |t| % 25 == 0 then Energies(s) + [MeanSquare(SumSquares(t[|t| - 25..]))] else Energies(s)
  {
    var t := s + [x];
    forall k: nat | k < |s| / 25 ensures WindowEnergy(t, k) == WindowEnergy(s, k) {
      assert t[25 * k..25 * k + 25] == s[25 * k..25 * k + 25];
    }
    if |t| % 25 == 0 {
      var k := |s| / 25;
      assert 25 * k == |t| - 25 && t[25 * k..25 * k + 25] == t[|t| - 25..];
    }
  }

  function BeatTimes(energies: seq<real>): (beats: seq<int>)
    ensures Spaced(beats)
  {
    if energies == [] then []
    else
      var n := |energies| - 1;
      var before := BeatTimes(energies[..n]);
      var all := BeatsAfter(energies[..n], before, energies[n]);
      assert Spaced(all) by {
        if all != before {
          SpacedAppend(before, 25 * (n + 1));
        }
      }
      all
  }

  function Load(beats: seq<int>): (load: real)
    requires Spaced(beats)
    ensures 0.2 <= load <= 1.0
  {
    if beats == [] then 0.5
    else
      SpacedPrefix(beats, |beats| - 1);
      NextLoad(beats, Load(beats[..|beats| - 1]))
  }
}
