/** The numbers of beat detection as closed formulas over the samples and the beats. */
module BeatFormulas {
  import opened Bits
  import opened Beats
  import opened Bpm

  // ---- mixing down, filter, energy ----

  function Term(x: real, y: real): real {
    x * y
  }

  lemma TermSum(c: real, x: real, y: real)
    ensures Term(c, x + y) == Term(c, x) + Term(c, y) && Term(c, 0.0) == 0.0 && Term(1.0, x) == x
    ensures Term(c, Term(x, y)) == Term(Term(c, x), y)
  {
  }

  lemma {:induction false} SumOfScaled(c: real, s: seq<real>)
    ensures Sum(seq(|s|, i requires 0 <= i < |s| => Term(c, s[i]))) == Term(c, Sum(s))
  {
    var t := seq(|s|, i requires 0 <= i < |s| => Term(c, s[i]));
    hide Term;
    TermSum(c, 0.0, 0.0);
    if s != [] {
      var n := |s| - 1;
      SumOfScaled(c, s[..n]);
      assert t[..n] == seq(n, i requires 0 <= i < n => Term(c, s[..n][i]));
      TermSum(c, Sum(s[..n]), s[n]);
    }
  }

  /** A frame is mixed down to the mean of its samples. */
  lemma {:induction false} TotalIs(frame: seq<int>)
    ensures Total(frame) == Sum(seq(|frame|, i requires 0 <= i < |frame| => frame[i] as real))
  {
    var t := seq(|frame|, i requires 0 <= i < |frame| => frame[i] as real);
    if frame != [] {
      var n := |frame| - 1;
      TotalIs(frame[..n]);
      assert t[..n] == seq(n, i requires 0 <= i < n => frame[..n][i] as real);
    }
  }

  lemma MonoIsMean(frame: seq<int>)
    requires frame != []
    ensures Mono(frame) == Sum(seq(|frame|, i requires 0 <= i < |frame| => frame[i] as real)) / |frame| as real
  {
    TotalIs(frame);
  }

  function Power(x: real, k: nat): real {
    if k == 0 then 1.0 else Term(x, Power(x, k - 1))
  }

  /** The input up to n with weights that fall off by 1 - alpha for each step back. */
  function Weighted(alpha: real, signal: seq<real>, n: nat): (r: seq<real>)
    requires n <= |signal|
  {
    seq(n, j requires 0 <= j < n => Term(Power(1.0 - alpha, n - 1 - j), signal[j]))
  }

  lemma WeightedNext(alpha: real, signal: seq<real>, n: nat)
    requires n < |signal|
    ensures Sum(Weighted(alpha, signal, n + 1)) == signal[n] + Term(1.0 - alpha, Sum(Weighted(alpha, signal, n)))
  {
    hide Term;
    var w, v := Weighted(alpha, signal, n), Weighted(alpha, signal, n + 1);
    forall j | 0 <= j < n ensures v[j] == Term(1.0 - alpha, w[j]) {
      TermSum(1.0 - alpha, Power(1.0 - alpha, n - 1 - j), signal[j]);
    }
    SumOfScaled(1.0 - alpha, w);
    assert v[..n] == seq(n, i requires 0 <= i < n => Term(1.0 - alpha, w[i]));
    TermSum(1.0, signal[n], 0.0);
    assert Power(1.0 - alpha, 0) == 1.0;
  }

  /** The filter's output is alpha times the weighted sum of all input so far. */
  lemma {:induction false} FilteredIs(alpha: real, signal: seq<real>, n: nat)
    requires n <= |signal|
    ensures LastOf(Filtered(alpha, signal[..n])) == Term(alpha, Sum(Weighted(alpha, signal, n)))
    ensures n < |signal| ==> Filtered(alpha, signal)[n] == LastOf(Filtered(alpha, signal[..n + 1]))
    decreases n
  {
    hide Term;
    TermSum(alpha, 0.0, 0.0);
    if n > 0 {
      var k := n - 1;
      var sum := Sum(Weighted(alpha, signal, k));
      FilteredIs(alpha, signal, k);
      WeightedNext(alpha, signal, k);
      assert signal[..n][..k] == signal[..k];
      LowPassIs(alpha, signal[k], sum);
    }
    if n < |signal| {
      FilteredPrefix(alpha, signal, n + 1);
    }
  }

  lemma LowPassIs(alpha: real, x: real, sum: real)
    ensures LowPass(alpha, x, Term(alpha, sum)) == Term(alpha, x + Term(1.0 - alpha, sum))
  {
    assert (1.0 - alpha) * (alpha * sum) == alpha * ((1.0 - alpha) * sum);
    assert alpha * (x + (1.0 - alpha) * sum) == alpha * x + alpha * ((1.0 - alpha) * sum);
  }

  lemma {:induction false} FilteredPrefix(alpha: real, signal: seq<real>, n: nat)
    requires n <= |signal|
    ensures Filtered(alpha, signal)[..n] == Filtered(alpha, signal[..n])
    decreases |signal|
  {
    if n == |signal| {
      assert signal[..n] == signal;
    } else {
      var front := signal[..|signal| - 1];
      FilteredPrefix(alpha, front, n);
      assert front[..n] == signal[..n];
    }
  }

  lemma {:induction false} SumSquaresIs(s: seq<real>)
    ensures SumSquares(s) == Sum(seq(|s|, i requires 0 <= i < |s| => Term(s[i], s[i])))
  {
    var t := seq(|s|, i requires 0 <= i < |s| => Term(s[i], s[i]));
    if s != [] {
      var n := |s| - 1;
      SumSquaresIs(s[..n]);
      assert t[..n] == seq(n, i requires 0 <= i < n => Term(s[..n][i], s[..n][i]));
    }
  }

  /** The energy of window k is the mean of the squares of its 25 values. */
  lemma EnergyIs(s: seq<real>, k: nat)
    requires 25 * k + 25 <= |s|
    ensures k < |Energies(s)|
    ensures Energies(s)[k]
         == Sum(seq(25, i requires 0 <= i < 25 => Term(s[25 * k + i], s[25 * k + i]))) / 25.0
  {
    hide Term, SumSquares, Sum;
    var w := s[25 * k..25 * k + 25];
    SumSquaresIs(w);
    assert seq(25, i requires 0 <= i < 25 => Term(s[25 * k + i], s[25 * k + i]))
        == seq(|w|, i requires 0 <= i < |w| => Term(w[i], w[i]));
  }

  // ---- tempo and load ----

  lemma {:induction false} GapAt(beats: seq<int>, i: nat)
    requires i + 1 < |beats|
    ensures |Gaps(beats)| == |beats| - 1
    ensures Gaps(beats)[i] == (beats[i + 1] - beats[i]) as real / 500.0
  {
    var k := |beats| - 1;
    if i + 1 < k {
      GapAt(beats[..k], i);
    } else if k > 1 {
      GapAt(beats[..k], 0);
    }
  }

  /** Gaps add up to the time between the beats at their ends. */
  lemma {:induction false} GapsAddUp(beats: seq<int>, lo: nat, hi: nat)
    requires lo <= hi < |beats| && |Gaps(beats)| == |beats| - 1
    ensures Sum(Gaps(beats)[lo..hi]) == (beats[hi] - beats[lo]) as real / 500.0
    decreases hi
  {
    var g := Gaps(beats)[lo..hi];
    if lo < hi {
      GapsAddUp(beats, lo, hi - 1);
      GapAt(beats, hi - 1);
      assert g[..|g| - 1] == Gaps(beats)[lo..hi - 1];
    }
  }

  /** The number of gaps that count: at most eight. */
  function GapsUsed(beats: seq<int>): nat
    requires |beats| >= 2
  {
    if |beats| - 1 < 8 then |beats| - 1 else 8
  }

  /** The mean gap is the time from the beat so many gaps back to the last one, over their number. */
  lemma MeanGapIs(beats: seq<int>)
    requires Spaced(beats) && |beats| >= 2
    ensures var m, n := GapsUsed(beats), |beats| - 1;
            MeanGap(beats) == (beats[n] - beats[n - m]) as real / 500.0 / m as real
  {
    hide Spaced, Sum, Gaps;
    var m, n := GapsUsed(beats), |beats| - 1;
    GapAt(beats, 0);
    GapsAddUp(beats, n - m, n);
    assert Recent(8, Gaps(beats)) == Gaps(beats)[n - m..n];
  }

  /** From the third beat on, each beat moves the load by 15 percent towards the tempo, on a scale
      where 60 beats a minute are 0 and 180 are 1, kept between 0.2 and 1. */
  lemma LoadMoves(beats: seq<int>, load: real)
    requires Spaced(beats) && 0.2 <= load <= 1.0
    ensures |beats| < 3 ==> NextLoad(beats, load) == load
    ensures |beats| >= 3 ==>
      var raw := (60.0 / MeanGap(beats) - 60.0) / 120.0;
      NextLoad(beats, load) ==
      0.85 * load + 0.15 * (if raw <= 0.2 then 0.2 else if raw >= 1.0 then 1.0 else raw)
  {
    hide Spaced, MeanGap;
  }

  /** Each beat in turn moves the load, starting from one half. */
  lemma LoadIs(beats: seq<int>)
    requires Spaced(beats)
    ensures beats == [] ==> Load(beats) == 0.5
    ensures beats != [] ==>
      Spaced(beats[..|beats| - 1]) && Load(beats) == NextLoad(beats, Load(beats[..|beats| - 1]))
  {
    if beats != [] {
      SpacedPrefix(beats, |beats| - 1);
    }
  }

  // ---- rates ----

  /** What a rate sets: the filter constant of a corner at 150 Hz, and the step that leaves about
      500 values a second. */
  lemma SetupIs(rate: int)
    requires rate > 0
    ensures var s := SetupFor(rate);
            s.rate == rate && s.alpha * (rate as real + 942.477795) == 942.477795
            && (if rate < 1000 then s.step == 1 else s.step * 500 <= rate < (s.step + 1) * 500)
  {
    assert OMEGA == 942.477795;
  }

  /** After a change of rate the first value at the reduced rate comes after a whole step; until then
      only the filter moves. Without a change nothing does. */
  lemma {:induction false} NewRateStartsAStep(s: State, rate: int, signal: seq<real>)
    requires Good(s) && rate > 0 && rate != s.setup.rate && |signal| < SetupFor(rate).step
    ensures var t := Run(Configured(s, rate), signal);
            t == s.(setup := SetupFor(rate), pos := |signal|, lpf := t.lpf)
    decreases |signal|
  {
    if signal != [] {
      NewRateStartsAStep(s, rate, signal[..|signal| - 1]);
    }
  }

  lemma OddCallsChangeNothing(s: State, samples: seq<int>, channels: int, rate: int)
    requires Good(s)
    requires samples == [] || channels <= 0 || rate <= 0 || (|samples| < channels && rate == s.setup.rate)
    ensures Feed(s, samples, channels, rate) == s
  {
  }
}
