/** What beat detection means: when there is a beat, that loudness does not matter, that silence has
    none, and the filter, the energies and the load as closed formulas. */
module BeatLaws {
  import opened Bits
  import opened Beats
  import opened Bpm

  // ---- when there is a beat ----

  /** The beats of the first n windows are those up to time 25n of all. */
  lemma {:induction false} BeatsOfPrefix(energies: seq<real>, n: nat)
    requires n <= |energies|
    ensures forall b | b in BeatTimes(energies) :: 0 < b <= 25 * |energies| && b % 25 == 0
    ensures forall b :: b in BeatTimes(energies[..n]) <==> b in BeatTimes(energies) && b <= 25 * n
    decreases |energies|
  {
    hide Spaced, LocalAverage;
    if energies != [] {
      var k := |energies| - 1;
      var front := energies[..k];
      if n == |energies| {
        assert energies[..n] == energies;
        BeatsOfPrefix(front, k);
        assert front[..k] == front;
      } else {
        BeatsOfPrefix(front, n);
        assert energies[..n] == front[..n];
      }
    }
  }

  lemma {:induction false} LastIsLargest(beats: seq<int>, b: int)
    requires Spaced(beats) && b in beats
    ensures b <= LastBeat(beats)
  {
    var k := |beats| - 1;
    assert beats[k] - LastBeat(beats[..k]) >= 150;
    if b != beats[k] {
      SpacedPrefix(beats, k);
      assert b in beats[..k];
      LastIsLargest(beats[..k], b);
    }
  }

  /** Recently enough since the last beat, said of all beats. */
  lemma LongSinceLast(beats: seq<int>, time: int)
    requires Spaced(beats)
    ensures time - LastBeat(beats) > DEBOUNCE
       <==> time > DEBOUNCE && forall b | b in beats :: time - b > DEBOUNCE
  {
    LastBeatIsPositive(beats);
    if beats != [] {
      assert LastBeat(beats) in beats;
    }
    forall b | b in beats ensures b <= LastBeat(beats) {
      LastIsLargest(beats, b);
    }
  }

  /** The sum of up to 43 energies before window k. */
  function SumBefore(energies: seq<real>, k: nat): real
    requires k <= |energies|
  {
    Sum(energies[if k < 43 then 0 else k - 43..k])
  }

  lemma AverageBefore(energies: seq<real>, k: nat)
    requires k <= |energies|
    ensures LocalAverage(energies[..k]) == SumBefore(energies, k) / 43.0
  {
    hide Sum;
    var s := energies[..k];
    if k < 43 {
      assert Newest(43, s) == Zeros(43 - k) + energies[0..k];
      SumAppend(Zeros(43 - k), energies[0..k]);
      SumOfZeros(43 - k);
    } else {
      assert Newest(43, s) == energies[k - 43..k];
    }
  }

  /** There is a beat at the end of window k exactly when its energy exceeds one and a half times the
      average of the 43 before it, and more than 125 samples have passed since the start and since
      every earlier beat. All beats are at the ends of windows, in order. */
  lemma BeatExactly(energies: seq<real>, k: nat)
    requires k < |energies|
    ensures var beats, time := BeatTimes(energies), 25 * (k + 1);
            time in beats <==>
            && energies[k] > 1.5 * (SumBefore(energies, k) / 43.0)
            && time > 125 && forall b | b in beats && b < time :: time - b > 125
    ensures forall b | b in BeatTimes(energies) :: 0 < b <= 25 * |energies| && b % 25 == 0
  {
    var time := 25 * (k + 1);
    var front := energies[..k];
    var before, here := BeatTimes(front), BeatTimes(energies[..k + 1]);
    assert energies[..k + 1][..k] == front;
    BeatsOfPrefix(energies, k);
    BeatsOfPrefix(energies, k + 1);
    BeatsOfPrefix(front, k);
    AverageBefore(energies, k);
    LongSinceLast(before, time);
    hide Spaced, LocalAverage, SumBefore, LastBeat;
    assert time in here <==> here != before;
    assert forall b :: b in before <==> b in BeatTimes(energies) && b < time;
  }

  // ---- loudness ----

  function Times(c: real, x: real): real {
    c * x
  }

  function Louder(c: real, s: seq<real>): (r: seq<real>)
    ensures |r| == |s| && forall i | 0 <= i < |s| :: r[i] == Times(c, s[i])
  {
    seq(|s|, i requires 0 <= i < |s| => Times(c, s[i]))
  }

  lemma TimesLaws(c: real, x: real, y: real)
    ensures Times(c, x + y) == Times(c, x) + Times(c, y)
    ensures Times(c, Times(y, x)) == Times(y, Times(c, x))
    ensures Times(c, x / 43.0) == Times(c, x) / 43.0 && Times(c, x / 25.0) == Times(c, x) / 25.0
    ensures Times(c, 0.0) == 0.0
    ensures c > 0.0 ==> (Times(c, x) > 1.5 * Times(c, y) <==> x > 1.5 * y)
  {
    assert c * (x - 1.5 * y) == c * x - 1.5 * (c * y);
    if c > 0.0 {
      SignOfProduct(c, x - 1.5 * y);
    }
  }

  lemma SignOfProduct(c: real, z: real)
    requires c > 0.0
    ensures c * z > 0.0 <==> z > 0.0
  {
  }

  lemma LouderFront(c: real, s: seq<real>, n: nat)
    requires n <= |s|
    ensures Louder(c, s)[..n] == Louder(c, s[..n]) && Louder(c, s)[n..] == Louder(c, s[n..])
  {
  }

  lemma {:induction false} SumLouder(c: real, s: seq<real>)
    ensures Sum(Louder(c, s)) == Times(c, Sum(s))
  {
    hide Times;
    TimesLaws(c, 0.0, 0.0);
    if s != [] {
      var n := |s| - 1;
      LouderFront(c, s, n);
      SumLouder(c, s[..n]);
      TimesLaws(c, Sum(s[..n]), s[n]);
    }
  }

  lemma NewestLouder(c: real, n: nat, s: seq<real>)
    ensures Newest(n, Louder(c, s)) == Louder(c, Newest(n, s))
  {
    TimesLaws(c, 0.0, 0.0);
    hide Times;
  }

  lemma AverageLouder(c: real, s: seq<real>)
    ensures LocalAverage(Louder(c, s)) == Times(c, LocalAverage(s))
  {
    hide Sum, Times, Newest;
    NewestLouder(c, 43, s);
    SumLouder(c, Newest(43, s));
    TimesLaws(c, Sum(Newest(43, s)), 0.0);
  }

  /** Louder or softer energies have the same beats. */
  lemma {:induction false} BeatsLouder(c: real, energies: seq<real>)
    requires c > 0.0
    ensures BeatTimes(Louder(c, energies)) == BeatTimes(energies)
  {
    hide Times, LocalAverage, Spaced;
    if energies != [] {
      var n := |energies| - 1;
      LouderFront(c, energies, n);
      BeatsLouder(c, energies[..n]);
      AverageLouder(c, energies[..n]);
      TimesLaws(c, energies[n], LocalAverage(energies[..n]));
    }
  }

  lemma LowPassLouder(c: real, alpha: real, x: real, before: real)
    ensures LowPass(alpha, Times(c, x), Times(c, before)) == Times(c, LowPass(alpha, x, before))
  {
    assert alpha * (c * x) == c * (alpha * x);
    assert (1.0 - alpha) * (c * before) == c * ((1.0 - alpha) * before);
    assert c * (alpha * x + (1.0 - alpha) * before) == c * (alpha * x) + c * ((1.0 - alpha) * before);
  }

  lemma {:induction false} FilteredLouder(c: real, alpha: real, signal: seq<real>)
    ensures Filtered(alpha, Louder(c, signal)) == Louder(c, Filtered(alpha, signal))
  {
    TimesLaws(c, 0.0, 0.0);
    hide Times, LowPass;
    if signal != [] {
      var n := |signal| - 1;
      var f := Filtered(alpha, signal[..n]);
      LouderFront(c, signal, n);
      FilteredLouder(c, alpha, signal[..n]);
      LowPassLouder(c, alpha, signal[n], LastOf(f));
      assert LastOf(Louder(c, f)) == Times(c, LastOf(f));
    }
  }

  lemma {:induction false} DecimatedLouder(c: real, step: nat, s: seq<real>)
    requires step > 0
    ensures Decimated(step, Louder(c, s)) == Louder(c, Decimated(step, s))
  {
    hide Times;
    if s != [] {
      LouderFront(c, s, |s| - 1);
      DecimatedLouder(c, step, s[..|s| - 1]);
    }
  }

  lemma {:induction false} SumSquaresLouder(c: real, s: seq<real>)
    ensures SumSquares(Louder(c, s)) == Times(Times(c, c), SumSquares(s))
  {
    TimesLaws(Times(c, c), 0.0, 0.0);
    if s != [] {
      var n := |s| - 1;
      SquareLouder(c, s[n]);
      hide Times, Square;
      LouderFront(c, s, n);
      SumSquaresLouder(c, s[..n]);
      TimesLaws(Times(c, c), SumSquares(s[..n]), Square(s[n]));
    }
  }

  lemma SquareLouder(c: real, x: real)
    ensures Square(Times(c, x)) == Times(Times(c, c), Square(x))
  {
    assert c * x * (c * x) == c * c * (x * x);
  }

  lemma EnergiesLouder(c: real, s: seq<real>)
    ensures Energies(Louder(c, s)) == Louder(Times(c, c), Energies(s))
  {
    hide Times, SumSquares;
    forall k: nat | k < |s| / 25
      ensures WindowEnergy(Louder(c, s), k) == Times(Times(c, c), WindowEnergy(s, k))
    {
      var w := s[25 * k..25 * k + 25];
      assert Louder(c, s)[25 * k..25 * k + 25] == Louder(c, w);
      SumSquaresLouder(c, w);
      TimesLaws(Times(c, c), SumSquares(w), 0.0);
    }
  }

  lemma SquareOfPositive(x: real)
    requires x > 0.0
    ensures Times(x, x) > 0.0
  {
    hide Times;
    TimesLaws(x, x, 0.0);
  }

  lemma OppositeSquare(x: real, y: real)
    requires x + y == 0.0
    ensures Times(x, x) == Times(y, y)
  {
    var z := x + y;
    TimesLaws(x, x, y);
    TimesLaws(y, x, y);
    assert Times(x, z) == 0.0 && Times(y, z) == 0.0;
    assert Times(x, y) == Times(y, x);
  }

  lemma SquareIsPositive(c: real)
    requires c != 0.0
    ensures Times(c, c) > 0.0
  {
    hide Times;
    if c > 0.0 {
      SquareOfPositive(c);
    } else {
      OppositeSquare(c, -c);
      SquareOfPositive(-c);
    }
  }

  /** A track played louder, softer or with its polarity reversed has the same beats, so the
      detector shows the same load. */
  lemma LoudnessDoesNotMatter(c: real, setup: Setup, signal: seq<real>)
    requires c != 0.0 && Good(INITIAL.(setup := setup))
    ensures var s, t := Run(INITIAL.(setup := setup), signal), Run(INITIAL.(setup := setup), Louder(c, signal));
            t.beats == s.beats && t.load == s.load
  {
    RunIsBatch(setup, signal);
    RunIsBatch(setup, Louder(c, signal));
    hide Run, Times, Filtered, Decimated, Energies, BeatTimes, Good, Load;
    var f := Filtered(setup.alpha, signal);
    var d := Decimated(setup.step, f);
    FilteredLouder(c, setup.alpha, signal);
    DecimatedLouder(c, setup.step, f);
    EnergiesLouder(c, d);
    SquareIsPositive(c);
    BeatsLouder(Times(c, c), Energies(d));
  }

  // ---- silence ----

  lemma {:induction false} NoEnergyNoBeats(n: nat)
    ensures BeatTimes(Zeros(n)) == []
  {
    hide LocalAverage;
    if n > 0 {
      assert Zeros(n)[..n - 1] == Zeros(n - 1);
      NoEnergyNoBeats(n - 1);
      AverageOfZeros(n - 1);
    }
  }

  lemma AverageOfZeros(n: nat)
    ensures LocalAverage(Zeros(n)) == 0.0
  {
    assert Newest(43, Zeros(n)) == Zeros(43);
    SumOfZeros(43);
  }

  lemma ZerosAreNothing(s: seq<real>)
    ensures Louder(0.0, s) == Zeros(|s|)
  {
  }

  /** A silent track has no beats and leaves the load where it starts. */
  lemma SilenceHasNoBeats(setup: Setup, n: nat)
    requires Good(INITIAL.(setup := setup))
    ensures var s := Run(INITIAL.(setup := setup), Zeros(n)); s.beats == [] && s.load == 0.5
  {
    RunIsBatch(setup, Zeros(n));
    hide Run, Times, Filtered, Decimated, Energies, Good;
    var f := Filtered(setup.alpha, Zeros(n));
    var d := Decimated(setup.step, f);
    ZerosAreNothing(Zeros(n));
    ZerosAreNothing(f);
    ZerosAreNothing(d);
    ZerosAreNothing(Energies(d));
    FilteredLouder(0.0, setup.alpha, Zeros(n));
    DecimatedLouder(0.0, setup.step, f);
    EnergiesLouder(0.0, d);
    assert Times(0.0, 0.0) == 0.0 by { ZeroTimes(); }
    NoEnergyNoBeats(|Energies(d)|);
  }

  lemma ZeroTimes()
    ensures Times(0.0, 0.0) == 0.0
  {
  }
}
