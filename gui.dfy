/** The GUI's own module-level copies of the filter and the speed change.
    The GUI keeps magnitude spectra (np.abs of the transform), so its
    amplitudes are non-negative reals. Its change_speed rounds, filters the
    rounded floats and only then casts them to int, where the class casts
    first and filters the ints. */
module Gui {
  import opened Numeric
  import Analysis

  /** gui.low_pass_filter: the same mask as the class's filter, on a magnitude
      spectrum. Bins above the cutoff become 0.0, the rest (the bin at the
      cutoff too) are kept, and no magnitude grows or turns negative. */
  function LowPassFilter(frequency: seq<real>, amplitude: seq<real>, cutoff: real): (r: seq<real>)
    requires |frequency| == |amplitude|
    ensures |r| == |amplitude|
    ensures forall i :: 0 <= i < |r| ==> (r[i] == 0.0 <==> frequency[i] > cutoff || amplitude[i] == 0.0)
    ensures forall i :: 0 <= i < |r| && frequency[i] <= cutoff ==> r[i] == amplitude[i]
    ensures forall i :: 0 <= i < |r| && 0.0 <= amplitude[i] ==> 0.0 <= r[i] <= amplitude[i]
  {
    Analysis.LowPass(frequency, amplitude, cutoff, 0.0)
  }

  /** Re-filtering with the same cutoff changes nothing. */
  lemma LowPassFilterIdempotent(frequency: seq<real>, amplitude: seq<real>, cutoff: real)
    requires |frequency| == |amplitude|
    ensures LowPassFilter(frequency, LowPassFilter(frequency, amplitude, cutoff), cutoff)
            == LowPassFilter(frequency, amplitude, cutoff)
  {
    Analysis.LowPassIdempotent(frequency, amplitude, cutoff, 0.0);
  }

  /** np.round(xs), still as floats. */
  function RoundReals(xs: seq<real>): (ys: seq<real>)
    ensures |ys| == |xs|
    ensures forall k :: 0 <= k < |ys| ==> ys[k] == RoundHalfEven(xs[k]) as real
  {
    seq(|xs|, k requires 0 <= k < |xs| => RoundHalfEven(xs[k]) as real)
  }

  /** indices[indices < bound] on floats. */
  function KeepBelowReal(s: seq<real>, bound: real): (r: seq<real>)
    ensures |r| <= |s|
    ensures forall x :: x in r <==> x in s && x < bound
  {
    if s == [] then []
    else if s[0] < bound then [s[0]] + KeepBelowReal(s[1..], bound)
    else KeepBelowReal(s[1..], bound)
  }

  /** .astype(int): each float truncated toward zero. */
  function CastToInt(s: seq<real>): (r: seq<int>)
    ensures |r| == |s|
    ensures forall k :: 0 <= k < |r| ==> r[k] == TruncateToInt(s[k])
  {
    seq(|s|, k requires 0 <= k < |s| => TruncateToInt(s[k]))
  }

  /** Whole numbers carried as floats. */
  function AsReals(s: seq<int>): (r: seq<real>)
    ensures |r| == |s|
    ensures forall k :: 0 <= k < |r| ==> r[k] == s[k] as real
  {
    seq(|s|, k requires 0 <= k < |s| => s[k] as real)
  }

  /** On whole numbers, filtering the floats and then casting is filtering the
      ints: the two orders of the two change_speed copies agree. */
  lemma {:induction false} FilterThenCast(s: seq<int>, bound: int)
    ensures CastToInt(KeepBelowReal(AsReals(s), bound as real)) == Analysis.KeepBelow(s, bound)
  {
    if s != [] {
      FilterThenCast(s[1..], bound);
      assert AsReals(s)[1..] == AsReals(s[1..]);
      assert TruncateToInt(s[0] as real) == s[0];
      if s[0] < bound {
        assert CastToInt([s[0] as real] + KeepBelowReal(AsReals(s[1..]), bound as real))
            == [s[0]] + CastToInt(KeepBelowReal(AsReals(s[1..]), bound as real));
      }
    }
  }

  /** The indices the GUI's change_speed reads: round, keep the floats below
      len(data), cast. They are exactly the class's indices. */
  function Indices(n: nat, speedFactor: real): (idx: seq<int>)
    requires speedFactor > 0.0
    ensures idx == Analysis.SpeedIndices(n, speedFactor)
  {
    var xs := Analysis.Arange(n, speedFactor);
    var rounded := Analysis.RoundToIndices(xs);
    assert RoundReals(xs) == AsReals(rounded);
    FilterThenCast(rounded, n);
    CastToInt(KeepBelowReal(RoundReals(xs), n as real))
  }

  /** gui.change_speed: the samples at the rounded ticks. Every output sample
      is some input sample, there are at most ceil(len / sf) of them, and
      they are the samples AudioAnalysis.change_speed returns. Unlike the
      class's copy it computes no spectrum, so an empty input gives an empty
      output instead of an error. */
  function ChangeSpeed<T>(data: seq<T>, speedFactor: real): (r: seq<T>)
    requires speedFactor > 0.0
    ensures |r| <= Ceil(|data| as real / speedFactor)
    ensures forall j :: 0 <= j < |r| ==> exists i :: 0 <= i < |data| && r[j] == data[i]
    ensures data == [] ==> r == []
    ensures forall rate: int | rate > 0 && data != [] ::
      r == Analysis.ChangeSpeed(rate, data, speedFactor).value.data
  {
    var idx := Indices(|data|, speedFactor);
    var r := Analysis.Pick(data, idx);
    assert forall j :: 0 <= j < |r| ==> r[j] == data[idx[j]];
    r
  }

  /** With speed factor 2 tick k is 2k, kept exactly when 2k < n. */
  lemma DoubleTick(n: nat, k: nat)
    ensures k < |Analysis.SpeedIndices(n, 2.0)| <==> 2 * k < n
    ensures k < |Analysis.SpeedIndices(n, 2.0)| ==> Analysis.SpeedIndices(n, 2.0)[k] == 2 * k
  {
    assert Analysis.Tick(k, 2.0) == (2 * k) as real;
    RoundHalfEvenOfInt(2 * k);
  }

  /** Speed factor 2 keeps data[0], data[2], data[4], ...: ceil(n / 2) samples. */
  lemma ChangeSpeedDouble<T>(data: seq<T>)
    ensures |ChangeSpeed(data, 2.0)| == (|data| + 1) / 2
    ensures forall j :: 0 <= j < |ChangeSpeed(data, 2.0)| ==> ChangeSpeed(data, 2.0)[j] == data[2 * j]
  {
    var n := |data|;
    var idx := Analysis.SpeedIndices(n, 2.0);
    var half := (n + 1) / 2;
    DoubleTick(n, half);
    if half > 0 {
      DoubleTick(n, half - 1);
    }
    forall j | 0 <= j < |idx| ensures idx[j] == 2 * j {
      DoubleTick(n, j);
    }
  }

  /** Speed factor 1 returns the samples unchanged. */
  lemma ChangeSpeedUnit<T>(data: seq<T>)
    ensures ChangeSpeed(data, 1.0) == data
  {
    Analysis.SpeedIndicesUnit(|data|);
  }
}
