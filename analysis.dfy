/** The array-level operations of the AudioAnalysis class and of mix_voices.
    The object's fields (rate, data, amplitude, frequency) are never updated by
    these operations, so each one takes the fields it reads as parameters.
    Amplitudes have an arbitrary element type `A` with a caller-chosen `zero`:
    the class holds complex spectra, the GUI holds real magnitudes. */
module Analysis {
  import opened Numeric

  datatype Error =
    | EmptySignal   // rfft of an empty array raises
    | EmptyList     // min() over no inputs raises
    | MissingRate   // rate_list[0] on an empty list raises

  datatype Result<T> = Ok(value: T) | Err(error: Error)

  // ---------------------------------------------------------------------------
  // Spectral masking
  // ---------------------------------------------------------------------------

  /** np.where(mask, 0, amplitude): the masked bins become zero, the rest pass. */
  function Where<A>(mask: seq<bool>, zero: A, amplitude: seq<A>): (r: seq<A>)
    requires |mask| == |amplitude|
    ensures |r| == |amplitude|
    ensures forall i :: 0 <= i < |r| && mask[i] ==> r[i] == zero
    ensures forall i :: 0 <= i < |r| && !mask[i] ==> r[i] == amplitude[i]
  {
    if amplitude == [] then []
    else [if mask[0] then zero else amplitude[0]] + Where(mask[1..], zero, amplitude[1..])
  }

  /** The comparison frequency > cutoff, bin by bin. */
  function AboveMask(frequency: seq<real>, cutoff: real): seq<bool> {
    seq(|frequency|, i requires 0 <= i < |frequency| => frequency[i] > cutoff)
  }

  /** A stop band given by its centre and its full width. */
  datatype Band = Band(center: real, width: real) {
    function Low(): real { center - width / 2.0 }
    function High(): real { center + width / 2.0 }
    /** Both edges belong to the band. */
    predicate Contains(f: real) { Low() <= f && f <= High() }
  }

  /** (frequency >= low_cutoff) & (frequency <= high_cutoff), bin by bin. */
  function BandMask(frequency: seq<real>, band: Band): seq<bool> {
    seq(|frequency|, i requires 0 <= i < |frequency| => band.Contains(frequency[i]))
  }

  /** AudioAnalysis.low_pass_filter: every bin strictly above the cutoff is
      zeroed, every other bin (one exactly at the cutoff too) is kept. */
  function LowPass<A>(frequency: seq<real>, amplitude: seq<A>, cutoff: real, zero: A): (r: seq<A>)
    requires |frequency| == |amplitude|
    ensures |r| == |amplitude|
    ensures forall i :: 0 <= i < |r| && frequency[i] > cutoff ==> r[i] == zero
    ensures forall i :: 0 <= i < |r| && frequency[i] <= cutoff ==> r[i] == amplitude[i]
  {
    Where(AboveMask(frequency, cutoff), zero, amplitude)
  }

  /** Filtering twice with one cutoff is filtering once. */
  lemma LowPassIdempotent<A>(frequency: seq<real>, amplitude: seq<A>, cutoff: real, zero: A)
    requires |frequency| == |amplitude|
    ensures LowPass(frequency, LowPass(frequency, amplitude, cutoff, zero), cutoff, zero)
            == LowPass(frequency, amplitude, cutoff, zero)
  {
  }

  /** A lower cutoff after a higher one acts as the lower cutoff alone. */
  lemma LowPassCompose<A>(frequency: seq<real>, amplitude: seq<A>, c1: real, c2: real, zero: A)
    requires |frequency| == |amplitude|
    requires c2 <= c1
    ensures LowPass(frequency, LowPass(frequency, amplitude, c1, zero), c2, zero)
            == LowPass(frequency, amplitude, c2, zero)
  {
  }

  /** AudioAnalysis.band_stop_filter (its amplitude half): the bins inside the
      closed interval [center - width/2, center + width/2] are zeroed and every
      other bin is kept. */
  function BandStop<A>(frequency: seq<real>, amplitude: seq<A>, bandFreq: real, bandWidth: real, zero: A): (r: seq<A>)
    requires |frequency| == |amplitude|
    ensures |r| == |amplitude|
    ensures forall i :: 0 <= i < |r| ==>
      (bandFreq - bandWidth / 2.0 <= frequency[i] <= bandFreq + bandWidth / 2.0 ==> r[i] == zero)
    ensures forall i :: 0 <= i < |r| ==>
      (!(bandFreq - bandWidth / 2.0 <= frequency[i] <= bandFreq + bandWidth / 2.0) ==> r[i] == amplitude[i])
  {
    Where(BandMask(frequency, Band(bandFreq, bandWidth)), zero, amplitude)
  }

  /** A negative width makes low_cutoff > high_cutoff: nothing is zeroed. */
  lemma BandStopNegativeWidth<A>(frequency: seq<real>, amplitude: seq<A>, bandFreq: real, bandWidth: real, zero: A)
    requires |frequency| == |amplitude|
    requires bandWidth < 0.0
    ensures BandStop(frequency, amplitude, bandFreq, bandWidth, zero) == amplitude
  {
  }

  /** zip(band_freqs, band_widths): pairs up to the shorter list's length. */
  function Zip(bandFreqs: seq<real>, bandWidths: seq<real>): (bands: seq<Band>)
    ensures |bands| == if |bandFreqs| <= |bandWidths| then |bandFreqs| else |bandWidths|
    ensures forall k :: 0 <= k < |bands| ==> bands[k] == Band(bandFreqs[k], bandWidths[k])
  {
    if bandFreqs == [] || bandWidths == [] then []
    else [Band(bandFreqs[0], bandWidths[0])] + Zip(bandFreqs[1..], bandWidths[1..])
  }

  /** f lies in (at least) one of the bands. */
  predicate InAnyBand(f: real, bands: seq<Band>) {
    exists b :: b in bands && b.Contains(f)
  }

  /** The stop bands applied one after the other, as the loop of
      multi_band_stop_filter applies them: a bin ends up zero exactly when its
      frequency lies in some band, and keeps its value otherwise. */
  function MultiBandStop<A>(frequency: seq<real>, amplitude: seq<A>, bands: seq<Band>, zero: A): (r: seq<A>)
    requires |frequency| == |amplitude|
    ensures |r| == |amplitude|
    ensures forall i :: 0 <= i < |r| && InAnyBand(frequency[i], bands) ==> r[i] == zero
    ensures forall i :: 0 <= i < |r| && !InAnyBand(frequency[i], bands) ==> r[i] == amplitude[i]
    decreases |bands|
  {
    if bands == [] then amplitude
    else
      var once := Where(BandMask(frequency, bands[0]), zero, amplitude);
      assert forall b :: b in bands <==> b == bands[0] || b in bands[1..];
      MultiBandStop(frequency, once, bands[1..], zero)
  }

  /** AudioAnalysis.multi_band_stop_filter (its amplitude half): the amplitude
      is copied, then each zipped band zeroes its bins in the copy. */
  method MultiBandStopFilter<A>(frequency: seq<real>, amplitude: seq<A>,
                                bandFreqs: seq<real>, bandWidths: seq<real>, zero: A)
    returns (filtered: seq<A>)
    requires |frequency| == |amplitude|
    ensures filtered == MultiBandStop(frequency, amplitude, Zip(bandFreqs, bandWidths), zero)
  {
    var n := |amplitude|;
    var copy := new A[n](i requires 0 <= i < n => amplitude[i]);
    var bands := Zip(bandFreqs, bandWidths);
    var k := 0;
    while k < |bands|
      invariant 0 <= k <= |bands|
      invariant forall i :: 0 <= i < n && InAnyBand(frequency[i], bands[..k]) ==> copy[i] == zero
      invariant forall i :: 0 <= i < n && !InAnyBand(frequency[i], bands[..k]) ==> copy[i] == amplitude[i]
    {
      var band := bands[k];
      forall i | 0 <= i < n && band.Contains(frequency[i]) {
        copy[i] := zero;
      }
      assert bands[..k + 1] == bands[..k] + [band];
      k := k + 1;
    }
    assert bands[..k] == bands;
    filtered := copy[..];
  }

  /** The result does not depend on the order in which the bands are listed. */
  lemma MultiBandStopOrderFree<A>(frequency: seq<real>, amplitude: seq<A>,
                                  bands1: seq<Band>, bands2: seq<Band>, zero: A)
    requires |frequency| == |amplitude|
    requires multiset(bands1) == multiset(bands2)
    ensures MultiBandStop(frequency, amplitude, bands1, zero)
            == MultiBandStop(frequency, amplitude, bands2, zero)
  {
    forall f ensures InAnyBand(f, bands1) == InAnyBand(f, bands2) {
      forall b ensures b in bands1 <==> b in bands2 {
        assert b in bands1 <==> b in multiset(bands1);
        assert b in bands2 <==> b in multiset(bands2);
      }
    }
  }

  /** With a single band the multi-band filter is the band-stop filter. */
  lemma MultiBandStopSingle<A>(frequency: seq<real>, amplitude: seq<A>, bandFreq: real, bandWidth: real, zero: A)
    requires |frequency| == |amplitude|
    ensures MultiBandStop(frequency, amplitude, [Band(bandFreq, bandWidth)], zero)
            == BandStop(frequency, amplitude, bandFreq, bandWidth, zero)
  {
  }

  /** Filtering by one list of bands and then another is filtering by both. */
  lemma MultiBandStopConcat<A>(frequency: seq<real>, amplitude: seq<A>,
                               bands1: seq<Band>, bands2: seq<Band>, zero: A)
    requires |frequency| == |amplitude|
    ensures MultiBandStop(frequency, MultiBandStop(frequency, amplitude, bands1, zero), bands2, zero)
            == MultiBandStop(frequency, amplitude, bands1 + bands2, zero)
  {
    forall f ensures InAnyBand(f, bands1 + bands2) <==> InAnyBand(f, bands1) || InAnyBand(f, bands2) {
      forall b ensures b in bands1 + bands2 <==> b in bands1 || b in bands2 {
      }
    }
  }

  /** Overlapping or repeated bands add nothing: filtering twice with the same
      bands is filtering once. */
  lemma MultiBandStopIdempotent<A>(frequency: seq<real>, amplitude: seq<A>, bands: seq<Band>, zero: A)
    requires |frequency| == |amplitude|
    ensures MultiBandStop(frequency, MultiBandStop(frequency, amplitude, bands, zero), bands, zero)
            == MultiBandStop(frequency, amplitude, bands, zero)
  {
  }

  // ---------------------------------------------------------------------------
  // Decimation-based speed change
  // ---------------------------------------------------------------------------

  /** Multiplying by a positive factor keeps the order of two reals. */
  lemma ScaleMonotone(a: real, b: real, c: real)
    requires c > 0.0
    ensures a <= b <==> a * c <= b * c
    ensures a < b <==> a * c < b * c
  {
  }

  /** The k-th element of np.arange(0, stop, step): k * step, computed exactly. */
  function Tick(k: nat, step: real): real {
    k as real * step
  }

  /** The length of np.arange(0, n, step): the number of k >= 0 with k * step < n,
      which is ceil(n / step). */
  function ArangeLength(n: nat, step: real): (count: nat)
    requires step > 0.0
    ensures count == Ceil(n as real / step)
    ensures forall k: nat :: k < count <==> Tick(k, step) < n as real
  {
    var q := n as real / step;
    var c := Ceil(q);
    assert q * step == n as real;
    forall k: nat ensures k < c <==> Tick(k, step) < n as real {
      ScaleMonotone(k as real, q, step);
    }
    assert 0 <= c by { ScaleMonotone(0.0, q, step); }
    c
  }

  /** np.arange(0, n, step), with exact real arithmetic. */
  function Arange(n: nat, step: real): (xs: seq<real>)
    requires step > 0.0
    ensures |xs| == ArangeLength(n, step)
    ensures forall k :: 0 <= k < |xs| ==> xs[k] == Tick(k, step) && 0.0 <= xs[k] < n as real
  {
    seq(ArangeLength(n, step), k requires 0 <= k < ArangeLength(n, step) => Tick(k, step))
  }

  /** np.round(xs).astype(int): round half to even, then the cast (exact,
      since the rounded values are whole numbers). */
  function RoundToIndices(xs: seq<real>): (idx: seq<int>)
    ensures |idx| == |xs|
    ensures forall k :: 0 <= k < |idx| ==> idx[k] == RoundHalfEven(xs[k])
  {
    seq(|xs|, k requires 0 <= k < |xs| => TruncateToInt(RoundHalfEven(xs[k]) as real))
  }

  /** indices[indices < bound]: the elements below the bound, in order. */
  function KeepBelow(s: seq<int>, bound: int): (r: seq<int>)
    ensures |r| <= |s|
    ensures forall x :: x in r <==> x in s && x < bound
  {
    if s == [] then []
    else if s[0] < bound then [s[0]] + KeepBelow(s[1..], bound)
    else KeepBelow(s[1..], bound)
  }

  predicate NonDecreasing(s: seq<int>) {
    forall i, j :: 0 <= i <= j < |s| ==> s[i] <= s[j]
  }

  /** On a non-decreasing sequence the filter keeps a prefix: exactly the
      positions whose value is below the bound. */
  lemma {:induction false} KeepBelowPrefix(s: seq<int>, bound: int)
    requires NonDecreasing(s)
    ensures KeepBelow(s, bound) == s[..|KeepBelow(s, bound)|]
    ensures forall k :: 0 <= k < |s| ==> (k < |KeepBelow(s, bound)| <==> s[k] < bound)
  {
    if s != [] {
      KeepBelowPrefix(s[1..], bound);
    }
  }

  /** Later ticks round to indices at least as large, and none is negative. */
  lemma RoundedTicksOrdered(i: nat, j: nat, step: real)
    requires i <= j && step > 0.0
    ensures 0 <= RoundHalfEven(Tick(i, step)) <= RoundHalfEven(Tick(j, step))
  {
    assert Tick(j, step) - Tick(i, step) == (j - i) as real * step;
    RoundHalfEvenMonotone(Tick(i, step), Tick(j, step));
  }

  /** round(k * step) for every k of the arange: non-negative and non-decreasing. */
  function RoundedArange(n: nat, step: real): (idx: seq<int>)
    requires step > 0.0
    ensures |idx| == ArangeLength(n, step)
    ensures forall k :: 0 <= k < |idx| ==> idx[k] == RoundHalfEven(Tick(k, step)) && 0 <= idx[k]
    ensures NonDecreasing(idx)
  {
    var idx := RoundToIndices(Arange(n, step));
    forall i, j | 0 <= i <= j < |idx| ensures 0 <= idx[i] <= idx[j] {
      RoundedTicksOrdered(i, j, step);
    }
    idx
  }

  /** The indices change_speed reads: round(k * sf) for the k with k * sf < n,
      keeping those below n. They are in range, non-decreasing, at most
      ceil(n / sf) of them, and they are the rounded ticks in order. */
  function SpeedIndices(n: nat, speedFactor: real): (idx: seq<int>)
    requires speedFactor > 0.0
    ensures |idx| <= ArangeLength(n, speedFactor)
    ensures forall j :: 0 <= j < |idx| ==> 0 <= idx[j] < n
    ensures forall j :: 0 <= j < |idx| ==> idx[j] == RoundHalfEven(Tick(j, speedFactor))
    ensures NonDecreasing(idx)
    ensures forall k: nat :: k < |idx| <==>
      k < ArangeLength(n, speedFactor) && RoundHalfEven(Tick(k, speedFactor)) < n
  {
    var rounded := RoundedArange(n, speedFactor);
    KeepBelowPrefix(rounded, n);
    KeepBelow(rounded, n)
  }

  /** self.data[indices]: the samples at the given positions. */
  function Pick<T>(data: seq<T>, idx: seq<int>): (r: seq<T>)
    requires forall j :: 0 <= j < |idx| ==> 0 <= idx[j] < |data|
    ensures |r| == |idx|
  {
    seq(|idx|, j requires 0 <= j < |idx| => data[idx[j]])
  }

  /** rfftfreq(n, d) as numpy defines it: arange(0, n // 2 + 1) * (1 / (n * d)). */
  function RfftFreq(n: nat, d: real): (bins: seq<real>)
    requires n > 0 && d != 0.0
    ensures |bins| == n / 2 + 1
  {
    var val := 1.0 / (n as real * d);
    seq(n / 2 + 1, k requires 0 <= k <= n / 2 => k as real * val)
  }

  /** The spacing numpy computes, 1 / (n * (1 / rate)), is rate / n. */
  lemma BinSpacing(n: real, rate: real)
    requires n > 0.0 && rate > 0.0
    ensures 1.0 / (n * (1.0 / rate)) == rate / n
  {
    assert n * (1.0 / rate) == n / rate;
  }

  /** Bin k of rfftfreq(n, 1 / rate) is k * rate / n, and the next bin lies
      rate / n above it. */
  lemma RfftFreqBin(n: nat, rate: real, k: nat)
    requires n > 0 && rate > 0.0 && k <= n / 2
    ensures RfftFreq(n, 1.0 / rate)[k] == k as real * (rate / n as real) == k as real * rate / n as real
    ensures k < n / 2 ==> RfftFreq(n, 1.0 / rate)[k + 1] - RfftFreq(n, 1.0 / rate)[k] == rate / n as real
  {
    BinSpacing(n as real, rate);
    BinAt(k, n as real, rate);
  }

  /** Bin k at spacing rate / n is k * rate / n; consecutive bins differ by the spacing. */
  lemma BinAt(k: nat, n: real, rate: real)
    requires n > 0.0
    ensures k as real * (rate / n) == k as real * rate / n
    ensures (k + 1) as real * (rate / n) - k as real * (rate / n) == rate / n
  {
  }

  /** The last bin, n // 2, is at or below the Nyquist frequency rate / 2. */
  lemma LastBinBelowNyquist(n: nat, rate: real)
    requires n > 0 && rate > 0.0
    ensures (n / 2) as real * (rate / n as real) <= rate / 2.0
  {
    var nr := n as real;
    assert (n / 2) as real <= nr / 2.0;
    ScaleMonotone((n / 2) as real, nr / 2.0, rate / nr);
    assert nr / 2.0 * (rate / nr) == rate / 2.0;
  }

  /** rfftfreq(n, 1 / rate): the bins are the documented k * rate / n, start
      at 0, are evenly spaced by rate / n and end at or below rate / 2. */
  function BinsAtRate(n: nat, rate: real): (bins: seq<real>)
    requires n > 0 && rate > 0.0
    ensures |bins| == n / 2 + 1
    ensures forall k :: 0 <= k < |bins| ==> bins[k] == k as real * rate / n as real
    ensures bins[0] == 0.0
    ensures forall k :: 0 <= k < |bins| - 1 ==> bins[k + 1] - bins[k] == rate / n as real
    ensures bins[n / 2] <= rate / 2.0
  {
    var bins := RfftFreq(n, 1.0 / rate);
    forall k | 0 <= k < |bins|
      ensures bins[k] == k as real * rate / n as real
      ensures k < |bins| - 1 ==> bins[k + 1] - bins[k] == rate / n as real
    {
      RfftFreqBin(n, rate, k);
    }
    LastBinBelowNyquist(n, rate);
    bins
  }

  /** What change_speed returns besides the magnitude spectrum. */
  datatype SpeedChange<T> = SpeedChange(data: seq<T>, frequency: seq<real>, rate: int)

  /** AudioAnalysis.change_speed: the decimated samples, the bins of their
      spectrum (computed with the ORIGINAL rate, not the new one) and the new
      rate int(rate / speed_factor). An empty signal makes rfft raise. */
  function ChangeSpeed<T>(rate: int, data: seq<T>, speedFactor: real): (r: Result<SpeedChange<T>>)
    requires rate > 0 && speedFactor > 0.0
    ensures r.Err? <==> data == []
    ensures r.Err? ==> r.error == EmptySignal
    ensures r.Ok? ==>
      var idx := SpeedIndices(|data|, speedFactor);
      && |r.value.data| == |idx|
      && (forall j :: 0 <= j < |idx| ==> r.value.data[j] == data[idx[j]])
      && 0 < |r.value.data| <= Ceil(|data| as real / speedFactor)
      && r.value.frequency == BinsAtRate(|r.value.data|, rate as real)
      && r.value.rate == TruncateToInt(rate as real / speedFactor)
  {
    var idx := SpeedIndices(|data|, speedFactor);
    if data == [] then Err(EmptySignal)
    else
      assert 0 < |idx| by {
        RoundHalfEvenOfInt(0);
        assert Tick(0, speedFactor) == 0.0;
      }
      var changed := Pick(data, idx);
      Ok(SpeedChange(changed, RfftFreq(|changed|, 1.0 / rate as real),
                     TruncateToInt(rate as real / speedFactor)))
  }

  /** new_rate = int(rate / speed_factor) is the largest whole rate r with
      r * speed_factor <= rate. */
  lemma NewRateBounds(rate: int, speedFactor: real)
    requires rate > 0 && speedFactor > 0.0
    ensures var r := TruncateToInt(rate as real / speedFactor);
      0 <= r && r as real * speedFactor <= rate as real < (r + 1) as real * speedFactor
  {
    var q := rate as real / speedFactor;
    var r := TruncateToInt(q);
    assert q * speedFactor == rate as real;
    ScaleMonotone(0.0, q, speedFactor);
    ScaleMonotone(r as real, q, speedFactor);
    assert q < (r + 1) as real;
    ScaleMonotone(q, (r + 1) as real, speedFactor);
    assert q * speedFactor < (r + 1) as real * speedFactor;
    assert rate as real < (r + 1) as real * speedFactor;
  }

  /** With speed factor 1 tick k is k itself, and it is kept. */
  lemma UnitTickKept(n: nat, k: nat)
    requires k < n
    ensures k < |SpeedIndices(n, 1.0)| && SpeedIndices(n, 1.0)[k] == k
  {
    assert Tick(k, 1.0) == k as real;
    RoundHalfEvenOfInt(k);
  }

  /** With speed factor 1 every index 0 .. n - 1 is read once, in order. */
  lemma SpeedIndicesUnit(n: nat)
    ensures |SpeedIndices(n, 1.0)| == n
    ensures forall k :: 0 <= k < n ==> SpeedIndices(n, 1.0)[k] == k
  {
    forall k | 0 <= k < n ensures k < |SpeedIndices(n, 1.0)| && SpeedIndices(n, 1.0)[k] == k {
      UnitTickKept(n, k);
    }
    assert Tick(n, 1.0) == n as real;
    assert ArangeLength(n, 1.0) <= n;
    if n > 0 {
      UnitTickKept(n, n - 1);
    }
  }

  /** With speed factor 1 the samples come back unchanged, at the same rate. */
  lemma ChangeSpeedUnit<T>(rate: int, data: seq<T>)
    requires rate > 0 && data != []
    ensures ChangeSpeed(rate, data, 1.0).Ok?
    ensures ChangeSpeed(rate, data, 1.0).value.data == data
    ensures ChangeSpeed(rate, data, 1.0).value.rate == rate
  {
    SpeedIndicesUnit(|data|);
    assert rate as real / 1.0 == rate as real;
  }

  // ---------------------------------------------------------------------------
  // Reversal
  // ---------------------------------------------------------------------------

  /** data[::-1]: position i holds the sample len - 1 - i. */
  function Reverse<T>(data: seq<T>): (r: seq<T>)
    ensures |r| == |data|
    ensures forall i :: 0 <= i < |r| ==> r[i] == data[|data| - 1 - i]
  {
    if data == [] then [] else [data[|data| - 1]] + Reverse(data[..|data| - 1])
  }

  /** Reversing twice gives back the samples. */
  lemma ReverseInvolution<T>(data: seq<T>)
    ensures Reverse(Reverse(data)) == data
  {
  }

  // ---------------------------------------------------------------------------
  // Mixing
  // ---------------------------------------------------------------------------

  /** min(len(data) for data in data_list). */
  function MinLength(dataList: seq<seq<real>>): (m: nat)
    requires dataList != []
    ensures forall j :: 0 <= j < |dataList| ==> m <= |dataList[j]|
    ensures exists j :: 0 <= j < |dataList| && m == |dataList[j]|
  {
    if |dataList| == 1 then |dataList[0]|
    else
      var rest := MinLength(dataList[1..]);
      if |dataList[0]| <= rest then |dataList[0]|
      else
        assert forall j :: 1 <= j < |dataList| ==> dataList[1..][j - 1] == dataList[j];
        rest
  }

  /** The sum over the inputs of their sample i. */
  function ColumnSum(dataList: seq<seq<real>>, i: nat): real
    requires forall j :: 0 <= j < |dataList| ==> i < |dataList[j]|
  {
    if dataList == [] then 0.0
    else ColumnSum(dataList[..|dataList| - 1], i) + dataList[|dataList| - 1][i]
  }

  /** The average of the inputs, sample by sample, over the shortest length. */
  function Mixed(dataList: seq<seq<real>>): (r: seq<real>)
    requires dataList != []
    ensures |r| == MinLength(dataList)
  {
    var m := MinLength(dataList);
    seq(m, i requires 0 <= i < m => ColumnSum(dataList, i) / |dataList| as real)
  }

  datatype Mix = Mix(rate: int, data: seq<real>)

  /** mix_voices: a zero accumulator of the shortest length receives every
      input's prefix, is divided by the number of inputs, and is returned with
      the first rate. No input makes min() raise; no rate makes the indexing
      raise. */
  method MixVoices(dataList: seq<seq<real>>, rateList: seq<int>) returns (r: Result<Mix>)
    ensures dataList == [] ==> r == Err(EmptyList)
    ensures dataList != [] && rateList == [] ==> r == Err(MissingRate)
    ensures dataList != [] && rateList != [] ==> r == Ok(Mix(rateList[0], Mixed(dataList)))
  {
    if dataList == [] {
      return Err(EmptyList);
    }
    var minLength := MinLength(dataList);
    var mixed := new real[minLength](_ => 0.0);
    var j := 0;
    while j < |dataList|
      invariant 0 <= j <= |dataList|
      invariant forall i :: 0 <= i < minLength ==> mixed[i] == ColumnSum(dataList[..j], i)
    {
      var data := dataList[j];
      forall i | 0 <= i < minLength {
        mixed[i] := mixed[i] + data[i];
      }
      assert dataList[..j + 1][..j] == dataList[..j];
      j := j + 1;
    }
    assert dataList[..j] == dataList;
    forall i | 0 <= i < minLength {
      mixed[i] := mixed[i] / |dataList| as real;
    }
    assert mixed[..] == Mixed(dataList);
    if rateList == [] {
      return Err(MissingRate);
    }
    r := Ok(Mix(rateList[0], mixed[..]));
  }

  /** Bounds on every input carry over to the column sum: |dataList| * lo .. |dataList| * hi. */
  lemma {:induction false} ColumnSumBetween(dataList: seq<seq<real>>, i: nat, lo: real, hi: real)
    requires forall j :: 0 <= j < |dataList| ==> i < |dataList[j]| && lo <= dataList[j][i] <= hi
    ensures |dataList| as real * lo <= ColumnSum(dataList, i) <= |dataList| as real * hi
  {
    if dataList != [] {
      var init := dataList[..|dataList| - 1];
      assert forall j :: 0 <= j < |init| ==> init[j] == dataList[j];
      ColumnSumBetween(init, i, lo, hi);
    }
  }

  /** Sample i of the mix is the column sum divided by the number of inputs. */
  lemma MixedAt(dataList: seq<seq<real>>, i: nat)
    requires dataList != [] && i < MinLength(dataList)
    ensures Mixed(dataList)[i] == ColumnSum(dataList, i) / |dataList| as real
  {
  }

  /** A sum of k values between lo and hi, divided by k, stays between them. */
  lemma AverageBetween(sum: real, k: real, lo: real, hi: real)
    requires k > 0.0 && k * lo <= sum <= k * hi
    ensures lo <= sum / k <= hi
  {
    assert sum / k * k == sum;
    ScaleMonotone(lo, sum / k, k);
    ScaleMonotone(sum / k, hi, k);
  }

  /** Mixing averages: each mixed sample lies between the smallest and the
      largest input sample at that position, so identical inputs mix to
      themselves. */
  lemma MixedBetween(dataList: seq<seq<real>>, i: nat, lo: real, hi: real)
    requires dataList != []
    requires forall j :: 0 <= j < |dataList| ==> i < |dataList[j]| && lo <= dataList[j][i] <= hi
    ensures i < |Mixed(dataList)| && lo <= Mixed(dataList)[i] <= hi
  {
    var sum, k := ColumnSum(dataList, i), |dataList| as real;
    ColumnSumBetween(dataList, i, lo, hi);
    AverageBetween(sum, k, lo, hi);
    MixedAt(dataList, i);
  }

  /** Two inputs: the column sum is the sum of the two samples. */
  lemma ColumnSumPair(a: seq<real>, b: seq<real>, i: nat)
    requires i < |a| && i < |b|
    ensures ColumnSum([a, b], i) == a[i] + b[i]
  {
    var ds := [a, b];
    assert ds[..1] == [a];
    assert [a][..0] == [];
    assert ColumnSum([a], i) == a[i];
    assert ColumnSum(ds, i) == ColumnSum([a], i) + b[i];
  }

  /** Mixing [1, 2, 3] with [3, 2, 1] gives [2, 2, 2]. */
  lemma MixedExample()
    ensures Mixed([[1.0, 2.0, 3.0], [3.0, 2.0, 1.0]]) == [2.0, 2.0, 2.0]
  {
    var a, b := [1.0, 2.0, 3.0], [3.0, 2.0, 1.0];
    assert MinLength([a, b]) == 3;
    ColumnSumPair(a, b, 0);
    ColumnSumPair(a, b, 1);
    ColumnSumPair(a, b, 2);
  }

  /** Every input cut to its first m samples. */
  function Truncated(dataList: seq<seq<real>>, m: nat): (r: seq<seq<real>>)
    requires forall j :: 0 <= j < |dataList| ==> m <= |dataList[j]|
    ensures |r| == |dataList|
    ensures forall j :: 0 <= j < |r| ==> r[j] == dataList[j][..m]
  {
    seq(|dataList|, j requires 0 <= j < |dataList| => dataList[j][..m])
  }

  /** Cutting the inputs after sample i leaves the column sum at i unchanged. */
  lemma {:induction false} ColumnSumTruncated(dataList: seq<seq<real>>, m: nat, i: nat)
    requires forall j :: 0 <= j < |dataList| ==> m <= |dataList[j]|
    requires i < m
    ensures ColumnSum(Truncated(dataList, m), i) == ColumnSum(dataList, i)
  {
    if dataList != [] {
      var init := dataList[..|dataList| - 1];
      assert Truncated(dataList, m)[..|dataList| - 1] == Truncated(init, m);
      ColumnSumTruncated(init, m, i);
    }
  }

  /** The shortest input fixes the length: every sample of any input beyond
      the shortest length is dropped without affecting the mix. */
  lemma MixedTruncates(dataList: seq<seq<real>>)
    requires dataList != []
    ensures Mixed(dataList) == Mixed(Truncated(dataList, MinLength(dataList)))
  {
    var m := MinLength(dataList);
    var cut := Truncated(dataList, m);
    assert MinLength(cut) == m;
    forall i | 0 <= i < m
      ensures Mixed(dataList)[i] == Mixed(cut)[i]
    {
      ColumnSumTruncated(dataList, m, i);
    }
  }
}
