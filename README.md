# audio-signal-analysis: the array-level signal operations, in Dafny

This project models the deterministic part of the audio-signal-analysis
repository: the operations around its spectral transform calls. These are:

- the brick-wall spectral masks (low-pass, single band-stop, multi band-stop);
- the decimation-based speed change (rounded arange indices, the new rate and
  the frequency bins of the result);
- sample reversal and multi-signal mixing;
- the GUI's duplicate low-pass filter and speed change;
- the player's `MM:SS` time display.

The transform itself (`rfft`, `irfft`) stays outside the model.

Files and modules:

- `numeric.dfy`, module `Numeric`: NumPy's round-half-to-even, Python's
  `int()` on a float (truncation toward zero), floor and ceiling. All of it
  uses exact reals.
- `analysis.dfy`, module `Analysis`: `AudioAnalysis.low_pass_filter`,
  `band_stop_filter`, `multi_band_stop_filter`, `change_speed`, `reverse_voice`
  and the module function `mix_voices`. These methods never update the
  object's fields, so each operation takes the fields it reads (`rate`,
  `data`, `amplitude`, `frequency`) as parameters. Amplitudes have a generic
  element type `A` with a caller-supplied `zero`, because the class holds
  complex spectra and the GUI holds real magnitudes. Sample arrays have a
  generic element type, except in mixing, which averages reals.
  `multi_band_stop_filter` copies the amplitude into a fresh array and zeroes
  masked slots band by band in a loop. `mix_voices` adds each input into a
  zero accumulator and divides it in place. Both are methods over arrays,
  proved equal to pure specification functions (`MultiBandStop`, `Mixed`),
  and the properties are proved about those functions.
- `gui.dfy`, module `Gui`: the GUI's module-level `low_pass_filter`, applied
  to magnitude spectra, and its `change_speed`. That `change_speed` rounds,
  filters the rounded floats and then casts them. It is proved to read
  exactly the indices that `AudioAnalysis.change_speed` reads.
- `audio_player.dfy`, module `AudioPlayer`: `format_time` and the text that
  `update_time_label` builds. Integer rendering (`f"{n}"`, `f"{n:02}"`) is
  proved to read back as the rendered number.

On these points the model follows the code:

- The new rate of a speed change is `int(rate / speed_factor)`, which
  truncates. It equals the floor here because both operands are positive.
- The frequency bins returned by `change_speed` are computed with the
  original rate, not with the new one.
- No operation validates its inputs. An empty `data_list` in `mix_voices`
  fails because `min()` raises. An empty signal in `change_speed` fails
  because the transform of an empty array raises. Both become `Err` results.
  The GUI's `change_speed` has no transform, so it returns an empty array for
  an empty input.
- A negative band width is a silent no-op.

## Model

| member | source | states |
|---|---|---|
| `Numeric.RoundHalfEven` | audio_analysis/analysis.py:56 | np.round: the result is within 1/2 of x, and on a tie (distance exactly 1/2) it is even |
| `Numeric.RoundHalfEvenUnique` | audio_analysis/analysis.py:56 | any integer within 1/2 of x that is even on a tie is the rounded value, so the contract of RoundHalfEven determines it |
| `Numeric.RoundHalfEvenOfInt` | audio_analysis/analysis.py:56 | a whole number rounds to itself |
| `Numeric.RoundHalfEvenMonotone` | audio_analysis/analysis.py:56 | rounding preserves order: x <= y implies round(x) <= round(y) |
| `Numeric.TruncateToInt` | audio_analysis/analysis.py:62 | Python int() of a float: for x >= 0 the largest integer not above x, for x < 0 the smallest not below it |
| `Analysis.Where` | audio_analysis/analysis.py:86 | np.where(mask, 0, a): same length; masked bins are zero, unmasked bins keep their value |
| `Analysis.LowPass` | audio_analysis/analysis.py:86 | same length; a bin with frequency > cutoff is zero, a bin with frequency <= cutoff (at the cutoff included) keeps its amplitude |
| `Analysis.LowPassIdempotent` | audio_analysis/analysis.py:86 | filtering twice with the same cutoff equals filtering once |
| `Analysis.LowPassCompose` | audio_analysis/analysis.py:86 | a low-pass at c2 after one at c1 >= c2 equals the low-pass at c2 alone |
| `Analysis.BandStop` | audio_analysis/analysis.py:100-102 | same length; bins with band_freq - w/2 <= f <= band_freq + w/2 (both edges included) are zero, all other bins unchanged |
| `Analysis.BandStopNegativeWidth` | audio_analysis/analysis.py:100-102 | a negative width (low_cutoff > high_cutoff) zeroes nothing: the amplitude comes back unchanged |
| `Analysis.Zip` | audio_analysis/analysis.py:118 | zip(band_freqs, band_widths): length min of the two lengths, pair k is (band_freqs[k], band_widths[k]) |
| `Analysis.MultiBandStop` | audio_analysis/analysis.py:118-122 | bands applied one after another: same length; bin i is zero iff frequency[i] lies in some band, else the original value |
| `Analysis.MultiBandStopFilter` | audio_analysis/analysis.py:117-122 | the copy-and-zero loop over the zipped bands returns exactly MultiBandStop of the input amplitude (the input sequence itself is a value and is left unchanged) |
| `Analysis.MultiBandStopOrderFree` | audio_analysis/analysis.py:118-122 | any permutation of the bands gives the same result |
| `Analysis.MultiBandStopSingle` | audio_analysis/analysis.py:118-122 | with one band the multi-band result equals band_stop_filter's amplitude |
| `Analysis.MultiBandStopConcat` | audio_analysis/analysis.py:118-122 | filtering by bands1 and then by bands2 equals filtering by bands1 + bands2 |
| `Analysis.MultiBandStopIdempotent` | audio_analysis/analysis.py:118-122 | overlapping or repeated zeroing adds nothing: applying the same bands twice equals applying them once |
| `Analysis.ArangeLength` | audio_analysis/analysis.py:56 | len(np.arange(0, n, sf)) is ceil(n / sf), and k < that length exactly when k * sf < n |
| `Analysis.Arange` | audio_analysis/analysis.py:56 | element k is k * sf, every element lies in [0, n) |
| `Analysis.RoundToIndices` | audio_analysis/analysis.py:56 | np.round(...).astype(int): element k is round_half_even(x_k), since the cast of a whole float is exact |
| `Analysis.KeepBelow` | audio_analysis/analysis.py:57 | indices[indices < n]: an element is kept iff it is an input element below n; never longer than the input |
| `Analysis.KeepBelowPrefix` | audio_analysis/analysis.py:57 | on non-decreasing indices the filter keeps a prefix, exactly the positions whose value is below n |
| `Analysis.RoundedArange` | audio_analysis/analysis.py:56 | the rounded ticks are round_half_even(k * sf), non-negative and non-decreasing |
| `Analysis.SpeedIndices` | audio_analysis/analysis.py:56-57 | the selected indices are in [0, n), non-decreasing, at most ceil(n / sf) of them, index j is round_half_even(j * sf), and tick k is kept iff k * sf < n and its rounding is < n |
| `Analysis.RfftFreq` | audio_analysis/analysis.py:61 | rfftfreq(n, d) has n // 2 + 1 bins |
| `Analysis.RfftFreqBin` | audio_analysis/analysis.py:61 | bin k of rfftfreq(M, 1 / rate) is k * rate / M, and the next bin lies rate / M above it |
| `Analysis.BinsAtRate` | audio_analysis/analysis.py:61 | rfftfreq(M, 1 / rate): bin k is k * rate / M for k in 0..M//2, starting at 0, spaced by rate / M, last bin <= rate / 2 |
| `Analysis.ChangeSpeed` | audio_analysis/analysis.py:56-63 | error iff data is empty; otherwise output j is data[idx[j]], the length is between 1 and ceil(n / sf), the bins are rfftfreq of the output length with the ORIGINAL rate, and new_rate is int(rate / sf) |
| `Analysis.NewRateBounds` | audio_analysis/analysis.py:62 | new_rate is the largest whole r >= 0 with r * sf <= rate |
| `Analysis.SpeedIndicesUnit` | audio_analysis/analysis.py:56-57 | with sf = 1 the indices are exactly 0, 1, ..., n - 1 |
| `Analysis.ChangeSpeedUnit` | audio_analysis/analysis.py:56-62 | with sf = 1 the samples and the rate come back unchanged |
| `Analysis.Reverse` | audio_analysis/analysis.py:72 | data[::-1]: same length, position i holds data[len - 1 - i] |
| `Analysis.ReverseInvolution` | audio_analysis/analysis.py:72 | reversing twice gives back the samples |
| `Analysis.MinLength` | audio_analysis/analysis.py:137 | min(len(d) for d in data_list): no input is shorter, and some input has exactly this length |
| `Analysis.Mixed` | audio_analysis/analysis.py:137-143 | the mixed signal has the length of the shortest input |
| `Analysis.MixedAt` | audio_analysis/analysis.py:140-143 | mixed sample i is (sum over inputs of sample i) / len(data_list) |
| `Analysis.MixVoices` | audio_analysis/analysis.py:137-144 | no inputs: error (min raises); no rates: error (rate_list[0] raises); otherwise the accumulate-then-divide loop yields (rate_list[0], Mixed(data_list)) |
| `Analysis.ColumnSumBetween` | audio_analysis/analysis.py:140-141 | if every input's sample i lies in [lo, hi], the accumulated sum lies in [k*lo, k*hi] for k inputs |
| `Analysis.MixedBetween` | audio_analysis/analysis.py:137-143 | each mixed sample lies between the smallest and the largest input sample at that position (an average; identical inputs mix to themselves) |
| `Analysis.MixedExample` | audio_analysis/analysis.py:137-144 | mixing [1, 2, 3] with [3, 2, 1] gives [2, 2, 2] |
| `Analysis.ColumnSumTruncated` | audio_analysis/analysis.py:140-141 | the sum at sample i is the same whether or not every input is first cut to m > i samples (`data[:min_length]`) |
| `Analysis.MixedTruncates` | audio_analysis/analysis.py:137-141 | for any non-empty list of inputs, cutting every input to the shortest length leaves the mix unchanged: samples beyond it are ignored |
| `Gui.LowPassFilter` | audio_analysis_gui/gui.py:20-22 | same length; a bin is 0.0 iff its frequency is above the cutoff or it was 0.0; bins at or below the cutoff unchanged; a non-negative magnitude stays in [0, original] |
| `Gui.LowPassFilterIdempotent` | audio_analysis_gui/gui.py:21 | re-filtering with the same cutoff changes nothing |
| `Gui.KeepBelowReal` | audio_analysis_gui/gui.py:27 | indices[indices < len(data)] on floats: an element is kept iff it is an input element below the bound |
| `Gui.FilterThenCast` | audio_analysis_gui/gui.py:26-27 | on whole numbers, filtering as floats then casting equals filtering the ints |
| `Gui.Indices` | audio_analysis_gui/gui.py:26-27 | the GUI's round / filter / cast indices are exactly the indices AudioAnalysis.change_speed selects |
| `Gui.ChangeSpeed` | audio_analysis_gui/gui.py:25-28 | every output sample is data[i] for some i < len(data); at most ceil(len / sf) samples; empty in, empty out; the same samples as AudioAnalysis.change_speed for any positive rate |
| `Gui.ChangeSpeedDouble` | audio_analysis_gui/gui.py:26-28 | sf = 2 returns data[0], data[2], data[4], ...: ceil(N / 2) samples, output j is data[2j] |
| `Gui.ChangeSpeedUnit` | audio_analysis_gui/gui.py:26-28 | sf = 1 returns data unchanged |
| `AudioPlayer.Digits` | audio_analysis_gui/audio_player.py:86 | f"{n}" for n >= 0: at least one digit, reads back as n, no leading zero (a first '0' only for n = 0), one digit iff n < 10, at most two below 100 |
| `AudioPlayer.Pad2` | audio_analysis_gui/audio_player.py:86 | f"{n:02}": at least two characters, a '-' then digits with no zero after the sign for negative n, reads back as n, for n >= 0 a leading '0' exactly when n < 10, exactly two characters iff -9 <= n < 100 |
| `AudioPlayer.ClockFields` | audio_analysis_gui/audio_player.py:83-85 | seconds field in 0..59, minutes * 60 + seconds = ms div 1000, minutes = ms div 60000 (floor division, as Python's //) |
| `AudioPlayer.DivDiv` | audio_analysis_gui/audio_player.py:83-84 | (ms // 1000) // 60 = ms // 60000 for every integer ms |
| `AudioPlayer.FormatTime` | audio_analysis_gui/audio_player.py:82-86 | at least 5 characters, ':' third from the end, and the last two characters are digits reading back as the seconds field |
| `AudioPlayer.FormatTimeChars` | audio_analysis_gui/audio_player.py:86 | only digits, '-' and ':' occur in the text |
| `AudioPlayer.FormatTimeMinutes` | audio_analysis_gui/audio_player.py:83-86 | the text before the colon reads back as ms div 60000 |
| `AudioPlayer.FormatTimeMinutesPadding` | audio_analysis_gui/audio_player.py:84-86 | for ms >= 0 the text before the colon is all digits and starts with '0' exactly below ten minutes; for ms < 0 it is '-' followed by a non-zero digit |
| `AudioPlayer.SameTextSameSecond` | audio_analysis_gui/audio_player.py:83-86 | equal texts come from positions in the same whole second |
| `AudioPlayer.FormatTimeSameSecond` | audio_analysis_gui/audio_player.py:83-86 | two positions show the same text iff they lie in the same whole second |
| `AudioPlayer.FormatTimeLength` | audio_analysis_gui/audio_player.py:83-86 | for ms >= 0 the text is exactly 5 characters iff ms < 6,000,000 |
| `AudioPlayer.FormatTimeZero` | audio_analysis_gui/audio_player.py:86 | format_time(0) = "00:00" |
| `AudioPlayer.SeparatorSpaces` | audio_analysis_gui/audio_player.py:80 | joining two clock texts with " / " lays them out in order and puts spaces only at the two ends of the separator |
| `AudioPlayer.JoinUnique` | audio_analysis_gui/audio_player.py:80 | two joins of clock texts are equal only when both current texts and both total texts are equal |
| `AudioPlayer.TimeLabel` | audio_analysis_gui/audio_player.py:77-80 | the label is format_time(position), then " / ", then format_time(duration), and its only spaces are the separator's, so it splits back into the two times |
| `AudioPlayer.TimeLabelParts` | audio_analysis_gui/audio_player.py:77-80 | equal labels have equal current times and equal total times |
| `AudioPlayer.TimeLabelUnambiguous` | audio_analysis_gui/audio_player.py:77-86 | two labels are equal exactly when the positions fall in the same whole second and so do the durations |
| `AudioPlayer.TimeLabelInitial` | audio_analysis_gui/audio_player.py:33 | the label for zero duration and position is "00:00 / 00:00", the label's initial text |

## Left out

- The spectral transform (`rfft`, `irfft`, `np.fft.irfft`, `np.abs(rfft(...))`)
  is floating-point library numerics. So the model leaves out these results:
  `filtered_data` of `band_stop_filter` and `multi_band_stop_filter`,
  `new_amplitude` of `change_speed` and `reverse_voice`, `amp_to_data`, and
  the amplitude/frequency pair built by `read_voice`. The inverse transform
  of a magnitude-only spectrum (`gui.py` lines 15 and 118) loses phase. That
  cannot be stated without a model of the transform.
- WAV reading and writing (`read_voice`, `write_voice`, `save_outputs`) and the
  `astype(np.int16)` cast before writing are file I/O with a platform-defined
  float-to-int16 conversion.
- Plotting (`plotlib.py`, the GUI's `plot_spectrogram`), the Qt window and
  widgets, `QMediaPlayer` wiring, `audio_playback.py` (sound device I/O) and
  `main.py` (a script over file paths) are side effects outside the core.
- Floating point: all sample, frequency and index arithmetic is exact real
  arithmetic, including the accumulation inside `np.arange`. Ties that
  rounding error could move are not modelled.
- Analysis.ChangeSpeed: requires `speed_factor > 0`. With 0, `np.arange`
  raises. With a negative factor the index array is empty and the transform
  raises. Neither case is modelled.
- Gui.ChangeSpeed: requires `speed_factor > 0`. With a negative factor this
  copy would return an empty array. That case is not modelled.
- Analysis.ChangeSpeed: requires `rate > 0`. A zero rate makes `1 / self.rate`
  raise. Rates come from WAV headers, which are positive.
- Analysis.LowPass, Analysis.BandStop: require the frequency and amplitude
  arrays to have equal length. `np.where` would broadcast a length-1 array or
  raise on other mismatches. Neither case is modelled.
- Analysis.MultiBandStop: requires the frequency and amplitude arrays to have
  equal length. In the source the boolean-mask assignment raises IndexError
  on any length mismatch, but only when there is at least one band; with no
  bands nothing raises and the copy comes back. Neither mismatch case is
  modelled.
- Analysis.MixVoices: takes real-valued inputs. Sums of int16 arrays in
  NumPy are promoted to float64 by the zero accumulator, so no overflow is
  lost. The model does not check whether the inputs share a rate, and
  neither does the source.
- `update_time_label` hands its text to a Qt label. Only the text is modelled.
