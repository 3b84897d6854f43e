/** The time display of the GUI's audio player: format_time turns a position
    in milliseconds into "MM:SS", and update_time_label joins the current and
    the total time with " / ". Python's // and % round toward minus infinity;
    with the positive divisors used here Dafny's / and % give the same values,
    negative positions included. */
module AudioPlayer {

  // ---------------------------------------------------------------------------
  // Decimal rendering, as f"{n}" and f"{n:02}" produce it
  // ---------------------------------------------------------------------------

  predicate IsDigit(c: char) { '0' <= c <= '9' }

  predicate AllDigits(s: string) {
    forall i :: 0 <= i < |s| ==> IsDigit(s[i])
  }

  function DigitChar(d: nat): (c: char)
    requires d < 10
    ensures IsDigit(c)
  {
    (48 + d) as char
  }

  function DigitValue(c: char): nat
    requires IsDigit(c)
  {
    c as int - 48
  }

  /** The number a string of decimal digits denotes (leading zeros allowed). */
  function Value(s: string): nat
    requires AllDigits(s)
  {
    if s == [] then 0 else Value(s[..|s| - 1]) * 10 + DigitValue(s[|s| - 1])
  }

  /** The number a rendered integer denotes: an optional '-' and digits. */
  function SignedValue(s: string): int
    requires s != [] && (s[0] == '-' ==> AllDigits(s[1..])) && (s[0] != '-' ==> AllDigits(s))
  {
    if s[0] == '-' then -(Value(s[1..]) as int) else Value(s)
  }

  /** f"{n}" for n >= 0: the decimal digits without leading zeros (only 0
      itself starts with '0'). They read back as n, and there are at most two
      of them below 100. */
  function Digits(n: nat): (s: string)
    ensures 1 <= |s| && AllDigits(s) && Value(s) == n
    ensures s[0] == '0' ==> n == 0
    ensures |s| == 1 <==> n < 10
    ensures n < 100 ==> |s| <= 2
    ensures 100 <= n ==> |s| > 2
  {
    if n < 10 then [DigitChar(n)]
    else
      var init := Digits(n / 10);
      var s := init + [DigitChar(n % 10)];
      assert s[..|s| - 1] == init;
      s
  }

  /** f"{n:02}": at least two characters, zero-filled after any sign. It reads
      back as n; a value in 0..99 takes exactly two digits, and a zero is added
      only in front of a single digit. */
  function Pad2(n: int): (s: string)
    ensures |s| >= 2
    ensures n >= 0 ==> AllDigits(s)
    ensures n >= 0 ==> (s[0] == '0' <==> n < 10)
    ensures n < 0 ==> s[0] == '-' && AllDigits(s[1..])
    ensures n < 0 ==> s[1] != '0'
    ensures SignedValue(s) == n
    ensures |s| == 2 <==> -9 <= n < 100
  {
    if n < 0 then
      var s := "-" + Digits(-n);
      assert s[1..] == Digits(-n);
      s
    else if n < 10 then
      var s := "0" + Digits(n);
      assert s[..1] == "0";
      assert Value(s[..1]) == 0 by { assert s[..1][..0] == []; }
      s
    else Digits(n)
  }

  // ---------------------------------------------------------------------------
  // format_time and the label
  // ---------------------------------------------------------------------------

  /** The two fields format_time computes: whole minutes and the seconds left
      over. The seconds lie in 0..59, recombine with the minutes into the whole
      seconds of the position, and the minutes are ms div 60000. */
  function ClockFields(ms: int): (f: (int, int))
    ensures 0 <= f.1 < 60
    ensures f.0 * 60 + f.1 == ms / 1000
    ensures f.0 == ms / 60000
  {
    var seconds := ms / 1000;
    var minutes := seconds / 60;
    DivDiv(ms);
    (minutes, seconds % 60)
  }

  /** Floor division by 1000 and then by 60 is floor division by 60000. */
  lemma DivDiv(ms: int)
    ensures ms / 1000 / 60 == ms / 60000
  {
    var q := ms / 60000;
    var r := ms % 60000;
    assert ms == q * 60000 + r && 0 <= r < 60000;
    assert ms == (q * 60 + r / 1000) * 1000 + r % 1000;
    assert ms / 1000 == q * 60 + r / 1000;
  }

  /** The characters format_time can produce. */
  predicate ClockChar(c: char) { IsDigit(c) || c == '-' || c == ':' }

  /** AudioPlayer.format_time. The seconds are two digits after the colon. */
  function FormatTime(ms: int): (s: string)
    ensures |s| >= 5 && s[|s| - 3] == ':'
    ensures AllDigits(s[|s| - 2..]) && Value(s[|s| - 2..]) == ClockFields(ms).1
  {
    var f := ClockFields(ms);
    var s := Pad2(f.0) + ":" + Pad2(f.1);
    assert s[|s| - 2..] == Pad2(f.1);
    s
  }

  /** Nothing but digits, '-' and ':' ever appears in the text. */
  lemma FormatTimeChars(ms: int)
    ensures forall i :: 0 <= i < |FormatTime(ms)| ==> ClockChar(FormatTime(ms)[i])
  {
    var f := ClockFields(ms);
    var s := FormatTime(ms);
    assert s == Pad2(f.0) + ":" + Pad2(f.1);
  }

  /** The minutes field in front of the colon reads back as the minutes. */
  lemma FormatTimeMinutes(ms: int)
    ensures var s := FormatTime(ms);
      var head := s[..|s| - 3];
      head != [] &&
      (head[0] == '-' ==> AllDigits(head[1..])) && (head[0] != '-' ==> AllDigits(head)) &&
      SignedValue(head) == ms / 60000
  {
    var f := ClockFields(ms);
    var s := FormatTime(ms);
    assert s[..|s| - 3] == Pad2(f.0);
  }

  /** The minutes field of a non-negative position is all digits and starts
      with '0' only below ten minutes; a negative one has no zero after its
      sign. */
  lemma FormatTimeMinutesPadding(ms: int)
    ensures var head := FormatTime(ms)[..|FormatTime(ms)| - 3];
      (ms >= 0 ==> AllDigits(head) && (head[0] == '0' <==> ms < 600000)) &&
      (ms < 0 ==> |head| >= 2 && head[0] == '-' && head[1] != '0')
  {
    var f := ClockFields(ms);
    var s := FormatTime(ms);
    assert s[..|s| - 3] == Pad2(f.0);
  }

  /** Equal texts read back as equal fields, so as equal whole seconds. */
  lemma SameTextSameSecond(ms1: int, ms2: int)
    requires FormatTime(ms1) == FormatTime(ms2)
    ensures ms1 / 1000 == ms2 / 1000
  {
    var f1, f2 := ClockFields(ms1), ClockFields(ms2);
    var m1, m2 := Pad2(f1.0), Pad2(f2.0);
    var s1, s2 := Pad2(f1.1), Pad2(f2.1);
    var text := m1 + ":" + s1;
    assert text == FormatTime(ms1) == FormatTime(ms2) == m2 + ":" + s2;
    assert s1 == text[|text| - 2..] == s2;
    assert m1 == text[..|text| - 3] == m2;
    assert f1.1 == SignedValue(s1) == f2.1;
    assert f1.0 == SignedValue(m1) == f2.0;
  }

  /** Two positions show the same text exactly when they fall in the same
      whole second. */
  lemma FormatTimeSameSecond(ms1: int, ms2: int)
    ensures FormatTime(ms1) == FormatTime(ms2) <==> ms1 / 1000 == ms2 / 1000
  {
    if FormatTime(ms1) == FormatTime(ms2) {
      SameTextSameSecond(ms1, ms2);
    }
    if ms1 / 1000 == ms2 / 1000 {
      // equal whole seconds give equal fields and so equal texts
      assert ClockFields(ms1) == ClockFields(ms2);
    }
  }

  /** Under 100 minutes the text is exactly "MM:SS"; from 100 minutes on the
      minutes field takes more digits. */
  lemma FormatTimeLength(ms: int)
    requires ms >= 0
    ensures |FormatTime(ms)| == 5 <==> ms < 6000000
  {
    var f := ClockFields(ms);
    assert FormatTime(ms) == Pad2(f.0) + ":" + Pad2(f.1);
  }

  /** Position 0 shows "00:00". */
  lemma FormatTimeZero()
    ensures FormatTime(0) == "00:00"
  {
    assert Digits(0) == "0";
  }

  /** Joining two clock texts with " / ": the first text, the separator and
      the second text follow each other, and the separator holds the only
      spaces. */
  lemma SeparatorSpaces(cur: string, total: string)
    requires forall i :: 0 <= i < |cur| ==> ClockChar(cur[i])
    requires forall i :: 0 <= i < |total| ==> ClockChar(total[i])
    ensures var text := cur + " / " + total;
      |text| == |cur| + 3 + |total| &&
      text[..|cur|] == cur && text[|cur|..|cur| + 3] == " / " && text[|cur| + 3..] == total
    ensures forall k :: 0 <= k < |cur + " / " + total| && (cur + " / " + total)[k] == ' ' ==>
      k == |cur| || k == |cur| + 2
  {
    var text := cur + " / " + total;
    forall k | 0 <= k < |text|
      ensures text[k] == ' ' ==> k == |cur| || k == |cur| + 2
    {
      if k < |cur| {
        assert text[k] == cur[k];
      } else if |cur| + 3 <= k {
        assert text[k] == total[k - |cur| - 3];
      }
    }
  }

  /** A label built from clock texts splits back into them in only one way. */
  lemma JoinUnique(cur1: string, total1: string, cur2: string, total2: string)
    requires forall i :: 0 <= i < |cur1| ==> ClockChar(cur1[i])
    requires forall i :: 0 <= i < |cur2| ==> ClockChar(cur2[i])
    requires forall i :: 0 <= i < |total1| ==> ClockChar(total1[i])
    requires forall i :: 0 <= i < |total2| ==> ClockChar(total2[i])
    requires cur1 + " / " + total1 == cur2 + " / " + total2
    ensures cur1 == cur2 && total1 == total2
  {
    var text := cur1 + " / " + total1;
    // each text's first space sits right after its current time
    SeparatorSpaces(cur1, total1);
    SeparatorSpaces(cur2, total2);
    assert text[|cur1|] == ' ' && text[|cur2|] == ' ';
    assert |cur1| == |cur2|;
    assert cur1 == text[..|cur1|] == cur2;
    assert total1 == text[|cur1| + 3..] == total2;
  }

  /** AudioPlayer.update_time_label: the current position first, then the
      duration, separated by " / ". The two spaces of the separator are the
      only spaces in the label, so the label splits back into its two times. */
  function TimeLabel(duration: int, position: int): (text: string)
    ensures var cur := FormatTime(position);
      |text| == |cur| + 3 + |FormatTime(duration)| &&
      text[..|cur|] == cur && text[|cur|..|cur| + 3] == " / " &&
      text[|cur| + 3..] == FormatTime(duration)
    ensures forall k :: 0 <= k < |text| && text[k] == ' ' ==>
      k == |FormatTime(position)| || k == |FormatTime(position)| + 2
  {
    var totalTime := FormatTime(duration);
    var currentTime := FormatTime(position);
    FormatTimeChars(position);
    FormatTimeChars(duration);
    SeparatorSpaces(currentTime, totalTime);
    currentTime + " / " + totalTime
  }

  /** Equal labels have equal current times and equal total times. */
  lemma TimeLabelParts(d1: int, p1: int, d2: int, p2: int)
    requires TimeLabel(d1, p1) == TimeLabel(d2, p2)
    ensures FormatTime(p1) == FormatTime(p2) && FormatTime(d1) == FormatTime(d2)
  {
    FormatTimeChars(p1);
    FormatTimeChars(p2);
    FormatTimeChars(d1);
    FormatTimeChars(d2);
    JoinUnique(FormatTime(p1), FormatTime(d1), FormatTime(p2), FormatTime(d2));
  }

  /** Two labels are equal exactly when both their positions and their
      durations fall in the same whole seconds. */
  lemma TimeLabelUnambiguous(d1: int, p1: int, d2: int, p2: int)
    ensures TimeLabel(d1, p1) == TimeLabel(d2, p2) <==> p1 / 1000 == p2 / 1000 && d1 / 1000 == d2 / 1000
  {
    FormatTimeSameSecond(p1, p2);
    FormatTimeSameSecond(d1, d2);
    if TimeLabel(d1, p1) == TimeLabel(d2, p2) {
      TimeLabelParts(d1, p1, d2, p2);
    }
  }

  /** Before any media is loaded the label reads "00:00 / 00:00", which is the
      text update_time_label produces for a zero duration and position. */
  lemma TimeLabelInitial()
    ensures TimeLabel(0, 0) == "00:00 / 00:00"
  {
    FormatTimeZero();
  }
}
