/** SubRip timecodes `HH:MM:SS,mmm` as `SRTGenerator._format_timestamp`
    writes them: every field is cut off (never rounded) from a time in
    seconds, here an exact real. */
module Timecode {
  import opened Results
  import opened Numerals

  /** Python's float `seconds % 3600`, `seconds % 60` and `seconds % 1`:
      the remainder is never negative, whatever the sign of the time. */
  function Rem3600(s: real): real { s - 3600.0 * (s / 3600.0).Floor as real }
  function Rem60(s: real): real { s - 60.0 * (s / 60.0).Floor as real }
  function Rem1(s: real): real { s - s.Floor as real }

  /** `int(seconds // 3600)` */
  function Hours(s: real): int {
    (s / 3600.0).Floor
  }

  /** `int((seconds % 3600) // 60)` */
  function Minutes(s: real): int {
    (Rem3600(s) / 60.0).Floor
  }

  /** `int(seconds % 60)`: truncation of a non-negative remainder. */
  function Seconds(s: real): int {
    Rem60(s).Floor
  }

  /** `int((seconds % 1) * 1000)`: the fraction of a second, truncated to
      whole milliseconds. */
  function Millis(s: real): int {
    (Rem1(s) * 1000.0).Floor
  }

  /** `_format_timestamp(seconds)` */
  function Format(s: real): string {
    PadInt(Hours(s), 2) + ":" + PadInt(Minutes(s), 2) + ":"
      + PadInt(Seconds(s), 2) + "," + PadInt(Millis(s), 3)
  }

  /** The two-digit number written at positions `i` and `i + 1` of `t`. */
  function Digits2(t: string, i: nat): nat
    requires i + 1 < |t| && IsDigit(t[i]) && IsDigit(t[i + 1])
  {
    10 * DigitValue(t[i]) + DigitValue(t[i + 1])
  }

  /** Reads a timecode `HH:MM:SS,mmm` back as a whole number of
      milliseconds; `None` when the text does not have that layout. */
  function Parse(t: string): Option<int> {
    if && |t| == 12
       && IsDigit(t[0]) && IsDigit(t[1]) && t[2] == ':'
       && IsDigit(t[3]) && IsDigit(t[4]) && t[5] == ':'
       && IsDigit(t[6]) && IsDigit(t[7]) && t[8] == ','
       && IsDigit(t[9]) && IsDigit(t[10]) && IsDigit(t[11])
    then
      Some(1000 * (3600 * Digits2(t, 0) + 60 * Digits2(t, 3) + Digits2(t, 6))
           + 10 * Digits2(t, 9) + DigitValue(t[11]))
    else None
  }

  /** Minutes and seconds lie in [0, 59] and milliseconds in [0, 999] for
      every time; hours are non-negative for non-negative times. */
  lemma FieldRanges(s: real)
    ensures 0 <= Minutes(s) <= 59
    ensures 0 <= Seconds(s) <= 59
    ensures 0 <= Millis(s) <= 999
    ensures s >= 0.0 ==> Hours(s) >= 0
  {
  }

  /** The hour, minute and second fields add up to the whole seconds of
      the time, and with the milliseconds to its whole milliseconds: the
      fields truncate and never round. */
  lemma FieldsSum(s: real)
    ensures 3600 * Hours(s) + 60 * Minutes(s) + Seconds(s) == s.Floor
    ensures 1000 * s.Floor + Millis(s) == (s * 1000.0).Floor
    ensures 1000 * (3600 * Hours(s) + 60 * Minutes(s) + Seconds(s)) + Millis(s) == (s * 1000.0).Floor
  {
    var h := Hours(s);
    var r := Rem3600(s);
    assert r == s - 3600.0 * h as real;
    var m := Minutes(s);
    assert (s / 60.0).Floor == 60 * h + m by {
      assert s / 60.0 == (60 * h) as real + r / 60.0;
    }
    assert Rem60(s) == r - 60.0 * m as real;
    assert Seconds(s) == r.Floor - 60 * m;
    assert s.Floor == 3600 * h + r.Floor;
    assert Rem1(s) == s - s.Floor as real;
  }

  lemma ValueOfTwo(x: string)
    requires |x| == 2 && AllDigits(x)
    ensures Value(x) == 10 * DigitValue(x[0]) + DigitValue(x[1])
  {
    var p := x[..1];
    assert x[..|x| - 1] == p && p[0] == x[0];
    assert p[..|p| - 1] == [];
    assert Value(p) == DigitValue(x[0]);
  }

  lemma ValueOfThree(x: string)
    requires |x| == 3 && AllDigits(x)
    ensures Value(x) == 100 * DigitValue(x[0]) + 10 * DigitValue(x[1]) + DigitValue(x[2])
  {
    var p := x[..2];
    assert x[..|x| - 1] == p;
    assert Value(x) == 10 * Value(p) + DigitValue(x[2]);
    ValueOfTwo(p);
    assert p[0] == x[0] && p[1] == x[1];
  }

  /** A field below 100 written with `02d` is two digits reading back as it. */
  lemma TwoDigitField(n: int)
    requires 0 <= n < 100
    ensures var x := PadInt(n, 2);
      |x| == 2 && IsDigit(x[0]) && IsDigit(x[1]) && 10 * DigitValue(x[0]) + DigitValue(x[1]) == n
  {
    PadIntReadsBack(n, 2);
    ValueOfTwo(PadInt(n, 2));
  }

  /** A field below 1000 written with `03d` is three digits reading back as it. */
  lemma ThreeDigitField(n: int)
    requires 0 <= n < 1000
    ensures var x := PadInt(n, 3);
      && |x| == 3 && IsDigit(x[0]) && IsDigit(x[1]) && IsDigit(x[2])
      && 100 * DigitValue(x[0]) + 10 * DigitValue(x[1]) + DigitValue(x[2]) == n
  {
    PadIntReadsBack(n, 3);
    ValueOfThree(PadInt(n, 3));
  }

  /** Reading `HH:MM:SS,mmm` digit by digit. */
  lemma ParseLayout(t: string)
    requires |t| == 12
    requires && IsDigit(t[0]) && IsDigit(t[1]) && t[2] == ':'
             && IsDigit(t[3]) && IsDigit(t[4]) && t[5] == ':'
             && IsDigit(t[6]) && IsDigit(t[7]) && t[8] == ','
             && IsDigit(t[9]) && IsDigit(t[10]) && IsDigit(t[11])
    ensures Parse(t) == Some(1000 * (3600 * Digits2(t, 0) + 60 * Digits2(t, 3) + Digits2(t, 6))
                             + 10 * Digits2(t, 9) + DigitValue(t[11]))
  {
  }

  /** Four digit fields of widths 2, 2, 2 and 3 laid out as `HH:MM:SS,mmm`
      parse back field by field. */
  lemma ParseFields(hh: string, mm: string, ss: string, mmm: string)
    requires |hh| == 2 && |mm| == 2 && |ss| == 2 && |mmm| == 3
    requires IsDigit(hh[0]) && IsDigit(hh[1]) && IsDigit(mm[0]) && IsDigit(mm[1])
    requires IsDigit(ss[0]) && IsDigit(ss[1])
    requires IsDigit(mmm[0]) && IsDigit(mmm[1]) && IsDigit(mmm[2])
    ensures Parse(hh + ":" + mm + ":" + ss + "," + mmm)
         == Some(1000 * (3600 * (10 * DigitValue(hh[0]) + DigitValue(hh[1]))
                         + 60 * (10 * DigitValue(mm[0]) + DigitValue(mm[1]))
                         + (10 * DigitValue(ss[0]) + DigitValue(ss[1])))
                 + (100 * DigitValue(mmm[0]) + 10 * DigitValue(mmm[1]) + DigitValue(mmm[2])))
  {
    var t := hh + ":" + mm + ":" + ss + "," + mmm;
    assert t[0] == hh[0] && t[1] == hh[1] && t[2] == ':';
    assert t[3] == mm[0] && t[4] == mm[1] && t[5] == ':';
    assert t[6] == ss[0] && t[7] == ss[1] && t[8] == ',';
    assert t[9] == mmm[0] && t[10] == mmm[1] && t[11] == mmm[2];
    ParseLayout(t);
  }

  /** Fields within their ranges, written `HH:MM:SS,mmm`, read back as the
      whole number of milliseconds they make up. */
  lemma FieldsParse(h: int, m: int, sec: int, ms: int)
    requires 0 <= h < 100 && 0 <= m < 100 && 0 <= sec < 100 && 0 <= ms < 1000
    ensures |PadInt(h, 2) + ":" + PadInt(m, 2) + ":" + PadInt(sec, 2) + "," + PadInt(ms, 3)| == 12
    ensures Parse(PadInt(h, 2) + ":" + PadInt(m, 2) + ":" + PadInt(sec, 2) + "," + PadInt(ms, 3))
         == Some(1000 * (3600 * h + 60 * m + sec) + ms)
  {
    TwoDigitField(h);
    TwoDigitField(m);
    TwoDigitField(sec);
    ThreeDigitField(ms);
    ParseFields(PadInt(h, 2), PadInt(m, 2), PadInt(sec, 2), PadInt(ms, 3));
  }

  /** Below 100 hours the timecode has the fixed layout `HH:MM:SS,mmm` and
      reads back as the time truncated to whole milliseconds. */
  lemma FormatParses(s: real)
    requires 0.0 <= s < 360000.0
    ensures |Format(s)| == 12
    ensures Parse(Format(s)) == Some((s * 1000.0).Floor)
  {
    FieldRanges(s);
    assert Hours(s) < 100;
    FieldsParse(Hours(s), Minutes(s), Seconds(s), Millis(s));
    FieldsSum(s);
  }

  /** A timecode holds no line break, whatever the time. */
  lemma FormatNoBreak(s: real)
    ensures '\n' !in Format(s)
  {
    PadIntChars(Hours(s), 2);
    PadIntChars(Minutes(s), 2);
    PadIntChars(Seconds(s), 2);
    PadIntChars(Millis(s), 3);
  }

  /** `_format_timestamp(3725.4567)` is `01:02:05,456`: the milliseconds are
      cut off, not rounded up to 457. */
  lemma FormatExample()
    ensures Format(3725.4567) == "01:02:05,456"
  {
    var s := 3725.4567;
    assert Hours(s) == 1;
    assert Minutes(s) == 2;
    assert Seconds(s) == 5;
    assert Millis(s) == 456;
    assert PadInt(1, 2) == "01";
    assert PadInt(2, 2) == "02";
    assert PadInt(5, 2) == "05";
    assert Decimal(456) == "456";
  }
}
