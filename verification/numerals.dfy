/** Decimal rendering of integers as Python's `str(n)` and
    `f"{n:0Wd}"` produce it, and the digit value that reads it back. */
module Numerals {

  predicate IsDigit(c: char) {
    '0' <= c <= '9'
  }

  predicate AllDigits(s: string) {
    forall k :: 0 <= k < |s| ==> IsDigit(s[k])
  }

  function DigitChar(d: nat): (c: char)
    requires d < 10
    ensures IsDigit(c)
  {
    (48 + d) as char
  }

  function DigitValue(c: char): nat
    requires IsDigit(c)
  {
    c as int - 48
  }

  /** The number a string of decimal digits denotes, most significant first. */
  function Value(s: string): nat
    requires AllDigits(s)
  {
    if s == [] then 0 else 10 * Value(s[..|s| - 1]) + DigitValue(s[|s| - 1])
  }

  function Pow10(w: nat): nat {
    if w == 0 then 1 else 10 * Pow10(w - 1)
  }

  /** Python `str(n)` for `n >= 0`. */
  function Decimal(n: nat): string
    decreases n
  {
    if n < 10 then [DigitChar(n)] else Decimal(n / 10) + [DigitChar(n % 10)]
  }

  /** `str(n)` is the canonical digit string of `n`: it reads back as `n`
      and has no leading zero. */
  lemma {:induction false} DecimalDigits(n: nat)
    ensures var s := Decimal(n); 1 <= |s| && AllDigits(s) && Value(s) == n
    ensures |Decimal(n)| == 1 || Decimal(n)[0] != '0'
    decreases n
  {
    if n >= 10 {
      DecimalDigits(n / 10);
      var p := Decimal(n / 10);
      var s := p + [DigitChar(n % 10)];
      assert s[..|s| - 1] == p;
      assert forall k :: 0 <= k < |p| ==> s[k] == p[k];
    }
  }

  /** `w` zero characters. */
  function Zeros(w: nat): string {
    if w == 0 then [] else Zeros(w - 1) + ['0']
  }

  lemma {:induction false} ZerosDigits(w: nat)
    ensures |Zeros(w)| == w && AllDigits(Zeros(w))
  {
    if w > 0 {
      ZerosDigits(w - 1);
    }
  }

  /** Left-pads `s` with zeros to at least `w` characters. */
  function ZeroPad(s: string, w: nat): string {
    if |s| < w then Zeros(w - |s|) + s else s
  }

  /** Python `f"{n:0{w}d}"`: the decimal digits of `n`, zero-padded to at least
      `w` characters, where a negative number keeps its sign in front and
      counts it in the width. */
  function PadInt(n: int, w: nat): string {
    if n < 0 then "-" + ZeroPad(Decimal(-n), if w > 0 then w - 1 else 0)
    else ZeroPad(Decimal(n), w)
  }

  /** Zero padding keeps a digit string all digits. */
  lemma ZeroPadDigits(s: string, w: nat)
    requires AllDigits(s)
    ensures AllDigits(ZeroPad(s, w))
  {
    if |s| < w {
      LeadingZerosValue(w - |s|, s);
    }
  }

  /** A formatted integer is all digits, behind a minus sign when negative. */
  lemma PadIntShape(n: int, w: nat)
    ensures n >= 0 ==> AllDigits(PadInt(n, w))
    ensures n < 0 ==> |PadInt(n, w)| >= 1 && PadInt(n, w)[0] == '-' && AllDigits(PadInt(n, w)[1..])
  {
    if n < 0 {
      var d := ZeroPad(Decimal(-n), if w > 0 then w - 1 else 0);
      DecimalDigits(-n);
      ZeroPadDigits(Decimal(-n), if w > 0 then w - 1 else 0);
      assert ("-" + d)[1..] == d;
    } else {
      DecimalDigits(n);
      ZeroPadDigits(Decimal(n), w);
    }
  }

  /** A formatted integer holds only digits and, in front, a minus sign. */
  lemma PadIntChars(n: int, w: nat)
    ensures forall k :: 0 <= k < |PadInt(n, w)| ==> IsDigit(PadInt(n, w)[k]) || PadInt(n, w)[k] == '-'
  {
    PadIntShape(n, w);
    var x := PadInt(n, w);
    forall k | 0 <= k < |x| ensures IsDigit(x[k]) || x[k] == '-' {
      if n < 0 && k > 0 {
        assert x[k] == x[1..][k - 1];
      }
    }
  }

  lemma {:induction false} ZerosValue(w: nat)
    ensures AllDigits(Zeros(w)) && Value(Zeros(w)) == 0
  {
    ZerosDigits(w);
    if w > 0 {
      assert Zeros(w)[..w - 1] == Zeros(w - 1);
      ZerosValue(w - 1);
    }
  }

  /** Leading zeros do not change the value a digit string denotes. */
  lemma {:induction false} LeadingZerosValue(w: nat, s: string)
    requires AllDigits(s)
    ensures AllDigits(Zeros(w) + s)
    ensures Value(Zeros(w) + s) == Value(s)
    decreases |s|
  {
    var z := Zeros(w) + s;
    ZerosDigits(w);
    assert AllDigits(z) by {
      forall k | 0 <= k < |z| ensures IsDigit(z[k]) {
        if k >= w {
          assert z[k] == s[k - w];
        }
      }
    }
    if s == [] {
      assert z == Zeros(w);
      ZerosValue(w);
    } else {
      assert z[..|z| - 1] == Zeros(w) + s[..|s| - 1];
      LeadingZerosValue(w, s[..|s| - 1]);
    }
  }

  /** A digit string that denotes a number below `10^w` has at most `w`
      digits once its leading zeros are gone. */
  lemma {:induction false} DecimalFits(n: nat, w: nat)
    requires 1 <= w && n < Pow10(w)
    ensures |Decimal(n)| <= w
    decreases w
  {
    if n >= 10 {
      assert w > 1;
      assert n / 10 < Pow10(w - 1);
      DecimalFits(n / 10, w - 1);
      assert Decimal(n) == Decimal(n / 10) + [DigitChar(n % 10)];
    }
  }

  /** A non-negative field formatted with `0{w}d` reads back as the number,
      and is exactly `w` characters wide while the number fits. */
  lemma PadIntReadsBack(n: int, w: nat)
    requires n >= 0
    ensures AllDigits(PadInt(n, w)) && Value(PadInt(n, w)) == n
    ensures |PadInt(n, w)| == if |Decimal(n)| < w then w else |Decimal(n)|
    ensures 1 <= w && n < Pow10(w) ==> |PadInt(n, w)| == w
  {
    var d := Decimal(n);
    DecimalDigits(n);
    if |d| < w {
      ZerosDigits(w - |d|);
      LeadingZerosValue(w - |d|, d);
    }
    if 1 <= w && n < Pow10(w) {
      DecimalFits(n, w);
    }
  }
}
