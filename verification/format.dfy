/** Number-to-text conversions the components display: `formatTime` of the
    `PomodoroTimer` component ("MM:SS"), built from JavaScript's
    `Number.prototype.toString` and `padStart(2, "0")` on integers, and a
    reader for its output. */
module Format {
  import opened Wrappers

  predicate IsDigit(c: char) {
    '0' <= c <= '9'
  }

  predicate AllDigits(s: string) {
    forall i :: 0 <= i < |s| ==> IsDigit(s[i])
  }

  function DigitChar(d: nat): char
    requires d < 10
  {
    "0123456789"[d]
  }

  /** Decimal digits of a natural number, without leading zeros. */
  function Digits(n: nat): (r: string)
    ensures r != [] && AllDigits(r)
    ensures n < 10 <==> |r| == 1
    ensures n < 100 ==> |r| <= 2
    decreases n
  {
    if n < 10 then [DigitChar(n)] else Digits(n / 10) + [DigitChar(n % 10)]
  }

  /** The number a string of decimal digits denotes (leading zeros allowed). */
  function Value(s: string): nat
    requires AllDigits(s)
    decreases |s|
  {
    if s == [] then 0 else Value(s[..|s| - 1]) * 10 + (s[|s| - 1] as int - '0' as int)
  }

  /** `n.toString()` for an integer `n`. */
  function ToString(n: int): string {
    if n < 0 then "-" + Digits(-n) else Digits(n)
  }

  /** `s.padStart(2, "0")`. */
  function PadStart2(s: string): (r: string)
    ensures |r| >= 2 && (|s| >= 2 ==> r == s)
    ensures |s| < 2 ==> r == seq(2 - |s|, _ => '0') + s
    decreases 2 - |s|
  {
    if |s| >= 2 then s else PadStart2("0" + s)
  }

  /** JavaScript's `%`: the remainder takes the sign of the dividend. */
  function JsRem(a: int, b: int): int
    requires b > 0
  {
    if a >= 0 then a % b else -((-a) % b)
  }

  /** `formatTime(time)`: `Math.floor(time / 60)` and `time % 60`, each
      converted with `toString` and padded to two characters, joined by ':'. */
  function FormatTime(t: int): (r: string)
    ensures 0 <= t < 6000 ==> |r| == 5 && r[2] == ':' && AllDigits(r[..2]) && AllDigits(r[3..])
  {
    PadStart2(ToString(t / 60)) + ":" + PadStart2(ToString(JsRem(t, 60)))
  }

  /** Index of the first `c` in `s`, or `|s|` when there is none. */
  function CharIndex(s: string, c: char): (i: nat)
    ensures i <= |s|
    ensures forall j :: 0 <= j < i ==> s[j] != c
    ensures i < |s| ==> s[i] == c
  {
    if s == [] then 0 else if s[0] == c then 0 else 1 + CharIndex(s[1..], c)
  }

  /** Reads "M..M:SS" back into seconds: digits, a colon, digits below 60. */
  function ParseClock(s: string): Option<int> {
    var i := CharIndex(s, ':');
    if i == |s| then None
    else
      var mm, ss := s[..i], s[i + 1..];
      if mm != [] && ss != [] && AllDigits(mm) && AllDigits(ss) && Value(ss) < 60 then
        Some(Value(mm) * 60 + Value(ss))
      else None
  }

  lemma {:induction false} ValueOfDigits(n: nat)
    ensures Value(Digits(n)) == n
    decreases n
  {
    if n >= 10 {
      ValueOfDigits(n / 10);
      var s := Digits(n / 10) + [DigitChar(n % 10)];
      assert s[..|s| - 1] == Digits(n / 10);
    }
  }

  /** `toString` writes no leading zero: a multi-digit result starts with
      a non-zero digit. */
  lemma {:induction false} DigitsNoLeadingZero(n: nat)
    ensures |Digits(n)| > 1 ==> Digits(n)[0] != '0'
    decreases n
  {
    if n >= 10 {
      DigitsNoLeadingZero(n / 10);
      assert Digits(n)[0] == Digits(n / 10)[0];
    }
  }

  /** A digit character stands for its own digit. */
  lemma DigitCharOf(c: char)
    requires IsDigit(c)
    ensures DigitChar(c as int - '0' as int) == c
  {
  }

  /** Every digit string without a leading zero is what `toString` writes
      for the number it denotes. */
  lemma {:induction false} DigitsOfValue(s: string)
    requires s != [] && AllDigits(s) && (|s| > 1 ==> s[0] != '0')
    ensures Digits(Value(s)) == s
    decreases |s|
  {
    var p := s[..|s| - 1];
    var last := s[|s| - 1];
    DigitCharOf(last);
    if |s| == 1 {
      assert p == [];
      assert s == [last];
    } else {
      assert p[0] == s[0];
      DigitsOfValue(p);
      assert Value(p) != 0;
      var v := Value(s);
      assert v == Value(p) * 10 + (last as int - '0' as int);
      assert v / 10 == Value(p) && v % 10 == last as int - '0' as int;
      assert s == p + [last];
    }
  }

  lemma {:induction false} LeadingZero(s: string)
    requires AllDigits(s)
    ensures Value("0" + s) == Value(s)
    decreases |s|
  {
    if s != [] {
      var z := "0" + s;
      assert z[..|z| - 1] == "0" + s[..|s| - 1];
      LeadingZero(s[..|s| - 1]);
    } else {
      assert ("0" + s)[..0] == [];
    }
  }

  lemma {:induction false} PaddedValue(s: string)
    requires AllDigits(s)
    ensures AllDigits(PadStart2(s)) && Value(PadStart2(s)) == Value(s)
    decreases 2 - |s|
  {
    if |s| < 2 {
      LeadingZero(s);
      PaddedValue("0" + s);
    }
  }

  /** A separator that is not a digit, written after a digit string, is
      found right behind it. */
  lemma SplitAfterDigits(a: string, c: char, b: string)
    requires AllDigits(a) && !IsDigit(c)
    ensures CharIndex(a + [c] + b, c) == |a|
    ensures (a + [c] + b)[..|a|] == a && (a + [c] + b)[|a| + 1..] == b
  {
    var r := a + [c] + b;
    assert forall j :: 0 <= j < |a| ==> r[j] == a[j] && r[j] != c;
    assert r[|a|] == c;
  }

  /** Reading "mm:ss" built from two digit strings gives back their values. */
  lemma ParseJoined(mm: string, ss: string)
    requires mm != [] && ss != [] && AllDigits(mm) && AllDigits(ss) && Value(ss) < 60
    ensures ParseClock(mm + ":" + ss) == Some(Value(mm) * 60 + Value(ss))
  {
    var r := mm + ":" + ss;
    assert r == mm + [':'] + ss;
    SplitAfterDigits(mm, ':', ss);
    var i := CharIndex(r, ':');
    assert i == |mm| && r[..i] == mm && r[i + 1..] == ss;
  }

  /** `formatTime` loses nothing for any non-negative time: reading its
      output gives back the seconds, the seconds field being below 60. */
  lemma FormatTimeRoundTrip(t: int)
    requires t >= 0
    ensures ParseClock(FormatTime(t)) == Some(t)
  {
    var mm := PadStart2(Digits(t / 60));
    var ss := PadStart2(Digits(t % 60));
    assert ToString(t / 60) == Digits(t / 60);
    assert JsRem(t, 60) == t % 60 && ToString(t % 60) == Digits(t % 60);
    assert FormatTime(t) == mm + ":" + ss;
    PaddedValue(Digits(t / 60));
    PaddedValue(Digits(t % 60));
    ValueOfDigits(t / 60);
    ValueOfDigits(t % 60);
    ParseJoined(mm, ss);
  }

  /** `x.toFixed(2)` for a non-negative `x` given in hundredths `h`: the
      whole part, a point, and exactly two digits of hundredths. */
  function FixedTwo(h: nat): (r: string)
    ensures |r| >= 4
    ensures var k := |r| - 3;
      && r[k] == '.' && AllDigits(r[..k]) && AllDigits(r[k + 1..])
      && Value(r[..k]) == h / 100 && Value(r[k + 1..]) == h % 100
    ensures |r| > 4 ==> r[0] != '0'
  {
    var whole := Digits(h / 100);
    var frac := PadStart2(Digits(h % 100));
    ValueOfDigits(h / 100);
    ValueOfDigits(h % 100);
    PaddedValue(Digits(h % 100));
    DigitsNoLeadingZero(h / 100);
    var r := whole + "." + frac;
    assert |frac| == 2;
    assert r[0] == whole[0];
    assert r[..|whole|] == whole && r[|whole| + 1..] == frac;
    r
  }

  /** The two texts the completion rate shows at its ends. */
  lemma FixedTwoEnds()
    ensures FixedTwo(10000) == "100.00" && FixedTwo(0) == "0.00"
  {
    assert Digits(1) == "1";
    assert Digits(10) == "1" + "0";
    assert Digits(100) == "10" + "0";
  }

  /** Reads "W..W.FF" back into hundredths: digits, a point, two digits. */
  function ParseFixed(s: string): Option<nat> {
    var i := CharIndex(s, '.');
    if i == |s| then None
    else
      var whole, frac := s[..i], s[i + 1..];
      if whole != [] && |frac| == 2 && AllDigits(whole) && AllDigits(frac) then
        Some(Value(whole) * 100 + Value(frac))
      else None
  }

  /** `toFixed(2)` on hundredths loses nothing: reading its text gives them back. */
  lemma FixedTwoRoundTrip(h: nat)
    ensures ParseFixed(FixedTwo(h)) == Some(h)
  {
    var r := FixedTwo(h);
    var k := |r| - 3;
    SplitAfterDigits(r[..k], '.', r[k + 1..]);
    assert r == r[..k] + "." + r[k + 1..];
  }

  /** Two hundredths digits that read as `v` are the padded `toString` of
      `v`, which is below 100. */
  lemma PaddedOfValue(f: string)
    requires |f| == 2 && AllDigits(f)
    ensures Value(f) < 100 && PadStart2(Digits(Value(f))) == f
  {
    assert f[..1][..0] == [];
    assert Value(f[..1]) == f[0] as int - '0' as int;
    if f[0] == '0' {
      DigitCharOf(f[1]);
      assert Value(f) == f[1] as int - '0' as int;
      assert f == "0" + [f[1]];
    } else {
      DigitsOfValue(f);
    }
  }

  /** Quotient and remainder by 100 are unique. */
  lemma DivModHundred(h: nat, q: nat, m: nat)
    requires m < 100 && h == q * 100 + m
    ensures h / 100 == q && h % 100 == m
  {
  }

  /** `toFixed(2)`'s text is the only one that reads back as `h` and has no
      leading zero in its whole part. */
  lemma FixedTwoUnique(s: string, h: nat)
    requires ParseFixed(s) == Some(h)
    requires |s| > 4 ==> s[0] != '0'
    ensures s == FixedTwo(h)
  {
    var i := CharIndex(s, '.');
    assert i < |s| && s[i] == '.';
    var whole, frac := s[..i], s[i + 1..];
    assert whole != [] && |frac| == 2 && AllDigits(whole) && AllDigits(frac);
    assert h == Value(whole) * 100 + Value(frac);
    assert s == whole + "." + frac;
    assert |whole| > 1 ==> whole[0] == s[0];
    DigitsOfValue(whole);
    PaddedOfValue(frac);
    DivModHundred(h, Value(whole), Value(frac));
    assert FixedTwo(h) == Digits(Value(whole)) + "." + PadStart2(Digits(Value(frac)));
  }
}
