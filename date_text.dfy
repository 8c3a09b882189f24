/**
  The text forms the widget compares: dates as `YYYY-MM-DD` (the key events are
  stored under), times as `HH:MM`, and JavaScript's ordering of strings.
 */
module DateText {
  import opened Options
  import opened Gregorian

  predicate IsDigit(c: char) {
    '0' <= c <= '9'
  }

  function DigitValue(c: char): int
    requires IsDigit(c)
  {
    c as int - '0' as int
  }

  function Digit(n: int): (c: char)
    requires 0 <= n <= 9
    ensures IsDigit(c) && DigitValue(c) == n
  {
    ('0' as int + n) as char
  }

  predicate AllDigits(s: string) {
    forall i | 0 <= i < |s| :: IsDigit(s[i])
  }

  function Pow10(k: nat): nat {
    if k == 0 then 1 else 10 * Pow10(k - 1)
  }

  /** Decimal text of a natural number without leading zeros, as `String(n)` gives it. */
  function NatText(n: nat): (s: string)
    ensures 1 <= |s| && AllDigits(s)
    decreases n
  {
    if n < 10 then [Digit(n)] else NatText(n / 10) + [Digit(n % 10)]
  }

  /** The number a string of decimal digits denotes, most significant digit first. */
  function DigitsValue(s: string): nat
    requires AllDigits(s)
  {
    if s == [] then 0 else DigitsValue(s[..|s| - 1]) * 10 + DigitValue(s[|s| - 1])
  }

  lemma {:induction false} NatTextValue(n: nat)
    ensures DigitsValue(NatText(n)) == n
    decreases n
  {
    if n >= 10 {
      var s := NatText(n);
      assert s[..|s| - 1] == NatText(n / 10);
      NatTextValue(n / 10);
    }
  }

  lemma {:induction false} NatTextLength(n: nat, k: nat)
    requires 1 <= k && n < Pow10(k)
    ensures |NatText(n)| <= k
    decreases n
  {
    if n >= 10 {
      assert k >= 2;
      NatTextLength(n / 10, k - 1);
    }
  }

  function Zeros(k: nat): (s: string)
    ensures |s| == k && AllDigits(s)
  {
    seq(k, _ => '0')
  }

  lemma {:induction false} ZerosValue(k: nat)
    ensures DigitsValue(Zeros(k)) == 0
  {
    if k > 0 {
      assert Zeros(k)[..k - 1] == Zeros(k - 1);
      ZerosValue(k - 1);
    }
  }

  /** Leading zeros do not change the value of a digit string. */
  lemma {:induction false} LeadingZerosValue(k: nat, s: string)
    requires AllDigits(s)
    ensures AllDigits(Zeros(k) + s) && DigitsValue(Zeros(k) + s) == DigitsValue(s)
    decreases |s|
  {
    var t := Zeros(k) + s;
    assert AllDigits(t) by {
      forall i | 0 <= i < |t| ensures IsDigit(t[i]) {
        if i >= k { assert t[i] == s[i - k]; }
      }
    }
    if s == [] {
      assert t == Zeros(k);
      ZerosValue(k);
    } else {
      assert t[..|t| - 1] == Zeros(k) + s[..|s| - 1];
      LeadingZerosValue(k, s[..|s| - 1]);
    }
  }

  /** `padStart(width, '0')`: zeros in front of `s` up to `width` characters. */
  function PadStart(s: string, width: nat): string {
    if |s| >= width then s else Zeros(width - |s|) + s
  }

  /** `String(y)` for an integer. */
  function IntText(y: int): string {
    if y < 0 then "-" + NatText(-y) else NatText(y)
  }

  /** The `YYYY` field: the year's text padded with zeros to four characters. */
  function YearText(y: int): string {
    PadStart(IntText(y), 4)
  }

  function TwoDigits(n: int): (s: string)
    requires 0 <= n <= 99
  {
    [Digit(n / 10), Digit(n % 10)]
  }

  /**
    A date in the `YYYY-MM-DD` form under which events are stored and looked up.
    For a four-digit year the three fields are digit runs at fixed places that
    read back as the year, the month and the day.
   */
  function FormatDate(d: Date): (s: string)
    requires ValidDate(d)
    ensures 0 <= d.year <= 9999 ==>
      |s| == 10 && s[4] == '-' && s[7] == '-'
      && AllDigits(s[..4]) && DigitsValue(s[..4]) == d.year
      && AllDigits(s[5..7]) && DigitsValue(s[5..7]) == d.month
      && AllDigits(s[8..]) && DigitsValue(s[8..]) == d.day
  {
    var s := YearText(d.year) + "-" + TwoDigits(d.month) + "-" + TwoDigits(d.day);
    if 0 <= d.year <= 9999 then
      YearTextValue(d.year);
      TwoDigitsValue(d.month);
      TwoDigitsValue(d.day);
      assert s[..4] == YearText(d.year);
      assert s[5..7] == TwoDigits(d.month);
      assert s[8..] == TwoDigits(d.day);
      s
    else
      s
  }

  /**
    Reading a `YYYY-MM-DD` string back into a date: four-digit year, two-digit
    month and day, and the day must exist in that month.
   */
  function ParseDate(s: string): (r: Option<Date>)
    ensures r.Some? ==> ValidDate(r.value) && 0 <= r.value.year
  {
    if |s| == 10 && s[4] == '-' && s[7] == '-'
      && AllDigits(s[..4]) && AllDigits(s[5..7]) && AllDigits(s[8..])
    then
      var y, m, d := DigitsValue(s[..4]), DigitsValue(s[5..7]), DigitsValue(s[8..]);
      if 1 <= m <= 12 && 1 <= d <= DaysInMonth(y, m) then Some(Date(y, m, d)) else None
    else
      None
  }

  lemma TwoDigitsValue(n: int)
    requires 0 <= n <= 99
    ensures AllDigits(TwoDigits(n)) && DigitsValue(TwoDigits(n)) == n
  {
    var s := TwoDigits(n);
    assert s[..1] == [Digit(n / 10)];
    assert s[..1][..0] == [];
    assert DigitsValue(s[..1]) == n / 10;
    assert DigitsValue(s) == DigitsValue(s[..1]) * 10 + n % 10;
  }

  lemma YearTextValue(y: int)
    requires 0 <= y <= 9999
    ensures |YearText(y)| == 4 && AllDigits(YearText(y)) && DigitsValue(YearText(y)) == y
  {
    assert Pow10(4) == 10000;
    NatTextLength(y, 4);
    NatTextValue(y);
    LeadingZerosValue(4 - |NatText(y)|, NatText(y));
  }

  /** Every date with a four-digit year reads back from its text. */
  lemma ParseFormatRoundTrip(d: Date)
    requires ValidDate(d) && 0 <= d.year <= 9999
    ensures ParseDate(FormatDate(d)) == Some(d)
  {
  }

  /** A digit string is its own value's text, padded back to its length. */
  lemma {:induction false} PadNatText(t: string)
    requires AllDigits(t) && 1 <= |t|
    ensures PadStart(NatText(DigitsValue(t)), |t|) == t
    decreases |t|
  {
    var v := DigitsValue(t);
    var c := t[|t| - 1];
    if |t| == 1 {
      assert t[..0] == [];
      assert t == [c];
    } else {
      var t' := t[..|t| - 1];
      assert t == t' + [c];
      PadNatText(t');
      var v' := DigitsValue(t');
      if v >= 10 {
        assert v / 10 == v' && v % 10 == DigitValue(c);
        assert NatText(v) == NatText(v') + [c];
      } else {
        assert v' == 0 && v == DigitValue(c);
        assert NatText(v) == [c];
        assert NatText(0) == ['0'];
        assert t' == Zeros(|t'| - 1) + ['0'];
        assert t' == Zeros(|t'|);
        assert Zeros(|t| - 1) + [c] == t' + [c];
      }
    }
  }

  lemma TwoDigitsOfText(t: string)
    requires |t| == 2 && AllDigits(t)
    ensures DigitsValue(t) <= 99 && TwoDigits(DigitsValue(t)) == t
  {
    assert t[..1][..0] == [];
    assert DigitsValue(t[..1]) == DigitValue(t[0]);
    var v := DigitsValue(t);
    assert v == DigitValue(t[0]) * 10 + DigitValue(t[1]);
    assert v / 10 == DigitValue(t[0]) && v % 10 == DigitValue(t[1]);
    assert Digit(DigitValue(t[0])) == t[0];
    assert Digit(DigitValue(t[1])) == t[1];
  }

  /** Only canonical text parses: what ParseDate accepts is exactly what FormatDate prints. */
  lemma FormatParseRoundTrip(s: string)
    requires ParseDate(s).Some?
    ensures FormatDate(ParseDate(s).value) == s
  {
    var d := ParseDate(s).value;
    PadNatText(s[..4]);
    TwoDigitsOfText(s[5..7]);
    TwoDigitsOfText(s[8..]);
    assert s == s[..4] + "-" + s[5..7] + "-" + s[8..];
  }

  /** A time of day as a time input yields it: `HH:MM`, 24-hour clock. */
  predicate IsClockTime(s: string) {
    |s| == 5 && s[2] == ':'
    && IsDigit(s[0]) && IsDigit(s[1]) && IsDigit(s[3]) && IsDigit(s[4])
    && 10 * DigitValue(s[0]) + DigitValue(s[1]) <= 23
    && 10 * DigitValue(s[3]) + DigitValue(s[4]) <= 59
  }

  /** Minutes since midnight of an `HH:MM` time. */
  function MinuteOfDay(s: string): (m: int)
    requires IsClockTime(s)
    ensures 0 <= m < 24 * 60
  {
    (10 * DigitValue(s[0]) + DigitValue(s[1])) * 60 + 10 * DigitValue(s[3]) + DigitValue(s[4])
  }

  /**
    JavaScript's `a < b` on strings: lexicographic by character, a proper prefix
    first.  No string is below itself.
   */
  predicate LexLess(a: string, b: string)
    ensures LexLess(a, b) ==> a != b
    ensures |a| < |b| && a == b[..|a|] ==> LexLess(a, b)
  {
    if |a| == 0 then |b| > 0
    else if |b| == 0 then false
    else if a[0] != b[0] then a[0] < b[0]
    else
      assert |a| < |b| && a == b[..|a|] ==> a[1..] == b[1..][..|a[1..]|];
      LexLess(a[1..], b[1..])
  }

  /** String order is trichotomous: of two different strings exactly one is below the other. */
  lemma {:induction false} LexLessTotal(a: string, b: string)
    ensures a != b ==> LexLess(a, b) != LexLess(b, a)
    decreases |a|
  {
    if |a| > 0 && |b| > 0 && a[0] == b[0] {
      LexLessTotal(a[1..], b[1..]);
      if a != b {
        assert a == [a[0]] + a[1..] && b == [b[0]] + b[1..];
      }
    }
  }

  /** String order is transitive; with `LexLess`'s irreflexivity and `LexLessTotal` it is a strict total order. */
  lemma {:induction false} LexLessTransitive(a: string, b: string, c: string)
    requires LexLess(a, b) && LexLess(b, c)
    ensures LexLess(a, c)
    decreases |a|
  {
    if |a| > 0 && a[0] == b[0] && b[0] == c[0] {
      LexLessTransitive(a[1..], b[1..], c[1..]);
    }
  }

  /** For fixed-width `HH:MM` times, string order is chronological order. */
  lemma ClockTimeOrder(a: string, b: string)
    requires IsClockTime(a) && IsClockTime(b)
    ensures LexLess(a, b) <==> MinuteOfDay(a) < MinuteOfDay(b)
  {
    assert LexLess(a[4..], b[4..]) <==> a[4] < b[4] by {
      assert a[4..][1..] == [] && b[4..][1..] == [];
    }
    assert a[3..][1..] == a[4..] && b[3..][1..] == b[4..];
    assert a[2..][1..] == a[3..] && b[2..][1..] == b[3..];
    assert a[1..][1..] == a[2..] && b[1..][1..] == b[2..];
    assert LexLess(a[2..], b[2..]) == LexLess(a[3..], b[3..]);
  }
}
