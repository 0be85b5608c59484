/**
 * The date check the handlers perform with `datetime.date.fromisoformat`:
 * the full-date form `YYYY-MM-DD` of section 5.6 of RFC 3339, with the month
 * and day limits and the Gregorian leap-year rule of section 5.7, and the
 * year range 1..9999 of Python's `date` type.
 */
module IsoDate {
  import opened Wrappers
  import opened Text

  datatype Date = Date(year: nat, month: nat, day: nat)

  predicate IsLeapYear(y: nat)
  {
    y % 4 == 0 && (y % 100 != 0 || y % 400 == 0)
  }

  function DaysInMonth(y: nat, m: nat): (n: nat)
    requires 1 <= m <= 12
    ensures 28 <= n <= 31
  {
    if m == 2 then (if IsLeapYear(y) then 29 else 28)
    else if m == 4 || m == 6 || m == 9 || m == 11 then 30
    else 31
  }

  /** A calendar day that Python's `date` can represent. */
  predicate ValidDate(d: Date)
  {
    1 <= d.year <= 9999 && 1 <= d.month <= 12 && 1 <= d.day <= DaysInMonth(d.year, d.month)
  }

  function Pow10(w: nat): (p: nat)
    ensures p >= 1
  {
    if w == 0 then 1 else 10 * Pow10(w - 1)
  }

  /** `n` written with exactly `w` decimal digits, zero-padded on the left (`%0wd`). */
  function Pad(n: nat, w: nat): (r: string)
    ensures |r| == w && AllDigits(r)
  {
    if w == 0 then [] else Pad(n / 10, w - 1) + [DigitChar(n % 10)]
  }

  /** The `YYYY-MM-DD` shape: ten characters, dashes at 4 and 7, digits elsewhere. */
  predicate Shaped(s: string)
  {
    && |s| == 10 && s[4] == '-' && s[7] == '-'
    && forall i :: 0 <= i < 10 && i != 4 && i != 7 ==> IsDigit(s[i])
  }

  /** What `date.fromisoformat(s)` returns, `None` where it raises. */
  function Parse(s: string): (r: Option<Date>)
    ensures r.Some? ==> ValidDate(r.value)
  {
    if !Shaped(s) then None
    else
      var d := Date(Number(s[0..4]), Number(s[5..7]), Number(s[8..10]));
      if ValidDate(d) then Some(d) else None
  }

  /** The test `save_entry`, `delete_entry`, `upload_images` and the entry page apply to their `date` field. */
  predicate IsIsoDate(s: string)
  {
    Parse(s).Some?
  }

  /** `date.isoformat()`. */
  function Format(d: Date): (s: string)
    requires ValidDate(d)
    ensures Shaped(s)
  {
    var s := Pad(d.year, 4) + "-" + Pad(d.month, 2) + "-" + Pad(d.day, 2);
    assert s[0..4] == Pad(d.year, 4);
    assert s[5..7] == Pad(d.month, 2);
    assert s[8..10] == Pad(d.day, 2);
    s
  }

  lemma {:induction false} NumberPad(n: nat, w: nat)
    requires n < Pow10(w)
    ensures Number(Pad(n, w)) == n
  {
    if w > 0 {
      var p := Pad(n, w);
      assert p[..|p| - 1] == Pad(n / 10, w - 1);
      NumberPad(n / 10, w - 1);
    }
  }

  lemma {:induction false} PadNumber(s: string)
    requires AllDigits(s)
    ensures Number(s) < Pow10(|s|)
    ensures Pad(Number(s), |s|) == s
  {
    if s != [] {
      var init := s[..|s| - 1];
      var d := DigitValue(s[|s| - 1]);
      PadNumber(init);
      var n := Number(init) * 10 + d;
      assert n / 10 == Number(init) && n % 10 == d;
      assert s == init + [s[|s| - 1]];
    }
  }

  /** Where `Format` writes each field. */
  lemma FormatFields(d: Date)
    requires ValidDate(d)
    ensures var s := Format(d);
      s[0..4] == Pad(d.year, 4) && s[5..7] == Pad(d.month, 2) && s[8..10] == Pad(d.day, 2)
  {
    var s := Format(d);
    assert s == Pad(d.year, 4) + "-" + Pad(d.month, 2) + "-" + Pad(d.day, 2);
  }

  /** Two `YYYY-MM-DD`-shaped strings with the same three fields are equal. */
  lemma SameFields(f: string, s: string)
    requires Shaped(f) && Shaped(s)
    requires f[0..4] == s[0..4] && f[5..7] == s[5..7] && f[8..10] == s[8..10]
    ensures f == s
  {
    forall i | 0 <= i < 10
      ensures f[i] == s[i]
    {
      if i < 4 {
        assert f[i] == f[0..4][i];
      } else if 5 <= i < 7 {
        assert f[i] == f[5..7][i - 5];
      } else if 8 <= i {
        assert f[i] == f[8..10][i - 8];
      }
    }
  }

  /** Formatting a valid day and parsing it back gives that day. */
  lemma ParseFormat(d: Date)
    requires ValidDate(d)
    ensures Parse(Format(d)) == Some(d)
  {
    FormatFields(d);
    NumberPad(d.year, 4);
    NumberPad(d.month, 2);
    NumberPad(d.day, 2);
  }

  /** Every string the check accepts is already the canonical form of its day. */
  lemma FormatParse(s: string)
    requires IsIsoDate(s)
    ensures Format(Parse(s).value) == s
  {
    var d := Parse(s).value;
    var f := Format(d);
    assert d == Date(Number(s[0..4]), Number(s[5..7]), Number(s[8..10]));
    FormatFields(d);
    PadNumber(s[0..4]);
    assert f[0..4] == s[0..4];
    PadNumber(s[5..7]);
    assert f[5..7] == s[5..7];
    PadNumber(s[8..10]);
    assert f[8..10] == s[8..10];
    SameFields(f, s);
  }

  /**
   * Entries are keyed by the raw date string. Because accepted strings are
   * canonical, two accepted strings name the same day only when they are equal,
   * so one entry per (user, date string) is one entry per (user, day).
   */
  lemma SameDaySameString(a: string, b: string)
    requires IsIsoDate(a) && IsIsoDate(b)
    ensures Parse(a) == Parse(b) <==> a == b
  {
    if Parse(a) == Parse(b) {
      FormatParse(a);
      FormatParse(b);
    }
  }

  lemma Number2(s: string)
    requires |s| == 2 && AllDigits(s)
    ensures Number(s) == 10 * DigitValue(s[0]) + DigitValue(s[1])
  {
    var h := s[..1];
    assert h[..0] == [] && h[0] == s[0];
    assert Number(h) == DigitValue(s[0]);
  }

  lemma Number4(s: string)
    requires |s| == 4 && AllDigits(s)
    ensures Number(s) == 1000 * DigitValue(s[0]) + 100 * DigitValue(s[1]) + 10 * DigitValue(s[2]) + DigitValue(s[3])
  {
    var h := s[..3];
    assert h[..2] == s[..2] && h[2] == s[2];
    Number2(s[..2]);
  }

  /** The fields `Parse` reads from a `YYYY-MM-DD` string, digit by digit. */
  lemma ParseDigits(s: string)
    requires Shaped(s)
    ensures Parse(s) == var d := Date(1000 * DigitValue(s[0]) + 100 * DigitValue(s[1]) + 10 * DigitValue(s[2]) + DigitValue(s[3]),
                                      10 * DigitValue(s[5]) + DigitValue(s[6]),
                                      10 * DigitValue(s[8]) + DigitValue(s[9]));
                        if ValidDate(d) then Some(d) else None
  {
    Number4(s[0..4]);
    Number2(s[5..7]);
    Number2(s[8..10]);
  }

  /** The day of the end-to-end scenario is accepted as 1 March 2025. */
  lemma ScenarioDate()
    ensures Parse("2025-03-01") == Some(Date(2025, 3, 1))
  {
    ParseDigits("2025-03-01");
  }

  /** 29 February exists in the leap year 2024. */
  lemma LeapDay()
    ensures IsIsoDate("2024-02-29")
  {
    ParseDigits("2024-02-29");
  }

  /** 29 February does not exist in 2025. */
  lemma NoLeapDay()
    ensures !IsIsoDate("2025-02-29")
  {
    ParseDigits("2025-02-29");
  }

  /** Nor in the century year 1900, which is not a multiple of 400. */
  lemma NoCenturyLeapDay()
    ensures !IsIsoDate("1900-02-29")
  {
    var s := "1900-02-29";
    ParseDigits(s);
    var y := 1000 * DigitValue(s[0]) + 100 * DigitValue(s[1]) + 10 * DigitValue(s[2]) + DigitValue(s[3]);
    assert y == 1900;
    assert !IsLeapYear(y);
  }

  /** Year zero, month thirteen and a one-digit month are refused. */
  lemma Refused()
    ensures !IsIsoDate("0000-01-01")
    ensures !IsIsoDate("2025-13-01")
    ensures !IsIsoDate("2025-3-01")
  {
    ParseDigits("0000-01-01");
    ParseDigits("2025-13-01");
  }
}
