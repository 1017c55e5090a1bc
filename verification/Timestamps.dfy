/** The fixed-width timestamp printer and parser (RFC 3339, section 5.6). */
module Timestamps {
  import opened Options
  import opened Ordering
  import opened Calendar

  // ---- decimal printing ----

  function Digit(d: nat): (c: char)
    requires d < 10
    ensures '0' <= c <= '9' && c as int - '0' as int == d
  {
    (('0' as int) + d) as char
  }

  function Decimal(n: nat): string {
    if n < 10 then [Digit(n)] else Decimal(n / 10) + [Digit(n % 10)]
  }

  function Zeros(n: nat): string {
    seq(n, _ => '0')
  }

  /** Zero padding to a least width; the sign counts and stays in front. */
  function Padded(n: int, width: nat): string {
    if n >= 0 then
      var digits := Decimal(n);
      (if |digits| < width then Zeros(width - |digits|) else "") + digits
    else
      var digits := Decimal(-n);
      "-" + (if |digits| + 1 < width then Zeros(width - 1 - |digits|) else "") + digits
  }

  function IsoFromMillis(millis: int): string {
    var seconds := millis / 1000;
    var subMillis := millis % 1000;
    var days := seconds / 86_400;
    var secondsOfDay := seconds % 86_400;
    var date := CivilFromDays(days);
    var hour := secondsOfDay / 3600;
    var minute := secondsOfDay % 3600 / 60;
    var second := secondsOfDay % 60;
    Padded(date.year, 4) + ("-" + (Padded(date.month, 2) + ("-" + (Padded(date.day, 2)
    + ("T" + (Padded(hour, 2) + (":" + (Padded(minute, 2) + (":" + (Padded(second, 2)
    + ("." + (Padded(subMillis, 3) + "Z"))))))))))))
  }

  // ---- parsing ----

  predicate IsDigit(c: char) {
    '0' <= c <= '9'
  }

  predicate AllDigits(s: string) {
    forall i :: 0 <= i < |s| ==> IsDigit(s[i])
  }

  function DigitsValue(s: string): nat
    requires AllDigits(s)
  {
    if s == [] then 0
    else
      var last := |s| - 1;
      assert IsDigit(s[last]);
      DigitsValue(s[..last]) * 10 + (s[last] as int - '0' as int)
  }

  /** A decimal number with an optional sign, as the integer parser accepts it. */
  function ParseInt(s: string): Option<int> {
    if s == [] then None
    else if s[0] == '+' || s[0] == '-' then
      if |s| > 1 && AllDigits(s[1..]) then
        var value: int := DigitsValue(s[1..]);
        Some(if s[0] == '-' then -value else value)
      else None
    else if AllDigits(s) then Some(DigitsValue(s))
    else None
  }

  const TWO_64: int := 0x1_0000_0000_0000_0000

  /** The text as its bytes, one character each. A negative total wraps when it becomes unsigned. */
  function ParseIsoMillis(b: string): Option<nat> {
    if |b| < 24 || b[4] != '-' || b[10] != 'T' || b[23] != 'Z' then None
    else
      var year, month, day := ParseInt(b[0..4]), ParseInt(b[5..7]), ParseInt(b[8..10]);
      var hour, minute := ParseInt(b[11..13]), ParseInt(b[14..16]);
      var second, millis := ParseInt(b[17..19]), ParseInt(b[20..23]);
      if year.None? || month.None? || day.None? || hour.None? || minute.None? || second.None? || millis.None? then None
      else if !(1 <= month.value <= 12) || !(1 <= day.value <= 31) || !(0 <= hour.value <= 23)
        || !(0 <= minute.value <= 59) || !(0 <= second.value <= 59) || !(0 <= millis.value <= 999) then None
      else
        var days := DaysFromCivil(Date(year.value, month.value, day.value));
        var secs := days * 86_400 + hour.value * 3600 + minute.value * 60 + second.value;
        Some((secs * 1000 + millis.value) % TWO_64)
  }

  // ---- fixed-width fields ----

  function Pow10(w: nat): nat {
    if w == 0 then 1 else 10 * Pow10(w - 1)
  }

  /** The last w decimal digits of n. */
  function Fixed(n: nat, w: nat): (s: string)
    ensures |s| == w
  {
    if w == 0 then "" else Fixed(n / 10, w - 1) + [Digit(n % 10)]
  }

  lemma {:induction false} FixedZero(w: nat)
    ensures Fixed(0, w) == Zeros(w)
  {
    if w > 0 {
      FixedZero(w - 1);
      assert Zeros(w) == Zeros(w - 1) + ['0'];
    }
  }

  lemma {:induction false} PaddedIsFixed(n: nat, w: nat)
    requires w > 0 && n < Pow10(w)
    ensures Padded(n, w) == Fixed(n, w)
  {
    if n < 10 {
      FixedZero(w - 1);
    } else {
      hide Zeros;
      PaddedIsFixed(n / 10, w - 1);
      var digits := Decimal(n / 10);
      assert Decimal(n) == digits + [Digit(n % 10)];
      if |digits| < w - 1 {
        assert Zeros(w - 1 - |digits|) + (digits + [Digit(n % 10)])
            == (Zeros(w - 1 - |digits|) + digits) + [Digit(n % 10)];
      }
    }
  }

  lemma {:induction false} FixedReadsBack(n: nat, w: nat)
    requires n < Pow10(w)
    ensures AllDigits(Fixed(n, w)) && DigitsValue(Fixed(n, w)) == n
  {
    if w > 0 {
      FixedReadsBack(n / 10, w - 1);
      var s := Fixed(n, w);
      assert s[..|s| - 1] == Fixed(n / 10, w - 1);
    }
  }

  lemma {:induction false} DecimalReadsBack(n: nat, zeros: nat)
    ensures AllDigits(Zeros(zeros) + Decimal(n)) && DigitsValue(Zeros(zeros) + Decimal(n)) == n
  {
    var s := Zeros(zeros) + Decimal(n);
    if n < 10 {
      ZerosAreNothing(zeros);
      assert s[..|s| - 1] == Zeros(zeros);
    } else {
      DecimalReadsBack(n / 10, zeros);
      assert s[..|s| - 1] == Zeros(zeros) + Decimal(n / 10);
    }
  }

  lemma {:induction false} ZerosAreNothing(n: nat)
    ensures AllDigits(Zeros(n)) && DigitsValue(Zeros(n)) == 0
  {
    if n > 0 {
      ZerosAreNothing(n - 1);
      assert Zeros(n)[..n - 1] == Zeros(n - 1);
    }
  }

  /** Digits are the decimal numeral of their value, with some zeros in front. */
  lemma {:induction false} DigitsAreDecimal(s: string) returns (zeros: nat)
    requires s != "" && AllDigits(s)
    ensures s == Zeros(zeros) + Decimal(DigitsValue(s))
  {
    var last := |s| - 1;
    assert IsDigit(s[last]);
    if last == 0 {
      zeros := 0;
      assert s[..0] == "";
    } else {
      var before := DigitsAreDecimal(s[..last]);
      var v := DigitsValue(s[..last]);
      zeros := if v == 0 then before + 1 else before;
      assert s == s[..last] + [s[last]];
      assert v == 0 ==> Zeros(before) + "0" == Zeros(zeros);
    }
  }

  lemma FixedParses(n: nat, w: nat)
    requires w > 0 && n < Pow10(w)
    ensures ParseInt(Fixed(n, w)) == Some(n)
  {
    FixedReadsBack(n, w);
    assert IsDigit(Fixed(n, w)[0]);
  }

  /** Digits of one width are ordered as the numbers are. */
  lemma {:induction false} FixedKeepsOrder(m: nat, n: nat, w: nat)
    requires m < n < Pow10(w)
    ensures Below(Fixed(m, w), Fixed(n, w))
  {
    var a, b := Fixed(m / 10, w - 1), Fixed(n / 10, w - 1);
    if m / 10 == n / 10 {
      BelowAfterPrefix(a, [Digit(m % 10)], [Digit(n % 10)]);
    } else {
      FixedKeepsOrder(m / 10, n / 10, w - 1);
      BelowBeforeSuffix(a, b, [Digit(m % 10)], [Digit(n % 10)]);
    }
  }

  // ---- stamps as rows of fields ----

  /** The numbers of a stamp with the widths they are printed in. */
  ghost predicate Fits(values: seq<nat>, widths: seq<nat>) {
    |values| == |widths| && forall i :: 0 <= i < |values| ==> widths[i] > 0 && values[i] < Pow10(widths[i])
  }

  /** Each field is followed by its separator. */
  function Render(values: seq<nat>, widths: seq<nat>, seps: string): string
    requires |values| == |widths| == |seps|
  {
    if values == [] then ""
    else Fixed(values[0], widths[0]) + ([seps[0]] + Render(values[1..], widths[1..], seps[1..]))
  }

  ghost predicate RowBelow(a: seq<nat>, b: seq<nat>)
    requires |a| == |b|
  {
    a != [] && (a[0] < b[0] || (a[0] == b[0] && RowBelow(a[1..], b[1..])))
  }

  lemma {:induction false} RenderKeepsOrder(a: seq<nat>, b: seq<nat>, widths: seq<nat>, seps: string)
    requires |a| == |b| == |widths| == |seps| && Fits(a, widths) && Fits(b, widths) && RowBelow(a, b)
    ensures Below(Render(a, widths, seps), Render(b, widths, seps))
  {
    var x, y := Fixed(a[0], widths[0]), Fixed(b[0], widths[0]);
    var s, t := Render(a[1..], widths[1..], seps[1..]), Render(b[1..], widths[1..], seps[1..]);
    if a[0] < b[0] {
      FixedKeepsOrder(a[0], b[0], widths[0]);
      BelowBeforeSuffix(x, y, [seps[0]] + s, [seps[0]] + t);
    } else {
      RenderKeepsOrder(a[1..], b[1..], widths[1..], seps[1..]);
      BelowAfterPrefix([seps[0]], s, t);
      BelowAfterPrefix(x, [seps[0]] + s, [seps[0]] + t);
    }
  }

  // ---- the printer as a row ----

  const WIDTHS: seq<nat> := [4, 2, 2, 2, 2, 2, 3]
  const SEPARATORS: string := "--T::.Z"
  const YEAR_10000: nat := 253_402_300_800_000

  ghost function DayOf(millis: int): int {
    millis / 1000 / 86_400
  }

  ghost function DateOf(millis: int): Date {
    CivilFromDays(DayOf(millis))
  }

  lemma DaysOrderDates(m: int, n: int)
    requires m < n
    ensures Earlier(CivilFromDays(m), CivilFromDays(n))
  {
    CivilRoundTrip(m);
    CivilRoundTrip(n);
    var a, b := CivilFromDays(m), CivilFromDays(n);
    if !Earlier(a, b) && a != b {
      DaysIncrease(b, a);
    }
  }

  lemma YearsOfDays(days: int)
    ensures days >= 0 ==> CivilFromDays(days).year >= 1970
    ensures CivilFromDays(days).year <= 9999 <==> days < 2_932_897
  {
    var first, last := Date(1970, 1, 1), Date(10_000, 1, 1);
    EpochIsZero();
    LastDayNumber();
    CivilRoundTrip(days);
    hide CivilFromDays, DaysFromCivil, IsValid;
    DaysRoundTrip(first);
    DaysRoundTrip(last);
    if days > 0 { DaysOrderDates(0, days); }
    if days > 2_932_897 { DaysOrderDates(2_932_897, days); }
    if days < 2_932_897 { DaysOrderDates(days, 2_932_897); EarlierThanNewYear(CivilFromDays(days), last); }
  }

  lemma EarlierThanNewYear(d: Date, newYear: Date)
    requires IsValid(d) && Earlier(d, newYear) && newYear.month == 1 && newYear.day == 1
    ensures d.year < newYear.year
  {
  }

  /** The first day of the year 10000 bounds the four-digit years. */
  lemma FourDigitYears(millis: int)
    requires 0 <= millis
    ensures DateOf(millis).year >= 1970
    ensures DateOf(millis).year <= 9999 <==> millis < YEAR_10000
  {
    hide CivilFromDays;
    YearsOfDays(DayOf(millis));
  }

  lemma LastDayNumber()
    ensures IsValid(Date(1970, 1, 1)) && IsValid(Date(10_000, 1, 1))
    ensures DaysFromCivil(Date(10_000, 1, 1)) == 2_932_897
  {
  }

  ghost function Fields(millis: nat): seq<nat>
    requires millis < YEAR_10000
  {
    FourDigitYears(millis);
    CivilRoundTrip(DayOf(millis));
    var d := DateOf(millis);
    var secondsOfDay := millis / 1000 % 86_400;
    [d.year, d.month, d.day, secondsOfDay / 3600, secondsOfDay % 3600 / 60, secondsOfDay % 60, millis % 1000]
  }

  lemma FieldsFit(millis: nat)
    requires millis < YEAR_10000
    ensures Fits(Fields(millis), WIDTHS)
  {
    FourDigitYears(millis);
    CivilRoundTrip(DayOf(millis));
    assert Pow10(2) == 100 && Pow10(3) == 1000 && Pow10(4) == 10_000;
  }

  lemma IsoIsRow(millis: nat)
    requires millis < YEAR_10000
    ensures IsoFromMillis(millis) == Render(Fields(millis), WIDTHS, SEPARATORS)
  {
    FieldsFit(millis);
    var f := Fields(millis);
    PaddedRow(f, f[0], f[1], f[2], f[3], f[4], f[5], f[6]);
  }

  lemma PaddedRow(f: seq<nat>, y: nat, mo: nat, d: nat, h: nat, mi: nat, s: nat, ms: nat)
    requires f == [y, mo, d, h, mi, s, ms] && Fits(f, WIDTHS)
    ensures Padded(y, 4) + ("-" + (Padded(mo, 2) + ("-" + (Padded(d, 2)
      + ("T" + (Padded(h, 2) + (":" + (Padded(mi, 2) + (":" + (Padded(s, 2)
      + ("." + (Padded(ms, 3) + "Z")))))))))))) == Render(f, WIDTHS, SEPARATORS)
  {
    hide Fixed, Padded, Pow10, Render, Fits;
    hide Tail;
    PaddedField(f, 6, 3, 'Z');
    PaddedField(f, 5, 2, '.');
    PaddedField(f, 4, 2, ':');
    PaddedField(f, 3, 2, ':');
    PaddedField(f, 2, 2, 'T');
    PaddedField(f, 1, 2, '-');
    PaddedField(f, 0, 4, '-');
    RowEnd(f);
  }

  ghost function Tail(f: seq<nat>, k: nat): string
    requires |f| == 7 && k <= 7
  {
    Render(f[k..], WIDTHS[k..], SEPARATORS[k..])
  }

  lemma RowEnd(f: seq<nat>)
    requires |f| == 7
    ensures ['Z'] + Tail(f, 7) == "Z"
    ensures Tail(f, 0) == Render(f, WIDTHS, SEPARATORS)
  {
    assert f[0..] == f && WIDTHS[0..] == WIDTHS && SEPARATORS[0..] == SEPARATORS;
  }

  lemma PaddedField(f: seq<nat>, k: nat, w: nat, c: char)
    requires |f| == 7 && k < 7 && Fits(f, WIDTHS) && WIDTHS[k] == w && SEPARATORS[k] == c
    ensures Tail(f, k) == Padded(f[k], w) + ([c] + Tail(f, k + 1))
  {
    PaddedIsFixed(f[k], w);
    RenderStep(f, WIDTHS, SEPARATORS, k);
  }

  lemma RenderStep(f: seq<nat>, widths: seq<nat>, seps: string, k: nat)
    requires |f| == |widths| == |seps| && k < |f|
    ensures Render(f[k..], widths[k..], seps[k..])
         == Fixed(f[k], widths[k]) + ([seps[k]] + Render(f[k + 1..], widths[k + 1..], seps[k + 1..]))
  {
    assert f[k..][1..] == f[k + 1..] && widths[k..][1..] == widths[k + 1..] && seps[k..][1..] == seps[k + 1..];
  }

  // ---- parsing a row ----

  /** Where field k starts. */
  function Offset(widths: seq<nat>, k: nat): nat
    requires k <= |widths|
  {
    if k == 0 then 0 else widths[0] + 1 + Offset(widths[1..], k - 1)
  }

  lemma {:induction false} FieldAt(f: seq<nat>, widths: seq<nat>, seps: string, k: nat)
    requires |f| == |widths| == |seps| && k < |f|
    ensures var t, o := Render(f, widths, seps), Offset(widths, k);
      o + widths[k] < |t| && t[o..o + widths[k]] == Fixed(f[k], widths[k]) && t[o + widths[k]] == seps[k]
  {
    hide Fixed, Render;
    RenderFront(f, widths, seps);
    var head := Fixed(f[0], widths[0]) + [seps[0]];
    if k == 0 {
      assert head[0..widths[0]] == Fixed(f[0], widths[0]);
    } else {
      FieldAt(f[1..], widths[1..], seps[1..], k - 1);
      var o := Offset(widths[1..], k - 1);
      SliceAfter(head, Render(f[1..], widths[1..], seps[1..]), o, o + widths[k]);
    }
  }

  lemma RenderFront(f: seq<nat>, widths: seq<nat>, seps: string)
    requires |f| == |widths| == |seps| && f != []
    ensures Render(f, widths, seps) == (Fixed(f[0], widths[0]) + [seps[0]]) + Render(f[1..], widths[1..], seps[1..])
  {
  }

  lemma SliceAfter(p: string, s: string, lo: nat, hi: nat)
    requires lo <= hi < |s|
    ensures (p + s)[|p| + lo..|p| + hi] == s[lo..hi] && (p + s)[|p| + hi] == s[hi]
  {
  }

  lemma Offsets()
    ensures Offset(WIDTHS, 0) == 0 && Offset(WIDTHS, 1) == 5 && Offset(WIDTHS, 2) == 8 && Offset(WIDTHS, 3) == 11
    ensures Offset(WIDTHS, 4) == 14 && Offset(WIDTHS, 5) == 17 && Offset(WIDTHS, 6) == 20
  {
    OffsetStep(WIDTHS, 0);
    OffsetStep(WIDTHS, 1);
    OffsetStep(WIDTHS, 2);
    OffsetStep(WIDTHS, 3);
    OffsetStep(WIDTHS, 4);
    OffsetStep(WIDTHS, 5);
  }

  lemma {:induction false} OffsetStep(widths: seq<nat>, k: nat)
    requires k < |widths|
    ensures Offset(widths, k + 1) == Offset(widths, k) + widths[k] + 1
  {
    if k > 0 {
      OffsetStep(widths[1..], k - 1);
    }
  }

  lemma {:induction false} RenderLength(f: seq<nat>, widths: seq<nat>, seps: string)
    requires |f| == |widths| == |seps|
    ensures |Render(f, widths, seps)| == Offset(widths, |widths|)
  {
    if f != [] {
      RenderLength(f[1..], widths[1..], seps[1..]);
    }
  }

  /** A slice that ends within the front of a text is a slice of that front. */
  lemma SliceOfFront(t: string, rest: string, lo: nat, hi: nat)
    requires lo <= hi < |t|
    ensures (t + rest)[lo..hi] == t[lo..hi] && (t + rest)[hi] == t[hi]
  {
  }

  lemma FieldInText(f: seq<nat>, seps: string, rest: string, k: nat, o: nat, w: nat)
    requires |f| == |WIDTHS| == |seps| && k < 7 && Fits(f, WIDTHS) && Offset(WIDTHS, k) == o && WIDTHS[k] == w
    ensures var b := Render(f, WIDTHS, seps) + rest;
      o + w < |b| && ParseInt(b[o..o + w]) == Some(f[k]) && b[o + w] == seps[k]
  {
    hide Render, Fixed, ParseInt, Offset;
    FieldAt(f, WIDTHS, seps, k);
    FixedParses(f[k], w);
    SliceOfFront(Render(f, WIDTHS, seps), rest, o, o + w);
  }

  /**
   * What the parser makes of seven fixed-width numbers with any separators between and any text behind them: it
   * accepts them if and only if three of the separators are right and every number is in its range.
   */
  lemma RowParses(f: seq<nat>, seps: string, rest: string)
    requires Fits(f, WIDTHS) && |seps| == 7
    ensures ParseIsoMillis(Render(f, WIDTHS, seps) + rest) ==
      if seps[0] == '-' && seps[2] == 'T' && seps[6] == 'Z'
        && 1 <= f[1] <= 12 && 1 <= f[2] <= 31 && f[3] <= 23 && f[4] <= 59 && f[5] <= 59 && f[6] <= 999
      then
        Some(((DaysFromCivil(Date(f[0], f[1], f[2])) * 86_400 + f[3] * 3600 + f[4] * 60 + f[5]) * 1000 + f[6])
             % TWO_64)
      else None
  {
    RowInText(f, seps, rest);
    FieldsParse(Render(f, WIDTHS, seps) + rest, f, seps);
  }

  /** Seven numbers where the parser looks for them, each with its separator behind it. */
  ghost predicate HoldsRow(b: string, f: seq<nat>, seps: string) {
    && |f| == |seps| == 7 && |b| >= 24
    && ParseInt(b[0..4]) == Some(f[0]) && ParseInt(b[5..7]) == Some(f[1]) && ParseInt(b[8..10]) == Some(f[2])
    && ParseInt(b[11..13]) == Some(f[3]) && ParseInt(b[14..16]) == Some(f[4])
    && ParseInt(b[17..19]) == Some(f[5]) && ParseInt(b[20..23]) == Some(f[6])
    && b[4] == seps[0] && b[10] == seps[2] && b[23] == seps[6]
  }

  lemma RowInText(f: seq<nat>, seps: string, rest: string)
    requires Fits(f, WIDTHS) && |seps| == 7
    ensures HoldsRow(Render(f, WIDTHS, seps) + rest, f, seps)
  {
    hide Render, ParseInt;
    Offsets();
    assert |f| == |WIDTHS|;
    hide Offset, Fits;
    FieldInText(f, seps, rest, 0, 0, 4);
    FieldInText(f, seps, rest, 1, 5, 2);
    FieldInText(f, seps, rest, 2, 8, 2);
    FieldInText(f, seps, rest, 3, 11, 2);
    FieldInText(f, seps, rest, 4, 14, 2);
    FieldInText(f, seps, rest, 5, 17, 2);
    FieldInText(f, seps, rest, 6, 20, 3);
  }

  lemma FieldsParse(b: string, f: seq<nat>, seps: string)
    requires HoldsRow(b, f, seps)
    ensures ParseIsoMillis(b) ==
      if seps[0] == '-' && seps[2] == 'T' && seps[6] == 'Z'
        && 1 <= f[1] <= 12 && 1 <= f[2] <= 31 && f[3] <= 23 && f[4] <= 59 && f[5] <= 59 && f[6] <= 999
      then
        Some(((DaysFromCivil(Date(f[0], f[1], f[2])) * 86_400 + f[3] * 3600 + f[4] * 60 + f[5]) * 1000 + f[6])
             % TWO_64)
      else None
  {
    hide ParseInt, DaysFromCivil;
  }

  /** The text is the number in decimal, with any zeros in front and perhaps a sign. */
  ghost predicate IsSignedNumeral(s: string, n: int) {
    exists zeros: nat ::
      || (n >= 0 && (s == Zeros(zeros) + Decimal(n) || s == "+" + (Zeros(zeros) + Decimal(n))))
      || (n <= 0 && s == "-" + (Zeros(zeros) + Decimal(-n)))
  }

  lemma DigitsParse(digits: string)
    requires digits != "" && AllDigits(digits)
    ensures ParseInt(digits) == Some(DigitsValue(digits))
    ensures ParseInt("+" + digits) == Some(DigitsValue(digits))
    ensures var value: int := DigitsValue(digits); ParseInt("-" + digits) == Some(-value)
  {
    assert IsDigit(digits[0]);
    hide AllDigits, DigitsValue;
    assert ("+" + digits)[1..] == digits && ("-" + digits)[1..] == digits;
  }

  lemma NumeralParses(zeros: nat, m: nat)
    ensures var digits, value: int := Zeros(zeros) + Decimal(m), m;
      ParseInt(digits) == Some(value) && ParseInt("+" + digits) == Some(value) && ParseInt("-" + digits) == Some(-value)
  {
    DecimalReadsBack(m, zeros);
    DecimalIsDigits(m);
    hide ParseInt, Zeros, Decimal, DigitsValue, AllDigits;
    DigitsParse(Zeros(zeros) + Decimal(m));
  }

  lemma ParsedIsNumeral(s: string, n: int)
    requires ParseInt(s) == Some(n)
    ensures IsSignedNumeral(s, n)
  {
    var signed := s[0] == '+' || s[0] == '-';
    var digits := if signed then s[1..] else s;
    var zeros := DigitsAreDecimal(digits);
    hide Zeros, Decimal, DigitsValue, AllDigits;
    assert signed ==> s == [s[0]] + digits;
  }

  /** The integer parser reads exactly the signed numerals, each as its number. */
  lemma ParseIntIff(s: string, n: int)
    ensures ParseInt(s) == Some(n) <==> IsSignedNumeral(s, n)
  {
    hide ParseInt, Zeros, Decimal;
    if ParseInt(s) == Some(n) {
      ParsedIsNumeral(s, n);
    }
    if IsSignedNumeral(s, n) {
      var m: nat := if n >= 0 then n else -n;
      var zeros: nat :|
        || (n >= 0 && (s == Zeros(zeros) + Decimal(n) || s == "+" + (Zeros(zeros) + Decimal(n))))
        || (n <= 0 && s == "-" + (Zeros(zeros) + Decimal(-n)));
      NumeralParses(zeros, m);
    }
  }

  lemma PaddedIsNumeral(n: int, width: nat) returns (zeros: nat)
    ensures Padded(n, width) == (if n >= 0 then "" else "-") + (Zeros(zeros) + Decimal(if n >= 0 then n else -n))
    ensures |Padded(n, width)| >= width
    ensures |Padded(n, width)| > width ==> zeros == 0
  {
    hide Decimal;
    var digits := Decimal(if n >= 0 then n else -n);
    var taken := |digits| + if n >= 0 then 0 else 1;
    zeros := if taken < width then width - taken else 0;
    assert Zeros(0) == "";
    assert "-" + Zeros(zeros) + digits == "-" + (Zeros(zeros) + digits);
  }

  lemma NoZeros(digits: string)
    ensures Zeros(0) + digits == digits
  {
  }

  /** Padding, for negative numbers too: it reads back, and is as wide as asked for or the bare number. */
  lemma PaddedReadsBack(n: int, width: nat)
    ensures ParseInt(Padded(n, width)) == Some(n)
    ensures |Padded(n, width)| >= width
    ensures |Padded(n, width)| > width ==> Padded(n, width) == if n >= 0 then Decimal(n) else "-" + Decimal(-n)
  {
    var zeros := PaddedIsNumeral(n, width);
    hide ParseInt, Padded, Decimal;
    var m: nat := if n >= 0 then n else -n;
    NumeralParses(zeros, m);
    assert "" + (Zeros(zeros) + Decimal(m)) == Zeros(zeros) + Decimal(m);
    NoZeros(Decimal(m));
  }

  // ---- the results ----

  /** Four-digit years read back exactly. */
  lemma ParseAfterPrint(millis: nat)
    requires millis < YEAR_10000
    ensures ParseIsoMillis(IsoFromMillis(millis)) == Some(millis)
  {
    hide IsoFromMillis, Render, ParseIsoMillis, DaysFromCivil, Fits, Fields;
    IsoIsRow(millis);
    FieldsFit(millis);
    FieldsInRange(millis);
    RowParses(Fields(millis), SEPARATORS, "");
    assert Render(Fields(millis), WIDTHS, SEPARATORS) + "" == Render(Fields(millis), WIDTHS, SEPARATORS);
    MillisOfFields(millis);
  }

  lemma MillisOfFields(millis: nat)
    requires millis < YEAR_10000
    ensures var f := Fields(millis);
      (DaysFromCivil(Date(f[0], f[1], f[2])) * 86_400 + f[3] * 3600 + f[4] * 60 + f[5]) * 1000 + f[6] == millis < TWO_64
  {
    FieldsSplit(millis);
    CivilRoundTrip(DayOf(millis));
    hide Fields, DayOf, TimeOfDay, CivilFromDays, DaysFromCivil, IsValid;
    TimeParts(millis);
    var f := Fields(millis);
    assert f[3..][0] == f[3] && f[3..][1] == f[4] && f[3..][2] == f[5] && f[3..][3] == f[6];
  }

  lemma FieldsInRange(millis: nat)
    requires millis < YEAR_10000
    ensures var f := Fields(millis);
      1 <= f[1] <= 12 && 1 <= f[2] <= 31 && f[3] <= 23 && f[4] <= 59 && f[5] <= 59 && f[6] <= 999
  {
    hide CivilFromDays;
    CivilRoundTrip(DayOf(millis));
  }

  /**
   * What a stamp looks like and says: the separators of the format, and between them, in fixed width, a valid date
   * and a time of day which together are the printed milliseconds.
   */
  lemma StampNamesTime(millis: nat) returns (f: seq<nat>)
    requires millis < YEAR_10000
    ensures |f| == 7 && IsValid(Date(f[0], f[1], f[2])) && f[3] < 24 && f[4] < 60 && f[5] < 60 && f[6] < 1000
    ensures millis == 86_400_000 * DaysFromCivil(Date(f[0], f[1], f[2]))
                      + 3_600_000 * f[3] + 60_000 * f[4] + 1000 * f[5] + f[6]
    ensures IsoFromMillis(millis) ==
      Fixed(f[0], 4) + ("-" + (Fixed(f[1], 2) + ("-" + (Fixed(f[2], 2)
      + ("T" + (Fixed(f[3], 2) + (":" + (Fixed(f[4], 2) + (":" + (Fixed(f[5], 2)
      + ("." + (Fixed(f[6], 3) + "Z"))))))))))))
  {
    f := Fields(millis);
    FieldsAreDate(millis);
    FieldsInRange(millis);
    MillisOfFields(millis);
    StampIsPadded(millis);
    FieldsFit(millis);
    PaddedFieldsAreFixed(f);
    hide IsoFromMillis, Fields, DaysFromCivil, IsValid, Fixed, Padded, Fits;
  }

  lemma StampIsPadded(millis: nat)
    requires millis < YEAR_10000
    ensures var f := Fields(millis);
      IsoFromMillis(millis) ==
        Padded(f[0], 4) + ("-" + (Padded(f[1], 2) + ("-" + (Padded(f[2], 2)
        + ("T" + (Padded(f[3], 2) + (":" + (Padded(f[4], 2) + (":" + (Padded(f[5], 2)
        + ("." + (Padded(f[6], 3) + "Z"))))))))))))
  {
    hide CivilFromDays, Padded;
  }

  lemma PaddedFieldsAreFixed(f: seq<nat>)
    requires Fits(f, WIDTHS)
    ensures |f| == 7 && Padded(f[0], 4) == Fixed(f[0], 4) && Padded(f[6], 3) == Fixed(f[6], 3)
    ensures Padded(f[1], 2) == Fixed(f[1], 2) && Padded(f[2], 2) == Fixed(f[2], 2) && Padded(f[3], 2) == Fixed(f[3], 2)
    ensures Padded(f[4], 2) == Fixed(f[4], 2) && Padded(f[5], 2) == Fixed(f[5], 2)
  {
    hide Padded, Fixed;
    PaddedIsFixed(f[0], 4);
    PaddedIsFixed(f[1], 2);
    PaddedIsFixed(f[2], 2);
    PaddedIsFixed(f[3], 2);
    PaddedIsFixed(f[4], 2);
    PaddedIsFixed(f[5], 2);
    PaddedIsFixed(f[6], 3);
  }

  lemma FieldsAreDate(millis: nat)
    requires millis < YEAR_10000
    ensures |Fields(millis)| == 7 && IsValid(Date(Fields(millis)[0], Fields(millis)[1], Fields(millis)[2]))
  {
    hide CivilFromDays;
    CivilRoundTrip(DayOf(millis));
  }

  lemma {:induction false} DecimalIsLong(n: nat, w: nat)
    requires w > 0 && n >= Pow10(w)
    ensures |Decimal(n)| > w && AllDigits(Decimal(n))
  {
    if w > 1 {
      DecimalIsLong(n / 10, w - 1);
    } else {
      DecimalIsDigits(n / 10);
    }
  }

  lemma {:induction false} DecimalIsDigits(n: nat)
    ensures |Decimal(n)| > 0 && AllDigits(Decimal(n))
  {
    if n >= 10 {
      DecimalIsDigits(n / 10);
    }
  }

  /** Printing and parsing are an identity on exactly the times before the year 10000. */
  lemma ParseAfterPrintIff(millis: nat)
    ensures ParseIsoMillis(IsoFromMillis(millis)) == Some(millis) <==> millis < YEAR_10000
  {
    if millis < YEAR_10000 {
      ParseAfterPrint(millis);
    } else {
      LongYearFails(millis);
    }
  }

  lemma LongYearFails(millis: nat)
    requires millis >= YEAR_10000
    ensures ParseIsoMillis(IsoFromMillis(millis)) == None
  {
    FourDigitYears(millis);
    var year := DateOf(millis).year;
    assert Pow10(4) == 10_000;
    DecimalIsLong(year, 4);
    assert IsDigit(Decimal(year)[4]);
    assert IsoFromMillis(millis)[4] == Decimal(year)[4];
  }

  lemma RowsKeepOrder(m: nat, n: nat)
    requires m < n < YEAR_10000
    ensures RowBelow(Fields(m), Fields(n))
  {
    FieldsSplit(m);
    FieldsSplit(n);
    DaysInOrder(m, n);
    hide Fields, CivilFromDays, TimeOfDay, RowBelow, DayOf;
    if DayOf(m) < DayOf(n) {
      DaysOrderDates(DayOf(m), DayOf(n));
      DateRows(Fields(m), Fields(n));
    } else {
      TimeRows(Fields(m), Fields(n), m, n);
    }
  }

  lemma DaysInOrder(m: nat, n: nat)
    requires m < n
    ensures DayOf(m) <= DayOf(n)
  {
  }

  lemma FieldsSplit(millis: nat)
    requires millis < YEAR_10000
    ensures var f, d := Fields(millis), DateOf(millis);
      |f| == 7 && f[3..] == TimeOfDay(millis) && d == Date(f[0], f[1], f[2])
      && d.year >= 0 && d.month >= 0 && d.day >= 0 && f[..3] == [d.year as nat, d.month, d.day]
  {
    hide CivilFromDays;
    FourDigitYears(millis);
    CivilRoundTrip(DayOf(millis));
  }

  lemma DateRows(a: seq<nat>, b: seq<nat>)
    requires |a| == |b| == 7 && Earlier(Date(a[0], a[1], a[2]), Date(b[0], b[1], b[2]))
    ensures RowBelow(a, b)
  {
    assert RowBelow(a[1..], b[1..]) || a[0] < b[0];
  }

  lemma TimeRows(a: seq<nat>, b: seq<nat>, m: nat, n: nat)
    requires |a| == |b| == 7 && a[..3] == b[..3]
    requires DayOf(m) == DayOf(n) && m < n
    requires a[3..] == TimeOfDay(m) && b[3..] == TimeOfDay(n)
    ensures RowBelow(a, b)
  {
    assert a[0] == b[0] && a[1] == b[1] && a[2] == b[2];
    TimesKeepOrder(m, n);
    RowBelowAfter(a, b, 3);
  }

  ghost function TimeOfDay(millis: nat): seq<nat> {
    var s := millis / 1000 % 86_400;
    [s / 3600, s % 3600 / 60, s % 60, millis % 1000]
  }

  lemma TimesKeepOrder(m: nat, n: nat)
    requires DayOf(m) == DayOf(n) && m < n
    ensures RowBelow(TimeOfDay(m), TimeOfDay(n))
  {
    var a, b := TimeOfDay(m), TimeOfDay(n);
    TimeParts(m);
    TimeParts(n);
    hide TimeOfDay, DayOf, RowBelow;
    RowBelowFour(a, b);
  }

  lemma TimeParts(millis: nat)
    ensures var t := TimeOfDay(millis);
      |t| == 4 && t[1] < 60 && t[2] < 60 && t[3] < 1000
      && millis == 86_400_000 * DayOf(millis) + 3_600_000 * t[0] + 60_000 * t[1] + 1000 * t[2] + t[3]
  {
    var s := millis / 1000 % 86_400;
    assert s == 3600 * (s / 3600) + 60 * (s % 3600 / 60) + s % 60;
  }

  lemma RowBelowFour(a: seq<nat>, b: seq<nat>)
    requires |a| == |b| == 4
    ensures RowBelow(a, b) <==>
      a[0] < b[0] || (a[0] == b[0] && (a[1] < b[1] || (a[1] == b[1] && (a[2] < b[2] || (a[2] == b[2] && a[3] < b[3])))))
  {
    hide RowBelow;
    RowBelowStep(a, b, 0);
    RowBelowStep(a, b, 1);
    RowBelowStep(a, b, 2);
    RowBelowStep(a, b, 3);
    RowBelowEnd();
    assert a[0..] == a && b[0..] == b && a[4..] == [] && b[4..] == [];
  }

  lemma RowBelowEnd()
    ensures !RowBelow([], [])
  {
  }

  lemma RowBelowStep(a: seq<nat>, b: seq<nat>, k: nat)
    requires k < |a| == |b|
    ensures RowBelow(a[k..], b[k..]) <==> a[k] < b[k] || (a[k] == b[k] && RowBelow(a[k + 1..], b[k + 1..]))
  {
    assert a[k..][1..] == a[k + 1..] && b[k..][1..] == b[k + 1..];
  }

  lemma {:induction false} RowBelowAfter(a: seq<nat>, b: seq<nat>, k: nat)
    requires k <= |a| == |b| && a[..k] == b[..k] && RowBelow(a[k..], b[k..])
    ensures RowBelow(a, b)
  {
    if k > 0 {
      assert a[1..][..k - 1] == a[1..k] && b[1..][..k - 1] == b[1..k];
      assert a[..k][1..] == a[1..k] && b[..k][1..] == b[1..k];
      assert a[1..][k - 1..] == a[k..] && b[1..][k - 1..] == b[k..];
      assert a[0] == a[..k][0] && b[0] == b[..k][0];
      RowBelowAfter(a[1..], b[1..], k - 1);
    } else {
      assert a[0..] == a && b[0..] == b;
    }
  }

  /** Stamps sort as the times they name. */
  lemma StampsKeepOrder(m: nat, n: nat)
    requires m < n < YEAR_10000
    ensures Below(IsoFromMillis(m), IsoFromMillis(n))
  {
    hide Fits, IsoFromMillis, Render, RowBelow;
    IsoIsRow(m);
    IsoIsRow(n);
    FieldsFit(m);
    FieldsFit(n);
    RowsKeepOrder(m, n);
    RenderKeepsOrder(Fields(m), Fields(n), WIDTHS, SEPARATORS);
  }
}
