/**
 * The date field: typed `dd/mm/yyyy` text is rewritten to `yyyy-mm-dd` and
 * accepted when it is a calendar date in the `full-date` form of section
 * 5.6 of RFC 3339; a date picked on the calendar is written back as
 * `dd/mm/yyyy`.
 */
module DatePicker {
  import opened Common
  import opened JsString

  /** A calendar date. */
  datatype Date = Date(year: nat, month: nat, day: nat)

  /** The field: the typed text, the form value, and the month the calendar shows. */
  datatype Field = Field(text: string, value: Option<Date>, month: Option<Date>)

  predicate IsLeapYear(y: nat) {
    y % 4 == 0 && (y % 100 != 0 || y % 400 == 0)
  }

  /** The last day of a month, as the table in section 5.7 of RFC 3339 gives it. */
  function DaysInMonth(y: nat, m: nat): (n: nat)
    requires 1 <= m <= 12
    ensures 28 <= n <= 31
    ensures m == 2 ==> (n == 29 <==> IsLeapYear(y))
    ensures m != 2 ==> n >= 30
    ensures m == 4 || m == 6 || m == 9 || m == 11 ==> n == 30
    ensures m == 1 || m == 3 || m == 5 || m == 7 || m == 8 || m == 10 || m == 12 ==> n == 31
  {
    if m == 2 then (if IsLeapYear(y) then 29 else 28)
    else if m == 4 || m == 6 || m == 9 || m == 11 then 30
    else 31
  }

  /** A date that `full-date` can write: a four-digit year and an existing day. */
  predicate ValidDate(d: Date)
    ensures ValidDate(d) ==> Writable(d)
  {
    d.year <= 9999 && 1 <= d.month <= 12 && 1 <= d.day <= DaysInMonth(d.year, d.month)
  }

  predicate IsDigit(c: char) {
    '0' <= c <= '9'
  }

  function Digit(n: nat): (c: char)
    requires n < 10
    ensures IsDigit(c)
  {
    ('0' as int + n) as char
  }

  function DigitValue(c: char): (n: nat)
    requires IsDigit(c)
    ensures n < 10 && Digit(n) == c
  {
    c as int - '0' as int
  }

  /** The number a run of digits spells. */
  function DigitsValue(s: string): nat
    requires forall i :: 0 <= i < |s| ==> IsDigit(s[i])
    decreases |s|
  {
    if s == [] then 0 else DigitsValue(s[..|s| - 1]) * 10 + DigitValue(s[|s| - 1])
  }

  /** `n` written with exactly `width` digits, zero-padded. */
  function FixedDigits(n: nat, width: nat): (s: string)
    ensures |s| == width && forall i :: 0 <= i < width ==> IsDigit(s[i])
    decreases width
  {
    if width == 0 then [] else FixedDigits(n / 10, width - 1) + [Digit(n % 10)]
  }

  /** Reading back fixed-width digits gives the number when it fits. */
  lemma {:induction false} FixedDigitsValue(n: nat, width: nat)
    requires n < Pow10(width)
    ensures DigitsValue(FixedDigits(n, width)) == n
    decreases width
  {
    if width > 0 {
      var s := FixedDigits(n, width);
      assert s[..|s| - 1] == FixedDigits(n / 10, width - 1);
      FixedDigitsValue(n / 10, width - 1);
    }
  }

  function Pow10(k: nat): (p: nat)
    ensures p >= 1
  {
    if k == 0 then 1 else 10 * Pow10(k - 1)
  }

  /** Digits are the fixed-width rendering of the number they spell. */
  lemma {:induction false} DigitsRoundTrip(s: string)
    requires forall i :: 0 <= i < |s| ==> IsDigit(s[i])
    ensures FixedDigits(DigitsValue(s), |s|) == s
    decreases |s|
  {
    if s != [] {
      var init := s[..|s| - 1];
      DigitsRoundTrip(init);
      var n := DigitsValue(s);
      assert n / 10 == DigitsValue(init) && n % 10 == DigitValue(s[|s| - 1]);
      assert s == init + [s[|s| - 1]];
    }
  }

  /** `full-date` of section 5.6 of RFC 3339, with the day checked against the month and year. */
  predicate IsFullDate(s: string) {
    && |s| == 10 && s[4] == '-' && s[7] == '-'
    && (forall i :: 0 <= i < 10 && i != 4 && i != 7 ==> IsDigit(s[i]))
    && var y, m, d := DigitsValue(s[..4]), DigitsValue(s[5..7]), DigitsValue(s[8..]);
       1 <= m <= 12 && 1 <= d <= DaysInMonth(y, m)
  }

  /** The date a `full-date` string denotes. */
  function ParseFullDate(s: string): (d: Date)
    requires IsFullDate(s)
    ensures ValidDate(d)
  {
    FixedDigitsValue(0, 0);
    assert DigitsValue(s[..4]) < Pow10(4) by {
      DigitsBound(s[..4]);
    }
    Date(DigitsValue(s[..4]), DigitsValue(s[5..7]), DigitsValue(s[8..]))
  }

  /** A run of `k` digits spells a number below 10^k. */
  lemma {:induction false} DigitsBound(s: string)
    requires forall i :: 0 <= i < |s| ==> IsDigit(s[i])
    ensures DigitsValue(s) < Pow10(|s|)
    decreases |s|
  {
    if s != [] {
      DigitsBound(s[..|s| - 1]);
    }
  }

  /** A date whose fields fit the widths `full-date` writes them in. */
  predicate Writable(d: Date) {
    d.year <= 9999 && d.month <= 99 && d.day <= 99
  }

  /** The `full-date` string of a date. */
  function FullDate(d: Date): (s: string)
    requires Writable(d)
    ensures |s| == 10
  {
    FixedDigits(d.year, 4) + "-" + FixedDigits(d.month, 2) + "-" + FixedDigits(d.day, 2)
  }

  /**
   * A written date is a well-formed `full-date` exactly when the date
   * exists, and parsing it back then gives the date.
   */
  lemma FullDateRoundTrip(d: Date)
    requires Writable(d)
    ensures IsFullDate(FullDate(d)) <==> ValidDate(d)
    ensures ValidDate(d) ==> ParseFullDate(FullDate(d)) == d
  {
    var s := FullDate(d);
    FullDateShape(d);
    assert DigitsValue(s[..4]) == d.year && DigitsValue(s[5..7]) == d.month && DigitsValue(s[8..]) == d.day by {
      Pow10Widths();
      FixedDigitsValue(d.year, 4);
      FixedDigitsValue(d.month, 2);
      FixedDigitsValue(d.day, 2);
    }
  }

  lemma Pow10Widths()
    ensures Pow10(2) == 100 && Pow10(4) == 10000
  {
    assert Pow10(1) == 10;
    assert Pow10(3) == 1000;
  }

  /** Where the fields of a written date sit. */
  lemma FullDateShape(d: Date)
    requires Writable(d)
    ensures var s := FullDate(d);
      && s[..4] == FixedDigits(d.year, 4) && s[5..7] == FixedDigits(d.month, 2) && s[8..] == FixedDigits(d.day, 2)
      && s[4] == '-' && s[7] == '-'
      && forall i :: 0 <= i < 10 && i != 4 && i != 7 ==> IsDigit(s[i])
  {
    var s := FullDate(d);
    var y, m, dd := FixedDigits(d.year, 4), FixedDigits(d.month, 2), FixedDigits(d.day, 2);
    assert s == y + "-" + m + "-" + dd;
    forall i | 0 <= i < 10 && i != 4 && i != 7 ensures IsDigit(s[i]) {
      if i < 4 { assert s[i] == y[i]; }
      else if i < 7 { assert s[i] == m[i - 5]; }
      else { assert s[i] == dd[i - 8]; }
    }
  }

  /** Every `full-date` string is the string of the date it denotes. */
  lemma ParseFullDateRoundTrip(s: string)
    requires IsFullDate(s)
    ensures FullDate(ParseFullDate(s)) == s
  {
    DigitsRoundTrip(s[..4]);
    DigitsRoundTrip(s[5..7]);
    DigitsRoundTrip(s[8..]);
    assert s == s[..4] + "-" + s[5..7] + "-" + s[8..];
  }

  /** The segments of a list in the opposite order. */
  function Reverse(xs: seq<string>): (r: seq<string>)
    ensures |r| == |xs| && forall i :: 0 <= i < |xs| ==> r[i] == xs[|xs| - 1 - i]
  {
    seq(|xs|, i requires 0 <= i < |xs| => xs[|xs| - 1 - i])
  }

  /** The typed text rewritten: split on '/', reversed, each piece padded to two, joined with '-'. */
  function Normalise(typed: string): string {
    Join(PadAll(Reverse(Split(typed, '/'))), '-')
  }

  /** Every segment padded to two code units. */
  function PadAll(segments: seq<string>): (r: seq<string>)
    ensures |r| == |segments| && forall i :: 0 <= i < |r| ==> r[i] == PadStart2(segments[i])
  {
    seq(|segments|, i requires 0 <= i < |segments| => PadStart2(segments[i]))
  }

  /** Segments already two code units long are left as they are. */
  lemma PadAllLong(segments: seq<string>)
    requires forall i :: 0 <= i < |segments| ==> Utf16Length(segments[i]) >= 2
    ensures PadAll(segments) == segments
  {
  }

  /**
   * Read back on '-', the rewritten text gives the typed '/'-segments in
   * reverse order, each padded to at least two code units: as many pieces
   * as there were segments.
   */
  lemma NormaliseSegments(typed: string)
    requires '-' !in typed
    ensures Split(Normalise(typed), '-') == PadAll(Reverse(Split(typed, '/')))
    ensures |Split(Normalise(typed), '-')| == |Split(typed, '/')|
  {
    var split := Split(typed, '/');
    var reversed := Reverse(split);
    var padded := PadAll(reversed);
    forall i | 0 <= i < |padded| ensures '-' !in padded[i] {
      assert '-' !in reversed[i] by {
        SegmentsKeepOut(typed, reversed[i]);
      }
      PaddedKeepsOut(reversed[i], '-');
    }
    SplitJoin(padded, '-');
  }

  /** A '/'-segment of a text without '-' holds no '-'. */
  lemma SegmentsKeepOut(typed: string, segment: string)
    requires '-' !in typed && segment in Split(typed, '/')
    ensures '-' !in segment
  {
    var split := Split(typed, '/');
    var k :| 0 <= k < |split| && split[k] == segment;
    JoinSplitMembers(typed, '/', k);
  }

  /** Padding adds only zeros, so a character other than '0' stays absent. */
  lemma PaddedKeepsOut(s: string, c: char)
    requires c != '0' && c !in s
    ensures c !in PadStart2(s)
  {
    var z :| 0 <= z <= 2 && PadStart2(s) == Zeros(z) + s;
  }

  /** The characters of a split piece come from the split text. */
  lemma JoinSplitMembers(s: string, sep: char, k: nat)
    requires k < |Split(s, sep)|
    ensures forall c :: c in Split(s, sep)[k] ==> c in s
  {
    JoinSplit(s, sep);
    JoinMembers(Split(s, sep), sep, k);
  }

  /** The characters of a joined piece occur in the joined text. */
  lemma {:induction false} JoinMembers(parts: seq<string>, sep: char, k: nat)
    requires k < |parts|
    ensures forall c :: c in parts[k] ==> c in Join(parts, sep)
    decreases |parts|
  {
    if |parts| > 1 && k > 0 {
      JoinMembers(parts[1..], sep, k - 1);
    }
  }

  /** The input's `onChange`: the text is always kept; the value follows the parse. */
  function OnTyped(f: Field, typed: string): (r: Field)
    ensures r.text == typed
    ensures r.value.None? ==> r.month == f.month && !IsFullDate(Normalise(typed))
    ensures r.value.Some? ==>
      && r.month == r.value
      && ValidDate(r.value.value)
      && IsFullDate(Normalise(typed))
      && FullDate(r.value.value) == Normalise(typed)
  {
    var iso := Normalise(typed);
    if IsFullDate(iso) then
      ParseFullDateRoundTrip(iso);
      var d := ParseFullDate(iso);
      Field(typed, Some(d), Some(d))
    else
      Field(typed, None, f.month)
  }

  /** `formatDate`: empty for no date, else the en-GB `dd/mm/yyyy` rendering. */
  function FormatDate(d: Option<Date>): (s: string)
    ensures d.None? ==> s == ""
  {
    match d
    case None => ""
    case Some(date) => FixedDigits(date.day, 2) + "/" + FixedDigits(date.month, 2) + "/" + Numeral(date.year)
  }

  /** A year as a plain decimal numeral, without leading zeros. */
  function Numeral(n: nat): (s: string)
    ensures s != [] && forall i :: 0 <= i < |s| ==> IsDigit(s[i])
    decreases n
  {
    if n < 10 then [Digit(n)] else Numeral(n / 10) + [Digit(n % 10)]
  }

  /** A four-digit year is written with four digits. */
  lemma NumeralFourDigits(n: nat)
    requires 1000 <= n <= 9999
    ensures Numeral(n) == FixedDigits(n, 4)
  {
    var a, b, c := n / 1000, n / 100, n / 10;
    assert a < 10 && b / 10 == a && c / 10 == b && b >= 10 && c >= 10;
    assert FixedDigits(a, 1) == [Digit(a)] == Numeral(a) by {
      assert a / 10 == 0 && a % 10 == a;
    }
    assert FixedDigits(b, 2) == Numeral(b);
    assert FixedDigits(c, 3) == Numeral(c);
  }

  /** The calendar's `onSelect`: the value and the text follow the picked date. */
  function OnSelect(f: Field, d: Option<Date>): (r: Field)
    ensures r.value == d && r.month == f.month
    ensures d.None? ==> r.text == ""
  {
    Field(FormatDate(d), d, f.month)
  }

  /** Digit strings are as long in UTF-16 as they are in code points. */
  lemma DigitsUtf16(s: string)
    requires forall i :: 0 <= i < |s| ==> IsDigit(s[i])
    ensures Utf16Length(s) == |s|
  {
  }

  /** The `dd/mm/yyyy` text of a date with a four-digit year splits into day, month and year. */
  lemma FormattedSegments(d: Date)
    requires Writable(d) && 1000 <= d.year
    ensures Split(FormatDate(Some(d)), '/')
      == [FixedDigits(d.day, 2), FixedDigits(d.month, 2), FixedDigits(d.year, 4)]
  {
    var dd, mm, yyyy := FixedDigits(d.day, 2), FixedDigits(d.month, 2), FixedDigits(d.year, 4);
    NumeralFourDigits(d.year);
    JoinThree(dd, mm, yyyy, '/');
    assert FormatDate(Some(d)) == Join([dd, mm, yyyy], '/');
    SplitJoin([dd, mm, yyyy], '/');
  }

  /** The `dd/mm/yyyy` text of a date with a four-digit year normalises to its `full-date`. */
  lemma NormaliseFormatted(d: Date)
    requires Writable(d) && 1000 <= d.year
    ensures Normalise(FormatDate(Some(d))) == FullDate(d)
  {
    FormattedSegments(d);
    NormaliseThreeRuns(FormatDate(Some(d)), FixedDigits(d.day, 2), FixedDigits(d.month, 2), FixedDigits(d.year, 4));
  }

  /** Text that splits into three digit runs of at least two digits each is rewritten by reordering them. */
  lemma NormaliseThreeRuns(typed: string, dd: string, mm: string, yyyy: string)
    requires Split(typed, '/') == [dd, mm, yyyy]
    requires 2 <= |dd| && 2 <= |mm| && 2 <= |yyyy|
    requires forall i :: 0 <= i < |dd| ==> IsDigit(dd[i])
    requires forall i :: 0 <= i < |mm| ==> IsDigit(mm[i])
    requires forall i :: 0 <= i < |yyyy| ==> IsDigit(yyyy[i])
    ensures Normalise(typed) == yyyy + "-" + mm + "-" + dd
  {
    ReverseThree(dd, mm, yyyy);
    DigitsUtf16(dd); DigitsUtf16(mm); DigitsUtf16(yyyy);
    PadAllLong([yyyy, mm, dd]);
    JoinThree(yyyy, mm, dd, '-');
  }

  lemma ReverseThree(a: string, b: string, c: string)
    ensures Reverse([a, b, c]) == [c, b, a]
  {
  }

  /** Three pieces joined by a separator. */
  lemma JoinThree(a: string, b: string, c: string, sep: char)
    ensures Join([a, b, c], sep) == a + [sep] + b + [sep] + c
  {
    assert [a, b, c][1..] == [b, c] && [b, c][1..] == [c];
    assert Join([b, c], sep) == b + [sep] + c;
    assert a + [sep] + (b + [sep] + c) == a + [sep] + b + [sep] + c;
  }

  /** A single digit is padded with one zero. */
  lemma PadDigit(c: char)
    requires IsDigit(c)
    ensures PadStart2([c]) == ['0', c]
  {
    var z :| 0 <= z <= 2 && PadStart2([c]) == Zeros(z) + [c];
    DigitsUtf16(PadStart2([c]));
  }

  /** Unpadded day and month, as in `1/2/2024`, gain their leading zeros. */
  lemma NormaliseShortFields(day: char, month: char, year: string)
    requires IsDigit(day) && IsDigit(month)
    requires |year| == 4 && forall i :: 0 <= i < 4 ==> IsDigit(year[i])
    ensures Normalise([day] + "/" + [month] + "/" + year) == year + "-0" + [month] + "-0" + [day]
  {
    var typed := [day] + "/" + [month] + "/" + year;
    calc {
      Normalise(typed);
      Join(PadAll(Reverse(Split(typed, '/'))), '-');
      { ShortFieldsSegments(day, month, year); }
      Join(PadAll([year, [month], [day]]), '-');
      { PadShortFields(day, month, year); }
      Join([year, ['0', month], ['0', day]], '-');
      { JoinThree(year, ['0', month], ['0', day], '-'); }
      year + "-0" + [month] + "-0" + [day];
    }
  }

  /** The segments of `d/m/yyyy`, last first. */
  lemma ShortFieldsSegments(day: char, month: char, year: string)
    requires IsDigit(day) && IsDigit(month)
    requires |year| == 4 && forall i :: 0 <= i < 4 ==> IsDigit(year[i])
    ensures Reverse(Split([day] + "/" + [month] + "/" + year, '/')) == [year, [month], [day]]
  {
    JoinThree([day], [month], year, '/');
    assert '/' !in year;
    SplitJoin([[day], [month], year], '/');
    ReverseThree([day], [month], year);
  }

  /** Padding a four-digit year and two single digits. */
  lemma PadShortFields(day: char, month: char, year: string)
    requires IsDigit(day) && IsDigit(month)
    requires |year| == 4 && forall i :: 0 <= i < 4 ==> IsDigit(year[i])
    ensures PadAll([year, [month], [day]]) == [year, ['0', month], ['0', day]]
  {
    PadDigit(day);
    PadDigit(month);
    DigitsUtf16(year);
    assert PadStart2(year) == year;
  }

  /**
   * Typing the `dd/mm/yyyy` text of a four-digit-year date sets the value
   * to that date when it exists and clears it when it does not.
   */
  lemma TypedFormattedDate(f: Field, d: Date)
    requires Writable(d) && 1000 <= d.year
    ensures OnTyped(f, FormatDate(Some(d))).value == if ValidDate(d) then Some(d) else None
  {
    NormaliseFormatted(d);
    FullDateRoundTrip(d);
  }

  /** A date picked on the calendar and read back from the text it writes is the same date. */
  lemma SelectThenRetype(f: Field, d: Date)
    requires ValidDate(d) && 1000 <= d.year
    ensures OnTyped(f, OnSelect(f, Some(d)).text).value == Some(d)
  {
    TypedFormattedDate(f, d);
  }
}
