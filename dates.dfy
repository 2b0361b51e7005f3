/**
 * Calendar dates: the `strptime` date formats `%m/%d/%Y`, `%m-%d-%Y` and
 * `%B %d`, the date completion at the top of `check_calendar`
 * (app_cursor.py:274-309) and the one-day step behind "tomorrow".
 */
module Dates {
  import opened Wrappers
  import opened Text
  import opened Clock

  /** A proleptic Gregorian date, as `datetime.date` holds it. */
  datatype Date = Date(year: nat, month: nat, day: nat)

  predicate IsLeapYear(y: nat) {
    y % 4 == 0 && (y % 100 != 0 || y % 400 == 0)
  }

  function DaysInMonth(y: nat, m: nat): (r: nat)
    requires 1 <= m <= 12
    ensures 28 <= r <= 31
    ensures r == 29 <==> m == 2 && IsLeapYear(y)
  {
    if m == 2 then (if IsLeapYear(y) then 29 else 28)
    else if m == 4 || m == 6 || m == 9 || m == 11 then 30
    else 31
  }

  /** The dates `datetime` accepts: years 1 to 9999, real days of real months. */
  predicate ValidDate(d: Date) {
    && 1 <= d.year <= 9999
    && 1 <= d.month <= 12
    && 1 <= d.day <= DaysInMonth(d.year, d.month)
  }

  /** `%d`: one or two digits naming 1..31, or a space and a non-zero digit. */
  function DayField(s: string): (r: Option<nat>)
    ensures r.Some? ==> 1 <= r.value <= 31
  {
    if |s| == 2 && s[0] == ' ' && IsDigit(s[1]) && s[1] != '0' then Some(DigitValue(s[1]))
    else NumberField(s, 1, 31)
  }

  /**
   * `strptime` with `%m{sep}%d{sep}%Y` at the front of `s`: the date read and
   * the text after the four year digits, which the rest of the format must
   * account for.
   */
  function ParseDatePrefix(s: string, sep: char): (r: Option<(Date, string)>)
    ensures r.Some? ==> ValidDate(r.value.0)
  {
    match Find(s, sep)
    case None => None
    case Some(i) =>
      var afterMonth := s[i + 1..];
      match Find(afterMonth, sep)
      case None => None
      case Some(j) =>
        var afterDay := afterMonth[j + 1..];
        if |afterDay| < 4 || !AllDigits(afterDay[..4]) then None
        else
          match (NumberField(s[..i], 1, 12), DayField(afterMonth[..j]))
          case (Some(m), Some(d)) =>
            var y := DigitsValue(afterDay[..4]);
            DigitsValueBound(afterDay[..4]);
            if 1 <= y && d <= DaysInMonth(y, m) then Some((Date(y, m, d), afterDay[4..])) else None
          case _ => None
  }

  /** `strptime(s, "%m{sep}%d{sep}%Y")`: the whole text must be used. */
  function ParseDate(s: string, sep: char): (r: Option<Date>)
    ensures r.Some? ==> ValidDate(r.value)
  {
    match ParseDatePrefix(s, sep)
    case Some((d, rest)) => if rest == [] then Some(d) else None
    case None => None
  }

  /** `strftime("%m{sep}%d{sep}%Y")`. */
  function FormatDate(d: Date, sep: char): string
    requires ValidDate(d)
  {
    Pad2(d.month) + [sep] + Pad2(d.day) + [sep] + NatToString(d.year)
  }

  /** A separator that is not a digit cannot occur in a run of digits. */
  lemma SeparatorNotInDigits(ds: string, sep: char)
    requires AllDigits(ds) && !IsDigit(sep)
    ensures sep !in ds
  {
  }

  /** What `strftime` writes, `strptime` reads back, leaving what follows untouched. */
  lemma {:induction false} FormatDatePrefix(d: Date, sep: char, rest: string)
    requires ValidDate(d) && 1000 <= d.year && !IsDigit(sep)
    ensures ParseDatePrefix(FormatDate(d, sep) + rest, sep) == Some((d, rest))
  {
    var mm, dd, ys := Pad2(d.month), Pad2(d.day), NatToString(d.year);
    var s := FormatDate(d, sep) + rest;
    var afterMonth := dd + [sep] + (ys + rest);
    SeparatorNotInDigits(mm, sep);
    SeparatorNotInDigits(dd, sep);
    Nest(mm, [sep], dd, [sep], ys, rest);
    FindAfter(mm, sep, afterMonth);
    assert s[..2] == mm && s[3..] == afterMonth;
    FindAfter(dd, sep, ys + rest);
    assert afterMonth[..2] == dd && afterMonth[3..] == ys + rest;
    NatToStringValue(d.year);
    assert (ys + rest)[..4] == ys && (ys + rest)[4..] == rest;
    assert NumberField(mm, 1, 12) == Some(d.month);
    assert DayField(dd) == Some(d.day);
  }

  lemma Nest(a: string, b: string, c: string, d: string, e: string, f: string)
    ensures a + b + c + d + e + f == a + b + (c + d + (e + f))
  {
  }

  /** Formatting then parsing a date gives it back. */
  lemma FormatDateRoundTrip(d: Date, sep: char)
    requires ValidDate(d) && 1000 <= d.year && !IsDigit(sep)
    ensures ParseDate(FormatDate(d, sep), sep) == Some(d)
  {
    FormatDatePrefix(d, sep, "");
    assert FormatDate(d, sep) + "" == FormatDate(d, sep);
  }

  const MonthNames: seq<string> := [
    "january", "february", "march", "april", "may", "june",
    "july", "august", "september", "october", "november", "december"
  ]

  /** The position of `w` in `names`, when it is there. */
  function Lookup(names: seq<string>, w: string): (r: Option<nat>)
    ensures r.None? ==> w !in names
    ensures r.Some? ==> r.value < |names| && names[r.value] == w
  {
    if names == [] then None
    else if names[0] == w then Some(0)
    else match Lookup(names[1..], w)
      case None => None
      case Some(k) => Some(k + 1)
  }

  /** `%B`: a full month name in any letter case. */
  function MonthNumber(name: string): (r: Option<nat>)
    ensures r.Some? ==> 1 <= r.value <= 12 && MonthNames[r.value - 1] == Lower(name)
  {
    match Lookup(MonthNames, Lower(name))
    case None => None
    case Some(k) => Some(k + 1)
  }

  /** The first whitespace position. */
  function FirstSpace(s: string): (r: Option<nat>)
    ensures r.None? ==> forall k :: 0 <= k < |s| ==> !IsSpace(s[k])
    ensures r.Some? ==> r.value < |s| && IsSpace(s[r.value]) && forall k :: 0 <= k < r.value ==> !IsSpace(s[k])
  {
    if s == [] then None
    else if IsSpace(s[0]) then Some(0)
    else match FirstSpace(s[1..])
      case None => None
      case Some(k) => Some(k + 1)
  }

  /**
   * `strptime(s, "%B %d")`: month name, whitespace, day. With no year in the
   * format the day is checked against the default year 1900, which is not a
   * leap year.
   */
  function ParseMonthDay(s: string): (r: Option<(nat, nat)>)
    ensures r.Some? ==> 1 <= r.value.0 <= 12 && 1 <= r.value.1 <= DaysInMonth(1900, r.value.0)
  {
    match FirstSpace(s)
    case None => None
    case Some(i) =>
      match (MonthNumber(s[..i]), NumberField(StripLeft(s[i..]), 1, 31))
      case (Some(m), Some(d)) => if d <= DaysInMonth(1900, m) then Some((m, d)) else None
      case _ => None
  }

  /** A month name and day becomes `MM/DD/<year>`; text with `/` or `-` is left as it is. */
  function SpelledToNumeric(s: string, year: nat): string {
    if '/' !in s && '-' !in s then
      match ParseMonthDay(s)
      case Some((m, d)) => Pad2(m) + "/" + Pad2(d) + "/" + NatToString(year)
      case None => s
    else s
  }

  /**
   * The text `check_calendar` hands to `strptime(..., "%m/%d/%Y")`: after the
   * month-name step, dashes become slashes and a lone `MM/DD` gets `/<year>`.
   */
  function CompleteDate(s: string, year: nat): string {
    var slashed := ReplaceChar(SpelledToNumeric(s, year), '-', '/');
    if Count(slashed, '/') == 1 then slashed + "/" + NatToString(year) else slashed
  }

  /** The date `check_calendar` looks at, or `None` on its date-error path. */
  function ResolveDate(s: string, year: nat): (r: Option<Date>)
    ensures r.Some? ==> ValidDate(r.value)
  {
    ParseDate(CompleteDate(s, year), '/')
  }

  /** The day after `d`: `d + timedelta(days=1)`, or `None` past year 9999. */
  function NextDay(d: Date): (r: Option<Date>)
    requires ValidDate(d)
    ensures r.Some? ==> ValidDate(r.value)
    ensures r.None? <==> d == Date(9999, 12, 31)
  {
    if d.day < DaysInMonth(d.year, d.month) then Some(Date(d.year, d.month, d.day + 1))
    else if d.month < 12 then Some(Date(d.year, d.month + 1, 1))
    else if d.year < 9999 then Some(Date(d.year + 1, 1, 1))
    else None
  }

  function YearLength(y: nat): nat {
    if IsLeapYear(y) then 366 else 365
  }

  /** Days in the years before `y`, counting from year 1. */
  function DaysBeforeYear(y: nat): nat {
    if y <= 1 then 0 else DaysBeforeYear(y - 1) + YearLength(y - 1)
  }

  /** Days in the months of year `y` before month `m`. */
  function DaysBeforeMonth(y: nat, m: nat): nat
    requires 1 <= m <= 12
  {
    if m == 1 then 0 else DaysBeforeMonth(y, m - 1) + DaysInMonth(y, m - 1)
  }

  /** The day's position counting 0001-01-01 as 1: `date.toordinal()`. */
  function Ordinal(d: Date): nat
    requires ValidDate(d)
  {
    DaysBeforeYear(d.year) + DaysBeforeMonth(d.year, d.month) + d.day
  }

  lemma MonthsFillYear(y: nat)
    ensures DaysBeforeMonth(y, 12) + DaysInMonth(y, 12) == YearLength(y)
  {
    var feb := DaysInMonth(y, 2);
    assert DaysBeforeMonth(y, 2) == 31;
    assert DaysBeforeMonth(y, 3) == 31 + feb;
    assert DaysBeforeMonth(y, 4) == 62 + feb;
    assert DaysBeforeMonth(y, 5) == 92 + feb;
    assert DaysBeforeMonth(y, 6) == 123 + feb;
    assert DaysBeforeMonth(y, 7) == 153 + feb;
    assert DaysBeforeMonth(y, 8) == 184 + feb;
    assert DaysBeforeMonth(y, 9) == 215 + feb;
    assert DaysBeforeMonth(y, 10) == 245 + feb;
    assert DaysBeforeMonth(y, 11) == 276 + feb;
    assert DaysBeforeMonth(y, 12) == 306 + feb;
  }

  /** The next day is the day whose ordinal is one more. */
  lemma NextDayOrdinal(d: Date)
    requires ValidDate(d) && d != Date(9999, 12, 31)
    ensures NextDay(d).Some? && Ordinal(NextDay(d).value) == Ordinal(d) + 1
  {
    if d.day < DaysInMonth(d.year, d.month) {
      assert NextDay(d) == Some(Date(d.year, d.month, d.day + 1));
    } else if d.month < 12 {
      assert NextDay(d) == Some(Date(d.year, d.month + 1, 1));
      assert DaysBeforeMonth(d.year, d.month + 1) == DaysBeforeMonth(d.year, d.month) + DaysInMonth(d.year, d.month);
    } else {
      assert NextDay(d) == Some(Date(d.year + 1, 1, 1));
      assert DaysBeforeYear(d.year + 1) == DaysBeforeYear(d.year) + YearLength(d.year);
      MonthsFillYear(d.year);
    }
  }

  /** Distinct valid dates have distinct ordinals. */
  lemma {:induction false} OrdinalInjective(a: Date, b: Date)
    requires ValidDate(a) && ValidDate(b) && Ordinal(a) == Ordinal(b)
    ensures a == b
  {
    if a.year < b.year {
      YearOrdinalsBelow(a, b.year);
      assert false;
    } else if b.year < a.year {
      YearOrdinalsBelow(b, a.year);
      assert false;
    } else if a.month < b.month {
      MonthOrdinalsBelow(a.year, a.month, b.month);
      assert false;
    } else if b.month < a.month {
      MonthOrdinalsBelow(a.year, b.month, a.month);
      assert false;
    }
  }

  /** Every day of a year comes before every day of a later year. */
  lemma {:induction false} YearOrdinalsBelow(d: Date, y: nat)
    requires ValidDate(d) && d.year < y
    ensures Ordinal(d) <= DaysBeforeYear(y)
  {
    MonthsUpTo(d.year, d.month);
    if y > d.year + 1 {
      YearsIncrease(d.year + 1, y);
    }
  }

  lemma {:induction false} MonthsUpTo(y: nat, m: nat)
    requires 1 <= m <= 12
    ensures DaysBeforeMonth(y, m) + DaysInMonth(y, m) <= YearLength(y)
    decreases 12 - m
  {
    if m < 12 {
      MonthsUpTo(y, m + 1);
    } else {
      MonthsFillYear(y);
    }
  }

  lemma {:induction false} YearsIncrease(a: nat, b: nat)
    requires a <= b
    ensures DaysBeforeYear(a) <= DaysBeforeYear(b)
  {
    if a < b {
      YearsIncrease(a, b - 1);
    }
  }

  /** Every day of a month comes before every day of a later month of the same year. */
  lemma {:induction false} MonthOrdinalsBelow(y: nat, m: nat, n: nat)
    requires 1 <= m < n <= 12
    ensures DaysBeforeMonth(y, m) + DaysInMonth(y, m) <= DaysBeforeMonth(y, n)
  {
    if n > m + 1 {
      MonthOrdinalsBelow(y, m, n - 1);
    }
  }

  /** `-` and `/` separate the same fields: a dashed date is read as the slashed one. */
  lemma DashIsSlash(s: string, year: nat)
    requires '/' in s || '-' in s
    ensures ResolveDate(s, year) == ResolveDate(ReplaceChar(s, '-', '/'), year)
  {
    var t := ReplaceChar(s, '-', '/');
    var k :| 0 <= k < |s| && (s[k] == '/' || s[k] == '-');
    assert t[k] == '/';
    ReplaceCharIdempotent(s, '-', '/');
  }

  /** Digits and slashes hold no dash, so the dash step leaves them alone. */
  lemma NoDashUnchanged(s: string)
    requires '-' !in s
    ensures ReplaceChar(s, '-', '/') == s
  {
  }

  lemma {:induction false} SlashCount(d: Date)
    requires ValidDate(d)
    ensures Count(FormatDate(d, '/'), '/') == 2
    ensures '-' !in FormatDate(d, '/')
  {
    var mm, dd, ys := Pad2(d.month), Pad2(d.day), NatToString(d.year);
    SeparatorNotInDigits(mm, '/');
    SeparatorNotInDigits(dd, '/');
    SeparatorNotInDigits(ys, '/');
    SeparatorNotInDigits(mm, '-');
    SeparatorNotInDigits(dd, '-');
    SeparatorNotInDigits(ys, '-');
    CountAbsent(mm, '/');
    CountAbsent(dd, '/');
    CountAbsent(ys, '/');
    CountConcat(mm, "/", '/');
    CountConcat(mm + "/", dd, '/');
    CountConcat(mm + "/" + dd, "/", '/');
    CountConcat(mm + "/" + dd + "/", ys, '/');
  }

  /** A full `MM/DD/YYYY` date is taken as it is, whatever the current year. */
  lemma FullDateKept(d: Date, year: nat)
    requires ValidDate(d) && 1000 <= d.year
    ensures ResolveDate(FormatDate(d, '/'), year) == Some(d)
  {
    var s := FormatDate(d, '/');
    SlashCount(d);
    assert SpelledToNumeric(s, year) == s by {
      assert s[2] == '/';
    }
    NoDashUnchanged(s);
    assert CompleteDate(s, year) == s;
    FormatDateRoundTrip(d, '/');
  }

  lemma DashedToSlashed(d: Date)
    requires ValidDate(d)
    ensures ReplaceChar(FormatDate(d, '-'), '-', '/') == FormatDate(d, '/')
  {
    var mm, dd, ys := Pad2(d.month), Pad2(d.day), NatToString(d.year);
    SeparatorNotInDigits(mm, '-');
    SeparatorNotInDigits(dd, '-');
    SeparatorNotInDigits(ys, '-');
    var a, b := FormatDate(d, '-'), FormatDate(d, '/');
    assert |a| == |b|;
    forall k | 0 <= k < |a| ensures ReplaceChar(a, '-', '/')[k] == b[k] {
      if k == 2 || k == 5 {
      } else if k < 2 {
        assert a[k] == mm[k] == b[k];
      } else if k < 5 {
        assert a[k] == dd[k - 3] == b[k];
      } else {
        assert a[k] == ys[k - 6] == b[k];
      }
    }
  }

  /** An `MM-DD-YYYY` date is the same date as `MM/DD/YYYY`. */
  lemma DashedDateKept(d: Date, year: nat)
    requires ValidDate(d) && 1000 <= d.year
    ensures ResolveDate(FormatDate(d, '-'), year) == Some(d)
  {
    assert FormatDate(d, '-')[2] == '-';
    DashIsSlash(FormatDate(d, '-'), year);
    DashedToSlashed(d);
    FullDateKept(d, year);
  }

  /** `MM/DD` is a date of the current year. */
  lemma MonthDayGetsYear(month: nat, day: nat, year: nat)
    requires ValidDate(Date(year, month, day)) && 1000 <= year
    ensures ResolveDate(Pad2(month) + "/" + Pad2(day), year) == Some(Date(year, month, day))
  {
    var d := Date(year, month, day);
    var s := Pad2(month) + "/" + Pad2(day);
    SlashCount(d);
    var full := FormatDate(d, '/');
    assert full == s + "/" + NatToString(year);
    assert SpelledToNumeric(s, year) == s by {
      assert s[2] == '/';
    }
    assert '-' !in s by {
      assert forall k :: 0 <= k < |s| ==> s[k] == full[k];
    }
    NoDashUnchanged(s);
    SeparatorNotInDigits(Pad2(month), '/');
    SeparatorNotInDigits(Pad2(day), '/');
    CountAbsent(Pad2(month), '/');
    CountAbsent(Pad2(day), '/');
    CountConcat(Pad2(month), "/", '/');
    CountConcat(Pad2(month) + "/", Pad2(day), '/');
    assert Count(s, '/') == 1;
    assert CompleteDate(s, year) == full;
    assert ResolveDate(s, year) == ParseDate(full, '/');
    FormatDateRoundTrip(d, '/');
  }

  /** A month-day text is a date of the current year. */
  lemma NamedDateGetsYear(s: string, year: nat)
    requires '/' !in s && '-' !in s && ParseMonthDay(s).Some?
    requires 1000 <= year <= 9999
    ensures var (m, d) := ParseMonthDay(s).value;
      ResolveDate(s, year) == Some(Date(year, m, d))
  {
    var (m, d) := ParseMonthDay(s).value;
    var date := Date(year, m, d);
    assert ValidDate(date);
    var full := FormatDate(date, '/');
    assert SpelledToNumeric(s, year) == full;
    assert CompleteDate(s, year) == ReplaceChar(full, '-', '/') by {
      SlashCount(date);
      NoDashUnchanged(full);
    }
    FullDateKept(date, year);
  }

  /** Only lower-case ASCII letters. */
  predicate LowerWord(s: string) {
    s == [] || ('a' <= s[0] <= 'z' && LowerWord(s[1..]))
  }

  lemma {:induction false} LowerWordChars(s: string)
    requires LowerWord(s)
    ensures forall k :: 0 <= k < |s| ==> 'a' <= s[k] <= 'z'
  {
    if s != [] {
      LowerWordChars(s[1..]);
      assert forall k :: 1 <= k < |s| ==> s[k] == s[1..][k - 1];
    }
  }

  /** Month names are spelled in lower-case letters only. */
  lemma MonthNameLetters(m: nat, w: string)
    requires 1 <= m <= 12 && w == MonthNames[m - 1]
    ensures forall k :: 0 <= k < |w| ==> 'a' <= w[k] <= 'z'
  {
    assert LowerWord(w) by {
      if m <= 2 {
        PairNameWord1(m);
      } else if m <= 4 {
        PairNameWord2(m);
      } else if m <= 6 {
        PairNameWord3(m);
      } else if m <= 8 {
        PairNameWord4(m);
      } else if m <= 10 {
        PairNameWord5(m);
      } else {
        PairNameWord6(m);
      }
    }
    LowerWordChars(w);
  }

  // Two month names per lemma keeps each literal unfolding small.
  lemma PairNameWord1(m: nat) requires 1 <= m <= 2 ensures LowerWord(MonthNames[m - 1]) {}
  lemma PairNameWord2(m: nat) requires 3 <= m <= 4 ensures LowerWord(MonthNames[m - 1]) {}
  lemma PairNameWord3(m: nat) requires 5 <= m <= 6 ensures LowerWord(MonthNames[m - 1]) {}
  lemma PairNameWord4(m: nat) requires 7 <= m <= 8 ensures LowerWord(MonthNames[m - 1]) {}
  lemma PairNameWord5(m: nat) requires 9 <= m <= 10 ensures LowerWord(MonthNames[m - 1]) {}
  lemma PairNameWord6(m: nat) requires 11 <= m <= 12 ensures LowerWord(MonthNames[m - 1]) {}

  lemma {:induction false} FirstSpaceAfter(a: string, b: string)
    requires forall k :: 0 <= k < |a| ==> !IsSpace(a[k])
    requires b != [] && IsSpace(b[0])
    ensures FirstSpace(a + b) == Some(|a|)
  {
    if a != [] {
      FirstSpaceAfter(a[1..], b);
      assert (a + b)[1..] == a[1..] + b;
    } else {
      assert a + b == b;
    }
  }

  /** A name whose lower-case form is all letters holds no whitespace and no date separator. */
  lemma NameLetters(name: string)
    requires forall k :: 0 <= k < |name| ==> 'a' <= Lower(name)[k] <= 'z'
    ensures forall k :: 0 <= k < |name| ==> !IsSpace(name[k]) && name[k] != '/' && name[k] != '-'
  {
    var w := Lower(name);
    forall k | 0 <= k < |name| ensures !IsSpace(name[k]) && name[k] != '/' && name[k] != '-' {
      assert w[k] == LowerChar(name[k]);
      LetterIsNoSeparator(name[k]);
    }
  }

  lemma LetterIsNoSeparator(c: char)
    requires 'a' <= LowerChar(c) <= 'z'
    ensures !IsSpace(c) && c != '/' && c != '-'
  {
    assert 'A' <= c <= 'Z' || 'a' <= c <= 'z';
  }

  /** A month name in any case, a space and the day number are read as that month and day. */
  lemma MonthNameParses(name: string, m: nat, day: nat)
    requires MonthNumber(name) == Some(m)
    requires 1 <= day <= DaysInMonth(1900, m)
    ensures ParseMonthDay(name + " " + NatToString(day)) == Some((m, day))
  {
    var ds := NatToString(day);
    var s := name + " " + ds;
    MonthNameSplit(name, m, " " + ds);
    DayAfterBlank(day);
    assert s == name + (" " + ds);
    assert FirstSpace(s) == Some(|name|);
    assert MonthNumber(s[..|name|]) == Some(m);
    assert NumberField(StripLeft(s[|name|..]), 1, 31) == Some(day);
  }

  /** A month name holds no whitespace and no date separator. */
  lemma MonthNameChars(name: string, m: nat)
    requires MonthNumber(name) == Some(m)
    ensures forall k :: 0 <= k < |name| ==> !IsSpace(name[k]) && name[k] != '/' && name[k] != '-'
  {
    MonthNameLetters(m, Lower(name));
    NameLetters(name);
  }

  /** A month name is cut off at the blank that follows it. */
  lemma MonthNameSplit(name: string, m: nat, tail: string)
    requires MonthNumber(name) == Some(m)
    requires tail != [] && IsSpace(tail[0])
    ensures FirstSpace(name + tail) == Some(|name|)
    ensures (name + tail)[..|name|] == name && (name + tail)[|name|..] == tail
  {
    MonthNameChars(name, m);
    FirstSpaceAfter(name, tail);
  }

  /** A blank and a day number read as that day. */
  lemma DayAfterBlank(day: nat)
    requires 1 <= day <= 31
    ensures NumberField(StripLeft(" " + NatToString(day)), 1, 31) == Some(day)
  {
    var ds := NatToString(day);
    NatToStringValue(day);
    assert StripLeft(" " + ds) == ds by {
      assert (" " + ds)[1..] == ds;
      assert !IsSpace(ds[0]);
    }
  }

  /** "Month day" is a date of the current year, on every day it names in a year that is not leap. */
  lemma SpelledDateGetsYear(name: string, m: nat, day: nat, year: nat)
    requires MonthNumber(name) == Some(m)
    requires 1 <= day <= DaysInMonth(1900, m)
    requires 1000 <= year <= 9999
    ensures ResolveDate(name + " " + NatToString(day), year) == Some(Date(year, m, day))
  {
    var s := name + " " + NatToString(day);
    MonthNameParses(name, m, day);
    MonthNameChars(name, m);
    SeparatorNotInDigits(NatToString(day), '/');
    SeparatorNotInDigits(NatToString(day), '-');
    assert forall k :: 0 <= k < |s| ==> s[k] != '/' && s[k] != '-' by {
      forall k | 0 <= k < |s| ensures s[k] != '/' && s[k] != '-' {
        if k < |name| {
          assert s[k] == name[k];
        } else if k > |name| {
          assert s[k] == NatToString(day)[k - |name| - 1];
        }
      }
    }
    NamedDateGetsYear(s, year);
  }

  /** Text with no separator that is not a month and a day takes the date-error path. */
  lemma UnspelledRefused(s: string, year: nat)
    requires '/' !in s && '-' !in s && ParseMonthDay(s).None?
    ensures ResolveDate(s, year) == None
  {
    NoDashUnchanged(s);
    CountAbsent(s, '/');
    assert CompleteDate(s, year) == s;
  }

  /** A full date whose month field is not 1..12 takes the date-error path. */
  lemma BadMonthRefused(s: string, i: nat, year: nat)
    requires '-' !in s && Count(s, '/') == 2
    requires Find(s, '/') == Some(i) && NumberField(s[..i], 1, 12).None?
    ensures ResolveDate(s, year) == None
  {
    assert SpelledToNumeric(s, year) == s;
    NoDashUnchanged(s);
    assert CompleteDate(s, year) == s;
  }

  lemma BadDateNoDash(s: string)
    requires s == "13/40/2025"
    ensures '-' !in s
  {
    assert forall k :: 0 <= k < |s| ==> s[k] in {'0', '1', '2', '3', '4', '5', '/'};
  }

  lemma BadDateSlashes()
    ensures Count("13/40/2025", '/') == 2
  {
  }

  lemma BadDateMonth()
    ensures Find("13/40/2025", '/') == Some(2) && NumberField("13/40/2025"[..2], 1, 12).None?
  {
    assert "13/40/2025"[..2] == "13";
    assert DigitsValue("13") == 13;
  }

  /** "13/40/2025" names no month 13: the date-error path. */
  lemma ExampleBadDate(year: nat)
    ensures ResolveDate("13/40/2025", year) == None
  {
    BadDateNoDash("13/40/2025");
    BadDateSlashes();
    BadDateMonth();
    BadMonthRefused("13/40/2025", 2, year);
  }

  lemma AprilIsFourth()
    ensures MonthNumber("April") == Some(4)
  {
    assert Lower("April") == "april";
    assert Lookup(MonthNames, "april") == Some(3);
  }

  lemma AprilEightText()
    ensures "April" + " " + NatToString(8) == "April 8"
  {
  }

  /** "April 8" is the 8th of April of the current year. */
  lemma ExampleSpelledDate()
    ensures ResolveDate("April 8", 2025) == Some(Date(2025, 4, 8))
  {
    AprilIsFourth();
    AprilEightText();
    SpelledDateGetsYear("April", 4, 8, 2025);
  }

  lemma MonthDayText(month: nat, day: nat, s: string)
    requires (month, day, s) == (4, 8, "04/08") || (month, day, s) == (2, 29, "02/29")
    ensures Pad2(month) + "/" + Pad2(day) == s
  {
  }

  /** "04/08" is the 8th of April of the current year. */
  lemma ExampleMonthDay()
    ensures ResolveDate("04/08", 2025) == Some(Date(2025, 4, 8))
  {
    MonthDayText(4, 8, "04/08");
    MonthDayGetsYear(4, 8, 2025);
  }

  lemma FebruaryIsSecond()
    ensures MonthNumber("February") == Some(2)
  {
    assert Lower("February") == "february";
    assert Lookup(MonthNames, "february") == Some(1);
  }

  lemma LeapDaySpace(s: string)
    requires s == "February 29"
    ensures FirstSpace(s) == Some(8)
  {
    var name, tail := s[..8], s[8..];
    assert forall k :: 0 <= k < |name| ==> name[k] in {'F', 'e', 'b', 'r', 'u', 'a', 'y'};
    assert IsSpace(tail[0]);
    FirstSpaceAfter(name, tail);
    assert name + tail == s;
  }

  /** A day past the end of the month, in 1900, is refused by the month-name reading. */
  lemma SpelledDayTooLate(s: string, i: nat, m: nat, d: nat)
    requires FirstSpace(s) == Some(i) && MonthNumber(s[..i]) == Some(m)
    requires NumberField(StripLeft(s[i..]), 1, 31) == Some(d) && d > DaysInMonth(1900, m)
    ensures ParseMonthDay(s) == None
  {
  }

  lemma LeapDayFields(s: string)
    requires s == "February 29"
    ensures MonthNumber(s[..8]) == Some(2)
    ensures NumberField(StripLeft(s[8..]), 1, 31) == Some(29)
  {
    LeapDayMonth(s[..8]);
    LeapDayNumber(s[8..]);
  }

  lemma LeapDayMonth(name: string)
    requires name == "February"
    ensures MonthNumber(name) == Some(2)
  {
    FebruaryIsSecond();
  }

  lemma LeapDayNumber(tail: string)
    requires tail == " 29"
    ensures NumberField(StripLeft(tail), 1, 31) == Some(29)
  {
    var ds := tail[1..];
    assert IsSpace(tail[0]) && !IsSpace(ds[0]);
    assert ds == "29" && AllDigits(ds);
    StripLeftAfterBlanks(tail[..1], ds);
    assert tail == tail[..1] + ds;
    TwoDigitsValue(ds);
  }

  lemma LeapDayNoSeparator(s: string)
    requires s == "February 29"
    ensures '/' !in s && '-' !in s
  {
    assert forall k :: 0 <= k < |s| ==> s[k] in {'F', 'e', 'b', 'r', 'u', 'a', 'y', ' ', '2', '9'};
  }

  /** The month-name reading is checked against 1900, so a spelled leap day is refused. */
  lemma SpelledLeapDayRefused(s: string)
    requires s == "February 29"
    ensures ParseMonthDay(s) == None
  {
    LeapDaySpace(s);
    LeapDayFields(s);
    SpelledDayTooLate(s, 8, 2, 29);
  }

  /**
   * In a leap year "02/29" is a date while "February 29" takes the date-error
   * path: the spelled form never reaches the current year.
   */
  lemma ExampleLeapDay(numeric: string, spelled: string)
    requires numeric == "02/29" && spelled == "February 29"
    ensures ResolveDate(numeric, 2028) == Some(Date(2028, 2, 29))
    ensures ResolveDate(spelled, 2028) == None
  {
    MonthDayText(2, 29, numeric);
    MonthDayGetsYear(2, 29, 2028);
    SpelledLeapDayRefused(spelled);
    LeapDayNoSeparator(spelled);
    UnspelledRefused(spelled, 2028);
  }
}
