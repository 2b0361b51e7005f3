/**
 * Times of day: `normalize_time` (app_cursor.py:242-268) and the time fields
 * of `strptime`/`strftime` it relies on.
 */
module Clock {
  import opened Wrappers
  import opened Text

  type Hour = h: nat | h < 24
  type Minute = m: nat | m < 60

  /**
   * A numeric `strptime` field: one or two ASCII digits whose value lies in
   * `lo..hi` (`%H` 0..23, `%I` 1..12, `%M` 0..59, `%m` 1..12).
   */
  function NumberField(s: string, lo: nat, hi: nat): (r: Option<nat>)
    ensures r.Some? ==> lo <= r.value <= hi
  {
    if 1 <= |s| <= 2 && AllDigits(s) && lo <= DigitsValue(s) <= hi then Some(DigitsValue(s)) else None
  }

  /** `strftime("%H:%M")`. */
  function Canonical(h: Hour, m: Minute): string {
    Pad2(h) + ":" + Pad2(m)
  }

  /** Two digits, a colon and two digits, naming a time of day. */
  predicate IsCanonicalTime(s: string) {
    && |s| == 5 && s[2] == ':' && AllDigits(s[..2]) && AllDigits(s[3..])
    && DigitsValue(s[..2]) < 24 && DigitsValue(s[3..]) < 60
  }

  /** The hour a 12-hour clock shows, and whether it is after noon, read on a 24-hour clock. */
  function To24(h12: nat, pm: bool): Hour
    requires 1 <= h12 <= 12
  {
    if pm then (if h12 == 12 then 12 else h12 + 12) else (if h12 == 12 then 0 else h12)
  }

  /** `strptime(t, "%H:%M")`. */
  function Parse24(t: string): Option<(Hour, Minute)> {
    match Find(t, ':')
    case None => None
    case Some(i) =>
      match (NumberField(t[..i], 0, 23), NumberField(t[i + 1..], 0, 59))
      case (Some(h), Some(m)) => Some((h, m))
      case _ => None
  }

  /** `strptime(t, "%I:%M%p")` on text that is already lower case. */
  function Parse12(t: string): Option<(Hour, Minute)> {
    match Find(t, ':')
    case None => None
    case Some(i) => Fields12(t[..i], t[i + 1..])
  }

  /** The hour text before the colon and the `%M%p` text after it. */
  function Fields12(hourText: string, rest: string): Option<(Hour, Minute)> {
    if |rest| < 2 then None
    else
      var suffix := rest[|rest| - 2..];
      match (NumberField(hourText, 1, 12), NumberField(rest[..|rest| - 2], 0, 59))
      case (Some(h), Some(m)) =>
        if suffix == "am" then Some((To24(h, false), m))
        else if suffix == "pm" then Some((To24(h, true), m))
        else None
      case _ => None
  }

  /** The first step of `normalize_time`: lower-case, then drop every space. */
  function Squeeze(text: string): string {
    Without(Lower(text), ' ')
  }

  /** Without a colon, `:00` goes in before the am/pm marker. */
  function AddMinutes(t: string): string {
    Replace(Replace(t, "am", ":00am"), "pm", ":00pm")
  }

  /**
   * The rest of `normalize_time` on squeezed text: with a colon and no am/pm
   * read it as 24-hour, otherwise add `:00` when there is no colon and read
   * it as 12-hour.
   */
  function ReadClock(t: string): Option<(Hour, Minute)> {
    if ':' in t && !Contains(t, "am") && !Contains(t, "pm") then Parse24(t)
    else Parse12(if ':' in t then t else AddMinutes(t))
  }

  /** The clock reading behind `normalize_time`. */
  function NormalizeClock(text: string): Option<(Hour, Minute)> {
    ReadClock(Squeeze(text))
  }

  /** `normalize_time(time_str)`: a canonical `HH:MM`, or `None`. */
  function NormalizeTime(text: string): (r: Option<string>)
    ensures r.Some? ==> IsCanonicalTime(r.value)
  {
    match NormalizeClock(text)
    case None => None
    case Some((h, m)) =>
      CanonicalShape(h, m);
      Some(Canonical(h, m))
  }

  /** `strftime("%I:%M %p").lstrip("0")`. */
  function Display12(h: Hour, m: Minute): string {
    var h12 := if h % 12 == 0 then 12 else h % 12;
    StripLeading(Pad2(h12) + ":" + Pad2(m) + " " + (if h < 12 then "AM" else "PM"), '0')
  }

  /**
   * `strptime` of the tail `"\s+%I:%M\s+%p"` of a format such as
   * `"%m/%d/%Y %I:%M %p"`; `%p` ignores case.
   */
  function ParseSpacedClock12(t: string): Option<(Hour, Minute)> {
    if t == [] || !IsSpace(t[0]) then None
    else
      var u := StripLeft(t);
      match Find(u, ':')
      case None => None
      case Some(i) => SpacedFields(u[..i], u[i + 1..])
  }

  /** The hour text before the colon and the `%M\s+%p` text after it. */
  function SpacedFields(hourText: string, rest: string): Option<(Hour, Minute)> {
    if |rest| < 2 then None
    else
      var suffix := Lower(rest[|rest| - 2..]);
      var padded := rest[..|rest| - 2];
      var minute := StripRight(padded);
      if minute == padded then None
      else
        match (NumberField(hourText, 1, 12), NumberField(minute, 0, 59))
        case (Some(h), Some(m)) =>
          if suffix == "am" then Some((To24(h, false), m))
          else if suffix == "pm" then Some((To24(h, true), m))
          else None
        case _ => None
  }


  lemma CanonicalShape(h: Hour, m: Minute)
    ensures Canonical(h, m)[..2] == Pad2(h) && Canonical(h, m)[3..] == Pad2(m)
    ensures IsCanonicalTime(Canonical(h, m))
  {
    var s := Canonical(h, m);
    assert s[..2] == Pad2(h);
    assert s[3..] == Pad2(m);
  }

  /** Different readings print differently, so comparing canonical strings compares readings. */
  lemma CanonicalInjective(h: Hour, m: Minute, h': Hour, m': Minute)
    requires Canonical(h, m) == Canonical(h', m')
    ensures h == h' && m == m'
  {
    CanonicalShape(h, m);
    CanonicalShape(h', m');
  }

  lemma {:induction false} LowerOfLowerCase(s: string)
    requires forall i :: 0 <= i < |s| ==> !('A' <= s[i] <= 'Z')
    ensures Lower(s) == s
  {
  }

  /** Text without `c` cannot contain a substring that starts with `c`. */
  lemma NotContains(s: string, sub: string)
    requires |sub| > 0 && sub[0] !in s
    ensures !Contains(s, sub)
  {
    if Contains(s, sub) {
      ContainsFirstChar(s, sub);
    }
  }

  lemma CanonicalChars(h: Hour, m: Minute)
    ensures forall i :: 0 <= i < 5 ==> Canonical(h, m)[i] == ':' || IsDigit(Canonical(h, m)[i])
    ensures Canonical(h, m)[2] == ':' && |Canonical(h, m)| == 5
  {
    var s := Canonical(h, m);
    CanonicalShape(h, m);
    forall i | 0 <= i < 5 ensures s[i] == ':' || IsDigit(s[i]) {
      if i < 2 {
        assert s[i] == s[..2][i];
      } else if i > 2 {
        assert s[i] == s[3..][i - 3];
      }
    }
  }

  lemma CanonicalParses24(h: Hour, m: Minute)
    ensures Parse24(Canonical(h, m)) == Some((h, m))
  {
    var s := Canonical(h, m);
    CanonicalShape(h, m);
    CanonicalChars(h, m);
    assert Find(s, ':') == Some(2);
    assert s[2 + 1..] == s[3..];
  }

  /** A canonical time reads back as itself through the 24-hour branch. */
  lemma CanonicalIsFixedPoint(h: Hour, m: Minute)
    ensures NormalizeClock(Canonical(h, m)) == Some((h, m))
    ensures NormalizeTime(Canonical(h, m)) == Some(Canonical(h, m))
  {
    var s := Canonical(h, m);
    CanonicalChars(h, m);
    assert Plain(s);
    Untouched(s);
    assert 'a' !in s && 'p' !in s;
    NotContains(s, "am");
    NotContains(s, "pm");
    CanonicalParses24(h, m);
  }

  /** `normalize_time` is idempotent on everything it accepts. */
  lemma NormalizeTimeIdempotent(text: string)
    requires NormalizeTime(text).Some?
    ensures NormalizeTime(NormalizeTime(text).value) == NormalizeTime(text)
  {
    var c := NormalizeClock(text);
    CanonicalIsFixedPoint(c.value.0, c.value.1);
  }

  lemma {:induction false} ReplaceSuffix(d: string, pat: string, rep: string)
    requires |pat| > 0 && pat[0] !in d
    ensures Replace(d + pat, pat, rep) == d + rep
  {
    var s := d + pat;
    if d == [] {
      assert s == pat && s[..|pat|] == pat && s[|pat|..] == [];
      assert Replace(s, pat, rep) == rep + Replace([], pat, rep);
    } else {
      assert s[..|pat|][0] == d[0] != pat[0];
      assert s[..|pat|] != pat;
      assert s[1..] == d[1..] + pat;
      ReplaceSuffix(d[1..], pat, rep);
      assert Replace(s, pat, rep) == [s[0]] + Replace(s[1..], pat, rep);
      assert [d[0]] + (d[1..] + rep) == d + rep;
    }
  }

  function Meridiem(pm: bool): string {
    if pm then "pm" else "am"
  }

  lemma DigitsHaveNoLetters(d: string)
    requires AllDigits(d)
    ensures 'a' !in d && 'p' !in d && ':' !in d && ' ' !in d
    ensures forall i :: 0 <= i < |d| ==> !('A' <= d[i] <= 'Z')
  {
  }

  /** No upper-case letter and no blank. */
  predicate Plain(t: string) {
    forall i :: 0 <= i < |t| ==> !('A' <= t[i] <= 'Z') && t[i] != ' '
  }

  /** Text with no upper-case letter and no space is left alone by the first step of `normalize_time`. */
  lemma Untouched(t: string)
    requires Plain(t)
    ensures Squeeze(t) == t
  {
    LowerOfLowerCase(t);
    WithoutAbsent(t, ' ');
  }

  /** The digits before the first colon are the hour text. */
  lemma Parse12Prefix(d: string, rest: string)
    requires AllDigits(d)
    ensures Parse12(d + ":" + rest) == Fields12(d, rest)
  {
    var u := d + ":" + rest;
    DigitsHaveNoLetters(d);
    FindAfter(d, ':', rest);
    assert u[..|d|] == d && u[|d| + 1..] == rest;
  }

  lemma Fields12Of(d: string, p: string, pm: bool)
    requires 1 <= |d| <= 2 && AllDigits(d) && 1 <= DigitsValue(d) <= 12
    requires 1 <= |p| <= 2 && AllDigits(p) && DigitsValue(p) < 60
    ensures Fields12(d, p + Meridiem(pm)) == Some((To24(DigitsValue(d), pm), DigitsValue(p)))
  {
    var rest := p + Meridiem(pm);
    assert rest[..|rest| - 2] == p;
    assert rest[|rest| - 2..] == Meridiem(pm);
    assert NumberField(d, 1, 12) == Some(DigitsValue(d));
    assert NumberField(p, 0, 59) == Some(DigitsValue(p));
  }

  lemma Parse12Of(d: string, p: string, pm: bool)
    requires 1 <= |d| <= 2 && AllDigits(d) && 1 <= DigitsValue(d) <= 12
    requires 1 <= |p| <= 2 && AllDigits(p) && DigitsValue(p) < 60
    ensures Parse12(d + ":" + p + Meridiem(pm)) == Some((To24(DigitsValue(d), pm), DigitsValue(p)))
  {
    Parse12Prefix(d, p + Meridiem(pm));
    Fields12Of(d, p, pm);
    assert d + ":" + p + Meridiem(pm) == d + ":" + (p + Meridiem(pm));
  }

  lemma InsertMinutes(d: string, pm: bool)
    requires AllDigits(d)
    ensures AddMinutes(d + Meridiem(pm)) == d + ":" + "00" + Meridiem(pm)
  {
    DigitsHaveNoLetters(d);
    var t := d + Meridiem(pm);
    var u := d + ":" + "00" + Meridiem(pm);
    if pm {
      assert 'a' !in t;
      ReplaceAbsent(t, "am", ":00am");
      ReplaceSuffix(d, "pm", ":00pm");
      assert d + ":00pm" == u;
    } else {
      ReplaceSuffix(d, "am", ":00am");
      assert d + ":00am" == u;
      assert 'p' !in u;
      ReplaceAbsent(u, "pm", ":00pm");
    }
  }

  /** Without a colon the text is read as a 12-hour time once `:00` goes in. */
  lemma ReadNoColon(t: string)
    requires ':' !in t
    ensures ReadClock(t) == Parse12(AddMinutes(t))
  {
  }

  /** With a colon and an am/pm marker the text is read as a 12-hour time as it stands. */
  lemma ReadColonMeridiem(t: string, pm: bool)
    requires ':' in t && Contains(t, Meridiem(pm))
    ensures ReadClock(t) == Parse12(t)
  {
  }

  /** Text the first step of `normalize_time` leaves alone reads as `ReadClock` reads it. */
  lemma NormalizeUntouched(t: string, h: Hour, m: Minute)
    requires Plain(t)
    requires ReadClock(t) == Some((h, m))
    ensures NormalizeClock(t) == Some((h, m))
    ensures NormalizeTime(t) == Some(Canonical(h, m))
  {
    Untouched(t);
  }

  /** Digits followed by `am`/`pm`: no capital, no blank, no colon. */
  lemma DigitsMeridiemChars(d: string, pm: bool)
    requires AllDigits(d)
    ensures ':' !in d + Meridiem(pm) && Plain(d + Meridiem(pm))
  {
    DigitsHaveNoLetters(d);
    var t := d + Meridiem(pm);
    forall i | 0 <= i < |t| ensures !('A' <= t[i] <= 'Z') && t[i] != ' ' {
      if i < |d| {
        assert t[i] == d[i];
      }
    }
  }

  /** Digits, a colon, digits and `am`/`pm`: no capital and no blank. */
  lemma ClockMeridiemChars(d: string, p: string, pm: bool)
    requires AllDigits(d) && AllDigits(p)
    ensures Plain(d + ":" + p + Meridiem(pm))
  {
    DigitsHaveNoLetters(d);
    DigitsHaveNoLetters(p);
    var t := d + ":" + p + Meridiem(pm);
    forall i | 0 <= i < |t| ensures !('A' <= t[i] <= 'Z') && t[i] != ' ' {
      if i < |d| {
        assert t[i] == d[i];
      } else if |d| < i < |d| + 1 + |p| {
        assert t[i] == p[i - |d| - 1];
      }
    }
  }

  /** "2pm", "12am": a bare 12-hour hour becomes that hour on the hour. */
  lemma BareTwelveHour(h12: nat, pm: bool)
    requires 1 <= h12 <= 12
    ensures NormalizeClock(NatToString(h12) + Meridiem(pm)) == Some((To24(h12, pm), 0))
    ensures NormalizeTime(NatToString(h12) + Meridiem(pm)) == Some(Canonical(To24(h12, pm), 0))
  {
    var d := NatToString(h12);
    NatToStringValue(h12);
    var t := d + Meridiem(pm);
    DigitsMeridiemChars(d, pm);
    InsertMinutes(d, pm);
    assert Pad2(0) == "00";
    Parse12Of(d, "00", pm);
    ReadNoColon(t);
    NormalizeUntouched(t, To24(h12, pm), 0);
  }

  /** A 12-hour reading with minutes and a marker is read by the 12-hour branch. */
  lemma ReadWithMinutes(d: string, p: string, pm: bool)
    requires 1 <= |d| <= 2 && AllDigits(d) && 1 <= DigitsValue(d) <= 12
    requires 1 <= |p| <= 2 && AllDigits(p) && DigitsValue(p) < 60
    ensures ReadClock(d + ":" + p + Meridiem(pm)) == Some((To24(DigitsValue(d), pm), DigitsValue(p)))
  {
    var t := d + ":" + p + Meridiem(pm);
    assert t[|d|] == ':';
    ContainsSuffix(d + ":" + p, Meridiem(pm));
    ReadColonMeridiem(t, pm);
    Parse12Of(d, p, pm);
  }

  /** "2:30pm", "9:05am": a 12-hour reading with minutes. */
  lemma TwelveHourWithMinutes(h12: nat, m: Minute, pm: bool)
    requires 1 <= h12 <= 12
    ensures NormalizeTime(NatToString(h12) + ":" + Pad2(m) + Meridiem(pm)) == Some(Canonical(To24(h12, pm), m))
  {
    var d := NatToString(h12);
    NatToStringValue(h12);
    var p := Pad2(m);
    ClockMeridiemChars(d, p, pm);
    ReadWithMinutes(d, p, pm);
    NormalizeUntouched(d + ":" + p + Meridiem(pm), To24(h12, pm), m);
  }

  lemma {:induction false} ContainsSuffix(a: string, b: string)
    ensures Contains(a + b, b)
  {
    if a == [] {
      assert (a + b)[..|b|] == b;
    } else {
      assert (a + b)[1..] == a[1..] + b;
      ContainsSuffix(a[1..], b);
    }
  }

  /** The hour as `%I` prints it once leading zeros are cut. */
  function HourText(h: Hour): string {
    var h12 := if h % 12 == 0 then 12 else h % 12;
    if h12 < 10 then [DigitChar(h12)] else Pad2(h12)
  }

  function MeridiemUpper(h: Hour): string {
    if h < 12 then "AM" else "PM"
  }

  lemma DisplayShape(h: Hour, m: Minute)
    ensures Display12(h, m) == HourText(h) + ":" + Pad2(m) + " " + MeridiemUpper(h)
    ensures var hs := HourText(h); 1 <= |hs| <= 2 && AllDigits(hs) && 1 <= DigitsValue(hs) <= 12
    ensures To24(DigitsValue(HourText(h)), h >= 12) == h
  {
    HourTextValue(h);
    var h12 := if h % 12 == 0 then 12 else h % 12;
    var hs := HourText(h);
    var tail := ":" + Pad2(m) + " " + MeridiemUpper(h);
    SplitHead(Pad2(h12), ":", Pad2(m), " ", MeridiemUpper(h));
    SplitHead(hs, ":", Pad2(m), " ", MeridiemUpper(h));
    StripPaddedHour(h12, tail);
  }

  /** The hour as `%I` prints it, without a leading zero. */
  lemma HourTextValue(h: Hour)
    ensures var hs := HourText(h); 1 <= |hs| <= 2 && AllDigits(hs) && DigitsValue(hs) == (if h % 12 == 0 then 12 else h % 12)
    ensures To24(DigitsValue(HourText(h)), h >= 12) == h
  {
    var h12 := if h % 12 == 0 then 12 else h % 12;
    var hs := HourText(h);
    if h12 < 10 {
      assert hs[..0] == [];
    }
  }

  /** `lstrip("0")` removes the padding zero of a one-digit hour and nothing else. */
  lemma StripPaddedHour(h12: nat, tail: string)
    requires 1 <= h12 <= 12 && |tail| > 0 && tail[0] == ':'
    ensures StripLeading(Pad2(h12) + tail, '0') == (if h12 < 10 then [DigitChar(h12)] else Pad2(h12)) + tail
  {
    if h12 < 10 {
      var rest := [DigitChar(h12)] + tail;
      assert Pad2(h12) + tail == ['0'] + rest;
      assert (['0'] + rest)[1..] == rest;
      assert rest[0] != '0';
    } else {
      assert (Pad2(h12) + tail)[0] == '1';
    }
  }

  lemma ReadSpaced(hs: string, p: string, ap: string)
    requires 1 <= |hs| <= 2 && AllDigits(hs) && 1 <= DigitsValue(hs) <= 12
    requires |p| == 2 && AllDigits(p) && DigitsValue(p) < 60
    requires ap == "AM" || ap == "PM"
    ensures ParseSpacedClock12(" " + (hs + ":" + (p + " " + ap)))
         == Some((To24(DigitsValue(hs), ap == "PM"), DigitsValue(p)))
  {
    SpacedPrefix(hs, p + " " + ap);
    SpacedTail(hs, p, ap);
  }

  lemma Regroup(a: string, b: string, c: string, d: string, e: string)
    ensures a + b + c + d + e == a + b + (c + d + e)
  {
  }

  lemma SplitHead(a: string, b: string, c: string, d: string, e: string)
    ensures a + b + c + d + e == a + (b + c + d + e)
  {
  }

  /** After a blank, the digits before the first colon are the hour text. */
  lemma SpacedPrefix(hs: string, tail: string)
    requires |hs| >= 1 && AllDigits(hs)
    ensures ParseSpacedClock12(" " + (hs + ":" + tail)) == SpacedFields(hs, tail)
  {
    var d := hs + ":" + tail;
    DigitsHaveNoLetters(hs);
    FindAfter(hs, ':', tail);
    assert d[..|hs|] == hs && d[|hs| + 1..] == tail;
    assert !IsSpace(d[0]) by {
      assert d[0] == hs[0];
    }
    StripLeftAfterBlanks(" ", d);
  }

  lemma SpacedTail(hs: string, p: string, ap: string)
    requires 1 <= |hs| <= 2 && AllDigits(hs) && 1 <= DigitsValue(hs) <= 12
    requires |p| == 2 && AllDigits(p) && DigitsValue(p) < 60
    requires ap == "AM" || ap == "PM"
    ensures SpacedFields(hs, p + " " + ap) == Some((To24(DigitsValue(hs), ap == "PM"), DigitsValue(p)))
  {
    var rest := p + " " + ap;
    assert rest[|rest| - 2..] == ap;
    assert Lower(ap) == if ap == "AM" then "am" else "pm";
    assert rest[..|rest| - 2] == p + " ";
    assert StripRight(p + " ") == p by {
      assert (p + " ")[..|p + " "| - 1] == p;
    }
    assert p != p + " ";
    assert NumberField(hs, 1, 12) == Some(DigitsValue(hs));
    assert NumberField(p, 0, 59) == Some(DigitsValue(p));
  }


  /** The display form of a reading parses back to that reading (`"%I:%M %p"` after a blank). */
  lemma DisplayRoundTrip(h: Hour, m: Minute)
    ensures ParseSpacedClock12(" " + Display12(h, m)) == Some((h, m))
  {
    DisplayShape(h, m);
    var hs := HourText(h);
    assert 1 <= DigitsValue(hs) <= 12;
    ReadSpaced(hs, Pad2(m), MeridiemUpper(h));
    Regroup(hs, ":", Pad2(m), " ", MeridiemUpper(h));
  }

  /** `strptime` lets the whitespace before the time run on. */
  lemma DisplayAfterBlanks(h: Hour, m: Minute)
    ensures ParseSpacedClock12("  " + Display12(h, m)) == Some((h, m))
  {
    var display := Display12(h, m);
    var rest := "  " + display;
    assert rest[1..] == " " + display;
    assert StripLeft(rest) == StripLeft(" " + display);
    DisplayRoundTrip(h, m);
  }

  lemma {:induction false} StripLeftAfterBlanks(blanks: string, d: string)
    requires forall i :: 0 <= i < |blanks| ==> IsSpace(blanks[i])
    requires d != [] && !IsSpace(d[0])
    ensures StripLeft(blanks + d) == d
  {
    if blanks == [] {
      assert blanks + d == d;
    } else {
      assert (blanks + d)[1..] == blanks[1..] + d;
      StripLeftAfterBlanks(blanks[1..], d);
    }
  }

  // The behaviour the comments in the source promise, on concrete inputs.

  lemma ExampleBarePm()
    ensures NormalizeTime("2pm") == Some("14:00")
  {
    BareTwelveHour(2, true);
    assert NatToString(2) + Meridiem(true) == "2pm";
    assert Canonical(14, 0) == "14:00";
  }

  /** A one-digit 12-hour reading with minutes, spelt out as text. */
  lemma MinutesText(t: string, c: string, h12: nat, m: Minute, pm: bool)
    requires 1 <= h12 <= 9
    requires t == [DigitChar(h12)] + ":" + Pad2(m) + Meridiem(pm)
    requires c == Canonical(To24(h12, pm), m)
    ensures NormalizeTime(t) == Some(c)
  {
    assert NatToString(h12) == [DigitChar(h12)];
    TwelveHourWithMinutes(h12, m, pm);
  }

  lemma ExampleMinutesPm()
    ensures NormalizeTime("2:00pm") == Some("14:00")
  {
    MinutesText("2:00pm", "14:00", 2, 0, true);
  }

  lemma ExampleMinutesAm()
    ensures NormalizeTime("9:05am") == Some("09:05")
  {
    MinutesText("9:05am", "09:05", 9, 5, false);
  }

  /** A blank before an upper-case `AM`/`PM` is squeezed out and the marker lower-cased. */
  lemma SqueezeSpacedUpper(c: string, pm: bool)
    requires Plain(c)
    ensures Squeeze(c + " " + (if pm then "PM" else "AM")) == c + Meridiem(pm)
  {
    var m := Meridiem(pm);
    var t := c + " " + (if pm then "PM" else "AM");
    assert Lower(t) == c + (" " + m) by {
      forall i | 0 <= i < |t| ensures Lower(t)[i] == (c + (" " + m))[i] {
        if i < |c| {
          assert t[i] == c[i];
        }
      }
    }
    WithoutConcat(c, " " + m, ' ');
    WithoutAbsent(c, ' ');
    assert Without(" " + m, ' ') == m by {
      assert (" " + m)[1..] == m;
      WithoutAbsent(m, ' ');
    }
  }

  /** Text whose squeezed form is the same reads the same. */
  lemma SameSqueeze(a: string, b: string)
    requires Squeeze(a) == Squeeze(b)
    ensures NormalizeTime(a) == NormalizeTime(b)
  {
  }

  lemma SpacedUpperText(t: string, u: string)
    requires t == "2:00 PM" && u == "2:00pm"
    ensures NormalizeTime(t) == Some("14:00")
  {
    var c := "2:00";
    assert t == c + " " + "PM" && u == c + Meridiem(true);
    SqueezeSpacedUpper(c, true);
    Untouched(u);
    SameSqueeze(t, u);
    ExampleMinutesPm();
  }

  lemma ExampleSpacedUpper()
    ensures NormalizeTime("2:00 PM") == Some("14:00")
  {
    SpacedUpperText("2:00 PM", "2:00pm");
  }

  /** Canonical text reads back as itself. */
  lemma CanonicalText(t: string, h: Hour, m: Minute)
    requires t == Canonical(h, m)
    ensures NormalizeTime(t) == Some(t)
  {
    CanonicalIsFixedPoint(h, m);
  }

  lemma TwentyFourText(t: string)
    requires t == "14:00"
    ensures NormalizeTime(t) == Some(t)
  {
    assert Pad2(14) == "14" && Pad2(0) == "00";
    CanonicalText(t, 14, 0);
  }

  lemma ExampleTwentyFour()
    ensures NormalizeTime("14:00") == Some("14:00")
  {
    TwentyFourText("14:00");
  }

  /** Text with no colon and no `a`/`p` is not a time at all. */
  lemma NoClockText(t: string)
    requires ':' !in t && 'a' !in t && 'p' !in t
    ensures ReadClock(t) == None
  {
    ReplaceAbsent(t, "am", ":00am");
    ReplaceAbsent(t, "pm", ":00pm");
    assert AddMinutes(t) == t;
  }

  /** A 24-hour reading whose hour field is out of range is rejected. */
  lemma HourOutOfRange(t: string, i: nat)
    requires 'a' !in t && 'p' !in t
    requires Find(t, ':') == Some(i) && NumberField(t[..i], 0, 23) == None
    ensures ReadClock(t) == None
  {
    NotContains(t, "am");
    NotContains(t, "pm");
  }

  /** Text made of lower-case letters and dashes only. */
  lemma WordChars(t: string)
    requires forall i :: 0 <= i < |t| ==> 'b' <= t[i] <= 'z' || t[i] == '-'
    ensures Plain(t) && ':' !in t && 'a' !in t
  {
  }

  lemma WordsText(t: string)
    requires t == "noon-ish"
    ensures Squeeze(t) == t && ':' !in t && 'a' !in t && 'p' !in t
  {
    assert forall i :: 0 <= i < |t| ==> t[i] in {'n', 'o', '-', 'i', 's', 'h'};
    WordChars(t);
    Untouched(t);
  }

  lemma ExampleWords()
    ensures NormalizeTime("noon-ish") == None
  {
    WordsText("noon-ish");
    NoClockText("noon-ish");
  }

  lemma OutOfRangeText(t: string)
    requires t == "24:00"
    ensures NormalizeTime(t) == None
  {
    assert t[..2] == "24" && t[2] == ':';
    DigitsHaveNoLetters(t[..2]);
    FindAfter(t[..2], ':', t[3..]);
    assert t == t[..2] + [':'] + t[3..];
    TwoDigitsValue(t[..2]);
    Untouched(t);
    assert 'a' !in t && 'p' !in t;
    HourOutOfRange(t, 2);
  }

  lemma ExampleOutOfRange()
    ensures NormalizeTime("24:00") == None
  {
    OutOfRangeText("24:00");
  }
}
