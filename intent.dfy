/**
 * The deterministic parts of reading a user's request: `parse_attendees`,
 * the email search of `parse_input`, and `parse_input`'s classification of
 * a request and its post-processing of the language model's answers, which
 * arrive here as parameters.
 */
module Intent {
  import opened Wrappers
  import opened Text
  import opened Dates

  /** A value as `json.loads` returns it. */
  datatype Json =
    | JNull
    | JBool(b: bool)
    | JNumber(n: int)
    | JString(s: string)
    | JArray(items: seq<Json>)
    | JObject(fields: map<string, Json>)

  /** `[name.strip() for name in names if name.strip()]`. */
  function Cleaned(names: seq<string>): (r: seq<string>)
    ensures forall x :: x in r ==> x != "" && IsStripped(x)
    ensures |r| <= |names|
  {
    if names == [] then []
    else
      StripIsStripped(names[0]);
      (if Strip(names[0]) != "" then [Strip(names[0])] else []) + Cleaned(names[1..])
  }

  predicate AllStrings(items: seq<Json>) {
    forall i :: 0 <= i < |items| ==> items[i].JString?
  }

  /** The texts of a list of JSON strings. */
  function Texts(items: seq<Json>): (r: seq<string>)
    requires AllStrings(items)
    ensures |r| == |items| && forall i :: 0 <= i < |items| ==> items[i] == JString(r[i])
  {
    seq(|items|, i requires 0 <= i < |items| => items[i].s)
  }

  /**
   * `parse_attendees(attendees_input)`: a list is cleaned element by element,
   * a string is split on commas first, anything else gives `[]`. `None`
   * stands for the `AttributeError` that `strip` raises on a list element
   * that is not a string.
   */
  function ParseAttendees(input: Json): Option<seq<string>> {
    match input
    case JArray(items) => if AllStrings(items) then Some(Cleaned(Texts(items))) else None
    case JString(s) => Some(Cleaned(Split(s, ',')))
    case _ => Some([])
  }

  /** Cleaning works name by name: it keeps the order of the input. */
  lemma {:induction false} CleanedConcat(a: seq<string>, b: seq<string>)
    ensures Cleaned(a + b) == Cleaned(a) + Cleaned(b)
  {
    if a != [] {
      CleanedConcat(a[1..], b);
      assert (a + b)[1..] == a[1..] + b;
    } else {
      assert a + b == b;
    }
  }

  /** A name is kept exactly when it is the stripped form of an input with some non-blank character. */
  lemma {:induction false} CleanedMembers(names: seq<string>)
    ensures forall x :: x in Cleaned(names) <==> x != "" && exists n :: n in names && Strip(n) == x
  {
    if names != [] {
      CleanedMembers(names[1..]);
      assert names == [names[0]] + names[1..];
      forall x | x != "" && exists n :: n in names && Strip(n) == x
        ensures x in Cleaned(names)
      {
        var n :| n in names && Strip(n) == x;
        if n != names[0] {
          assert n in names[1..];
        }
      }
    }
  }

  /** Names that are already clean are kept as they are. */
  lemma {:induction false} CleanedOfClean(names: seq<string>)
    requires forall x :: x in names ==> x != "" && IsStripped(x)
    ensures Cleaned(names) == names
  {
    if names != [] {
      var x := names[0];
      assert x in names;
      assert forall y :: y in names[1..] ==> y in names;
      StripLeftOfStripped(x);
      StripRightOfStripped(x);
      CleanedOfClean(names[1..]);
      assert names == [x] + names[1..];
    }
  }

  /** Cleaning twice is cleaning once. */
  lemma CleanedIdempotent(names: seq<string>)
    ensures Cleaned(Cleaned(names)) == Cleaned(names)
  {
    CleanedOfClean(Cleaned(names));
  }

  /** A list of JSON strings. */
  function Wrap(parts: seq<string>): (r: seq<Json>)
    ensures AllStrings(r) && Texts(r) == parts
  {
    var r := seq(|parts|, i requires 0 <= i < |parts| => JString(parts[i]));
    assert Texts(r) == parts;
    r
  }

  /** A string is parsed as the list of its comma-separated pieces. */
  lemma StringIsSplitList(s: string)
    ensures ParseAttendees(JString(s)) == ParseAttendees(JArray(Wrap(Split(s, ','))))
  {
  }

  /** Clean, comma-free names joined with commas are parsed back to the same list. */
  lemma JoinedNamesRoundTrip(names: seq<string>)
    requires |names| >= 1
    requires forall x :: x in names ==> x != "" && IsStripped(x) && ',' !in x
    ensures ParseAttendees(JString(Join(names, ','))) == Some(names)
  {
    JoinSplit(names, ',');
    CleanedOfClean(names);
  }

  /** `[\w.-]`. */
  predicate IsEmailChar(c: char) {
    IsWordChar(c) || c == '.' || c == '-'
  }

  /** The end of the longest run of `[\w.-]` characters starting at `i`. */
  function EmailRun(s: string, i: nat): (j: nat)
    requires i <= |s|
    ensures i <= j <= |s|
    ensures forall k :: i <= k < j ==> IsEmailChar(s[k])
    ensures j == |s| || !IsEmailChar(s[j])
    decreases |s| - i
  {
    if i < |s| && IsEmailChar(s[i]) then EmailRun(s, i + 1) else i
  }

  /** The end of the longest run of `\w` characters starting at `i`. */
  function WordRun(s: string, i: nat): (j: nat)
    requires i <= |s|
    ensures i <= j <= |s|
    ensures forall k :: i <= k < j ==> IsWordChar(s[k])
    ensures j == |s| || !IsWordChar(s[j])
    decreases |s| - i
  {
    if i < |s| && IsWordChar(s[i]) then WordRun(s, i + 1) else i
  }

  /** A `.` at `p` followed by a `\w` character before `hi`. */
  predicate DotAt(s: string, p: nat, hi: nat)
    requires hi <= |s|
  {
    p + 1 < hi && s[p] == '.' && IsWordChar(s[p + 1])
  }

  /**
   * The last position `p` with `lo < p <= k` holding a dot that `\.\w` can
   * match inside `s[..hi]`: where the backtracking of the greedy domain part
   * `[\w.-]+` first succeeds.
   */
  function LastDot(s: string, lo: nat, hi: nat, k: nat): (r: Option<nat>)
    requires lo <= hi <= |s|
    ensures r.Some? ==> lo < r.value <= k && DotAt(s, r.value, hi)
    ensures forall p :: (if r.Some? then r.value else lo) < p <= k ==> !DotAt(s, p, hi)
    decreases k
  {
    if k <= lo then None
    else if DotAt(s, k, hi) then Some(k)
    else LastDot(s, lo, hi, k - 1)
  }

  /**
   * `s[i..j]` is local part, `@`, domain, `.` and last label, each drawn
   * from its character class: a text `[\w.-]+@[\w.-]+\.\w+` matches.
   */
  ghost predicate EmailShape(s: string, i: nat, j: nat)
    requires i < j <= |s|
  {
    exists a, p ::
      && i < a && a + 1 < p && p + 1 < j
      && s[a] == '@' && s[p] == '.'
      && (forall k :: i <= k < a ==> IsEmailChar(s[k]))
      && (forall k :: a < k < p ==> IsEmailChar(s[k]))
      && (forall k :: p < k < j ==> IsWordChar(s[k]))
  }

  /**
   * Where a match of `[\w.-]+@[\w.-]+\.\w+` starting at `i` ends, if one
   * does: the local part runs up to an `@`, the domain up to the last dot
   * that a word character follows, and the last label as far as word
   * characters go.
   */
  function MatchAt(s: string, i: nat): (r: Option<nat>)
    requires i <= |s|
    ensures r.Some? ==> i < r.value <= |s|
  {
    var a := EmailRun(s, i);
    if a == i || a == |s| || s[a] != '@' then None
    else
      var b := EmailRun(s, a + 1);
      match LastDot(s, a + 1, b, b)
      case None => None
      case Some(p) => Some(WordRun(s, p + 1))
  }

  /** What `MatchAt` finds has the shape of an address. */
  lemma MatchAtShape(s: string, i: nat)
    requires i <= |s| && MatchAt(s, i).Some?
    ensures EmailShape(s, i, MatchAt(s, i).value)
  {
    var a := EmailRun(s, i);
    var b := EmailRun(s, a + 1);
    var p := LastDot(s, a + 1, b, b).value;
    assert forall k :: a < k < p ==> IsEmailChar(s[k]);
  }

  /** `re.search`: the first start position, from `i` on, where a match exists. */
  function Search(s: string, i: nat): (r: Option<(nat, nat)>)
    requires i <= |s|
    ensures r.Some? ==> i <= r.value.0 < r.value.1 <= |s| && MatchAt(s, r.value.0) == Some(r.value.1)
    decreases |s| - i
  {
    match MatchAt(s, i)
    case Some(j) => Some((i, j))
    case None => if i == |s| then None else Search(s, i + 1)
  }

  /** The position `Search` returns is the leftmost match; no position matches when it returns none. */
  lemma {:induction false} SearchLeftmost(s: string, i: nat)
    requires i <= |s|
    ensures Search(s, i).Some? ==> forall k :: i <= k < Search(s, i).value.0 ==> MatchAt(s, k).None?
    ensures Search(s, i).None? ==> forall k :: i <= k <= |s| ==> MatchAt(s, k).None?
    decreases |s| - i
  {
    if MatchAt(s, i).None? && i < |s| {
      SearchLeftmost(s, i + 1);
    }
  }

  /** `re.search(r'[\w\.-]+@[\w\.-]+\.\w+', text)`, as the matched text. */
  function FindEmail(text: string): Option<string> {
    match Search(text, 0)
    case Some((i, j)) => Some(text[i..j])
    case None => None
  }

  /**
   * Wherever the pattern matches from `i` to `j`, `MatchAt` finds a match
   * from `i` reaching at least `j`: the greedy parts only ever extend it.
   */
  lemma ShapeIsFound(s: string, i: nat, j: nat)
    requires i < j <= |s| && EmailShape(s, i, j)
    ensures MatchAt(s, i).Some? && j <= MatchAt(s, i).value
  {
    var a, p :| && i < a && a + 1 < p && p + 1 < j
      && s[a] == '@' && s[p] == '.'
      && (forall k :: i <= k < a ==> IsEmailChar(s[k]))
      && (forall k :: a < k < p ==> IsEmailChar(s[k]))
      && (forall k :: p < k < j ==> IsWordChar(s[k]));
    LaidOutIsFound(s, i, a, p, j);
  }

  /** The parts of an address between `i` and `j`, split at `a` and `p`, are matched from `i`. */
  lemma LaidOutIsFound(s: string, i: nat, a: nat, p: nat, j: nat)
    requires i < a && a + 1 < p && p + 1 < j <= |s|
    requires s[a] == '@' && s[p] == '.'
    requires forall k :: i <= k < a ==> IsEmailChar(s[k])
    requires forall k :: a < k < p ==> IsEmailChar(s[k])
    requires forall k :: p < k < j ==> IsWordChar(s[k])
    ensures MatchAt(s, i).Some? && j <= MatchAt(s, i).value
  {
    EmailRunEnds(s, i, a);
    assert forall k :: a + 1 <= k < j ==> IsEmailChar(s[k]);
    EmailRunCovers(s, a + 1, j);
    var b := EmailRun(s, a + 1);
    LastDotCovers(s, a + 1, b, p, j);
    var q := LastDot(s, a + 1, b, b).value;
    if q == p {
      WordRunCovers(s, p + 1, j);
    }
  }

  /** A run of `[\w.-]` characters from `i` to `j` is inside the longest one. */
  lemma EmailRunCovers(s: string, i: nat, j: nat)
    requires i <= j <= |s| && forall k :: i <= k < j ==> IsEmailChar(s[k])
    ensures j <= EmailRun(s, i)
  {
  }

  /** A run of `\w` characters from `i` to `j` is inside the longest one. */
  lemma WordRunCovers(s: string, i: nat, j: nat)
    requires i <= j <= |s| && forall k :: i <= k < j ==> IsWordChar(s[k])
    ensures j <= WordRun(s, i)
  {
  }

  /** Before `hi`, a usable dot followed by word characters up to `j` is the last one before `j`. */
  lemma LastDotCovers(s: string, lo: nat, hi: nat, p: nat, j: nat)
    requires lo < p && p + 1 < j <= hi <= |s| && DotAt(s, p, hi)
    requires forall k :: p < k < j ==> IsWordChar(s[k])
    ensures LastDot(s, lo, hi, hi).Some?
    ensures LastDot(s, lo, hi, hi).value == p || j <= LastDot(s, lo, hi, hi).value
  {
  }

  /**
   * `FindEmail` is `re.search` for the pattern: nothing when no part of the
   * text matches it, and otherwise the match that starts leftmost, taken as
   * far as a match from that start can reach.
   */
  lemma FindEmailLeftmost(text: string)
    ensures FindEmail(text).None? <==> forall i, j :: 0 <= i < j <= |text| ==> !EmailShape(text, i, j)
    ensures Search(text, 0).Some? ==>
      var (i, j) := Search(text, 0).value;
      && FindEmail(text) == Some(text[i..j])
      && EmailShape(text, i, j)
      && (forall k, l :: 0 <= k < i && k < l <= |text| ==> !EmailShape(text, k, l))
      && (forall l :: i < l <= |text| && EmailShape(text, i, l) ==> l <= j)
  {
    SearchLeftmost(text, 0);
    forall k, l | 0 <= k < l <= |text| && EmailShape(text, k, l) ensures MatchAt(text, k).Some? {
      ShapeIsFound(text, k, l);
    }
    forall l | Search(text, 0).Some? && Search(text, 0).value.0 < l <= |text| && EmailShape(text, Search(text, 0).value.0, l)
      ensures l <= Search(text, 0).value.1
    {
      ShapeIsFound(text, Search(text, 0).value.0, l);
    }
    if Search(text, 0).Some? {
      MatchAtShape(text, Search(text, 0).value.0);
    }
  }

  /** A text with no `@` holds no email. */
  lemma NoAtNoEmail(text: string)
    requires '@' !in text
    ensures FindEmail(text).None?
  {
  }

  predicate AllEmailChars(s: string) {
    forall k :: 0 <= k < |s| ==> IsEmailChar(s[k])
  }

  predicate AllWordChars(s: string) {
    forall k :: 0 <= k < |s| ==> IsWordChar(s[k])
  }

  /** A run of `[\w.-]` ends exactly where a character outside the class sits. */
  lemma EmailRunEnds(s: string, i: nat, j: nat)
    requires i <= j <= |s|
    requires forall k :: i <= k < j ==> IsEmailChar(s[k])
    requires j == |s| || !IsEmailChar(s[j])
    ensures EmailRun(s, i) == j
  {
  }

  /** A run of `\w` ends exactly where a non-word character sits. */
  lemma WordRunEnds(s: string, i: nat, j: nat)
    requires i <= j <= |s|
    requires forall k :: i <= k < j ==> IsWordChar(s[k])
    requires j == |s| || !IsWordChar(s[j])
    ensures WordRun(s, i) == j
  {
  }

  /** The last usable dot is the one after which only word characters follow. */
  lemma LastDotIs(s: string, lo: nat, hi: nat, p: nat)
    requires lo < p && hi <= |s| && DotAt(s, p, hi)
    requires forall k :: p < k < hi ==> IsWordChar(s[k])
    ensures LastDot(s, lo, hi, hi) == Some(p)
  {
  }

  /** A text laid out as an address from its first character matches there, to the end of the last label. */
  lemma MatchAtStart(s: string, a: nat, p: nat, end: nat)
    requires 0 < a && a + 1 < p && p + 1 < end <= |s|
    requires s[a] == '@' && s[p] == '.'
    requires forall k :: 0 <= k < a ==> IsEmailChar(s[k])
    requires forall k :: a < k < p ==> IsEmailChar(s[k])
    requires forall k :: p < k < end ==> IsWordChar(s[k])
    requires end == |s| || !IsEmailChar(s[end])
    ensures MatchAt(s, 0) == Some(end)
  {
    EmailRunEnds(s, 0, a);
    EmailRunEnds(s, a + 1, end);
    LastDotIs(s, a + 1, end, p);
    WordRunEnds(s, p + 1, end);
  }

  /** `re.search` reports a match that starts at the first character. */
  lemma SearchAtStart(s: string, a: nat, p: nat, end: nat)
    requires 0 < a && a + 1 < p && p + 1 < end <= |s|
    requires s[a] == '@' && s[p] == '.'
    requires forall k :: 0 <= k < a ==> IsEmailChar(s[k])
    requires forall k :: a < k < p ==> IsEmailChar(s[k])
    requires forall k :: p < k < end ==> IsWordChar(s[k])
    requires end == |s| || !IsEmailChar(s[end])
    ensures Search(s, 0) == Some((0, end))
  {
    MatchAtStart(s, a, p, end);
  }

  /**
   * An address `local@domain.label` at the start of the text, followed by
   * nothing or by a character that cannot continue it, is found whole.
   */
  lemma AddressFound(local: string, domain: string, top: string, rest: string)
    requires local != [] && domain != [] && top != []
    requires AllEmailChars(local) && AllEmailChars(domain) && AllWordChars(top)
    requires rest == [] || !IsEmailChar(rest[0])
    ensures FindEmail(local + "@" + domain + "." + top + rest) == Some(local + "@" + domain + "." + top)
  {
    var address := local + "@" + domain + "." + top;
    var s := address + rest;
    var a := |local|;
    var p := a + 1 + |domain|;
    var end := |address|;
    assert s[a] == '@' && s[p] == '.';
    assert forall k :: 0 <= k < a ==> s[k] == local[k];
    assert forall k :: a < k < p ==> s[k] == domain[k - a - 1];
    assert forall k :: p < k < end ==> s[k] == top[k - p - 1];
    assert end == |s| || s[end] == rest[0];
    SearchAtStart(s, a, p, end);
    assert s[0..end] == address;
  }

  /** Which events `parse_input` is asked for. */
  datatype QueryKind = Today | Tomorrow | SpecificDate

  /**
   * What `parse_input` returns: an events query with its date text, the
   * model's meeting details as a dictionary, or an exception that escapes
   * (an unreadable `today`, a date past year 9999, a reply that is not a
   * JSON object).
   */
  datatype Request =
    | EventsQuery(date: string, kind: QueryKind)
    | MeetingRequest(fields: map<string, Json>)
    | Raised

  /** `"events" in input_lower or "meetings" in input_lower`. */
  predicate AsksForEvents(lower: string) {
    Contains(lower, "events") || Contains(lower, "meetings")
  }

  /** The request is answered as an events query rather than read as a meeting request. */
  predicate RoutedToEvents(lower: string) {
    && AsksForEvents(lower)
    && (Contains(lower, "today") || Contains(lower, "tomorrow") || Contains(lower, "on") || Contains(lower, "for"))
  }

  /** `re.match(r'^\d{1,2}/\d{1,2}$', s)` on a stripped text. */
  predicate IsBareMonthDay(s: string) {
    match Find(s, '/')
    case None => false
    case Some(k) => 1 <= k <= 2 && AllDigits(s[..k]) && 1 <= |s| - k - 1 <= 2 && AllDigits(s[k + 1..])
  }

  /** `today + timedelta(days=1)` for a `today` read with `"%m-%d-%Y"`; `None` where that raises. */
  function DayAfter(today: string): Option<Date> {
    match ParseDate(today, '-')
    case None => None
    case Some(d) => NextDay(d)
  }

  /**
   * `parse_input(user_input, today)`. The model's answers are parameters:
   * `extracted` is the date text it returns for an events query on a given
   * day, `reply` the decoded JSON of its meeting details (`None` when that is
   * not valid JSON); `year` is the current year.
   */
  method ParseInput(userInput: string, today: string, extracted: string, reply: Option<Json>, year: nat)
    returns (r: Request)
    ensures var lower := Lower(userInput);
      AsksForEvents(lower) && Contains(lower, "today") ==> r == EventsQuery(today, Today)
    ensures var lower := Lower(userInput);
      AsksForEvents(lower) && !Contains(lower, "today") && Contains(lower, "tomorrow") ==>
        r == match DayAfter(today)
             case None => Raised
             case Some(t) => EventsQuery(FormatDate(t, '-'), Tomorrow)
    ensures var lower := Lower(userInput);
      && RoutedToEvents(lower) && !Contains(lower, "today") && !Contains(lower, "tomorrow") ==>
        && r.EventsQuery? && r.kind == SpecificDate
        && r.date == if IsBareMonthDay(Strip(extracted)) then Strip(extracted) + "/" + NatToString(year) else Strip(extracted)
    ensures !RoutedToEvents(Lower(userInput)) ==>
      (r.MeetingRequest? <==> reply.Some? && reply.value.JObject?) && (r.MeetingRequest? || r == Raised)
    ensures r.MeetingRequest? ==>
      && reply.Some? && reply.value.JObject?
      && var given, found := reply.value.fields, FindEmail(userInput);
      && r.fields.Keys == given.Keys + {"type"} + (if found.Some? then {"email"} else {})
      && r.fields["type"] == JString("meeting_request")
      && (found.Some? ==> r.fields["email"] == JString(found.value))
      && (forall k :: k in given && k != "type" && k != "Person" && (k == "email" ==> found.None?) ==> r.fields[k] == given[k])
      && ("Person" in given ==> r.fields["Person"] == if given["Person"].JString? then JArray([given["Person"]]) else given["Person"])
    ensures r.MeetingRequest? && "Person" in r.fields ==> !r.fields["Person"].JString?
  {
    var lower := Lower(userInput);
    if Contains(lower, "events") || Contains(lower, "meetings") {
      if Contains(lower, "today") {
        return EventsQuery(today, Today);
      } else if Contains(lower, "tomorrow") {
        var d := ParseDate(today, '-');
        if d.None? {
          return Raised;
        }
        var next := NextDay(d.value);
        if next.None? {
          return Raised;
        }
        return EventsQuery(FormatDate(next.value, '-'), Tomorrow);
      } else if Contains(lower, "on") || Contains(lower, "for") {
        var date := Strip(extracted);
        if IsBareMonthDay(date) {
          date := date + "/" + NatToString(year);
        }
        return EventsQuery(date, SpecificDate);
      }
    }
    var found := FindEmail(userInput);
    if reply.None? || !reply.value.JObject? {
      return Raised;
    }
    var result := CompleteDetails(reply.value.fields, found);
    return MeetingRequest(result);
  }

  /**
   * The edits `parse_input` makes to the model's meeting details: it sets
   * `type`, lets an email found in the input win over the model's, and wraps
   * a single `Person` text into a list.
   */
  method CompleteDetails(given: map<string, Json>, found: Option<string>) returns (result: map<string, Json>)
    ensures result.Keys == given.Keys + {"type"} + (if found.Some? then {"email"} else {})
    ensures result["type"] == JString("meeting_request")
    ensures found.Some? ==> result["email"] == JString(found.value)
    ensures forall k :: k in given && k != "type" && k != "Person" && (k == "email" ==> found.None?) ==> result[k] == given[k]
    ensures "Person" in given ==> result["Person"] == if given["Person"].JString? then JArray([given["Person"]]) else given["Person"]
    ensures "Person" in result ==> !result["Person"].JString?
  {
    result := given;
    result := result["type" := JString("meeting_request")];
    if found.Some? {
      result := result["email" := JString(found.value)];
    }
    if "Person" in result && result["Person"].JString? {
      result := result["Person" := JArray([result["Person"]])];
    }
  }

  /**
   * "tomorrow" is the next calendar day: there is one unless `today` is not a
   * `MM-DD-YYYY` date or is the last day of year 9999, and its text reads
   * back as that day.
   */
  lemma DayAfterIsNext(today: string)
    ensures DayAfter(today).None? <==> ParseDate(today, '-') == None || ParseDate(today, '-') == Some(Date(9999, 12, 31))
    ensures DayAfter(today).Some? ==>
      var t := DayAfter(today).value;
      && Ordinal(t) == Ordinal(ParseDate(today, '-').value) + 1
      && (1000 <= t.year ==> ParseDate(FormatDate(t, '-'), '-') == Some(t))
  {
    if DayAfter(today).Some? {
      var d := ParseDate(today, '-').value;
      NextDayOrdinal(d);
      var t := DayAfter(today).value;
      if 1000 <= t.year {
        FormatDateRoundTrip(t, '-');
      }
    }
  }

  /**
   * A bare `M/D` gets the year the same way here and in `check_calendar`,
   * and `check_calendar` leaves the completed text alone.
   */
  lemma CompletionAgrees(s: string, year: nat)
    requires IsBareMonthDay(s)
    ensures CompleteDate(s, year) == s + "/" + NatToString(year)
    ensures CompleteDate(s + "/" + NatToString(year), year) == s + "/" + NatToString(year)
  {
    var k := Find(s, '/').value;
    var a, b := s[..k], s[k + 1..];
    assert s == a + (['/'] + b);
    assert Count(['/'], '/') == 1;
    SeparatorNotInDigits(a, '-');
    SeparatorNotInDigits(b, '-');
    SeparatorNotInDigits(a, '/');
    SeparatorNotInDigits(b, '/');
    CountConcat(a, ['/'] + b, '/');
    CountConcat(['/'], b, '/');
    CountAbsent(a, '/');
    CountAbsent(b, '/');
    assert Count(s, '/') == 1;
    var y := NatToString(year);
    SeparatorNotInDigits(y, '-');
    SeparatorNotInDigits(y, '/');
    var full := s + "/" + y;
    assert '-' !in full;
    NoDashUnchanged(s);
    NoDashUnchanged(full);
    assert SpelledToNumeric(s, year) == s;
    assert SpelledToNumeric(full, year) == full;
    CountConcat(s, "/", '/');
    CountConcat(s + "/", y, '/');
    CountAbsent(y, '/');
    assert Count(full, '/') == 2;
  }
}
