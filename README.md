# Meeting scheduler core, in Dafny

`app_cursor.py` is a Streamlit app that books Google Calendar meetings from
free text. This project models its deterministic core. That core turns text
into a booking decision:

- **Time normaliser** (`Clock`): `normalize_time` turns `2pm`, `2:00 PM`,
  `9:05am` or `14:00` into a canonical `HH:MM`. `book_appointment` renders it
  back on a 12-hour clock.
- **Dates** (`Dates`):
  - `strptime`/`strftime` for `%m/%d/%Y`, `%m-%d-%Y` and `%B %d`;
  - the date completion inside `check_calendar` (month names, dashes, a
    missing year);
  - the calendar arithmetic behind "tomorrow".
- **Calendar events** (`Events`): the Google Calendar event record as the
  core reads it. Each start is already converted to local wall-clock time.
- **Conflict check and booking** (`Scheduler`):
  - `check_calendar`'s event loop, as a method proved against a recursive
    specification;
  - the part of `book_appointment` that runs up to building the event body.
- **Request parsing** (`Intent`):
  - `parse_attendees`;
  - the email regular expression `[\w\.-]+@[\w\.-]+\.\w+` under `re.search`;
  - the deterministic parts of `parse_input`, as a method that edits the
    result dictionary.
- **Contact suggestions** (`Contacts`):
  - `get_contact_suggestions`, as a method with the source's loops, proved
    equal to a specification of filter, merge, sort, dedup and truncate;
  - `get_contact_email` on its candidates.
- **Calendar history** (`History`):
  - `search_attendee`, as a method updating an email-to-tally map in nested
    loops, proved equal to a specification;
  - `get_previous_attendee`.

Shared helpers model Python's string operations (`Text`), its stable
`sort`/`sorted` (`Sorting`) and `Option` (`Wrappers`).

Everything outside the process becomes a parameter of the model:

- the directory people, the connections and the calendar events that the
  APIs return;
- the answers of the language model: the extracted date text, and the
  decoded JSON, or `None` when it does not decode;
- "today" and the current year;
- the entry the user picks in a selection box;
- the order in which a Python `set` is iterated.

The source's error paths are modelled as values:

- `check_calendar`'s `([], False, None)` is `Failed`;
- `search_attendee`'s and `get_contact_suggestions`'s `[]`;
- the `ValueError` and `OverflowError` that `book_appointment` does not catch are `Raises`;
- a non-string list element in `parse_attendees` is `None`.

Behaviours of the code that the model keeps as written:

- **Last clash wins.** `conflict_details` is overwritten on every clash, so
  it describes the last clashing event in the order the events were fetched
  (`Scheduler.DetailsFromLastClash`). The system's specification asks for the
  first; the model follows the code.
- **A missing summary fails the whole check.** An event without a `summary`
  makes `check_calendar` fail as a whole, conflict or not
  (`Scheduler.ConflictExactly`).
- **Spelled leap days are refused.** `"%B %d"` is validated against the year
  1900, so a spelled "February 29" takes the date-error path, while "02/29"
  in a leap year is accepted (`Dates.ExampleLeapDay`).
- **`"on"` is a substring test.** `parse_input` treats "on" and "for" as
  substrings, so any events request containing, say, "month" is read as a
  specific-date query (`Intent.ParseInput`).
- **Trailing whitespace in the date skips the conflict check.**
  `check_calendar` cannot read a date with trailing whitespace, so it reports
  no conflict whatever the calendar holds. `book_appointment` parses
  `f"{date} {display_time}"`, whose whitespace absorbs the extra space, and
  books the hour (`Scheduler.TrailingSpaceSkipsCheck`).
- **Nothing is booked on 12/31/9999.** `pytz`'s `localize` looks one day either
  side of the time it places, which overflows on 0001-01-01 and 9999-12-31.
  `check_calendar` catches the `OverflowError` in its outer `except` and
  returns `([], False, None)`. In `book_appointment` nothing catches it
  (`Scheduler.UnplaceableDayRaises`).
- **A hit without a summary discards the search.** In `search_attendee`, an
  event without a `summary` discards the whole search, but only when one of
  its attendees matched (`History.SearchAttendee`).

## Model

| member | source | states |
|---|---|---|
| Clock.NormalizeTime | app_cursor.py:242-268 | A result, when there is one, is a canonical time: two digits below 24, a colon, two digits below 60 |
| Clock.CanonicalIsFixedPoint | app_cursor.py:250-254 | A canonical `HH:MM` has a colon and no am/pm, so it reads back through the 24-hour branch to itself |
| Clock.NormalizeTimeIdempotent | app_cursor.py:242-268 | Normalising an output of `normalize_time` gives the same output |
| Clock.CanonicalInjective | app_cursor.py:254 | Two readings render to the same `HH:MM` only if they are the same hour and minute |
| Clock.BareTwelveHour | app_cursor.py:259-266 | `<h>am`/`<h>pm` with h in 1..12 gets `:00` inserted and reads as that hour on a 24-hour clock, minute 0 |
| Clock.TwelveHourWithMinutes | app_cursor.py:259-266 | `<h>:<mm>am`/`pm` reads as hour h on a 24-hour clock, minute mm |
| Clock.ExampleBarePm | app_cursor.py:242-268 | "2pm" normalises to "14:00" |
| Clock.ExampleMinutesPm | app_cursor.py:242-268 | "2:00pm" normalises to "14:00" |
| Clock.ExampleMinutesAm | app_cursor.py:242-268 | "9:05am" normalises to "09:05" |
| Clock.ExampleSpacedUpper | app_cursor.py:242-268 | "2:00 PM" normalises to "14:00" (spaces dropped, case folded) |
| Clock.ExampleTwentyFour | app_cursor.py:250-256 | "14:00" normalises to "14:00" |
| Clock.NoClockText | app_cursor.py:259-268 | Text with no colon and no `a` or `p` cannot be read as a time |
| Clock.HourOutOfRange | app_cursor.py:251-256 | With a colon and no am/pm, an hour field outside 0..23 gives `None` |
| Clock.ExampleWords | app_cursor.py:259-268 | "noon-ish" gives `None` |
| Clock.ExampleOutOfRange | app_cursor.py:251-256 | "24:00" gives `None` |
| Clock.DisplayRoundTrip | app_cursor.py:393-396 | The `%I:%M %p` display with its leading zero stripped parses back under `" %I:%M %p"` to the same hour and minute |
| Clock.DisplayShape | app_cursor.py:394 | The display is the 12-hour hour without a leading zero, `:`, two minute digits, a space and AM/PM, and its hour converts back to the 24-hour hour |
| Dates.DaysInMonth | app_cursor.py:296 | Every month has 28 to 31 days, and 29 exactly for February of a leap year |
| Dates.ParseDatePrefix | app_cursor.py:296 | A date read at the start of a text is a real calendar date |
| Dates.ParseDate | app_cursor.py:296 | `strptime(..., "%m/%d/%Y")` accepts only real calendar dates (years 1..9999, days per month, leap years) |
| Dates.FormatDateRoundTrip | app_cursor.py:284 | Formatting a valid date with four-digit year as `%m<sep>%d<sep>%Y` and parsing it back gives the same date |
| Dates.FormatDatePrefix | app_cursor.py:396 | A formatted date followed by any text is read back as the date, leaving that text |
| Dates.ParseMonthDay | app_cursor.py:281 | `"%B %d"` gives a month 1..12 and a day valid for that month in 1900 |
| Dates.MonthNameParses | app_cursor.py:281 | A month name (in any case) followed by a space and a day valid in 1900 reads as that month and day |
| Dates.ResolveDate | app_cursor.py:274-309 | A resolved date is always a real calendar date |
| Dates.DashIsSlash | app_cursor.py:289 | A date text with a separator resolves as it does with every `-` replaced by `/` |
| Dates.FullDateKept | app_cursor.py:289-296 | A full `MM/DD/YYYY` date resolves to itself whatever the current year |
| Dates.DashedDateKept | app_cursor.py:289-296 | `MM-DD-YYYY` resolves to the same date as `MM/DD/YYYY` |
| Dates.MonthDayGetsYear | app_cursor.py:291-296 | `MM/DD` gets the current year appended and resolves to that day of the current year |
| Dates.NamedDateGetsYear | app_cursor.py:278-296 | Text with neither `/` nor `-` that reads as `"%B %d"` resolves to that month and day in the current year |
| Dates.SpelledDateGetsYear | app_cursor.py:278-296 | "<Month> <day>" resolves to that day of the current year |
| Dates.UnspelledRefused | app_cursor.py:278-309 | Text with no separator that is not `"%B %d"` takes the date-error path |
| Dates.BadMonthRefused | app_cursor.py:296-309 | A full date whose month field is not 1..12 takes the date-error path |
| Dates.ExampleBadDate | app_cursor.py:296-309 | "13/40/2025" takes the date-error path |
| Dates.ExampleSpelledDate | app_cursor.py:278-296 | "April 8" in 2025 resolves to 2025-04-08 |
| Dates.ExampleMonthDay | app_cursor.py:291-296 | "04/08" in 2025 resolves to 2025-04-08 |
| Dates.SpelledLeapDayRefused | app_cursor.py:281-286 | "February 29" is refused by `"%B %d"` (validated against 1900) |
| Dates.ExampleLeapDay | app_cursor.py:278-296 | In 2028 "02/29" resolves to 2028-02-29 but "February 29" takes the date-error path |
| Dates.NextDay | app_cursor.py:447 | The next day of a valid date is valid, and is missing exactly after 9999-12-31 |
| Dates.NextDayOrdinal | app_cursor.py:447 | The next day is exactly one day later in the day count from 0001-01-01 |
| Dates.OrdinalInjective | app_cursor.py:447 | Distinct valid dates have distinct day counts, so the next day is the only date one day later |
| Dates.SlashCount | app_cursor.py:292 | A formatted `MM/DD/YYYY` has exactly two slashes and no dash, so no year is appended |
| Events.NameOfUnnamed | app_cursor.py:958 | An attendee without a display name is known by the part of the email before `@` |
| Scheduler.CheckCalendar | app_cursor.py:270-369 | An unreadable date, or one `localize` cannot place, gives `([], False, None)`; otherwise the result is the scan of the events, or `([], False, None)` on a missing summary |
| Scheduler.ScanEvents | app_cursor.py:323-366 | The loop over events builds exactly the rows, conflict flag and details of the specification (or fails on a missing summary) |
| Scheduler.VisitEvent | app_cursor.py:327-364 | One pass appends the event's row, and a timed event at the requested time becomes the conflict; no summary fails |
| Scheduler.CheckSpecOutcome | app_cursor.py:274-369 | Any event without a summary gives `([], False, None)`, and so does an unreadable or unplaceable date; with a readable date and every summary present the scan completes and its view is the result |
| Scheduler.ConflictExactly | app_cursor.py:328-366 | `has_conflict` holds exactly when the date is readable, every event has a summary and some timed event starts at the normalised time |
| Scheduler.NoClashWithoutTimedMatch | app_cursor.py:332-352 | An unreadable time, or only all-day events, never gives a conflict |
| Scheduler.RowsOnePerEvent | app_cursor.py:354-364 | When the check succeeds there is one row per event in fetch order; otherwise no rows |
| Scheduler.DetailsFromLastClash | app_cursor.py:340-349 | Details are present exactly when there is a conflict, and describe the last clashing event |
| Scheduler.ScanSucceeds | app_cursor.py:328-366 | The loop completes exactly when every event has a summary |
| Scheduler.ScanRows | app_cursor.py:358-364 | A completed loop has one row per event, each built from its event |
| Scheduler.ScanConflict | app_cursor.py:340-344 | A completed loop flags a conflict exactly when some event clashes |
| Scheduler.ScanDetails | app_cursor.py:345-349 | A completed loop's details are those of the last clashing event |
| Scheduler.AttendeeEmails | app_cursor.py:348 | One email per attendee, in order, `''` where absent |
| Scheduler.LastClash | app_cursor.py:340-349 | The index found clashes and no later event clashes; with none found, no event clashes |
| Scheduler.AddHourMinutes | app_cursor.py:398 | Adding an hour moves the start 60 minutes later, and fails only at 23:xx on 9999-12-31 |
| Scheduler.UnplaceableDayRaises | app_cursor.py:371-397 | On a day `localize` cannot place (12/31/9999), the check gives `([], False, None)` and the booking raises, whatever the hour |
| Scheduler.TrailingSpaceSkipsCheck | app_cursor.py:374-397 | A full date with a trailing space is unreadable for the check, which reports no conflict, yet the booking goes ahead at that date and hour |
| Scheduler.BookOnlyWhenFree | app_cursor.py:374-391 | A conflict blocks the booking with the conflict's details; an invalid time blocks it; an inserted event implies no conflict and a valid time |
| Scheduler.BookInsertsTheHour | app_cursor.py:389-408 | With no conflict and a valid time, the event body starts at that date and time, ends 60 minutes later and lists the non-empty attendee emails |
| Scheduler.EmptyTimeInvalid | app_cursor.py:389-391 | An empty time is not a valid time |
| Scheduler.BookingTwiceIsBlocked | app_cursor.py:374-408 | Once a booked event is on the calendar, booking the same date and time again is blocked |
| Intent.Cleaned | app_cursor.py:208 | Every kept name is non-empty and stripped, and no names are added |
| Intent.CleanedMembers | app_cursor.py:208 | A name is kept exactly when it is the non-empty strip of an input name |
| Intent.CleanedConcat | app_cursor.py:208 | Cleaning works name by name, so it keeps the input order |
| Intent.CleanedOfClean | app_cursor.py:208 | Names that are already non-empty and stripped are kept as they are |
| Intent.CleanedIdempotent | app_cursor.py:208 | Cleaning twice is cleaning once |
| Intent.StringIsSplitList | app_cursor.py:206-211 | A string is parsed as the list of its comma-separated parts |
| Intent.JoinedNamesRoundTrip | app_cursor.py:209-211 | Clean names without commas, joined with commas, are parsed back to the same list |
| Intent.EmailRun | app_cursor.py:480 | The run of `[\w.-]` characters is maximal |
| Intent.WordRun | app_cursor.py:480 | The run of `\w` characters is maximal |
| Intent.LastDot | app_cursor.py:480 | The dot chosen by backtracking is the last dot followed by a word character |
| Intent.MatchAtShape | app_cursor.py:480 | A match is local part, `@`, domain, `.`, word characters, each part within its character class |
| Intent.Search | app_cursor.py:481 | A span `re.search` reports is a match of the pattern at its start, inside the text |
| Intent.SearchLeftmost | app_cursor.py:481 | `re.search` returns the leftmost position where the pattern matches, and no match means no position matches |
| Intent.NoAtNoEmail | app_cursor.py:480-481 | Text without `@` holds no email |
| Intent.ShapeIsFound | app_cursor.py:480 | Wherever the pattern matches from `i` to `j`, the greedy matcher finds a match from `i` reaching at least `j` |
| Intent.FindEmailLeftmost | app_cursor.py:480-481 | No email is found exactly when no span of the text has the pattern's shape; a found email has the shape, no shape starts earlier, and none from its start reaches further |
| Intent.AddressFound | app_cursor.py:480-481 | A plain address at the start of the text, followed by a character outside `[\w.-]`, is found whole |
| Intent.ParseInput | app_cursor.py:433-522 | The today, tomorrow, specific-date and meeting-request routes; bare `M/D` gets the year; the found email overrides; `Person` becomes a list |
| Intent.CompleteDetails | app_cursor.py:511-522 | The keys after editing, `type`, the email override, untouched other keys, and `Person` never a string |
| Intent.DayAfterIsNext | app_cursor.py:447 | "tomorrow" is the day after `today` and is written so it reads back; it raises on an unreadable `today` or 9999-12-31 |
| Intent.CompletionAgrees | app_cursor.py:468-470 | A bare `M/D` gets `/<year>` exactly as the date completion in `check_calendar` does, and completing again changes nothing |
| Contacts.Read | app_cursor.py:113-136 | A record read as a suggestion has a non-empty email, a name containing the query and its source |
| Contacts.Matches | app_cursor.py:110-136 | Every contact taken from a source is relevant and tagged with that source (what is taken, and in which order, is `MatchesInOrder`) |
| Contacts.MatchesInOrder | app_cursor.py:112-136 | A source gives suggestions exactly when none of its records is broken, and then they are the contacts of exactly its relevant records, in the source's order |
| Contacts.MatchesEmails | app_cursor.py:112-136 | A source read without a broken record yields exactly the addresses of its relevant records |
| Contacts.MatchesFailureSticks | app_cursor.py:114-117 | A record with an empty names or emails list fails the whole suggestion search |
| Contacts.AttendeeHits | app_cursor.py:151-155 | Every calendar attendee taken is relevant |
| Contacts.PastContacts | app_cursor.py:148-155 | Every past contact is relevant |
| Contacts.PastContactsComplete | app_cursor.py:148-155 | Every relevant attendee of every event is a past contact |
| Contacts.AttendeeHitsComplete | app_cursor.py:151-155 | Every relevant attendee of an event is taken |
| Contacts.AddHistory | app_cursor.py:158-164 | Existing contacts stay in front; an appended one is a calendar contact of `order` whose email was not listed before (which ones, and in which order, is `AddHistoryAppends`) |
| Contacts.AddHistoryAppends | app_cursor.py:158-164 | After the existing contacts come, in the iteration order, exactly the past contacts whose email is neither listed before nor held by an earlier past contact, each tagged as from the calendar |
| Contacts.AddHistoryEmails | app_cursor.py:158-164 | The emails afterwards are the earlier ones plus the email of every past contact |
| Contacts.KeyTotalPreorder | app_cursor.py:168-178 | The (tier, lower-cased name) key compares any two contacts and chains |
| Contacts.DedupBasics | app_cursor.py:180-186 | No duplicate emails, no new contacts, the same emails |
| Contacts.DedupKeepsFirsts | app_cursor.py:180-186 | The result is exactly the contacts that are the first with their email, in their order |
| Contacts.DedupSorted | app_cursor.py:180-186 | Deduplication keeps a sorted list sorted |
| Contacts.RankProperties | app_cursor.py:166-188 | At most ten, unique emails, non-decreasing (tier, name), drawn from the input, and every email kept when fewer than ten |
| Contacts.RankSurvivors | app_cursor.py:166-188 | The contact kept for an email ranks no lower than any other with it, ties going to the one merged first (directory, connections, calendar); no email cut by the limit of ten ranks above a kept one |
| Contacts.MergedProperties | app_cursor.py:110-164 | Every merged contact is relevant; a calendar one is a past contact whose email no other source had |
| Contacts.MergedEmails | app_cursor.py:110-164 | The merged emails are exactly those of the relevant directory people, the relevant connections and the relevant calendar attendees |
| Contacts.SuggestProperties | app_cursor.py:110-191 | The suggestions have the ranking, survivor and merge properties above; with fewer than ten, their emails are exactly those some source offers for the query; a broken record gives `[]` |
| Contacts.Suggestions | app_cursor.py:110-188 | The loops over sources, calendar events, the set, the sort and the dedup compute exactly the specified suggestions |
| Contacts.AppendMatches | app_cursor.py:112-136 | The loop over one source's people appends exactly that source's matches, or reports the broken record |
| Contacts.CollectPast | app_cursor.py:148-155 | The nested loop over events and attendees builds exactly the set of past contacts |
| Contacts.AddPast | app_cursor.py:158-164 | The loop over the set, in its iteration order, appends exactly the calendar entries `AddHistory` specifies |
| Contacts.DedupByEmail | app_cursor.py:180-186 | The loop with `seen_emails` keeps exactly the first contact per email |
| Contacts.EmailsAppend | app_cursor.py:184-186 | Appending a contact adds exactly its email to the emails seen |
| Contacts.PickedEmailRoundTrip | app_cursor.py:227-238 | The email read back from an option label is the contact's email (when it holds no `(` and does not end in `)`) |
| Contacts.ContactEmailChoice | app_cursor.py:216-240 | No candidates gives `None`, one gives its email, several give the chosen one's email |
| Sorting.SortByPermutes | app_cursor.py:178 | Sorting only reorders: same multiset, same length |
| Sorting.SortBySorted | app_cursor.py:178 | With a total preorder, the sorted list is in order |
| Sorting.SortByStable | app_cursor.py:975-979 | Equivalent elements keep their original order, as Python's stable sort with `reverse=True` does |
| Sorting.SortByNoDuplicates | app_cursor.py:975-979 | Sorting a list without duplicates gives one without duplicates |
| Sorting.FilterMembers | app_cursor.py:401 | A list comprehension with a condition keeps exactly the elements meeting it |
| History.AttendeeHitList | app_cursor.py:956-959 | An event's hits for an email all come from that event, and exist exactly when some attendee with that email matches |
| History.HitList | app_cursor.py:952-959 | Every hit comes from a scanned event that has a matching attendee |
| History.AttendeeFirstSeen | app_cursor.py:960-966 | Keys are added once each, after the earlier ones, exactly for matching emails |
| History.FirstSeen | app_cursor.py:952-966 | The dictionary's keys, in insertion order, are distinct and are exactly the emails with at least one hit |
| History.LastDateIsLatest | app_cursor.py:970-971 | `last_date` is one of the hits' dates and no hit's date is later |
| History.Summaries | app_cursor.py:965-969 | One summary per hit |
| History.MoreFrequentTotalPreorder | app_cursor.py:975-979 | The descending (count, last_date) order compares any two entries and chains |
| History.HitsHaveSummaries | app_cursor.py:965-969 | When the search is not discarded, every hit's event has a summary |
| History.TallyFirst | app_cursor.py:960-966 | A first hit starts the entry with its name, count 1, its date and its summary |
| History.TallyNext | app_cursor.py:967-971 | A further hit adds one to the count, appends the summary and keeps the later date |
| History.TallyAttendee | app_cursor.py:957-971 | One attendee updates the dictionary as the specification says, or reports the missing summary of a matching event |
| History.TallyEvent | app_cursor.py:954-971 | One event's attendees take the dictionary from its state after the earlier events to its state after this one |
| History.SearchAttendee | app_cursor.py:949-982 | The nested loops and the sort compute exactly the specified search result |
| History.TallyMeaning | app_cursor.py:960-971 | An entry holds the first name, the number of hits, each hit's summary in order, and the latest date |
| History.TableRows | app_cursor.py:973-977 | The dictionary's items have one row per email with a hit, with that email's entry |
| History.SearchMembers | app_cursor.py:975-980 | The result is the dictionary's items reordered, without duplicates |
| History.SearchRows | app_cursor.py:949-982 | Unless discarded, the result lists each email with a hit exactly once, with the entry of all its hits |
| History.SearchOrder | app_cursor.py:975-980 | The result is ordered by count, then last date, highest first, and ties keep their first-seen order |
| History.PreviousAttendeeChoice | app_cursor.py:193-202 | The default is an email met most often, the most recent among those; with no match or a discarded search, the lower-cased name without spaces at example.com |
| Text.StripIdempotent | app_cursor.py:208 | Stripping twice is stripping once |
| Text.SplitJoin | app_cursor.py:211 | Joining the parts of `split(',')` with commas gives back the text, and no part holds a comma |
| Text.JoinSplit | app_cursor.py:211 | Splitting comma-free parts joined with commas gives the parts back |
| Text.StrLeTotal | app_cursor.py:970 | String comparison orders any two strings |
| Text.StrLeTransitive | app_cursor.py:970 | String comparison chains |
| Text.NatToStringValue | app_cursor.py:294 | `str(n)` is the decimal digits of n |

## Left out

- The Streamlit interface, session state, styling and `main` are presentation. So is the message text that the functions return.
- OAuth and credential files are not modelled.
- The Google Calendar and People API calls, the Groq chat completions and `send_email` (SMTP) are not modelled. Their results are inputs of the model.
- Calls that raise are modelled as error values.
  - A model answer that is not valid JSON is `None`.
  - A `reply` that decodes to something other than an object, which the source would index and fail on, is `Raised`.
  - The raising `strptime` and `localize` in `book_appointment` are `Raises`.
- The `America/New_York` localisation is left out, except that it fails on the first and the last day `datetime` holds (`Scheduler.Localizable`). So are the UTC conversion, the ISO-8601 rendering of the query bounds and of the new event, and the `requestId` of the conference request. Events enter with their start already in local time. The new event's start and end are a date, an hour and a minute.
- Inserting the event and reading back its `hangoutLink` are network calls. `Scheduler.Inserted` only says which event the calendar then holds.
- `datetime.now`/`utcnow` are parameters: the current year and `today`.
- `check_calendar` with no date queries from now onward. The query bounds themselves are left out.
- `lower()`, `\w` and `\d` are modelled on ASCII letters and digits. Python applies them to all of Unicode.
- `strftime` pads years below 1000 inconsistently across platforms, so the round-trip lemmas ask for a four-digit year.
- The iteration order of the `past_contacts` set is unspecified in Python. It is a parameter that must list the set exactly once.
- The user's choice in the `st.selectbox` is a parameter `choice`.
- `parse_attendees` is called by the page (app_cursor.py:808 and :851) on the `Person` value of the model's JSON, so a list holding a non-string can reach it. The `AttributeError` that `strip` raises there is `None` in `Intent.ParseAttendees`; what the page shows after it is presentation.
- `book_appointment`'s `summary` defaults to `"Meeting"` (app_cursor.py:371). Its one caller passes `meeting_details.get("summary", "Meeting")`, so `Scheduler.Book` takes the summary as a parameter and the default is the caller's.
- The `total_events_checked` counter in `search_attendee` is never read, so it is not modelled.
- `check_calendar`'s `attendee_list` (the display strings) is never read, so it is not modelled.
