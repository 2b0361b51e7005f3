/**
 * Past attendees matching a name (`search_attendee`): every matching
 * attendee entry of the past year's events is tallied per email, and the
 * emails are ranked by how often and how recently they were met; and
 * `get_previous_attendee`, which takes the top one.
 */
module History {
  import opened Wrappers
  import opened Text
  import opened Sorting
  import opened Events

  /** `{'name', 'count', 'last_date', 'events'}` for one email. */
  datatype Tally = Tally(name: string, count: nat, lastDate: string, summaries: seq<string>)

  /** `email and name.lower() in attendee_name.lower()`. */
  predicate IsHit(a: Attendee, name: string) {
    EmailOf(a) != "" && Contains(Lower(NameOf(a)), Lower(name))
  }

  /** Some attendee of the event is a hit. */
  predicate HasHit(e: Event, name: string) {
    exists j :: 0 <= j < |AttendeesOf(e)| && IsHit(AttendeesOf(e)[j], name)
  }

  /** A hit in an event without a summary: `event['summary']` raises and the search gives `[]`. */
  predicate Broken(events: seq<Event>, name: string) {
    exists i :: 0 <= i < |events| && HasHit(events[i], name) && events[i].summary.None?
  }

  /** `event['start'].get('dateTime', event['start'].get('date'))`. */
  function DateOf(e: Event): string {
    e.start.raw
  }

  /** The hits for `email` among one event's attendees, each with the name it was listed under. */
  function AttendeeHitList(attendees: seq<Attendee>, ev: Event, name: string, email: string): (r: seq<(string, Event)>)
    ensures forall p :: p in r ==> p.1 == ev
    ensures |r| > 0 <==> exists j :: 0 <= j < |attendees| && IsHit(attendees[j], name) && EmailOf(attendees[j]) == email
  {
    if attendees == [] then []
    else
      var a := attendees[|attendees| - 1];
      var prefix := attendees[..|attendees| - 1];
      assert forall j :: 0 <= j < |prefix| ==> prefix[j] == attendees[j];
      AttendeeHitList(prefix, ev, name, email)
        + (if IsHit(a, name) && EmailOf(a) == email then [(NameOf(a), ev)] else [])
  }

  /** Every matching attendee entry for `email`, in scanning order. */
  function HitList(events: seq<Event>, name: string, email: string): (r: seq<(string, Event)>)
    ensures forall p :: p in r ==> p.1 in events && HasHit(p.1, name)
  {
    if events == [] then []
    else
      var ev := events[|events| - 1];
      var prefix := events[..|events| - 1];
      var here := AttendeeHitList(AttendeesOf(ev), ev, name, email);
      assert forall p :: p in here ==> HasHit(p.1, name) by {
        forall p | p in here ensures HasHit(p.1, name) {
          assert |here| > 0;
        }
      }
      HitList(prefix, name, email) + here
  }

  predicate Distinct(s: seq<string>) {
    forall i, j :: 0 <= i < j < |s| ==> s[i] != s[j]
  }

  /** The emails of the hits among one event's attendees, appended to `prior` as they are first seen. */
  function AttendeeFirstSeen(prior: seq<string>, attendees: seq<Attendee>, name: string): (r: seq<string>)
    requires Distinct(prior)
    ensures Distinct(r) && |prior| <= |r| && r[..|prior|] == prior
    ensures forall e :: e in r <==> e in prior || exists j :: 0 <= j < |attendees| && IsHit(attendees[j], name) && EmailOf(attendees[j]) == e
  {
    if attendees == [] then prior
    else
      var a := attendees[|attendees| - 1];
      var prefix := attendees[..|attendees| - 1];
      assert forall j :: 0 <= j < |prefix| ==> prefix[j] == attendees[j];
      var s := AttendeeFirstSeen(prior, prefix, name);
      if IsHit(a, name) && EmailOf(a) !in s then
        assert (s + [EmailOf(a)])[..|prior|] == s[..|prior|];
        s + [EmailOf(a)]
      else s
  }

  /** The keys of `past_attendees` in insertion order: each email with a hit, once, where first seen. */
  function FirstSeen(events: seq<Event>, name: string): (r: seq<string>)
    ensures Distinct(r)
    ensures forall e :: e in r <==> |HitList(events, name, e)| > 0
  {
    if events == [] then []
    else
      var ev := events[|events| - 1];
      AttendeeFirstSeen(FirstSeen(events[..|events| - 1], name), AttendeesOf(ev), name)
  }

  /** The latest of the hits' dates, taken as the loop does: a later date replaces the one kept. */
  function LastDate(hits: seq<(string, Event)>): string
    requires |hits| > 0
  {
    if |hits| == 1 then DateOf(hits[0].1)
    else
      var kept := LastDate(hits[..|hits| - 1]);
      var date := DateOf(hits[|hits| - 1].1);
      if !StrLe(date, kept) then date else kept
  }

  /** The last date is one of the hits' dates, and no hit is later. */
  lemma {:induction false} LastDateIsLatest(hits: seq<(string, Event)>)
    requires |hits| > 0
    ensures exists k :: 0 <= k < |hits| && LastDate(hits) == DateOf(hits[k].1)
    ensures forall k :: 0 <= k < |hits| ==> StrLe(DateOf(hits[k].1), LastDate(hits))
  {
    if |hits| == 1 {
      StrLeReflexive(DateOf(hits[0].1));
    } else {
      var prefix := hits[..|hits| - 1];
      LastDateIsLatest(prefix);
      var kept := LastDate(prefix);
      var date := DateOf(hits[|hits| - 1].1);
      var k0 :| 0 <= k0 < |prefix| && kept == DateOf(prefix[k0].1);
      assert hits[k0] == prefix[k0];
      StrLeTotal(date, kept);
      StrLeReflexive(date);
      forall k | 0 <= k < |hits| ensures StrLe(DateOf(hits[k].1), LastDate(hits)) {
        if k < |hits| - 1 {
          assert hits[k] == prefix[k];
          if !StrLe(date, kept) {
            StrLeTransitive(DateOf(hits[k].1), kept, date);
          }
        } else if StrLe(date, kept) {
        }
      }
    }
  }

  /** The summaries of the hits' events, in order (every one present when nothing is broken). */
  function Summaries(hits: seq<(string, Event)>): (r: seq<string>)
    ensures |r| == |hits|
  {
    if hits == [] then [] else Summaries(hits[..|hits| - 1]) + [hits[|hits| - 1].1.summary.GetOr("")]
  }

  /** The tally the loop builds from a list of hits (an email without hits has none). */
  function TallyOf(hits: seq<(string, Event)>): Tally {
    if hits == [] then Tally("", 0, "", []) else Tally(hits[0].0, |hits|, LastDate(hits), Summaries(hits))
  }

  /** `sorted(..., key=lambda x: (x[1]['count'], x[1]['last_date']), reverse=True)`: `a` may come before `b`. */
  predicate MoreFrequent(a: (string, Tally), b: (string, Tally)) {
    a.1.count > b.1.count || (a.1.count == b.1.count && StrLe(b.1.lastDate, a.1.lastDate))
  }

  lemma MoreFrequentTotalPreorder()
    ensures TotalPreorder(MoreFrequent)
  {
    forall a: (string, Tally), b: (string, Tally) ensures MoreFrequent(a, b) || MoreFrequent(b, a) {
      StrLeTotal(a.1.lastDate, b.1.lastDate);
    }
    forall a: (string, Tally), b: (string, Tally), c: (string, Tally) | MoreFrequent(a, b) && MoreFrequent(b, c)
      ensures MoreFrequent(a, c)
    {
      if a.1.count == b.1.count == c.1.count {
        StrLeTransitive(c.1.lastDate, b.1.lastDate, a.1.lastDate);
      }
    }
  }

  /** Each email's hits come from events with a summary when nothing is broken. */
  lemma HitsHaveSummaries(events: seq<Event>, name: string, email: string)
    requires !Broken(events, name)
    ensures forall p :: p in HitList(events, name, email) ==> p.1.summary.Some?
  {
    forall p | p in HitList(events, name, email) ensures p.1.summary.Some? {
      var i :| 0 <= i < |events| && events[i] == p.1;
    }
  }

  /** `past_attendees.items()` before sorting: each email first seen, with its tally. */
  function Table(events: seq<Event>, name: string): (r: seq<(string, Tally)>) {
    var emails := FirstSeen(events, name);
    seq(|emails|, k requires 0 <= k < |emails| => (emails[k], TallyOf(HitList(events, name, emails[k]))))
  }

  /** What `search_attendee(calendar_service, name)` returns on the fetched events. */
  function Search(events: seq<Event>, name: string): seq<(string, Tally)> {
    if Broken(events, name) then [] else SortBy(Table(events, name), MoreFrequent)
  }

  /** The first hit for an email starts its tally. */
  lemma TallyFirst(p: (string, Event))
    ensures TallyOf([p]) == Tally(p.0, 1, DateOf(p.1), [p.1.summary.GetOr("")])
  {
  }

  /** A further hit adds one to the count, keeps the later date and appends the summary. */
  lemma TallyNext(hits: seq<(string, Event)>, p: (string, Event))
    requires |hits| > 0
    ensures var t := TallyOf(hits);
      TallyOf(hits + [p]) == Tally(t.name, t.count + 1,
        if !StrLe(DateOf(p.1), t.lastDate) then DateOf(p.1) else t.lastDate,
        t.summaries + [p.1.summary.GetOr("")])
  {
    assert (hits + [p])[..|hits|] == hits;
  }

  /** The hits seen once the first `j` attendees of event `i` are scanned. */
  ghost function Pending(events: seq<Event>, i: nat, j: nat, name: string, email: string): seq<(string, Event)>
    requires i < |events| && j <= |AttendeesOf(events[i])|
  {
    HitList(events[..i], name, email) + AttendeeHitList(AttendeesOf(events[i])[..j], events[i], name, email)
  }

  lemma PendingStep(events: seq<Event>, i: nat, j: nat, name: string, email: string)
    requires i < |events| && j < |AttendeesOf(events[i])|
    ensures var a := AttendeesOf(events[i])[j];
      Pending(events, i, j + 1, name, email)
        == Pending(events, i, j, name, email) + (if IsHit(a, name) && EmailOf(a) == email then [(NameOf(a), events[i])] else [])
  {
    var atts := AttendeesOf(events[i]);
    assert atts[..j + 1][..j] == atts[..j];
  }

  lemma PendingDone(events: seq<Event>, i: nat, name: string, email: string)
    requires i < |events|
    ensures Pending(events, i, |AttendeesOf(events[i])|, name, email) == HitList(events[..i + 1], name, email)
  {
    assert events[..i + 1][..i] == events[..i];
    assert AttendeesOf(events[i])[..|AttendeesOf(events[i])|] == AttendeesOf(events[i]);
  }

  lemma SeenDone(events: seq<Event>, i: nat, name: string)
    requires i < |events|
    ensures FirstSeen(events[..i + 1], name) == AttendeeFirstSeen(FirstSeen(events[..i], name), AttendeesOf(events[i]), name)
  {
    assert events[..i + 1][..i] == events[..i];
  }

  lemma FirstSeenStep(prior: seq<string>, attendees: seq<Attendee>, j: nat, name: string)
    requires Distinct(prior) && j < |attendees|
    ensures var s := AttendeeFirstSeen(prior, attendees[..j], name);
      var a := attendees[j];
      AttendeeFirstSeen(prior, attendees[..j + 1], name) == if IsHit(a, name) && EmailOf(a) !in s then s + [EmailOf(a)] else s
  {
    assert attendees[..j + 1][..j] == attendees[..j];
  }

  /** The keys of `past_attendees` once the first `j` attendees of event `i` are scanned. */
  function SeenUpTo(events: seq<Event>, i: nat, j: nat, name: string): seq<string>
    requires i < |events| && j <= |AttendeesOf(events[i])|
  {
    AttendeeFirstSeen(FirstSeen(events[..i], name), AttendeesOf(events[i])[..j], name)
  }

  /** `past_attendees` once the first `i` events are scanned. */
  ghost function Tallies(events: seq<Event>, i: nat, name: string): map<string, Tally>
    requires i <= |events|
  {
    map e | e in FirstSeen(events[..i], name) :: TallyOf(HitList(events[..i], name, e))
  }

  /** `past_attendees` once the first `j` attendees of event `i` are scanned as well. */
  ghost function TalliesUpTo(events: seq<Event>, i: nat, j: nat, name: string): map<string, Tally>
    requires i < |events| && j <= |AttendeesOf(events[i])|
  {
    map e | e in SeenUpTo(events, i, j, name) :: TallyOf(Pending(events, i, j, name, e))
  }

  lemma StartEvent(events: seq<Event>, i: nat, name: string)
    requires i < |events|
    ensures SeenUpTo(events, i, 0, name) == FirstSeen(events[..i], name)
    ensures TalliesUpTo(events, i, 0, name) == Tallies(events, i, name)
  {
    assert AttendeesOf(events[i])[..0] == [];
    forall e ensures Pending(events, i, 0, name, e) == HitList(events[..i], name, e) {
      assert HitList(events[..i], name, e) + [] == HitList(events[..i], name, e);
    }
  }

  lemma FinishEvent(events: seq<Event>, i: nat, name: string)
    requires i < |events|
    ensures SeenUpTo(events, i, |AttendeesOf(events[i])|, name) == FirstSeen(events[..i + 1], name)
    ensures TalliesUpTo(events, i, |AttendeesOf(events[i])|, name) == Tallies(events, i + 1, name)
  {
    var n := |AttendeesOf(events[i])|;
    var keys := FirstSeen(events[..i + 1], name);
    FinishSeen(events, i, name);
    TalliesUpToKeys(events, i, n, name);
    TalliesKeys(events, i + 1, name);
    var m1 := TalliesUpTo(events, i, n, name);
    var m2 := Tallies(events, i + 1, name);
    assert forall e :: e in m1 <==> e in m2;
    forall e | e in m2 ensures m1[e] == m2[e] {
      FinishTallyAt(events, i, name, e);
    }
    MapsAgree(m1, m2);
  }

  lemma FinishSeen(events: seq<Event>, i: nat, name: string)
    requires i < |events|
    ensures SeenUpTo(events, i, |AttendeesOf(events[i])|, name) == FirstSeen(events[..i + 1], name)
  {
    var n := |AttendeesOf(events[i])|;
    assert AttendeesOf(events[i])[..n] == AttendeesOf(events[i]);
    SeenDone(events, i, name);
  }

  lemma TalliesUpToKeys(events: seq<Event>, i: nat, j: nat, name: string)
    requires i < |events| && j <= |AttendeesOf(events[i])|
    ensures forall e :: e in TalliesUpTo(events, i, j, name) <==> e in SeenUpTo(events, i, j, name)
  {
  }

  lemma TalliesKeys(events: seq<Event>, i: nat, name: string)
    requires i <= |events|
    ensures forall e :: e in Tallies(events, i, name) <==> e in FirstSeen(events[..i], name)
  {
  }

  lemma MapsAgree(m1: map<string, Tally>, m2: map<string, Tally>)
    requires forall e :: e in m1 <==> e in m2
    requires forall e | e in m2 :: m1[e] == m2[e]
    ensures m1 == m2
  {
  }

  lemma FinishTallyAt(events: seq<Event>, i: nat, name: string, e: string)
    requires i < |events| && e in FirstSeen(events[..i + 1], name)
    ensures SeenUpTo(events, i, |AttendeesOf(events[i])|, name) == FirstSeen(events[..i + 1], name)
    ensures TalliesUpTo(events, i, |AttendeesOf(events[i])|, name)[e] == Tallies(events, i + 1, name)[e]
  {
    var n := |AttendeesOf(events[i])|;
    assert AttendeesOf(events[i])[..n] == AttendeesOf(events[i]);
    SeenDone(events, i, name);
    PendingDone(events, i, name, e);
  }

  /** A scan with no broken event so far, whose current event is broken only if no hit was met in it yet, stays unbroken. */
  lemma FinishUnbroken(events: seq<Event>, i: nat, name: string)
    requires i < |events| && !Broken(events[..i], name)
    requires events[i].summary.None? ==> !HasHit(events[i], name)
    ensures !Broken(events[..i + 1], name)
  {
    var prefix := events[..i + 1];
    forall k | 0 <= k < i + 1 && HasHit(prefix[k], name) ensures prefix[k].summary.Some? {
      if k < i {
        assert prefix[k] == events[..i][k];
      }
    }
  }

  /** An attendee that is not a hit changes nothing. */
  lemma SkipAttendee(events: seq<Event>, i: nat, j: nat, name: string)
    requires i < |events| && j < |AttendeesOf(events[i])| && !IsHit(AttendeesOf(events[i])[j], name)
    ensures SeenUpTo(events, i, j + 1, name) == SeenUpTo(events, i, j, name)
    ensures TalliesUpTo(events, i, j + 1, name) == TalliesUpTo(events, i, j, name)
  {
    FirstSeenStep(FirstSeen(events[..i], name), AttendeesOf(events[i]), j, name);
    forall e ensures Pending(events, i, j + 1, name, e) == Pending(events, i, j, name, e) {
      PendingStep(events, i, j, name, e);
      assert Pending(events, i, j, name, e) + [] == Pending(events, i, j, name, e);
    }
  }

  /** A hit adds its email to the keys unless it is there already, which is when it had hits before. */
  lemma HitSeen(events: seq<Event>, i: nat, j: nat, name: string)
    requires i < |events| && j < |AttendeesOf(events[i])| && IsHit(AttendeesOf(events[i])[j], name)
    ensures var email := EmailOf(AttendeesOf(events[i])[j]);
      var seen := SeenUpTo(events, i, j, name);
      && SeenUpTo(events, i, j + 1, name) == (if email in seen then seen else seen + [email])
      && (email in seen <==> |Pending(events, i, j, name, email)| > 0)
  {
    var email := EmailOf(AttendeesOf(events[i])[j]);
    FirstSeenStep(FirstSeen(events[..i], name), AttendeesOf(events[i]), j, name);
    var atts := AttendeesOf(events[i])[..j];
    var before := HitList(events[..i], name, email);
    var here := AttendeeHitList(atts, events[i], name, email);
    assert |Pending(events, i, j, name, email)| == |before| + |here|;
  }

  /** A hit changes the tally of its email only, by adding that hit to its list. */
  lemma HitTallies(events: seq<Event>, i: nat, j: nat, name: string)
    requires i < |events| && j < |AttendeesOf(events[i])| && IsHit(AttendeesOf(events[i])[j], name)
    ensures var a := AttendeesOf(events[i])[j];
      TalliesUpTo(events, i, j + 1, name)
        == TalliesUpTo(events, i, j, name)[EmailOf(a) := TallyOf(Pending(events, i, j, name, EmailOf(a)) + [(NameOf(a), events[i])])]
  {
    HitDomains(events, i, j, name);
    HitValues(events, i, j, name);
    MapsAgree(TalliesUpTo(events, i, j + 1, name), HitUpdate(events, i, j, name));
  }

  /** The tallies of `HitTallies`' right-hand side. */
  ghost function HitUpdate(events: seq<Event>, i: nat, j: nat, name: string): map<string, Tally>
    requires i < |events| && j < |AttendeesOf(events[i])|
  {
    var a := AttendeesOf(events[i])[j];
    TalliesUpTo(events, i, j, name)[EmailOf(a) := TallyOf(Pending(events, i, j, name, EmailOf(a)) + [(NameOf(a), events[i])])]
  }

  lemma HitDomains(events: seq<Event>, i: nat, j: nat, name: string)
    requires i < |events| && j < |AttendeesOf(events[i])| && IsHit(AttendeesOf(events[i])[j], name)
    ensures forall e :: e in HitUpdate(events, i, j, name) <==> e in TalliesUpTo(events, i, j + 1, name)
    ensures forall e :: e in HitUpdate(events, i, j, name) <==> e in SeenUpTo(events, i, j + 1, name)
  {
    var email := EmailOf(AttendeesOf(events[i])[j]);
    var seen := SeenUpTo(events, i, j, name);
    HitSeen(events, i, j, name);
    assert forall e :: e in SeenUpTo(events, i, j + 1, name) <==> e in seen || e == email;
    TalliesUpToKeys(events, i, j, name);
    TalliesUpToKeys(events, i, j + 1, name);
  }

  lemma HitValues(events: seq<Event>, i: nat, j: nat, name: string)
    requires i < |events| && j < |AttendeesOf(events[i])| && IsHit(AttendeesOf(events[i])[j], name)
    ensures forall e | e in HitUpdate(events, i, j, name) ::
      e in TalliesUpTo(events, i, j + 1, name) && TalliesUpTo(events, i, j + 1, name)[e] == HitUpdate(events, i, j, name)[e]
  {
    HitDomains(events, i, j, name);
    forall e | e in HitUpdate(events, i, j, name)
      ensures TalliesUpTo(events, i, j + 1, name)[e] == HitUpdate(events, i, j, name)[e]
    {
      HitTallyAt(events, i, j, name, e);
    }
  }

  lemma HitTallyAt(events: seq<Event>, i: nat, j: nat, name: string, e: string)
    requires i < |events| && j < |AttendeesOf(events[i])| && IsHit(AttendeesOf(events[i])[j], name)
    requires e in SeenUpTo(events, i, j + 1, name)
    ensures var a := AttendeesOf(events[i])[j];
      && (e != EmailOf(a) ==> e in SeenUpTo(events, i, j, name))
      && TalliesUpTo(events, i, j + 1, name)[e]
           == if e == EmailOf(a) then TallyOf(Pending(events, i, j, name, e) + [(NameOf(a), events[i])])
              else TalliesUpTo(events, i, j, name)[e]
  {
    var a := AttendeesOf(events[i])[j];
    HitSeen(events, i, j, name);
    PendingStep(events, i, j, name, e);
    if e != EmailOf(a) {
      assert Pending(events, i, j, name, e) + [] == Pending(events, i, j, name, e);
    }
  }

  /**
   * The body of the inner loop of `search_attendee` for attendee `j` of event
   * `i`; `broken` reports the `KeyError` of a hit in an event without a summary.
   */
  method TallyAttendee(events: seq<Event>, i: nat, j: nat, name: string, tallies0: map<string, Tally>, order0: seq<string>)
    returns (tallies: map<string, Tally>, order: seq<string>, broken: bool)
    requires i < |events| && j < |AttendeesOf(events[i])|
    requires order0 == SeenUpTo(events, i, j, name) && tallies0 == TalliesUpTo(events, i, j, name)
    ensures broken <==> IsHit(AttendeesOf(events[i])[j], name) && events[i].summary.None?
    ensures !broken ==> order == SeenUpTo(events, i, j + 1, name) && tallies == TalliesUpTo(events, i, j + 1, name)
  {
    tallies, order := tallies0, order0;
    var ev := events[i];
    var a := AttendeesOf(ev)[j];
    var email := EmailOf(a);
    var attendeeName := NameOf(a);
    if !(email != "" && Contains(Lower(attendeeName), Lower(name))) {
      SkipAttendee(events, i, j, name);
      return tallies, order, false;
    }
    if ev.summary.None? {
      return tallies, order, true;
    }
    var summary := ev.summary.value;
    var date := DateOf(ev);
    HitSeen(events, i, j, name);
    HitTallies(events, i, j, name);
    ghost var hits := Pending(events, i, j, name, email);
    assert email in tallies <==> email in order;
    if email !in tallies {
      assert hits + [(attendeeName, ev)] == [(attendeeName, ev)];
      TallyFirst((attendeeName, ev));
      tallies := tallies[email := Tally(attendeeName, 1, date, [summary])];
      order := order + [email];
    } else {
      TallyNext(hits, (attendeeName, ev));
      var t := tallies[email];
      var last := if !StrLe(date, t.lastDate) then date else t.lastDate;
      tallies := tallies[email := Tally(t.name, t.count + 1, last, t.summaries + [summary])];
    }
    broken := false;
  }

  /** The inner loop of `search_attendee` over the attendees of event `i`. */
  method TallyEvent(events: seq<Event>, i: nat, name: string, tallies0: map<string, Tally>, order0: seq<string>)
    returns (tallies: map<string, Tally>, order: seq<string>, broken: bool)
    requires i < |events| && !Broken(events[..i], name)
    requires order0 == FirstSeen(events[..i], name) && tallies0 == Tallies(events, i, name)
    ensures broken ==> Broken(events, name)
    ensures !broken ==> && !Broken(events[..i + 1], name)
                        && order == FirstSeen(events[..i + 1], name) && tallies == Tallies(events, i + 1, name)
  {
    tallies, order := tallies0, order0;
    var attendees := AttendeesOf(events[i]);
    StartEvent(events, i, name);
    var j := 0;
    while j < |attendees|
      invariant 0 <= j <= |attendees|
      invariant events[i].summary.None? ==> forall k :: 0 <= k < j ==> !IsHit(attendees[k], name)
      invariant order == SeenUpTo(events, i, j, name) && tallies == TalliesUpTo(events, i, j, name)
    {
      tallies, order, broken := TallyAttendee(events, i, j, name, tallies, order);
      if broken {
        assert HasHit(events[i], name);
        return;
      }
      j := j + 1;
    }
    FinishEvent(events, i, name);
    FinishUnbroken(events, i, name);
    broken := false;
  }

  /**
   * `search_attendee(calendar_service, name)` on the events fetched for the
   * past year: `past_attendees` is a dictionary, kept as a map and the order
   * in which its keys were inserted.
   */
  method SearchAttendee(events: seq<Event>, name: string) returns (r: seq<(string, Tally)>)
    ensures r == Search(events, name)
  {
    var tallies: map<string, Tally> := map[];
    var order: seq<string> := [];
    var i := 0;
    assert events[..0] == [];
    while i < |events|
      invariant 0 <= i <= |events| && !Broken(events[..i], name)
      invariant order == FirstSeen(events[..i], name) && tallies == Tallies(events, i, name)
    {
      var broken;
      tallies, order, broken := TallyEvent(events, i, name, tallies, order);
      if broken {
        return [];
      }
      i := i + 1;
    }
    assert events[..i] == events;
    if |order| == 0 {
      return [];
    }
    var items := seq(|order|, k requires 0 <= k < |order| => (order[k], tallies[order[k]]));
    assert items == Table(events, name);
    r := SortBy(items, MoreFrequent);
  }

  lemma {:induction false} SummariesAt(hits: seq<(string, Event)>)
    ensures forall k :: 0 <= k < |hits| ==> Summaries(hits)[k] == hits[k].1.summary.GetOr("")
  {
    if hits != [] {
      var prefix := hits[..|hits| - 1];
      SummariesAt(prefix);
      assert forall k :: 0 <= k < |prefix| ==> prefix[k] == hits[k];
    }
  }

  /**
   * An email's entry: the name it was first listed under, how many times it
   * was met, the latest date it was met on, and each meeting's summary in
   * order.
   */
  lemma TallyMeaning(hits: seq<(string, Event)>)
    requires |hits| > 0
    ensures var t := TallyOf(hits);
      && t.name == hits[0].0 && t.count == |hits| && |t.summaries| == |hits|
      && (forall k :: 0 <= k < |hits| ==> t.summaries[k] == hits[k].1.summary.GetOr(""))
      && (exists k :: 0 <= k < |hits| && t.lastDate == DateOf(hits[k].1))
      && (forall k :: 0 <= k < |hits| ==> StrLe(DateOf(hits[k].1), t.lastDate))
  {
    SummariesAt(hits);
    LastDateIsLatest(hits);
  }

  /** `past_attendees.items()`: each email with a hit, exactly once, with the tally of its hits. */
  lemma TableRows(events: seq<Event>, name: string)
    ensures var t := Table(events, name);
      && NoDuplicates(t)
      && (forall k :: 0 <= k < |t| ==> t[k].1 == TallyOf(HitList(events, name, t[k].0)))
      && (forall e :: (exists k :: 0 <= k < |t| && t[k].0 == e) <==> |HitList(events, name, e)| > 0)
  {
    var t := Table(events, name);
    var emails := FirstSeen(events, name);
    forall e | |HitList(events, name, e)| > 0 ensures exists k :: 0 <= k < |t| && t[k].0 == e {
      var k :| 0 <= k < |emails| && emails[k] == e;
      assert t[k].0 == e;
    }
  }

  /** Without a broken event, the search holds the rows of the table, reordered. */
  lemma SearchMembers(events: seq<Event>, name: string)
    requires !Broken(events, name)
    ensures NoDuplicates(Search(events, name))
    ensures forall x :: x in Search(events, name) <==> x in Table(events, name)
  {
    var t := Table(events, name);
    var r := Search(events, name);
    TableRows(events, name);
    SortByPermutes(t, MoreFrequent);
    SortByNoDuplicates(t, MoreFrequent);
    forall x ensures x in r <==> x in t {
      assert x in r <==> x in multiset(r);
    }
  }

  /**
   * Without a broken event, the search lists each email with a hit exactly
   * once, with the tally of all its hits.
   */
  lemma SearchRows(events: seq<Event>, name: string)
    requires !Broken(events, name)
    ensures var r := Search(events, name);
      && (forall e :: (exists k :: 0 <= k < |r| && r[k].0 == e) <==> |HitList(events, name, e)| > 0)
      && (forall k :: 0 <= k < |r| ==> r[k].1 == TallyOf(HitList(events, name, r[k].0)))
      && (forall i, j :: 0 <= i < j < |r| ==> r[i].0 != r[j].0)
  {
    SearchMembers(events, name);
    SearchTallies(events, name);
    SearchEmails(events, name);
  }

  lemma SearchTallies(events: seq<Event>, name: string)
    requires !Broken(events, name)
    ensures var r := Search(events, name);
      forall k :: 0 <= k < |r| ==> r[k].1 == TallyOf(HitList(events, name, r[k].0))
  {
    var t := Table(events, name);
    var r := Search(events, name);
    TableRows(events, name);
    SearchMembers(events, name);
    forall k | 0 <= k < |r| ensures r[k].1 == TallyOf(HitList(events, name, r[k].0)) {
      assert r[k] in t;
    }
  }

  lemma SearchEmails(events: seq<Event>, name: string)
    requires !Broken(events, name)
    ensures var r := Search(events, name);
      forall e :: (exists k :: 0 <= k < |r| && r[k].0 == e) <==> |HitList(events, name, e)| > 0
  {
    SearchCovers(events, name);
    SearchOnlyHits(events, name);
  }

  lemma SearchCovers(events: seq<Event>, name: string)
    requires !Broken(events, name)
    ensures var r := Search(events, name);
      forall e | |HitList(events, name, e)| > 0 :: exists k :: 0 <= k < |r| && r[k].0 == e
  {
    var emails := FirstSeen(events, name);
    var t := Table(events, name);
    var r := Search(events, name);
    SearchMembers(events, name);
    forall e | |HitList(events, name, e)| > 0 ensures exists k :: 0 <= k < |r| && r[k].0 == e {
      assert e in emails;
      var m :| 0 <= m < |emails| && emails[m] == e;
      assert t[m].0 == e && t[m] in t;
      var k :| 0 <= k < |r| && r[k] == t[m];
      assert r[k].0 == e;
    }
  }

  lemma SearchOnlyHits(events: seq<Event>, name: string)
    requires !Broken(events, name)
    ensures var r := Search(events, name);
      forall k | 0 <= k < |r| :: |HitList(events, name, r[k].0)| > 0
  {
    var t := Table(events, name);
    var r := Search(events, name);
    TableRows(events, name);
    SearchMembers(events, name);
    forall k | 0 <= k < |r| ensures |HitList(events, name, r[k].0)| > 0 {
      assert r[k] in t;
    }
  }

  /** Entries with the same count and the same last date. */
  function KeyIs(count: nat, lastDate: string): ((string, Tally)) -> bool {
    (x: (string, Tally)) => x.1.count == count && x.1.lastDate == lastDate
  }

  /**
   * The search ranks by count, then by last date, highest first; entries with
   * equal count and last date stay in the order their emails were first met.
   */
  lemma SearchOrder(events: seq<Event>, name: string)
    requires !Broken(events, name)
    ensures var r := Search(events, name);
      && (forall i, j :: 0 <= i < j < |r| ==> MoreFrequent(r[i], r[j]))
      && (forall c, d :: Filter(r, KeyIs(c, d)) == Filter(Table(events, name), KeyIs(c, d)))
  {
    var t := Table(events, name);
    MoreFrequentTotalPreorder();
    SortBySorted(t, MoreFrequent);
    forall c, d ensures Filter(Search(events, name), KeyIs(c, d)) == Filter(t, KeyIs(c, d)) {
      StrLeReflexive(d);
      SortByStable(t, MoreFrequent, KeyIs(c, d));
    }
  }

  /** What `get_previous_attendee(calendar_service, name)` returns on the fetched events. */
  function PreviousAttendee(events: seq<Event>, name: string): string {
    var options := Search(events, name);
    if |options| > 0 then options[0].0 else Without(Lower(name), ' ') + "@example.com"
  }

  /**
   * The previous attendee is an email met most often, and among those the
   * one met most recently; with no hit, or a broken event, it is the
   * placeholder made from the name.
   */
  lemma PreviousAttendeeChoice(events: seq<Event>, name: string)
    ensures var r := PreviousAttendee(events, name);
      if !Broken(events, name) && exists e :: |HitList(events, name, e)| > 0 then
        && |HitList(events, name, r)| > 0
        && (forall e :: |HitList(events, name, e)| <= |HitList(events, name, r)|)
        && (forall e :: |HitList(events, name, e)| == |HitList(events, name, r)| ==>
              StrLe(TallyOf(HitList(events, name, e)).lastDate, TallyOf(HitList(events, name, r)).lastDate))
      else r == Without(Lower(name), ' ') + "@example.com"
  {
    var options := Search(events, name);
    if !Broken(events, name) {
      SearchRows(events, name);
      SearchOrder(events, name);
      if e0 :| |HitList(events, name, e0)| > 0 {
        assert |options| > 0;
        var r := options[0].0;
        forall e | |HitList(events, name, e)| > 0
          ensures |HitList(events, name, e)| <= |HitList(events, name, r)|
          ensures |HitList(events, name, e)| == |HitList(events, name, r)| ==>
            StrLe(TallyOf(HitList(events, name, e)).lastDate, TallyOf(HitList(events, name, r)).lastDate)
        {
          var k :| 0 <= k < |options| && options[k].0 == e;
          if k == 0 {
            StrLeReflexive(TallyOf(HitList(events, name, e)).lastDate);
          } else {
            assert MoreFrequent(options[0], options[k]);
          }
        }
      } else {
        assert |options| == 0;
      }
    }
  }
}
