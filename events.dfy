/**
 * Google Calendar events as the scheduling core reads them. An event's start
 * is either a timed start, given here already converted to local
 * (America/New_York) wall-clock time together with the raw text the API sent,
 * or an all-day start, which the API sends as a plain date text.
 */
module Events {
  import opened Wrappers
  import opened Text
  import opened Clock
  import opened Dates

  datatype Start =
    | Timed(raw: string, date: Date, hour: Hour, minute: Minute)
    | AllDay(raw: string)

  /** One entry of an event's `attendees` list; absent keys are `None`. */
  datatype Attendee = Attendee(email: Option<string>, displayName: Option<string>)

  /** An event; `summary`, `attendees` and `hangoutLink` may be absent. */
  datatype Event = Event(
    start: Start,
    summary: Option<string>,
    attendees: Option<seq<Attendee>>,
    hangoutLink: Option<string>)

  /** A timed start carries a real calendar date, as `datetime` guarantees. */
  predicate WellFormed(e: Event) {
    e.start.Timed? ==> ValidDate(e.start.date)
  }

  /** `event.get('attendees', [])`. */
  function AttendeesOf(e: Event): seq<Attendee> {
    e.attendees.GetOr([])
  }

  /** `attendee.get('email', '')`. */
  function EmailOf(a: Attendee): string {
    a.email.GetOr("")
  }

  /** `attendee.get('displayName', email.split('@')[0])`. */
  function NameOf(a: Attendee): string {
    a.displayName.GetOr(Split(EmailOf(a), '@')[0])
  }

  /** An attendee with no display name is known by the part of the email before the `@`. */
  lemma NameOfUnnamed(a: Attendee, user: string, domain: string)
    requires a.displayName.None? && a.email == Some(user + "@" + domain) && '@' !in user
    ensures NameOf(a) == user
  {
    SplitPrefix(user, domain, '@');
    assert user + "@" + domain == user + ['@'] + domain;
  }
}
