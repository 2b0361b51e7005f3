/**
 * Contact suggestions for a typed name (`get_contact_suggestions`): matches
 * from the domain directory, from the user's connections and from attendees
 * of calendar events are merged, ranked, de-duplicated by email and cut to
 * ten; and `get_contact_email`'s use of them.
 */
module Contacts {
  import opened Wrappers
  import opened Text
  import opened Sorting
  import opened Events

  /** The `source` tag of a suggestion: `directory`, `contacts` or `calendar`. */
  datatype Source = Directory | Connection | History

  datatype Contact = Contact(name: string, email: string, source: Source)

  /**
   * A person from the People API read with `names,emailAddresses`: a missing
   * key is `None`, and in each entry `displayName` or `value` may be absent.
   */
  datatype Person = Person(names: Option<seq<Option<string>>>, emailAddresses: Option<seq<Option<string>>>)

  /** `email and query.lower() in name.lower()`. */
  predicate Relevant(name: string, email: string, query: string) {
    email != "" && Contains(Lower(name), Lower(query))
  }

  /** How one person record is read: `person['names'][0]` on an empty list raises. */
  datatype Reading = Broken | Ignored | Match(contact: Contact)

  function Read(p: Person, query: string, source: Source): (r: Reading)
    ensures r.Match? ==> Relevant(r.contact.name, r.contact.email, query) && r.contact.source == source
  {
    match (p.names, p.emailAddresses)
    case (Some(names), Some(emails)) =>
      if |names| == 0 || |emails| == 0 then Broken
      else
        var name, email := names[0].GetOr(""), emails[0].GetOr("");
        if Relevant(name, email, query) then Match(Contact(name, email, source)) else Ignored
    case _ => Ignored
  }

  /** The suggestions one source yields, in its order; `None` once a record is broken. */
  function Matches(people: seq<Person>, query: string, source: Source): (r: Option<seq<Contact>>)
    ensures r.Some? ==> forall c :: c in r.value ==> Relevant(c.name, c.email, query) && c.source == source
  {
    if people == [] then Some([])
    else
      match Matches(people[..|people| - 1], query, source)
      case None => None
      case Some(cs) =>
        match Read(people[|people| - 1], query, source)
        case Broken => None
        case Ignored => Some(cs)
        case Match(c) => Some(cs + [c])
  }

  /** A broken record anywhere in a source sinks the whole source. */
  lemma {:induction false} MatchesFailureSticks(people: seq<Person>, k: nat, query: string, source: Source)
    requires k <= |people| && Matches(people[..k], query, source).None?
    ensures Matches(people, query, source).None?
    decreases |people| - k
  {
    if k < |people| {
      assert people[..k + 1][..k] == people[..k];
      MatchesFailureSticks(people, k + 1, query, source);
    } else {
      assert people[..k] == people;
    }
  }

  /** Person `i` of a source is read as a suggestion. */
  predicate Taken(people: seq<Person>, query: string, source: Source, i: nat) {
    i < |people| && Read(people[i], query, source).Match?
  }

  function TakenIn(people: seq<Person>, query: string, source: Source): nat -> bool {
    (i: nat) => Taken(people, query, source, i)
  }

  /**
   * A source yields suggestions exactly when none of its records is broken,
   * and then they are the contacts of the people read as suggestions, each
   * once and in the order the API listed them.
   */
  lemma MatchesInOrder(people: seq<Person>, query: string, source: Source)
    ensures Matches(people, query, source).Some? <==> forall i :: 0 <= i < |people| ==> !Read(people[i], query, source).Broken?
    ensures var idx := Positions(|people|, TakenIn(people, query, source));
      var m := Matches(people, query, source);
      m.Some? ==> |m.value| == |idx| && forall k :: 0 <= k < |idx| ==> Read(people[idx[k]], query, source) == Match(m.value[k])
  {
    MatchesSucceed(people, query, source, |people|);
    MatchesPrefix(people, query, source, |people|);
    assert people[..|people|] == people;
  }

  lemma {:induction false} MatchesSucceed(people: seq<Person>, query: string, source: Source, n: nat)
    requires n <= |people|
    ensures Matches(people[..n], query, source).Some? <==> forall i :: 0 <= i < n ==> !Read(people[i], query, source).Broken?
  {
    if n > 0 {
      MatchesSucceed(people, query, source, n - 1);
      assert people[..n][..n - 1] == people[..n - 1];
      if Matches(people[..n - 1], query, source).Some? {
        MatchesStep(people, n - 1, query, source, Matches(people[..n - 1], query, source).value);
      }
    }
  }

  lemma {:induction false} MatchesPrefix(people: seq<Person>, query: string, source: Source, n: nat)
    requires n <= |people|
    ensures var idx := Positions(n, TakenIn(people, query, source));
      var m := Matches(people[..n], query, source);
      m.Some? ==> |m.value| == |idx| && forall k :: 0 <= k < |idx| ==> Read(people[idx[k]], query, source) == Match(m.value[k])
  {
    if n > 0 && Matches(people[..n], query, source).Some? {
      assert people[..n][..n - 1] == people[..n - 1];
      var cs := Matches(people[..n - 1], query, source).value;
      MatchesPrefix(people, query, source, n - 1);
      MatchesStep(people, n - 1, query, source, cs);
      var idx0 := Positions(n - 1, TakenIn(people, query, source));
      if Read(people[n - 1], query, source).Match? {
        var c := Read(people[n - 1], query, source).contact;
        var idx := idx0 + [n - 1];
        assert Positions(n, TakenIn(people, query, source)) == idx;
        assert forall k :: 0 <= k < |idx0| ==> idx[k] == idx0[k] && (cs + [c])[k] == cs[k];
      }
    }
  }

  /** The `(name, email)` pairs of relevant attendees in a list of attendees. */
  function AttendeeHits(attendees: seq<Attendee>, query: string): (r: set<(string, string)>)
    ensures forall p :: p in r ==> Relevant(p.0, p.1, query)
  {
    if attendees == [] then {}
    else
      var a := attendees[|attendees| - 1];
      AttendeeHits(attendees[..|attendees| - 1], query)
        + (if Relevant(NameOf(a), EmailOf(a), query) then {(NameOf(a), EmailOf(a))} else {})
  }

  /** The set `past_contacts` built from the events. */
  function PastContacts(events: seq<Event>, query: string): (r: set<(string, string)>)
    ensures forall p :: p in r ==> Relevant(p.0, p.1, query)
  {
    if events == [] then {}
    else PastContacts(events[..|events| - 1], query) + AttendeeHits(AttendeesOf(events[|events| - 1]), query)
  }

  /** Every relevant attendee of every event is among the past contacts. */
  lemma {:induction false} PastContactsComplete(events: seq<Event>, query: string, i: nat, a: Attendee)
    requires i < |events| && a in AttendeesOf(events[i]) && Relevant(NameOf(a), EmailOf(a), query)
    ensures (NameOf(a), EmailOf(a)) in PastContacts(events, query)
  {
    if i == |events| - 1 {
      AttendeeHitsComplete(AttendeesOf(events[i]), query, a);
    } else {
      assert events[..|events| - 1][i] == events[i];
      PastContactsComplete(events[..|events| - 1], query, i, a);
    }
  }

  lemma {:induction false} AttendeeHitsComplete(attendees: seq<Attendee>, query: string, a: Attendee)
    requires a in attendees && Relevant(NameOf(a), EmailOf(a), query)
    ensures (NameOf(a), EmailOf(a)) in AttendeeHits(attendees, query)
  {
    if a != attendees[|attendees| - 1] {
      var k :| 0 <= k < |attendees| && attendees[k] == a;
      assert attendees[..|attendees| - 1][k] == a;
      AttendeeHitsComplete(attendees[..|attendees| - 1], query, a);
    }
  }

  function Emails(cs: seq<Contact>): set<string> {
    set c | c in cs :: c.email
  }

  /** `any(c['email'] == email for c in contacts)`. */
  predicate HasEmail(cs: seq<Contact>, email: string) {
    exists i :: 0 <= i < |cs| && cs[i].email == email
  }

  /**
   * Past contacts taken in `order` (the iteration order of the set), each
   * appended as a calendar suggestion unless its email is already listed.
   */
  function AddHistory(base: seq<Contact>, order: seq<(string, string)>): (r: seq<Contact>)
    ensures |base| <= |r| && r[..|base|] == base
    ensures forall c :: c in r ==> c in base || (c.source == History && (c.name, c.email) in order && c.email !in Emails(base))
  {
    if order == [] then base
    else
      var cs := AddHistory(base, order[..|order| - 1]);
      var (name, email) := order[|order| - 1];
      if HasEmail(cs, email) then cs
      else
        assert forall c :: c in base ==> c in cs by {
          forall c | c in base ensures c in cs {
            var k :| 0 <= k < |base| && base[k] == c;
            assert cs[k] == c;
          }
        }
        var r := cs + [Contact(name, email, History)];
        assert r[..|base|] == cs[..|base|];
        r
  }

  lemma HasEmailIn(cs: seq<Contact>, email: string)
    ensures HasEmail(cs, email) <==> email in Emails(cs)
  {
    if email in Emails(cs) {
      var c :| c in cs && c.email == email;
      var i :| 0 <= i < |cs| && cs[i] == c;
    }
  }

  /** Some pair among the first `n` of `order` has email `e`. */
  predicate ListsEmail(order: seq<(string, string)>, n: nat, e: string)
    requires n <= |order|
  {
    exists j :: 0 <= j < n && order[j].1 == e
  }

  /** The emails after the calendar step: those listed before and those of every past contact. */
  lemma {:induction false} AddHistoryEmails(base: seq<Contact>, order: seq<(string, string)>)
    ensures forall e :: e in Emails(AddHistory(base, order)) <==> e in Emails(base) || ListsEmail(order, |order|, e)
  {
    if order != [] {
      var n := |order| - 1;
      var prefix := order[..n];
      AddHistoryEmails(base, prefix);
      var cs := AddHistory(base, prefix);
      var (name, email) := order[n];
      HasEmailIn(cs, email);
      EmailsAppend(cs, Contact(name, email, History));
      forall e ensures ListsEmail(order, |order|, e) <==> ListsEmail(prefix, n, e) || e == email {
        if ListsEmail(order, |order|, e) {
          var j :| 0 <= j < |order| && order[j].1 == e;
          if j < n {
            assert prefix[j].1 == e;
          }
        }
        if ListsEmail(prefix, n, e) {
          var j :| 0 <= j < n && prefix[j].1 == e;
          assert order[j].1 == e;
        }
      }
    }
  }

  /** Past contact `i` brings an email that neither the other sources nor an earlier past contact had. */
  predicate NewEmail(base: seq<Contact>, order: seq<(string, string)>, i: nat) {
    i < |order| && order[i].1 !in Emails(base) && forall j :: 0 <= j < i ==> order[j].1 != order[i].1
  }

  function NewIn(base: seq<Contact>, order: seq<(string, string)>): nat -> bool {
    (i: nat) => NewEmail(base, order, i)
  }

  /**
   * The calendar step appends, after the directory and connection
   * suggestions, one calendar suggestion for each past contact that brings
   * a new email, in the order the set is iterated.
   */
  lemma AddHistoryAppends(base: seq<Contact>, order: seq<(string, string)>)
    ensures var idx := Positions(|order|, NewIn(base, order));
      var r := AddHistory(base, order);
      && |r| == |base| + |idx|
      && r[..|base|] == base
      && forall k :: 0 <= k < |idx| ==> r[|base| + k] == Contact(order[idx[k]].0, order[idx[k]].1, History)
  {
    AddHistoryPrefix(base, order, |order|);
    assert order[..|order|] == order;
  }

  lemma {:induction false} AddHistoryPrefix(base: seq<Contact>, order: seq<(string, string)>, n: nat)
    requires n <= |order|
    ensures var idx := Positions(n, NewIn(base, order));
      var r := AddHistory(base, order[..n]);
      && |r| == |base| + |idx|
      && forall k :: 0 <= k < |idx| ==> r[|base| + k] == Contact(order[idx[k]].0, order[idx[k]].1, History)
  {
    if n > 0 {
      var prefix := order[..n - 1];
      assert order[..n][..n - 1] == prefix;
      AddHistoryPrefix(base, order, n - 1);
      NewEmailIsUnlisted(base, order, n - 1);
      var cs := AddHistory(base, prefix);
      var idx0 := Positions(n - 1, NewIn(base, order));
      if NewEmail(base, order, n - 1) {
        var c := Contact(order[n - 1].0, order[n - 1].1, History);
        assert AddHistory(base, order[..n]) == cs + [c];
        assert Positions(n, NewIn(base, order)) == idx0 + [n - 1];
        assert forall k :: 0 <= k < |cs| ==> (cs + [c])[k] == cs[k];
      }
    }
  }

  /** A past contact brings a new email exactly when the list built so far lacks it. */
  lemma NewEmailIsUnlisted(base: seq<Contact>, order: seq<(string, string)>, i: nat)
    requires i < |order|
    ensures NewEmail(base, order, i) <==> !HasEmail(AddHistory(base, order[..i]), order[i].1)
  {
    var prefix := order[..i];
    var e := order[i].1;
    AddHistoryEmails(base, prefix);
    HasEmailIn(AddHistory(base, prefix), e);
    if ListsEmail(prefix, i, e) {
      var j :| 0 <= j < i && prefix[j].1 == e;
      assert order[j].1 == e;
    }
    if exists j :: 0 <= j < i && order[j].1 == e {
      var j :| 0 <= j < i && order[j].1 == e;
      assert prefix[j].1 == e;
    }
  }

  /** The priority tier of a name: 0 for an exact match, 1 for a prefix, 2 otherwise. */
  function Tier(c: Contact, query: string): nat {
    var name, q := Lower(c.name), Lower(query);
    if name == q then 0
    else if |q| <= |name| && name[..|q|] == q then 1
    else 2
  }

  /** `sort_key(a) <= sort_key(b)`: tuples compare by tier, then by lower-cased name. */
  predicate KeyLe(query: string, a: Contact, b: Contact) {
    Tier(a, query) < Tier(b, query) || (Tier(a, query) == Tier(b, query) && StrLe(Lower(a.name), Lower(b.name)))
  }

  lemma KeyTotalPreorder(query: string)
    ensures TotalPreorder((a: Contact, b: Contact) => KeyLe(query, a, b))
  {
    forall a: Contact, b: Contact ensures KeyLe(query, a, b) || KeyLe(query, b, a) {
      StrLeTotal(Lower(a.name), Lower(b.name));
    }
    forall a: Contact, b: Contact, c: Contact | KeyLe(query, a, b) && KeyLe(query, b, c)
      ensures KeyLe(query, a, c)
    {
      if Tier(a, query) == Tier(b, query) == Tier(c, query) {
        StrLeTransitive(Lower(a.name), Lower(b.name), Lower(c.name));
      }
    }
  }

  lemma EmailsAppend(cs: seq<Contact>, c: Contact)
    ensures Emails(cs + [c]) == Emails(cs) + {c.email}
  {
    assert forall x :: x in cs + [c] <==> x in cs || x == c;
  }

  /** The first suggestion for each email, in order. */
  function Dedup(cs: seq<Contact>): seq<Contact> {
    if cs == [] then []
    else
      var d := Dedup(cs[..|cs| - 1]);
      var c := cs[|cs| - 1];
      if c.email in Emails(d) then d else d + [c]
  }

  /** Dedup keeps some of the contacts, every email once and no email lost. */
  lemma {:induction false} DedupBasics(cs: seq<Contact>)
    ensures var r := Dedup(cs);
      && (forall c :: c in r ==> c in cs)
      && Emails(r) == Emails(cs)
      && (forall i, j :: 0 <= i < j < |r| ==> r[i].email != r[j].email)
  {
    if cs != [] {
      var prefix := cs[..|cs| - 1];
      var c := cs[|cs| - 1];
      DedupBasics(prefix);
      var d := Dedup(prefix);
      assert cs == prefix + [c];
      EmailsAppend(prefix, c);
      EmailsAppend(d, c);
      if c.email !in Emails(d) {
        var r := d + [c];
        forall i, j | 0 <= i < j < |r| ensures r[i].email != r[j].email {
          if j == |d| {
            assert r[i] in d;
          }
        }
      }
    }
  }

  /** `cs[i]` is the first contact in `cs` with its email. */
  predicate FirstOfEmail(cs: seq<Contact>, i: nat) {
    i < |cs| && forall j :: 0 <= j < i ==> cs[j].email != cs[i].email
  }

  function FirstIn(cs: seq<Contact>): nat -> bool {
    (i: nat) => FirstOfEmail(cs, i)
  }

  /**
   * What the loop over the sorted contacts keeps: exactly the first contact
   * of each email, in the order they come.
   */
  lemma DedupKeepsFirsts(cs: seq<Contact>)
    ensures Dedup(cs) == Pick(cs, Positions(|cs|, FirstIn(cs)))
  {
    DedupPrefix(cs, |cs|);
    assert cs[..|cs|] == cs;
  }

  /** The first `n` contacts keep the first contacts of their emails among the first `n`. */
  lemma {:induction false} DedupPrefix(cs: seq<Contact>, n: nat)
    requires n <= |cs|
    ensures Dedup(cs[..n]) == Pick(cs, Positions(n, FirstIn(cs)))
  {
    if n > 0 {
      var first := FirstIn(cs);
      var idx := Positions(n - 1, first);
      DedupPrefix(cs, n - 1);
      DedupStep(cs, n);
      assert first(n - 1) == FirstOfEmail(cs, n - 1);
      assert Positions(n, first) == idx + (if first(n - 1) then [n - 1] else []);
      if first(n - 1) {
        PickAppend(cs, idx, n - 1);
      }
    }
  }

  /** Contact `n - 1` is kept from the first `n` exactly when it is the first with its email. */
  lemma DedupStep(cs: seq<Contact>, n: nat)
    requires 0 < n <= |cs|
    ensures Dedup(cs[..n]) == Dedup(cs[..n - 1]) + (if FirstOfEmail(cs, n - 1) then [cs[n - 1]] else [])
  {
    var prefix := cs[..n];
    DedupSnoc(prefix);
    assert prefix[..n - 1] == cs[..n - 1];
    assert forall j :: 0 <= j < n ==> prefix[j] == cs[j];
    assert FirstOfEmail(prefix, n - 1) == FirstOfEmail(cs, n - 1);
  }

  /** One more contact is kept exactly when it is the first with its email. */
  lemma DedupSnoc(cs: seq<Contact>)
    requires cs != []
    ensures var n := |cs| - 1;
      Dedup(cs) == Dedup(cs[..n]) + (if FirstOfEmail(cs, n) then [cs[n]] else [])
  {
    LastFirstOfEmail(cs);
    DedupBasics(cs[..|cs| - 1]);
  }

  /** The last contact is the first with its email exactly when no earlier one has it. */
  lemma LastFirstOfEmail(cs: seq<Contact>)
    requires cs != []
    ensures var n := |cs| - 1;
      FirstOfEmail(cs, n) <==> cs[n].email !in Emails(cs[..n])
  {
    var n := |cs| - 1;
    var prefix := cs[..n];
    if cs[n].email in Emails(prefix) {
      var x :| x in prefix && x.email == cs[n].email;
      var j :| 0 <= j < n && prefix[j] == x;
      assert cs[j].email == cs[n].email;
    }
    if !FirstOfEmail(cs, n) {
      var j :| 0 <= j < n && cs[j].email == cs[n].email;
      assert prefix[j] in prefix;
    }
  }

  /** Keeping first occurrences keeps the order. */
  lemma {:induction false} DedupSorted(cs: seq<Contact>, le: (Contact, Contact) -> bool)
    requires SortedBy(cs, le)
    ensures SortedBy(Dedup(cs), le)
  {
    if cs != [] {
      var prefix := cs[..|cs| - 1];
      var c := cs[|cs| - 1];
      assert SortedBy(prefix, le);
      DedupSorted(prefix, le);
      DedupBasics(prefix);
      var d := Dedup(prefix);
      forall x | x in d ensures le(x, c) {
        var k :| 0 <= k < |prefix| && prefix[k] == x;
      }
    }
  }

  /** `unique_contacts[:10]`. */
  function Take10(cs: seq<Contact>): (r: seq<Contact>) {
    if |cs| <= 10 then cs else cs[..10]
  }

  /** All the suggestions before ranking, or `None` when a source record is broken. */
  function Merged(directory: seq<Person>, connections: seq<Person>, order: seq<(string, string)>, query: string): Option<seq<Contact>> {
    match (Matches(directory, query, Directory), Matches(connections, query, Connection))
    case (Some(d), Some(c)) => Some(AddHistory(d + c, order))
    case _ => None
  }

  /** `get_contact_suggestions(contacts_service, query)` once the three sources are read. */
  function Suggest(directory: seq<Person>, connections: seq<Person>, order: seq<(string, string)>, query: string): seq<Contact> {
    match Merged(directory, connections, order, query)
    case None => []
    case Some(m) => Take10(Dedup(SortBy(m, (a: Contact, b: Contact) => KeyLe(query, a, b))))
  }

  /** `order` lists the set `past_contacts` built from `events`, each pair once. */
  ghost predicate EnumeratesPast(order: seq<(string, string)>, events: seq<Event>, query: string) {
    && (forall i, j :: 0 <= i < j < |order| ==> order[i] != order[j])
    && (forall p :: p in order <==> p in PastContacts(events, query))
  }

  /**
   * Ranking keeps what it is given, orders it by (tier, lower-cased name),
   * keeps one entry per email and at most ten; with fewer than ten, every
   * email is still there.
   */
  lemma RankProperties(m: seq<Contact>, query: string)
    ensures var r := Take10(Dedup(SortBy(m, (a: Contact, b: Contact) => KeyLe(query, a, b))));
      && |r| <= 10
      && (forall i, j :: 0 <= i < j < |r| ==> r[i].email != r[j].email)
      && (forall i, j :: 0 <= i < j < |r| ==> KeyLe(query, r[i], r[j]))
      && (forall c :: c in r ==> c in m)
      && (|r| < 10 ==> Emails(r) == Emails(m))
  {
    var le := (a: Contact, b: Contact) => KeyLe(query, a, b);
    var sorted := SortBy(m, le);
    SortByPermutes(m, le);
    KeyTotalPreorder(query);
    SortBySorted(m, le);
    DedupSorted(sorted, le);
    DedupBasics(sorted);
    var u := Dedup(sorted);
    assert forall c :: c in sorted <==> c in m by {
      forall c ensures c in sorted <==> c in m {
        assert c in sorted <==> c in multiset(sorted);
      }
    }
    assert Emails(sorted) == Emails(m);
    var r := Take10(u);
    assert forall c :: c in r ==> c in u;
  }

  /** Entry `k` of the de-duplicated list is the first contact of its email, at its index among those. */
  lemma KeptIndex(cs: seq<Contact>, k: nat)
    requires k < |Dedup(cs)|
    ensures var idx := Positions(|cs|, FirstIn(cs));
      k < |idx| && Dedup(cs)[k] == cs[idx[k]] && FirstOfEmail(cs, idx[k])
  {
    DedupKeepsFirsts(cs);
    PositionsSpec(|cs|, FirstIn(cs));
  }

  /** The first contact with the email of contact `i`. */
  lemma EarliestOfEmail(cs: seq<Contact>, i: nat) returns (f: nat)
    requires i < |cs|
    ensures f <= i && FirstOfEmail(cs, f) && cs[f].email == cs[i].email
    decreases i
  {
    if FirstOfEmail(cs, i) {
      f := i;
    } else {
      var j :| 0 <= j < i && cs[j].email == cs[i].email;
      f := EarliestOfEmail(cs, j);
    }
  }

  /** The first contact with an email is kept, at the place `l` of the kept ones. */
  lemma KeptAt(cs: seq<Contact>, f: nat) returns (l: nat)
    requires FirstOfEmail(cs, f)
    ensures var idx := Positions(|cs|, FirstIn(cs));
      l < |idx| && idx[l] == f
  {
    var first := FirstIn(cs);
    var idx := Positions(|cs|, first);
    PositionsSpec(|cs|, first);
    assert first(f);
    assert f in idx;
    l :| 0 <= l < |idx| && idx[l] == f;
  }

  /** In a ranked list, the contact kept for an email ranks no lower than any other with that email. */
  lemma DedupBest(cs: seq<Contact>, query: string)
    requires SortedBy(cs, (a: Contact, b: Contact) => KeyLe(query, a, b))
    ensures forall x, c :: x in Dedup(cs) && c in cs && c.email == x.email ==> KeyLe(query, x, c)
  {
    var u := Dedup(cs);
    forall x, c | x in u && c in cs && c.email == x.email ensures KeyLe(query, x, c) {
      var k :| 0 <= k < |u| && u[k] == x;
      KeptIndex(cs, k);
      var f := Positions(|cs|, FirstIn(cs))[k];
      var i :| 0 <= i < |cs| && cs[i] == c;
      if i == f {
        StrLeReflexive(Lower(x.name));
      } else {
        assert f < i;
      }
    }
  }

  /** In a ranked list, an email cut off by the limit of ten ranks no higher than any kept one. */
  lemma DroppedRankLower(cs: seq<Contact>, query: string)
    requires SortedBy(cs, (a: Contact, b: Contact) => KeyLe(query, a, b))
    ensures var r := Take10(Dedup(cs));
      forall x, c :: x in r && c in cs && c.email !in Emails(r) ==> KeyLe(query, x, c)
  {
    var u := Dedup(cs);
    var r := Take10(u);
    var idx := Positions(|cs|, FirstIn(cs));
    DedupKeepsFirsts(cs);
    PositionsSpec(|cs|, FirstIn(cs));
    forall x, c | x in r && c in cs && c.email !in Emails(r) ensures KeyLe(query, x, c) {
      var k :| 0 <= k < |r| && r[k] == x;
      var i :| 0 <= i < |cs| && cs[i] == c;
      var f := EarliestOfEmail(cs, i);
      var l := KeptAt(cs, f);
      assert u[l] == cs[f];
      if l < |r| {
        assert false;
      }
      assert idx[k] < idx[l];
      assert u[k] == cs[idx[k]];
    }
  }

  /**
   * Among the contacts with the kept contact's email that rank equal to it,
   * the kept one comes first in the merged order: the sort is stable.
   */
  lemma SurvivorFirstTied(m: seq<Contact>, query: string)
    ensures var le := (a: Contact, b: Contact) => KeyLe(query, a, b);
      var r := Take10(Dedup(SortBy(m, le)));
      forall x, i :: x in r && 0 <= i < |m| && m[i].email == x.email && KeyLe(query, m[i], x) ==>
        exists j :: 0 <= j <= i && m[j] == x
  {
    var le := (a: Contact, b: Contact) => KeyLe(query, a, b);
    var sorted := SortBy(m, le);
    var u := Dedup(sorted);
    var r := Take10(u);
    KeyTotalPreorder(query);
    SortBySorted(m, le);
    SortByPermutes(m, le);
    DedupBest(sorted, query);
    forall x, i | x in r && 0 <= i < |m| && m[i].email == x.email && KeyLe(query, m[i], x)
      ensures exists j :: 0 <= j <= i && m[j] == x
    {
      var k :| 0 <= k < |r| && r[k] == x;
      assert u[k] == x;
      KeptIndex(sorted, k);
      var f := Positions(|sorted|, FirstIn(sorted))[k];
      var p := (y: Contact) => y.email == x.email && KeyLe(query, y, x) && KeyLe(query, x, y);
      StrLeReflexive(Lower(x.name));
      assert sorted[f] == x && KeyLe(query, x, x);
      assert p(sorted[f]);
      assert FirstOfEmail(sorted, f);
      forall j | 0 <= j < f ensures !p(sorted[j]) {
        assert sorted[j].email != sorted[f].email;
      }
      forall a, b | p(a) && p(b) ensures le(a, b) {
        assert KeyLe(query, a, x) && KeyLe(query, x, b);
        if Tier(a, query) == Tier(x, query) == Tier(b, query) {
          StrLeTransitive(Lower(a.name), Lower(x.name), Lower(b.name));
        }
        assert KeyLe(query, a, b);
      }
      SortByStable(m, le, p);
      FilterHead(sorted, p, f);
      assert m[i] in multiset(sorted);
      assert p(m[i]);
      var j := FirstSatisfying(m, p, i);
      FilterHead(m, p, j);
    }
  }

  /**
   * Which contact stands for an email, and which emails the limit of ten
   * cuts: the kept contact ranks no lower than any other with its email, ties
   * going to the one merged first (directory, then connections, then
   * calendar); and no email cut off ranks higher than a kept one.
   */
  lemma RankSurvivors(m: seq<Contact>, query: string)
    ensures var r := Take10(Dedup(SortBy(m, (a: Contact, b: Contact) => KeyLe(query, a, b))));
      && (forall x, c :: x in r && c in m && c.email == x.email ==> KeyLe(query, x, c))
      && (forall x, i :: x in r && 0 <= i < |m| && m[i].email == x.email && KeyLe(query, m[i], x) ==>
            exists j :: 0 <= j <= i && m[j] == x)
      && (forall x, c :: x in r && c in m && c.email !in Emails(r) ==> KeyLe(query, x, c))
  {
    var le := (a: Contact, b: Contact) => KeyLe(query, a, b);
    var sorted := SortBy(m, le);
    var u := Dedup(sorted);
    var r := Take10(u);
    KeyTotalPreorder(query);
    SortBySorted(m, le);
    SortByPermutes(m, le);
    assert forall c :: c in m ==> c in sorted by {
      forall c | c in m ensures c in sorted {
        assert c in multiset(m);
      }
    }
    assert forall x :: x in r ==> x in u;
    DedupBest(sorted, query);
    DroppedRankLower(sorted, query);
    SurvivorFirstTied(m, query);
  }

  /** Every merged suggestion is relevant, and a calendar one is a past contact whose email no other source had. */
  lemma MergedProperties(directory: seq<Person>, connections: seq<Person>, events: seq<Event>, order: seq<(string, string)>, query: string)
    requires EnumeratesPast(order, events, query)
    requires Merged(directory, connections, order, query).Some?
    ensures var m := Merged(directory, connections, order, query).value;
      var found := Matches(directory, query, Directory).value + Matches(connections, query, Connection).value;
      forall c :: c in m ==>
        && Relevant(c.name, c.email, query)
        && (c.source == History ==> (c.name, c.email) in PastContacts(events, query) && c.email !in Emails(found))
  {
    var d := Matches(directory, query, Directory).value;
    var cc := Matches(connections, query, Connection).value;
    assert forall c: Contact :: c in d + cc ==> c in d || c in cc;
  }

  /**
   * What the suggestions promise: at most ten, one per email, each relevant
   * to the query, ranked by (tier, lower-cased name), a calendar entry only
   * for a past contact whose email no other source had, and, with fewer than
   * ten, every email found. A broken record gives no suggestions at all.
   */
  lemma SuggestProperties(directory: seq<Person>, connections: seq<Person>, events: seq<Event>, order: seq<(string, string)>, query: string)
    requires EnumeratesPast(order, events, query)
    ensures var r := Suggest(directory, connections, order, query);
      && |r| <= 10
      && (forall i, j :: 0 <= i < j < |r| ==> r[i].email != r[j].email)
      && (forall c :: c in r ==> Relevant(c.name, c.email, query))
      && (forall i, j :: 0 <= i < j < |r| ==> KeyLe(query, r[i], r[j]))
      && (Merged(directory, connections, order, query).None? ==> r == [])
      && (Merged(directory, connections, order, query).Some? ==>
            var m := Merged(directory, connections, order, query).value;
            var found := Matches(directory, query, Directory).value + Matches(connections, query, Connection).value;
            && (forall c :: c in r ==> c in m)
            && (forall c :: c in r && c.source == History ==> (c.name, c.email) in PastContacts(events, query) && c.email !in Emails(found))
            && (|r| < 10 ==> Emails(r) == Emails(m))
            && (|r| < 10 ==> forall e :: e in Emails(r) <==> Offered(directory, connections, events, query, e))
            && (forall x, c :: x in r && c in m && c.email == x.email ==> KeyLe(query, x, c))
            && (forall x, i :: x in r && 0 <= i < |m| && m[i].email == x.email && KeyLe(query, m[i], x) ==>
                  exists j :: 0 <= j <= i && m[j] == x)
            && (forall x, c :: x in r && c in m && c.email !in Emails(r) ==> KeyLe(query, x, c)))
  {
    match Merged(directory, connections, order, query)
    case None =>
    case Some(m) =>
      RankProperties(m, query);
      RankSurvivors(m, query);
      MergedProperties(directory, connections, events, order, query);
      MergedEmails(directory, connections, events, order, query);
  }

  /** `people` holds a record that the loop over them turns into a suggestion with address `e`. */
  ghost predicate Yields(people: seq<Person>, query: string, source: Source, e: string) {
    exists i :: 0 <= i < |people| && Read(people[i], query, source).Match? && Read(people[i], query, source).contact.email == e
  }

  /**
   * Some source offers address `e` for the query: a relevant directory
   * entry or connection, or a relevant attendee of a calendar event.
   */
  ghost predicate Offered(directory: seq<Person>, connections: seq<Person>, events: seq<Event>, query: string, e: string) {
    || Yields(directory, query, Directory, e)
    || Yields(connections, query, Connection, e)
    || exists p :: p in PastContacts(events, query) && p.1 == e
  }

  /** A source read without a broken record yields exactly the addresses of its relevant records. */
  lemma MatchesEmails(people: seq<Person>, query: string, source: Source)
    requires Matches(people, query, source).Some?
    ensures forall e :: e in Emails(Matches(people, query, source).value) <==> Yields(people, query, source, e)
  {
    MatchesInOrder(people, query, source);
    PositionsSpec(|people|, TakenIn(people, query, source));
    forall e ensures e in Emails(Matches(people, query, source).value) <==> Yields(people, query, source, e) {
      if e in Emails(Matches(people, query, source).value) {
        MatchedIsYielded(people, query, source, e);
      }
      if Yields(people, query, source, e) {
        YieldedIsMatched(people, query, source, e);
      }
    }
  }

  lemma MatchedIsYielded(people: seq<Person>, query: string, source: Source, e: string)
    requires Matches(people, query, source).Some?
    requires var idx := Positions(|people|, TakenIn(people, query, source)); var v := Matches(people, query, source).value;
      |v| == |idx| && forall k :: 0 <= k < |idx| ==> Read(people[idx[k]], query, source) == Match(v[k])
    requires e in Emails(Matches(people, query, source).value)
    ensures Yields(people, query, source, e)
  {
    var v := Matches(people, query, source).value;
    var idx := Positions(|people|, TakenIn(people, query, source));
    var c :| c in v && c.email == e;
    var k :| 0 <= k < |v| && v[k] == c;
    assert Read(people[idx[k]], query, source) == Match(c);
  }

  lemma YieldedIsMatched(people: seq<Person>, query: string, source: Source, e: string)
    requires Matches(people, query, source).Some?
    requires var idx := Positions(|people|, TakenIn(people, query, source)); var v := Matches(people, query, source).value;
      |v| == |idx| && forall k :: 0 <= k < |idx| ==> Read(people[idx[k]], query, source) == Match(v[k])
    requires Yields(people, query, source, e)
    ensures e in Emails(Matches(people, query, source).value)
  {
    var v := Matches(people, query, source).value;
    var idx := Positions(|people|, TakenIn(people, query, source));
    PositionsSpec(|people|, TakenIn(people, query, source));
    var i :| 0 <= i < |people| && Read(people[i], query, source).Match? && Read(people[i], query, source).contact.email == e;
    assert TakenIn(people, query, source)(i);
    assert i in idx;
    var k :| 0 <= k < |idx| && idx[k] == i;
    assert v[k] in v;
  }

  /** The addresses merged from the three sources are exactly the offered ones. */
  lemma MergedEmails(directory: seq<Person>, connections: seq<Person>, events: seq<Event>, order: seq<(string, string)>, query: string)
    requires EnumeratesPast(order, events, query)
    requires Merged(directory, connections, order, query).Some?
    ensures forall e :: e in Emails(Merged(directory, connections, order, query).value) <==> Offered(directory, connections, events, query, e)
  {
    var d := Matches(directory, query, Directory).value;
    var cc := Matches(connections, query, Connection).value;
    MatchesEmails(directory, query, Directory);
    MatchesEmails(connections, query, Connection);
    AddHistoryEmails(d + cc, order);
    assert forall c: Contact :: c in d + cc <==> c in d || c in cc;
    assert Emails(d + cc) == Emails(d) + Emails(cc);
    forall e ensures ListsEmail(order, |order|, e) <==> exists p :: p in PastContacts(events, query) && p.1 == e {
      if ListsEmail(order, |order|, e) {
        var j :| 0 <= j < |order| && order[j].1 == e;
        assert order[j] in order;
      }
      if exists p :: p in PastContacts(events, query) && p.1 == e {
        var p :| p in PastContacts(events, query) && p.1 == e;
        var j :| 0 <= j < |order| && order[j] == p;
      }
    }
  }

  /**
   * `get_contact_suggestions(contacts_service, query)`, given what the three
   * API calls returned: the directory search, the connections and the
   * calendar events. `order` is the order in which the set of past contacts
   * is iterated.
   */
  method Suggestions(directory: seq<Person>, connections: seq<Person>, events: seq<Event>, order: seq<(string, string)>, query: string)
    returns (r: seq<Contact>)
    requires EnumeratesPast(order, events, query)
    ensures r == Suggest(directory, connections, order, query)
  {
    var ok, contacts := AppendMatches(directory, query, Directory, []);
    if !ok {
      return [];
    }
    ghost var fromDirectory := Matches(directory, query, Directory).value;
    assert contacts == fromDirectory;
    ok, contacts := AppendMatches(connections, query, Connection, contacts);
    if !ok {
      return [];
    }
    ghost var merged := fromDirectory + Matches(connections, query, Connection).value;
    assert contacts == merged;
    var past := CollectPast(events, query);
    assert forall p :: p in order <==> p in past;
    contacts := AddPast(contacts, order);
    assert Merged(directory, connections, order, query) == Some(contacts);
    contacts := SortBy(contacts, (a: Contact, b: Contact) => KeyLe(query, a, b));
    var unique := DedupByEmail(contacts);
    r := if |unique| <= 10 then unique else unique[..10];
  }

  /**
   * One of the loops over the people a source returned: each matching
   * person is appended to `contacts`; `ok` is false when a record lists no
   * name or no address (the `IndexError` that ends the function).
   */
  method AppendMatches(people: seq<Person>, query: string, source: Source, contacts0: seq<Contact>)
    returns (ok: bool, contacts: seq<Contact>)
    ensures ok <==> Matches(people, query, source).Some?
    ensures ok ==> contacts == contacts0 + Matches(people, query, source).value
  {
    contacts := contacts0;
    var i := 0;
    assert people[..0] == [];
    while i < |people|
      invariant 0 <= i <= |people|
      invariant Matches(people[..i], query, source).Some?
      invariant contacts == contacts0 + Matches(people[..i], query, source).value
    {
      var person := people[i];
      ghost var before := Matches(people[..i], query, source).value;
      MatchesStep(people, i, query, source, before);
      if person.names.Some? && person.emailAddresses.Some? {
        if |person.names.value| == 0 || |person.emailAddresses.value| == 0 {
          MatchesFailureSticks(people, i + 1, query, source);
          return false, [];
        }
        var name := person.names.value[0].GetOr("");
        var email := person.emailAddresses.value[0].GetOr("");
        if email != "" && Contains(Lower(name), Lower(query)) {
          contacts := contacts + [Contact(name, email, source)];
          assert contacts == contacts0 + (before + [Contact(name, email, source)]);
        }
      }
      i := i + 1;
    }
    assert people[..i] == people;
    ok := true;
  }

  /** One more person extends a source's suggestions as `Read` says. */
  lemma MatchesStep(people: seq<Person>, i: nat, query: string, source: Source, cs: seq<Contact>)
    requires i < |people| && Matches(people[..i], query, source) == Some(cs)
    ensures Matches(people[..i + 1], query, source) == match Read(people[i], query, source)
      case Broken => None
      case Ignored => Some(cs)
      case Match(c) => Some(cs + [c])
  {
    assert people[..i + 1][..i] == people[..i];
  }

  /** The loop that builds the set `past_contacts` from the calendar events. */
  method CollectPast(events: seq<Event>, query: string) returns (past: set<(string, string)>)
    ensures past == PastContacts(events, query)
  {
    past := {};
    var e := 0;
    while e < |events|
      invariant 0 <= e <= |events|
      invariant past == PastContacts(events[..e], query)
    {
      var attendees := AttendeesOf(events[e]);
      var j := 0;
      while j < |attendees|
        invariant 0 <= j <= |attendees|
        invariant past == PastContacts(events[..e], query) + AttendeeHits(attendees[..j], query)
      {
        var email := EmailOf(attendees[j]);
        var name := NameOf(attendees[j]);
        if email != "" && Contains(Lower(name), Lower(query)) {
          past := past + {(name, email)};
        }
        assert attendees[..j + 1][..j] == attendees[..j];
        j := j + 1;
      }
      assert attendees[..j] == attendees;
      assert events[..e + 1][..e] == events[..e];
      e := e + 1;
    }
    assert events[..e] == events;
  }

  /** The loop over `past_contacts`, taken in `order`: a calendar entry for each email not yet listed. */
  method AddPast(base: seq<Contact>, order: seq<(string, string)>) returns (contacts: seq<Contact>)
    ensures contacts == AddHistory(base, order)
  {
    contacts := base;
    var k := 0;
    while k < |order|
      invariant 0 <= k <= |order|
      invariant contacts == AddHistory(base, order[..k])
    {
      var (name, email) := order[k];
      assert order[..k + 1][..k] == order[..k];
      if !HasEmail(contacts, email) {
        contacts := contacts + [Contact(name, email, History)];
      }
      k := k + 1;
    }
    assert order[..k] == order;
  }

  /** The loop that keeps the first contact for each email, with the set `seen_emails`. */
  method DedupByEmail(contacts: seq<Contact>) returns (unique: seq<Contact>)
    ensures unique == Dedup(contacts)
  {
    var seen: set<string> := {};
    unique := [];
    var i := 0;
    while i < |contacts|
      invariant 0 <= i <= |contacts|
      invariant unique == Dedup(contacts[..i]) && seen == Emails(unique)
    {
      var c := contacts[i];
      assert contacts[..i + 1] == contacts[..i] + [c];
      if c.email !in seen {
        EmailsAppend(unique, c);
        seen := seen + {c.email};
        unique := unique + [c];
      }
      i := i + 1;
    }
    assert contacts[..i] == contacts;
  }

  /** How a suggestion is offered in the selection box: `f"{icon} {name} ({email})"`. */
  function OptionText(c: Contact): string {
    var icon := match c.source
      case Connection => "\U{1F4E7}"
      case Directory => "\U{1F465}"
      case History => "\U{1F4C5}";
    icon + " " + c.name + " (" + c.email + ")"
  }

  /** `selected.split('(')[-1].rstrip(')')`. */
  function PickedEmail(option: string): string {
    var parts := Split(option, '(');
    StripTrailing(parts[|parts| - 1], ')')
  }

  /**
   * `get_contact_email(contacts_service, name)` on the suggestions: none
   * gives `None`, one is taken as it is, and among several the one at index
   * `choice` is what the user picks in the selection box.
   */
  function ContactEmail(candidates: seq<Contact>, choice: nat): Option<string> {
    if candidates == [] then None
    else if |candidates| == 1 then Some(candidates[0].email)
    else if choice < |candidates| then Some(PickedEmail(OptionText(candidates[choice])))
    else None
  }

  /** An email is read back from its option label unless it holds `(` or ends in `)`. */
  lemma PickedEmailRoundTrip(c: Contact)
    requires '(' !in c.email && (c.email == [] || c.email[|c.email| - 1] != ')')
    ensures PickedEmail(OptionText(c)) == c.email
  {
    var text := OptionText(c);
    var head := text[..|text| - |c.email| - 2];
    assert text == head + ['('] + (c.email + ")");
    var tail := c.email + ")";
    SplitLast(head, tail, '(');
    assert tail[..|tail| - 1] == c.email;
    assert StripTrailing(tail, ')') == StripTrailing(c.email, ')') == c.email;
  }

  /**
   * The email `get_contact_email` settles on: nothing for no suggestion, the
   * only suggestion's email, or the email of the suggestion the user picks.
   */
  lemma ContactEmailChoice(candidates: seq<Contact>, choice: nat)
    requires forall c :: c in candidates ==> '(' !in c.email && (c.email == [] || c.email[|c.email| - 1] != ')')
    ensures ContactEmail(candidates, choice).None? <==> candidates == [] || (|candidates| > 1 && choice >= |candidates|)
    ensures |candidates| == 1 ==> ContactEmail(candidates, choice) == Some(candidates[0].email)
    ensures |candidates| > 1 && choice < |candidates| ==> ContactEmail(candidates, choice) == Some(candidates[choice].email)
  {
    if |candidates| > 1 && choice < |candidates| {
      PickedEmailRoundTrip(candidates[choice]);
    }
  }
}
