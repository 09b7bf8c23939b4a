/** The calendar: adding an event keeps the list ordered by date, and each
    event type has a badge colour. `new Date(date).getTime()` is an abstract
    `key` from date strings to integers. */
module Calendar {

  datatype EventForm = EventForm(title: string, date: string, time: string, kind: string, description: string)

  /** A stored event; `kind` is the source's `type` field. */
  datatype Event = Event(id: string, title: string, date: string, time: string, kind: string,
                         description: string)

  datatype AddOutcome = MissingFields | Added(events: seq<Event>, form: EventForm)

  /** The form after a successful add: empty fields and type `class`. */
  const EmptyForm: EventForm := EventForm("", "", "", "class", "")

  ghost predicate SortedByDate(s: seq<Event>, key: string -> int)
  {
    forall i, j :: 0 <= i < j < |s| ==> key(s[i].date) <= key(s[j].date)
  }

  /** How many leading events of `s` do not come after `e`. */
  function InsertionPoint(s: seq<Event>, e: Event, key: string -> int): (k: nat)
    ensures k <= |s|
    ensures forall i :: 0 <= i < k ==> key(s[i].date) <= key(e.date)
    ensures k < |s| ==> key(e.date) < key(s[k].date)
    decreases |s|
  {
    if |s| == 0 || key(e.date) < key(s[0].date) then 0 else 1 + InsertionPoint(s[1..], e, key)
  }

  /** `e` placed after every event of the sorted `s` that does not come after
      it, which is where a stable sort puts a later element. */
  function InsertByDate(s: seq<Event>, e: Event, key: string -> int): (r: seq<Event>)
    requires SortedByDate(s, key)
    ensures SortedByDate(r, key)
    ensures multiset(r) == multiset(s) + multiset{e}
  {
    var k := InsertionPoint(s, e, key);
    InsertionKeepsOrder(s, e, key, k);
    s[..k] + [e] + s[k..]
  }

  lemma InsertionKeepsOrder(s: seq<Event>, e: Event, key: string -> int, k: nat)
    requires SortedByDate(s, key) && k == InsertionPoint(s, e, key)
    ensures SortedByDate(s[..k] + [e] + s[k..], key)
    ensures multiset(s[..k] + [e] + s[k..]) == multiset(s) + multiset{e}
  {
    InsertionSorted(s, e, key, k);
    calc {
      multiset(s[..k] + [e] + s[k..]);
      multiset(s[..k]) + multiset{e} + multiset(s[k..]);
      { assert s == s[..k] + s[k..]; }
      multiset(s) + multiset{e};
    }
  }

  lemma InsertionSorted(s: seq<Event>, e: Event, key: string -> int, k: nat)
    requires SortedByDate(s, key) && k == InsertionPoint(s, e, key)
    ensures SortedByDate(s[..k] + [e] + s[k..], key)
  {
    SortedSlices(s, k, key);
    SortedAround(s[..k], e, s[k..], key);
  }

  /** Both halves of a sorted list are sorted, and the back half only holds
      events not before its first. */
  lemma SortedSlices(s: seq<Event>, k: nat, key: string -> int)
    requires SortedByDate(s, key) && k <= |s|
    ensures SortedByDate(s[..k], key) && SortedByDate(s[k..], key)
    ensures forall i :: 0 <= i < k ==> s[..k][i] == s[i]
    ensures k < |s| ==> forall j :: 0 <= j < |s| - k ==> key(s[k].date) <= key(s[k..][j].date)
  {
  }

  /** An event not before any of the sorted `a` and not after any of the
      sorted `b` sits between them in date order. */
  lemma SortedAround(a: seq<Event>, e: Event, b: seq<Event>, key: string -> int)
    requires SortedByDate(a, key) && SortedByDate(b, key)
    requires forall i :: 0 <= i < |a| ==> key(a[i].date) <= key(e.date)
    requires forall j :: 0 <= j < |b| ==> key(e.date) <= key(b[j].date)
    ensures SortedByDate(a + [e] + b, key)
  {
    var r := a + [e] + b;
    forall i, j | 0 <= i < j < |r|
      ensures key(r[i].date) <= key(r[j].date)
    {
      if j < |a| {
        assert r[i] == a[i] && r[j] == a[j];
      } else if j == |a| {
        assert r[i] == a[i] && r[j] == e;
      } else if i < |a| {
        assert r[i] == a[i] && r[j] == b[j - |a| - 1];
      } else if i == |a| {
        assert r[i] == e && r[j] == b[j - |a| - 1];
      } else {
        assert r[i] == b[i - |a| - 1] && r[j] == b[j - |a| - 1];
      }
    }
  }

  /** A stable sort by date key. */
  function SortByDate(s: seq<Event>, key: string -> int): (r: seq<Event>)
    ensures SortedByDate(r, key)
    ensures multiset(r) == multiset(s)
    decreases |s|
  {
    if |s| == 0 then []
    else
      assert s == s[..|s| - 1] + [s[|s| - 1]];
      InsertByDate(SortByDate(s[..|s| - 1], key), s[|s| - 1], key)
  }

  /** Sorting an already sorted list changes nothing. */
  lemma {:induction false} SortKeepsSorted(s: seq<Event>, key: string -> int)
    requires SortedByDate(s, key)
    ensures SortByDate(s, key) == s
    decreases |s|
  {
    if |s| > 0 {
      var init, last := s[..|s| - 1], s[|s| - 1];
      SortedSplit(s, init, last, key);
      SortKeepsSorted(init, key);
      InsertionPointPastLeq(init, last, key);
      InsertAtEnd(init, last, key);
    }
  }

  /** The last event of a sorted list comes after none of the others, and the rest stays sorted. */
  lemma SortedSplit(s: seq<Event>, init: seq<Event>, last: Event, key: string -> int)
    requires |s| > 0 && SortedByDate(s, key) && init == s[..|s| - 1] && last == s[|s| - 1]
    ensures SortedByDate(init, key)
    ensures forall i :: 0 <= i < |init| ==> key(init[i].date) <= key(last.date)
    ensures s == init + [last]
  {
  }

  lemma InsertAtEnd(s: seq<Event>, e: Event, key: string -> int)
    requires SortedByDate(s, key) && InsertionPoint(s, e, key) == |s|
    ensures InsertByDate(s, e, key) == s + [e]
  {
    assert s[..|s|] == s;
    assert s[|s|..] == [];
  }

  /** If no event of `s` comes after `e`, `e` goes at the end. */
  lemma {:induction false} InsertionPointPastLeq(s: seq<Event>, e: Event, key: string -> int)
    requires forall i :: 0 <= i < |s| ==> key(s[i].date) <= key(e.date)
    ensures InsertionPoint(s, e, key) == |s|
    decreases |s|
  {
    if |s| > 0 {
      InsertionPointPastLeq(s[1..], e, key);
    }
  }

  /** The event a filled-in form becomes under the generated `id`. */
  function NewEvent(form: EventForm, id: string): Event
  {
    Event(id, form.title, form.date, form.time, form.kind, form.description)
  }

  /** `addEvent`: title, date and time are required; the new event joins the
      list, which is re-sorted by date, and the form is reset. */
  function AddEvent(events: seq<Event>, form: EventForm, id: string, key: string -> int): (r: AddOutcome)
    ensures r.MissingFields? <==> form.title == "" || form.date == "" || form.time == ""
    ensures r.Added? ==>
      && r.form == EmptyForm
      && |r.events| == |events| + 1
      && multiset(r.events) == multiset(events + [NewEvent(form, id)])
      && SortedByDate(r.events, key)
  {
    if form.title == "" || form.date == "" || form.time == "" then MissingFields
    else
      var e := NewEvent(form, id);
      var sorted := SortByDate(events + [e], key);
      assert |multiset(sorted)| == |events + [e]|;
      Added(sorted, EmptyForm)
  }

  /** `r` is `s` with `e` inserted at position `k`: after every event of `s`
      that does not come after it, before every event that does. */
  ghost predicate InsertedAt(s: seq<Event>, e: Event, k: int, r: seq<Event>, key: string -> int)
  {
    && 0 <= k <= |s|
    && r == s[..k] + [e] + s[k..]
    && (forall i :: 0 <= i < k ==> key(s[i].date) <= key(e.date))
    && (forall i :: k <= i < |s| ==> key(e.date) < key(s[i].date))
  }

  /** Adding to a list already in date order inserts the event in place:
      after every event that does not come after it, before all that do. */
  lemma AddToSortedInsertsInPlace(events: seq<Event>, form: EventForm, id: string, key: string -> int)
    requires SortedByDate(events, key)
    requires AddEvent(events, form, id, key).Added?
    ensures exists k :: InsertedAt(events, NewEvent(form, id), k, AddEvent(events, form, id, key).events, key)
  {
    var e := NewEvent(form, id);
    var k := InsertionPoint(events, e, key);
    assert AddEvent(events, form, id, key).events == events[..k] + [e] + events[k..] by {
      SortAppended(events, e, key);
      SortKeepsSorted(events, key);
      assert InsertByDate(events, e, key) == events[..k] + [e] + events[k..];
    }
    assert forall i :: k <= i < |events| ==> key(e.date) < key(events[i].date) by {
      AfterInsertionPoint(events, e, key);
    }
    assert InsertedAt(events, e, k, AddEvent(events, form, id, key).events, key);
  }

  /** Sorting a list with one more event at the end inserts that event into the sorted rest. */
  lemma SortAppended(s: seq<Event>, e: Event, key: string -> int)
    ensures SortByDate(s + [e], key) == InsertByDate(SortByDate(s, key), e, key)
  {
    var all := s + [e];
    assert all[..|all| - 1] == s;
  }

  /** In a sorted list every event from the insertion point on comes after `e`. */
  lemma AfterInsertionPoint(s: seq<Event>, e: Event, key: string -> int)
    requires SortedByDate(s, key)
    ensures forall i :: InsertionPoint(s, e, key) <= i < |s| ==> key(e.date) < key(s[i].date)
  {
  }

  // Badge colours: the `main` shades of the app's theme.
  const ErrorMain: string := "#F44336"
  const WarningMain: string := "#FF9800"
  const PrimaryMain: string := "#1976D2"
  const SecondaryMain: string := "#0288D1"

  /** `getEventTypeColor`: exam, assignment and class have their own colour,
      every other type shares the secondary one. */
  function EventTypeColor(kind: string): (c: string)
    ensures c == ErrorMain <==> kind == "exam"
    ensures c == WarningMain <==> kind == "assignment"
    ensures c == PrimaryMain <==> kind == "class"
    ensures c == SecondaryMain <==> kind != "exam" && kind != "assignment" && kind != "class"
  {
    match kind
    case "exam" => ErrorMain
    case "assignment" => WarningMain
    case "class" => PrimaryMain
    case _ => SecondaryMain
  }
}
