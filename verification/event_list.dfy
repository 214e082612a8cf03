/** The event listing view: client-side search and category filtering, the set
    of event ids the signed-in user is registered for, and the local state
    changes made by the register action. Every backend call is an input flag
    saying whether it succeeded. */
module EventList {
  import opened Domain
  import opened Seqs
  import opened Text
  import EventCard

  /** The category filter's wildcard value. */
  const AllCategories := "all"

  // ---------------------------------------------------------------- filtering

  /** The search predicate: the lower-cased term occurs in the lower-cased
      title, description or location. */
  predicate MatchesSearch(e: Event, term: string) {
    var t := Lower(term);
    Includes(Lower(e.title), t) || Includes(Lower(e.description), t) || Includes(Lower(e.location), t)
  }

  /** The same predicate stated with the substring relation. */
  ghost predicate SearchSpec(e: Event, term: string) {
    var t := Lower(term);
    IsSubstring(t, Lower(e.title)) || IsSubstring(t, Lower(e.description)) || IsSubstring(t, Lower(e.location))
  }

  /** The category predicate: exact equality with the stored category string. */
  predicate MatchesCategory(e: Event, categoryFilter: string) {
    CategoryName(e.category) == categoryFilter
  }

  function SearchPred(term: string): Event -> bool {
    e => MatchesSearch(e, term)
  }

  function CategoryPred(categoryFilter: string): Event -> bool {
    e => MatchesCategory(e, categoryFilter)
  }

  /** An event is listed when it passes both filters; an empty term and the
      wildcard category each let everything through. */
  predicate Keep(e: Event, term: string, categoryFilter: string) {
    (term == "" || MatchesSearch(e, term)) && (categoryFilter == AllCategories || MatchesCategory(e, categoryFilter))
  }

  function KeepPred(term: string, categoryFilter: string): Event -> bool {
    e => Keep(e, term, categoryFilter)
  }

  /** The listing's filter: the search filter applied when the term is
      non-empty, then the category filter applied unless it is the wildcard. */
  function FilterEvents(events: seq<Event>, term: string, categoryFilter: string): (r: seq<Event>)
    ensures forall e :: e in r <==> e in events && Keep(e, term, categoryFilter)
    ensures |r| <= |events|
  {
    var searched := if term != "" then Filter(SearchPred(term), events) else events;
    if categoryFilter != AllCategories then Filter(CategoryPred(categoryFilter), searched) else searched
  }

  /** The two filters in sequence are one pass of the conjunction `Keep`. */
  lemma FilterEventsIsConjunction(events: seq<Event>, term: string, categoryFilter: string)
    ensures FilterEvents(events, term, categoryFilter) == Filter(KeepPred(term, categoryFilter), events)
  {
    var keep := KeepPred(term, categoryFilter);
    if term != "" && categoryFilter != AllCategories {
      FilterCompose(SearchPred(term), CategoryPred(categoryFilter), keep, events);
    } else if term != "" {
      FilterExt(SearchPred(term), keep, events);
    } else if categoryFilter != AllCategories {
      FilterExt(CategoryPred(categoryFilter), keep, events);
    } else {
      FilterKeepsAll(keep, events);
    }
  }

  /** The listing holds only events of the source list, in their original order. */
  lemma FilterEventsIsSubsequence(events: seq<Event>, term: string, categoryFilter: string)
    ensures IsSubseq(FilterEvents(events, term, categoryFilter), events)
  {
    FilterEventsIsConjunction(events, term, categoryFilter);
  }

  /** With an empty term and the wildcard the list is shown unchanged. */
  lemma FilterEventsNoFilter(events: seq<Event>)
    ensures FilterEvents(events, "", AllCategories) == events
  {
    FilterEventsIsConjunction(events, "", AllCategories);
    FilterKeepsAll(KeepPred("", AllCategories), events);
  }

  /** With a non-empty term and the wildcard category, an event is listed iff
      the lower-cased term is a substring of its lower-cased title,
      description or location. */
  lemma FilterEventsBySearch(events: seq<Event>, term: string, e: Event)
    requires term != "" && e in events
    ensures e in FilterEvents(events, term, AllCategories) <==> SearchSpec(e, term)
  {
    var t := Lower(term);
    IncludesIsSubstring(Lower(e.title), t);
    IncludesIsSubstring(Lower(e.description), t);
    IncludesIsSubstring(Lower(e.location), t);
  }

  /** With an empty term and a category other than the wildcard, an event is
      listed iff its category string equals the filter exactly. */
  lemma FilterEventsByCategory(events: seq<Event>, categoryFilter: string, e: Event)
    requires categoryFilter != AllCategories && e in events
    ensures e in FilterEvents(events, "", categoryFilter) <==> CategoryName(e.category) == categoryFilter
  {
  }

  /** Filtering the listing again with the same term and category changes nothing. */
  lemma FilterEventsIdempotent(events: seq<Event>, term: string, categoryFilter: string)
    ensures FilterEvents(FilterEvents(events, term, categoryFilter), term, categoryFilter)
         == FilterEvents(events, term, categoryFilter)
  {
    var once := FilterEvents(events, term, categoryFilter);
    FilterEventsIsConjunction(events, term, categoryFilter);
    FilterEventsIsConjunction(once, term, categoryFilter);
    FilterIdempotent(KeepPred(term, categoryFilter), events);
  }

  // ---------------------------------------------------------- registered ids

  /** The registered-id set after loading: unchanged without a signed-in user
      or when the query fails, otherwise `new Set(rows.map(r => r.event_id))`
      over the user's confirmed registrations. */
  function LoadRegisteredIds(registered: set<string>, user: Option<string>, table: seq<Registration>, queryOk: bool): (r: set<string>)
    ensures user.None? || !queryOk ==> r == registered
    ensures user.Some? && queryOk ==>
      forall id :: id in r <==> exists reg :: reg in table && IsConfirmedFor(reg, user.value) && reg.eventId == id
  {
    if user.None? || !queryOk then registered
    else
      var rows := ConfirmedOf(table, user.value);
      var ids := Map(EventIdOf, rows);
      assert forall id :: id in ids <==> exists reg :: reg in rows && EventIdOf(reg) == id by {
        forall id ensures id in ids <==> exists reg :: reg in rows && EventIdOf(reg) == id {
          MapMember(EventIdOf, rows, id);
        }
      }
      ToSet(ids)
  }

  // ------------------------------------------------------------ registration

  /** The listing's local state: the loaded events and the registered ids. */
  datatype ListState = ListState(events: seq<Event>, registered: set<string>)

  /** The new state and whether the failure alert was shown. */
  datatype RegisterOutcome = RegisterOutcome(state: ListState, alerted: bool)

  function Bump(e: Event, eventId: string): Event {
    if e.id == eventId then e.(registeredCount := e.registeredCount + 1) else e
  }

  function BumpFn(eventId: string): Event -> Event {
    e => Bump(e, eventId)
  }

  /** The optimistic update `events.map(e => e.id === eventId ? {...e, registered_count + 1} : e)`. */
  function IncrementCount(events: seq<Event>, eventId: string): (r: seq<Event>)
    ensures |r| == |events|
    ensures forall i :: 0 <= i < |events| ==>
      r[i].registeredCount == events[i].registeredCount + (if events[i].id == eventId then 1 else 0)
    ensures forall i :: 0 <= i < |events| ==>
      r[i].(registeredCount := events[i].registeredCount) == events[i]
  {
    Map(BumpFn(eventId), events)
  }

  /** The register action. Without a user it does nothing. The registration
      insert and the increment call each succeed or fail: a failed insert
      shows the alert and changes nothing; after a successful insert the id is
      added to the registered set, and the local count is raised only if the
      increment also succeeded. A failed increment is not reported. */
  function HandleRegister(st: ListState, user: Option<string>, eventId: string, insertOk: bool, incrementOk: bool): (out: RegisterOutcome)
    ensures user.None? ==> out == RegisterOutcome(st, false)
    ensures out.alerted <==> user.Some? && !insertOk
    ensures eventId in out.state.registered <==> eventId in st.registered || (user.Some? && insertOk)
    ensures forall id :: id != eventId ==> (id in out.state.registered <==> id in st.registered)
    ensures |out.state.events| == |st.events|
    ensures forall i :: 0 <= i < |st.events| ==>
      out.state.events[i].registeredCount == st.events[i].registeredCount
        + (if st.events[i].id == eventId && user.Some? && insertOk && incrementOk then 1 else 0)
    ensures forall i :: 0 <= i < |st.events| ==>
      out.state.events[i].(registeredCount := st.events[i].registeredCount) == st.events[i]
  {
    if user.None? then RegisterOutcome(st, false)
    else if !insertOk then RegisterOutcome(st, true)
    else
      var events := if incrementOk then IncrementCount(st.events, eventId) else st.events;
      RegisterOutcome(ListState(events, st.registered + {eventId}), false)
  }

  /** The count update does not change what the filters see, so the visible
      list after a successful registration is the old visible list with the
      same update applied. */
  lemma FilterCommutesWithIncrement(events: seq<Event>, term: string, categoryFilter: string, eventId: string)
    ensures FilterEvents(IncrementCount(events, eventId), term, categoryFilter)
         == IncrementCount(FilterEvents(events, term, categoryFilter), eventId)
  {
    FilterEventsIsConjunction(events, term, categoryFilter);
    FilterEventsIsConjunction(IncrementCount(events, eventId), term, categoryFilter);
    FilterMapCommute(KeepPred(term, categoryFilter), BumpFn(eventId), events);
  }

  /** The handler itself does not refuse a second registration: two successful
      runs for the same event raise its count by two while the id is in the
      set once. Only the card's disabled button prevents it. */
  lemma RepeatedRegisterCountsTwice(st: ListState, uid: string, eventId: string, i: int)
    requires 0 <= i < |st.events| && st.events[i].id == eventId
    ensures var once := HandleRegister(st, Some(uid), eventId, true, true).state;
      var twice := HandleRegister(once, Some(uid), eventId, true, true).state;
      twice.events[i].registeredCount == st.events[i].registeredCount + 2
      && twice.registered == st.registered + {eventId}
  {
  }

  // ------------------------------------------------------------------- cards

  /** The card the listing shows for `e`; `registeringId` is the event whose
      registration is in flight, if any. */
  function CardFor(st: ListState, registeringId: Option<string>, e: Event): (c: EventCard.Card)
    ensures c.disabled <==> e.id in st.registered || e.registeredCount >= e.capacity || registeringId == Some(e.id)
  {
    EventCard.Render(e, e.id in st.registered, registeringId == Some(e.id))
  }

  /** Taking the last seat: after both backend steps succeed for an event
      with one seat left (capacity 10, 9 registered, say), its card shows the
      full count, the "Full" badge, no spots-left note and "Registered". */
  lemma RegisterLastSeat(st: ListState, uid: string, i: int)
    requires 0 <= i < |st.events|
    requires st.events[i].registeredCount == st.events[i].capacity - 1
    ensures var e := st.events[i];
      var st' := HandleRegister(st, Some(uid), e.id, true, true).state;
      var c := CardFor(st', None, st'.events[i]);
      && st'.events[i].registeredCount == e.capacity
      && c.fullBadge && c.spotsNote.None? && c.disabled
      && c.buttonText == "Registered"
  {
  }

  /** When only the increment fails, the card already says "Registered" but
      the count it shows has not moved. */
  lemma IncrementFailureKeepsCount(st: ListState, uid: string, i: int)
    requires 0 <= i < |st.events|
    ensures var e := st.events[i];
      var st' := HandleRegister(st, Some(uid), e.id, true, false).state;
      && st'.events == st.events
      && CardFor(st', None, st'.events[i]).buttonText == "Registered"
  {
  }
}
