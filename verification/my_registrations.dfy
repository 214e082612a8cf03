/** The "My Registrations" view: the client-side join of the user's confirmed
    registrations with their events, and cancellation. Backend calls are input
    flags saying whether they succeeded; the tables they read are inputs. */
module MyRegistrations {
  import opened Domain
  import opened Seqs

  /** An event row extended with the id and status of its registration. */
  datatype Joined = Joined(event: Event, registrationId: string, status: Status)

  /** `regs.find(r => r.event_id === eventId)`, as an index. */
  function FindFirst(regs: seq<Registration>, eventId: string): (k: Option<nat>)
    ensures k.Some? ==> k.value < |regs| && regs[k.value].eventId == eventId
    ensures k.Some? ==> forall j :: 0 <= j < k.value ==> regs[j].eventId != eventId
    ensures k.None? <==> forall j :: 0 <= j < |regs| ==> regs[j].eventId != eventId
  {
    if regs == [] then None
    else if regs[0].eventId == eventId then Some(0)
    else match FindFirst(regs[1..], eventId)
      case None => None
      case Some(k) => Some(k + 1)
  }

  /** Some registration refers to `eventId`. */
  ghost predicate HasMatch(regs: seq<Registration>, eventId: string) {
    exists j :: 0 <= j < |regs| && regs[j].eventId == eventId
  }

  /** `events.map(event => ({...event, registration_id: reg!.id, status: reg!.status}))`
      where `reg` is the first registration for the event. An event without
      one makes `reg!.id` throw, which the view's handler catches: `None`. */
  function Join(regs: seq<Registration>, events: seq<Event>): (r: Option<seq<Joined>>)
    ensures r.Some? <==> forall i :: 0 <= i < |events| ==> HasMatch(regs, events[i].id)
    ensures r.Some? ==> |r.value| == |events|
    ensures r.Some? ==> forall i :: 0 <= i < |events| ==>
      && r.value[i].event == events[i]
      && FindFirst(regs, events[i].id).Some?
      && r.value[i].registrationId == regs[FindFirst(regs, events[i].id).value].id
      && r.value[i].status == regs[FindFirst(regs, events[i].id).value].status
  {
    if events == [] then Some([])
    else match FindFirst(regs, events[0].id)
      case None => None
      case Some(k) =>
        match Join(regs, events[1..])
        case None => None
        case Some(rest) =>
          var row := Joined(events[0], regs[k].id, regs[k].status);
          assert forall i :: 1 <= i < |events| ==> events[i] == events[1..][i - 1];
          Some([row] + rest)
  }

  /** Two registrations for the same event give one record, carrying the
      id and status of the earlier one. */
  lemma JoinKeepsFirstMatch(regs: seq<Registration>, events: seq<Event>, i: int, j1: int, j2: int)
    requires 0 <= i < |events|
    requires 0 <= j1 < j2 < |regs|
    requires regs[j1].eventId == events[i].id && regs[j2].eventId == events[i].id
    requires forall j :: 0 <= j < j1 ==> regs[j].eventId != events[i].id
    requires Join(regs, events).Some?
    ensures Join(regs, events).value[i].registrationId == regs[j1].id
    ensures Join(regs, events).value[i].status == regs[j1].status
  {
    var k := FindFirst(regs, events[i].id).value;
    assert k == j1;
  }

  /** Every joined record is an event of the input extended with the id and
      status of a registration for that event. */
  lemma JoinedRowsComeFromInputs(regs: seq<Registration>, events: seq<Event>, combined: seq<Joined>)
    requires Join(regs, events) == Some(combined)
    ensures forall i :: 0 <= i < |combined| ==>
      && combined[i].event in events
      && exists reg :: reg in regs && reg.eventId == combined[i].event.id
           && reg.id == combined[i].registrationId && reg.status == combined[i].status
  {
    forall i | 0 <= i < |combined|
      ensures combined[i].event in events
      ensures exists reg :: reg in regs && reg.eventId == combined[i].event.id &&
                reg.id == combined[i].registrationId && reg.status == combined[i].status
    {
      var k := FindFirst(regs, events[i].id).value;
      assert regs[k] in regs;
    }
  }

  /** The events the `.in('id', eventIds)` query returns for the registrations
      `regData`, in table order. */
  function EventsFor(regData: seq<Registration>, eventTable: seq<Event>): (events: seq<Event>)
    ensures forall e :: e in events <==> e in eventTable && exists reg :: reg in regData && reg.eventId == e.id
    ensures IsSubseq(events, eventTable)
    ensures forall e :: multiset(events)[e] == if e in events then multiset(eventTable)[e] else 0
  {
    var eventIds := Map(EventIdOf, regData);
    EventIdsOf(regData);
    Filter(IdInPred(eventIds), eventTable)
  }

  /** The id list `regData.map(r => r.event_id)` holds exactly the event ids
      of the registrations. */
  lemma EventIdsOf(regData: seq<Registration>)
    ensures forall id :: id in Map(EventIdOf, regData) <==> exists reg :: reg in regData && reg.eventId == id
  {
    forall id ensures id in Map(EventIdOf, regData) <==> exists reg :: reg in regData && EventIdOf(reg) == id {
      MapMember(EventIdOf, regData, id);
    }
  }

  /** Both queries succeed and the user has at least one confirmed registration. */
  predicate LoadSucceeds(user: Option<string>, regTable: seq<Registration>, regQueryOk: bool, eventQueryOk: bool) {
    user.Some? && regQueryOk && eventQueryOk && ConfirmedOf(regTable, user.value) != []
  }

  /** The view's list state after loading. Without a user, when either query
      fails, or when the user has no confirmed registrations (the event query
      is then not issued), the list is left as it was. Otherwise it becomes
      the join of the confirmed registrations with the events returned. */
  function LoadRegistrations(
    current: seq<Joined>, user: Option<string>,
    regTable: seq<Registration>, regQueryOk: bool,
    eventTable: seq<Event>, eventQueryOk: bool): (r: seq<Joined>)
    ensures !LoadSucceeds(user, regTable, regQueryOk, eventQueryOk) ==> r == current
    ensures LoadSucceeds(user, regTable, regQueryOk, eventQueryOk) ==>
      var eventData := EventsFor(ConfirmedOf(regTable, user.value), eventTable);
      && |r| == |eventData|
      && forall i :: 0 <= i < |r| ==>
        && r[i].event == eventData[i]
        && r[i].status == Confirmed
        && exists reg :: reg in regTable && IsConfirmedFor(reg, user.value) &&
             reg.eventId == r[i].event.id && reg.id == r[i].registrationId
  {
    if user.None? || !regQueryOk then current
    else
      var regData := ConfirmedOf(regTable, user.value);
      if regData == [] || !eventQueryOk then current
      else
        var eventData := EventsFor(regData, eventTable);
        JoinSucceedsOnQueryResult(regData, eventTable);
        var combined := Join(regData, eventData).value;
        JoinedRowsComeFromInputs(regData, eventData, combined);
        combined
  }

  /** `.in('id', eventIds)`. */
  function IdInPred(eventIds: seq<string>): Event -> bool {
    (e: Event) => e.id in eventIds
  }

  /** Every event the `.in('id', eventIds)` query returns has a registration,
      so the `reg!` assertion always holds and the join succeeds. */
  lemma JoinSucceedsOnQueryResult(regData: seq<Registration>, eventTable: seq<Event>)
    ensures Join(regData, EventsFor(regData, eventTable)).Some?
  {
    var eventData := EventsFor(regData, eventTable);
    forall i | 0 <= i < |eventData|
      ensures HasMatch(regData, eventData[i].id)
    {
      assert eventData[i] in eventData;
      var reg :| reg in regData && reg.eventId == eventData[i].id;
      var j :| 0 <= j < |regData| && regData[j] == reg;
    }
  }

  // ------------------------------------------------------------ cancellation

  /** The new list and whether the failure alert was shown. */
  datatype CancelOutcome = CancelOutcome(registrations: seq<Joined>, alerted: bool)

  predicate IsOther(row: Joined, registrationId: string) {
    row.registrationId != registrationId
  }

  function OtherPred(registrationId: string): Joined -> bool {
    row => IsOther(row, registrationId)
  }

  function SamePred(registrationId: string): Joined -> bool {
    row => !IsOther(row, registrationId)
  }

  /** The cancel action. Declining the confirmation does nothing. A failed
      status update shows the alert; a failed decrement is not reported. Only
      when both succeed are the records with this registration id removed. */
  function HandleCancel(list: seq<Joined>, confirmed: bool, registrationId: string, updateOk: bool, decrementOk: bool): (out: CancelOutcome)
    ensures !(confirmed && updateOk && decrementOk) ==> out.registrations == list
    ensures out.alerted <==> confirmed && !updateOk
    ensures confirmed && updateOk && decrementOk ==>
      && (forall row :: row in out.registrations <==> row in list && row.registrationId != registrationId)
      && IsSubseq(out.registrations, list)
  {
    if !confirmed then CancelOutcome(list, false)
    else if !updateOk then CancelOutcome(list, true)
    else if !decrementOk then CancelOutcome(list, false)
    else CancelOutcome(Filter(OtherPred(registrationId), list), false)
  }

  /** A successful cancellation removes exactly as many records as carry the
      registration id, so no other record is lost. */
  lemma CancelRemovesOnlyThatRegistration(list: seq<Joined>, registrationId: string)
    ensures var out := HandleCancel(list, true, registrationId, true, true).registrations;
      |list| - |out| == |Filter(SamePred(registrationId), list)|
  {
    FilterSplit(OtherPred(registrationId), SamePred(registrationId), list);
  }
}
