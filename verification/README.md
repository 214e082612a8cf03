# Event discovery and registration: the client-side logic

The application is a React front end over a hosted backend: users browse
events, register for them and cancel registrations. All persistence and
counter updates happen in the backend; what the front end decides for itself
is a small amount of pure logic inside three components. This project lifts
that logic out as functions over in-memory lists and proves what it does.

- **Event listing** (`EventList.tsx`): the case-insensitive search over
  title, description and location, the category filter with its `"all"`
  wildcard, the set of event ids the signed-in user is registered for, and the
  local state changes of the register action (insert a registration, then call
  the increment procedure, then bump the local count).
- **Event card** (`EventCard.tsx`): spots left, full/not full, the "Full"
  badge, the "(N spots left)" note, the disabled state, colour and label of
  the register button, and the category chip (icon, colour, text).
- **My registrations** (`MyRegistrations.tsx`): the client-side join of the
  user's confirmed registrations with their events, and cancellation (set the
  status to cancelled, then call the decrement procedure, then drop the
  record locally).

Every backend call is modelled as an input flag saying whether it succeeded;
the tables a query reads are inputs too, and a query's equality and `in`
filters are modelled as filters over those tables in table order.

Modules, one per file: `Domain` (the `Event` and `Registration` rows, the
`Category` and `Status` enumerations, the confirmed-registrations query),
`Seqs` (`filter`, `map`, `new Set(...)`, the subsequence relation), `Text`
(ASCII lower-casing, `includes`, `replace` with a one-character pattern),
`EventCard`, `EventList`, `MyRegistrations`. Field names are the camel-case
forms of the table columns (`registeredCount` for `registered_count`).

Only a failed insert or a failed status update raises the alert
(`EventList.tsx:91,106-108`, `MyRegistrations.tsx:67,76-78`). A failed
increment or decrement is silent (`EventList.tsx:97`, `MyRegistrations.tsx:73`).

## Model

| member | source | states |
|---|---|---|
| Seqs.Filter | src/components/EventList.tsx:63-73 | `filter` keeps, in order, each element satisfying the predicate as often as it occurs and drops every other one |
| Seqs.Map | src/components/MyRegistrations.tsx:31 | `map` keeps the length and puts the image of each element at its position |
| Seqs.ToSet | src/components/EventList.tsx:53 | `new Set(...)` holds exactly the elements of the sequence |
| Domain.CategoryNameInjective | src/lib/supabase.ts:12 | the four stored category strings are pairwise distinct, so comparing the stored string with a filter value compares categories |
| Domain.ConfirmedOf | src/components/EventList.tsx:46-50 | the registrations query returns exactly the table rows of that user with status confirmed, in table order, each as often as it occurs there |
| Text.Lower | src/components/EventList.tsx:65-67 | lower-casing keeps the length, maps each character through ASCII lower-casing and leaves no upper-case letter |
| Text.IncludesIsSubstring | src/components/EventList.tsx:65-67 | the left-to-right `includes` scan succeeds exactly when the needle occurs as a contiguous part of the haystack |
| Text.ReplaceFirst | src/components/EventCard.tsx:49 | replacing a one-character pattern changes only its first occurrence; every other character is kept |
| EventCard.CategoryLookupsInjective | src/components/EventCard.tsx:11-23 | the icon and colour tables are total over the four categories and give each its own entry |
| EventCard.CategoryLabel | src/components/EventCard.tsx:49 | the chip text has the stored name's length and equals it when the name has no underscore |
| EventCard.PlainCategoryLabels | src/components/EventCard.tsx:49 | seminar, workshop and concert are shown as stored |
| EventCard.TechFestLabel | src/components/EventCard.tsx:49 | `tech_fest` is shown as "tech fest" |
| EventCard.Render | src/components/EventCard.tsx:26-90 | spots left is capacity minus registered; full iff registered reaches capacity; badge iff full; the spots note iff not full, and then at least 1; disabled iff registered, full or loading; "Processing..." iff loading, else "Registered" iff registered, else "Event Full" iff full, and "Register Now" iff enabled; the registered colour iff registered, the full colour iff full and not registered, the wait overlay iff loading |
| EventCard.FullLabelAgreesWithBadge | src/components/EventCard.tsx:51-90 | "Event Full" on the button implies the "Full" badge, and the badge and the spots note never appear together |
| EventList.FilterEvents | src/components/EventList.tsx:59-76 | an event is listed iff it is in the source list and passes both the search and the category predicate; the result is no longer than the source |
| EventList.FilterEventsIsConjunction | src/components/EventList.tsx:59-75 | the two filters in sequence equal a single filter by the conjunction of both predicates |
| EventList.FilterEventsIsSubsequence | src/components/EventList.tsx:59-75 | the listing holds only source events, in their original order |
| EventList.FilterEventsNoFilter | src/components/EventList.tsx:62-71 | an empty term with category "all" returns the list unchanged |
| EventList.FilterEventsBySearch | src/components/EventList.tsx:62-69 | with a non-empty term and category "all", an event is kept iff the lower-cased term is a substring of its lower-cased title, description or location |
| EventList.FilterEventsByCategory | src/components/EventList.tsx:71-73 | with an empty search term and a category other than "all", an event is kept iff its category string equals the filter exactly |
| EventList.FilterEventsIdempotent | src/components/EventList.tsx:59-75 | filtering the result again with the same term and category changes nothing |
| EventList.LoadRegisteredIds | src/components/EventList.tsx:42-57 | without a user or on a failed query the set is unchanged; otherwise it holds exactly the event ids of that user's confirmed registrations |
| EventList.IncrementCount | src/components/EventList.tsx:97-103 | exactly the events whose id equals the registered id gain one in their count; every other field, every other event and the length are unchanged |
| EventList.HandleRegister | src/components/EventList.tsx:78-112 | no user: nothing changes and no alert; failed insert: alert and nothing changes; otherwise the id joins the registered set (no other id changes) and the matching counts rise by one only if the increment also succeeded |
| EventList.FilterCommutesWithIncrement | src/components/EventList.tsx:97-103 | the count update and the listing filter commute, so the visible list is updated consistently |
| EventList.RepeatedRegisterCountsTwice | src/components/EventList.tsx:78-112 | the handler itself does not refuse a repeated registration: two successful runs raise the count by two |
| EventList.CardFor | src/components/EventList.tsx:167-168 | a listed card is disabled iff its id is in the registered set, it is full, or its registration is in flight |
| EventList.RegisterLastSeat | src/components/EventList.tsx:97-105 | taking the last seat with both steps succeeding shows the full count, the badge, no spots note and "Registered" |
| EventList.IncrementFailureKeepsCount | src/components/EventList.tsx:97-105 | when only the increment fails the card says "Registered" while the counts are unchanged |
| MyRegistrations.FindFirst | src/components/MyRegistrations.tsx:40 | the index found is of a registration for the event with none before it; none is found iff no registration is for the event |
| MyRegistrations.Join | src/components/MyRegistrations.tsx:39-46 | the join succeeds iff every event has a registration; then it gives one record per event, in order, with all the event's fields and the id and status of the first matching registration |
| MyRegistrations.JoinKeepsFirstMatch | src/components/MyRegistrations.tsx:40-45 | two registrations for one event collapse into that event's single record, which carries the earlier one's id and status |
| MyRegistrations.JoinedRowsComeFromInputs | src/components/MyRegistrations.tsx:39-46 | every record is an input event extended with the id and status of a registration for it |
| MyRegistrations.EventsFor | src/components/MyRegistrations.tsx:31-35 | the `in` query returns exactly the table events whose id is the event id of one of the registrations, in table order, each as often as it occurs there |
| MyRegistrations.LoadRegistrations | src/components/MyRegistrations.tsx:18-55 | no user, a failed query or no confirmed registration leaves the list unchanged; otherwise the list becomes one record per event returned by the `in` query, in order, each with status confirmed and the id of a confirmed registration of the user for that event |
| MyRegistrations.JoinSucceedsOnQueryResult | src/components/MyRegistrations.tsx:31-46 | every event returned by the `in` query on the registrations' event ids has a registration, so the join never fails there |
| MyRegistrations.HandleCancel | src/components/MyRegistrations.tsx:57-82 | declining, a failed status update or a failed decrement leaves the list unchanged; the alert appears iff the status update failed; when both steps succeed a record stays iff it has another registration id, in the original order |
| MyRegistrations.CancelRemovesOnlyThatRegistration | src/components/MyRegistrations.tsx:73-75 | a successful cancellation removes exactly as many records as carry that registration id |

## Left out

- The backend client, its queries and its two counter procedures: network I/O. Each call is a success flag; what the procedures do to the stored counts, their atomicity and concurrent sessions are not visible in this code.
- Loading the event list (`loadEvents`, ordered by event date by the backend): a plain query whose result becomes the list; the ordering is the backend's.
- A `null` result set with no error (`data || []`): the model takes every successful query to return rows.
- React machinery: hooks, effects, the loading, `registeringId` and `cancellingId` flags (the card's `loading` prop is an input, an absent one counts as false), the confirmation dialog (an input flag), alerts (an output flag), console logging and layout.
- The button's full class string: the model gives the colour choice and the wait overlay separately (`EventCard.ToneClass`, `EventCard.WaitClass`) and does not concatenate them with the fixed classes.
- The `capitalize` styling of the chip text: presentation only.
- Date formatting (`formatDate`) and the form's date conversions: locale and time-zone dependent.
- `toLowerCase` beyond ASCII: Unicode case mapping is not modelled; only `A`-`Z` are lowered.
- JavaScript numbers are modelled as unbounded integers; counts and capacities never approach the range where floating-point addition is inexact.
- The admin event form (`EventForm.tsx`), the navigation bar and the application shell (`Navbar.tsx`, `App.tsx`), and the `Profile` row: form binding, view routing and role gating with no logic of their own.
- MyRegistrations.LoadRegistrations: states that each record's registration is a confirmed registration of the user for that event, not which one; that it is the first in query order is stated by `MyRegistrations.Join`.
