/** The records the application reads from its backend store (the `Event` and
    `Registration` row types) and the query the components issue for a user's
    confirmed registrations. */
module Domain {
  import opened Seqs

  datatype Option<+T> = None | Some(value: T)

  /** The fixed enumeration of event kinds. */
  datatype Category = Seminar | Workshop | TechFest | Concert

  datatype Status = Confirmed | Cancelled

  /** One row of the `events` table. Identifiers, dates and timestamps are the
      strings the backend returns; `capacity` and `registeredCount` are whole
      numbers. */
  datatype Event = Event(
    id: string,
    title: string,
    description: string,
    category: Category,
    location: string,
    eventDate: string,
    capacity: int,
    registeredCount: int,
    imageUrl: Option<string>,
    createdBy: Option<string>,
    createdAt: string,
    updatedAt: string)

  /** One row of the `registrations` table. */
  datatype Registration = Registration(
    id: string,
    eventId: string,
    userId: string,
    status: Status,
    registeredAt: string)

  /** The string the backend stores for a category. */
  function CategoryName(c: Category): (name: string)
    ensures name != "all"
  {
    match c
    case Seminar => "seminar"
    case Workshop => "workshop"
    case TechFest => "tech_fest"
    case Concert => "concert"
  }

  /** Distinct categories are stored as distinct strings, so comparing the
      stored string with a filter value is comparing categories. */
  lemma CategoryNameInjective(c: Category, d: Category)
    ensures CategoryName(c) == CategoryName(d) <==> c == d
  {
  }

  /** The condition `.eq('user_id', uid).eq('status', 'confirmed')`. */
  predicate IsConfirmedFor(r: Registration, uid: string) {
    r.userId == uid && r.status == Confirmed
  }

  function ConfirmedForPred(uid: string): Registration -> bool {
    r => IsConfirmedFor(r, uid)
  }

  /** The rows a select on `registrations` with both equality filters returns.
      The store's row order is not specified; the model keeps table order. */
  function ConfirmedOf(table: seq<Registration>, uid: string): (rows: seq<Registration>)
    ensures forall r :: r in rows <==> r in table && r.userId == uid && r.status == Confirmed
    ensures IsSubseq(rows, table)
    ensures forall r :: multiset(rows)[r] == if IsConfirmedFor(r, uid) then multiset(table)[r] else 0
  {
    Filter(ConfirmedForPred(uid), table)
  }

  function EventIdOf(r: Registration): string {
    r.eventId
  }
}
