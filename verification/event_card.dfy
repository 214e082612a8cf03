/** What one event card shows: the category chip, the "Full" badge, the
    "(N spots left)" note, and the state, style and label of the register
    button. */
module EventCard {
  import opened Domain
  import opened Text

  datatype Icon = GraduationCap | Briefcase | Zap | Music

  /** The icon table keyed by category. */
  function CategoryIcon(c: Category): Icon {
    match c
    case Seminar => GraduationCap
    case Workshop => Briefcase
    case TechFest => Zap
    case Concert => Music
  }

  /** The chip colour table keyed by category. */
  function CategoryColor(c: Category): string {
    match c
    case Seminar => "bg-blue-100 text-blue-700"
    case Workshop => "bg-green-100 text-green-700"
    case TechFest => "bg-orange-100 text-orange-700"
    case Concert => "bg-pink-100 text-pink-700"
  }

  /** Both lookup tables give every category its own entry. */
  lemma CategoryLookupsInjective(c: Category, d: Category)
    ensures CategoryIcon(c) == CategoryIcon(d) <==> c == d
    ensures CategoryColor(c) == CategoryColor(d) <==> c == d
  {
  }

  /** The chip text: the stored name with its first underscore made a space. */
  function CategoryLabel(c: Category): (chip: string)
    ensures |chip| == |CategoryName(c)|
    ensures '_' !in CategoryName(c) ==> chip == CategoryName(c)
  {
    ReplaceFirst(CategoryName(c), '_', ' ')
  }

  /** The chip texts of the three names without an underscore are the names. */
  lemma PlainCategoryLabels()
    ensures CategoryLabel(Seminar) == "seminar"
    ensures CategoryLabel(Workshop) == "workshop"
    ensures CategoryLabel(Concert) == "concert"
  {
    assert '_' !in "seminar";
    assert '_' !in "workshop";
    assert '_' !in "concert";
  }

  /** `tech_fest` is shown as "tech fest". */
  lemma TechFestLabel()
    ensures CategoryLabel(TechFest) == "tech fest"
  {
    var s := "tech_fest";
    var t := CategoryLabel(TechFest);
    assert s[..4] == "tech";
    assert '_' !in s[..4];
    assert t[4] == ' ';
    assert forall i :: 0 <= i < 9 && i != 4 ==> s[i] != '_';
    assert forall i :: 0 <= i < 9 && i != 4 ==> t[i] == s[i];
  }

  /** The button's base colours: registered wins over full. */
  datatype Tone = RegisteredTone | FullTone | OpenTone

  function ToneClass(t: Tone): string {
    match t
    case RegisteredTone => "bg-green-100 text-green-700 cursor-default"
    case FullTone => "bg-gray-100 text-gray-400 cursor-not-allowed"
    case OpenTone => "bg-blue-600 text-white hover:bg-blue-700"
  }

  const WaitClass := "opacity-50 cursor-wait"

  /** Everything on a card that depends on the event and the two flags. */
  datatype Card = Card(
    icon: Icon,
    colorClass: string,
    categoryLabel: string,
    spotsLeft: int,
    isFull: bool,
    fullBadge: bool,
    spotsNote: Option<int>,
    disabled: bool,
    tone: Tone,
    waitOverlay: bool,
    buttonText: string)

  function SpotsLeft(e: Event): int {
    e.capacity - e.registeredCount
  }

  predicate IsFull(e: Event) {
    SpotsLeft(e) <= 0
  }

  function ButtonTone(isRegistered: bool, isFull: bool): Tone {
    if isRegistered then RegisteredTone else if isFull then FullTone else OpenTone
  }

  function ButtonLabel(isRegistered: bool, isFull: bool, loading: bool): string {
    if loading then "Processing..."
    else if isRegistered then "Registered"
    else if isFull then "Event Full"
    else "Register Now"
  }

  /** Derives a card. `loading` is true while this card's registration is in
      flight (an absent `loading` prop counts as false). */
  function Render(e: Event, isRegistered: bool, loading: bool): (c: Card)
    ensures c.spotsLeft == e.capacity - e.registeredCount
    ensures c.isFull <==> e.registeredCount >= e.capacity
    ensures c.fullBadge <==> c.isFull
    ensures c.spotsNote.Some? <==> !c.isFull
    ensures c.spotsNote.Some? ==> c.spotsNote.value == c.spotsLeft && c.spotsNote.value >= 1
    ensures c.disabled <==> isRegistered || c.isFull || loading
    ensures c.buttonText == "Processing..." <==> loading
    ensures c.buttonText == "Registered" <==> !loading && isRegistered
    ensures c.buttonText == "Event Full" <==> !loading && !isRegistered && c.isFull
    ensures c.buttonText == "Register Now" <==> !c.disabled
    ensures c.tone == RegisteredTone <==> isRegistered
    ensures c.tone == FullTone <==> !isRegistered && c.isFull
    ensures c.waitOverlay <==> loading
    ensures c.icon == CategoryIcon(e.category) && c.colorClass == CategoryColor(e.category)
    ensures c.categoryLabel == CategoryLabel(e.category)
  {
    var full := IsFull(e);
    Card(
      CategoryIcon(e.category),
      CategoryColor(e.category),
      CategoryLabel(e.category),
      SpotsLeft(e),
      full,
      full,
      if !full then Some(SpotsLeft(e)) else None,
      isRegistered || full || loading,
      ButtonTone(isRegistered, full),
      loading,
      ButtonLabel(isRegistered, full, loading))
  }

  /** Whenever the button says "Event Full" the badge says "Full" too, and a
      card never shows both the badge and a spots-left note. */
  lemma FullLabelAgreesWithBadge(e: Event, isRegistered: bool, loading: bool)
    ensures var c := Render(e, isRegistered, loading);
      (c.buttonText == "Event Full" ==> c.fullBadge) && !(c.fullBadge && c.spotsNote.Some?)
  {
  }
}
