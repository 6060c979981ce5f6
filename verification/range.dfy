/** The `range` query parameter of the read endpoints
    (backend/src/utils/api/range.ts): a closed set of keys, and the instant a
    key's window starts. */
module Range {
  import opened Wrappers
  import opened Parse

  datatype RangeKey = ThreeMonths | SixMonths | TwelveMonths | All

  /** The text spelling of each key. */
  function KeyText(k: RangeKey): string {
    match k
    case ThreeMonths => "3m"
    case SixMonths => "6m"
    case TwelveMonths => "12m"
    case All => "all"
  }

  /** `parseRange(value)`: an absent or empty value and any unknown spelling
      select the twelve-month window; a known spelling selects its key. */
  function ParseRange(value: Option<string>): (k: RangeKey)
    ensures value.Some? && (exists key: RangeKey :: KeyText(key) == value.value) ==> KeyText(k) == value.value
    ensures value.None? || (forall key: RangeKey :: KeyText(key) != value.value) ==> k == TwelveMonths
  {
    match value
    case None => TwelveMonths
    case Some(text) =>
      if text == "" then TwelveMonths
      else if text == "3m" then ThreeMonths
      else if text == "6m" then SixMonths
      else if text == "12m" then TwelveMonths
      else if text == "all" then All
      else TwelveMonths
  }

  /** Every key survives being spelled and parsed again. */
  lemma ParseRangeRoundTrip(k: RangeKey)
    ensures ParseRange(Some(KeyText(k))) == k
  {
  }

  /** Parsing is idempotent: re-parsing the spelling of a parsed key gives
      the same key. */
  lemma ParseRangeIdempotent(value: Option<string>)
    ensures ParseRange(Some(KeyText(ParseRange(value)))) == ParseRange(value)
  {
    ParseRangeRoundTrip(ParseRange(value));
  }

  /** The window length of a bounded key, in months. */
  function Months(k: RangeKey): (m: nat)
    requires k != All
    ensures m == 3 || m == 6 || m == 12
  {
    match k
    case ThreeMonths => 3
    case SixMonths => 6
    case TwelveMonths => 12
  }

  /** `getRangeStart(range)`: no lower bound for `all`; otherwise the instant
      that many months before now, as the host's calendar computes it. */
  function RangeStart(k: RangeKey, monthsBefore: int -> Date): (start: Option<Date>)
    ensures start.None? <==> k == All
    ensures start.Some? ==> start.value == monthsBefore(Months(k))
  {
    if k == All then None else Some(monthsBefore(Months(k)))
  }

  /** Whether a date falls inside a window; an unbounded window holds every date. */
  predicate InRange(date: Date, start: Option<Date>) {
    start.None? || date >= start.value
  }

  /** Longer windows hold more: when the host's month arithmetic goes back
      further for more months, a date in the three-month window is in the
      six-month one, which is inside the twelve-month one, inside `all`. */
  lemma WindowsNest(monthsBefore: int -> Date, date: Date)
    requires monthsBefore(12) <= monthsBefore(6) <= monthsBefore(3)
    ensures InRange(date, RangeStart(ThreeMonths, monthsBefore)) ==> InRange(date, RangeStart(SixMonths, monthsBefore))
    ensures InRange(date, RangeStart(SixMonths, monthsBefore)) ==> InRange(date, RangeStart(TwelveMonths, monthsBefore))
    ensures InRange(date, RangeStart(All, monthsBefore))
  {
  }
}
