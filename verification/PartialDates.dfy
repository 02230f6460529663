/** A date with the precision a vendor published it at; anchors are days, counted from Go's zero time. */
module PartialDates {

  datatype Precision = ExactDay | MonthOnly | YearOnly | Unknown

  datatype PartialDate = PartialDate(anchor: int, precision: Precision) {

    predicate Known() { precision != Unknown }

    predicate Before(other: PartialDate) {
      Known() && other.Known() && anchor < other.anchor
    }
  }

  const UNKNOWN_DATE := PartialDate(0, Unknown)

  /** Nanoseconds in a day: instants are nanoseconds, anchors are days. */
  const DAY: int := 86_400_000_000_000

  /** The instant of the UTC midnight a day number denotes. */
  function Midnight(day: int): int { day * DAY }

  predicate AfterInstant(d: PartialDate, t: int) {
    d.Known() && Midnight(d.anchor) > t
  }

  /**
   The recency order shared by releases and source observations: a known date outranks an
   unknown one, then the later anchor wins, then the later observation instant.
   */
  predicate Later(d: PartialDate, at: int, e: PartialDate, since: int) {
    if d.Known() != e.Known() then d.Known()
    else if e.Before(d) then true
    else if d.Before(e) then false
    else since < at
  }

  /** The recency order is a strict weak order: irreflexive, transitive, and so is being level. */
  lemma LaterIsStrictWeakOrder(d: PartialDate, a: int, e: PartialDate, b: int, f: PartialDate, c: int)
    ensures !Later(d, a, d, a)
    ensures Later(d, a, e, b) && Later(e, b, f, c) ==> Later(d, a, f, c)
    ensures Later(d, a, f, c) ==> Later(d, a, e, b) || Later(e, b, f, c)
  {
  }
}
