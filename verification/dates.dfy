/** Calendar dates as the service compares them after parsing `%Y-%m-%d`:
    a date carries no time of day, and one date precedes another exactly
    when its (year, month, day) triple is lexicographically smaller. */
module Dates {

  datatype Date = Date(year: int, month: int, day: int)

  /** `a` is strictly earlier than `b`. */
  predicate Before(a: Date, b: Date)
  {
    || a.year < b.year
    || (a.year == b.year && a.month < b.month)
    || (a.year == b.year && a.month == b.month && a.day < b.day)
  }

  /** `a` is not later than `b` (the `<=` of two parsed dates). */
  predicate AtOrBefore(a: Date, b: Date)
  {
    Before(a, b) || a == b
  }

  /** `Before` is a strict total order, so `AtOrBefore` is its reflexive
      closure and `!Before(a, b)` means `b` is at or before `a`. */
  lemma BeforeIsStrictTotalOrder(a: Date, b: Date, c: Date)
    ensures !Before(a, a)
    ensures Before(a, b) && Before(b, c) ==> Before(a, c)
    ensures Before(a, b) || a == b || Before(b, a)
    ensures !Before(a, b) <==> AtOrBefore(b, a)
  {
  }
}
