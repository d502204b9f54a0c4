/** Calendar dates, as far as the contact book needs them: a total order
    and "add a number of days". */
module Dates {

  /** A calendar date as its day ordinal (day 1 is 0001-01-01, one more per
      calendar day), so chronological order is the order of the ordinals
      and adding days is adding to the ordinal. */
  datatype Date = Date(ordinal: int)
  {
    /** This date is the same as, or earlier than, `other`. */
    predicate AtMost(other: Date) {
      ordinal <= other.ordinal
    }

    /** The date `days` calendar days after this one. */
    function AddDays(days: int): (r: Date)
      ensures days >= 0 ==> AtMost(r)
      ensures days < 0 ==> !AtMost(r)
      ensures days == 0 ==> r == this
    {
      Date(ordinal + days)
    }
  }

  /** SQL `d BETWEEN lo AND hi`: both ends inclusive. */
  predicate Between(d: Date, lo: Date, hi: Date)
    ensures lo.AtMost(hi) && (d == lo || d == hi) ==> Between(d, lo, hi)
    ensures Between(d, lo, hi) ==> lo.AtMost(hi)
    ensures !lo.AtMost(d) || !d.AtMost(hi) ==> !Between(d, lo, hi)
  {
    lo.AtMost(d) && d.AtMost(hi)
  }
}
