/** The calendar: one record per timeslot, identified by its sequence number. */
module Timeslots {
  import opened Wrappers

  /** Reviewer seats per interview as the booking code and `full?` hard-code them
      (the configured `reviewersPerInterview` is consulted only by the guard). */
  const ReviewerSeats: nat := 2

  /** A timeslot; `applicant` and `reviewers` hold indices into the applicant and reviewer lists. */
  datatype Timeslot = Timeslot(sequence: nat, applicant: Option<nat>, reviewers: seq<nat>)

  /** `in_use?`: an applicant is booked into the slot. */
  predicate InUse(t: Timeslot) {
    t.applicant.Some?
  }

  /** `full?`: an applicant and exactly two reviewers. */
  predicate Full(t: Timeslot)
    ensures Full(t) ==> InUse(t)
  {
    t.applicant.Some? && |t.reviewers| == ReviewerSeats
  }

  /** The calendar the script starts from: slots 0 .. n-1, nobody booked. */
  function InitialCalendar(n: nat): (r: seq<Timeslot>)
    ensures |r| == n
    ensures forall i :: 0 <= i < n ==> r[i].sequence == i && !InUse(r[i]) && r[i].reviewers == []
  {
    seq(n, (i: nat) => Timeslot(i, None, []))
  }
}
