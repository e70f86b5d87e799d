/** The booking pass: each timeslot, in sequence order, takes one not-yet-booked applicant
    and up to two reviewers who are available for it. Each `shuffle` is a parameter, so every
    fact below holds for every order the random source could produce. */
module Booking {
  import opened Wrappers
  import opened Seqs
  import opened Users
  import opened Timeslots

  /** A `shuffle` of the indices 0 .. n-1: each index exactly once, in some order. */
  predicate IsShuffle(order: seq<nat>, n: nat) {
    && |order| == n
    && Distinct(order)
    && (forall k :: 0 <= k < |order| ==> order[k] < n)
    && forall x: nat :: x < n ==> x in order
  }

  /** `applicant_booked?`: some slot of the calendar holds the applicant. */
  predicate Booked(cal: seq<Timeslot>, a: nat) {
    exists j :: 0 <= j < |cal| && cal[j].applicant == Some(a)
  }

  /** The test `detect` applies to each applicant when filling a slot. */
  predicate Eligible(cal: seq<Timeslot>, applicants: seq<User>, a: nat, slot: nat) {
    a < |applicants| && !Booked(cal, a) && AvailableForTimeslot(applicants[a], slot)
  }

  /** `@applicants.shuffle.detect { ... }`: the first applicant of the shuffled order who is
      not booked anywhere yet and is available for `slot`. */
  function DetectApplicant(order: seq<nat>, cal: seq<Timeslot>, applicants: seq<User>, slot: nat): (r: Option<nat>)
    ensures r.Some? ==>
      && Eligible(cal, applicants, r.value, slot)
      && exists k :: 0 <= k < |order| && order[k] == r.value &&
           forall j :: 0 <= j < k ==> !Eligible(cal, applicants, order[j], slot)
    ensures r.None? ==> forall k :: 0 <= k < |order| ==> !Eligible(cal, applicants, order[k], slot)
    decreases |order|
  {
    if |order| == 0 then None
    else if Eligible(cal, applicants, order[0], slot) then Some(order[0])
    else
      var r := DetectApplicant(order[1..], cal, applicants, slot);
      assert forall k :: 0 <= k < |order| - 1 ==> order[1..][k] == order[k + 1];
      r
  }

  /** `@reviewers.shuffle.select { ... }`: the reviewers available for `slot`, in shuffled order. */
  function SelectAvailable(order: seq<nat>, reviewers: seq<User>, slot: nat): (r: seq<nat>)
    ensures forall x: nat :: x in r <==> x in order && x < |reviewers| && AvailableForTimeslot(reviewers[x], slot)
    ensures Distinct(order) ==> Distinct(r)
    decreases |order|
  {
    if |order| == 0 then []
    else
      var rest := SelectAvailable(order[1..], reviewers, slot);
      assert Distinct(order) ==> Distinct(order[1..]) && order[0] !in order[1..];
      if order[0] < |reviewers| && AvailableForTimeslot(reviewers[order[0]], slot) then [order[0]] + rest
      else rest
  }

  /** `... .first(2)`: at most two reviewers, all available; fewer only when nobody else is. */
  function SelectReviewers(order: seq<nat>, reviewers: seq<User>, slot: nat): (r: seq<nat>)
    ensures |r| <= ReviewerSeats
    ensures forall x :: x in r ==> x in order && x < |reviewers| && AvailableForTimeslot(reviewers[x], slot)
    ensures Distinct(order) ==> Distinct(r)
    ensures |r| < ReviewerSeats ==>
      forall x: nat :: x in order && x < |reviewers| && AvailableForTimeslot(reviewers[x], slot) ==> x in r
  {
    var candidates := SelectAvailable(order, reviewers, slot);
    if |candidates| <= ReviewerSeats then candidates
    else
      var r := candidates[..ReviewerSeats];
      assert forall x :: x in r ==> x in candidates;
      r
  }

  /** The reviewers who stated availability for `slot`. */
  function AvailableReviewers(reviewers: seq<User>, slot: nat): set<nat> {
    set x: nat | x < |reviewers| && AvailableForTimeslot(reviewers[x], slot)
  }

  function Min(a: nat, b: nat): nat {
    if a <= b then a else b
  }

  /** With a full shuffle of the reviewers, a slot gets two reviewers when at least two are
      available for it and otherwise every available one. */
  lemma SelectReviewersCount(order: seq<nat>, reviewers: seq<User>, slot: nat)
    requires IsShuffle(order, |reviewers|)
    ensures |SelectReviewers(order, reviewers, slot)| == Min(ReviewerSeats, |AvailableReviewers(reviewers, slot)|)
  {
    var candidates := SelectAvailable(order, reviewers, slot);
    DistinctCard(candidates);
    assert Elements(candidates) == AvailableReviewers(reviewers, slot);
  }

  /** One iteration of the booking loop, for slot `i`. */
  function Step(cal: seq<Timeslot>, i: nat, applicants: seq<User>, reviewers: seq<User>,
                aOrder: seq<nat>, rOrder: seq<nat>): (r: seq<Timeslot>)
    requires i < |cal|
    ensures |r| == |cal|
    ensures forall j :: 0 <= j < |cal| && j != i ==> r[j] == cal[j]
    ensures r[i].sequence == cal[i].sequence
    ensures r[i].applicant.Some? ==> Eligible(cal, applicants, r[i].applicant.value, cal[i].sequence)
    ensures r[i].applicant.None? ==>
      forall k :: 0 <= k < |aOrder| ==> !Eligible(cal, applicants, aOrder[k], cal[i].sequence)
    ensures |r[i].reviewers| <= ReviewerSeats
    ensures forall x :: x in r[i].reviewers ==> x < |reviewers| && AvailableForTimeslot(reviewers[x], cal[i].sequence)
    ensures Distinct(rOrder) ==> Distinct(r[i].reviewers)
  {
    var slot := cal[i].sequence;
    cal[i := cal[i].(applicant := DetectApplicant(aOrder, cal, applicants, slot),
                     reviewers := SelectReviewers(rOrder, reviewers, slot))]
  }

  /** One shuffle of the applicants and one of the reviewers per slot. */
  predicate ValidOrders(cal: seq<Timeslot>, applicants: seq<User>, reviewers: seq<User>,
                        aOrders: seq<seq<nat>>, rOrders: seq<seq<nat>>) {
    && |aOrders| == |cal|
    && |rOrders| == |cal|
    && (forall i :: 0 <= i < |aOrders| ==> IsShuffle(aOrders[i], |applicants|))
    && (forall i :: 0 <= i < |rOrders| ==> IsShuffle(rOrders[i], |reviewers|))
  }

  /** The calendar after the loop has processed slots 0 .. k-1. */
  function BookPrefix(cal: seq<Timeslot>, k: nat, applicants: seq<User>, reviewers: seq<User>,
                      aOrders: seq<seq<nat>>, rOrders: seq<seq<nat>>): (r: seq<Timeslot>)
    requires k <= |cal| && |aOrders| == |cal| && |rOrders| == |cal|
    ensures |r| == |cal|
    ensures forall j :: k <= j < |cal| ==> r[j] == cal[j]
    ensures forall j :: 0 <= j < |cal| ==> r[j].sequence == cal[j].sequence
    decreases k
  {
    if k == 0 then cal
    else Step(BookPrefix(cal, k - 1, applicants, reviewers, aOrders, rOrders), k - 1,
              applicants, reviewers, aOrders[k - 1], rOrders[k - 1])
  }

  /** `@timeslots.each do |timeslot| ... end`: the whole booking loop. */
  function Book(cal: seq<Timeslot>, applicants: seq<User>, reviewers: seq<User>,
                aOrders: seq<seq<nat>>, rOrders: seq<seq<nat>>): (r: seq<Timeslot>)
    requires |aOrders| == |cal| && |rOrders| == |cal|
    ensures |r| == |cal|
    ensures forall j :: 0 <= j < |cal| ==> r[j].sequence == cal[j].sequence
  {
    BookPrefix(cal, |cal|, applicants, reviewers, aOrders, rOrders)
  }

  // ---------------------------------------------------------------------------------------
  // Properties of the booking loop

  /** No slot is booked before the loop starts. */
  predicate Unbooked(cal: seq<Timeslot>) {
    forall j :: 0 <= j < |cal| ==> !InUse(cal[j])
  }

  /** Every booked applicant stated availability for their slot. */
  predicate ApplicantsAvailable(cal: seq<Timeslot>, applicants: seq<User>) {
    forall j :: 0 <= j < |cal| && InUse(cal[j]) ==>
      cal[j].applicant.value < |applicants| &&
      AvailableForTimeslot(applicants[cal[j].applicant.value], cal[j].sequence)
  }

  /** No applicant holds two slots. */
  predicate NoApplicantTwice(cal: seq<Timeslot>) {
    forall i, j :: 0 <= i < j < |cal| && InUse(cal[i]) ==> cal[j].applicant != cal[i].applicant
  }

  /** Each slot has at most two reviewers, all distinct and available for it. */
  predicate ReviewersAvailable(cal: seq<Timeslot>, reviewers: seq<User>) {
    forall j :: 0 <= j < |cal| ==>
      && |cal[j].reviewers| <= ReviewerSeats
      && Distinct(cal[j].reviewers)
      && forall x :: x in cal[j].reviewers ==>
           x < |reviewers| && AvailableForTimeslot(reviewers[x], cal[j].sequence)
  }

  /** A slot is left without an applicant only when everyone available for it already holds an
      earlier slot. */
  predicate ApplicantsGreedy(cal: seq<Timeslot>, applicants: seq<User>) {
    forall j :: 0 <= j < |cal| && !InUse(cal[j]) ==>
      forall a: nat :: a < |applicants| && AvailableForTimeslot(applicants[a], cal[j].sequence) ==>
        exists i :: 0 <= i < j && cal[i].applicant == Some(a)
  }

  /** Each slot has two reviewers, or every reviewer available for it when fewer are. */
  predicate ReviewersGreedy(cal: seq<Timeslot>, reviewers: seq<User>) {
    forall j :: 0 <= j < |cal| ==>
      |cal[j].reviewers| == Min(ReviewerSeats, |AvailableReviewers(reviewers, cal[j].sequence)|)
  }

  /** Processing later slots leaves the earlier ones as they were. */
  lemma {:induction false} EarlierSlotsKept(cal: seq<Timeslot>, k: nat, m: nat, applicants: seq<User>,
                                            reviewers: seq<User>, aOrders: seq<seq<nat>>, rOrders: seq<seq<nat>>)
    requires k <= m <= |cal| && |aOrders| == |cal| && |rOrders| == |cal|
    ensures forall j :: 0 <= j < k ==>
      BookPrefix(cal, m, applicants, reviewers, aOrders, rOrders)[j] ==
      BookPrefix(cal, k, applicants, reviewers, aOrders, rOrders)[j]
    decreases m - k
  {
    if k < m {
      EarlierSlotsKept(cal, k, m - 1, applicants, reviewers, aOrders, rOrders);
      var prev := BookPrefix(cal, m - 1, applicants, reviewers, aOrders, rOrders);
      var next := BookPrefix(cal, m, applicants, reviewers, aOrders, rOrders);
      assert next == Step(prev, m - 1, applicants, reviewers, aOrders[m - 1], rOrders[m - 1]);
      assert forall j :: 0 <= j < k ==> next[j] == prev[j];
    }
  }

  /** Iteration i touches slot i only, and the set of booked applicants only grows. */
  lemma BookedOnlyGrows(cal: seq<Timeslot>, k: nat, m: nat, applicants: seq<User>,
                        reviewers: seq<User>, aOrders: seq<seq<nat>>, rOrders: seq<seq<nat>>, a: nat)
    requires k <= m <= |cal| && |aOrders| == |cal| && |rOrders| == |cal|
    requires Unbooked(cal)
    ensures Booked(BookPrefix(cal, k, applicants, reviewers, aOrders, rOrders), a) ==>
            Booked(BookPrefix(cal, m, applicants, reviewers, aOrders, rOrders), a)
  {
    var before := BookPrefix(cal, k, applicants, reviewers, aOrders, rOrders);
    if Booked(before, a) {
      var j :| 0 <= j < |before| && before[j].applicant == Some(a);
      EarlierSlotsKept(cal, k, m, applicants, reviewers, aOrders, rOrders);
      assert j < k;
    }
  }

  /** The final state of slot j is what iteration j made of it. */
  lemma SlotSettledAtItsTurn(cal: seq<Timeslot>, j: nat, applicants: seq<User>, reviewers: seq<User>,
                             aOrders: seq<seq<nat>>, rOrders: seq<seq<nat>>)
    requires j < |cal| && |aOrders| == |cal| && |rOrders| == |cal|
    ensures Book(cal, applicants, reviewers, aOrders, rOrders)[j] ==
      Step(BookPrefix(cal, j, applicants, reviewers, aOrders, rOrders), j,
           applicants, reviewers, aOrders[j], rOrders[j])[j]
  {
    EarlierSlotsKept(cal, j + 1, |cal|, applicants, reviewers, aOrders, rOrders);
  }

  /** When slot j's turn comes, the booked applicants are exactly those of slots 0 .. j-1. */
  lemma BookedBeforeTurn(cal: seq<Timeslot>, j: nat, applicants: seq<User>, reviewers: seq<User>,
                         aOrders: seq<seq<nat>>, rOrders: seq<seq<nat>>, a: nat)
    requires j <= |cal| && |aOrders| == |cal| && |rOrders| == |cal|
    requires Unbooked(cal)
    ensures Booked(BookPrefix(cal, j, applicants, reviewers, aOrders, rOrders), a) <==>
      exists i :: 0 <= i < j && Book(cal, applicants, reviewers, aOrders, rOrders)[i].applicant == Some(a)
  {
    var prefix := BookPrefix(cal, j, applicants, reviewers, aOrders, rOrders);
    var book := Book(cal, applicants, reviewers, aOrders, rOrders);
    EarlierSlotsKept(cal, j, |cal|, applicants, reviewers, aOrders, rOrders);
    if Booked(prefix, a) {
      var i :| 0 <= i < |prefix| && prefix[i].applicant == Some(a);
      assert i < j;
      assert book[i].applicant == Some(a);
    }
    if exists i :: 0 <= i < j && book[i].applicant == Some(a) {
      var i :| 0 <= i < j && book[i].applicant == Some(a);
      assert prefix[i].applicant == Some(a);
    }
  }

  /** Every booked applicant is available for their slot. */
  lemma BookedApplicantsAvailable(cal: seq<Timeslot>, applicants: seq<User>, reviewers: seq<User>,
                                  aOrders: seq<seq<nat>>, rOrders: seq<seq<nat>>)
    requires |aOrders| == |cal| && |rOrders| == |cal|
    ensures ApplicantsAvailable(Book(cal, applicants, reviewers, aOrders, rOrders), applicants)
  {
    var book := Book(cal, applicants, reviewers, aOrders, rOrders);
    forall j | 0 <= j < |cal| && InUse(book[j])
      ensures book[j].applicant.value < |applicants|
      ensures AvailableForTimeslot(applicants[book[j].applicant.value], book[j].sequence)
    {
      SlotSettledAtItsTurn(cal, j, applicants, reviewers, aOrders, rOrders);
    }
  }

  /** No applicant is booked into two slots. */
  lemma NoApplicantBookedTwice(cal: seq<Timeslot>, applicants: seq<User>, reviewers: seq<User>,
                               aOrders: seq<seq<nat>>, rOrders: seq<seq<nat>>)
    requires |aOrders| == |cal| && |rOrders| == |cal|
    requires Unbooked(cal)
    ensures NoApplicantTwice(Book(cal, applicants, reviewers, aOrders, rOrders))
  {
    var book := Book(cal, applicants, reviewers, aOrders, rOrders);
    forall i, j | 0 <= i < j < |cal| && InUse(book[i])
      ensures book[j].applicant != book[i].applicant
    {
      var a := book[i].applicant.value;
      SlotSettledAtItsTurn(cal, j, applicants, reviewers, aOrders, rOrders);
      BookedBeforeTurn(cal, j, applicants, reviewers, aOrders, rOrders, a);
    }
  }

  /** Each slot's reviewers are at most two, distinct and available for it. */
  lemma BookedReviewersAvailable(cal: seq<Timeslot>, applicants: seq<User>, reviewers: seq<User>,
                                 aOrders: seq<seq<nat>>, rOrders: seq<seq<nat>>)
    requires ValidOrders(cal, applicants, reviewers, aOrders, rOrders)
    ensures ReviewersAvailable(Book(cal, applicants, reviewers, aOrders, rOrders), reviewers)
  {
    var book := Book(cal, applicants, reviewers, aOrders, rOrders);
    forall j | 0 <= j < |cal|
      ensures |book[j].reviewers| <= ReviewerSeats
      ensures Distinct(book[j].reviewers)
      ensures forall x :: x in book[j].reviewers ==>
        x < |reviewers| && AvailableForTimeslot(reviewers[x], book[j].sequence)
    {
      SlotSettledAtItsTurn(cal, j, applicants, reviewers, aOrders, rOrders);
    }
  }

  /** Greedy for applicants, both ways: slot j stays empty exactly when every applicant
      available for it was already booked into an earlier slot. */
  lemma ApplicantPickIsGreedy(cal: seq<Timeslot>, applicants: seq<User>, reviewers: seq<User>,
                              aOrders: seq<seq<nat>>, rOrders: seq<seq<nat>>, j: nat)
    requires ValidOrders(cal, applicants, reviewers, aOrders, rOrders)
    requires Unbooked(cal)
    requires j < |cal|
    ensures !InUse(Book(cal, applicants, reviewers, aOrders, rOrders)[j]) <==>
      forall a: nat :: a < |applicants| && AvailableForTimeslot(applicants[a], cal[j].sequence) ==>
        exists i :: 0 <= i < j && Book(cal, applicants, reviewers, aOrders, rOrders)[i].applicant == Some(a)
  {
    var book := Book(cal, applicants, reviewers, aOrders, rOrders);
    var prefix := BookPrefix(cal, j, applicants, reviewers, aOrders, rOrders);
    SlotSettledAtItsTurn(cal, j, applicants, reviewers, aOrders, rOrders);
    if !InUse(book[j]) {
      forall a: nat | a < |applicants| && AvailableForTimeslot(applicants[a], cal[j].sequence)
        ensures exists i :: 0 <= i < j && book[i].applicant == Some(a)
      {
        assert a in aOrders[j];
        var k :| 0 <= k < |aOrders[j]| && aOrders[j][k] == a;
        assert !Eligible(prefix, applicants, aOrders[j][k], cal[j].sequence);
        BookedBeforeTurn(cal, j, applicants, reviewers, aOrders, rOrders, a);
      }
    } else {
      var a := book[j].applicant.value;
      BookedBeforeTurn(cal, j, applicants, reviewers, aOrders, rOrders, a);
      assert !exists i :: 0 <= i < j && book[i].applicant == Some(a);
    }
  }

  /** Greedy for reviewers: two per slot, or all of them when fewer are available. */
  lemma ReviewerPickIsGreedy(cal: seq<Timeslot>, applicants: seq<User>, reviewers: seq<User>,
                             aOrders: seq<seq<nat>>, rOrders: seq<seq<nat>>)
    requires ValidOrders(cal, applicants, reviewers, aOrders, rOrders)
    ensures ReviewersGreedy(Book(cal, applicants, reviewers, aOrders, rOrders), reviewers)
  {
    var book := Book(cal, applicants, reviewers, aOrders, rOrders);
    forall j | 0 <= j < |cal|
      ensures |book[j].reviewers| == Min(ReviewerSeats, |AvailableReviewers(reviewers, book[j].sequence)|)
    {
      SlotSettledAtItsTurn(cal, j, applicants, reviewers, aOrders, rOrders);
      SelectReviewersCount(rOrders[j], reviewers, cal[j].sequence);
    }
  }

  /** `full?` after the loop: a slot is full exactly when it is in use and at least two
      reviewers are available for it. */
  lemma FullExactlyWhenTwoAvailable(cal: seq<Timeslot>, applicants: seq<User>, reviewers: seq<User>,
                                    aOrders: seq<seq<nat>>, rOrders: seq<seq<nat>>, j: nat)
    requires ValidOrders(cal, applicants, reviewers, aOrders, rOrders)
    requires j < |cal|
    ensures Full(Book(cal, applicants, reviewers, aOrders, rOrders)[j]) <==>
      InUse(Book(cal, applicants, reviewers, aOrders, rOrders)[j]) &&
      |AvailableReviewers(reviewers, cal[j].sequence)| >= ReviewerSeats
  {
    ReviewerPickIsGreedy(cal, applicants, reviewers, aOrders, rOrders);
  }

  /** There is no limit on how many slots one reviewer staffs: wherever at most two reviewers
      are available, each of them is seated, whatever the other slots hold. */
  lemma ReviewerNotLimitedAcrossSlots(cal: seq<Timeslot>, applicants: seq<User>, reviewers: seq<User>,
                                      aOrders: seq<seq<nat>>, rOrders: seq<seq<nat>>, j: nat, x: nat)
    requires ValidOrders(cal, applicants, reviewers, aOrders, rOrders)
    requires j < |cal|
    requires x < |reviewers| && AvailableForTimeslot(reviewers[x], cal[j].sequence)
    requires |AvailableReviewers(reviewers, cal[j].sequence)| <= ReviewerSeats
    ensures x in Book(cal, applicants, reviewers, aOrders, rOrders)[j].reviewers
  {
    var seated := Book(cal, applicants, reviewers, aOrders, rOrders)[j].reviewers;
    var available := AvailableReviewers(reviewers, cal[j].sequence);
    ReviewerPickIsGreedy(cal, applicants, reviewers, aOrders, rOrders);
    BookedReviewersAvailable(cal, applicants, reviewers, aOrders, rOrders);
    DistinctCard(seated);
    assert Elements(seated) <= available;
    assert |available - Elements(seated)| == 0 by {
      assert available == Elements(seated) + (available - Elements(seated));
    }
    assert x in available;
  }

  /** The elements of `s` that are not in `pick`, in their order. */
  function Drop(s: seq<nat>, pick: seq<nat>): (r: seq<nat>)
    ensures forall x :: x in r <==> x in s && x !in pick
    ensures Distinct(s) ==> Distinct(r)
    decreases |s|
  {
    if |s| == 0 then []
    else
      var rest := Drop(s[1..], pick);
      assert Distinct(s) ==> Distinct(s[1..]) && s[0] !in s[1..];
      if s[0] in pick then rest else [s[0]] + rest
  }

  /** A shuffle of 0 .. n-1 that starts with the duplicate-free list `pick`. */
  function Arrange(pick: seq<nat>, n: nat): (r: seq<nat>)
    requires Distinct(pick)
    requires forall k :: 0 <= k < |pick| ==> pick[k] < n
    ensures IsShuffle(r, n)
    ensures |pick| <= |r| && r[..|pick|] == pick
  {
    var all := seq(n, (i: nat) => i);
    assert Distinct(all);
    var rest := Drop(all, pick);
    var r := pick + rest;
    assert Distinct(r) by {
      forall i, j | 0 <= i < j < |r| ensures r[i] != r[j] {
        if j >= |pick| && i < |pick| { assert r[j] in rest; }
        else if i >= |pick| { assert r[i] == rest[i - |pick|] && r[j] == rest[j - |pick|]; }
      }
    }
    assert forall x: nat :: x < n ==> x in r by {
      forall x: nat | x < n ensures x in r {
        assert all[x] == x;
        if x !in pick { assert x in rest; }
      }
    }
    assert forall k :: 0 <= k < |r| ==> r[k] < n by {
      forall k | 0 <= k < |r| ensures r[k] < n {
        if k >= |pick| { assert r[k] in rest; }
      }
    }
    assert |r| == n by {
      DistinctCard(r);
      assert Elements(r) == Below(n);
    }
    r
  }

  /** Every eligible applicant is a possible outcome of `shuffle.detect`: the pick ranges over
      the whole eligible set, not a part of it. */
  lemma EveryEligibleApplicantCanBeDrawn(cal: seq<Timeslot>, applicants: seq<User>, slot: nat, a: nat)
    requires Eligible(cal, applicants, a, slot)
    ensures exists order :: IsShuffle(order, |applicants|) && DetectApplicant(order, cal, applicants, slot) == Some(a)
  {
    var order := Arrange([a], |applicants|);
    assert order[0] == [a][0];
    assert DetectApplicant(order, cal, applicants, slot) == Some(a);
  }

  /** A slot nobody stated availability for is never booked. */
  lemma NobodyAvailableStaysEmpty(cal: seq<Timeslot>, applicants: seq<User>, reviewers: seq<User>,
                                  aOrders: seq<seq<nat>>, rOrders: seq<seq<nat>>, j: nat)
    requires |aOrders| == |cal| && |rOrders| == |cal|
    requires j < |cal|
    requires forall a: nat :: a < |applicants| ==> !AvailableForTimeslot(applicants[a], cal[j].sequence)
    ensures !InUse(Book(cal, applicants, reviewers, aOrders, rOrders)[j])
  {
    BookedApplicantsAvailable(cal, applicants, reviewers, aOrders, rOrders);
  }

  /** The reviewer count of one slot after the loop: `ReviewerPickIsGreedy` read at slot j.
      It is a separate lemma so that callers about one concrete calendar stay cheap to verify. */
  lemma ReviewerCountAt(cal: seq<Timeslot>, applicants: seq<User>, reviewers: seq<User>,
                        aOrders: seq<seq<nat>>, rOrders: seq<seq<nat>>, j: nat)
    requires ValidOrders(cal, applicants, reviewers, aOrders, rOrders)
    requires j < |cal|
    ensures |Book(cal, applicants, reviewers, aOrders, rOrders)[j].reviewers| ==
      Min(ReviewerSeats, |AvailableReviewers(reviewers, cal[j].sequence)|)
  {
    ReviewerPickIsGreedy(cal, applicants, reviewers, aOrders, rOrders);
  }

  /** `select` distributes over a split of the shuffle. */
  lemma {:induction false} SelectAvailableAppend(s: seq<nat>, t: seq<nat>, reviewers: seq<User>, slot: nat)
    ensures SelectAvailable(s + t, reviewers, slot) ==
      SelectAvailable(s, reviewers, slot) + SelectAvailable(t, reviewers, slot)
    decreases |s|
  {
    if |s| == 0 {
      assert s + t == t;
    } else {
      assert (s + t)[0] == s[0];
      assert (s + t)[1..] == s[1..] + t;
      SelectAvailableAppend(s[1..], t, reviewers, slot);
    }
  }

  /** Every allowed outcome of `select.first(2)` is drawn by some shuffle: any duplicate-free
      list of available reviewers, of the length the slot gets, comes out for the right order. */
  lemma EveryReviewerPickCanBeDrawn(reviewers: seq<User>, slot: nat, pick: seq<nat>)
    requires Distinct(pick)
    requires forall k :: 0 <= k < |pick| ==>
      pick[k] < |reviewers| && AvailableForTimeslot(reviewers[pick[k]], slot)
    requires |pick| == Min(ReviewerSeats, |AvailableReviewers(reviewers, slot)|)
    ensures exists order :: IsShuffle(order, |reviewers|) && SelectReviewers(order, reviewers, slot) == pick
  {
    var order := Arrange(pick, |reviewers|);
    var rest := order[|pick|..];
    assert order == pick + rest;
    SelectAvailableAppend(pick, rest, reviewers, slot);
    SelectAllAvailable(pick, reviewers, slot);
    var candidates := SelectAvailable(order, reviewers, slot);
    assert candidates == pick + SelectAvailable(rest, reviewers, slot);
    if |pick| < ReviewerSeats {
      ShortPickHoldsEveryAvailable(reviewers, slot, pick);
      DistinctHalvesDisjoint(pick, rest);
      SelectNoneAvailable(rest, reviewers, slot);
      assert candidates == pick;
    } else {
      assert candidates[..ReviewerSeats] == pick;
    }
  }

  /** A pick shorter than two that has the length the slot gets holds every available reviewer. */
  lemma ShortPickHoldsEveryAvailable(reviewers: seq<User>, slot: nat, pick: seq<nat>)
    requires Distinct(pick)
    requires forall k :: 0 <= k < |pick| ==>
      pick[k] < |reviewers| && AvailableForTimeslot(reviewers[pick[k]], slot)
    requires |pick| == |AvailableReviewers(reviewers, slot)|
    ensures forall x: nat :: x < |reviewers| && AvailableForTimeslot(reviewers[x], slot) ==> x in pick
  {
    var available := AvailableReviewers(reviewers, slot);
    DistinctCard(pick);
    assert Elements(pick) <= available;
    assert |available - Elements(pick)| == 0 by {
      assert available == Elements(pick) + (available - Elements(pick));
    }
    assert available == Elements(pick);
    forall x: nat | x < |reviewers| && AvailableForTimeslot(reviewers[x], slot) ensures x in pick {
      assert x in available;
    }
  }

  /** A list of available reviewers passes `select` unchanged. */
  lemma {:induction false} SelectAllAvailable(pick: seq<nat>, reviewers: seq<User>, slot: nat)
    requires forall k :: 0 <= k < |pick| ==>
      pick[k] < |reviewers| && AvailableForTimeslot(reviewers[pick[k]], slot)
    ensures SelectAvailable(pick, reviewers, slot) == pick
    decreases |pick|
  {
    if |pick| > 0 {
      SelectAllAvailable(pick[1..], reviewers, slot);
    }
  }

  /** A shuffle segment with no available reviewer contributes nothing to `select`. */
  lemma {:induction false} SelectNoneAvailable(s: seq<nat>, reviewers: seq<User>, slot: nat)
    requires forall k :: 0 <= k < |s| ==>
      !(s[k] < |reviewers| && AvailableForTimeslot(reviewers[s[k]], slot))
    ensures SelectAvailable(s, reviewers, slot) == []
    decreases |s|
  {
    if |s| > 0 {
      SelectNoneAvailable(s[1..], reviewers, slot);
    }
  }
}
