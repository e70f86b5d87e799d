/** The script end to end: the guards, then the booking loop over a fresh calendar. */
module Schedule {
  import opened Wrappers
  import opened Settings
  import opened Users
  import opened Timeslots
  import opened Booking

  /** Everything the booking loop promises about the calendar it leaves behind. */
  predicate WellBooked(cal: seq<Timeslot>, applicants: seq<User>, reviewers: seq<User>) {
    && ApplicantsAvailable(cal, applicants)
    && NoApplicantTwice(cal)
    && ReviewersAvailable(cal, reviewers)
    && ApplicantsGreedy(cal, applicants)
    && ReviewersGreedy(cal, reviewers)
  }

  /** The booking loop run from an unbooked calendar establishes every promise. */
  lemma BookIsWellBooked(cal: seq<Timeslot>, applicants: seq<User>, reviewers: seq<User>,
                         aOrders: seq<seq<nat>>, rOrders: seq<seq<nat>>)
    requires ValidOrders(cal, applicants, reviewers, aOrders, rOrders)
    requires Unbooked(cal)
    ensures WellBooked(Book(cal, applicants, reviewers, aOrders, rOrders), applicants, reviewers)
  {
    var book := Book(cal, applicants, reviewers, aOrders, rOrders);
    BookedApplicantsAvailable(cal, applicants, reviewers, aOrders, rOrders);
    NoApplicantBookedTwice(cal, applicants, reviewers, aOrders, rOrders);
    BookedReviewersAvailable(cal, applicants, reviewers, aOrders, rOrders);
    ReviewerPickIsGreedy(cal, applicants, reviewers, aOrders, rOrders);
    forall j | 0 <= j < |book| && !InUse(book[j])
      ensures forall a: nat :: a < |applicants| && AvailableForTimeslot(applicants[a], book[j].sequence) ==>
        exists i :: 0 <= i < j && book[i].applicant == Some(a)
    {
      ApplicantPickIsGreedy(cal, applicants, reviewers, aOrders, rOrders, j);
    }
  }

  /** The script: abort when a guard fails, otherwise book `numTimeslots` fresh slots.
      `applicants` and `reviewers` carry the availability the users picked; `aOrders[i]` and
      `rOrders[i]` are the shuffles drawn while filling slot i. */
  function Simulate(c: Config, applicants: seq<User>, reviewers: seq<User>,
                    aOrders: seq<seq<nat>>, rOrders: seq<seq<nat>>): (r: Result<seq<Timeslot>, GuardError>)
    requires |applicants| == c.numApplicants && |reviewers| == c.numReviewers
    requires ValidOrders(InitialCalendar(c.numTimeslots), applicants, reviewers, aOrders, rOrders)
    ensures r.Failure? <==> CheckGuards(c).Failure?
    ensures r.Failure? ==> r.error == CheckGuards(c).error
    ensures r.Success? ==>
      && |r.value| == c.numTimeslots
      && (forall i :: 0 <= i < |r.value| ==> r.value[i].sequence == i)
      && WellBooked(r.value, applicants, reviewers)
  {
    match CheckGuards(c)
    case Failure(e) => Failure(e)
    case Success(_) =>
      var cal := InitialCalendar(c.numTimeslots);
      BookIsWellBooked(cal, applicants, reviewers, aOrders, rOrders);
      Success(Book(cal, applicants, reviewers, aOrders, rOrders))
  }

  /** Three applicants who can only come to slot 0 and two reviewers who can come to any
      of four slots. */
  function ScenarioApplicants(): seq<User> {
    [User(Applicant, 0, [0]), User(Applicant, 1, [0]), User(Applicant, 2, [0])]
  }

  function ScenarioReviewers(): seq<User> {
    [User(Reviewer, 0, [0, 1, 2, 3]), User(Reviewer, 1, [0, 1, 2, 3])]
  }

  /** Whatever the shuffles, one of the three applicants gets slot 0. */
  lemma ScenarioSlotZeroBooked(aOrders: seq<seq<nat>>, rOrders: seq<seq<nat>>)
    requires ValidOrders(InitialCalendar(4), ScenarioApplicants(), ScenarioReviewers(), aOrders, rOrders)
    ensures InUse(Book(InitialCalendar(4), ScenarioApplicants(), ScenarioReviewers(), aOrders, rOrders)[0])
  {
    var cal := InitialCalendar(4);
    var apps := ScenarioApplicants();
    ApplicantPickIsGreedy(cal, apps, ScenarioReviewers(), aOrders, rOrders, 0);
    assert AvailableForTimeslot(apps[0], cal[0].sequence);
  }

  /** Whatever the shuffles, slots 1 to 3 stay empty: nobody is available for them. */
  lemma ScenarioOtherSlotsEmpty(aOrders: seq<seq<nat>>, rOrders: seq<seq<nat>>, j: nat)
    requires ValidOrders(InitialCalendar(4), ScenarioApplicants(), ScenarioReviewers(), aOrders, rOrders)
    requires 1 <= j < 4
    ensures !InUse(Book(InitialCalendar(4), ScenarioApplicants(), ScenarioReviewers(), aOrders, rOrders)[j])
  {
    var cal := InitialCalendar(4);
    var apps := ScenarioApplicants();
    assert cal[j].sequence == j;
    assert forall a: nat :: a < |apps| ==> !AvailableForTimeslot(apps[a], j);
    NobodyAvailableStaysEmpty(cal, apps, ScenarioReviewers(), aOrders, rOrders, j);
  }

  /** Whatever the shuffles, every slot, used or not, gets both reviewers: the seat count
      is the hard-coded two, and empty slots are staffed too. */
  lemma ScenarioReviewersSeated(aOrders: seq<seq<nat>>, rOrders: seq<seq<nat>>, j: nat)
    requires ValidOrders(InitialCalendar(4), ScenarioApplicants(), ScenarioReviewers(), aOrders, rOrders)
    requires j < 4
    ensures |Book(InitialCalendar(4), ScenarioApplicants(), ScenarioReviewers(), aOrders, rOrders)[j].reviewers| == 2
  {
    var cal := InitialCalendar(4);
    var revs := ScenarioReviewers();
    assert cal[j].sequence == j;
    assert AvailableReviewers(revs, j) == {0, 1};
    ReviewerCountAt(cal, ScenarioApplicants(), revs, aOrders, rOrders, j);
  }
}
