/** The simulation's global constants, the perturbed choose count and the pre-run guards. */
module Settings {
  import opened Wrappers

  /** The global constants of one simulation, gathered into a record. */
  datatype Config = Config(
    numApplicants: nat,
    numTimeslots: nat,
    numReviewers: nat,
    reviewersPerInterview: nat,
    applicantChooseCount: nat,
    reviewerChooseCount: nat,
    responseRate: nat)  // percent; used only by the response gate, which is not modelled

  /** The values the script is configured with. */
  const Default := Config(70, 80, 30, 2, 2, 5, 90)

  /** Number of answers `randomized_choose_count` samples from. */
  const ChoiceCount := 19

  /** The answers a user may give when asked to pick `ask` slots; `sample` draws one uniformly,
      so this list with its repetitions is the distribution of the answer. */
  function ChooseCountChoices(ask: int): (r: seq<int>)
    ensures |r| == ChoiceCount
    ensures forall i :: 0 <= i < |r| ==> ask - 2 <= r[i] <= ask + 3
  {
    [ask - 2, ask - 1,
     ask, ask, ask, ask, ask, ask, ask, ask, ask, ask, ask, ask,
     ask + 1, ask + 1, ask + 2, ask + 2, ask + 3]
  }

  /** `randomized_choose_count`: users do not always pick as many slots as asked.
      `draw` is the position `sample` lands on. */
  function RandomizedChooseCount(ask: int, draw: nat): (r: int)
    requires draw < ChoiceCount
    ensures ask - 2 <= r <= ask + 3
    ensures r in ChooseCountChoices(ask)
  {
    ChooseCountChoices(ask)[draw]
  }

  /** The range is tight: every count from ask-2 to ask+3 is a possible answer. */
  lemma ChooseCountRangeIsTight(ask: int, v: int)
    requires ask - 2 <= v <= ask + 3
    ensures exists draw :: 0 <= draw < ChoiceCount && RandomizedChooseCount(ask, draw) == v
  {
    var draw := if v == ask - 2 then 0 else if v == ask - 1 then 1 else if v == ask then 2
                else if v == ask + 1 then 14 else if v == ask + 2 then 16 else 18;
    assert RandomizedChooseCount(ask, draw) == v;
  }

  /** The reasons the script refuses to run. */
  datatype GuardError = NotEnoughTimeslots | NotEnoughReviewers

  /** The two pre-run guards, checked in the script's order: first that every applicant can have
      a slot of their own, then that reviewers' asked-for availability covers the reviewer seats
      of every applicant. */
  function CheckGuards(c: Config): (r: Result<(), GuardError>)
    ensures r.Success? <==>
      c.numApplicants <= c.numTimeslots &&
      c.reviewersPerInterview * c.numApplicants <= c.numReviewers * c.reviewerChooseCount
    ensures r == Failure(NotEnoughTimeslots) <==> c.numApplicants > c.numTimeslots
  {
    if c.numApplicants > c.numTimeslots then
      Failure(NotEnoughTimeslots)
    else if c.numReviewers * c.reviewerChooseCount < c.reviewersPerInterview * c.numApplicants then
      Failure(NotEnoughReviewers)
    else
      Success(())
  }

  /** The shipped configuration passes both guards. */
  lemma DefaultPassesGuards()
    ensures CheckGuards(Default).Success?
  {
  }
}
