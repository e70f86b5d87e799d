/** Applicants and reviewers: their stated availability and how it is picked. */
module Users {
  import opened Wrappers
  import opened Seqs
  import opened Settings

  /** The two subclasses of `User`; they differ only in how many slots they are asked for. */
  datatype Kind = Applicant | Reviewer

  /** A participant; `availability` holds slot sequence numbers in the order they were picked. */
  datatype User = User(kind: Kind, sequence: nat, availability: seq<nat>)

  /** A fresh user with no availability yet. */
  function NewUser(kind: Kind, sequence: nat): (u: User)
    ensures u.kind == kind && u.sequence == sequence
    ensures !RespondedToAvailabilityRequest(u)
  {
    User(kind, sequence, [])
  }

  /** `choose_count`: how many slots each kind is asked to pick. */
  function ChooseCount(kind: Kind, c: Config): nat {
    match kind
    case Applicant => c.applicantChooseCount
    case Reviewer => c.reviewerChooseCount
  }

  /** `available_for_timeslot?`. */
  predicate AvailableForTimeslot(u: User, slot: nat) {
    slot in u.availability
  }

  /** `responded_to_availability_request?` (defined for applicants, meaningful for both kinds). */
  predicate RespondedToAvailabilityRequest(u: User) {
    |u.availability| > 0
  }

  /** Availability that names each slot at most once and only slots that exist. */
  predicate WellFormedAvailability(availability: seq<nat>, numTimeslots: nat) {
    Distinct(availability) && forall k :: 0 <= k < |availability| ==> availability[k] < numTimeslots
  }

  /** Every draw of `rand(0..numTimeslots - 1)` lies in range. */
  predicate DrawsInRange(draws: seq<nat>, numTimeslots: nat) {
    forall k :: 0 <= k < |draws| ==> draws[k] < numTimeslots
  }

  /** A slot chosen by `new_random_choice`, and how many draws it took. */
  datatype Choice = Choice(slot: nat, used: nat)

  /** `new_random_choice`: draw a slot and draw again while the user already holds it.
      `draws` are the successive results of `rand`; `None` means the stream ran out before a
      fresh slot came up, which is what every stream does for a user who holds every slot
      (the source then recurses until Ruby's stack overflows and the script aborts). */
  function NewRandomChoice(availability: seq<nat>, numTimeslots: nat, draws: seq<nat>): (r: Option<Choice>)
    requires DrawsInRange(draws, numTimeslots)
    ensures r.Some? ==>
      && 0 < r.value.used <= |draws|
      && r.value.slot == draws[r.value.used - 1]
      && r.value.slot < numTimeslots
      && r.value.slot !in availability
      && forall k :: 0 <= k < r.value.used - 1 ==> draws[k] in availability
    ensures r.None? ==> forall k :: 0 <= k < |draws| ==> draws[k] in availability
    decreases |draws|
  {
    if |draws| == 0 then None
    else if draws[0] !in availability then Some(Choice(draws[0], 1))
    else
      match NewRandomChoice(availability, numTimeslots, draws[1..])
      case None => None
      case Some(c) => Some(Choice(c.slot, c.used + 1))
  }

  /** The slots that some draw names and the user does not hold yet. */
  function FreshDraws(draws: seq<nat>, availability: seq<nat>): set<nat> {
    Elements(draws) - Elements(availability)
  }

  /** Splitting the stream at position u splits its fresh slots accordingly. */
  lemma FreshSplit(draws: seq<nat>, availability: seq<nat>, u: nat)
    requires u <= |draws|
    ensures FreshDraws(draws, availability) ==
      FreshDraws(draws[..u], availability) + FreshDraws(draws[u..], availability)
  {
    forall x | x in draws ensures x in draws[..u] || x in draws[u..] {
      var k :| 0 <= k < |draws| && draws[k] == x;
      if k < u { assert draws[..u][k] == x; } else { assert draws[u..][k - u] == x; }
    }
    assert draws == draws[..u] + draws[u..];
  }

  /** A successful `new_random_choice` uses up exactly one fresh slot of the stream: the one
      it returns. */
  lemma ChoiceTakesOneFresh(availability: seq<nat>, numTimeslots: nat, draws: seq<nat>)
    requires DrawsInRange(draws, numTimeslots)
    requires NewRandomChoice(availability, numTimeslots, draws).Some?
    ensures var c := NewRandomChoice(availability, numTimeslots, draws).value;
      && c.slot in FreshDraws(draws, availability)
      && FreshDraws(draws[c.used..], availability + [c.slot]) <= FreshDraws(draws, availability)
      && |FreshDraws(draws, availability)| == |FreshDraws(draws[c.used..], availability + [c.slot])| + 1
  {
    var c := NewRandomChoice(availability, numTimeslots, draws).value;
    var head := FreshDraws(draws[..c.used], availability);
    var tail := FreshDraws(draws[c.used..], availability);
    var after := FreshDraws(draws[c.used..], availability + [c.slot]);
    FreshSplit(draws, availability, c.used);
    assert head == {c.slot} by {
      forall x | x in head ensures x == c.slot {
        var k :| 0 <= k < c.used && draws[..c.used][k] == x;
        assert draws[k] == x;
      }
      assert draws[..c.used][c.used - 1] == c.slot;
    }
    assert after == tail - {c.slot} by {
      assert Elements(availability + [c.slot]) == Elements(availability) + {c.slot};
    }
    assert FreshDraws(draws, availability) == after + {c.slot};
  }

  /** `n.times { availability << new_random_choice }`, consuming one stream of draws. Picking
      completes exactly when the stream names at least `count` slots the user does not hold,
      and every appended slot is one of those. */
  function AddChoices(availability: seq<nat>, count: nat, numTimeslots: nat, draws: seq<nat>): (r: Option<seq<nat>>)
    requires DrawsInRange(draws, numTimeslots)
    ensures r.Some? <==> |FreshDraws(draws, availability)| >= count
    ensures r.Some? ==>
      && |r.value| == |availability| + count
      && r.value[..|availability|] == availability
      && forall k :: |availability| <= k < |r.value| ==>
           r.value[k] < numTimeslots && r.value[k] in FreshDraws(draws, availability)
    ensures r.Some? && Distinct(availability) ==> Distinct(r.value)
    ensures r.Some? && WellFormedAvailability(availability, numTimeslots) ==>
      WellFormedAvailability(r.value, numTimeslots)
    decreases count
  {
    if count == 0 then Some(availability)
    else
      match NewRandomChoice(availability, numTimeslots, draws)
      case None =>
        assert FreshDraws(draws, availability) == {};
        None
      case Some(c) =>
        ChoiceTakesOneFresh(availability, numTimeslots, draws);
        var grown := availability + [c.slot];
        var r := AddChoices(grown, count - 1, numTimeslots, draws[c.used..]);
        if r.None? then r
        else
          PrependChoice(availability, c.slot, r.value, numTimeslots,
                        FreshDraws(draws, availability), FreshDraws(draws[c.used..], grown));
          r
  }

  /** What holds of the availability after the first choice also holds, one slot earlier,
      of the availability before it. */
  lemma PrependChoice(availability: seq<nat>, slot: nat, picked: seq<nat>, numTimeslots: nat,
                      freshBefore: set<nat>, freshAfter: set<nat>)
    requires slot < numTimeslots && slot in freshBefore && slot !in availability && freshAfter <= freshBefore
    requires |availability| + 1 <= |picked|
    requires picked[..|availability| + 1] == availability + [slot]
    requires forall k :: |availability| + 1 <= k < |picked| ==> picked[k] < numTimeslots && picked[k] in freshAfter
    requires Distinct(availability + [slot]) ==> Distinct(picked)
    requires WellFormedAvailability(availability + [slot], numTimeslots) ==> WellFormedAvailability(picked, numTimeslots)
    ensures picked[..|availability|] == availability
    ensures forall k :: |availability| <= k < |picked| ==> picked[k] < numTimeslots && picked[k] in freshBefore
    ensures Distinct(availability) ==> Distinct(picked)
    ensures WellFormedAvailability(availability, numTimeslots) ==> WellFormedAvailability(picked, numTimeslots)
  {
    var grown := availability + [slot];
    assert picked[..|availability|] == picked[..|availability| + 1][..|availability|];
    assert picked[|availability|] == picked[..|availability| + 1][|availability|];
    if Distinct(availability) {
      assert Distinct(grown);
    }
    if WellFormedAvailability(availability, numTimeslots) {
      assert WellFormedAvailability(grown, numTimeslots);
    }
  }

  /** A user who would end up holding more slots than exist never finishes picking:
      whatever `rand` returns, some `new_random_choice` keeps redrawing (in the source, until
      the stack overflows). */
  lemma {:induction false} SaturatedPickNeverCompletes(availability: seq<nat>, count: nat, numTimeslots: nat, draws: seq<nat>)
    requires DrawsInRange(draws, numTimeslots)
    requires WellFormedAvailability(availability, numTimeslots)
    requires |availability| + count > numTimeslots
    ensures AddChoices(availability, count, numTimeslots, draws).None?
  {
    var r := AddChoices(availability, count, numTimeslots, draws);
    if r.Some? {
      DistinctBounded(r.value, numTimeslots);
    }
  }

  /** Ruby's `Integer#times` runs no iteration for a negative count. */
  function Times(n: int): nat {
    if n < 0 then 0 else n
  }

  /** `pick_availability!`: ask for a perturbed number of slots and append that many fresh
      choices. `countDraw` is the `sample` draw, `draws` the `rand` draws. Picking completes
      exactly when the stream names enough slots the user does not hold yet. */
  function PickAvailability(u: User, c: Config, countDraw: nat, draws: seq<nat>): (r: Option<User>)
    requires countDraw < ChoiceCount
    requires DrawsInRange(draws, c.numTimeslots)
    ensures r.Some? <==>
      |FreshDraws(draws, u.availability)| >= Times(RandomizedChooseCount(ChooseCount(u.kind, c), countDraw))
    ensures r.Some? ==>
      && r.value.kind == u.kind
      && r.value.sequence == u.sequence
      && |r.value.availability| ==
           |u.availability| + Times(RandomizedChooseCount(ChooseCount(u.kind, c), countDraw))
      && |u.availability| + ChooseCount(u.kind, c) - 2 <= |r.value.availability|
      && |r.value.availability| <= |u.availability| + ChooseCount(u.kind, c) + 3
      && r.value.availability[..|u.availability|] == u.availability
      && forall k :: |u.availability| <= k < |r.value.availability| ==>
           r.value.availability[k] in FreshDraws(draws, u.availability)
    ensures r.Some? && WellFormedAvailability(u.availability, c.numTimeslots) ==>
      WellFormedAvailability(r.value.availability, c.numTimeslots)
  {
    var n := Times(RandomizedChooseCount(ChooseCount(u.kind, c), countDraw));
    match AddChoices(u.availability, n, c.numTimeslots, draws)
    case None => None
    case Some(a) => Some(u.(availability := a))
  }
}
