# Interview-slot booking simulator, modelled in Dafny

This project models the core of `scratch.rb`, a one-file simulation of interview scheduling.
A calendar of timeslots is filled in a single greedy pass. Each slot, in sequence order, takes
one applicant who is not yet booked and who stated availability for it, and then the first
two available reviewers of a fresh shuffle. Before that, two guards refuse configurations that
cannot work, and every user who responds to the availability request picks a randomly
perturbed number of distinct slots.

Randomness is a parameter of the model, never a hidden source:

- each `shuffle` is an argument that must be a permutation of the participant indices
  (`Booking.IsShuffle`), one applicant shuffle and one reviewer shuffle per slot, because the
  loop reshuffles on every iteration;
- the `sample` in `randomized_choose_count` is an index into its 19-entry list;
- the successive results of `rand` in `new_random_choice` are a finite stream of draws, and
  running out of draws means the stream ended before enough fresh slots came up; for a user
  who already holds every slot it stands for the source's redrawing until the stack overflows.

Every property below holds for every shuffle and every draw stream. Each pick is also an arbitrary
choice from what the slot allows. `Booking.EveryEligibleApplicantCanBeDrawn` shows that the shuffled
`detect` can land on any eligible applicant. `Booking.EveryReviewerPickCanBeDrawn` shows that
`select.first(2)` can return any duplicate-free list of available reviewers of the length the slot gets.

Modules follow the script's parts: `Settings` (constants, `randomized_choose_count`, guards),
`Users` (`User`, `Applicant`, `Reviewer`), `Timeslots` (`Timeslot`), `Booking` (`applicant_booked?`
and the booking loop) and `Schedule` (the script end to end). `Wrappers` and `Seqs` are helpers.

Behaviour the model follows because the code does it:

- There are no concurrency bands. A reviewer may staff any number of slots (`Booking.ReviewerNotLimitedAcrossSlots`).
- Slots are processed in index order. Only the candidate lists are shuffled.
- There is no displacement of booked applicants and no workload balancing.
- The seat count 2 is hard-coded in `full?` and in `first(2)` (`Timeslots.ReviewerSeats`).
  `REVIEWERS_PER_INTERVIEW` is read only by the second guard.
- Reviewers are seated in every slot, including slots that got no applicant.

## Model

| member | source | states |
|---|---|---|
| Settings.ChooseCountChoices | scratch.rb:12-34 | the sampled list has 19 answers, each between ask-2 and ask+3 |
| Settings.RandomizedChooseCount | scratch.rb:12-34 | whatever `sample` draws, the answer is one of the listed ones and lies in [ask-2, ask+3] |
| Settings.ChooseCountRangeIsTight | scratch.rb:12-34 | every count from ask-2 to ask+3 is the answer for some draw, so the range is exact |
| Settings.CheckGuards | scratch.rb:145-151 | the run proceeds exactly when applicants fit in the timeslots and reviewer picks cover two seats per applicant; the timeslot error is reported exactly when there are more applicants than timeslots, so it takes precedence |
| Settings.DefaultPassesGuards | scratch.rb:3-9 | the shipped constants pass both guards |
| Users.NewUser | scratch.rb:63-66 | a new user has empty availability and so has not responded |
| Users.NewRandomChoice | scratch.rb:82-90 | the chosen slot is the first draw the user does not already hold, and it is in range; no choice is made only when every draw is already held |
| Users.AddChoices | scratch.rb:76-80 | picking n slots completes exactly when the draws name at least n slots the user does not hold; it then keeps the old availability as a prefix and appends exactly n such slots, all in 0..NUM_TIMESLOTS-1; availability that was duplicate-free and in range stays so |
| Users.ChoiceTakesOneFresh | scratch.rb:82-90 | each successful choice uses up exactly one not-yet-held slot of the draw stream, the one it returns |
| Users.SaturatedPickNeverCompletes | scratch.rb:82-90 | a user who would need more distinct slots than exist never completes picking, for every stream of draws (the source keeps recursing until Ruby raises `SystemStackError`) |
| Users.PickAvailability | scratch.rb:76-80 | `pick_availability!` completes exactly when the draws name as many not-yet-held slots as the perturbed count asks for; it then keeps kind and identity and adds exactly the sampled count (none when it is negative) of those slots after the old ones, a count between choose_count-2 and choose_count+3, and preserves well-formed availability |
| Timeslots.Full | scratch.rb:43-49 | a full slot is in use |
| Timeslots.InitialCalendar | scratch.rb:109-111 | the script starts from slots numbered 0..n-1 with nobody booked and no reviewers |
| Booking.DetectApplicant | scratch.rb:162 | the detected applicant is unbooked and available, and every applicant before it in the shuffle is not; nobody is detected only when no applicant in the shuffle qualifies |
| Booking.SelectAvailable | scratch.rb:163 | `select` keeps exactly the shuffled reviewers available for the slot, without duplicates |
| Booking.SelectReviewers | scratch.rb:163 | at most two reviewers, all available and distinct; fewer than two only when every available reviewer is already selected for this slot |
| Booking.SelectReviewersCount | scratch.rb:163 | from a full shuffle, the number of reviewers is the smaller of two and the number available |
| Booking.Step | scratch.rb:161-164 | one iteration changes slot i only: its applicant is eligible or no applicant is, and its reviewers are at most two, available and distinct |
| Booking.BookPrefix | scratch.rb:161-164 | after k iterations, slots k and later are untouched and every slot keeps its sequence number |
| Booking.Book | scratch.rb:161-164 | the loop keeps the calendar's size and sequence numbers |
| Booking.EarlierSlotsKept | scratch.rb:161-164 | later iterations never change an earlier slot |
| Booking.BookedOnlyGrows | scratch.rb:161-164 | an applicant booked after k iterations is still booked after more |
| Booking.SlotSettledAtItsTurn | scratch.rb:161-164 | a slot's final state is the state its own iteration gave it |
| Booking.BookedBeforeTurn | scratch.rb:133-137 | when slot j is processed, `applicant_booked?` holds exactly for the applicants of slots 0..j-1 |
| Booking.BookedApplicantsAvailable | scratch.rb:162 | every booked applicant stated availability for their slot |
| Booking.NoApplicantBookedTwice | scratch.rb:162 | no applicant holds two slots |
| Booking.BookedReviewersAvailable | scratch.rb:163 | every slot has at most two reviewers, distinct and available for it |
| Booking.ApplicantPickIsGreedy | scratch.rb:162 | a slot stays empty exactly when every applicant available for it already holds an earlier slot |
| Booking.ReviewerPickIsGreedy | scratch.rb:163 | every slot has two reviewers, or all available reviewers when fewer than two are available |
| Booking.ReviewerCountAt | scratch.rb:163 | the same count for one given slot |
| Booking.FullExactlyWhenTwoAvailable | scratch.rb:43-49 | after the loop a slot is full exactly when it is in use and at least two reviewers are available for it |
| Booking.ReviewerNotLimitedAcrossSlots | scratch.rb:163 | where at most two reviewers are available, each of them is seated, however many other slots they staff |
| Booking.EveryEligibleApplicantCanBeDrawn | scratch.rb:162 | for every eligible applicant some shuffle makes `detect` choose them |
| Booking.EveryReviewerPickCanBeDrawn | scratch.rb:163 | every duplicate-free list of available reviewers whose length is the smaller of two and the number available is the result of `select.first(2)` for some shuffle |
| Booking.NobodyAvailableStaysEmpty | scratch.rb:162 | a slot nobody is available for stays empty |
| Schedule.BookIsWellBooked | scratch.rb:161-164 | from an unbooked calendar the loop meets all five promises: availability, no double booking, reviewer limits, and both greedy properties |
| Schedule.Simulate | scratch.rb:145-164 | the script aborts with the guard's error exactly when a guard fails; otherwise it returns slots 0..NUM_TIMESLOTS-1 meeting all five promises |
| Schedule.ScenarioSlotZeroBooked | scratch.rb:161-164 | three applicants available only for slot 0: slot 0 is booked, whatever the shuffles |
| Schedule.ScenarioOtherSlotsEmpty | scratch.rb:161-164 | in that scenario slots 1 to 3 stay empty |
| Schedule.ScenarioReviewersSeated | scratch.rb:161-164 | in that scenario every slot, used or not, gets two reviewers |

Some members transliterate one line of the script and carry no contract of their own; the
lemmas above state their properties:
`Timeslots.InUse` is `in_use?` (scratch.rb:51-53),
`Users.AvailableForTimeslot` is `available_for_timeslot?` (scratch.rb:72-74),
`Users.RespondedToAvailabilityRequest` is `responded_to_availability_request?` (scratch.rb:104-106),
`Users.ChooseCount` is the two `choose_count` methods (scratch.rb:94-96 and 100-102),
`Booking.Booked` is `applicant_booked?` (scratch.rb:133-137), and
`Users.Times` is the iteration count of `Integer#times`, which runs no iteration for a negative count (scratch.rb:77).

## Left out

- The distribution of `sample`, `shuffle` and `rand`. Draws and permutations are parameters, and uniformity is not stated.
- The response-rate gate (`scratch.rb:155-157`). Which users respond is decided by `rand` and is an input here: a non-responding user simply has empty availability.
- Picking availability for all users before booking. `Users.PickAvailability` models one user; `Schedule.Simulate` takes the users with their availability already picked.
- The result report (`scratch.rb:139-141`, `168-169`). It is float formatting and output. Line 169 also calls `is_use?`, which does not exist, so the second report line would raise.
- `timeslot_by_sequence` (`scratch.rb:125-127`). It uses `=` where a comparison was meant, so it would overwrite the first slot's sequence and return that slot. Nothing calls it.
- `all_users`, `timeslots` and the `to_s` methods. They are accessors and printing.
- Users.NewRandomChoice: the source keeps recursing until Ruby raises `SystemStackError` and the script aborts; the model stops when its finite draw stream ends and returns no choice.
- Users.SaturatedPickNeverCompletes: assumes at least one timeslot. With `NUM_TIMESLOTS = 0`, which the guards accept when there are no applicants, `rand(0..-1)` returns `nil`, so the source's first pick completes with availability `[nil]`. The model has no draw in range and returns no choice.
- Timeslots: a slot's `reviewers` starts as `nil` in the source and as the empty list here. `full?` never reads it before the loop assigns it, because `applicant` is checked first.
