# Repairable fault tree, Monte-Carlo trial loop

This project models the core of a small Monte-Carlo simulator for repairable
systems described as fault trees (`src/main.rs`) and proves properties of the
model.

A fault tree is an arena of elements addressed by integer id. The elements are:

- **basic events**, components that are alive or dead and that carry a failure law and a repair law;
- **AND**, **OR** and **VOTE** gates, whose state is derived from their children's ids.

The simulator builds one tree: six components, three AND gates over pairs of
them, and a vote over the three pairs. It then runs trials:

1. Every basic event's first failure goes into a schedule kept in time order.
2. The earliest event is repeatedly popped and applied.
3. A failure that leaves the root failed ends the trial, and its time is recorded.
4. Any other failure schedules a repair, unless the sampled repair interval is zero.
5. A repair schedules the next failure.
6. Between trials every basic event is reset to alive.

The model follows the program's structure:

- `elements.dfy` (module `Elements`) holds the data model:
  - the element kinds, as one datatype in place of the trait objects and their downcasts;
  - statuses and probability laws;
  - event kinds and event records;
  - `Children::add`.
- `evaluation.dfy` (module `Evaluation`) holds `get_failed`:
  - it is a recursive predicate over a well-formed arena, where slot i holds the element with id i and every child id is below its gate's id;
  - lemmas give the AND, OR and VOTE semantics, both directions;
  - further lemmas prove monotonicity (coherence), framing, and the effect of adding a child;
  - `Satisfiable` says whether the root can fail at all.
- `arena.dfy` (module `Arena`) holds:
  - the `FT` struct as the class `FaultTree`, with its mutating methods: `ProcessEventTime` and `ResetBasicEvents` are proved against the specification functions `Applied` and `ResetAll`, and `AddElement` states its new elements directly;
  - the sampling error paths;
  - `IDGenerator` as the class `IdGenerator`.
- `schedule.dfy` (module `Schedule`) holds the event vector of the trial loop as the class `EventSchedule`:
  - the linear scan (`FindSlot`) and the splice at the slot, proved against `Slot` and `Inserted`;
  - sortedness, the multiset of events, and ties are proved;
  - `remove(0)` is `PopEarliest`.
- `simulation.dfy` (module `Simulation`) holds one trial step as the function `Step`, with:
  - the method `TrialStep` that performs it on the objects;
  - the trial invariant `Running`, which includes the "armed" schedule invariant.
- `campaign.dfy` (module `Campaign`) holds the trial loop of `main`:
  - the seeding loop, proved against `Seeded`, which inserts the first failure of each listed basic event in turn;
  - `Run`, which iterates `Step` over the given variates, and `Trial`, which seeds the schedule and then runs;
  - the methods `RunTrial` and `RunCampaign`, which perform them on the objects; each recorded time is tied to its own trial.
- `reference_tree.dfy` (module `ReferenceTree`) holds:
  - the tree built by `main`, and the imperative construction that yields it;
  - the proof that its top event fails exactly when two of the three pairs are down;
  - the proof that the top event can fail, so a trial on it never reaches the fatal removal from an empty schedule (`MainTreeTrialNeverStuck`);
  - the proof that a system failure comes no earlier than the first failures of both components of two pairs.

Random variates are inputs. Each sampled interval is a real parameter, and
non-negative values are the sampling library's contract. The program's fatal
errors appear in the model in one of three ways:

- as preconditions: setting a gate's status, an id out of range, a basic event with status `Dynamic` or with no failure law;
- as an `Err` result: sampling a gate;
- as the `EmptySchedule` outcome: removing from an empty schedule.

## Model

| member | source | states |
|---|---|---|
| Elements.StatusAfter | src/main.rs:84-97 | a failure event leaves a basic event dead, a repair leaves it alive; neither yields the reserved status |
| Elements.AddChild | src/main.rs:197-199 | adding a child appends the child's id to the gate's children and keeps the gate's kind, id and earlier children |
| Evaluation.CountFailed | src/main.rs:282-291 | the vote loop's counter never exceeds the number of children |
| Evaluation.AllFailedIff | src/main.rs:214-221 | the short-circuiting AND loop returns true exactly when every child is failed (true for no children) |
| Evaluation.AnyFailedIff | src/main.rs:248-255 | the short-circuiting OR loop returns true exactly when some child is failed (false for no children) |
| Evaluation.CountIsFailedPositions | src/main.rs:282-291 | the vote counter equals the number of child positions that are failed (a child listed twice counts twice) |
| Evaluation.CountAllIff | src/main.rs:282-291 | the count reaches the number of children exactly when all are failed, and is positive exactly when one is |
| Evaluation.AndSemantics | src/main.rs:214-221 | an AND gate evaluated through the tree is failed iff every child id is failed; with no children it is failed |
| Evaluation.OrSemantics | src/main.rs:248-255 | an OR gate is failed iff some child id is failed; with no children it is working |
| Evaluation.VoteSemantics | src/main.rs:282-291 | a vote gate is failed iff strictly more than len/2 (integer division) of its children are failed; with none it is working |
| Evaluation.VoteOfTwo | src/main.rs:282-291 | a vote over two children needs both failed |
| Evaluation.VoteOfThree | src/main.rs:282-291 | a vote over three children is failed iff some two of them are failed |
| Evaluation.Monotone | src/main.rs:114-120 | coherence: killing basic events can only fail more elements, never repair one |
| Evaluation.MonotoneAll | src/main.rs:214-221 | the AND loop is monotone in the children's statuses |
| Evaluation.MonotoneAny | src/main.rs:248-255 | the OR loop is monotone in the children's statuses |
| Evaluation.MonotoneCount | src/main.rs:282-291 | the vote counter is monotone in the children's statuses |
| Evaluation.FailedFrame | src/main.rs:52-56 | an element's state depends only on the slots at or below its id |
| Evaluation.AppendPreserves | src/main.rs:49-51 | adding an element at the end keeps the arena well formed and changes no earlier element's state |
| Evaluation.AllFailedAppend | src/main.rs:197-199 | a child added to an AND gate must also be failed for the gate to be failed |
| Evaluation.AnyFailedAppend | src/main.rs:197-199 | a child added to an OR gate fails the gate when it is failed |
| Evaluation.AddChildSemantics | src/main.rs:197-199 | after adding child c, an AND gate is failed iff it was and c is, an OR gate iff it was or c is, and a vote gate counts c once against the new threshold |
| Evaluation.SatisfiableIsMaximal | src/main.rs:114-120 | a specification helper for the empty-schedule case at src/main.rs:438, resting on coherence: if any assignment of statuses fails the root, the all-dead one does |
| Evaluation.AllDeadFailsSatisfiable | src/main.rs:114-120 | a specification helper for the empty-schedule case at src/main.rs:438: with every basic event dead, a root that can fail is failed |
| Arena.Applied | src/main.rs:84-97 | processing an event changes only the named basic event's status (dead after failure, alive after repair) and keeps the arena well formed |
| Arena.AppliedBasicFailed | src/main.rs:114-120 | after a failure the basic event evaluates failed, after a repair it evaluates working |
| Arena.StatusRoundTrip | src/main.rs:84-97 | failure then repair of an alive event, or repair then failure of a dead one, restores the arena |
| Arena.AppliedMonotone | src/main.rs:84-97 | a failure event can only fail more elements; a repair event can only repair elements |
| Arena.ResetAllApplied | src/main.rs:84-103 | processing an event is invisible after a reset: only statuses ever change |
| Arena.ResetAllAlive | src/main.rs:98-103 | after the reset no basic event is failed and the arena stays well formed |
| Arena.ResetAllIdempotent | src/main.rs:98-103 | resetting twice equals resetting once; resetting an all-alive arena changes nothing |
| Arena.SampleFailure | src/main.rs:66-74 | sampling a failure interval fails with an error exactly for a gate, and otherwise yields the failure law's variate |
| Arena.SampleRepair | src/main.rs:75-83 | sampling a repair interval fails exactly for a gate, yields 0.0 for a "none" repair law (src/main.rs:181), and is never negative for a non-negative variate |
| Arena.FaultTree.constructor | src/main.rs:46-48 | a new tree has root 0 and no elements |
| Arena.FaultTree.AddElement | src/main.rs:49-51 | inserts the element at its own id, shifting later slots; with id equal to the length it appends |
| Arena.FaultTree.GetBasicEvents | src/main.rs:57-65 | returns exactly the slots holding basic events, each once, in increasing order |
| Arena.FaultTree.ProcessEventTime | src/main.rs:84-97 | the new elements are `Applied` to the old ones; the root field is untouched |
| Arena.FaultTree.ResetBasicEvents | src/main.rs:98-103 | the per-id loop over the basic events leaves exactly `ResetAll` of the old elements |
| Arena.IdGenerator.constructor | src/main.rs:311-313 | a new generator starts at 0 |
| Arena.IdGenerator.GetNext | src/main.rs:314-317 | returns the counter and increments it |
| Arena.DrawIds | src/main.rs:314-317 | n calls on a fresh generator return exactly 0, 1, ..., n - 1 (distinct, strictly increasing) |
| Schedule.Slot | src/main.rs:429-432 | the slot is the first position whose time is not below the new time: every earlier event is strictly earlier |
| Schedule.FindSlot | src/main.rs:429-432 | the scanning loop stops exactly at `Slot` |
| Schedule.SplicedLayout | src/main.rs:433 | a vector insert at p keeps the events before p and shifts the rest up by one |
| Schedule.InsertedLayout | src/main.rs:429-433 | the new event sits at its slot, all earlier events are strictly earlier and unmoved, the rest move up by one |
| Schedule.InsertedAfterTies | src/main.rs:430 | every pending event not earlier than the new one, ties included, ends up after it |
| Schedule.InsertedMultiset | src/main.rs:429-433 | insertion is a permutation of the old events plus the new one |
| Schedule.InsertedSorted | src/main.rs:429-433 | insertion into a time-sorted schedule yields a time-sorted schedule |
| Schedule.PendingInserted | src/main.rs:429-433 | insertion adds the new event's kind to its own element's pending events and changes no other element's |
| Schedule.RescheduleProperties | src/main.rs:453-472 | rescheduling adds exactly the follow-up (as a multiset and per element) and keeps the schedule sorted |
| Schedule.RescheduleMember | src/main.rs:453-472 | every event after rescheduling was pending before or is the follow-up |
| Schedule.SortedHeadIsEarliest | src/main.rs:438 | the front of a sorted schedule has minimal time and the rest stays sorted |
| Schedule.EventSchedule.constructor | src/main.rs:423 | a trial starts with an empty schedule |
| Schedule.EventSchedule.Insert | src/main.rs:429-433 | the scan-and-insert yields `Inserted`, keeps sortedness and adds exactly the new event |
| Schedule.EventSchedule.PopEarliest | src/main.rs:438 | removes and returns the front, which has minimal time in a sorted schedule; an empty schedule is refused |
| Simulation.FollowUp | src/main.rs:452-473 | after a failure the follow-up is a repair of the same element at time + interval, present iff the repair law is not "none" and the interval is positive; after a repair it is always a failure at time + interval |
| Simulation.ArmedTransitions | src/main.rs:437-443 | under the schedule invariant, a failure is only applied to an alive basic event and a repair only to a dead one, and the event was its element's only pending one |
| Simulation.RescheduleTargetsBasic | src/main.rs:453-472 | a follow-up for a basic event keeps every pending event naming a basic event |
| Simulation.RescheduleNonNegative | src/main.rs:453-472 | a follow-up at a non-negative time keeps all times non-negative |
| Simulation.ArmedSlotAfterApply | src/main.rs:437-473 | after a step each basic event has its next failure pending if alive, and its repair or nothing if dead |
| Simulation.ArmedAfterApply | src/main.rs:437-473 | applying the front and adding its follow-up keeps the whole schedule armed |
| Simulation.StepKeepsArmed | src/main.rs:437-473 | a step that does not end the trial keeps the schedule armed |
| Simulation.StepOrder | src/main.rs:437-473 | a step keeps the schedule sorted and never schedules anything before the event just applied |
| Simulation.StepKeepsRootWorking | src/main.rs:443-451 | although the root is checked only after failures, a continuing step leaves it working |
| Simulation.StepEffect | src/main.rs:437-473 | a step ends the trial exactly on a failure after which the root is failed, recording that event's time; otherwise it adds exactly the follow-up |
| Simulation.StepPreservesRunning | src/main.rs:437-473 | from a running trial whose root works (or whose basic events are all alive) a step either records a non-negative failure time with the root failed, or leaves a running trial with the root working; only statuses change |
| Simulation.EmptyScheduleUnsatisfiable | src/main.rs:438 | a running trial finds its schedule empty only if its root cannot fail at all |
| Simulation.TrialStep | src/main.rs:437-473 | popping, applying and reacting on the objects yields exactly `Step` |
| Arena.BasicEventsBelowListed | src/main.rs:57-65 | the basic events among the first n slots are listed exactly, each once, in increasing order |
| Arena.BasicEventsOfListed | src/main.rs:57-65 | the list of a tree's basic events holds exactly the slots with basic events, each once, in increasing order |
| Arena.SatisfiableAfterReset | src/main.rs:98-103 | two arenas that reset to the same arena have a root that can fail in both or in neither |
| Arena.ResetAllSameShape | src/main.rs:98-103 | a reset changes nothing but basic events' statuses: every gate is unchanged and every basic event keeps its id and both laws |
| Campaign.SeedOne | src/main.rs:425-433 | seeding the next listed basic event's failure extends the seeded set by that event |
| Campaign.SeededSorted | src/main.rs:425-433 | the seeded schedule is sorted by time |
| Campaign.SeededIsFirstFailures | src/main.rs:425-433 | the seeded schedule is a permutation of the events "failure of ids[k] at time seedVariates[ids[k]]", one for each position k of the list ids |
| Campaign.SeededMember | src/main.rs:425-433 | every seeded event is the first failure of some listed basic event |
| Campaign.SeededHolds | src/main.rs:425-433 | every listed basic event's first failure is in the seeded schedule |
| Campaign.SeededPending | src/main.rs:425-433 | after seeding the first k listed basic events (ids strictly increasing), each of them has exactly one pending failure and no other element has anything pending |
| Campaign.SeededProperties | src/main.rs:423-435 | the seeded schedule is sorted, names only basic events, is non-negative for non-negative variates, and gives each basic event exactly one pending failure |
| Campaign.SeedSchedule | src/main.rs:423-435 | the seeding loop builds exactly `Seeded`: one failure per basic event at its sampled interval, sorted and non-negative |
| Campaign.StepTargets | src/main.rs:437-473 | a step keeps the arena well formed, of the same size, and every pending event naming a basic event |
| Campaign.RunPreservesRunning | src/main.rs:437-474 | iterating steps from a running trial changes only statuses; it ends with the root failed at a non-negative time, or with the root working when the variates run out, or at the empty schedule only when the root cannot fail, or when the schedule was empty from the start with the root already failed (a tree with no basic events) |
| Campaign.RunClock | src/main.rs:437-474 | a system failure is recorded no earlier than the earliest event pending at the start |
| Campaign.RunFailureAfterComponentFailure | src/main.rs:437-474 | for a component alive at the start, a system failure with that component dead comes no earlier than any event of that component pending at the start |
| Campaign.OnlyPendingOfHead | src/main.rs:437-443 | in an armed schedule, the front event is its element's only pending event |
| Campaign.StepKeepsOtherPending | src/main.rs:437-473 | a continuing step keeps every pending event of the other elements |
| Campaign.PendingMember | src/main.rs:423-473 | an event in the schedule is among its element's pending events |
| Campaign.TrialStart | src/main.rs:423-435 | on an all-alive tree the seeded schedule starts a running trial |
| Campaign.TrialOutcomes | src/main.rs:423-476 | a trial only changes statuses, so the reset restores the tree; it ends with the root failed at a non-negative time, or with the root working when the variates run out, or at the empty schedule only for a tree with no basic events or whose root cannot fail |
| Campaign.TrialFailureAfterComponentFailure | src/main.rs:423-474 | a system failure with a component dead comes no earlier than that component's first failure |
| Campaign.RunTrial | src/main.rs:423-474 | the seeding and step loops on the objects leave the tree and the outcome exactly as `Run` from `Seeded` does |
| Campaign.RunTrialAndReset | src/main.rs:423-476 | one trial on the objects has the outcome of `Trial` on the initial tree; after a system failure the reset restores the tree |
| Campaign.RunCampaign | src/main.rs:422-477 | the t-th recorded time is the non-negative system-failure time of trial t on the initial tree, at most one per trial; a short campaign stops at a trial that did not fail; after a full campaign the tree is back to its initial state |
| ReferenceTree.NewComponent | src/main.rs:369-371 | a component takes the generator's next id |
| ReferenceTree.NewPairGate | src/main.rs:388-390 | an AND gate takes the next id and its two children's ids in order |
| ReferenceTree.NewVoteGate | src/main.rs:405-408 | the vote gate takes the next id and its three children's ids in order |
| ReferenceTree.BuildMainTree | src/main.rs:369-415 | the construction yields exactly `MainTree` with root id 9; the tree's own root field stays 0 |
| ReferenceTree.MainTreeFailure | src/main.rs:388-408 | under any statuses the top event is failed iff at least two of the three component pairs are both dead |
| ReferenceTree.MainTreeWellFormed | src/main.rs:369-415 | the built tree is well formed and all its components are alive |
| ReferenceTree.MainTreeWorksAndCanFail | src/main.rs:369-415 | the top event of the built tree is working and can fail |
| ReferenceTree.MainTreeBasicEvents | src/main.rs:417 | the basic events of the built tree are exactly 0..5 |
| ReferenceTree.MainTreeTrialNeverStuck | src/main.rs:417-474 | a trial on the built tree never ends at the empty schedule |
| ReferenceTree.MainTreeFailureTime | src/main.rs:388-474 | a system failure of the built tree comes no earlier than the first failures of both components of two of the three pairs |
| ReferenceTree.SimulateMainTree | src/main.rs:326-477 | building the tree and running a campaign records, for each trial t, trial t's non-negative system-failure time; a short campaign stops at a trial that is still running when its variates run out |

## Left out

- Random variates (`statrs` laws, `rand::thread_rng`): every sampled interval is an input. The law parameters are kept in the data but nothing draws from them.
- The parameter validation in `BasicEvent::new` (the laws' own `new(...).unwrap()`) and its console warnings are not modelled. A basic event with no failure law, which makes `new` panic, is excluded by well-formedness.
- Times are `real`, not IEEE `f64`: rounding and NaN are not modelled.
- Output: `print!`, the `out_string` buffer and writing `output.txt` are left out; a campaign returns the recorded times instead.
- Campaign.RunTrial: the trial loop has no bound in the program and ends only with probability 1; the model takes one step per supplied variate and reports `Continues` when they run out.
- Campaign.RunCampaign: stops at the first trial that does not end in a system failure, where the program would loop on or panic. The statistics of the 10000 trials are not modelled.
- Evaluation.WellFormed: two kinds of arena are outside the model, although the program would evaluate them. The first is a gate whose children have ids at or above its own (for example an OR gate at id 0 over a basic event at id 1). The second is an arena whose slot i does not hold the element with id i: `add_element` inserts at the element's id, so calls out of id order (two elements with id 0, say) shift earlier elements to other slots, while `get_failed` reads children by slot. `Arena.FaultTree.AddElement` models such insertions faithfully, but the evaluation lemmas do not cover the result. Evaluation.Failed relies on the child order for termination. The program's own tree meets both restrictions, as `MainTreeWellFormed` proves.
- The "unknown event type" panic of `process_event_time` cannot occur, because an event kind is a two-valued datatype.
- `as_any` and the downcasts are replaced by the element datatype.
- The spare/switch gate sketched in a comment is not part of this model. So is the reserved status `Dynamic`, which well-formedness excludes, since evaluating it panics.
- Arena.IdGenerator.GetNext: the counter is unbounded; `usize` overflow is not modelled.
- The `root` field of the tree is never read or set by the program beyond its initial 0. Trials take the root id as a parameter, as `main` does with its local `root_id`.
- Evaluation.Failed: the AND and OR loops short-circuit and the vote loop does not. The model evaluates without side effects, so the order of child evaluation is not observable and not modelled.
