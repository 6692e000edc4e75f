/**
 * One step of a Monte-Carlo trial: the earliest event is applied, a failure
 * that fails the root ends the trial, any other failure schedules a repair
 * (unless the repair interval is zero), and a repair schedules the next
 * failure; and the invariants every step keeps.
 *
 * Random variates are inputs: each step is given the value the relevant
 * failure or repair law produced.
 */
module Simulation {
  import opened Elements
  import opened Evaluation
  import opened Arena
  import opened Schedule

  /** How a trial stands: ended at a system-failure time, still running, or
      stopped by the fatal removal from an empty schedule. */
  datatype Outcome = SystemFailed(time: real) | Continues | EmptySchedule

  /** The tree, the schedule and the outcome after one step. */
  datatype StepResult = StepResult(elements: seq<Element>, events: seq<EventTime>, outcome: Outcome)

  /** Every pending event names a basic event. */
  predicate TargetsBasic(e: seq<Element>, s: seq<EventTime>) {
    forall k :: 0 <= k < |s| ==> s[k].element < |e| && e[s[k].element].BasicEvent?
  }

  /** The pending events of one basic event agree with its status. */
  predicate ArmedSlot(status: Status, p: multiset<EventKind>) {
    (status == Alive ==> p == multiset{Failure}) &&
    (status == Dead ==> p == multiset{} || p == multiset{Repair})
  }

  /**
   * The schedule invariant of a running trial: every pending event names a
   * basic event; an alive basic event has exactly one pending event, its next
   * failure; a dead one has exactly its repair pending, or nothing when its
   * repair interval was zero.
   */
  predicate Armed(e: seq<Element>, s: seq<EventTime>) {
    TargetsBasic(e, s) &&
    forall b :: 0 <= b < |e| && e[b].BasicEvent? ==> ArmedSlot(e[b].status, Pending(s, b))
  }

  predicate AllAlive(e: seq<Element>) {
    forall j :: 0 <= j < |e| && e[j].BasicEvent? ==> e[j].status == Alive
  }

  predicate NonNegativeTimes(s: seq<EventTime>) {
    forall k :: 0 <= k < |s| ==> s[k].time >= 0.0
  }

  /**
   * The event scheduled in reaction to `ev` (already applied to `e`), given the
   * variate of the law sampled: after a failure, a repair when the repair
   * interval is positive; after a repair, always the next failure.
   */
  function FollowUp(e: seq<Element>, ev: EventTime, variate: real): (f: Option<EventTime>)
    requires WellFormed(e) && ev.element < |e| && e[ev.element].BasicEvent?
    ensures f.Some? ==> f.value.element == ev.element && f.value.kind != ev.kind
    ensures f.Some? && variate >= 0.0 ==> f.value.time >= ev.time
    ensures ev.kind == Repair ==> f == Some(EventTime(ev.time + variate, ev.element, Failure))
    ensures ev.kind == Failure ==>
      (f.Some? <==> e[ev.element].repairLaw != NoDistribution && variate > 0.0)
    ensures ev.kind == Failure && f.Some? ==> f.value.time == ev.time + variate
  {
    var x := ev.element;
    assert SlotWellFormed(e[x], x);
    match ev.kind
    case Failure =>
      var repairInterval := SampleRepair(e, x, variate).value;
      if repairInterval > 0.0 then Some(EventTime(ev.time + repairInterval, x, Repair)) else None
    case Repair =>
      var failureInterval := SampleFailure(e, x, variate).value;
      Some(EventTime(ev.time + failureInterval, x, Failure))
  }

  /** One step of a trial, given the variate of the law the step samples. */
  function Step(e: seq<Element>, root: nat, s: seq<EventTime>, variate: real): (r: StepResult)
    requires WellFormed(e) && root < |e| && s != [] && TargetsBasic(e, s)
  {
    var ev := s[0];
    var e' := Applied(e, ev);
    if ev.kind == Failure && Failed(e', root) then
      StepResult(e', s[1..], SystemFailed(ev.time))
    else
      StepResult(e', Reschedule(s[1..], FollowUp(e', ev, variate)), Continues)
  }

  /**
   * The state machine of a basic event under an armed schedule: a failure is
   * only ever applied to an alive basic event and a repair to a dead one, and
   * the applied event was the only one pending for its element.
   */
  lemma ArmedTransitions(e: seq<Element>, s: seq<EventTime>)
    requires WellFormed(e) && s != [] && Armed(e, s)
    ensures s[0].kind == Failure ==> e[s[0].element].status == Alive
    ensures s[0].kind == Repair ==> e[s[0].element].status == Dead
    ensures Pending(s[1..], s[0].element) == multiset{}
  {
    var x := s[0].element;
    assert SlotWellFormed(e[x], x);
    assert Pending(s, x) == multiset{s[0].kind} + Pending(s[1..], x);
    assert s[0].kind in Pending(s, x);
  }

  /** Adding an event that names a basic event keeps every pending event naming one. */
  lemma RescheduleTargetsBasic(e: seq<Element>, s: seq<EventTime>, f: Option<EventTime>)
    requires TargetsBasic(e, s)
    requires f.Some? ==> f.value.element < |e| && e[f.value.element].BasicEvent?
    ensures TargetsBasic(e, Reschedule(s, f))
  {
    var r := Reschedule(s, f);
    forall k | 0 <= k < |r|
      ensures r[k].element < |e| && e[r[k].element].BasicEvent?
    {
      RescheduleMember(s, f, k);
    }
  }

  /** Adding an event at a non-negative time keeps all times non-negative. */
  lemma RescheduleNonNegative(s: seq<EventTime>, f: Option<EventTime>)
    requires NonNegativeTimes(s)
    requires f.Some? ==> f.value.time >= 0.0
    ensures NonNegativeTimes(Reschedule(s, f))
  {
    var r := Reschedule(s, f);
    forall k | 0 <= k < |r|
      ensures r[k].time >= 0.0
    {
      RescheduleMember(s, f, k);
    }
  }

  /**
   * The pending events of one basic event after the head of an armed schedule
   * is applied and a follow-up of the opposite kind for the same element
   * (always one after a repair) is added.
   */
  lemma ArmedSlotAfterApply(e: seq<Element>, s: seq<EventTime>, f: Option<EventTime>, b: nat)
    requires WellFormed(e) && s != [] && Armed(e, s)
    requires f.Some? ==> f.value.element == s[0].element && f.value.kind != s[0].kind
    requires s[0].kind == Repair ==> f.Some?
    requires b < |e| && e[b].BasicEvent?
    ensures ArmedSlot(Applied(e, s[0])[b].status, Pending(Reschedule(s[1..], f), b))
  {
    var ev := s[0];
    ArmedTransitions(e, s);
    RescheduleProperties(s[1..], f);
    var after := Pending(Reschedule(s[1..], f), b);
    assert after == Pending(s[1..], b) + if f.Some? && f.value.element == b then multiset{f.value.kind} else multiset{};
    assert Pending(s, b) == (if ev.element == b then multiset{ev.kind} else multiset{}) + Pending(s[1..], b);
    if ev.element == b {
      assert Applied(e, ev)[b].status == StatusAfter(ev.kind);
    } else {
      assert Applied(e, ev)[b] == e[b] && after == Pending(s, b);
    }
  }

  /** The same for the whole schedule: it stays armed. */
  lemma ArmedAfterApply(e: seq<Element>, s: seq<EventTime>, f: Option<EventTime>)
    requires WellFormed(e) && s != [] && Armed(e, s)
    requires f.Some? ==> f.value.element == s[0].element && f.value.kind != s[0].kind
    requires s[0].kind == Repair ==> f.Some?
    ensures Armed(Applied(e, s[0]), Reschedule(s[1..], f))
  {
    var e' := Applied(e, s[0]);
    assert TargetsBasic(e', s[1..]) by {
      forall k | 0 <= k < |s[1..]|
        ensures s[1..][k].element < |e'| && e'[s[1..][k].element].BasicEvent?
      {
        assert s[1..][k] == s[k + 1];
      }
    }
    RescheduleTargetsBasic(e', s[1..], f);
    forall b | 0 <= b < |e'| && e'[b].BasicEvent?
      ensures ArmedSlot(e'[b].status, Pending(Reschedule(s[1..], f), b))
    {
      ArmedSlotAfterApply(e, s, f, b);
    }
  }

  /** A continuing step keeps the schedule armed. */
  lemma StepKeepsArmed(e: seq<Element>, root: nat, s: seq<EventTime>, variate: real)
    requires WellFormed(e) && root < |e| && s != [] && Armed(e, s)
    ensures var r := Step(e, root, s, variate);
      r.outcome == Continues ==> Armed(r.elements, r.events)
  {
    var e' := Applied(e, s[0]);
    if !(s[0].kind == Failure && Failed(e', root)) {
      ArmedAfterApply(e, s, FollowUp(e', s[0], variate));
    }
  }

  /**
   * With a non-negative variate the schedule stays sorted and the clock never
   * goes back: every event left pending is not earlier than the one applied.
   */
  lemma StepOrder(e: seq<Element>, root: nat, s: seq<EventTime>, variate: real)
    requires WellFormed(e) && root < |e| && s != [] && TargetsBasic(e, s)
    requires Sorted(s) && variate >= 0.0
    ensures var r := Step(e, root, s, variate);
      Sorted(r.events) && forall k :: 0 <= k < |r.events| ==> r.events[k].time >= s[0].time
  {
    var ev := s[0];
    var e' := Applied(e, ev);
    SortedHeadIsEarliest(s);
    if !(ev.kind == Failure && Failed(e', root)) {
      var f := FollowUp(e', ev, variate);
      var events := Reschedule(s[1..], f);
      RescheduleProperties(s[1..], f);
      forall k | 0 <= k < |events|
        ensures events[k].time >= ev.time
      {
        RescheduleMember(s[1..], f, k);
      }
    }
  }

  /**
   * No system failure is missed although the root is only examined after
   * failures: a continuing step leaves the root working, given that it was
   * working before whenever the step is a repair.
   */
  lemma StepKeepsRootWorking(e: seq<Element>, root: nat, s: seq<EventTime>, variate: real)
    requires WellFormed(e) && root < |e| && s != [] && TargetsBasic(e, s)
    requires s[0].kind == Repair ==> !Failed(e, root)
    ensures var r := Step(e, root, s, variate);
      r.outcome == Continues ==> !Failed(r.elements, root)
  {
    AppliedMonotone(e, s[0], root);
  }

  /**
   * What a step does to the trial: it ends the trial exactly when it applies a
   * failure after which the root is failed, and then records that event's
   * time; otherwise the follow-up event is added and nothing else.
   */
  lemma StepEffect(e: seq<Element>, root: nat, s: seq<EventTime>, variate: real)
    requires WellFormed(e) && root < |e| && s != [] && TargetsBasic(e, s)
    ensures var r := Step(e, root, s, variate);
      r.elements == Applied(e, s[0]) && r.outcome != EmptySchedule &&
      (r.outcome.SystemFailed? <==> s[0].kind == Failure && Failed(r.elements, root)) &&
      (r.outcome.SystemFailed? ==> r.outcome.time == s[0].time && r.events == s[1..])
    ensures var r := Step(e, root, s, variate);
      r.outcome == Continues ==>
        multiset(r.events) == multiset(s[1..]) +
          match FollowUp(r.elements, s[0], variate)
          case Some(y) => multiset{y}
          case None => multiset{}
  {
    var e' := Applied(e, s[0]);
    RescheduleProperties(s[1..], FollowUp(e', s[0], variate));
  }

  /** Invariant of a trial between steps. */
  predicate Running(e: seq<Element>, root: nat, s: seq<EventTime>) {
    WellFormed(e) && root < |e| && Sorted(s) && NonNegativeTimes(s) && Armed(e, s)
  }

  /**
   * A step from a running trial whose root works (or that has only failures
   * pending) either records a non-negative time at which the root is failed or
   * leaves a running trial whose root works; only statuses change.
   */
  lemma StepPreservesRunning(e: seq<Element>, root: nat, s: seq<EventTime>, variate: real)
    requires Running(e, root, s) && s != [] && variate >= 0.0
    requires !Failed(e, root) || AllAlive(e)
    ensures var r := Step(e, root, s, variate);
      ResetAll(r.elements) == ResetAll(e) && WellFormed(r.elements) &&
      (r.outcome.SystemFailed? ==> Failed(r.elements, root) && r.outcome.time >= 0.0) &&
      (r.outcome == Continues ==> Running(r.elements, root, r.events) && !Failed(r.elements, root)) &&
      r.outcome != EmptySchedule
  {
    ArmedTransitions(e, s);
    StepEffect(e, root, s, variate);
    StepOrder(e, root, s, variate);
    StepKeepsArmed(e, root, s, variate);
    StepKeepsRootWorking(e, root, s, variate);
    ResetAllApplied(e, s[0]);
    var r := Step(e, root, s, variate);
    forall k | 0 <= k < |r.events|
      ensures r.events[k].time >= 0.0
    {
    }
  }

  /**
   * A running trial never finds its schedule empty unless the root cannot fail
   * at all: with nothing pending every basic event is dead.
   */
  lemma EmptyScheduleUnsatisfiable(e: seq<Element>, root: nat)
    requires WellFormed(e) && root < |e| && Armed(e, []) && !Failed(e, root)
    ensures !Satisfiable(e, root)
  {
    forall j | 0 <= j < |e| && e[j].BasicEvent?
      ensures e[j].status == Dead
    {
      assert SlotWellFormed(e[j], j);
      assert ArmedSlot(e[j].status, Pending([], j));
    }
    if Satisfiable(e, root) {
      AllDeadFailsSatisfiable(e, root);
    }
  }

  /**
   * Pops the earliest event, applies it, and either ends the trial (a failure
   * after which the root is failed) or inserts the follow-up event, if any.
   */
  method TrialStep(ft: FaultTree, sched: EventSchedule, root: nat, variate: real) returns (outcome: Outcome)
    requires WellFormed(ft.elements) && root < |ft.elements|
    requires sched.events != [] && TargetsBasic(ft.elements, sched.events)
    modifies ft, sched
    ensures ft.root == old(ft.root)
    ensures StepResult(ft.elements, sched.events, outcome) == Step(old(ft.elements), root, old(sched.events), variate)
  {
    var ev := sched.PopEarliest();
    ft.ProcessEventTime(ev);
    if ev.kind == Failure && Failed(ft.elements, root) {
      outcome := SystemFailed(ev.time);
    } else {
      var followUp := FollowUp(ft.elements, ev, variate);
      if followUp.Some? {
        sched.Insert(followUp.value);
      }
      outcome := Continues;
    }
  }
}
