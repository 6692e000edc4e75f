/**
 * The trial loop of the program: seeding a schedule with the first failure of
 * every basic event, running a trial step by step until the system fails, and
 * a campaign of trials with the basic events reset in between.
 */
module Campaign {
  import opened Elements
  import opened Evaluation
  import opened Arena
  import opened Schedule
  import opened Simulation

  /**
   * The pending events of a schedule being seeded: a failure for each basic
   * event already listed, nothing for any other element.
   */
  predicate SeededUpTo(s: seq<EventTime>, ids: seq<nat>, k: nat, n: nat)
    requires k <= |ids|
  {
    forall b :: 0 <= b < n ==> Pending(s, b) == if b in ids[..k] then multiset{Failure} else multiset{}
  }

  /** Seeding the failure of the next listed basic event extends the seeded prefix by one. */
  lemma SeedOne(s: seq<EventTime>, ids: seq<nat>, k: nat, n: nat, ev: EventTime)
    requires k < |ids| && SeededUpTo(s, ids, k, n)
    requires forall a, c :: 0 <= a < c < |ids| ==> ids[a] < ids[c]
    requires ev.element == ids[k] && ev.kind == Failure
    ensures SeededUpTo(Reschedule(s, Some(ev)), ids, k + 1, n)
  {
    RescheduleProperties(s, Some(ev));
    assert ids[..k + 1] == ids[..k] + [ids[k]];
    assert ids[k] !in ids[..k];
  }

  /** The first failure of each listed basic event; `seedVariates[id]` is the interval of `id`. */
  function FirstFailures(ids: seq<nat>, seedVariates: seq<real>): seq<EventTime>
    requires forall k :: 0 <= k < |ids| ==> ids[k] < |seedVariates|
  {
    seq(|ids|, k requires 0 <= k < |ids| => EventTime(seedVariates[ids[k]], ids[k], Failure))
  }

  /** The schedule the seeding builds: each listed first failure inserted in list order. */
  function Seeded(ids: seq<nat>, seedVariates: seq<real>): (s: seq<EventTime>)
    requires forall k :: 0 <= k < |ids| ==> ids[k] < |seedVariates|
    ensures |s| == |ids|
  {
    if ids == [] then []
    else
      var last := ids[|ids| - 1];
      Inserted(Seeded(ids[..|ids| - 1], seedVariates), EventTime(seedVariates[last], last, Failure))
  }

  /** The seeded schedule is in ascending time order. */
  lemma {:induction false} SeededSorted(ids: seq<nat>, seedVariates: seq<real>)
    requires forall k :: 0 <= k < |ids| ==> ids[k] < |seedVariates|
    ensures Sorted(Seeded(ids, seedVariates))
  {
    if ids != [] {
      var front, last := ids[..|ids| - 1], ids[|ids| - 1];
      SeededSorted(front, seedVariates);
      InsertedSorted(Seeded(front, seedVariates), EventTime(seedVariates[last], last, Failure));
    }
  }

  /** The seeded schedule holds exactly the first failures, each at its sampled time. */
  lemma {:induction false} SeededIsFirstFailures(ids: seq<nat>, seedVariates: seq<real>)
    requires forall k :: 0 <= k < |ids| ==> ids[k] < |seedVariates|
    ensures multiset(Seeded(ids, seedVariates)) == multiset(FirstFailures(ids, seedVariates))
  {
    if ids != [] {
      var front, last := ids[..|ids| - 1], ids[|ids| - 1];
      var ev := EventTime(seedVariates[last], last, Failure);
      SeededIsFirstFailures(front, seedVariates);
      InsertedMultiset(Seeded(front, seedVariates), ev);
      assert FirstFailures(ids, seedVariates) == FirstFailures(front, seedVariates) + [ev];
    }
  }

  /** Every seeded event is the first failure of some listed basic event. */
  lemma SeededMember(ids: seq<nat>, seedVariates: seq<real>, j: nat)
    requires forall k :: 0 <= k < |ids| ==> ids[k] < |seedVariates|
    requires j < |Seeded(ids, seedVariates)|
    ensures exists k :: 0 <= k < |ids| && Seeded(ids, seedVariates)[j] == EventTime(seedVariates[ids[k]], ids[k], Failure)
  {
    SeededIsFirstFailures(ids, seedVariates);
    var f := FirstFailures(ids, seedVariates);
    assert Seeded(ids, seedVariates)[j] in multiset(f);
    var k :| 0 <= k < |f| && f[k] == Seeded(ids, seedVariates)[j];
  }

  /** Seeding one more listed basic event inserts its first failure. */
  lemma SeededNext(ids: seq<nat>, seedVariates: seq<real>, k: nat)
    requires forall j :: 0 <= j < |ids| ==> ids[j] < |seedVariates|
    requires k < |ids|
    ensures Seeded(ids[..k + 1], seedVariates) ==
      Inserted(Seeded(ids[..k], seedVariates), EventTime(seedVariates[ids[k]], ids[k], Failure))
  {
    assert ids[..k + 1][..k] == ids[..k];
  }

  /**
   * Seeding the first `k` of strictly increasing ids leaves one failure
   * pending for each of them and nothing for any other element.
   */
  lemma {:induction false} SeededPending(ids: seq<nat>, seedVariates: seq<real>, k: nat, n: nat)
    requires forall j :: 0 <= j < |ids| ==> ids[j] < |seedVariates|
    requires forall a, c :: 0 <= a < c < |ids| ==> ids[a] < ids[c]
    requires k <= |ids|
    ensures SeededUpTo(Seeded(ids[..k], seedVariates), ids, k, n)
  {
    if k > 0 {
      SeededPending(ids, seedVariates, k - 1, n);
      SeededNext(ids, seedVariates, k - 1);
      SeedOne(Seeded(ids[..k - 1], seedVariates), ids, k - 1, n,
              EventTime(seedVariates[ids[k - 1]], ids[k - 1], Failure));
    }
  }

  /**
   * The seeded schedule of the basic events of `e` is sorted, names basic
   * events only, is non-negative when the intervals are, and holds exactly one
   * failure per basic event.
   */
  lemma SeededProperties(e: seq<Element>, ids: seq<nat>, seedVariates: seq<real>)
    requires BasicEventIds(e, ids) && |seedVariates| == |e|
    ensures var s := Seeded(ids, seedVariates);
      Sorted(s) && TargetsBasic(e, s) &&
      ((forall j :: 0 <= j < |seedVariates| ==> seedVariates[j] >= 0.0) ==> NonNegativeTimes(s)) &&
      forall b :: 0 <= b < |e| && e[b].BasicEvent? ==> Pending(s, b) == multiset{Failure}
  {
    var s := Seeded(ids, seedVariates);
    SeededSorted(ids, seedVariates);
    forall j | 0 <= j < |s|
      ensures exists k :: 0 <= k < |ids| && s[j] == EventTime(seedVariates[ids[k]], ids[k], Failure)
    {
      SeededMember(ids, seedVariates, j);
    }
    SeededPending(ids, seedVariates, |ids|, |e|);
    assert ids[..|ids|] == ids;
  }

  /**
   * Seeds a new schedule with the first failure of every basic event listed in
   * `ids`; `seedVariates[id]` is the first failure interval of basic event `id`.
   */
  method SeedSchedule(ft: FaultTree, ids: seq<nat>, seedVariates: seq<real>) returns (sched: EventSchedule)
    requires WellFormed(ft.elements) && BasicEventIds(ft.elements, ids)
    requires |seedVariates| == |ft.elements| && forall k :: 0 <= k < |seedVariates| ==> seedVariates[k] >= 0.0
    ensures fresh(sched)
    ensures sched.events == Seeded(ids, seedVariates)
    ensures |sched.events| == |ids| && Sorted(sched.events) && NonNegativeTimes(sched.events)
    ensures TargetsBasic(ft.elements, sched.events)
    ensures forall b :: 0 <= b < |ft.elements| && ft.elements[b].BasicEvent? ==>
      Pending(sched.events, b) == multiset{Failure}
  {
    sched := new EventSchedule();
    for k := 0 to |ids|
      invariant sched.events == Seeded(ids[..k], seedVariates)
    {
      var element := ids[k];
      assert SlotWellFormed(ft.elements[element], element);
      var failureTime := SampleFailure(ft.elements, element, seedVariates[element]).value;
      sched.Insert(EventTime(failureTime, element, Failure));
      SeededNext(ids, seedVariates, k);
    }
    assert ids[..|ids|] == ids;
    SeededProperties(ft.elements, ids, seedVariates);
  }

  /** A step keeps the tree well formed and every pending event on a basic event. */
  lemma StepTargets(e: seq<Element>, root: nat, s: seq<EventTime>, variate: real)
    requires WellFormed(e) && root < |e| && s != [] && TargetsBasic(e, s)
    ensures var r := Step(e, root, s, variate);
      WellFormed(r.elements) && |r.elements| == |e| && TargetsBasic(r.elements, r.events)
  {
    var e' := Applied(e, s[0]);
    assert TargetsBasic(e', s[1..]) by {
      forall k | 0 <= k < |s[1..]|
        ensures s[1..][k].element < |e'| && e'[s[1..][k].element].BasicEvent?
      {
        assert s[1..][k] == s[k + 1];
      }
    }
    if !(s[0].kind == Failure && Failed(e', root)) {
      RescheduleTargetsBasic(e', s[1..], FollowUp(e', s[0], variate));
    }
  }

  /**
   * Steps a trial once per variate until it ends: `SystemFailed` when a step
   * records a system failure, `EmptySchedule` when the schedule is empty at a
   * step (the fatal removal), `Continues` when the variates run out.
   */
  function Run(e: seq<Element>, root: nat, s: seq<EventTime>, variates: seq<real>): (r: StepResult)
    requires WellFormed(e) && root < |e| && TargetsBasic(e, s)
    ensures |r.elements| == |e|
    decreases |variates|
  {
    if variates == [] then StepResult(e, s, Continues)
    else if s == [] then StepResult(e, s, EmptySchedule)
    else
      var r := Step(e, root, s, variates[0]);
      StepTargets(e, root, s, variates[0]);
      if r.outcome == Continues then Run(r.elements, root, r.events, variates[1..]) else r
  }

  /**
   * What a run promises: only statuses change; a recorded time is one at which
   * the root is failed and is not negative; a run that uses up its variates
   * leaves the root working; and the schedule runs empty only when the root
   * cannot fail (or was already failed with nothing scheduled).
   */
  lemma {:induction false} RunPreservesRunning(e: seq<Element>, root: nat, s: seq<EventTime>, variates: seq<real>)
    requires Running(e, root, s) && (!Failed(e, root) || AllAlive(e))
    requires forall k :: 0 <= k < |variates| ==> variates[k] >= 0.0
    ensures var r := Run(e, root, s, variates);
      ResetAll(r.elements) == ResetAll(e) && WellFormed(r.elements) &&
      (r.outcome.SystemFailed? ==> Failed(r.elements, root) && r.outcome.time >= 0.0) &&
      (r.outcome == Continues && |variates| > 0 ==> !Failed(r.elements, root)) &&
      (r.outcome == EmptySchedule ==> !Satisfiable(r.elements, root) || (s == [] && Failed(e, root)))
    decreases |variates|
  {
    if variates != [] {
      if s == [] {
        if !Failed(e, root) {
          EmptyScheduleUnsatisfiable(e, root);
        }
      } else {
        StepPreservesRunning(e, root, s, variates[0]);
        var r := Step(e, root, s, variates[0]);
        if r.outcome == Continues {
          RunPreservesRunning(r.elements, root, r.events, variates[1..]);
        }
      }
    }
  }

  /** The clock never goes back: a recorded time is not before the first pending event. */
  lemma {:induction false} RunClock(e: seq<Element>, root: nat, s: seq<EventTime>, variates: seq<real>)
    requires WellFormed(e) && root < |e| && TargetsBasic(e, s) && Sorted(s)
    requires forall k :: 0 <= k < |variates| ==> variates[k] >= 0.0
    ensures var r := Run(e, root, s, variates);
      r.outcome.SystemFailed? ==> s != [] && r.outcome.time >= s[0].time
    decreases |variates|
  {
    if variates != [] && s != [] {
      StepOrder(e, root, s, variates[0]);
      StepTargets(e, root, s, variates[0]);
      var r := Step(e, root, s, variates[0]);
      if r.outcome == Continues {
        RunClock(r.elements, root, r.events, variates[1..]);
      }
    }
  }

  /**
   * A basic event that is alive at the start and dead when the system fails
   * has failed in between, so the recorded time is not before its pending
   * first failure.
   */
  lemma {:induction false} RunFailureAfterComponentFailure(e: seq<Element>, root: nat, s: seq<EventTime>,
                                                           variates: seq<real>, b: nat)
    requires WellFormed(e) && root < |e| && Sorted(s) && Armed(e, s)
    requires forall k :: 0 <= k < |variates| ==> variates[k] >= 0.0
    requires b < |e| && e[b].BasicEvent? && e[b].status == Alive
    ensures var r := Run(e, root, s, variates);
      r.outcome.SystemFailed? && r.elements[b].BasicEvent? && r.elements[b].status == Dead ==>
        forall ev :: ev in s && ev.element == b ==> r.outcome.time >= ev.time
    decreases |variates|
  {
    if variates != [] && s != [] {
      StepTargets(e, root, s, variates[0]);
      var r := Step(e, root, s, variates[0]);
      if s[0].element == b {
        RunClock(e, root, s, variates);
        OnlyPendingOfHead(e, s);
      } else if r.outcome == Continues {
        StepOrder(e, root, s, variates[0]);
        StepKeepsArmed(e, root, s, variates[0]);
        RunFailureAfterComponentFailure(r.elements, root, r.events, variates[1..], b);
        StepKeepsOtherPending(e, root, s, variates[0], b);
      }
    }
  }

  /** Under an armed schedule the first event is the only one pending for its element. */
  lemma OnlyPendingOfHead(e: seq<Element>, s: seq<EventTime>)
    requires WellFormed(e) && s != [] && Armed(e, s)
    ensures forall ev :: ev in s && ev.element == s[0].element ==> ev == s[0]
  {
    ArmedTransitions(e, s);
    forall ev | ev in s && ev.element == s[0].element
      ensures ev == s[0]
    {
      if ev != s[0] {
        var k :| 0 <= k < |s| && s[k] == ev;
        assert s[1..][k - 1] == ev;
        PendingMember(s[1..], ev);
      }
    }
  }

  /** A continuing step keeps every pending event of another element pending. */
  lemma StepKeepsOtherPending(e: seq<Element>, root: nat, s: seq<EventTime>, variate: real, b: nat)
    requires WellFormed(e) && root < |e| && s != [] && TargetsBasic(e, s) && s[0].element != b
    ensures var r := Step(e, root, s, variate);
      r.outcome == Continues ==> forall ev :: ev in s && ev.element == b ==> ev in r.events
  {
    StepEffect(e, root, s, variate);
    var r := Step(e, root, s, variate);
    forall ev | ev in s && ev.element == b
      ensures r.outcome == Continues ==> ev in r.events
    {
      var k :| 0 <= k < |s| && s[k] == ev;
      assert s[1..][k - 1] == ev;
      assert ev in multiset(s[1..]);
    }
  }

  /** An event in a schedule contributes its kind to its element's pending events. */
  lemma {:induction false} PendingMember(s: seq<EventTime>, ev: EventTime)
    requires ev in s
    ensures ev.kind in Pending(s, ev.element)
  {
    if s[0] != ev {
      assert ev in s[1..] by {
        var k :| 0 <= k < |s| && s[k] == ev;
        assert s[1..][k - 1] == ev;
      }
      PendingMember(s[1..], ev);
    }
  }

  /**
   * One trial of the program on `e`: its basic events are seeded with their
   * first failures, then the trial runs on the step variates.
   */
  function Trial(e: seq<Element>, root: nat, seedVariates: seq<real>, stepVariates: seq<real>): (r: StepResult)
    requires WellFormed(e) && root < |e| && |seedVariates| == |e|
  {
    var ids := BasicEventsOf(e);
    BasicEventsOfListed(e);
    SeededProperties(e, ids, seedVariates);
    Run(e, root, Seeded(ids, seedVariates), stepVariates)
  }

  /** A trial is a run from the schedule seeded with the tree's basic events. */
  lemma TrialIsRun(e: seq<Element>, root: nat, seedVariates: seq<real>, stepVariates: seq<real>)
    requires WellFormed(e) && root < |e| && |seedVariates| == |e|
    ensures BasicEventIds(e, BasicEventsOf(e)) && TargetsBasic(e, Seeded(BasicEventsOf(e), seedVariates))
    ensures Trial(e, root, seedVariates, stepVariates) == Run(e, root, Seeded(BasicEventsOf(e), seedVariates), stepVariates)
  {
    BasicEventsOfListed(e);
    SeededProperties(e, BasicEventsOf(e), seedVariates);
  }

  /**
   * A trial from an all-alive tree ends with the root failed at a recorded,
   * non-negative time, or with the root working when the variates run out;
   * it reaches the fatal removal from an empty schedule only when the tree has
   * no basic events or its root cannot fail at all. Only statuses change.
   */
  lemma TrialOutcomes(e: seq<Element>, root: nat, seedVariates: seq<real>, stepVariates: seq<real>)
    requires WellFormed(e) && root < |e| && AllAlive(e) && |seedVariates| == |e|
    requires forall k :: 0 <= k < |seedVariates| ==> seedVariates[k] >= 0.0
    requires forall k :: 0 <= k < |stepVariates| ==> stepVariates[k] >= 0.0
    ensures var r := Trial(e, root, seedVariates, stepVariates);
      ResetAll(r.elements) == e && WellFormed(r.elements) &&
      (r.outcome.SystemFailed? ==> Failed(r.elements, root) && r.outcome.time >= 0.0) &&
      (r.outcome == Continues && |stepVariates| > 0 ==> !Failed(r.elements, root)) &&
      (r.outcome == EmptySchedule ==> BasicEventsOf(e) == [] || !Satisfiable(e, root))
  {
    var ids := BasicEventsOf(e);
    TrialStart(e, root, seedVariates);
    var s := Seeded(ids, seedVariates);
    RunPreservesRunning(e, root, s, stepVariates);
    ResetAllIdempotent(e);
    var r := Run(e, root, s, stepVariates);
    if r.outcome == EmptySchedule && ids != [] {
      SatisfiableAfterReset(r.elements, e, root);
    }
  }

  /** A trial starts running: its seeded schedule is sorted, non-negative and armed. */
  lemma TrialStart(e: seq<Element>, root: nat, seedVariates: seq<real>)
    requires WellFormed(e) && root < |e| && AllAlive(e) && |seedVariates| == |e|
    requires forall k :: 0 <= k < |seedVariates| ==> seedVariates[k] >= 0.0
    ensures BasicEventIds(e, BasicEventsOf(e))
    ensures Running(e, root, Seeded(BasicEventsOf(e), seedVariates))
  {
    var ids := BasicEventsOf(e);
    BasicEventsOfListed(e);
    SeededProperties(e, ids, seedVariates);
  }

  /** The seeded schedule holds the first failure of every listed basic event. */
  lemma SeededHolds(ids: seq<nat>, seedVariates: seq<real>, k: nat)
    requires forall j :: 0 <= j < |ids| ==> ids[j] < |seedVariates|
    requires k < |ids|
    ensures EventTime(seedVariates[ids[k]], ids[k], Failure) in Seeded(ids, seedVariates)
  {
    SeededIsFirstFailures(ids, seedVariates);
    assert FirstFailures(ids, seedVariates)[k] in multiset(FirstFailures(ids, seedVariates));
  }

  /**
   * In a trial from an all-alive tree, a basic event that is dead when the
   * system fails has failed before: the recorded time is not before its first
   * failure time.
   */
  lemma TrialFailureAfterComponentFailure(e: seq<Element>, root: nat, seedVariates: seq<real>,
                                          stepVariates: seq<real>, b: nat)
    requires WellFormed(e) && root < |e| && AllAlive(e) && |seedVariates| == |e|
    requires forall k :: 0 <= k < |seedVariates| ==> seedVariates[k] >= 0.0
    requires forall k :: 0 <= k < |stepVariates| ==> stepVariates[k] >= 0.0
    requires b < |e| && e[b].BasicEvent?
    ensures var r := Trial(e, root, seedVariates, stepVariates);
      r.outcome.SystemFailed? && r.elements[b].BasicEvent? && r.elements[b].status == Dead ==>
        r.outcome.time >= seedVariates[b]
  {
    var ids := BasicEventsOf(e);
    TrialStart(e, root, seedVariates);
    var k :| 0 <= k < |ids| && ids[k] == b;
    SeededHolds(ids, seedVariates, k);
    RunFailureAfterComponentFailure(e, root, Seeded(ids, seedVariates), stepVariates, b);
  }

  /**
   * One trial from an all-alive tree: seeds the schedule, then takes at most
   * |stepVariates| steps, the n-th step using `stepVariates[n]`. `Continues`
   * means the variates ran out before the system failed.
   */
  method RunTrial(ft: FaultTree, root: nat, ids: seq<nat>, seedVariates: seq<real>, stepVariates: seq<real>)
      returns (outcome: Outcome)
    requires WellFormed(ft.elements) && root < |ft.elements| && AllAlive(ft.elements)
    requires BasicEventIds(ft.elements, ids)
    requires |seedVariates| == |ft.elements| && forall k :: 0 <= k < |seedVariates| ==> seedVariates[k] >= 0.0
    requires forall k :: 0 <= k < |stepVariates| ==> stepVariates[k] >= 0.0
    modifies ft
    ensures ft.root == old(ft.root)
    ensures TargetsBasic(old(ft.elements), Seeded(ids, seedVariates))
    ensures var r := Run(old(ft.elements), root, Seeded(ids, seedVariates), stepVariates);
      ft.elements == r.elements && outcome == r.outcome
  {
    ghost var e0 := ft.elements;
    var sched := SeedSchedule(ft, ids, seedVariates);
    ghost var result := Run(e0, root, sched.events, stepVariates);
    outcome := Continues;
    var n := 0;
    while n < |stepVariates| && outcome == Continues
      invariant n <= |stepVariates| && ft.root == old(ft.root)
      invariant WellFormed(ft.elements) && root < |ft.elements|
      invariant outcome == Continues ==>
        TargetsBasic(ft.elements, sched.events) && Run(ft.elements, root, sched.events, stepVariates[n..]) == result
      invariant outcome != Continues ==> ft.elements == result.elements && outcome == result.outcome
    {
      assert stepVariates[n..][0] == stepVariates[n] && stepVariates[n..][1..] == stepVariates[n + 1..];
      if sched.events == [] {
        outcome := EmptySchedule;
      } else {
        StepTargets(ft.elements, root, sched.events, stepVariates[n]);
        outcome := TrialStep(ft, sched, root, stepVariates[n]);
      }
      n := n + 1;
    }
  }

  /**
   * A campaign of `trials` trials on an all-alive tree, resetting the basic
   * events after each. The `t`-th recorded time is that of trial `t`, run on
   * the initial tree with the `t`-th variates; the campaign stops early only
   * when a trial does not reach a system failure with the variates it is given.
   */
  method RunCampaign(ft: FaultTree, root: nat, trials: nat,
                     seedVariates: seq<seq<real>>, stepVariates: seq<seq<real>>)
      returns (times: seq<real>)
    requires WellFormed(ft.elements) && root < |ft.elements| && AllAlive(ft.elements)
    requires |seedVariates| == trials && |stepVariates| == trials
    requires forall t :: 0 <= t < trials ==> |seedVariates[t]| == |ft.elements|
    requires forall t, k :: 0 <= t < trials && 0 <= k < |seedVariates[t]| ==> seedVariates[t][k] >= 0.0
    requires forall t, k :: 0 <= t < trials && 0 <= k < |stepVariates[t]| ==> stepVariates[t][k] >= 0.0
    modifies ft
    ensures ft.root == old(ft.root)
    ensures |times| <= trials
    ensures forall t {:trigger times[t]} :: 0 <= t < |times| ==>
      Trial(old(ft.elements), root, seedVariates[t], stepVariates[t]).outcome == SystemFailed(times[t]) &&
      times[t] >= 0.0
    ensures |times| < trials ==>
      !Trial(old(ft.elements), root, seedVariates[|times|], stepVariates[|times|]).outcome.SystemFailed?
    ensures |times| == trials ==> ft.elements == old(ft.elements)
  {
    ghost var e0 := ft.elements;
    var ids := ft.GetBasicEvents();
    times := [];
    var t := 0;
    while t < trials
      invariant t <= trials && |times| == t && ft.root == old(ft.root)
      invariant ft.elements == e0
      invariant forall k {:trigger times[k]} :: 0 <= k < t ==>
        Trial(e0, root, seedVariates[k], stepVariates[k]).outcome == SystemFailed(times[k]) && times[k] >= 0.0
    {
      var outcome := RunTrialAndReset(ft, root, ids, seedVariates[t], stepVariates[t]);
      if !outcome.SystemFailed? {
        return;
      }
      times := times + [outcome.time];
      t := t + 1;
    }
  }

  /**
   * One trial of a campaign: runs it and, once the system has failed, resets
   * the basic events for the next trial.
   */
  method RunTrialAndReset(ft: FaultTree, root: nat, ids: seq<nat>, seedVariates: seq<real>, stepVariates: seq<real>)
      returns (outcome: Outcome)
    requires WellFormed(ft.elements) && root < |ft.elements| && AllAlive(ft.elements)
    requires ids == BasicEventsOf(ft.elements)
    requires |seedVariates| == |ft.elements| && forall k :: 0 <= k < |seedVariates| ==> seedVariates[k] >= 0.0
    requires forall k :: 0 <= k < |stepVariates| ==> stepVariates[k] >= 0.0
    modifies ft
    ensures ft.root == old(ft.root)
    ensures outcome == Trial(old(ft.elements), root, seedVariates, stepVariates).outcome
    ensures outcome.SystemFailed? ==> ft.elements == old(ft.elements) && outcome.time >= 0.0
  {
    ghost var e0 := ft.elements;
    ghost var trial := Trial(e0, root, seedVariates, stepVariates);
    TrialOutcomes(e0, root, seedVariates, stepVariates);
    TrialIsRun(e0, root, seedVariates, stepVariates);
    outcome := RunTrial(ft, root, ids, seedVariates, stepVariates);
    assert ft.elements == trial.elements && outcome == trial.outcome;
    if outcome.SystemFailed? {
      ft.ResetBasicEvents();
    }
  }
}
