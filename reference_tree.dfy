/**
 * The tree the program simulates: six repairable components, paired by three
 * AND gates, and a 2-out-of-3 vote over the pairs as the top event. Every
 * component fails and is repaired at the exponential rate 1/100.
 */
module ReferenceTree {
  import opened Elements
  import opened Evaluation
  import opened Arena
  import opened Simulation
  import opened Campaign

  const Rate: real := 1.0 / 100.0

  /** The id of the top event. */
  const Top: nat := 9

  function Component(id: nat): Element {
    BasicEvent(id, Alive, Exponential(Rate), Exponential(Rate))
  }

  /** The arena as the program leaves it before the first trial. */
  function MainTree(): (e: seq<Element>)
    ensures |e| == 10
  {
    [Component(0), Component(1), Component(2), Component(3), Component(4), Component(5),
     And(6, [0, 1]), And(7, [2, 3]), And(8, [4, 5]), Vote(9, [6, 7, 8])]
  }

  /** A new component numbered by the generator. */
  method NewComponent(gen: IdGenerator) returns (c: Element)
    modifies gen
    ensures c == Component(old(gen.counter)) && gen.counter == old(gen.counter) + 1
  {
    var id := gen.GetNext();
    c := Component(id);
  }

  /** A new AND gate numbered by the generator, with children `a` and `b`. */
  method NewPairGate(gen: IdGenerator, a: Element, b: Element) returns (g: Element)
    modifies gen
    ensures g == And(old(gen.counter), [a.id, b.id]) && gen.counter == old(gen.counter) + 1
  {
    var id := gen.GetNext();
    g := And(id, []);
    g := AddChild(g, a);
    g := AddChild(g, b);
  }

  /** A new vote gate numbered by the generator, with children `a`, `b` and `c`. */
  method NewVoteGate(gen: IdGenerator, a: Element, b: Element, c: Element) returns (g: Element)
    modifies gen
    ensures g == Vote(old(gen.counter), [a.id, b.id, c.id]) && gen.counter == old(gen.counter) + 1
  {
    var id := gen.GetNext();
    g := Vote(id, []);
    g := AddChild(g, a);
    g := AddChild(g, b);
    g := AddChild(g, c);
  }

  /**
   * Builds the tree as the program does: ids come from one generator, each
   * gate receives its children before it is added, and elements are added in
   * id order. The tree's own root field is never set.
   */
  method BuildMainTree() returns (ft: FaultTree, rootId: nat)
    ensures fresh(ft)
    ensures ft.elements == MainTree() && ft.root == 0 && rootId == Top
  {
    MainTreeAppended();
    ft := new FaultTree();
    var gen := new IdGenerator();
    var c1 := NewComponent(gen);
    var c2 := NewComponent(gen);
    var c3 := NewComponent(gen);
    var c4 := NewComponent(gen);
    var c5 := NewComponent(gen);
    var c6 := NewComponent(gen);

    var g1 := NewPairGate(gen, c1, c2);
    var g2 := NewPairGate(gen, c3, c4);
    var g3 := NewPairGate(gen, c5, c6);

    ft.AddElement(c1);
    ft.AddElement(c2);
    ft.AddElement(c3);
    ft.AddElement(c4);
    ft.AddElement(c5);
    ft.AddElement(c6);

    var g4 := NewVoteGate(gen, g1, g2, g3);

    ft.AddElement(g1);
    ft.AddElement(g2);
    ft.AddElement(g3);

    rootId := g4.id;
    ft.AddElement(g4);
  }

  /** The arena as the program's additions, one element at a time, leave it. */
  lemma MainTreeAppended()
    ensures MainTree() ==
      [] + [Component(0)] + [Component(1)] + [Component(2)] + [Component(3)] + [Component(4)] + [Component(5)]
         + [And(6, [0, 1])] + [And(7, [2, 3])] + [And(8, [4, 5])] + [Vote(9, [6, 7, 8])]
  {
  }

  /** Components `a` and `a + 1` are both dead. */
  predicate PairDown(e: seq<Element>, a: nat)
    requires a + 1 < |e|
  {
    e[a].BasicEvent? && e[a].status == Dead && e[a + 1].BasicEvent? && e[a + 1].status == Dead
  }

  /**
   * Under any statuses of its components, the top event is failed exactly
   * when at least two of the three pairs are down.
   */
  lemma MainTreeFailure(e: seq<Element>)
    requires WellFormed(e) && SameShape(MainTree(), e)
    ensures Failed(e, Top) <==>
      (PairDown(e, 0) && PairDown(e, 2)) || (PairDown(e, 0) && PairDown(e, 4)) || (PairDown(e, 2) && PairDown(e, 4))
  {
    var m := MainTree();
    forall j | 0 <= j < 6
      ensures e[j].BasicEvent? && (Failed(e, j) <==> e[j].status == Dead)
    {
      assert m[j].BasicEvent?;
    }
    forall j | 6 <= j < 10
      ensures e[j] == m[j]
    {
      assert !m[j].BasicEvent?;
    }
    AndSemantics(e, 6);
    AndSemantics(e, 7);
    AndSemantics(e, 8);
    VoteOfThree(e, 9);
  }

  /** The tree as built is well formed, with all components alive. */
  lemma MainTreeWellFormed()
    ensures WellFormed(MainTree()) && AllAlive(MainTree())
  {
    var m := MainTree();
    forall j | 0 <= j < 10
      ensures SlotWellFormed(m[j], j)
    {
      if j < 6 {
        assert m[j] == Component(j);
      }
    }
  }

  /**
   * The top event of the tree as built is working, and it can fail — so a
   * trial on the tree never finds its schedule empty.
   */
  lemma MainTreeWorksAndCanFail()
    ensures WellFormed(MainTree())
    ensures !Failed(MainTree(), Top) && Satisfiable(MainTree(), Top)
  {
    var m := MainTree();
    MainTreeWellFormed();
    MainTreeFailure(m);
    assert !PairDown(m, 0) && !PairDown(m, 2) && !PairDown(m, 4);
    var d := AllDead(m);
    assert WellFormed(d) by {
      assert forall j :: 0 <= j < |m| ==> SlotWellFormed(m[j], j) ==> SlotWellFormed(d[j], j);
    }
    assert SameShape(m, d);
    MainTreeFailure(d);
    assert PairDown(d, 0) && PairDown(d, 2);
  }

  /** The basic events of the tree as built are exactly 0..5. */
  lemma MainTreeBasicEvents(ids: seq<nat>)
    requires BasicEventIds(MainTree(), ids)
    ensures ids == [0, 1, 2, 3, 4, 5]
  {
    var m := MainTree();
    forall j | 0 <= j < 6
      ensures j in ids
    {
      assert m[j].BasicEvent?;
    }
    forall k | 0 <= k < |ids|
      ensures ids[k] < 6
    {
      assert m[ids[k]].BasicEvent?;
    }
    IncreasingBelowSix(ids);
  }

  /** A strictly increasing list of ids below 6 that holds each of them is 0..5. */
  lemma IncreasingBelowSix(ids: seq<nat>)
    requires forall k :: 0 <= k < |ids| ==> ids[k] < 6
    requires forall j :: 0 <= j < 6 ==> j in ids
    requires forall a, b :: 0 <= a < b < |ids| ==> ids[a] < ids[b]
    ensures ids == [0, 1, 2, 3, 4, 5]
  {
    assert 5 in ids;
    var m :| 0 <= m < |ids| && ids[m] == 5;
    if |ids| < 6 {
      IdsPrefix(ids, 6, m);
    }
    IncreasingAtLeastIndex(ids, |ids| - 1);
    forall k | 0 <= k < |ids|
      ensures ids[k] == k
    {
      IdsPrefix(ids, 6, k);
    }
  }

  lemma {:induction false} IncreasingAtLeastIndex(ids: seq<nat>, k: nat)
    requires k < |ids| && forall a, b :: 0 <= a < b < |ids| ==> ids[a] < ids[b]
    ensures ids[k] >= k
  {
    if k > 0 {
      IncreasingAtLeastIndex(ids, k - 1);
    }
  }

  /** A strictly increasing list that holds each of 0..n-1 starts with them. */
  lemma {:induction false} IdsPrefix(ids: seq<nat>, n: nat, k: nat)
    requires k < n && k < |ids|
    requires forall j :: 0 <= j < n ==> j in ids
    requires forall a, b :: 0 <= a < b < |ids| ==> ids[a] < ids[b]
    ensures ids[k] == k
    decreases k
  {
    forall j | 0 <= j < k
      ensures ids[j] == j
    {
      IdsPrefix(ids, n, j);
    }
    assert k in ids;
    var m :| 0 <= m < |ids| && ids[m] == k;
    IncreasingAtLeastIndex(ids, k);
  }

  /**
   * A trial on the tree never reaches the fatal removal from an empty
   * schedule: the tree has basic events and its top event can fail.
   */
  lemma MainTreeTrialNeverStuck(seedVariates: seq<real>, stepVariates: seq<real>)
    requires |seedVariates| == 10 && forall k :: 0 <= k < 10 ==> seedVariates[k] >= 0.0
    requires forall k :: 0 <= k < |stepVariates| ==> stepVariates[k] >= 0.0
    ensures Trial(MainTree(), Top, seedVariates, stepVariates).outcome != EmptySchedule
  {
    MainTreeWorksAndCanFail();
    MainTreeWellFormed();
    BasicEventsOfListed(MainTree());
    MainTreeBasicEvents(BasicEventsOf(MainTree()));
    TrialOutcomes(MainTree(), Top, seedVariates, stepVariates);
  }

  /** Both components of pair `a` had their first failure by time `t`. */
  predicate PairFailedBy(seedVariates: seq<real>, a: nat, t: real)
    requires a + 1 < |seedVariates|
  {
    t >= seedVariates[a] && t >= seedVariates[a + 1]
  }

  /**
   * A recorded system failure is not before the first failures of both
   * components of at least two of the three pairs.
   */
  lemma MainTreeFailureTime(seedVariates: seq<real>, stepVariates: seq<real>)
    requires |seedVariates| == 10 && forall k :: 0 <= k < 10 ==> seedVariates[k] >= 0.0
    requires forall k :: 0 <= k < |stepVariates| ==> stepVariates[k] >= 0.0
    ensures var r := Trial(MainTree(), Top, seedVariates, stepVariates);
      r.outcome.SystemFailed? ==>
        (PairFailedBy(seedVariates, 0, r.outcome.time) && PairFailedBy(seedVariates, 2, r.outcome.time)) ||
        (PairFailedBy(seedVariates, 0, r.outcome.time) && PairFailedBy(seedVariates, 4, r.outcome.time)) ||
        (PairFailedBy(seedVariates, 2, r.outcome.time) && PairFailedBy(seedVariates, 4, r.outcome.time))
  {
    var m := MainTree();
    MainTreeWellFormed();
    TrialOutcomes(m, Top, seedVariates, stepVariates);
    var r := Trial(m, Top, seedVariates, stepVariates);
    ResetAllSameShape(r.elements);
    MainTreeFailure(r.elements);
    forall c | 0 <= c < 6
      ensures r.outcome.SystemFailed? && r.elements[c].BasicEvent? && r.elements[c].status == Dead ==>
        r.outcome.time >= seedVariates[c]
    {
      assert m[c].BasicEvent?;
      TrialFailureAfterComponentFailure(m, Top, seedVariates, stepVariates, c);
    }
  }

  /**
   * The program's run: build the tree, list its basic events, and run a
   * campaign of `trials` trials from the all-alive tree. The `t`-th recorded
   * time is that of trial `t` on the tree as built; the campaign stops early
   * only when a trial runs out of step variates.
   */
  method SimulateMainTree(trials: nat, seedVariates: seq<seq<real>>, stepVariates: seq<seq<real>>)
      returns (times: seq<real>)
    requires |seedVariates| == trials && |stepVariates| == trials
    requires forall t :: 0 <= t < trials ==> |seedVariates[t]| == 10
    requires forall t, k :: 0 <= t < trials && 0 <= k < |seedVariates[t]| ==> seedVariates[t][k] >= 0.0
    requires forall t, k :: 0 <= t < trials && 0 <= k < |stepVariates[t]| ==> stepVariates[t][k] >= 0.0
    ensures |times| <= trials
    // The lemma call in each clause below establishes `Trial`'s precondition for `MainTree()`.
    ensures (MainTreeWellFormed(); forall t {:trigger times[t]} :: 0 <= t < |times| ==>
      Trial(MainTree(), Top, seedVariates[t], stepVariates[t]).outcome == SystemFailed(times[t]) && times[t] >= 0.0)
    ensures (MainTreeWellFormed(); |times| < trials ==>
      Trial(MainTree(), Top, seedVariates[|times|], stepVariates[|times|]).outcome == Continues)
  {
    var ft, rootId := BuildMainTree();
    MainTreeWellFormed();
    times := RunCampaign(ft, rootId, trials, seedVariates, stepVariates);
    if |times| < trials {
      MainTreeTrialNeverStuck(seedVariates[|times|], stepVariates[|times|]);
    }
  }
}
