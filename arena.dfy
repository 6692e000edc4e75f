/**
 * The fault tree as an arena of elements addressed by id, the operations that
 * change basic-event statuses, and the id generator that numbers elements.
 */
module Arena {
  import opened Elements
  import opened Evaluation

  /**
   * The arena after processing `ev`: the named basic event is dead after a
   * failure and alive after a repair; every other slot is unchanged. Setting
   * the status of a gate is a fatal error, so `ev` must name a basic event.
   */
  function Applied(e: seq<Element>, ev: EventTime): (r: seq<Element>)
    requires ev.element < |e| && e[ev.element].BasicEvent?
    ensures |r| == |e|
    ensures r[ev.element] == e[ev.element].(status := StatusAfter(ev.kind))
    ensures forall j :: 0 <= j < |e| && j != ev.element ==> r[j] == e[j]
    ensures WellFormed(e) ==> WellFormed(r)
  {
    var x := ev.element;
    var r := e[x := e[x].(status := StatusAfter(ev.kind))];
    assert forall j :: 0 <= j < |e| && j != x ==> r[j] == e[j];
    assert SlotWellFormed(e[x], x) ==> SlotWellFormed(r[x], x);
    r
  }

  /** After a failure event its basic event is failed; after a repair it is not. */
  lemma AppliedBasicFailed(e: seq<Element>, ev: EventTime)
    requires WellFormed(e) && ev.element < |e| && e[ev.element].BasicEvent?
    ensures Failed(Applied(e, ev), ev.element) <==> ev.kind == Failure
  {
  }

  /**
   * Failure followed by repair of the same basic event restores an arena in
   * which it was alive, and repair followed by failure restores one in which
   * it was dead.
   */
  lemma StatusRoundTrip(e: seq<Element>, x: nat, t1: real, t2: real)
    requires x < |e| && e[x].BasicEvent?
    ensures e[x].status == Alive ==>
      Applied(Applied(e, EventTime(t1, x, Failure)), EventTime(t2, x, Repair)) == e
    ensures e[x].status == Dead ==>
      Applied(Applied(e, EventTime(t1, x, Repair)), EventTime(t2, x, Failure)) == e
  {
    var f, rp := EventTime(t1, x, Failure), EventTime(t2, x, Repair);
    var rf := EventTime(t1, x, Repair);
    var f2 := EventTime(t2, x, Failure);
    if e[x].status == Alive {
      var r := Applied(Applied(e, f), rp);
      assert forall j :: 0 <= j < |e| ==> r[j] == e[j];
    }
    if e[x].status == Dead {
      var r := Applied(Applied(e, rf), f2);
      assert forall j :: 0 <= j < |e| ==> r[j] == e[j];
    }
  }

  /**
   * Processing an event only moves the tree in one direction: a failure can
   * only fail more elements, a repair can only bring elements back.
   */
  lemma AppliedMonotone(e: seq<Element>, ev: EventTime, i: nat)
    requires WellFormed(e) && ev.element < |e| && e[ev.element].BasicEvent? && i < |e|
    ensures ev.kind == Failure && Failed(e, i) ==> Failed(Applied(e, ev), i)
    ensures ev.kind == Repair && Failed(Applied(e, ev), i) ==> Failed(e, i)
  {
    var r := Applied(e, ev);
    if ev.kind == Failure {
      assert DominatedBelow(e, r, |e|);
      Monotone(e, r, |e|, i);
    } else {
      assert DominatedBelow(r, e, |e|);
      Monotone(r, e, |e|, i);
    }
  }

  /** One slot with its basic event brought back to life; gates are left alone. */
  function Reset(x: Element): Element {
    if x.BasicEvent? then x.(status := Alive) else x
  }

  /** The arena with every basic event alive. */
  function ResetAll(e: seq<Element>): seq<Element> {
    seq(|e|, j requires 0 <= j < |e| => Reset(e[j]))
  }

  /** Processing an event changes a status only, so it is invisible once statuses are reset. */
  lemma ResetAllApplied(e: seq<Element>, ev: EventTime)
    requires ev.element < |e| && e[ev.element].BasicEvent?
    ensures ResetAll(Applied(e, ev)) == ResetAll(e)
  {
    assert forall j :: 0 <= j < |e| ==> ResetAll(Applied(e, ev))[j] == ResetAll(e)[j];
  }

  /** No basic event is dead after a reset; the arena stays well formed. */
  lemma ResetAllAlive(e: seq<Element>)
    requires WellFormed(e)
    ensures WellFormed(ResetAll(e))
    ensures forall j :: 0 <= j < |e| && e[j].BasicEvent? ==> !Failed(ResetAll(e), j)
  {
    var r := ResetAll(e);
    assert forall j :: 0 <= j < |e| ==> SlotWellFormed(e[j], j) ==> SlotWellFormed(r[j], j);
  }

  /** Resetting twice is resetting once, and resetting an all-alive arena changes nothing. */
  lemma ResetAllIdempotent(e: seq<Element>)
    ensures ResetAll(ResetAll(e)) == ResetAll(e)
    ensures (forall j :: 0 <= j < |e| && e[j].BasicEvent? ==> e[j].status == Alive) ==> ResetAll(e) == e
  {
    var r := ResetAll(e);
    assert forall j :: 0 <= j < |e| ==> ResetAll(r)[j] == r[j];
    if forall j :: 0 <= j < |e| && e[j].BasicEvent? ==> e[j].status == Alive {
      assert forall j :: 0 <= j < |e| ==> r[j] == e[j];
    }
  }

  /**
   * Interval until the next failure of element `id`, given `variate`, the value
   * the element's failure law produced. Gates cannot be sampled. Sampling a
   * `NoDistribution` failure law is fatal (it cannot occur in a well-formed arena).
   */
  function SampleFailure(e: seq<Element>, id: nat, variate: real): (r: Result<real>)
    requires id < |e|
    requires e[id].BasicEvent? ==> e[id].failureLaw != NoDistribution
    ensures r.Err? <==> !e[id].BasicEvent?
    ensures r.Ok? ==> r.value == variate
  {
    if e[id].BasicEvent? then Ok(variate) else Err("Not a basic event")
  }

  /**
   * Interval until the repair of element `id`, given `variate`, the value the
   * element's repair law produced. Gates cannot be sampled; a `NoDistribution`
   * repair law always yields 0.0, meaning "never repaired".
   */
  function SampleRepair(e: seq<Element>, id: nat, variate: real): (r: Result<real>)
    requires id < |e|
    ensures r.Err? <==> !e[id].BasicEvent?
    ensures r.Ok? && e[id].repairLaw == NoDistribution ==> r.value == 0.0
    ensures r.Ok? && e[id].repairLaw != NoDistribution ==> r.value == variate
    ensures r.Ok? && variate >= 0.0 ==> r.value >= 0.0
  {
    if !e[id].BasicEvent? then Err("Not a basic event")
    else if e[id].repairLaw == NoDistribution then Ok(0.0)
    else Ok(variate)
  }

  /** `ids` lists the slots of `e` that hold basic events, each once, in increasing order. */
  predicate BasicEventIds(e: seq<Element>, ids: seq<nat>) {
    (forall k :: 0 <= k < |ids| ==> ids[k] < |e| && e[ids[k]].BasicEvent?) &&
    (forall j :: 0 <= j < |e| && e[j].BasicEvent? ==> j in ids) &&
    (forall a, b :: 0 <= a < b < |ids| ==> ids[a] < ids[b])
  }

  /** The ids below `n` that hold basic events, in increasing order. */
  function BasicEventsBelow(e: seq<Element>, n: nat): seq<nat>
    requires n <= |e|
  {
    if n == 0 then [] else BasicEventsBelow(e, n - 1) + if e[n - 1].BasicEvent? then [n - 1] else []
  }

  /** The ids of all basic events of `e`, in increasing order. */
  function BasicEventsOf(e: seq<Element>): seq<nat> {
    BasicEventsBelow(e, |e|)
  }

  /** The scan below `n` lists exactly the basic events below `n`, each once, in increasing order. */
  lemma {:induction false} BasicEventsBelowListed(e: seq<Element>, n: nat)
    requires n <= |e|
    ensures var ids := BasicEventsBelow(e, n);
      (forall k :: 0 <= k < |ids| ==> ids[k] < n && e[ids[k]].BasicEvent?) &&
      (forall j :: 0 <= j < n && e[j].BasicEvent? ==> j in ids) &&
      (forall a, b :: 0 <= a < b < |ids| ==> ids[a] < ids[b])
  {
    if n > 0 {
      BasicEventsBelowListed(e, n - 1);
    }
  }

  /** `BasicEventsOf` is the list `BasicEventIds` describes. */
  lemma BasicEventsOfListed(e: seq<Element>)
    ensures BasicEventIds(e, BasicEventsOf(e))
  {
    BasicEventsBelowListed(e, |e|);
    assert BasicEventsOf(e) == BasicEventsBelow(e, |e|);
  }

  /**
   * Whether a root can fail depends only on the shape of the tree: two arenas
   * that agree once reset agree on `Satisfiable`.
   */
  lemma SatisfiableAfterReset(e1: seq<Element>, e2: seq<Element>, root: nat)
    requires WellFormed(e1) && WellFormed(e2) && root < |e1| && ResetAll(e1) == ResetAll(e2)
    ensures Satisfiable(e1, root) == Satisfiable(e2, root)
  {
    assert AllDead(e1) == AllDead(e2) by {
      forall j | 0 <= j < |e1|
        ensures AllDead(e1)[j] == AllDead(e2)[j]
      {
        assert ResetAll(e1)[j] == ResetAll(e2)[j];
      }
    }
  }

  /** An arena differs from its reset only in statuses. */
  lemma ResetAllSameShape(e: seq<Element>)
    ensures SameShape(ResetAll(e), e)
  {
  }

  /** The tree: its elements, addressed by id, and a root id. */
  class FaultTree {
    var root: nat
    var elements: seq<Element>

    constructor ()
      ensures root == 0 && elements == []
    {
      root := 0;
      elements := [];
    }

    /**
     * Inserts `x` at slot `x.id`, shifting later slots up by one; an id
     * beyond the end is fatal.
     */
    method AddElement(x: Element)
      requires x.id <= |elements|
      modifies this
      ensures root == old(root)
      ensures |elements| == |old(elements)| + 1 && elements[x.id] == x
      ensures elements[..x.id] == old(elements)[..x.id]
      ensures elements[x.id + 1..] == old(elements)[x.id..]
      ensures x.id == |old(elements)| ==> elements == old(elements) + [x]
    {
      elements := elements[..x.id] + [x] + elements[x.id..];
    }

    /** The ids of the basic events, in increasing order. */
    method GetBasicEvents() returns (ids: seq<nat>)
      ensures ids == BasicEventsOf(elements)
      ensures BasicEventIds(elements, ids)
    {
      ids := [];
      for i := 0 to |elements|
        invariant ids == BasicEventsBelow(elements, i)
      {
        if elements[i].BasicEvent? {
          ids := ids + [i];
        }
      }
      BasicEventsOfListed(elements);
    }

    /**
     * Applies `ev`: its element becomes dead after a failure and alive after a
     * repair. A missing element or a gate is fatal.
     */
    method ProcessEventTime(ev: EventTime)
      requires ev.element < |elements| && elements[ev.element].BasicEvent?
      modifies this
      ensures root == old(root)
      ensures elements == Applied(old(elements), ev)
    {
      elements := elements[ev.element := elements[ev.element].(status := StatusAfter(ev.kind))];
    }

    /** Sets every basic event back to alive, one id at a time. */
    method ResetBasicEvents()
      modifies this
      ensures root == old(root)
      ensures elements == ResetAll(old(elements))
    {
      var ids := GetBasicEvents();
      for k := 0 to |ids|
        invariant root == old(root) && |elements| == |old(elements)|
        invariant forall j :: 0 <= j < |elements| ==>
          elements[j] == if j in ids[..k] then Reset(old(elements)[j]) else old(elements)[j]
      {
        var id := ids[k];
        assert ids[..k + 1] == ids[..k] + [id];
        assert id !in ids[..k];
        elements := elements[id := elements[id].(status := Alive)];
      }
      assert ids[..|ids|] == ids;
    }
  }

  /** Hands out element ids 0, 1, 2, ... */
  class IdGenerator {
    var counter: nat

    constructor ()
      ensures counter == 0
    {
      counter := 0;
    }

    method GetNext() returns (id: nat)
      modifies this
      ensures id == old(counter) && counter == old(counter) + 1
    {
      counter := counter + 1;
      id := counter - 1;
    }
  }

  /** A fresh generator hands out exactly 0, 1, ..., n - 1 on n calls. */
  method DrawIds(n: nat) returns (ids: seq<nat>)
    ensures |ids| == n
    ensures forall k :: 0 <= k < n ==> ids[k] == k
  {
    var gen := new IdGenerator();
    ids := [];
    while |ids| < n
      invariant |ids| <= n && gen.counter == |ids|
      invariant forall k :: 0 <= k < |ids| ==> ids[k] == k
    {
      var id := gen.GetNext();
      ids := ids + [id];
    }
  }
}
