/**
 * Evaluation of the fault tree: whether an element is failed. A basic event is
 * failed when it is dead; a gate's state is derived from its children, which
 * are looked up in the arena by id.
 */
module Evaluation {
  import opened Elements

  /** Every id in `cs` is below `bound`. */
  predicate ChildrenBelow(cs: seq<nat>, bound: nat) {
    forall k :: 0 <= k < |cs| ==> cs[k] < bound
  }

  /**
   * Slot `i` of a well-formed arena holds the element with id `i`; a basic
   * event there has a known status and a real failure law; a gate there only
   * refers to elements in earlier slots (so the tree is acyclic).
   */
  predicate SlotWellFormed(x: Element, i: nat) {
    x.id == i &&
    match x
    case BasicEvent(_, status, failureLaw, _) => status != Dynamic && failureLaw != NoDistribution
    case _ => ChildrenBelow(x.children, i)
  }

  predicate WellFormed(e: seq<Element>) {
    forall i :: 0 <= i < |e| ==> SlotWellFormed(e[i], i)
  }

  /** Whether element `i` is failed. */
  predicate Failed(e: seq<Element>, i: nat)
    requires WellFormed(e) && i < |e|
    decreases i, 1
  {
    assert SlotWellFormed(e[i], i);
    match e[i]
    case BasicEvent(_, status, _, _) => status == Dead
    case And(_, cs) => AllFailed(e, cs, i)
    case Or(_, cs) => AnyFailed(e, cs, i)
    case Vote(_, cs) => CountFailed(e, cs, i) > |cs| / 2
  }

  /** The children of an AND gate, first to last: are they all failed? */
  predicate AllFailed(e: seq<Element>, cs: seq<nat>, bound: nat)
    requires WellFormed(e) && bound <= |e| && ChildrenBelow(cs, bound)
    decreases bound, 0, |cs|
  {
    |cs| == 0 || (Failed(e, cs[0]) && AllFailed(e, cs[1..], bound))
  }

  /** The children of an OR gate, first to last: is any of them failed? */
  predicate AnyFailed(e: seq<Element>, cs: seq<nat>, bound: nat)
    requires WellFormed(e) && bound <= |e| && ChildrenBelow(cs, bound)
    decreases bound, 0, |cs|
  {
    |cs| > 0 && (Failed(e, cs[0]) || AnyFailed(e, cs[1..], bound))
  }

  /** The number of failed children of a vote gate, counted over prefixes. */
  function CountFailed(e: seq<Element>, cs: seq<nat>, bound: nat): (n: nat)
    requires WellFormed(e) && bound <= |e| && ChildrenBelow(cs, bound)
    ensures n <= |cs|
    decreases bound, 0, |cs|
  {
    if |cs| == 0 then 0
    else
      var last := |cs| - 1;
      CountFailed(e, cs[..last], bound) + (if Failed(e, cs[last]) then 1 else 0)
  }

  /** The positions (not ids: a child added twice counts twice) of failed children. */
  function FailedPositions(e: seq<Element>, cs: seq<nat>, bound: nat): set<nat>
    requires WellFormed(e) && bound <= |e| && ChildrenBelow(cs, bound)
  {
    set k: nat | k < |cs| && Failed(e, cs[k])
  }

  lemma {:induction false} AllFailedIff(e: seq<Element>, cs: seq<nat>, bound: nat)
    requires WellFormed(e) && bound <= |e| && ChildrenBelow(cs, bound)
    ensures AllFailed(e, cs, bound) <==> forall k :: 0 <= k < |cs| ==> Failed(e, cs[k])
    decreases |cs|
  {
    if |cs| > 0 {
      AllFailedIff(e, cs[1..], bound);
      assert forall k :: 1 <= k < |cs| ==> cs[1..][k - 1] == cs[k];
    }
  }

  lemma {:induction false} AnyFailedIff(e: seq<Element>, cs: seq<nat>, bound: nat)
    requires WellFormed(e) && bound <= |e| && ChildrenBelow(cs, bound)
    ensures AnyFailed(e, cs, bound) <==> exists k :: 0 <= k < |cs| && Failed(e, cs[k])
    decreases |cs|
  {
    if |cs| > 0 {
      AnyFailedIff(e, cs[1..], bound);
      assert forall k :: 1 <= k < |cs| ==> cs[1..][k - 1] == cs[k];
      if AnyFailed(e, cs[1..], bound) {
        var k :| 0 <= k < |cs| - 1 && Failed(e, cs[1..][k]);
        assert Failed(e, cs[k + 1]);
      }
    }
  }

  lemma {:induction false} CountIsFailedPositions(e: seq<Element>, cs: seq<nat>, bound: nat)
    requires WellFormed(e) && bound <= |e| && ChildrenBelow(cs, bound)
    ensures CountFailed(e, cs, bound) == |FailedPositions(e, cs, bound)|
    decreases |cs|
  {
    if |cs| > 0 {
      var last := |cs| - 1;
      var init := cs[..last];
      CountIsFailedPositions(e, init, bound);
      FailedPositionsSnoc(e, cs, bound);
    }
  }

  /** The failed positions of `cs` are those of all but its last child, plus the last if failed. */
  lemma FailedPositionsSnoc(e: seq<Element>, cs: seq<nat>, bound: nat)
    requires WellFormed(e) && bound <= |e| && ChildrenBelow(cs, bound) && |cs| > 0
    ensures ChildrenBelow(cs[..|cs| - 1], bound)
    ensures var last := |cs| - 1;
      FailedPositions(e, cs, bound) ==
        FailedPositions(e, cs[..last], bound) + (if Failed(e, cs[last]) then {last} else {}) &&
      last !in FailedPositions(e, cs[..last], bound)
  {
    var last := |cs| - 1;
    var init := cs[..last];
    var before := FailedPositions(e, init, bound);
    var after := FailedPositions(e, cs, bound);
    var added: set<nat> := if Failed(e, cs[last]) then {last} else {};
    forall k: nat
      ensures k in after <==> k in before || k in added
    {
      if k < last {
        assert init[k] == cs[k];
      }
    }
  }

  /** All children failed exactly when the count reaches the number of children. */
  lemma {:induction false} CountAllIff(e: seq<Element>, cs: seq<nat>, bound: nat)
    requires WellFormed(e) && bound <= |e| && ChildrenBelow(cs, bound)
    ensures CountFailed(e, cs, bound) == |cs| <==> forall k :: 0 <= k < |cs| ==> Failed(e, cs[k])
    ensures CountFailed(e, cs, bound) > 0 <==> exists k :: 0 <= k < |cs| && Failed(e, cs[k])
    decreases |cs|
  {
    if |cs| > 0 {
      var last := |cs| - 1;
      var init := cs[..last];
      assert forall k :: 0 <= k < last ==> init[k] == cs[k];
      CountAllIff(e, init, bound);
      if CountFailed(e, init, bound) > 0 {
        var k :| 0 <= k < last && Failed(e, init[k]);
        assert Failed(e, cs[k]);
      }
    }
  }

  /** An AND gate is failed iff every child is failed; with no children it is failed. */
  lemma AndSemantics(e: seq<Element>, i: nat)
    requires WellFormed(e) && i < |e| && e[i].And?
    ensures ChildrenBelow(e[i].children, i)
    ensures Failed(e, i) <==> forall k :: 0 <= k < |e[i].children| ==> Failed(e, e[i].children[k])
    ensures e[i].children == [] ==> Failed(e, i)
  {
    assert SlotWellFormed(e[i], i);
    AllFailedIff(e, e[i].children, i);
  }

  /** An OR gate is failed iff some child is failed; with no children it is not failed. */
  lemma OrSemantics(e: seq<Element>, i: nat)
    requires WellFormed(e) && i < |e| && e[i].Or?
    ensures ChildrenBelow(e[i].children, i)
    ensures Failed(e, i) <==> exists k :: 0 <= k < |e[i].children| && Failed(e, e[i].children[k])
    ensures e[i].children == [] ==> !Failed(e, i)
  {
    assert SlotWellFormed(e[i], i);
    AnyFailedIff(e, e[i].children, i);
  }

  /**
   * A vote gate with n children is failed iff more than n/2 (integer division)
   * of the positions of its children are failed.
   */
  lemma VoteSemantics(e: seq<Element>, i: nat)
    requires WellFormed(e) && i < |e| && e[i].Vote?
    ensures ChildrenBelow(e[i].children, i)
    ensures Failed(e, i) <==> |FailedPositions(e, e[i].children, i)| > |e[i].children| / 2
    ensures e[i].children == [] ==> !Failed(e, i)
  {
    assert SlotWellFormed(e[i], i);
    CountIsFailedPositions(e, e[i].children, i);
  }

  /** A vote gate over two children behaves as an AND gate over them. */
  lemma VoteOfTwo(e: seq<Element>, i: nat)
    requires WellFormed(e) && i < |e| && e[i].Vote? && |e[i].children| == 2
    ensures ChildrenBelow(e[i].children, i)
    ensures Failed(e, i) <==> Failed(e, e[i].children[0]) && Failed(e, e[i].children[1])
  {
    var cs := e[i].children;
    assert SlotWellFormed(e[i], i);
    CountAllIff(e, cs, i);
  }

  /** A vote gate over three children is failed iff at least two of them are. */
  lemma VoteOfThree(e: seq<Element>, i: nat)
    requires WellFormed(e) && i < |e| && e[i].Vote? && |e[i].children| == 3
    ensures ChildrenBelow(e[i].children, i)
    ensures var cs := e[i].children;
      Failed(e, i) <==>
        (Failed(e, cs[0]) && Failed(e, cs[1])) ||
        (Failed(e, cs[0]) && Failed(e, cs[2])) ||
        (Failed(e, cs[1]) && Failed(e, cs[2]))
  {
    var cs := e[i].children;
    assert SlotWellFormed(e[i], i);
    var one, two := cs[..1], cs[..2];
    assert two[..1] == one && two[1] == cs[1] && one[..0] == [] && one[0] == cs[0];
    var b0 := if Failed(e, cs[0]) then 1 else 0;
    var b1 := if Failed(e, cs[1]) then 1 else 0;
    var b2 := if Failed(e, cs[2]) then 1 else 0;
    assert CountFailed(e, one, i) == b0;
    assert CountFailed(e, two, i) == b0 + b1;
    assert CountFailed(e, cs, i) == b0 + b1 + b2;
  }

  /**
   * Slot `x` of one arena is "no more failed" than slot `y` of another: the same
   * gate, or two basic events with the same id where `y` is dead whenever `x` is.
   */
  predicate SlotDominated(x: Element, y: Element) {
    if x.BasicEvent? then
      y.BasicEvent? && y.id == x.id && (x.status == Dead ==> y.status == Dead)
    else
      y == x
  }

  /** The first `n` slots of `e1` are each dominated by the same slot of `e2`. */
  predicate DominatedBelow(e1: seq<Element>, e2: seq<Element>, n: nat) {
    n <= |e1| && n <= |e2| &&
    forall j :: 0 <= j < n ==> SlotDominated(e1[j], e2[j])
  }

  /**
   * Fault trees built from AND, OR and vote gates are coherent: making more
   * basic events dead never turns a failed element back into a working one.
   */
  lemma {:induction false} Monotone(e1: seq<Element>, e2: seq<Element>, n: nat, i: nat)
    requires WellFormed(e1) && WellFormed(e2) && DominatedBelow(e1, e2, n) && i < n
    ensures Failed(e1, i) ==> Failed(e2, i)
    decreases i, 1
  {
    assert SlotWellFormed(e1[i], i) && SlotDominated(e1[i], e2[i]);
    match e1[i]
    case BasicEvent(_, _, _, _) =>
    case And(_, cs) => MonotoneAll(e1, e2, n, cs, i);
    case Or(_, cs) => MonotoneAny(e1, e2, n, cs, i);
    case Vote(_, cs) => MonotoneCount(e1, e2, n, cs, i);
  }

  lemma {:induction false} MonotoneAll(e1: seq<Element>, e2: seq<Element>, n: nat, cs: seq<nat>, bound: nat)
    requires WellFormed(e1) && WellFormed(e2) && DominatedBelow(e1, e2, n)
    requires bound <= n && ChildrenBelow(cs, bound)
    ensures AllFailed(e1, cs, bound) ==> AllFailed(e2, cs, bound)
    decreases bound, 0, |cs|
  {
    if |cs| > 0 {
      Monotone(e1, e2, n, cs[0]);
      MonotoneAll(e1, e2, n, cs[1..], bound);
    }
  }

  lemma {:induction false} MonotoneAny(e1: seq<Element>, e2: seq<Element>, n: nat, cs: seq<nat>, bound: nat)
    requires WellFormed(e1) && WellFormed(e2) && DominatedBelow(e1, e2, n)
    requires bound <= n && ChildrenBelow(cs, bound)
    ensures AnyFailed(e1, cs, bound) ==> AnyFailed(e2, cs, bound)
    decreases bound, 0, |cs|
  {
    if |cs| > 0 {
      Monotone(e1, e2, n, cs[0]);
      MonotoneAny(e1, e2, n, cs[1..], bound);
    }
  }

  lemma {:induction false} MonotoneCount(e1: seq<Element>, e2: seq<Element>, n: nat, cs: seq<nat>, bound: nat)
    requires WellFormed(e1) && WellFormed(e2) && DominatedBelow(e1, e2, n)
    requires bound <= n && ChildrenBelow(cs, bound)
    ensures CountFailed(e1, cs, bound) <= CountFailed(e2, cs, bound)
    decreases bound, 0, |cs|
  {
    if |cs| > 0 {
      var last := |cs| - 1;
      Monotone(e1, e2, n, cs[last]);
      MonotoneCount(e1, e2, n, cs[..last], bound);
    }
  }

  /** An element's state depends only on the slots up to its own. */
  lemma FailedFrame(e1: seq<Element>, e2: seq<Element>, i: nat)
    requires WellFormed(e1) && WellFormed(e2) && i < |e1| && i < |e2|
    requires e1[..i + 1] == e2[..i + 1]
    ensures Failed(e1, i) == Failed(e2, i)
  {
    assert forall j :: 0 <= j <= i ==> e1[j] == e1[..i + 1][j] == e2[j];
    Monotone(e1, e2, i + 1, i);
    Monotone(e2, e1, i + 1, i);
  }

  /**
   * Appending the element with the next free id, whose children are all in the
   * arena already, keeps the arena well formed and changes no element's state.
   */
  lemma AppendPreserves(e: seq<Element>, x: Element)
    requires WellFormed(e) && SlotWellFormed(x, |e|)
    ensures WellFormed(e + [x])
    ensures forall i :: 0 <= i < |e| ==> Failed(e + [x], i) == Failed(e, i)
  {
    var e' := e + [x];
    assert forall i :: 0 <= i < |e| ==> e'[i] == e[i];
    forall i | 0 <= i < |e|
      ensures Failed(e', i) == Failed(e, i)
    {
      assert e'[..i + 1] == e[..i + 1];
      FailedFrame(e', e, i);
    }
  }

  lemma {:induction false} AllFailedAppend(e: seq<Element>, cs: seq<nat>, c: nat, bound: nat)
    requires WellFormed(e) && bound <= |e| && ChildrenBelow(cs, bound) && c < bound
    ensures ChildrenBelow(cs + [c], bound)
    ensures AllFailed(e, cs + [c], bound) <==> AllFailed(e, cs, bound) && Failed(e, c)
    decreases |cs|
  {
    if |cs| > 0 {
      assert (cs + [c])[1..] == cs[1..] + [c];
      AllFailedAppend(e, cs[1..], c, bound);
    }
  }

  lemma {:induction false} AnyFailedAppend(e: seq<Element>, cs: seq<nat>, c: nat, bound: nat)
    requires WellFormed(e) && bound <= |e| && ChildrenBelow(cs, bound) && c < bound
    ensures ChildrenBelow(cs + [c], bound)
    ensures AnyFailed(e, cs + [c], bound) <==> AnyFailed(e, cs, bound) || Failed(e, c)
    decreases |cs|
  {
    if |cs| > 0 {
      assert (cs + [c])[1..] == cs[1..] + [c];
      AnyFailedAppend(e, cs[1..], c, bound);
    }
  }

  /**
   * Attaching an earlier element `c` to the gate in slot `i` keeps the arena
   * well formed, and the gate then also takes `c` into account: an AND gate
   * additionally needs `c` failed, an OR gate is also failed by `c`, and a vote
   * gate counts `c` once more against a threshold of (n + 1) / 2.
   */
  lemma AddChildSemantics(e: seq<Element>, i: nat, c: nat)
    requires WellFormed(e) && i < |e| && e[i].IsGate() && c < i
    ensures WellFormed(e[i := AddChild(e[i], e[c])])
    ensures var e' := e[i := AddChild(e[i], e[c])];
      e[i].And? ==> (Failed(e', i) <==> Failed(e, i) && Failed(e, c))
    ensures var e' := e[i := AddChild(e[i], e[c])];
      e[i].Or? ==> (Failed(e', i) <==> Failed(e, i) || Failed(e, c))
    ensures var e' := e[i := AddChild(e[i], e[c])];
      e[i].Vote? ==>
        (Failed(e', i) <==> |FailedPositions(e, e[i].children, i)| + (if Failed(e, c) then 1 else 0) > (|e[i].children| + 1) / 2)
  {
    var g := e[i];
    assert SlotWellFormed(g, i);
    var cs := g.children;
    var e' := e[i := AddChild(g, e[c])];
    assert SlotWellFormed(e'[i], i);
    assert WellFormed(e');
    assert DominatedBelow(e, e', i) && DominatedBelow(e', e, i);
    Monotone(e, e', i, c);
    Monotone(e', e, i, c);
    match g
    case BasicEvent(_, _, _, _) =>
    case And(_, _) =>
      AllFailedAppend(e', cs, c, i);
      MonotoneAll(e, e', i, cs, i);
      MonotoneAll(e', e, i, cs, i);
    case Or(_, _) =>
      AnyFailedAppend(e', cs, c, i);
      MonotoneAny(e, e', i, cs, i);
      MonotoneAny(e', e, i, cs, i);
    case Vote(_, _) =>
      assert (cs + [c])[..|cs|] == cs;
      MonotoneCount(e, e', i, cs, i);
      MonotoneCount(e', e, i, cs, i);
      CountIsFailedPositions(e, cs, i);
  }

  /** `e1` and `e2` have the same gates and basic events in the same slots; only statuses may differ. */
  predicate SameShape(e1: seq<Element>, e2: seq<Element>) {
    |e1| == |e2| &&
    forall j :: 0 <= j < |e1| ==>
      if e1[j].BasicEvent? then e2[j].BasicEvent? && e2[j] == e1[j].(status := e2[j].status) else e2[j] == e1[j]
  }

  /** The arena with every basic event dead. */
  function AllDead(e: seq<Element>): seq<Element> {
    seq(|e|, j requires 0 <= j < |e| => if e[j].BasicEvent? then e[j].(status := Dead) else e[j])
  }

  /** Element `root` can fail at all: it fails once every basic event is dead. */
  predicate Satisfiable(e: seq<Element>, root: nat)
    requires WellFormed(e) && root < |e|
  {
    assert forall j :: 0 <= j < |e| ==> SlotWellFormed(e[j], j) ==> SlotWellFormed(AllDead(e)[j], j);
    Failed(AllDead(e), root)
  }

  /**
   * `Satisfiable` captures "some combination of dead basic events fails the
   * root": if any arena of the same shape fails the root, so does the all-dead one.
   */
  lemma SatisfiableIsMaximal(e: seq<Element>, e2: seq<Element>, root: nat)
    requires WellFormed(e) && WellFormed(e2) && SameShape(e2, e) && root < |e|
    ensures Failed(e2, root) ==> Satisfiable(e, root)
  {
    var d := AllDead(e);
    assert forall j :: 0 <= j < |e| ==> SlotWellFormed(e[j], j) ==> SlotWellFormed(d[j], j);
    assert DominatedBelow(e2, d, |e|);
    Monotone(e2, d, |e|, root);
  }

  /** An arena whose basic events are all dead fails every satisfiable root. */
  lemma AllDeadFailsSatisfiable(e: seq<Element>, root: nat)
    requires WellFormed(e) && root < |e| && Satisfiable(e, root)
    requires forall j :: 0 <= j < |e| && e[j].BasicEvent? ==> e[j].status == Dead
    ensures Failed(e, root)
  {
    assert AllDead(e) == e by {
      assert forall j :: 0 <= j < |e| ==> AllDead(e)[j] == e[j];
    }
  }
}
