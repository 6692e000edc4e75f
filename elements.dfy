/**
 * The data model of a repairable-system fault tree: the elements stored in the
 * tree's arena, the probability laws attached to basic events, and the event
 * records processed by the discrete-event simulation.
 */
module Elements {

  /** An error return of the tree's sampling operations. */
  datatype Result<T> = Ok(value: T) | Err(message: string)

  datatype Option<T> = None | Some(value: T)

  /**
   * Status of a basic event. `Dynamic` is reserved for a spare/switch element
   * that was never implemented; nothing in the core sets it, and evaluating a
   * basic event that carries it is a fatal error.
   */
  datatype Status = Alive | Dead | Dynamic

  /**
   * The law that produces failure or repair intervals. The parameters are kept
   * for completeness; drawing a variate from a law happens outside the model.
   * `NoDistribution` is legal only as a repair law and means "never repaired".
   */
  datatype Law =
    | Exponential(rate: real)
    | Weibull(shape: real, scale: real)
    | Gamma(shape: real, scale: real)
    | NoDistribution

  /**
   * An element of the tree, addressed by its id. Gates hold the ids of their
   * children, in the order they were added.
   */
  datatype Element =
    | BasicEvent(id: nat, status: Status, failureLaw: Law, repairLaw: Law)
    | And(id: nat, children: seq<nat>)
    | Or(id: nat, children: seq<nat>)
    | Vote(id: nat, children: seq<nat>)
  {
    /** Gates have a derived state; only basic events carry a status. */
    predicate IsGate() {
      !BasicEvent?
    }
  }

  /** The two kinds of scheduled events. */
  datatype EventKind = Failure | Repair

  /** A pending event: at `time`, element `element` fails or is repaired. */
  datatype EventTime = EventTime(time: real, element: nat, kind: EventKind)

  /** The status an event leaves its basic event in. */
  function StatusAfter(kind: EventKind): (s: Status)
    ensures s != Dynamic
    ensures (s == Dead) <==> (kind == Failure)
  {
    match kind
    case Failure => Dead
    case Repair => Alive
  }

  /**
   * Attaches `child` to `gate`: the child's id is appended to the gate's
   * children; the gate keeps its kind and its id.
   */
  function AddChild(gate: Element, child: Element): (r: Element)
    requires gate.IsGate()
    ensures r.IsGate() && r.id == gate.id
    ensures r.And? == gate.And? && r.Or? == gate.Or? && r.Vote? == gate.Vote?
    ensures |r.children| == |gate.children| + 1 && r.children[|gate.children|] == child.id
    ensures r.children[..|gate.children|] == gate.children
  {
    gate.(children := gate.children + [child.id])
  }
}
