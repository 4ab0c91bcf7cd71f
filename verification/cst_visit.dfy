/**
 * `CstNode.visit`: ask the engine whether to descend, walk the children in
 * order if so (discarding what each child walk returns), then let the engine
 * finish the node. Each call the walk makes into the engine is an `Event`;
 * the hooks those calls invoke are collected alongside.
 */
module Cst {
  import opened CstNodes
  import opened Visitors

  /** A call of the engine's `on_visit` or `on_leave` on a node. */
  datatype Event = VisitEvent(node: Node) | LeaveEvent(node: Node)

  /** What a walk leaves behind: the engine calls and the hook invocations. */
  datatype Log = Log(events: seq<Event>, calls: seq<HookCall>)

  /** The value a walk returns, with its log. */
  datatype Outcome = Outcome(result: Value, log: Log)

  /** One log after another. */
  function Then(a: Log, b: Log): (l: Log) {
    Log(a.events + b.events, a.calls + b.calls)
  }

  /** `visitor.on_visit(self)`, dispatched on the engine's class. */
  function OnVisit(e: Engine, n: Node): (d: Dispatch<bool>) {
    match e
    case VisitorEngine(v) => VisitorOnVisit(v, n)
    case TransformerEngine(t) => TransformerOnVisit(t, n)
  }

  /**
   * The `isinstance(visitor, Visitor)` branch: a Visitor gets `on_leave(self)`,
   * a Transformer `on_leave(self, self)`.
   */
  function OnLeave(e: Engine, n: Node): (d: Dispatch<Value>) {
    match e
    case VisitorEngine(v) =>
      var d := VisitorOnLeave(v, n);
      Dispatch(NodeValue(d.result), d.calls)
    case TransformerEngine(t) => TransformerOnLeave(t, n, n)
  }

  /** The walk of `n` by engine `e`. */
  function Walk(e: Engine, n: Node): (o: Outcome)
    decreases Size(n), 0
  {
    var descend := OnVisit(e, n);
    var below := if descend.result then WalkAll(e, Children(n)) else Log([], []);
    var leave := OnLeave(e, n);
    Outcome(leave.result,
            Then(Then(Log([VisitEvent(n)], descend.calls), below), Log([LeaveEvent(n)], leave.calls)))
  }

  /** The walks of a sequence of siblings, one after another; their results are dropped. */
  function WalkAll(e: Engine, ns: seq<Node>): (l: Log)
    decreases SizeAll(ns), 1
  {
    if ns == [] then Log([], [])
    else Then(WalkAll(e, ns[..|ns| - 1]), Walk(e, ns[|ns| - 1]).log)
  }

  /**
   * `CstNode.visit` as the source writes it, with a `for` loop over the
   * children; it computes exactly what `Walk` describes.
   */
  method Visit(n: Node, e: Engine) returns (r: Value, log: Log)
    ensures Walk(e, n) == Outcome(r, log)
    decreases Size(n)
  {
    var shouldVisitChildren := OnVisit(e, n);
    var below := Log([], []);
    if shouldVisitChildren.result {
      var children := Children(n);
      for i := 0 to |children|
        invariant below == WalkAll(e, children[..i])
      {
        ChildSmaller(n, i);
        var _, childLog := Visit(children[i], e);
        assert children[..i + 1][..i] == children[..i];
        below := Then(below, childLog);
      }
      assert children[..|children|] == children;
    }
    var leaveResult := OnLeave(e, n);
    log := Then(Then(Log([VisitEvent(n)], shouldVisitChildren.calls), below),
                Log([LeaveEvent(n)], leaveResult.calls));
    r := leaveResult.result;
  }
}
