/**
 * Hook dispatch of the two traversal engines. A concrete pass supplies
 * `visit_<Kind>` and `leave_<Kind>` hooks; here they are tables from the
 * kind name to the hook, so that "no such attribute" is "not in the table".
 * Every hook invocation is recorded as a `HookCall`, which is all that is
 * kept of a hook's side effects.
 */
module Visitors {
  import opened CstNodes

  /** A `visit_<Kind>` hook (both engines) or a Visitor's `leave_<Kind>` hook. */
  type NodeHook = Node -> Value

  /** A Transformer's `leave_<Kind>(original_node, updated_node)` hook. */
  type TransformHook = (Node, Node) -> Value

  /** One invocation of a hook, with the kind name it was looked up under. */
  datatype HookCall =
    | VisitHookCall(hook: KindName, node: Node)
    | LeaveHookCall(hook: KindName, node: Node)
    | TransformLeaveHookCall(hook: KindName, original: Node, updated: Node)

  /** The result of one dispatch together with the hooks it invoked. */
  datatype Dispatch<T> = Dispatch(result: T, calls: seq<HookCall>)

  /** A read-only pass: its `visit_<Kind>` and `leave_<Kind>` hooks. */
  datatype Visitor = Visitor(visitHooks: map<KindName, NodeHook>, leaveHooks: map<KindName, NodeHook>)

  /** A transforming pass: its `visit_<Kind>` and `leave_<Kind>` hooks. */
  datatype Transformer = Transformer(visitHooks: map<KindName, NodeHook>, leaveHooks: map<KindName, TransformHook>)

  /** The walk accepts either engine (`CSTVisitorT = Union[Visitor, Transformer]`). */
  datatype Engine = VisitorEngine(visitor: Visitor) | TransformerEngine(transformer: Transformer)

  /**
   * `Visitor.on_visit`: run the node's `visit_<Kind>` hook if there is one;
   * descend unless that hook returned exactly `False`.
   */
  function VisitorOnVisit(v: Visitor, n: Node): (r: Dispatch<bool>)
    ensures n.kind !in v.visitHooks ==> r.result && r.calls == []
    ensures n.kind in v.visitHooks ==>
      (!r.result <==> IsFalse(v.visitHooks[n.kind](n))) && r.calls == [VisitHookCall(n.kind, n)]
  {
    if n.kind in v.visitHooks then
      var retval := v.visitHooks[n.kind](n);
      Dispatch(!IsFalse(retval), [VisitHookCall(n.kind, n)])
    else
      Dispatch(true, [])
  }

  /**
   * `Visitor.on_leave`: run the node's `leave_<Kind>` hook, if any, for its
   * effects only, and hand back the node itself.
   */
  function VisitorOnLeave(v: Visitor, original: Node): (r: Dispatch<Node>)
    ensures r.result == original
    ensures |r.calls| == (if original.kind in v.leaveHooks then 1 else 0)
    ensures forall c :: c in r.calls ==> c == LeaveHookCall(original.kind, original)
  {
    if original.kind in v.leaveHooks then
      var _ := v.leaveHooks[original.kind](original);
      Dispatch(original, [LeaveHookCall(original.kind, original)])
    else
      Dispatch(original, [])
  }

  /**
   * `Transformer.on_visit`: the same descent policy as `Visitor.on_visit`,
   * over the Transformer's own table.
   */
  function TransformerOnVisit(t: Transformer, n: Node): (r: Dispatch<bool>)
    ensures n.kind !in t.visitHooks ==> r.result && r.calls == []
    ensures n.kind in t.visitHooks ==>
      (!r.result <==> IsFalse(t.visitHooks[n.kind](n))) && r.calls == [VisitHookCall(n.kind, n)]
  {
    if n.kind in t.visitHooks then
      var retval := t.visitHooks[n.kind](n);
      Dispatch(!IsFalse(retval), [VisitHookCall(n.kind, n)])
    else
      Dispatch(true, [])
  }

  /**
   * `Transformer.on_leave`: the hook is looked up under the ORIGINAL node's
   * kind, called with (original, updated) in that order, and its result is
   * returned as is; without a hook the updated node is returned.
   */
  function TransformerOnLeave(t: Transformer, original: Node, updated: Node): (r: Dispatch<Value>)
    ensures original.kind !in t.leaveHooks ==> r.result == NodeValue(updated) && r.calls == []
    ensures original.kind in t.leaveHooks ==>
      && r.result == t.leaveHooks[original.kind](original, updated)
      && r.calls == [TransformLeaveHookCall(original.kind, original, updated)]
  {
    if original.kind in t.leaveHooks then
      var hookResult := t.leaveHooks[original.kind](original, updated);
      Dispatch(hookResult, [TransformLeaveHookCall(original.kind, original, updated)])
    else
      Dispatch(NodeValue(updated), [])
  }

  /** Only a literal `False` stops the descent: `None`, `True`, `0`, `""` all descend. */
  lemma OnlyLiteralFalseSuppresses(v: Visitor, n: Node)
    requires n.kind in v.visitHooks
    ensures !VisitorOnVisit(v, n).result <==> v.visitHooks[n.kind](n) == BoolValue(false)
    ensures !Truthy(v.visitHooks[n.kind](n)) && v.visitHooks[n.kind](n) != BoolValue(false)
      ==> VisitorOnVisit(v, n).result
  {
  }

  /**
   * The two engines share one descent policy: given the same `visit_<Kind>`
   * table they make the same decision with the same hook invocation.
   */
  lemma SameDescentPolicy(v: Visitor, t: Transformer, n: Node)
    requires v.visitHooks == t.visitHooks
    ensures VisitorOnVisit(v, n) == TransformerOnVisit(t, n)
  {
  }
}
