/**
 * What every walk guarantees, whatever the hooks return: the shape of the
 * event trace, which hooks can fire, and what the walk returns.
 */
module Traversal {
  import opened CstNodes
  import opened Visitors
  import opened Cst

  datatype Option<T> = None | Some(value: T)

  // ---------------------------------------------------------------------------
  // Well-bracketed traces
  // ---------------------------------------------------------------------------

  /**
   * Replays a trace against a stack of nodes whose `on_visit` ran but whose
   * `on_leave` has not: a visit opens its node, a leave must close the most
   * recently opened one. `None` when a leave does not match.
   */
  function Replay(evs: seq<Event>, open: seq<Node>): (closed: Option<seq<Node>>)
    decreases |evs|
  {
    if evs == [] then Some(open)
    else match evs[0]
      case VisitEvent(m) => Replay(evs[1..], open + [m])
      case LeaveEvent(m) =>
        if open != [] && open[|open| - 1] == m then Replay(evs[1..], open[..|open| - 1]) else None
  }

  /** Replaying two traces in a row is replaying their concatenation. */
  lemma {:induction false} ReplayAppend(a: seq<Event>, b: seq<Event>, open: seq<Node>)
    ensures Replay(a + b, open) ==
            match Replay(a, open)
            case None => None
            case Some(s) => Replay(b, s)
    decreases |a|
  {
    if a != [] {
      assert (a + b)[0] == a[0] && (a + b)[1..] == a[1..] + b;
      match a[0]
      case VisitEvent(m) => ReplayAppend(a[1..], b, open + [m]);
      case LeaveEvent(m) =>
        if open != [] && open[|open| - 1] == m {
          ReplayAppend(a[1..], b, open[..|open| - 1]);
        }
    } else {
      assert a + b == b;
    }
  }

  /**
   * Every `on_leave` closes the latest `on_visit` still open, and a walk
   * closes everything it opens: a node's leave comes after the visits and
   * leaves of all nodes walked below it.
   */
  lemma {:induction false} WalkWellBracketed(e: Engine, n: Node, open: seq<Node>)
    ensures Replay(Walk(e, n).log.events, open) == Some(open)
    decreases Size(n), 0
  {
    var below := if OnVisit(e, n).result then WalkAll(e, Children(n)) else Log([], []);
    if OnVisit(e, n).result {
      WalkAllWellBracketed(e, Children(n), open + [n]);
    }
    assert Replay(below.events, open + [n]) == Some(open + [n]);
    var evs := Walk(e, n).log.events;
    assert evs == ([VisitEvent(n)] + below.events) + [LeaveEvent(n)];
    ReplayAppend([VisitEvent(n)] + below.events, [LeaveEvent(n)], open);
    ReplayAppend([VisitEvent(n)], below.events, open);
    ReplayAppend([], below.events, open + [n]);
    assert ([VisitEvent(n)] + below.events)[1..] == below.events;
    assert [LeaveEvent(n)][1..] == [];
    assert (open + [n])[..|open|] == open;
  }

  /** The sibling walks together also close everything they open. */
  lemma {:induction false} WalkAllWellBracketed(e: Engine, ns: seq<Node>, open: seq<Node>)
    ensures Replay(WalkAll(e, ns).events, open) == Some(open)
    decreases SizeAll(ns), 1
  {
    if ns != [] {
      WalkAllWellBracketed(e, ns[..|ns| - 1], open);
      WalkWellBracketed(e, ns[|ns| - 1], open);
      ReplayAppend(WalkAll(e, ns[..|ns| - 1]).events, Walk(e, ns[|ns| - 1]).log.events, open);
    }
  }

  // ---------------------------------------------------------------------------
  // Pre-order of visits, post-order of leaves
  // ---------------------------------------------------------------------------

  /** The nodes `on_visit` is called on, in order. */
  function Visited(evs: seq<Event>): (ns: seq<Node>) {
    if evs == [] then []
    else (if evs[0].VisitEvent? then [evs[0].node] else []) + Visited(evs[1..])
  }

  /** The nodes `on_leave` is called on, in order. */
  function Left(evs: seq<Event>): (ns: seq<Node>) {
    if evs == [] then []
    else (if evs[0].LeaveEvent? then [evs[0].node] else []) + Left(evs[1..])
  }

  lemma {:induction false} VisitedAppend(a: seq<Event>, b: seq<Event>)
    ensures Visited(a + b) == Visited(a) + Visited(b)
    decreases |a|
  {
    if a == [] {
      assert a + b == b;
    } else {
      assert (a + b)[0] == a[0] && (a + b)[1..] == a[1..] + b;
      VisitedAppend(a[1..], b);
    }
  }

  lemma {:induction false} LeftAppend(a: seq<Event>, b: seq<Event>)
    ensures Left(a + b) == Left(a) + Left(b)
    decreases |a|
  {
    if a == [] {
      assert a + b == b;
    } else {
      assert (a + b)[0] == a[0] && (a + b)[1..] == a[1..] + b;
      LeftAppend(a[1..], b);
    }
  }

  /**
   * Reference pre-order: a node, then (only if `on_visit` lets the walk
   * descend) the pre-orders of its children in order.
   */
  function PreOrder(e: Engine, n: Node): (order: seq<Node>)
    decreases Size(n), 0
  {
    [n] + (if OnVisit(e, n).result then PreOrderAll(e, Children(n)) else [])
  }

  function PreOrderAll(e: Engine, ns: seq<Node>): (order: seq<Node>)
    decreases SizeAll(ns), 1
  {
    if ns == [] then [] else PreOrderAll(e, ns[..|ns| - 1]) + PreOrder(e, ns[|ns| - 1])
  }

  /** Reference post-order over the same pruned tree: children first, then the node. */
  function PostOrder(e: Engine, n: Node): (order: seq<Node>)
    decreases Size(n), 0
  {
    (if OnVisit(e, n).result then PostOrderAll(e, Children(n)) else []) + [n]
  }

  function PostOrderAll(e: Engine, ns: seq<Node>): (order: seq<Node>)
    decreases SizeAll(ns), 1
  {
    if ns == [] then [] else PostOrderAll(e, ns[..|ns| - 1]) + PostOrder(e, ns[|ns| - 1])
  }

  /** `on_visit` calls follow the pre-order and `on_leave` calls the post-order. */
  lemma {:induction false} WalkOrders(e: Engine, n: Node)
    ensures Visited(Walk(e, n).log.events) == PreOrder(e, n)
    ensures Left(Walk(e, n).log.events) == PostOrder(e, n)
    decreases Size(n), 0
  {
    var below := if OnVisit(e, n).result then WalkAll(e, Children(n)) else Log([], []);
    if OnVisit(e, n).result {
      WalkAllOrders(e, Children(n));
    }
    VisitedAppend([VisitEvent(n)] + below.events, [LeaveEvent(n)]);
    VisitedAppend([VisitEvent(n)], below.events);
    LeftAppend([VisitEvent(n)] + below.events, [LeaveEvent(n)]);
    LeftAppend([VisitEvent(n)], below.events);
    assert Walk(e, n).log.events == ([VisitEvent(n)] + below.events) + [LeaveEvent(n)];
  }

  lemma {:induction false} WalkAllOrders(e: Engine, ns: seq<Node>)
    ensures Visited(WalkAll(e, ns).events) == PreOrderAll(e, ns)
    ensures Left(WalkAll(e, ns).events) == PostOrderAll(e, ns)
    decreases SizeAll(ns), 1
  {
    if ns != [] {
      WalkAllOrders(e, ns[..|ns| - 1]);
      WalkOrders(e, ns[|ns| - 1]);
      VisitedAppend(WalkAll(e, ns[..|ns| - 1]).events, Walk(e, ns[|ns| - 1]).log.events);
      LeftAppend(WalkAll(e, ns[..|ns| - 1]).events, Walk(e, ns[|ns| - 1]).log.events);
    }
  }

  /** The pre-order and the post-order hold the same nodes, each as often. */
  lemma {:induction false} OrdersSameNodes(e: Engine, n: Node)
    ensures multiset(PreOrder(e, n)) == multiset(PostOrder(e, n))
    decreases Size(n), 0
  {
    if OnVisit(e, n).result {
      OrdersAllSameNodes(e, Children(n));
    }
  }

  lemma {:induction false} OrdersAllSameNodes(e: Engine, ns: seq<Node>)
    ensures multiset(PreOrderAll(e, ns)) == multiset(PostOrderAll(e, ns))
    decreases SizeAll(ns), 1
  {
    if ns != [] {
      OrdersAllSameNodes(e, ns[..|ns| - 1]);
      OrdersSameNodes(e, ns[|ns| - 1]);
    }
  }

  /**
   * `on_leave` is called exactly as often on each node as `on_visit` is,
   * whatever the descent decisions were.
   */
  lemma LeaveOncePerVisit(e: Engine, n: Node)
    ensures multiset(Visited(Walk(e, n).log.events)) == multiset(Left(Walk(e, n).log.events))
    ensures |Visited(Walk(e, n).log.events)| == |Left(Walk(e, n).log.events)|
  {
    WalkOrders(e, n);
    OrdersSameNodes(e, n);
    assert |multiset(PreOrder(e, n))| == |multiset(PostOrder(e, n))|;
  }

  // ---------------------------------------------------------------------------
  // The node's own two events
  // ---------------------------------------------------------------------------

  /** A walk only ever reports nodes of the walked tree, none larger than its root. */
  lemma {:induction false} WalkWithin(e: Engine, n: Node)
    ensures forall ev :: ev in Walk(e, n).log.events ==> Size(ev.node) <= Size(n)
    decreases Size(n), 0
  {
    if OnVisit(e, n).result {
      forall i | 0 <= i < |Children(n)|
        ensures Size(Children(n)[i]) < Size(n)
      {
        ChildSmaller(n, i);
      }
      WalkAllWithin(e, Children(n), Size(n));
    }
  }

  lemma {:induction false} WalkAllWithin(e: Engine, ns: seq<Node>, bound: nat)
    requires forall i :: 0 <= i < |ns| ==> Size(ns[i]) < bound
    ensures forall ev :: ev in WalkAll(e, ns).events ==> Size(ev.node) < bound
    decreases SizeAll(ns), 1
  {
    if ns != [] {
      WalkAllWithin(e, ns[..|ns| - 1], bound);
      WalkWithin(e, ns[|ns| - 1]);
    }
  }

  /**
   * `on_visit` is the first engine call of a walk and `on_leave` the last,
   * and neither is called on the walked node anywhere in between.
   */
  lemma VisitFirstLeaveLast(e: Engine, n: Node)
    ensures |Walk(e, n).log.events| >= 2
    ensures Walk(e, n).log.events[0] == VisitEvent(n)
    ensures Walk(e, n).log.events[|Walk(e, n).log.events| - 1] == LeaveEvent(n)
    ensures forall i :: 0 < i < |Walk(e, n).log.events| - 1 ==> Walk(e, n).log.events[i].node != n
  {
    var below := if OnVisit(e, n).result then WalkAll(e, Children(n)) else Log([], []);
    var evs := Walk(e, n).log.events;
    assert evs == [VisitEvent(n)] + below.events + [LeaveEvent(n)];
    if OnVisit(e, n).result {
      forall i | 0 <= i < |Children(n)|
        ensures Size(Children(n)[i]) < Size(n)
      {
        ChildSmaller(n, i);
      }
      WalkAllWithin(e, Children(n), Size(n));
    }
    forall i | 0 < i < |evs| - 1
      ensures evs[i].node != n
    {
      assert evs[i] == below.events[i - 1];
      assert evs[i] in below.events;
    }
  }

  // ---------------------------------------------------------------------------
  // Descent
  // ---------------------------------------------------------------------------

  /**
   * When `on_visit` says no, the walk consists of the node's own two engine
   * calls and the hooks they run: nothing fires for any descendant.
   */
  lemma SuppressedWalk(e: Engine, n: Node)
    requires !OnVisit(e, n).result
    ensures Walk(e, n).log.events == [VisitEvent(n), LeaveEvent(n)]
    ensures Walk(e, n).log.calls == OnVisit(e, n).calls + OnLeave(e, n).calls
  {
  }

  /** A node using the default `children` produces exactly its own visit and leave. */
  lemma DefaultChildrenWalk(e: Engine, k: KindName)
    ensures Walk(e, Default(k)).log.events == [VisitEvent(Default(k)), LeaveEvent(Default(k))]
  {
  }

  /** When `on_visit` says yes, the children's walks sit between the node's visit and its leave. */
  lemma DescendingWalk(e: Engine, n: Node)
    requires OnVisit(e, n).result
    ensures Walk(e, n) == Outcome(OnLeave(e, n).result,
                                  Log([VisitEvent(n)] + WalkAll(e, Children(n)).events + [LeaveEvent(n)],
                                      OnVisit(e, n).calls + WalkAll(e, Children(n)).calls + OnLeave(e, n).calls))
  {
  }

  /**
   * When `on_visit` says yes, every child's own walk appears, whole and in
   * the order of `children`, between the node's visit and its leave.
   */
  lemma {:induction false} DescendedWalk(e: Engine, n: Node, i: nat)
    requires OnVisit(e, n).result
    requires i < |Children(n)|
    ensures exists pre, post ::
      Walk(e, n).log.events ==
        [VisitEvent(n)] + pre + Walk(e, Children(n)[i]).log.events + post + [LeaveEvent(n)]
      && pre == WalkAll(e, Children(n)[..i]).events
  {
    var ns := Children(n);
    var pre := WalkAll(e, ns[..i]).events;
    var mid := Walk(e, ns[i]).log.events;
    var rest := WalkAllStep(e, ns, i);
    DescendingWalk(e, n);
    var evs := Walk(e, n).log.events;
    assert evs == [VisitEvent(n)] + (pre + mid + rest) + [LeaveEvent(n)];
    assert evs == [VisitEvent(n)] + pre + mid + rest + [LeaveEvent(n)];
  }

  /** The walks of the siblings are those before `ns[i]`, then its own, then the rest. */
  lemma WalkAllStep(e: Engine, ns: seq<Node>, i: nat) returns (rest: seq<Event>)
    requires i < |ns|
    ensures WalkAll(e, ns).events == WalkAll(e, ns[..i]).events + Walk(e, ns[i]).log.events + rest
  {
    WalkAllSplit(e, ns, i + 1);
    var all := WalkAll(e, ns).events;
    rest := all[|WalkAll(e, ns[..i + 1]).events|..];
    assert ns[..i + 1][..i] == ns[..i];
    assert WalkAll(e, ns[..i + 1]).events == WalkAll(e, ns[..i]).events + Walk(e, ns[i]).log.events;
  }

  /** The walks of a prefix of the siblings come first. */
  lemma {:induction false} WalkAllSplit(e: Engine, ns: seq<Node>, k: nat)
    requires k <= |ns|
    ensures |WalkAll(e, ns[..k]).events| <= |WalkAll(e, ns).events|
    ensures WalkAll(e, ns).events == WalkAll(e, ns[..k]).events + WalkAll(e, ns).events[|WalkAll(e, ns[..k]).events|..]
    decreases |ns|
  {
    if k < |ns| {
      WalkAllSplit(e, ns[..|ns| - 1], k);
      assert ns[..|ns| - 1][..k] == ns[..k];
    } else {
      assert ns[..k] == ns;
    }
  }

  // ---------------------------------------------------------------------------
  // Hooks that can fire
  // ---------------------------------------------------------------------------

  /**
   * A hook invocation the engine can make: the hook is in the engine's own
   * table under the kind of the node it is called on, a Visitor's leave
   * hooks only on a Visitor, a Transformer's only on a Transformer, and
   * a Transformer's leave hook receives the node it left as both arguments.
   */
  predicate Dispatched(e: Engine, c: HookCall) {
    match c
    case VisitHookCall(hook, node) =>
      && hook == node.kind
      && (match e
          case VisitorEngine(v) => hook in v.visitHooks
          case TransformerEngine(t) => hook in t.visitHooks)
    case LeaveHookCall(hook, node) =>
      e.VisitorEngine? && hook == node.kind && hook in e.visitor.leaveHooks
    case TransformLeaveHookCall(hook, original, updated) =>
      && e.TransformerEngine? && hook == original.kind && hook in e.transformer.leaveHooks
      && updated == original
  }

  /** Every hook a walk invokes is dispatched by the kind of the node it is given. */
  lemma {:induction false} WalkDispatchesByKind(e: Engine, n: Node)
    ensures forall c :: c in Walk(e, n).log.calls ==> Dispatched(e, c)
    decreases Size(n), 0
  {
    if OnVisit(e, n).result {
      WalkAllDispatchesByKind(e, Children(n));
    }
  }

  lemma {:induction false} WalkAllDispatchesByKind(e: Engine, ns: seq<Node>)
    ensures forall c :: c in WalkAll(e, ns).calls ==> Dispatched(e, c)
    decreases SizeAll(ns), 1
  {
    if ns != [] {
      WalkAllDispatchesByKind(e, ns[..|ns| - 1]);
      WalkDispatchesByKind(e, ns[|ns| - 1]);
    }
  }

  /** The hooks the engine runs for one engine call: `on_visit`'s or `on_leave`'s. */
  function EventCalls(e: Engine, ev: Event): (calls: seq<HookCall>) {
    match ev
    case VisitEvent(m) => OnVisit(e, m).calls
    case LeaveEvent(m) => OnLeave(e, m).calls
  }

  /** The hooks run by a sequence of engine calls, call after call. */
  function CallsOf(e: Engine, evs: seq<Event>): (calls: seq<HookCall>) {
    if evs == [] then [] else EventCalls(e, evs[0]) + CallsOf(e, evs[1..])
  }

  lemma {:induction false} CallsOfAppend(e: Engine, a: seq<Event>, b: seq<Event>)
    ensures CallsOf(e, a + b) == CallsOf(e, a) + CallsOf(e, b)
    decreases |a|
  {
    if a == [] {
      assert a + b == b;
    } else {
      assert (a + b)[0] == a[0] && (a + b)[1..] == a[1..] + b;
      CallsOfAppend(e, a[1..], b);
    }
  }

  /**
   * The hooks of a walk are exactly those its engine calls run, in the order
   * of the engine calls: each `on_visit` runs its node's visit hook (if any)
   * right when it is called, and each `on_leave` its node's leave hook (if
   * any), once, whether or not the walk descended. No other hook runs.
   */
  lemma {:induction false} WalkCallsFollowEvents(e: Engine, n: Node)
    ensures Walk(e, n).log.calls == CallsOf(e, Walk(e, n).log.events)
    decreases Size(n), 0
  {
    var below := if OnVisit(e, n).result then WalkAll(e, Children(n)) else Log([], []);
    if OnVisit(e, n).result {
      WalkAllCallsFollowEvents(e, Children(n));
    }
    assert CallsOf(e, below.events) == below.calls;
    CallsOfAppend(e, [VisitEvent(n)] + below.events, [LeaveEvent(n)]);
    CallsOfAppend(e, [VisitEvent(n)], below.events);
    assert CallsOf(e, [VisitEvent(n)]) == OnVisit(e, n).calls;
    assert CallsOf(e, [LeaveEvent(n)]) == OnLeave(e, n).calls;
    assert Walk(e, n).log.events == ([VisitEvent(n)] + below.events) + [LeaveEvent(n)];
  }

  lemma {:induction false} WalkAllCallsFollowEvents(e: Engine, ns: seq<Node>)
    ensures WalkAll(e, ns).calls == CallsOf(e, WalkAll(e, ns).events)
    decreases SizeAll(ns), 1
  {
    if ns != [] {
      WalkAllCallsFollowEvents(e, ns[..|ns| - 1]);
      WalkCallsFollowEvents(e, ns[|ns| - 1]);
      CallsOfAppend(e, WalkAll(e, ns[..|ns| - 1]).events, Walk(e, ns[|ns| - 1]).log.events);
    }
  }

  // ---------------------------------------------------------------------------
  // What a walk returns
  // ---------------------------------------------------------------------------

  /** With a Visitor, `visit` returns the node itself. */
  lemma VisitorWalkReturnsNode(v: Visitor, n: Node)
    ensures Walk(VisitorEngine(v), n).result == NodeValue(n)
  {
  }

  /**
   * With a Transformer, `visit` returns `leave_<Kind>(self, self)` if that
   * hook exists and the node itself otherwise.
   */
  lemma TransformerWalkResult(t: Transformer, n: Node)
    ensures n.kind in t.leaveHooks ==> Walk(TransformerEngine(t), n).result == t.leaveHooks[n.kind](n, n)
    ensures n.kind !in t.leaveHooks ==> Walk(TransformerEngine(t), n).result == NodeValue(n)
  {
  }

  /**
   * The result depends on nothing but the node's own leave hook: two
   * Transformers that differ in every `visit_<Kind>` hook and every other
   * `leave_<Kind>` hook (and hence in what their child walks do and return)
   * return the same value.
   */
  lemma ChildWalksDoNotAffectResult(t1: Transformer, t2: Transformer, n: Node)
    requires n.kind in t1.leaveHooks <==> n.kind in t2.leaveHooks
    requires n.kind in t1.leaveHooks ==> t1.leaveHooks[n.kind] == t2.leaveHooks[n.kind]
    ensures Walk(TransformerEngine(t1), n).result == Walk(TransformerEngine(t2), n).result
  {
  }
}
