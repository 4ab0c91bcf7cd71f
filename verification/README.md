# modapp-cst traversal engine, modelled in Dafny

modapp-cst walks concrete syntax trees with one of two engines. A read-only
`Visitor` observes nodes. A `Transformer` can hand back a replacement node
from its post-order hooks. `CstNode.visit` drives the walk:

1. It asks the engine's `on_visit` whether to descend.
2. If so, it walks the node's `children` in order and discards what each child walk returns.
3. It always calls the engine's `on_leave` and returns what that returns.

Each engine finds its `visit_<Kind>` and `leave_<Kind>` hooks by the node's
runtime class name. A missing visit hook means "descend". Only a hook result
that is the `False` object itself stops the descent.

The model has four modules and a client module:

- `CstNodes` (`cst_node.dfy`) holds the node, its `children` property and the values a hook may return.
  A node is a value of a `Node` datatype. `Default(kind)` is a node whose class keeps the base
  class's empty `children`. `Composite(kind, own)` is a node whose class overrides it. A kind is the
  class name, a string.
- `Visitors` (`visitor.py`'s four dispatch methods) models the hooks as tables from a class name to
  a hook function, so "no such attribute" becomes "not in the table". Every dispatch returns its
  result together with the list of hook invocations it made (`HookCall`). `Engine` is the union
  `CSTVisitorT` of the two engines.
- `Cst` holds `CstNode.visit`, in two forms. `Walk` is a recursive function returning the result and
  a `Log`. The log has the engine calls in order (`VisitEvent(n)` for `on_visit`, `LeaveEvent(n)`
  for `on_leave`) and the hook invocations. `Visit` is the method with the source's `for` loop; it is
  proved to compute exactly `Walk`.
- `Traversal` holds the lemmas about every walk.
- `Scenarios` holds concrete walks over the tree Root[A, B[C]] and a client that walks a tree twice.

What the Transformer does is narrower than its docstring suggests, and the model follows the code:

- The `Transformer.on_leave` docstring (`modapp_cst/visitor.py:50-54`) tells hook authors to build on
  `updated_node` "so as to not overwrite changes made by child visits". That implies a bottom-up
  Transformer, where child results are folded into the updated node. The code does not do this.
  `CstNode.visit` drops every child's result (`modapp_cst/cst.py:15`). It calls
  `on_leave(self, self)`, so the "updated" node is always the original (`modapp_cst/cst.py:20`).
  The model proves what the code does:
  - every Transformer leave hook receives the same node as both arguments (`Traversal.WalkDispatchesByKind`);
  - a walk's result depends only on the node's own leave hook (`Traversal.ChildWalksDoNotAffectResult`);
  - a `leave_A` that returns a new node leaves the root's children as they were
    (`Scenarios.ReplacementLeavesRootChildren`).
- Hooks are looked up by `type(node).__name__`, not by class identity. So two classes with the same
  name share their hooks, and the model keys its tables by that name.

## Model

| member | source | states |
|---|---|---|
| `Visitors.VisitorOnVisit` | modapp_cst/visitor.py:13-20 | With no `visit_<Kind>` hook: descend, and no hook runs. With a hook: it runs once, on the node, and the walk does not descend exactly when the hook returned `False` itself. |
| `Visitors.VisitorOnLeave` | modapp_cst/visitor.py:22-26 | Always returns the node it was given. The `leave_<Kind>` hook runs once if it exists and never otherwise, and only on that node. Its result is discarded. |
| `Visitors.TransformerOnVisit` | modapp_cst/visitor.py:33-40 | The same policy over the Transformer's own table: default descend; stop only on a literal `False`. |
| `Visitors.TransformerOnLeave` | modapp_cst/visitor.py:42-65 | Looks the hook up by the original node's kind. Without a hook: returns `updated_node` and no hook runs. With one: calls it once with (original, updated) in that order and returns exactly its result. |
| `Visitors.OnlyLiteralFalseSuppresses` | modapp_cst/visitor.py:19-20 | Descent stops if and only if the hook returned `False`. A falsy value other than `False` (`None`, `0`, `""`) still descends. |
| `Visitors.SameDescentPolicy` | modapp_cst/visitor.py:33-40 | Given the same visit-hook table, a Transformer's `on_visit` makes the same decision, with the same hook call, as a Visitor's. |
| `CstNodes.Children` | modapp_cst/cst.py:24-26 | A node whose class does not override `children` has no children. |
| `Cst.Visit` | modapp_cst/cst.py:9-22 | The loop over `children` discards each child's result. The returned value and the accumulated log are exactly those of `Walk`. |
| `Traversal.WalkWellBracketed` | modapp_cst/cst.py:11-20 | Replayed against any stack of open nodes, a walk's events leave the stack as they found it. Every `on_leave` closes the most recent `on_visit` still open. So a node is left only after everything walked below it has been visited and left. |
| `Traversal.WalkOrders` | modapp_cst/cst.py:11-20 | The `on_visit` calls are the pre-order of the tree, pruned where `on_visit` said no. The `on_leave` calls are the post-order of the same pruned tree. Children are taken in the order `children` gives them. |
| `Traversal.OrdersSameNodes` | modapp_cst/cst.py:11-20 | The pruned pre-order and post-order hold the same nodes, each the same number of times. |
| `Traversal.LeaveOncePerVisit` | modapp_cst/cst.py:11-20 | `on_leave` is called on each node exactly as often as `on_visit`, whatever the descent decisions. So the numbers of visit and leave events are equal. |
| `Traversal.VisitFirstLeaveLast` | modapp_cst/cst.py:11-20 | The first engine call of a walk is `on_visit(n)` and the last is `on_leave(n)`. No event in between concerns `n`, so each is called on `n` exactly once. |
| `Traversal.SuppressedWalk` | modapp_cst/cst.py:13-15 | When `on_visit` returns False, the trace is `[Visit(n), Leave(n)]`. The only hooks run are `n`'s own, so no hook fires for any descendant. |
| `Traversal.DescendedWalk` | modapp_cst/cst.py:13-15 | When `on_visit` returns True, each child's whole walk appears between the node's visit and leave. It comes right after the walks of the children before it. |
| `Traversal.DefaultChildrenWalk` | modapp_cst/cst.py:24-26 | A node with the default `children` produces exactly `[Visit(n), Leave(n)]`. |
| `Traversal.WalkDispatchesByKind` | modapp_cst/visitor.py:14-63 | Every hook a walk runs is in its own engine's table, under the kind of the node it is given. A Visitor's leave hooks run only under a Visitor, and a Transformer's only under a Transformer. A Transformer's leave hook always receives the same node as original and updated. |
| `Traversal.WalkCallsFollowEvents` | modapp_cst/cst.py:11-20 | The hooks a walk runs are exactly those its engine calls run, in the order of the engine calls. So, together with `WalkOrders` and the dispatch contracts, each leave hook runs once per `on_leave`, in post-order, whether or not the walk descended, and no other hook runs. |
| `Traversal.VisitorWalkReturnsNode` | modapp_cst/cst.py:17-22 | Under a Visitor, `visit` returns the node itself. |
| `Traversal.TransformerWalkResult` | modapp_cst/cst.py:17-22 | Under a Transformer, `visit` returns `leave_<Kind>(self, self)` if that hook exists, else the node itself. |
| `Traversal.ChildWalksDoNotAffectResult` | modapp_cst/cst.py:13-22 | Two Transformers that agree only on the node's own leave hook return the same value. They may differ in every other hook, and so in everything their child walks do. |
| `Scenarios.LeaveOnlyC` | modapp_cst/cst.py:9-22 | Root[A, B[C]] under a Visitor with only `leave_C`: the full pre/post trace, one hook call `leave_C(C)`, and Root returned. |
| `Scenarios.ReplacementNotThreaded` | modapp_cst/cst.py:15-22 | A Transformer whose `leave_A` returns any replacement node a'. The hook runs once, as `leave_A(A, A)`. The whole walk returns the original Root with the full trace. |
| `Scenarios.ReplacementLeavesRootChildren` | modapp_cst/cst.py:15-20 | Under that Transformer, the returned Root still has children [A, B], not [A', B]. |
| `Scenarios.VisitBFalse` | modapp_cst/cst.py:11-20 | `visit_B` returning `False` keeps C out of the trace, but B is still left. |
| `Scenarios.VisitBZero` | modapp_cst/visitor.py:13-20 | `visit_B` returning the falsy `0` does not stop the descent, and C is walked. |
| `Scenarios.WalkTwice` | modapp_cst/cst.py:9-22 | Walking the same tree twice with the same hooks gives the same result and the same log. |

## Left out

- Reflection: `getattr(self, f"visit_{...}", None)` is replaced by a fixed table per engine. An attribute set to `None` behaves like a missing key. A non-callable attribute is not modelled.
- Hook bodies: hooks are pure functions of their arguments. Side effects and accumulator state in subclasses are not modelled; each invocation is recorded in the log instead. So the model does not show a hook whose answer changes with state built up earlier in the same walk.
- Exceptions raised by hooks, and the aborted walk that follows, are not modelled. The engine has no handling for them.
- Node attributes: a `Node` carries only its kind and its children. So a hook cannot tell apart two nodes of the same kind with the same children whose other attributes differ (two `Name` leaves with different identifiers, say). Nothing in the traversal depends on such attributes.
- Object identity: Python's `is` becomes value equality on `Node`. "Returns the very node" is modelled as "returns an equal node".
- Hook return values: only `None`, booleans, integers, strings and nodes are modelled. Any other object behaves like a non-`False` value.
- `RemovalSentinel.REMOVE` appears only in a docstring (`modapp_cst/visitor.py:56-59`) and is not implemented, so it is not modelled.
- The attribute-level hooks (`modapp_cst/visitor.py:28-29`) and the return-type validation (`modapp_cst/cst.py:21`) are TODOs in the code and are not modelled.
- Cyclic node graphs and Python's recursion-depth limit are not modelled; a `Node` value is finite and acyclic.
- The typing machinery (`Generic`, `TypeVar`, `TYPE_CHECKING`, `modapp_cst/visitor.py:3-9`) is not modelled. The `isinstance` branch becomes the two `Engine` variants.
