/**
 * The tree-node contract of a concrete syntax tree: a node has a runtime
 * kind (its class name) and an ordered sequence of children, and a hook may
 * hand back any value at all, which the engine only compares with `False`
 * or passes on.
 */
module CstNodes {

  /** The runtime class name of a node, `type(node).__name__`. */
  type KindName = string

  /**
   * A node of the tree. `Default` is a node whose class keeps the base
   * class's `children` property; `Composite` is one whose class overrides it
   * with its own ordered children.
   */
  datatype Node =
    | Default(kind: KindName)
    | Composite(kind: KindName, own: seq<Node>)

  /** The values a hook may return, as far as the engine can tell them apart. */
  datatype Value =
    | NoneValue
    | BoolValue(b: bool)
    | IntValue(i: int)
    | StrValue(s: string)
    | NodeValue(node: Node)

  /** Identity with the `False` singleton, the test `retval is False`. */
  predicate IsFalse(v: Value) {
    v == BoolValue(false)
  }

  /** Python truthiness of a value, used only to contrast it with `IsFalse`. */
  predicate Truthy(v: Value) {
    match v
    case NoneValue => false
    case BoolValue(b) => b
    case IntValue(i) => i != 0
    case StrValue(s) => s != []
    case NodeValue(_) => true
  }

  /** The `children` property: empty unless the node's class overrides it. */
  function Children(n: Node): (r: seq<Node>)
    ensures n.Default? ==> r == []
    ensures n.Composite? ==> r == n.own
  {
    match n
    case Default(_) => []
    case Composite(_, own) => own
  }

  /** The number of nodes in the tree rooted at `n`. */
  function Size(n: Node): (r: nat)
    ensures r >= 1
  {
    match n
    case Default(_) => 1
    case Composite(_, own) => 1 + SizeAll(own)
  }

  /** The number of nodes in a sequence of trees. */
  function SizeAll(ns: seq<Node>): (r: nat)
    decreases ns
  {
    if ns == [] then 0 else SizeAll(ns[..|ns| - 1]) + Size(ns[|ns| - 1])
  }

  /** Every member of a sequence of trees is no larger than the whole sequence. */
  lemma {:induction false} SizeAllBounds(ns: seq<Node>, i: nat)
    requires i < |ns|
    ensures Size(ns[i]) <= SizeAll(ns)
    decreases |ns|
  {
    if i < |ns| - 1 {
      SizeAllBounds(ns[..|ns| - 1], i);
    }
  }

  /** A child is strictly smaller than its parent. */
  lemma ChildSmaller(n: Node, i: nat)
    requires i < |Children(n)|
    ensures Size(Children(n)[i]) < Size(n)
  {
    SizeAllBounds(Children(n), i);
  }
}
