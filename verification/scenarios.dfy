/**
 * Concrete walks over the three-level tree Root[A, B[C]], and a client that
 * walks the same tree twice.
 */
module Scenarios {
  import opened CstNodes
  import opened Visitors
  import opened Cst

  const C: Node := Default("C")
  const A: Node := Default("A")
  const B: Node := Composite("B", [C])
  const Root: Node := Composite("Root", [A, B])

  /** The full trace of a walk that descends everywhere. */
  const FullTrace: seq<Event> :=
    [VisitEvent(Root), VisitEvent(A), LeaveEvent(A),
     VisitEvent(B), VisitEvent(C), LeaveEvent(C), LeaveEvent(B), LeaveEvent(Root)]

  /** A node with no children to walk shows only its own two engine calls. */
  lemma WalkLeaf(e: Engine, n: Node)
    requires Children(n) == [] || !OnVisit(e, n).result
    ensures Walk(e, n) == Outcome(OnLeave(e, n).result,
                                  Log([VisitEvent(n), LeaveEvent(n)], OnVisit(e, n).calls + OnLeave(e, n).calls))
  {
  }

  /** A single sibling's walk is the walk of the sequence holding it. */
  lemma WalkOneSibling(e: Engine, a: Node)
    ensures WalkAll(e, [a]) == Walk(e, a).log
  {
    assert [a][..0] == [];
    assert WalkAll(e, [a]) == Then(WalkAll(e, []), Walk(e, a).log);
  }

  /** Two siblings are walked one after the other. */
  lemma WalkTwoSiblings(e: Engine, a: Node, b: Node)
    ensures WalkAll(e, [a, b]) == Then(Walk(e, a).log, Walk(e, b).log)
  {
    assert [a, b][..1] == [a];
    WalkOneSibling(e, a);
    assert WalkAll(e, [a, b]) == Then(WalkAll(e, [a]), Walk(e, b).log);
  }

  /** A node that descends into its only child. */
  lemma WalkOneChild(e: Engine, n: Node, c: Node)
    requires Children(n) == [c] && OnVisit(e, n).result
    ensures Walk(e, n) == Outcome(OnLeave(e, n).result,
                                  Then(Then(Log([VisitEvent(n)], OnVisit(e, n).calls), Walk(e, c).log),
                                       Log([LeaveEvent(n)], OnLeave(e, n).calls)))
  {
    WalkOneSibling(e, c);
  }

  /** A node that descends into its two children. */
  lemma WalkTwoChildren(e: Engine, n: Node, a: Node, b: Node)
    requires Children(n) == [a, b] && OnVisit(e, n).result
    ensures Walk(e, n) == Outcome(OnLeave(e, n).result,
                                  Then(Then(Log([VisitEvent(n)], OnVisit(e, n).calls),
                                            Then(Walk(e, a).log, Walk(e, b).log)),
                                       Log([LeaveEvent(n)], OnLeave(e, n).calls)))
  {
    WalkTwoSiblings(e, a, b);
  }

  /** A Visitor with only `leave_C` runs that hook once, on C, and returns the root. */
  lemma LeaveOnlyC()
    ensures Walk(VisitorEngine(Visitor(map[], map["C" := (m: Node) => NoneValue])), Root)
            == Outcome(NodeValue(Root), Log(FullTrace, [LeaveHookCall("C", C)]))
  {
    var e := VisitorEngine(Visitor(map[], map["C" := (m: Node) => NoneValue]));
    WalkLeaf(e, A);
    WalkLeaf(e, C);
    WalkOneChild(e, B, C);
    WalkTwoChildren(e, Root, A, B);
  }

  /**
   * A Transformer whose `leave_A` returns some replacement node a': the hook
   * runs once with (A, A), but the replacement does not reach the parent,
   * whose result is still the original Root with children [A, B].
   */
  lemma ReplacementNotThreaded(a': Node)
    ensures
      var t := Transformer(map[], map["A" := (o: Node, u: Node) => NodeValue(a')]);
      Walk(TransformerEngine(t), Root)
        == Outcome(NodeValue(Root), Log(FullTrace, [TransformLeaveHookCall("A", A, A)]))
  {
    var e := TransformerEngine(Transformer(map[], map["A" := (o: Node, u: Node) => NodeValue(a')]));
    WalkLeaf(e, A);
    WalkLeaf(e, C);
    WalkOneChild(e, B, C);
    WalkTwoChildren(e, Root, A, B);
  }

  /** The value that walk returns is the original Root, children and all. */
  lemma ReplacementLeavesRootChildren(a': Node)
    ensures
      var t := Transformer(map[], map["A" := (o: Node, u: Node) => NodeValue(a')]);
      Children(Walk(TransformerEngine(t), Root).result.node) == [A, B]
  {
    ReplacementNotThreaded(a');
  }

  /** `visit_B` returning `False` keeps C out of the walk, yet B is still left. */
  lemma VisitBFalse()
    ensures
      var v := Visitor(map["B" := (m: Node) => BoolValue(false)], map[]);
      Walk(VisitorEngine(v), Root).log ==
        Log([VisitEvent(Root), VisitEvent(A), LeaveEvent(A), VisitEvent(B), LeaveEvent(B), LeaveEvent(Root)],
            [VisitHookCall("B", B)])
  {
    var e := VisitorEngine(Visitor(map["B" := (m: Node) => BoolValue(false)], map[]));
    WalkLeaf(e, A);
    WalkLeaf(e, B);
    WalkTwoChildren(e, Root, A, B);
  }

  /** `visit_B` returning the falsy `0` is not `False`: C is walked. */
  lemma VisitBZero()
    ensures
      var v := Visitor(map["B" := (m: Node) => IntValue(0)], map[]);
      Walk(VisitorEngine(v), Root).log == Log(FullTrace, [VisitHookCall("B", B)])
  {
    var e := VisitorEngine(Visitor(map["B" := (m: Node) => IntValue(0)], map[]));
    WalkLeaf(e, A);
    WalkLeaf(e, C);
    WalkOneChild(e, B, C);
    WalkTwoChildren(e, Root, A, B);
  }

  /**
   * Walking the same tree twice with the same hooks gives the same result
   * and the same trace. Nodes are values and hooks are functions of their
   * arguments here, so nothing a walk does can change the tree or the
   * engine: this holds by construction, through `Visit`'s agreement with `Walk`.
   */
  method WalkTwice(n: Node, e: Engine) returns (first: Outcome, second: Outcome)
    ensures first == second
  {
    var r1, log1 := Visit(n, e);
    var r2, log2 := Visit(n, e);
    first, second := Outcome(r1, log1), Outcome(r2, log2);
  }
}
