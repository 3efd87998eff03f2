/** The guard-neutralising phase. For every guarded node that exists when the phase starts and
    whose guard is a GuardNode, the first input of that guard's condition is rewritten:
    a null check gets a boolean constant chosen by the guard's polarity, an unsigned-below
    comparison gets Integer.MAX_VALUE as its left operand, and any other condition is left alone. */
module ExceptionCheckingElimination {
  import opened IrGraph

  // ---------------------------------------------------------------------------------------------
  // Specification of the loop body and of the whole pass, on graph values
  // ---------------------------------------------------------------------------------------------

  /** The guarded nodes of `nodes`, in the graph's node order. */
  function GuardedIds(nodes: seq<Node>): (r: seq<NodeId>)
    ensures forall j :: 0 <= j < |r| ==> r[j] < |nodes| && nodes[r[j]].kind.GuardedNode?
    ensures forall i :: 0 <= i < |nodes| && nodes[i].kind.GuardedNode? ==> i in r
    ensures forall j, k :: 0 <= j < k < |r| ==> r[j] < r[k]
  {
    if nodes == [] then []
    else
      var prefix := GuardedIds(nodes[..|nodes| - 1]);
      if nodes[|nodes| - 1].kind.GuardedNode? then prefix + [|nodes| - 1] else prefix
  }

  /** A rewrite the loop body performs: the first input of condition node `cond` becomes the
      unique constant node for `constant`. */
  datatype Rewrite = Rewrite(cond: NodeId, constant: Constant)

  /** The rewrite the loop body performs for node `id`, or None when it changes nothing: the
      node is not guarded, its guard is absent or not a GuardNode, or the guard's condition is
      neither an IsNullNode nor an IntegerBelowNode. */
  function RewriteOf(nodes: seq<Node>, id: NodeId): (r: Option<Rewrite>)
    ensures r.Some? ==> id < |nodes| && nodes[id].kind.GuardedNode?
    ensures r.Some? ==> r.value.cond < |nodes|
    ensures r.Some? ==> nodes[r.value.cond].kind.IsNull? || nodes[r.value.cond].kind.IntegerBelow?
    ensures r.Some? ==>
      nodes[id].kind.guard.Some? &&
      var g := nodes[id].kind.guard.value;
      g < |nodes| && nodes[g].kind.Guard? && nodes[g].kind.condition == r.value.cond &&
      r.value.constant ==
        if nodes[r.value.cond].kind.IsNull? then (if nodes[g].kind.negated then Contradiction else Tautology)
        else IntConstant(IntMaxValue)
    ensures r.None? ==>
      !(id < |nodes| && nodes[id].kind.GuardedNode? && nodes[id].kind.guard.Some? &&
        var g := nodes[id].kind.guard.value;
        g < |nodes| && nodes[g].kind.Guard? && nodes[g].kind.condition < |nodes| &&
        (nodes[nodes[g].kind.condition].kind.IsNull? || nodes[nodes[g].kind.condition].kind.IntegerBelow?))
  {
    if id < |nodes| && nodes[id].kind.GuardedNode? && nodes[id].kind.guard.Some? then
      var g := nodes[id].kind.guard.value;
      if g < |nodes| && nodes[g].kind.Guard? then
        var c := nodes[g].kind.condition;
        if c < |nodes| && nodes[c].kind.IsNull? then
          Some(Rewrite(c, if nodes[g].kind.negated then Contradiction else Tautology))
        else if c < |nodes| && nodes[c].kind.IntegerBelow? then
          Some(Rewrite(c, IntConstant(IntMaxValue)))
        else None
      else None
    else None
  }

  /** `id`'s rewrite is aimed at condition node `c`. */
  ghost predicate Targets(nodes: seq<Node>, id: NodeId, c: NodeId)
  {
    RewriteOf(nodes, id).Some? && RewriteOf(nodes, id).value.cond == c
  }

  /** The loop body for one guarded node. The condition's first input is read before the
      constant is requested, as the source does. */
  function Step(a: Arena, id: NodeId): (r: Arena)
    requires WellFormed(a)
    ensures WellFormed(r) && SameShape(a.nodes, r.nodes) && Extends(a.uniques, r.uniques)
  {
    match RewriteOf(a.nodes, id)
    case None => a
    case Some(rw) =>
      var input := a.nodes[rw.cond].inputs[0];
      var (b, k) := UniqueF(a, rw.constant);
      ReplaceInputF(b, rw.cond, input, k)
  }

  /** The loop over `ids`, visited in order. */
  function RunF(a: Arena, ids: seq<NodeId>): (r: Arena)
    requires WellFormed(a)
    ensures WellFormed(r) && SameShape(a.nodes, r.nodes) && Extends(a.uniques, r.uniques)
    decreases |ids|
  {
    if ids == [] then a else Step(RunF(a, ids[..|ids| - 1]), ids[|ids| - 1])
  }

  /** The whole phase: the loop over the guarded nodes snapshotted at entry. */
  function Pass(a: Arena): (r: Arena)
    requires WellFormed(a)
    ensures WellFormed(r)
  {
    RunF(a, GuardedIds(a.nodes))
  }

  // ---------------------------------------------------------------------------------------------
  // The phase as the source runs it: on a mutable graph
  // ---------------------------------------------------------------------------------------------

  /** graph.getNodes().filter(GuardedNode.class::isInstance).snapshot() */
  method GuardedSnapshot(graph: Graph) returns (snapshot: seq<NodeId>)
    ensures snapshot == GuardedIds(graph.nodes)
  {
    snapshot := [];
    var i := 0;
    while i < |graph.nodes|
      invariant 0 <= i <= |graph.nodes|
      invariant snapshot == GuardedIds(graph.nodes[..i])
    {
      assert graph.nodes[..i + 1][..i] == graph.nodes[..i];
      if graph.nodes[i].kind.GuardedNode? {
        snapshot := snapshot + [i];
      }
      i := i + 1;
    }
    assert graph.nodes[..i] == graph.nodes;
  }

  /** The body of the source's forEach lambda, for one snapshotted node. */
  method Visit(graph: Graph, node: NodeId)
    requires graph.Valid() && node < |graph.nodes| && graph.nodes[node].kind.GuardedNode?
    modifies graph
    ensures graph.Valid()
    ensures graph.State() == Step(old(graph.State()), node)
  {
    var guardedNode := graph.nodes[node].kind;
    if guardedNode.guard.Some? && graph.nodes[guardedNode.guard.value].kind.Guard? {
      var guard := graph.nodes[guardedNode.guard.value].kind;
      var condition := guard.condition;
      if graph.nodes[condition].kind.IsNull? {
        var input := graph.nodes[condition].inputs[0];
        var constant;
        if guard.negated {
          constant := graph.Unique(Contradiction);
        } else {
          constant := graph.Unique(Tautology);
        }
        graph.ReplaceFirstInput(condition, input, constant);
      } else if graph.nodes[condition].kind.IntegerBelow? {
        var x := graph.nodes[condition].inputs[0];
        var constant := graph.Unique(IntConstant(IntMaxValue));
        graph.ReplaceFirstInput(condition, x, constant);
      }
    }
  }

  /** ExceptionCheckingElimination.run: the graph afterwards is the phase's specification applied
      to the graph before. */
  method Run(graph: Graph)
    requires graph.Valid()
    modifies graph
    ensures graph.Valid()
    ensures graph.State() == Pass(old(graph.State()))
  {
    var snapshot := GuardedSnapshot(graph);
    ghost var entry := graph.State();
    var i := 0;
    while i < |snapshot|
      invariant 0 <= i <= |snapshot|
      invariant graph.Valid() && SameShape(entry.nodes, graph.nodes)
      invariant graph.State() == RunF(entry, snapshot[..i])
    {
      RunPrefix(entry, snapshot, i);
      Visit(graph, snapshot[i]);
      i := i + 1;
    }
    assert snapshot[..i] == snapshot;
  }

  /** The loop over one more snapshot entry is one more loop body. */
  lemma RunPrefix(a: Arena, ids: seq<NodeId>, i: nat)
    requires WellFormed(a) && i < |ids|
    ensures RunF(a, ids[..i + 1]) == Step(RunF(a, ids[..i]), ids[i])
  {
    assert ids[..i + 1][..i] == ids[..i];
  }
}
