/** What the guard-neutralising phase guarantees, proved about its specification `Pass`
    (which `ExceptionCheckingElimination.Run` implements). */
module ExceptionCheckingEliminationProperties {
  import opened IrGraph
  import opened ExceptionCheckingElimination

  // ---------------------------------------------------------------------------------------------
  // One loop iteration
  // ---------------------------------------------------------------------------------------------

  /** A skipped node leaves the graph as it was. Otherwise exactly the targeted condition's first
      input changes, to the unique node of the requested constant; the only node that may be added
      is that constant's, and only when the table did not hold it yet. */
  lemma StepEffect(a: Arena, id: NodeId)
    requires WellFormed(a)
    ensures RewriteOf(a.nodes, id).None? ==> Step(a, id) == a
    ensures RewriteOf(a.nodes, id).Some? ==>
      var rw := RewriteOf(a.nodes, id).value;
      var r := Step(a, id);
      rw.constant in r.uniques &&
      r.nodes[rw.cond] == a.nodes[rw.cond].(inputs := a.nodes[rw.cond].inputs[0 := r.uniques[rw.constant]]) &&
      (forall i :: 0 <= i < |a.nodes| && i != rw.cond ==> r.nodes[i] == a.nodes[i]) &&
      r.uniques.Keys == a.uniques.Keys + {rw.constant} &&
      |r.nodes| <= |a.nodes| + 1 &&
      (rw.constant in a.uniques ==> |r.nodes| == |a.nodes|) &&
      (forall i :: |a.nodes| <= i < |r.nodes| ==>
         r.nodes[i] == Node(ConstantNode(rw.constant), []) && r.uniques[rw.constant] == i)
  {
    if RewriteOf(a.nodes, id).Some? {
      var rw := RewriteOf(a.nodes, id).value;
      ReplaceHead(a.nodes[rw.cond].inputs, UniqueF(a, rw.constant).1);
    }
  }

  /** The guard is absent, or is not a GuardNode: the node is skipped and the graph is unchanged. */
  lemma SkipWithoutGuardNode(a: Arena, id: NodeId)
    requires WellFormed(a) && id < |a.nodes|
    requires a.nodes[id].kind.GuardedNode?
    requires a.nodes[id].kind.guard.None? || !a.nodes[a.nodes[id].kind.guard.value].kind.Guard?
    ensures Step(a, id) == a
  {
    StepEffect(a, id);
  }

  /** A GuardNode whose condition is neither a null check nor an unsigned-below comparison: the
      node is skipped and the graph is unchanged, whatever the guard's polarity. */
  lemma SkipOtherCondition(a: Arena, id: NodeId, g: NodeId, c: NodeId, negated: bool)
    requires WellFormed(a) && id < |a.nodes| && g < |a.nodes| && c < |a.nodes|
    requires a.nodes[id].kind == GuardedNode(Some(g)) && a.nodes[g].kind == Guard(c, negated)
    requires !a.nodes[c].kind.IsNull? && !a.nodes[c].kind.IntegerBelow?
    ensures Step(a, id) == a
  {
    StepEffect(a, id);
  }

  /** The bounds-check rewrite does not consult the guard's negation flag. */
  lemma BoundsRewriteIgnoresNegation(a: Arena, id: NodeId, g: NodeId, c: NodeId, negated: bool)
    requires WellFormed(a) && id < |a.nodes| && g < |a.nodes| && c < |a.nodes|
    requires a.nodes[id].kind == GuardedNode(Some(g)) && a.nodes[g].kind == Guard(c, negated)
    requires a.nodes[c].kind == IntegerBelow
    ensures var flipped := a.(nodes := a.nodes[g := a.nodes[g].(kind := Guard(c, !negated))]);
      WellFormed(flipped) && Step(flipped, id).nodes[c] == Step(a, id).nodes[c]
  {
    var flipped := a.(nodes := a.nodes[g := a.nodes[g].(kind := Guard(c, !negated))]);
    FlipGuard(a, g, c, negated);
    assert RewriteOf(flipped.nodes, id) == RewriteOf(a.nodes, id);
    StepCondition(a, id);
    StepCondition(flipped, id);
  }

  /** Flipping a guard's negation flag keeps the graph well formed and leaves the other nodes alone. */
  lemma FlipGuard(a: Arena, g: NodeId, c: NodeId, negated: bool)
    requires WellFormed(a) && g < |a.nodes| && a.nodes[g].kind == Guard(c, negated)
    ensures var flipped := a.(nodes := a.nodes[g := a.nodes[g].(kind := Guard(c, !negated))]);
      WellFormed(flipped) && flipped.nodes[g].kind == Guard(c, !negated) &&
      forall i :: 0 <= i < |a.nodes| && i != g ==> flipped.nodes[i] == a.nodes[i]
  {
    assert NodeWellFormed(a.nodes[g], |a.nodes|);
  }

  /** The rewritten condition after one iteration: its first input is the requested constant's node. */
  lemma StepCondition(a: Arena, id: NodeId)
    requires WellFormed(a) && RewriteOf(a.nodes, id).Some?
    ensures var rw := RewriteOf(a.nodes, id).value;
      Step(a, id).nodes[rw.cond] ==
        a.nodes[rw.cond].(inputs := a.nodes[rw.cond].inputs[0 := UniqueF(a, rw.constant).1])
  {
    var rw := RewriteOf(a.nodes, id).value;
    ReplaceHead(a.nodes[rw.cond].inputs, UniqueF(a, rw.constant).1);
  }

  // ---------------------------------------------------------------------------------------------
  // The last rewrite aimed at each condition
  // ---------------------------------------------------------------------------------------------

  /** The constant that the last rewrite in `ids` aimed at `c` writes, if any rewrite is. */
  function LastRewrite(nodes: seq<Node>, ids: seq<NodeId>, c: NodeId): Option<Constant>
    decreases |ids|
  {
    if ids == [] then None
    else
      var rw := RewriteOf(nodes, ids[|ids| - 1]);
      if rw.Some? && rw.value.cond == c then Some(rw.value.constant)
      else LastRewrite(nodes, ids[..|ids| - 1], c)
  }

  /** The constants the rewrites in `ids` request. */
  function Requested(nodes: seq<Node>, ids: seq<NodeId>): set<Constant>
    decreases |ids|
  {
    if ids == [] then {}
    else
      var rw := RewriteOf(nodes, ids[|ids| - 1]);
      Requested(nodes, ids[..|ids| - 1]) + (if rw.Some? then {rw.value.constant} else {})
  }

  /** Some rewrite is aimed at `c` exactly when a node of `ids` targets it; it is then a
      recognised condition, and the constant written is one of those requested. */
  lemma {:induction false} LastRewriteSpec(nodes: seq<Node>, ids: seq<NodeId>, c: NodeId)
    ensures LastRewrite(nodes, ids, c).Some? <==> exists j :: 0 <= j < |ids| && Targets(nodes, ids[j], c)
    ensures LastRewrite(nodes, ids, c).Some? ==>
      c < |nodes| && (nodes[c].kind.IsNull? || nodes[c].kind.IntegerBelow?) &&
      LastRewrite(nodes, ids, c).value in Requested(nodes, ids)
    ensures LastRewrite(nodes, ids, c).Some? && nodes[c].kind.IsNull? ==> LastRewrite(nodes, ids, c).value.LogicConstant?
    ensures LastRewrite(nodes, ids, c).Some? && nodes[c].kind.IntegerBelow? ==>
      LastRewrite(nodes, ids, c) == Some(IntConstant(IntMaxValue))
    decreases |ids|
  {
    if ids != [] {
      var p := ids[..|ids| - 1];
      LastRewriteSpec(nodes, p, c);
      if !Targets(nodes, ids[|ids| - 1], c) {
        if exists j :: 0 <= j < |ids| && Targets(nodes, ids[j], c) {
          var j :| 0 <= j < |ids| && Targets(nodes, ids[j], c);
          assert p[j] == ids[j];
        }
        if LastRewrite(nodes, p, c).Some? {
          var j :| 0 <= j < |p| && Targets(nodes, p[j], c);
          assert ids[j] == p[j];
        }
      }
    }
  }

  /** When every rewrite in `ids` aimed at `c` carries `k`, the last one does. */
  lemma {:induction false} LastRewriteUniform(nodes: seq<Node>, ids: seq<NodeId>, c: NodeId, k: Constant)
    requires forall j :: 0 <= j < |ids| && Targets(nodes, ids[j], c) ==> RewriteOf(nodes, ids[j]).value.constant == k
    ensures LastRewrite(nodes, ids, c) == None || LastRewrite(nodes, ids, c) == Some(k)
    decreases |ids|
  {
    if ids != [] {
      var p := ids[..|ids| - 1];
      assert forall j :: 0 <= j < |p| ==> p[j] == ids[j];
      LastRewriteUniform(nodes, p, c, k);
    }
  }

  /** The rewrite chosen for a node depends only on node kinds. */
  lemma RewriteOfShape(a: Arena, b: seq<Node>, id: NodeId)
    requires WellFormed(a) && SameShape(a.nodes, b) && id < |a.nodes|
    ensures RewriteOf(b, id) == RewriteOf(a.nodes, id)
  {
  }

  /** So do the rewrites of a whole snapshot. */
  lemma {:induction false} ShapeAgnostic(a: Arena, b: seq<Node>, ids: seq<NodeId>)
    requires WellFormed(a) && SameShape(a.nodes, b)
    requires forall j :: 0 <= j < |ids| ==> ids[j] < |a.nodes|
    ensures forall c :: LastRewrite(b, ids, c) == LastRewrite(a.nodes, ids, c)
    ensures Requested(b, ids) == Requested(a.nodes, ids)
    decreases |ids|
  {
    if ids != [] {
      var p := ids[..|ids| - 1];
      assert forall j :: 0 <= j < |p| ==> p[j] == ids[j];
      ShapeAgnostic(a, b, p);
      RewriteOfShape(a, b, ids[|ids| - 1]);
    }
  }

  // ---------------------------------------------------------------------------------------------
  // The loop in closed form
  // ---------------------------------------------------------------------------------------------

  /** Node `n` with its first input set to the unique node of `k`, when `k` is present. */
  function Settled(n: Node, k: Option<Constant>, uniques: map<Constant, NodeId>): Node
  {
    if k.Some? && k.value in uniques && |n.inputs| > 0 then n.(inputs := n.inputs[0 := uniques[k.value]])
    else n
  }

  /** Settling a node again on `k` overrides whatever it had settled on before. */
  lemma SettledAgain(n: Node, before: Option<Constant>, u: map<Constant, NodeId>, k: Constant, v: map<Constant, NodeId>)
    requires |n.inputs| > 0 && k in v
    ensures var m := Settled(n, before, u); m.(inputs := m.inputs[0 := v[k]]) == Settled(n, Some(k), v)
  {
  }

  /** Settling against a larger table gives the same node. */
  lemma SettledExtends(n: Node, k: Option<Constant>, u: map<Constant, NodeId>, v: map<Constant, NodeId>)
    requires (k.Some? ==> k.value in u) && Extends(u, v)
    ensures Settled(n, k, u) == Settled(n, k, v)
  {
  }

  /** Node `i` of `r` is a constant node without inputs, registered in the table under its value. */
  ghost predicate Registered(r: Arena, i: nat)
    requires i < |r.nodes|
  {
    r.nodes[i].kind.ConstantNode? && r.nodes[i].inputs == [] &&
    r.nodes[i].kind.constant in r.uniques && r.uniques[r.nodes[i].kind.constant] == i
  }

  /** `r` is what the loop over `ids` makes of `a`: every node present at entry is as it was except
      that each targeted condition's first input is the unique node of the constant of the LAST
      rewrite aimed at it; the table has gained exactly the requested constants, each registered to
      an added node; and every added node is a registered constant node. */
  ghost predicate ClosedForm(a: Arena, ids: seq<NodeId>, r: Arena)
  {
    |a.nodes| <= |r.nodes| &&
    r.uniques.Keys == a.uniques.Keys + Requested(a.nodes, ids) &&
    (forall c :: 0 <= c < |a.nodes| ==> r.nodes[c] == Settled(a.nodes[c], LastRewrite(a.nodes, ids, c), r.uniques)) &&
    (forall i :: |a.nodes| <= i < |r.nodes| ==> Registered(r, i)) &&
    (forall k :: k in r.uniques && k !in a.uniques ==> |a.nodes| <= r.uniques[k])
  }

  /** One more iteration keeps the closed form. */
  lemma ClosedFormStep(a: Arena, ids: seq<NodeId>, t: Arena)
    requires WellFormed(a) && WellFormed(t) && SameShape(a.nodes, t.nodes) && Extends(a.uniques, t.uniques)
    requires ids != [] && ids[|ids| - 1] < |a.nodes| && ClosedForm(a, ids[..|ids| - 1], t)
    ensures ClosedForm(a, ids, Step(t, ids[|ids| - 1]))
  {
    var last := ids[|ids| - 1];
    RewriteOfShape(a, t.nodes, last);
    if RewriteOf(a.nodes, last).None? {
      StepEffect(t, last);
      assert Requested(a.nodes, ids) == Requested(a.nodes, ids[..|ids| - 1]);
      assert forall c :: LastRewrite(a.nodes, ids, c) == LastRewrite(a.nodes, ids[..|ids| - 1], c);
    } else {
      StepKeys(t, last);
      RewriteKeys(a, ids, t.uniques.Keys);
      RewriteSettles(a, ids, t);
      RewriteRegisters(a, ids, t);
      RewriteFresh(a, ids, t);
    }
  }

  /** Adding a rewriting iteration's constant to the keys gives the constants requested so far. */
  lemma RewriteKeys(a: Arena, ids: seq<NodeId>, keys: set<Constant>)
    requires ids != [] && keys == a.uniques.Keys + Requested(a.nodes, ids[..|ids| - 1])
    requires RewriteOf(a.nodes, ids[|ids| - 1]).Some?
    ensures keys + {RewriteOf(a.nodes, ids[|ids| - 1]).value.constant} == a.uniques.Keys + Requested(a.nodes, ids)
  {
  }

  /** A rewriting iteration adds exactly its constant to the table's keys. */
  lemma StepKeys(t: Arena, id: NodeId)
    requires WellFormed(t) && RewriteOf(t.nodes, id).Some?
    ensures Step(t, id).uniques.Keys == t.uniques.Keys + {RewriteOf(t.nodes, id).value.constant}
  {
    var rw := RewriteOf(t.nodes, id).value;
    assert Step(t, id).uniques == UniqueF(t, rw.constant).0.uniques;
  }

  /** The nodes present at entry after a rewriting iteration. */
  lemma RewriteSettles(a: Arena, ids: seq<NodeId>, t: Arena)
    requires WellFormed(a) && WellFormed(t) && SameShape(a.nodes, t.nodes) && Extends(a.uniques, t.uniques)
    requires ids != [] && ids[|ids| - 1] < |a.nodes| && ClosedForm(a, ids[..|ids| - 1], t)
    requires RewriteOf(a.nodes, ids[|ids| - 1]).Some?
    ensures var r := Step(t, ids[|ids| - 1]);
      forall c :: 0 <= c < |a.nodes| ==> r.nodes[c] == Settled(a.nodes[c], LastRewrite(a.nodes, ids, c), r.uniques)
  {
    var r := Step(t, ids[|ids| - 1]);
    forall c | 0 <= c < |a.nodes|
      ensures r.nodes[c] == Settled(a.nodes[c], LastRewrite(a.nodes, ids, c), r.uniques)
    {
      RewriteSettlesAt(a, ids, t, r, c);
    }
  }

  /** Node `c` after a rewriting iteration. */
  lemma RewriteSettlesAt(a: Arena, ids: seq<NodeId>, t: Arena, r: Arena, c: NodeId)
    requires WellFormed(a) && WellFormed(t) && SameShape(a.nodes, t.nodes) && Extends(a.uniques, t.uniques)
    requires ids != [] && ids[|ids| - 1] < |a.nodes| && ClosedForm(a, ids[..|ids| - 1], t)
    requires RewriteOf(a.nodes, ids[|ids| - 1]).Some? && r == Step(t, ids[|ids| - 1]) && c < |a.nodes|
    ensures r.nodes[c] == Settled(a.nodes[c], LastRewrite(a.nodes, ids, c), r.uniques)
  {
    var p, last := ids[..|ids| - 1], ids[|ids| - 1];
    RewriteOfShape(a, t.nodes, last);
    StepEffect(t, last);
    var rw := RewriteOf(a.nodes, last).value;
    var before := LastRewrite(a.nodes, p, c);
    LastRewriteSpec(a.nodes, p, c);
    assert before.Some? ==> before.value in t.uniques;
    if c == rw.cond {
      assert LastRewrite(a.nodes, ids, c) == Some(rw.constant);
      assert |a.nodes[c].inputs| > 0 by { assert NodeWellFormed(a.nodes[c], |a.nodes|); }
      SettledAgain(a.nodes[c], before, t.uniques, rw.constant, r.uniques);
    } else {
      assert LastRewrite(a.nodes, ids, c) == before;
      SettledExtends(a.nodes[c], before, t.uniques, r.uniques);
    }
  }

  /** The nodes added up to and including a rewriting iteration are registered constants. */
  lemma RewriteRegisters(a: Arena, ids: seq<NodeId>, t: Arena)
    requires WellFormed(t) && SameShape(a.nodes, t.nodes)
    requires ids != [] && ClosedForm(a, ids[..|ids| - 1], t)
    requires RewriteOf(t.nodes, ids[|ids| - 1]).Some? && RewriteOf(t.nodes, ids[|ids| - 1]).value.cond < |a.nodes|
    ensures var r := Step(t, ids[|ids| - 1]);
      forall i :: |a.nodes| <= i < |r.nodes| ==> Registered(r, i)
  {
    StepEffect(t, ids[|ids| - 1]);
    var r := Step(t, ids[|ids| - 1]);
    forall i | |a.nodes| <= i < |r.nodes| ensures Registered(r, i)
    {
      if i < |t.nodes| {
        assert Registered(t, i);
        assert r.nodes[i] == t.nodes[i];
      }
    }
  }

  /** A constant that was not in the table at entry is registered to a node added since. */
  lemma RewriteFresh(a: Arena, ids: seq<NodeId>, t: Arena)
    requires WellFormed(t) && ids != [] && |a.nodes| <= |t.nodes| && RewriteOf(t.nodes, ids[|ids| - 1]).Some?
    requires forall k :: k in t.uniques && k !in a.uniques ==> |a.nodes| <= t.uniques[k]
    ensures var r := Step(t, ids[|ids| - 1]);
      forall k :: k in r.uniques && k !in a.uniques ==> |a.nodes| <= r.uniques[k]
  {
    var rw := RewriteOf(t.nodes, ids[|ids| - 1]).value;
    assert Step(t, ids[|ids| - 1]).uniques == UniqueF(t, rw.constant).0.uniques;
  }

  /** The loop over `ids` has the closed form. */
  lemma {:induction false} RunClosedForm(a: Arena, ids: seq<NodeId>)
    requires WellFormed(a)
    requires forall j :: 0 <= j < |ids| ==> ids[j] < |a.nodes|
    ensures ClosedForm(a, ids, RunF(a, ids))
    decreases |ids|
  {
    if ids == [] {
      assert RunF(a, ids) == a;
    } else {
      var p := ids[..|ids| - 1];
      assert forall j :: 0 <= j < |p| ==> p[j] == ids[j];
      RunClosedForm(a, p);
      ClosedFormStep(a, ids, RunF(a, p));
    }
  }

  // ---------------------------------------------------------------------------------------------
  // Properties of the whole phase
  // ---------------------------------------------------------------------------------------------

  /** Node `c` after the phase, read off the closed form. */
  lemma PassSettles(a: Arena, c: NodeId)
    requires WellFormed(a) && c < |a.nodes|
    ensures var last := LastRewrite(a.nodes, GuardedIds(a.nodes), c);
      Pass(a).nodes[c] == Settled(a.nodes[c], last, Pass(a).uniques) &&
      (last.Some? ==> last.value in Pass(a).uniques && |a.nodes[c].inputs| > 0)
  {
    var ids := GuardedIds(a.nodes);
    RunClosedForm(a, ids);
    LastRewriteSpec(a.nodes, ids, c);
    assert NodeWellFormed(a.nodes[c], |a.nodes|);
  }

  /** A guarded node of the snapshot whose GuardNode has a recognised condition `c` puts a
      rewrite on `c`. */
  lemma SnapshotTargets(a: Arena, id: NodeId, c: NodeId)
    requires WellFormed(a) && id < |a.nodes| && Targets(a.nodes, id, c)
    ensures LastRewrite(a.nodes, GuardedIds(a.nodes), c).Some?
  {
    var ids := GuardedIds(a.nodes);
    LastRewriteSpec(a.nodes, ids, c);
    var j :| 0 <= j < |ids| && ids[j] == id;
    assert Targets(a.nodes, ids[j], c);
  }

  /** Snapshot stability: the nodes the phase adds are constant nodes, so they are not guarded,
      the guarded nodes are the same afterwards and none of the added nodes would be rewritten. */
  lemma SnapshotStable(a: Arena)
    requires WellFormed(a)
    ensures var r := Pass(a);
      GuardedIds(r.nodes) == GuardedIds(a.nodes) &&
      (forall i :: |a.nodes| <= i < |r.nodes| ==> r.nodes[i].kind.ConstantNode? && RewriteOf(r.nodes, i).None?)
  {
    var ids := GuardedIds(a.nodes);
    RunClosedForm(a, ids);
    var r := Pass(a);
    forall i | |a.nodes| <= i < |r.nodes| ensures r.nodes[i].kind.ConstantNode? {
      assert Registered(r, i);
    }
    GuardedIdsPrefix(r.nodes, |a.nodes|);
    GuardedIdsKinds(a.nodes, r.nodes[..|a.nodes|]);
  }

  /** Guarded ids depend only on the kinds of the nodes. */
  lemma {:induction false} GuardedIdsKinds(x: seq<Node>, y: seq<Node>)
    requires |x| == |y| && forall i :: 0 <= i < |x| ==> x[i].kind == y[i].kind
    ensures GuardedIds(x) == GuardedIds(y)
    decreases |x|
  {
    if x != [] {
      GuardedIdsKinds(x[..|x| - 1], y[..|y| - 1]);
    }
  }

  /** Nodes past `n` that are not guarded do not show up in the snapshot. */
  lemma {:induction false} GuardedIdsPrefix(x: seq<Node>, n: nat)
    requires n <= |x| && forall i :: n <= i < |x| ==> !x[i].kind.GuardedNode?
    ensures GuardedIds(x) == GuardedIds(x[..n])
    decreases |x| - n
  {
    if n < |x| {
      var y := x[..|x| - 1];
      GuardedIdsPrefix(y, n);
      assert y[..n] == x[..n];
    } else {
      assert x[..n] == x;
    }
  }

  /** A condition that some guarded node's GuardNode refers to. */
  ghost predicate GuardsCondition(nodes: seq<Node>, c: NodeId)
  {
    exists j :: 0 <= j < |nodes| && Targets(nodes, j, c)
  }

  /** Frame: node kinds never change; a node that is not a null check or unsigned-below comparison
      referred to by a guarded node's GuardNode keeps its inputs; in the ones that are, only the
      first input may change. Constants already in the table keep their nodes. */
  lemma PassFrame(a: Arena)
    requires WellFormed(a)
    ensures var r := Pass(a);
      SameShape(a.nodes, r.nodes) && Extends(a.uniques, r.uniques) &&
      (forall i :: 0 <= i < |a.nodes| && !GuardsCondition(a.nodes, i) ==> r.nodes[i] == a.nodes[i]) &&
      (forall i :: 0 <= i < |a.nodes| && !a.nodes[i].kind.IsNull? && !a.nodes[i].kind.IntegerBelow? ==>
         r.nodes[i] == a.nodes[i]) &&
      (forall i :: 0 <= i < |a.nodes| ==>
         |r.nodes[i].inputs| == |a.nodes[i].inputs| &&
         (|a.nodes[i].inputs| > 0 ==> r.nodes[i] == a.nodes[i].(inputs := a.nodes[i].inputs[0 := r.nodes[i].inputs[0]])))
  {
    var r := Pass(a);
    forall i | 0 <= i < |a.nodes|
      ensures !GuardsCondition(a.nodes, i) ==> r.nodes[i] == a.nodes[i]
      ensures !a.nodes[i].kind.IsNull? && !a.nodes[i].kind.IntegerBelow? ==> r.nodes[i] == a.nodes[i]
      ensures |r.nodes[i].inputs| == |a.nodes[i].inputs|
      ensures |a.nodes[i].inputs| > 0 ==> r.nodes[i] == a.nodes[i].(inputs := a.nodes[i].inputs[0 := r.nodes[i].inputs[0]])
    {
      PassFrameAt(a, r, i);
    }
  }

  /** The frame for one node present at entry. */
  lemma PassFrameAt(a: Arena, r: Arena, i: NodeId)
    requires WellFormed(a) && r == Pass(a) && i < |a.nodes|
    ensures !GuardsCondition(a.nodes, i) ==> r.nodes[i] == a.nodes[i]
    ensures !a.nodes[i].kind.IsNull? && !a.nodes[i].kind.IntegerBelow? ==> r.nodes[i] == a.nodes[i]
    ensures |r.nodes[i].inputs| == |a.nodes[i].inputs|
    ensures |a.nodes[i].inputs| > 0 ==> r.nodes[i] == a.nodes[i].(inputs := a.nodes[i].inputs[0 := r.nodes[i].inputs[0]])
  {
    var ids := GuardedIds(a.nodes);
    PassSettles(a, i);
    LastRewriteSpec(a.nodes, ids, i);
    if LastRewrite(a.nodes, ids, i).Some? {
      var j :| 0 <= j < |ids| && Targets(a.nodes, ids[j], i);
      assert Targets(a.nodes, ids[j], i) && ids[j] < |a.nodes|;
    }
  }

  /** Null check: the condition's single input ends as the unique boolean constant requested by
      the guard of the last guarded node, in node order, whose GuardNode refers to it. */
  lemma NullCheckRewritten(a: Arena, id: NodeId, g: NodeId, c: NodeId, negated: bool)
    requires WellFormed(a) && id < |a.nodes| && g < |a.nodes| && c < |a.nodes|
    requires a.nodes[id].kind == GuardedNode(Some(g)) && a.nodes[g].kind == Guard(c, negated)
    requires a.nodes[c].kind == IsNull
    ensures var r := Pass(a);
      var last := LastRewrite(a.nodes, GuardedIds(a.nodes), c);
      last.Some? && last.value.LogicConstant? && last.value in r.uniques &&
      r.nodes[c].kind == IsNull && r.nodes[c].inputs == [r.uniques[last.value]] &&
      r.nodes[r.uniques[last.value]].kind == ConstantNode(last.value)
  {
    assert Targets(a.nodes, id, c);
    SnapshotTargets(a, id, c);
    PassSettles(a, c);
    LastRewriteSpec(a.nodes, GuardedIds(a.nodes), c);
    assert NodeWellFormed(a.nodes[c], |a.nodes|);
  }

  /** Null check, one visit: the condition's single input becomes the unique Contradiction node under
      a negated guard and the unique Tautology node under a non-negated one. */
  lemma NullCheckStep(a: Arena, id: NodeId, g: NodeId, c: NodeId, negated: bool)
    requires WellFormed(a) && id < |a.nodes| && g < |a.nodes| && c < |a.nodes|
    requires a.nodes[id].kind == GuardedNode(Some(g)) && a.nodes[g].kind == Guard(c, negated)
    requires a.nodes[c].kind == IsNull
    ensures var r := Step(a, id);
      var k := if negated then Contradiction else Tautology;
      k in r.uniques && r.nodes[c].kind == IsNull && r.nodes[c].inputs == [r.uniques[k]] &&
      r.nodes[r.uniques[k]].kind == ConstantNode(k)
  {
    var k := if negated then Contradiction else Tautology;
    assert RewriteOf(a.nodes, id) == Some(Rewrite(c, k));
    StepEffect(a, id);
    assert NodeWellFormed(a.nodes[c], |a.nodes|);
  }

  /** Null check: when no guard of the opposite polarity shares the IsNullNode, its input ends as
      Contradiction under a negated guard and as Tautology under a non-negated one. */
  lemma NullCheckPolarity(a: Arena, id: NodeId, g: NodeId, c: NodeId, negated: bool)
    requires WellFormed(a) && id < |a.nodes| && g < |a.nodes| && c < |a.nodes|
    requires a.nodes[id].kind == GuardedNode(Some(g)) && a.nodes[g].kind == Guard(c, negated)
    requires a.nodes[c].kind == IsNull
    requires forall j: NodeId, h: NodeId ::
      (j < |a.nodes| && a.nodes[j].kind == GuardedNode(Some(h)) && h < |a.nodes| &&
       a.nodes[h].kind.Guard? && a.nodes[h].kind.condition == c) ==> a.nodes[h].kind.negated == negated
    ensures var r := Pass(a);
      var k := if negated then Contradiction else Tautology;
      k in r.uniques && r.nodes[c].inputs == [r.uniques[k]] && r.nodes[r.uniques[k]].kind == ConstantNode(k)
  {
    var k := if negated then Contradiction else Tautology;
    var ids := GuardedIds(a.nodes);
    NullCheckRewritten(a, id, g, c, negated);
    forall j | 0 <= j < |ids| && Targets(a.nodes, ids[j], c)
      ensures RewriteOf(a.nodes, ids[j]).value.constant == k
    {
      var h := a.nodes[ids[j]].kind.guard.value;
      assert a.nodes[ids[j]].kind == GuardedNode(Some(h));
    }
    LastRewriteUniform(a.nodes, ids, c, k);
  }

  /** Bounds check: whatever the guard's polarity, the unsigned-below comparison's left operand
      ends as the unique constant Integer.MAX_VALUE (shared by every bounds check the phase
      rewrites) and its right operand is left alone. */
  lemma BoundsCheckRewritten(a: Arena, id: NodeId, g: NodeId, c: NodeId, negated: bool)
    requires WellFormed(a) && id < |a.nodes| && g < |a.nodes| && c < |a.nodes|
    requires a.nodes[id].kind == GuardedNode(Some(g)) && a.nodes[g].kind == Guard(c, negated)
    requires a.nodes[c].kind == IntegerBelow
    ensures var r := Pass(a);
      var k := IntConstant(IntMaxValue);
      k in r.uniques && r.nodes[c].kind == IntegerBelow &&
      r.nodes[c].inputs == [r.uniques[k], a.nodes[c].inputs[1]] &&
      r.nodes[r.uniques[k]].kind == ConstantNode(k)
  {
    assert Targets(a.nodes, id, c);
    SnapshotTargets(a, id, c);
    PassSettles(a, c);
    LastRewriteSpec(a.nodes, GuardedIds(a.nodes), c);
    assert NodeWellFormed(a.nodes[c], |a.nodes|);
  }

  /** Deduplication: the phase adds exactly one node for each requested constant that the table
      lacked, registered under that constant; the added nodes hold pairwise distinct constants, none
      of which was in the table; and the only constants requested are Tautology, Contradiction and
      Integer.MAX_VALUE. */
  lemma PassConstants(a: Arena)
    requires WellFormed(a)
    ensures var r := Pass(a);
      var requested := Requested(a.nodes, GuardedIds(a.nodes));
      requested <= {Tautology, Contradiction, IntConstant(IntMaxValue)} &&
      r.uniques.Keys == a.uniques.Keys + requested &&
      (forall i :: |a.nodes| <= i < |r.nodes| ==>
         r.nodes[i].kind.ConstantNode? && r.nodes[i].kind.constant in requested - a.uniques.Keys) &&
      (forall i, j :: |a.nodes| <= i < j < |r.nodes| ==> r.nodes[i].kind != r.nodes[j].kind) &&
      (forall k :: k in requested - a.uniques.Keys ==>
         |a.nodes| <= r.uniques[k] < |r.nodes| && r.nodes[r.uniques[k]] == Node(ConstantNode(k), [])) &&
      |r.nodes| - |a.nodes| == |requested - a.uniques.Keys|
  {
    var ids := GuardedIds(a.nodes);
    var r := Pass(a);
    var missing := Requested(a.nodes, ids) - a.uniques.Keys;
    RunClosedForm(a, ids);
    RequestedConstants(a.nodes, ids);
    AddedConstants(a, ids, r);
    var added := r.nodes[|a.nodes|..];
    DistinctConstantsBound(added, missing);
    forall k | k in missing
      ensures exists i :: 0 <= i < |added| && added[i].kind == ConstantNode(k)
      ensures |a.nodes| <= r.uniques[k] < |r.nodes| && r.nodes[r.uniques[k]] == Node(ConstantNode(k), [])
    {
      assert Registered(r, r.uniques[k]);
      assert added[r.uniques[k] - |a.nodes|] == r.nodes[r.uniques[k]];
    }
    CoverBound(added, missing);
  }

  /** Constant nodes that together hold every member of `s` are at least as many as `s` has members. */
  lemma {:induction false} CoverBound(xs: seq<Node>, s: set<Constant>)
    requires forall k :: k in s ==> exists i :: 0 <= i < |xs| && xs[i].kind == ConstantNode(k)
    ensures |s| <= |xs|
    decreases |xs|
  {
    if xs == [] {
      assert s == {};
    } else {
      var rest := xs[1..];
      var t := if xs[0].kind.ConstantNode? then s - {xs[0].kind.constant} else s;
      forall k | k in t ensures exists i :: 0 <= i < |rest| && rest[i].kind == ConstantNode(k) {
        var i :| 0 <= i < |xs| && xs[i].kind == ConstantNode(k);
        assert rest[i - 1] == xs[i];
      }
      CoverBound(rest, t);
    }
  }

  /** The nodes the closed form adds are distinct constants that were requested and missing. */
  lemma AddedConstants(a: Arena, ids: seq<NodeId>, r: Arena)
    requires WellFormed(a) && Extends(a.uniques, r.uniques) && ClosedForm(a, ids, r)
    ensures forall i :: |a.nodes| <= i < |r.nodes| ==>
      r.nodes[i].kind.ConstantNode? && r.nodes[i].kind.constant in Requested(a.nodes, ids) - a.uniques.Keys
    ensures forall i, j :: |a.nodes| <= i < j < |r.nodes| ==> r.nodes[i].kind != r.nodes[j].kind
  {
    forall i | |a.nodes| <= i < |r.nodes|
      ensures r.nodes[i].kind.ConstantNode? && r.nodes[i].kind.constant in Requested(a.nodes, ids) - a.uniques.Keys
    {
      assert Registered(r, i);
    }
    forall i, j | |a.nodes| <= i < j < |r.nodes| ensures r.nodes[i].kind != r.nodes[j].kind {
      assert Registered(r, i) && Registered(r, j);
    }
  }

  /** The three constants are the only ones a rewrite asks for. */
  lemma {:induction false} RequestedConstants(nodes: seq<Node>, ids: seq<NodeId>)
    ensures Requested(nodes, ids) <= {Tautology, Contradiction, IntConstant(IntMaxValue)}
    decreases |ids|
  {
    if ids != [] {
      RequestedConstants(nodes, ids[..|ids| - 1]);
    }
  }

  /** Constant nodes with pairwise distinct values drawn from `s` are no more than `s` has members. */
  lemma {:induction false} DistinctConstantsBound(xs: seq<Node>, s: set<Constant>)
    requires forall i :: 0 <= i < |xs| ==> xs[i].kind.ConstantNode? && xs[i].kind.constant in s
    requires forall i, j :: 0 <= i < j < |xs| ==> xs[i].kind != xs[j].kind
    ensures |xs| <= |s|
    decreases |xs|
  {
    if xs != [] {
      var k := xs[0].kind.constant;
      var rest := xs[1..];
      assert forall i :: 0 <= i < |rest| ==> rest[i] == xs[i + 1];
      DistinctConstantsBound(rest, s - {k});
    }
  }

  /** A second run finds every constant it asks for already in the table, so it adds nothing. */
  lemma SecondRunAddsNothing(a: Arena)
    requires WellFormed(a)
    ensures Pass(Pass(a)).uniques == Pass(a).uniques && |Pass(Pass(a)).nodes| == |Pass(a).nodes|
  {
    var ids := GuardedIds(a.nodes);
    var s1 := Pass(a);
    RunClosedForm(a, ids);
    SnapshotStable(a);
    assert Pass(s1) == RunF(s1, ids);
    ShapeAgnostic(a, s1.nodes, ids);
    RunClosedForm(s1, ids);
    NothingMissing(s1, ids, RunF(s1, ids));
  }

  /** The closed form of a loop whose every requested constant is already in the table. */
  lemma NothingMissing(s: Arena, ids: seq<NodeId>, r: Arena)
    requires WellFormed(s) && ClosedForm(s, ids, r) && Extends(s.uniques, r.uniques)
    requires Requested(s.nodes, ids) <= s.uniques.Keys
    ensures r.uniques == s.uniques && |r.nodes| == |s.nodes|
  {
    assert r.uniques.Keys == s.uniques.Keys;
    AddedConstants(s, ids, r);
    NoneAdded(s, r, Requested(s.nodes, ids) - s.uniques.Keys);
  }

  /** When the constants the added nodes may hold are none, no node was added. */
  lemma NoneAdded(s: Arena, r: Arena, missing: set<Constant>)
    requires |s.nodes| <= |r.nodes| && missing == {}
    requires forall i :: |s.nodes| <= i < |r.nodes| ==>
      r.nodes[i].kind.ConstantNode? && r.nodes[i].kind.constant in missing
    requires forall i, j :: |s.nodes| <= i < j < |r.nodes| ==> r.nodes[i].kind != r.nodes[j].kind
    ensures |r.nodes| == |s.nodes|
  {
    var added := r.nodes[|s.nodes|..];
    assert forall i :: 0 <= i < |added| ==> added[i] == r.nodes[|s.nodes| + i];
    DistinctConstantsBound(added, missing);
  }

  /** Idempotence: running the phase on its own output changes nothing. */
  lemma Idempotent(a: Arena)
    requires WellFormed(a)
    ensures Pass(Pass(a)) == Pass(a)
  {
    var ids := GuardedIds(a.nodes);
    var s1 := Pass(a);
    var s2 := Pass(s1);
    SecondRunAddsNothing(a);
    SnapshotStable(a);
    ShapeAgnostic(a, s1.nodes, ids);
    forall c | 0 <= c < |s1.nodes| ensures s2.nodes[c] == s1.nodes[c]
    {
      SettledTwice(a, c);
    }
  }

  /** One node of the second run's output: the rewrite it gets again is the one it already has. */
  lemma SettledTwice(a: Arena, c: NodeId)
    requires WellFormed(a) && c < |Pass(a).nodes|
    requires Pass(Pass(a)).uniques == Pass(a).uniques
    requires GuardedIds(Pass(a).nodes) == GuardedIds(a.nodes)
    requires LastRewrite(Pass(a).nodes, GuardedIds(a.nodes), c) == LastRewrite(a.nodes, GuardedIds(a.nodes), c)
    requires c >= |a.nodes| ==> Pass(a).nodes[c].kind.ConstantNode?
    ensures Pass(Pass(a)).nodes[c] == Pass(a).nodes[c]
  {
    PassSettles(Pass(a), c);
    if c < |a.nodes| {
      SettledOriginal(a, Pass(a), c);
    } else {
      LastRewriteSpec(Pass(a).nodes, GuardedIds(a.nodes), c);
    }
  }

  /** An original node after the pass is already settled on its last rewrite. */
  lemma SettledOriginal(a: Arena, s1: Arena, c: NodeId)
    requires WellFormed(a) && c < |a.nodes| && s1 == Pass(a)
    ensures var last := LastRewrite(a.nodes, GuardedIds(a.nodes), c);
      Settled(s1.nodes[c], last, s1.uniques) == s1.nodes[c]
  {
    PassSettles(a, c);
  }
}
