/** Concrete graphs run through the phase's specification. */
module ExceptionCheckingEliminationScenarios {
  import opened IrGraph
  import opened ExceptionCheckingElimination
  import opened ExceptionCheckingEliminationProperties

  /** Two guarded nodes, 4 and 5, whose GuardNodes (2 and 3) share the null check 1 on value 0;
      guard 2 is non-negated and guard 3 is negated, or the other way round when `swapped`. */
  function SharedNullCheck(swapped: bool): (a: Arena)
    ensures WellFormed(a)
  {
    Arena([Node(Other, []),
           Node(IsNull, [0]),
           Node(Guard(1, swapped), []),
           Node(Guard(1, !swapped), []),
           Node(GuardedNode(Some(2)), []),
           Node(GuardedNode(Some(3)), [])],
          map[])
  }

  /** The snapshot of these graphs visits 4 and then 5. */
  lemma SharedNullCheckSnapshot(swapped: bool)
    ensures GuardedIds(SharedNullCheck(swapped).nodes) == [4, 5]
  {
    var nodes := SharedNullCheck(swapped).nodes;
    assert GuardedIds(nodes[..0]) == [];
    SnapshotUnguarded(nodes, 0);
    SnapshotUnguarded(nodes, 1);
    SnapshotUnguarded(nodes, 2);
    SnapshotUnguarded(nodes, 3);
    assert nodes[..5][..4] == nodes[..4];
    assert nodes[..6][..5] == nodes[..5];
    assert nodes[..6] == nodes;
  }

  /** An unguarded node does not extend the snapshot. */
  lemma SnapshotUnguarded(nodes: seq<Node>, k: nat)
    requires k < |nodes| && !nodes[k].kind.GuardedNode?
    ensures GuardedIds(nodes[..k + 1]) == GuardedIds(nodes[..k])
  {
    assert nodes[..k + 1][..k] == nodes[..k];
  }

  /** Visiting node 4 (guard 2) puts guard 2's constant on the null check, as the new node 6. */
  lemma SharedNullCheckFirstVisit(swapped: bool)
    ensures var a := SharedNullCheck(swapped);
      var t := Step(a, 4);
      var first := if swapped then Contradiction else Tautology;
      |t.nodes| == 7 && t.uniques.Keys == {first} && t.uniques[first] == 6 &&
      t.nodes[1] == Node(IsNull, [6]) && t.nodes[6] == Node(ConstantNode(first), []) &&
      (forall i :: 0 <= i < 6 && i != 1 ==> t.nodes[i] == a.nodes[i])
  {
    var a := SharedNullCheck(swapped);
    var first := if swapped then Contradiction else Tautology;
    assert RewriteOf(a.nodes, 4) == Some(Rewrite(1, first));
    StepEffect(a, 4);
    assert |UniqueF(a, first).0.nodes| == 7;
  }

  /** The pass over these graphs is the loop body for node 4 followed by the one for node 5. */
  lemma SharedNullCheckPass(swapped: bool)
    ensures var a := SharedNullCheck(swapped);
      Pass(a) == Step(Step(a, 4), 5)
  {
    SharedNullCheckSnapshot(swapped);
    assert [4, 5][..1] == [4] && [4][..0] == [];
  }

  /** Visiting node 5 (guard 3) then puts guard 3's constant on the null check, as the new node 7. */
  lemma SharedNullCheckSecondVisit(swapped: bool)
    ensures var t := Step(SharedNullCheck(swapped), 4);
      var r := Step(t, 5);
      var second := if swapped then Tautology else Contradiction;
      |r.nodes| == 8 && r.nodes[1].inputs == [7] && r.nodes[7] == Node(ConstantNode(second), []) &&
      r.nodes[6] == t.nodes[6]
  {
    var t := Step(SharedNullCheck(swapped), 4);
    var second := if swapped then Tautology else Contradiction;
    SharedNullCheckFirstVisit(swapped);
    assert RewriteOf(t.nodes, 5) == Some(Rewrite(1, second));
    StepEffect(t, 5);
    assert |UniqueF(t, second).0.nodes| == 8;
  }

  /** The rewrites of the two guards do not commute: the one visited last decides the null
      check's input. With guard 2 non-negated, guarded node 4 still ends with Contradiction on its
      condition, because node 5's negated guard is visited after it; swapping the polarities
      gives Tautology. */
  lemma SharedNullCheckLastWins(swapped: bool)
    ensures var r := Pass(SharedNullCheck(swapped));
      var k := if swapped then Tautology else Contradiction;
      |r.nodes| == 8 && r.nodes[1].inputs == [7] && r.nodes[7] == Node(ConstantNode(k), []) &&
      r.nodes[6] == Node(ConstantNode(if swapped then Contradiction else Tautology), [])
  {
    SharedNullCheckPass(swapped);
    SharedNullCheckFirstVisit(swapped);
    SharedNullCheckSecondVisit(swapped);
  }
}
