# ExceptionCheckingElimination, modelled in Dafny

TornadoVM's `ExceptionCheckingElimination` is a Graal mid-tier phase that neutralises the
exception checks a kernel does not want: null checks and array-bounds checks. It takes a snapshot
of the graph's `GuardedNode`s. For each one whose guard is a `GuardNode`, it rewrites the first
input of the guard's condition:

- an `IsNullNode` gets the unique `LogicConstantNode` contradiction under a negated guard, and
  tautology otherwise;
- an `IntegerBelowNode` gets the unique integer constant `Integer.MAX_VALUE` (2147483647) as its
  left operand `x`, whatever the guard's polarity;
- any other condition, and any guarded node without a `GuardNode`, is left alone.

The model has four files:

- `graph.dfy` (module `IrGraph`): the part of the IR graph the phase touches, as an arena.
  Nodes are addressed by index and carry a kind and a sequence of input edges. The graph also
  holds its table of value-numbered constant nodes. The mutable `Graph` class has
  `Unique` (`graph.unique` / `addOrUnique`) and `ReplaceFirstInput`
  (`Node.replaceFirstInput`). Both are proved against pure functions on the arena value.
- `exception_checking_elimination.dfy` (module `ExceptionCheckingElimination`): the phase.
  `GuardedSnapshot` is the filter-and-snapshot loop. `Visit` is the body of the `forEach` lambda.
  `Run` is `run` itself. Each method is proved equal to a function: `GuardedIds`, `Step`, and
  `Pass` (the fold of `Step` over the snapshot).
- `properties.dfy` (module `ExceptionCheckingEliminationProperties`): what the phase guarantees,
  proved about `Pass`. This includes a closed form of the whole loop (`RunClosedForm`), from
  which the per-shape results, the frame, deduplication and idempotence follow.
- `scenarios.dfy` (module `ExceptionCheckingEliminationScenarios`): a concrete graph showing
  that the visit order matters.

In the model, a `GuardedNode`'s reference to its guard is a field of the node kind, and so is a
`GuardNode`'s reference to its condition; in Graal both are input edges. `replaceFirstInput` only
ever acts on the input list of an `IsNullNode` (`[value]`) or an `IntegerBelowNode` (`[x, y]`),
and those lists are kept as input lists.

### Visit order

One might expect the rewrites to be local to their guards and to commute, so that the visit order
does not matter. The code does not meet that expectation in two ways.

- The ids of the constant nodes the pass adds depend on the order in which the constants are
  first requested.
- Two `GuardNode`s of opposite polarity can share one `IsNullNode`, which value numbering makes
  possible. Both guards then rewrite the same input slot, and the guard of the guarded node
  visited last decides the constant. `ExceptionCheckingEliminationScenarios.SharedNullCheckLastWins` exhibits this on a
  six-node graph.

The model follows the code and visits the snapshot in node order. `NullCheckStep` states the
polarity choice for a single visit, with no other assumption. `NullCheckRewritten` states the
result of the whole pass: the constant left is the one requested by the guard of the last guarded
node, in node order, whose GuardNode refers to the check.
`NullCheckPolarity` gives the polarity result for the whole pass when no `GuardNode` of the other
polarity refers to the same check. Idempotence still holds (`Idempotent`), because a second run
visits the same guarded nodes in the same order.

## Model

| member | source | states |
|---|---|---|
| IrGraph.Graph.Unique | tornado-drivers/drivers-common/src/main/java/uk/ac/manchester/tornado/drivers/common/compiler/phases/guards/ExceptionCheckingElimination.java:62-69 | the node registered for the constant is returned; if there is none, a fresh constant node is appended and registered; the table keeps every entry and gains exactly this key (through UniqueF's contract) |
| IrGraph.UniqueIdempotent | tornado-drivers/drivers-common/src/main/java/uk/ac/manchester/tornado/drivers/common/compiler/phases/guards/ExceptionCheckingElimination.java:69 | asking twice for the same constant returns the same node and adds nothing; the node count grows by at most one |
| IrGraph.ReplaceFirst | tornado-drivers/drivers-common/src/main/java/uk/ac/manchester/tornado/drivers/common/compiler/phases/guards/ExceptionCheckingElimination.java:62-69 | the first slot holding `from` now holds `to`; with no such slot the list is unchanged |
| IrGraph.Graph.ReplaceFirstInput | tornado-drivers/drivers-common/src/main/java/uk/ac/manchester/tornado/drivers/common/compiler/phases/guards/ExceptionCheckingElimination.java:62-69 | only node `n`'s inputs change, as ReplaceFirst says; its kind, every other node and the constant table are untouched; the graph stays well formed |
| ExceptionCheckingElimination.GuardedIds | tornado-drivers/drivers-common/src/main/java/uk/ac/manchester/tornado/drivers/common/compiler/phases/guards/ExceptionCheckingElimination.java:52 | the snapshot lists exactly the guarded nodes, each once, in increasing node order |
| ExceptionCheckingElimination.GuardedSnapshot | tornado-drivers/drivers-common/src/main/java/uk/ac/manchester/tornado/drivers/common/compiler/phases/guards/ExceptionCheckingElimination.java:52 | the loop's snapshot equals GuardedIds of the graph at entry |
| ExceptionCheckingElimination.RewriteOf | tornado-drivers/drivers-common/src/main/java/uk/ac/manchester/tornado/drivers/common/compiler/phases/guards/ExceptionCheckingElimination.java:53-70 | a rewrite is produced exactly for a guarded node whose guard is a GuardNode with an IsNullNode or IntegerBelowNode condition in the graph; it targets that guard's condition and requests Contradiction for a negated null check, Tautology for a non-negated one, and Integer.MAX_VALUE for a bounds check |
| ExceptionCheckingElimination.Visit | tornado-drivers/drivers-common/src/main/java/uk/ac/manchester/tornado/drivers/common/compiler/phases/guards/ExceptionCheckingElimination.java:53-71 | one lambda call leaves the graph as Step says and keeps it well formed |
| ExceptionCheckingElimination.Run | tornado-drivers/drivers-common/src/main/java/uk/ac/manchester/tornado/drivers/common/compiler/phases/guards/ExceptionCheckingElimination.java:50-73 | the graph afterwards is Pass of the graph before: the loop body folded over the entry snapshot |
| ExceptionCheckingEliminationProperties.StepEffect | tornado-drivers/drivers-common/src/main/java/uk/ac/manchester/tornado/drivers/common/compiler/phases/guards/ExceptionCheckingElimination.java:54-70 | a skipped node changes nothing; otherwise only the condition's first input changes, to the unique node of the requested constant; at most that constant's node is added, and only if the table lacked it |
| ExceptionCheckingEliminationProperties.SkipWithoutGuardNode | tornado-drivers/drivers-common/src/main/java/uk/ac/manchester/tornado/drivers/common/compiler/phases/guards/ExceptionCheckingElimination.java:54 | a guarded node whose guard is absent or is not a GuardNode leaves the graph unchanged |
| ExceptionCheckingEliminationProperties.SkipOtherCondition | tornado-drivers/drivers-common/src/main/java/uk/ac/manchester/tornado/drivers/common/compiler/phases/guards/ExceptionCheckingElimination.java:56-70 | a GuardNode condition that is neither an IsNullNode nor an IntegerBelowNode leaves the graph unchanged, for either polarity |
| ExceptionCheckingEliminationProperties.BoundsRewriteIgnoresNegation | tornado-drivers/drivers-common/src/main/java/uk/ac/manchester/tornado/drivers/common/compiler/phases/guards/ExceptionCheckingElimination.java:67-69 | flipping the guard's negation flag gives the same rewritten bounds check |
| ExceptionCheckingEliminationProperties.LastRewriteSpec | tornado-drivers/drivers-common/src/main/java/uk/ac/manchester/tornado/drivers/common/compiler/phases/guards/ExceptionCheckingElimination.java:52-70 | some rewrite targets a condition exactly when a snapshotted node's GuardNode refers to it and the condition is an IsNullNode or an IntegerBelowNode; a null check then gets a boolean constant and a bounds check Integer.MAX_VALUE; the constant is one of those requested
| ExceptionCheckingEliminationProperties.RunClosedForm | tornado-drivers/drivers-common/src/main/java/uk/ac/manchester/tornado/drivers/common/compiler/phases/guards/ExceptionCheckingElimination.java:52-72 | after the loop, each original node's first input is the constant of the last rewrite aimed at it; the table gains exactly the requested constants, each registered to an added node; every added node is a registered constant node
| ExceptionCheckingEliminationProperties.SnapshotStable | tornado-drivers/drivers-common/src/main/java/uk/ac/manchester/tornado/drivers/common/compiler/phases/guards/ExceptionCheckingElimination.java:52 | all added nodes are constant nodes that are neither guarded nor rewritten; the guarded nodes after the pass are the ones before it |
| ExceptionCheckingEliminationProperties.PassFrame | tornado-drivers/drivers-common/src/main/java/uk/ac/manchester/tornado/drivers/common/compiler/phases/guards/ExceptionCheckingElimination.java:56-70 | node kinds never change; nodes other than a GuardNode's recognised condition keep their inputs; e.g. guarded nodes, guards and unrelated nodes are untouched; in a rewritten condition only the first input changes; existing table entries are kept |
| ExceptionCheckingEliminationProperties.NullCheckStep | tornado-drivers/drivers-common/src/main/java/uk/ac/manchester/tornado/drivers/common/compiler/phases/guards/ExceptionCheckingElimination.java:58-65 | one visit of a guarded node whose GuardNode has a null-check condition sets that check's single input to the unique Contradiction node if the guard is negated and to the unique Tautology node otherwise |
| ExceptionCheckingEliminationProperties.NullCheckRewritten | tornado-drivers/drivers-common/src/main/java/uk/ac/manchester/tornado/drivers/common/compiler/phases/guards/ExceptionCheckingElimination.java:58-65 | a null check under a snapshotted guard ends with a single input: the unique boolean constant requested by the guard of the last guarded node, in node order, whose GuardNode refers to the check |
| ExceptionCheckingEliminationProperties.NullCheckPolarity | tornado-drivers/drivers-common/src/main/java/uk/ac/manchester/tornado/drivers/common/compiler/phases/guards/ExceptionCheckingElimination.java:58-65 | when every GuardNode referring to the null check has the same polarity, its input ends as the contradiction constant under a negated guard and as the tautology constant under a non-negated one |
| ExceptionCheckingEliminationProperties.BoundsCheckRewritten | tornado-drivers/drivers-common/src/main/java/uk/ac/manchester/tornado/drivers/common/compiler/phases/guards/ExceptionCheckingElimination.java:67-69 | a bounds check ends with inputs [Integer.MAX_VALUE node, original y], whatever the polarity, and stays an IntegerBelowNode |
| ExceptionCheckingEliminationProperties.PassConstants | tornado-drivers/drivers-common/src/main/java/uk/ac/manchester/tornado/drivers/common/compiler/phases/guards/ExceptionCheckingElimination.java:62-69 | only Tautology, Contradiction and Integer.MAX_VALUE are requested; each requested constant missing from the table is registered to a fresh constant node, and exactly one node is added per such constant, with pairwise distinct values
| ExceptionCheckingEliminationProperties.SecondRunAddsNothing | tornado-drivers/drivers-common/src/main/java/uk/ac/manchester/tornado/drivers/common/compiler/phases/guards/ExceptionCheckingElimination.java:52-72 | a second run adds no node and no table entry |
| ExceptionCheckingEliminationProperties.Idempotent | tornado-drivers/drivers-common/src/main/java/uk/ac/manchester/tornado/drivers/common/compiler/phases/guards/ExceptionCheckingElimination.java:52-72 | running the phase on its own output gives the same graph |
| ExceptionCheckingEliminationScenarios.SharedNullCheckSnapshot | tornado-drivers/drivers-common/src/main/java/uk/ac/manchester/tornado/drivers/common/compiler/phases/guards/ExceptionCheckingElimination.java:52 | the example graph's snapshot is [4, 5] |
| ExceptionCheckingEliminationScenarios.SharedNullCheckLastWins | tornado-drivers/drivers-common/src/main/java/uk/ac/manchester/tornado/drivers/common/compiler/phases/guards/ExceptionCheckingElimination.java:52-65 | on the six-node example graph SharedNullCheck, where two opposite-polarity guards share one null check, both constants are added and the check ends on the constant of the guard of guarded node 5, which is visited last

## Left out

- Graal's `StructuredGraph`, node usage lists and edge bookkeeping are not modelled. That library is not part of this model; the graph is an arena of nodes with input lists and a constant table.
- `notApplicableTo` / `ALWAYS_APPLICABLE` (lines 41-44) is a constant that concerns scheduling, not the rewrite.
- The `TornadoMidTierContext` parameter is not used by `run` and is not modelled.
- Downstream constant folding is not modelled. Neither is what the rewritten conditions evaluate to (for example, that a bounds check with `x` = MAX_VALUE no longer traps). The phase only replaces operands.
- Concurrency is not modelled; the phase is single-threaded.
- The cast `(GuardedNode) node` cannot fail on a snapshot of `GuardedNode`s. `Visit` therefore requires a guarded node, and `Run` only calls it with snapshot entries.
- Node kinds outside the ones the phase distinguishes are collapsed into `Other`. The model fixes the input count only of the two condition shapes and of constant nodes, which have none.
- The references from a `GuardedNode` to its guard and from a `GuardNode` to its condition are input edges in Graal; the model keeps them as fields of the node kind, outside the input lists. This does not change behaviour, because `replaceFirstInput` is only applied to an IsNullNode or IntegerBelowNode, whose input lists the model keeps.
- NullCheckPolarity: requires that every GuardNode whose condition is this IsNullNode, and that a guarded node refers to, has the same negation flag as the given one. Without that, the constant is the one requested by the guard of the last guarded node whose GuardNode refers to the check, as NullCheckRewritten states and SharedNullCheckLastWins shows.
