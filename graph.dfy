/** An arena model of the part of a compiler IR graph that the guard-elimination pass touches:
    nodes addressed by index, each with a kind and a sequence of input edges, and the graph's
    table of value-numbered ("unique") constant nodes. */
module IrGraph {

  datatype Option<T> = None | Some(value: T)

  /** Nodes are addressed by their position in the arena. */
  type NodeId = nat

  /** The value of a deduplicated constant node. */
  datatype Constant = LogicConstant(truth: bool) | IntConstant(number: int)

  /** The boolean constant that is always true. */
  const Tautology: Constant := LogicConstant(true)
  /** The boolean constant that is always false. */
  const Contradiction: Constant := LogicConstant(false)
  /** Java's Integer.MAX_VALUE. */
  const IntMaxValue: int := 0x7fff_ffff

  /** The node roles the pass distinguishes. The operands of the two recognised condition
      shapes are the node's inputs, in declaration order (IsNull: [value]; IntegerBelow: [x, y]).
      A guard's condition and a guarded node's guard are named references. */
  datatype Kind =
    | IsNull
    | IntegerBelow
    | Guard(condition: NodeId, negated: bool)
    | GuardedNode(guard: Option<NodeId>)
    | ConstantNode(constant: Constant)
    | Other

  datatype Node = Node(kind: Kind, inputs: seq<NodeId>)

  /** The whole graph as a value: its nodes and its unique-constant table. */
  datatype Arena = Arena(nodes: seq<Node>, uniques: map<Constant, NodeId>)

  /** Every reference held by `n` points into an arena of `size` nodes, and the node has the
      number of inputs its class declares. */
  ghost predicate NodeWellFormed(n: Node, size: nat)
  {
    (forall e :: e in n.inputs ==> e < size) &&
    match n.kind
    case IsNull => |n.inputs| == 1
    case IntegerBelow => |n.inputs| == 2
    case Guard(c, _) => c < size
    case GuardedNode(g) => g.Some? ==> g.value < size
    case ConstantNode(_) => |n.inputs| == 0
    case Other => true
  }

  /** No dangling edges, and every entry of the unique table names a constant node of that value. */
  ghost predicate WellFormed(a: Arena)
  {
    (forall i :: 0 <= i < |a.nodes| ==> NodeWellFormed(a.nodes[i], |a.nodes|)) &&
    (forall k :: k in a.uniques ==> a.uniques[k] < |a.nodes| && a.nodes[a.uniques[k]].kind == ConstantNode(k))
  }

  /** `b` keeps every node of `a`, with the same kind, and possibly has more nodes. */
  ghost predicate SameShape(a: seq<Node>, b: seq<Node>)
  {
    |a| <= |b| && forall i :: 0 <= i < |a| ==> b[i].kind == a[i].kind
  }

  /** Table `v` keeps every entry of table `u`. */
  ghost predicate Extends(u: map<Constant, NodeId>, v: map<Constant, NodeId>)
  {
    forall k :: k in u ==> k in v && v[k] == u[k]
  }

  /** The position of the first occurrence of `x` in `s`. */
  function IndexOf(s: seq<NodeId>, x: NodeId): (i: nat)
    requires x in s
    ensures i < |s| && s[i] == x && x !in s[..i]
  {
    if s[0] == x then 0 else IndexOf(s[1..], x) + 1
  }

  /** Graal's replaceFirstInput on an input list: the first slot that holds `from` now holds `to`;
      when no slot holds `from`, nothing changes. */
  function ReplaceFirst(s: seq<NodeId>, from: NodeId, to: NodeId): (r: seq<NodeId>)
    ensures from in s ==> r == s[IndexOf(s, from) := to]
    ensures from !in s ==> r == s
  {
    if s == [] then []
    else if s[0] == from then [to] + s[1..]
    else [s[0]] + ReplaceFirst(s[1..], from, to)
  }

  /** Replacing the first input by itself-as-key rewrites exactly slot 0. */
  lemma ReplaceHead(s: seq<NodeId>, to: NodeId)
    requires |s| > 0
    ensures ReplaceFirst(s, s[0], to) == s[0 := to]
  {
    assert [to] + s[1..] == s[0 := to];
  }

  /** graph.unique(c) / graph.addOrUnique(c): the node registered for `c`, or a new constant node
      appended and registered when there is none. */
  function UniqueF(a: Arena, c: Constant): (r: (Arena, NodeId))
    requires WellFormed(a)
    ensures WellFormed(r.0)
    ensures r.1 < |r.0.nodes| && r.0.nodes[r.1].kind == ConstantNode(c)
    ensures c in r.0.uniques && r.0.uniques[c] == r.1
    ensures r.0.uniques.Keys == a.uniques.Keys + {c} && Extends(a.uniques, r.0.uniques)
    ensures c in a.uniques ==> r.0 == a
    ensures c !in a.uniques ==>
      r.1 == |a.nodes| && r.0.nodes == a.nodes + [Node(ConstantNode(c), [])]
  {
    if c in a.uniques then (a, a.uniques[c])
    else
      var id := |a.nodes|;
      var nodes := a.nodes + [Node(ConstantNode(c), [])];
      assert forall i :: 0 <= i < |a.nodes| ==> nodes[i] == a.nodes[i];
      (Arena(nodes, a.uniques[c := id]), id)
  }

  /** Deduplication: asking twice for the same constant gives the same node and adds nothing. */
  lemma UniqueIdempotent(a: Arena, c: Constant)
    requires WellFormed(a)
    ensures UniqueF(UniqueF(a, c).0, c) == UniqueF(a, c)
    ensures |UniqueF(a, c).0.nodes| <= |a.nodes| + 1
  {
  }

  /** condition.replaceFirstInput(from, to) on node `n`; every other node is untouched. */
  function ReplaceInputF(a: Arena, n: NodeId, from: NodeId, to: NodeId): (r: Arena)
    requires WellFormed(a) && n < |a.nodes| && to < |a.nodes|
    ensures WellFormed(r)
    ensures |r.nodes| == |a.nodes| && r.uniques == a.uniques
    ensures r.nodes[n].kind == a.nodes[n].kind
    ensures r.nodes[n].inputs == ReplaceFirst(a.nodes[n].inputs, from, to)
    ensures forall i :: 0 <= i < |a.nodes| && i != n ==> r.nodes[i] == a.nodes[i]
  {
    var node := a.nodes[n];
    var inputs := ReplaceFirst(node.inputs, from, to);
    ReplaceFirstMembers(node.inputs, from, to);
    assert NodeWellFormed(node, |a.nodes|);
    assert NodeWellFormed(node.(inputs := inputs), |a.nodes|);
    Arena(a.nodes[n := node.(inputs := inputs)], a.uniques)
  }

  /** Replacing keeps the length, and every entry afterwards was there before or is `to`. */
  lemma {:induction false} ReplaceFirstMembers(s: seq<NodeId>, from: NodeId, to: NodeId)
    ensures |ReplaceFirst(s, from, to)| == |s|
    ensures forall e :: e in ReplaceFirst(s, from, to) ==> e in s || e == to
  {
    if s != [] && s[0] != from {
      ReplaceFirstMembers(s[1..], from, to);
    }
  }

  /** The mutable graph the pass borrows: its nodes and its unique-constant table. */
  class Graph {
    var nodes: seq<Node>
    var uniques: map<Constant, NodeId>

    function State(): Arena
      reads this
    {
      Arena(nodes, uniques)
    }

    ghost predicate Valid()
      reads this
    {
      WellFormed(State())
    }

    constructor (nodes: seq<Node>, uniques: map<Constant, NodeId>)
      requires WellFormed(Arena(nodes, uniques))
      ensures Valid() && State() == Arena(nodes, uniques)
    {
      this.nodes := nodes;
      this.uniques := uniques;
    }

    /** Adds or gets the unique constant node for `c`. */
    method Unique(c: Constant) returns (id: NodeId)
      requires Valid()
      modifies this
      ensures Valid()
      ensures (State(), id) == UniqueF(old(State()), c)
    {
      if c in uniques {
        id := uniques[c];
      } else {
        id := |nodes|;
        nodes := nodes + [Node(ConstantNode(c), [])];
        uniques := uniques[c := id];
      }
    }

    /** Node `n`'s first input equal to `from` becomes `to`. */
    method ReplaceFirstInput(n: NodeId, from: NodeId, to: NodeId)
      requires Valid() && n < |nodes| && to < |nodes|
      modifies this
      ensures Valid()
      ensures State() == ReplaceInputF(old(State()), n, from, to)
    {
      ghost var after := ReplaceInputF(State(), n, from, to);
      nodes := nodes[n := nodes[n].(inputs := ReplaceFirst(nodes[n].inputs, from, to))];
      assert State() == after;
    }
  }
}
