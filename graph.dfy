/**
  The computation graph as an arena: a node is addressed by its index in a sequence,
  carries an operator kind, an ordered list of argument nodes, and the element type and
  shape of its (single) output.
*/
module Graph {

  type NodeId = nat

  datatype ElementType = Boolean | F32 | F64 | I8 | I16 | I32 | I64 | U8 | U16 | U32 | U64

  type Shape = seq<nat>

  /** Subclasses of UnaryElementwiseArithmetic that the model uses. */
  datatype UnaryOp = Abs | Negative | Tanh | Exp

  /** Subclasses of BinaryElementwiseArithmetic that the model uses. */
  datatype BinaryOp = Add | Subtract | Multiply | Divide | Maximum | Minimum

  datatype OpKind =
    | Parameter
    | GetOutputElement(index: nat)
    | UnaryArithmetic(unary: UnaryOp)
    | BinaryArithmetic(binary: BinaryOp)
    | Sigmoid
    | Other

  datatype Node = Node(kind: OpKind, args: seq<NodeId>, elementType: ElementType, shape: Shape)

  type Graph = seq<Node>

  /**
    is_fusable: a node takes part in loop-kernel fusion exactly when it is a unary or a
    binary elementwise arithmetic operator.
  */
  predicate IsFusable(g: Graph, n: NodeId)
    requires n < |g|
  {
    g[n].kind.UnaryArithmetic? || g[n].kind.BinaryArithmetic?
  }

  /** `x` takes `a` as one of its arguments. */
  ghost predicate Consumes(g: Graph, x: NodeId, a: NodeId) {
    x < |g| && a in g[x].args
  }

  /** Every listed node is a node of the arena. */
  ghost predicate InArena(g: Graph, order: seq<NodeId>) {
    forall i :: 0 <= i < |order| ==> order[i] < |g|
  }

  /** What Function::get_ordered_ops hands out: nodes of the arena, each listed once. */
  ghost predicate ValidOrder(g: Graph, order: seq<NodeId>) {
    && InArena(g, order)
    && (forall i, j :: 0 <= i < j < |order| ==> order[i] != order[j])
  }

  /** Producers before consumers: every argument of a listed node is listed earlier. */
  ghost predicate IsTopological(g: Graph, order: seq<NodeId>) {
    && ValidOrder(g, order)
    && forall i, k :: 0 <= i < |order| && 0 <= k < |g[order[i]].args| ==> g[order[i]].args[k] in order[..i]
  }

  /** The fusable nodes among those listed in `order`. */
  ghost function FusableIn(g: Graph, order: seq<NodeId>): set<NodeId>
    requires ValidOrder(g, order)
  {
    set i | 0 <= i < |order| && IsFusable(g, order[i]) :: order[i]
  }

  /** Leaves and output selectors never fuse: this is what splits the groups in the test graphs. */
  lemma LeavesAndSelectorsNotFusable(g: Graph, n: NodeId)
    requires n < |g|
    requires g[n].kind == Parameter || g[n].kind.GetOutputElement? || g[n].kind == Sigmoid
    ensures !IsFusable(g, n)
  {
  }
}
