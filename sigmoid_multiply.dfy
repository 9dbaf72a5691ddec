/**
  The fused SigmoidMultiply operator of src/ngraph/runtime/cpu/op/sigmoid_mul.cpp. It
  replaces act_1(x) * act_2(y), where each activation is a Tanh or a (CPU) Sigmoid node, by a
  single node that takes x and y directly and records which activation each one went through.
  The activation nodes live in the arena of module Graph; the fused node is a new object
  outside it whose arguments are arena nodes.
*/
module SigmoidMultiply {
  import opened Wrappers
  import opened Graph

  /** op::SigmoidMultiply::FunctionType. */
  datatype FunctionType = Tanh | Logistic

  /** The exceptions the operator can raise. */
  datatype OpError =
    | Std(exception: Error)           // std::out_of_range from get_argument or NodeVector::at past the end
    | ElementTypeMismatch
    | ShapeMismatch
    | UnsupportedFunction(node: NodeId)
    | WrongArgumentCount

  /** The element type and shape of one output. */
  datatype TensorType = TensorType(elementType: ElementType, shape: Shape)

  /** The observable state of a SigmoidMultiply node: arguments, input_type[0..1], outputs. */
  datatype Fused = Fused(arguments: seq<NodeId>, inputType: seq<FunctionType>, outputs: seq<TensorType>)

  /** The output type of an arena node. */
  function TypeOf(g: Graph, n: NodeId): TensorType
    requires n < |g|
  {
    TensorType(g[n].elementType, g[n].shape)
  }

  /** The operator kind an activation of each function type has. */
  function KindOf(f: FunctionType): OpKind {
    match f
    case Tanh => UnaryArithmetic(UnaryOp.Tanh)
    case Logistic => Sigmoid
  }

  // ---------------------------------------------------------------------------
  // identify_node_fucntion (src/ngraph/runtime/cpu/op/sigmoid_mul.cpp:28-38)
  // ---------------------------------------------------------------------------

  /** The function type of an activation node; any other kind of node is refused. */
  function IdentifyNodeFunction(g: Graph, n: NodeId): (r: Result<FunctionType, OpError>)
    requires n < |g|
    ensures r.Failure? ==> r.error == UnsupportedFunction(n)
  {
    if g[n].kind == UnaryArithmetic(UnaryOp.Tanh) then Success(FunctionType.Tanh)
    else if g[n].kind == Sigmoid then Success(Logistic)
    else Failure(UnsupportedFunction(n))
  }

  /** Classification is exactly the inverse of KindOf: it accepts a node iff it is an activation. */
  lemma {:induction false} IdentifyInvertsKind(g: Graph, n: NodeId, f: FunctionType)
    requires n < |g|
    ensures IdentifyNodeFunction(g, n) == Success(f) <==> g[n].kind == KindOf(f)
    ensures IdentifyNodeFunction(g, n).Failure? <==> g[n].kind != KindOf(FunctionType.Tanh) && g[n].kind != KindOf(Logistic)
  {
  }

  // ---------------------------------------------------------------------------
  // The constructor (src/ngraph/runtime/cpu/op/sigmoid_mul.cpp:40-56)
  // ---------------------------------------------------------------------------

  /** input->get_argument(0): the first argument of an activation node. */
  function ArgumentZero(g: Graph, n: NodeId): (r: Result<NodeId, OpError>)
    requires n < |g|
    ensures r.Success? <==> |g[n].args| > 0
    ensures r.Success? ==> r.value == g[n].args[0]
    ensures r.Failure? ==> r.error == Std(OutOfRange)
  {
    if |g[n].args| == 0 then Failure(Std(OutOfRange)) else Success(g[n].args[0])
  }

  /**
    SigmoidMultiply(input_1, input_2): the base-class initialiser fetches argument 0 of both
    inputs, then element types are compared, then shapes, then input_1 and input_2 are
    classified, and finally the one output is added.
  */
  function Construct(g: Graph, input1: NodeId, input2: NodeId): (r: Result<Fused, OpError>)
    requires input1 < |g| && input2 < |g|
  {
    var x :- ArgumentZero(g, input1);
    var y :- ArgumentZero(g, input2);
    if g[input1].elementType != g[input2].elementType then Failure(ElementTypeMismatch)
    else if g[input1].shape != g[input2].shape then Failure(ShapeMismatch)
    else
      var f1 :- IdentifyNodeFunction(g, input1);
      var f2 :- IdentifyNodeFunction(g, input2);
      Success(Fused([x, y], [f1, f2], [TypeOf(g, input1)]))
  }

  /** Both activations have an argument, agree on element type and shape, and are Tanh or Sigmoid. */
  predicate Acceptable(g: Graph, input1: NodeId, input2: NodeId)
    requires input1 < |g| && input2 < |g|
  {
    && |g[input1].args| > 0 && |g[input2].args| > 0
    && g[input1].elementType == g[input2].elementType
    && g[input1].shape == g[input2].shape
    && IdentifyNodeFunction(g, input1).Success? && IdentifyNodeFunction(g, input2).Success?
  }

  /**
    The constructor succeeds exactly on acceptable inputs, and the node it builds takes the
    activations' own arguments, records input_1's function type first, and has one output
    typed like input_1.
  */
  lemma {:induction false} ConstructBuilds(g: Graph, input1: NodeId, input2: NodeId)
    requires input1 < |g| && input2 < |g|
    ensures Construct(g, input1, input2).Success? <==> Acceptable(g, input1, input2)
    ensures Acceptable(g, input1, input2) ==>
      var f := Construct(g, input1, input2).value;
      && f.arguments == [g[input1].args[0], g[input2].args[0]]
      && f.inputType == [IdentifyNodeFunction(g, input1).value, IdentifyNodeFunction(g, input2).value]
      && g[input1].kind == KindOf(f.inputType[0]) && g[input2].kind == KindOf(f.inputType[1])
      && f.outputs == [TensorType(g[input1].elementType, g[input1].shape)]
  {
    if Acceptable(g, input1, input2) {
      var f := Construct(g, input1, input2).value;
      IdentifyInvertsKind(g, input1, f.inputType[0]);
      IdentifyInvertsKind(g, input2, f.inputType[1]);
    }
  }

  /**
    Which error a rejected pair raises: a missing argument first (input_1 before input_2),
    then an element-type mismatch, then a shape mismatch, then an unsupported input_1, and
    an unsupported input_2 last.
  */
  lemma {:induction false} ConstructErrorOrder(g: Graph, input1: NodeId, input2: NodeId)
    requires input1 < |g| && input2 < |g|
    ensures |g[input1].args| == 0 || |g[input2].args| == 0 ==> Construct(g, input1, input2) == Failure(Std(OutOfRange))
    ensures |g[input1].args| > 0 && |g[input2].args| > 0 ==>
      && (g[input1].elementType != g[input2].elementType ==> Construct(g, input1, input2) == Failure(ElementTypeMismatch))
      && (g[input1].elementType == g[input2].elementType && g[input1].shape != g[input2].shape ==>
            Construct(g, input1, input2) == Failure(ShapeMismatch))
    ensures |g[input1].args| > 0 && |g[input2].args| > 0 && TypeOf(g, input1) == TypeOf(g, input2) ==>
      && (IdentifyNodeFunction(g, input1).Failure? ==> Construct(g, input1, input2) == Failure(UnsupportedFunction(input1)))
      && (IdentifyNodeFunction(g, input1).Success? && IdentifyNodeFunction(g, input2).Failure? ==>
            Construct(g, input1, input2) == Failure(UnsupportedFunction(input2)))
  {
  }

  /**
    The node object. The base class RequiresTensorViewArgs stores the arguments; the body
    of the constructor fills the two-element input_type array and appends the output.
  */
  class SigmoidMultiplyNode {
    var arguments: seq<NodeId>
    const inputType: array<FunctionType>
    var outputs: seq<TensorType>

    /** The state the object shows to the rest of the graph. */
    function View(): Fused
      reads this, inputType
    {
      Fused(arguments, inputType[..], outputs)
    }

    /** RequiresTensorViewArgs(name, args): the arguments are set and there is no output yet. */
    constructor (arguments: seq<NodeId>)
      ensures this.arguments == arguments && outputs == []
      ensures fresh(inputType) && inputType.Length == 2
    {
      this.arguments := arguments;
      inputType := new FunctionType[2];
      outputs := [];
    }

    /**
      copy_with_new_args with the correction of Copy: the arity check, then a node over the
      new arguments that keeps this node's function types.
    */
    method CopyWithNewArgs(g: Graph, newArgs: seq<NodeId>) returns (r: Result<SigmoidMultiplyNode, OpError>)
      requires inputType.Length == 2 && forall k :: 0 <= k < |newArgs| ==> newArgs[k] < |g|
      ensures r.Failure? ==> Copy(g, View(), newArgs) == Failure(r.error)
      ensures r.Success? ==> Copy(g, View(), newArgs) == Success(r.value.View())
      ensures r.Success? ==> fresh(r.value) && fresh(r.value.inputType)
    {
      if |newArgs| != 2 {
        return Failure(WrongArgumentCount);
      }
      var x, y := newArgs[0], newArgs[1];
      if g[x].elementType != g[y].elementType {
        return Failure(ElementTypeMismatch);
      }
      if g[x].shape != g[y].shape {
        return Failure(ShapeMismatch);
      }
      var node := new SigmoidMultiplyNode([x, y]);
      node.inputType[0] := inputType[0];
      node.inputType[1] := inputType[1];
      node.AddOutput(TypeOf(g, x));
      assert node.inputType[..] == inputType[..];
      assert node.View() == Fused([x, y], View().inputType, [TypeOf(g, x)]);
      return Success(node);
    }

    /**
      generate_adjoints: one SigmoidMultiplyBackprop node over both arguments and the first
      delta; its output 0 is added as the delta of argument 0 and its output 1 as the delta
      of argument 1. With no delta, deltas.at(0) throws before anything is added.
    */
    method GenerateAdjoints(adjoints: Adjoints, deltas: seq<NodeId>) returns (r: Result<(), OpError>)
      requires |arguments| == 2
      modifies adjoints
      ensures r.Failure? <==> deltas == []
      ensures r.Failure? ==> r.error == Std(OutOfRange) && adjoints.added == old(adjoints.added)
      ensures r.Success? ==> adjoints.added == old(adjoints.added) + AdjointDeltas(arguments, deltas[0])
    {
      if |deltas| == 0 {
        return Failure(Std(OutOfRange));
      }
      var delta := deltas[0];
      var input0, input1 := arguments[0], arguments[1];
      var backprop := SigmoidMultiplyBackprop(input0, input1, delta);
      var input0Delta := OutputOf(backprop, 0);
      var input1Delta := OutputOf(backprop, 1);
      adjoints.AddDelta(input0, input0Delta);
      adjoints.AddDelta(input1, input1Delta);
      return Success(());
    }

    /** Node::add_output: one more output; the arguments and function types stay. */
    method AddOutput(t: TensorType)
      modifies this
      ensures outputs == old(outputs) + [t]
      ensures arguments == old(arguments)
    {
      outputs := outputs + [t];
    }
  }

  // ---------------------------------------------------------------------------
  // generate_adjoints (src/ngraph/runtime/cpu/op/sigmoid_mul.cpp:68-84)
  // ---------------------------------------------------------------------------

  /** The backprop node generate_adjoints builds; its own constructor is not part of this model. */
  datatype Backprop = SigmoidMultiplyBackprop(input0: NodeId, input1: NodeId, delta: NodeId)

  /** GetOutputElement(backprop, index): the node whose value is one output of the backprop node. */
  datatype DeltaNode = OutputOf(backprop: Backprop, index: nat)

  /** The adjoints accumulator, seen through the add_delta calls made on it. */
  class Adjoints {
    var added: seq<(NodeId, DeltaNode)>

    constructor ()
      ensures added == []
    {
      added := [];
    }

    /** add_delta(x, delta): the call is recorded after all earlier ones. */
    method AddDelta(x: NodeId, delta: DeltaNode)
      modifies this
      ensures added == old(added) + [(x, delta)]
    {
      added := added + [(x, delta)];
    }
  }

  /**
    The add_delta calls generate_adjoints makes, in order: two of them, the i-th for
    argument i with output i of one shared backprop node built from the incoming delta.
  */
  function AdjointDeltas(arguments: seq<NodeId>, delta: NodeId): (r: seq<(NodeId, DeltaNode)>)
    requires |arguments| == 2
    ensures |r| == 2 && r[0].1.backprop == r[1].1.backprop
    ensures forall i :: 0 <= i < |r| ==> r[i].0 == arguments[i] && r[i].1.index == i
    ensures r[0].1.backprop == SigmoidMultiplyBackprop(arguments[0], arguments[1], delta)
  {
    var backprop := SigmoidMultiplyBackprop(arguments[0], arguments[1], delta);
    [(arguments[0], OutputOf(backprop, 0)), (arguments[1], OutputOf(backprop, 1))]
  }

  /**
    make_shared<SigmoidMultiply>(input_1, input_2): the object either comes out of the
    constructor in the state Construct describes, or the constructor throws the error
    Construct names.
  */
  method NewSigmoidMultiply(g: Graph, input1: NodeId, input2: NodeId) returns (r: Result<SigmoidMultiplyNode, OpError>)
    requires input1 < |g| && input2 < |g|
    ensures r.Failure? ==> Construct(g, input1, input2) == Failure(r.error)
    ensures r.Success? ==> Construct(g, input1, input2) == Success(r.value.View())
    ensures r.Success? ==> fresh(r.value) && fresh(r.value.inputType)
  {
    var x := ArgumentZero(g, input1);
    if x.Failure? {
      return Failure(x.error);
    }
    var y := ArgumentZero(g, input2);
    if y.Failure? {
      return Failure(y.error);
    }
    var node := new SigmoidMultiplyNode([x.value, y.value]);
    if g[input1].elementType != g[input2].elementType {
      return Failure(ElementTypeMismatch);
    }
    if g[input1].shape != g[input2].shape {
      return Failure(ShapeMismatch);
    }
    var f1 := IdentifyNodeFunction(g, input1);
    if f1.Failure? {
      return Failure(f1.error);
    }
    node.inputType[0] := f1.value;
    var f2 := IdentifyNodeFunction(g, input2);
    if f2.Failure? {
      return Failure(f2.error);
    }
    node.inputType[1] := f2.value;
    node.AddOutput(TypeOf(g, input1));
    assert node.inputType[..] == [f1.value, f2.value];
    assert node.View() == Fused([x.value, y.value], [f1.value, f2.value], [TypeOf(g, input1)]);
    return Success(node);
  }

  // ---------------------------------------------------------------------------
  // copy_with_new_args (src/ngraph/runtime/cpu/op/sigmoid_mul.cpp:58-66)
  // ---------------------------------------------------------------------------

  /**
    copy_with_new_args as written: after the arity check the new arguments are handed to the
    constructor, which treats them as activations and takes their arguments in turn.
  */
  function CopyAsWritten(g: Graph, newArgs: seq<NodeId>): (r: Result<Fused, OpError>)
    requires forall k :: 0 <= k < |newArgs| ==> newArgs[k] < |g|
    ensures |newArgs| != 2 ==> r == Failure(WrongArgumentCount)
    ensures r.Success? ==> |newArgs| == 2 && |g[newArgs[0]].args| > 0 && |g[newArgs[1]].args| > 0
    ensures r.Success? ==> r.value.arguments == [g[newArgs[0]].args[0], g[newArgs[1]].args[0]]
  {
    if |newArgs| != 2 then Failure(WrongArgumentCount)
    else
      ConstructBuilds(g, newArgs[0], newArgs[1]);
      Construct(g, newArgs[0], newArgs[1])
  }

  /** Every argument of a node was created before it, as in a graph built call by call. */
  ghost predicate CreatedBeforeUse(g: Graph) {
    forall n, k :: 0 <= n < |g| && 0 <= k < |g[n].args| ==> g[n].args[k] < n
  }

  /**
    Copying a node as written with its own arguments never reproduces it: either the copy
    throws, or its first argument is an argument of the original's first argument, which
    was created strictly before it.
  */
  lemma {:induction false} CopyAsWrittenNeverRoundTrips(g: Graph, input1: NodeId, input2: NodeId)
    requires input1 < |g| && input2 < |g| && CreatedBeforeUse(g) && Construct(g, input1, input2).Success?
    ensures var f := Construct(g, input1, input2).value;
      (forall k :: 0 <= k < |f.arguments| ==> f.arguments[k] < |g|) &&
      CopyAsWritten(g, f.arguments) != Success(f)
  {
    ConstructBuilds(g, input1, input2);
    var f := Construct(g, input1, input2).value;
    var c := CopyAsWritten(g, f.arguments);
    if c.Success? {
      var x := f.arguments[0];
      assert x == g[input1].args[0] && x < input1;
      assert c.value.arguments[0] == g[x].args[0] && g[x].args[0] < x;
    }
  }

  /** tanh(p) * sigmoid(q), with p and q two float parameters of shape [2]. */
  const TanhTimesSigmoid: Graph := [
    Node(Parameter, [], F32, [2]),
    Node(Parameter, [], F32, [2]),
    Node(UnaryArithmetic(UnaryOp.Tanh), [0], F32, [2]),
    Node(Sigmoid, [1], F32, [2])
  ]

  /** The fused node over p and q, and what copying it with [p, q] does as written. */
  lemma {:induction false} CopyAsWrittenThrows()
    ensures Construct(TanhTimesSigmoid, 2, 3) == Success(Fused([0, 1], [FunctionType.Tanh, Logistic], [TensorType(F32, [2])]))
    ensures CopyAsWritten(TanhTimesSigmoid, [0, 1]) == Failure(Std(OutOfRange))
  {
  }

  /**
    The constructor the copy evidently needs: the new arguments are the operands themselves
    and the function types are carried over; element types and shapes must still agree, and
    the output is typed like the first argument.
  */
  function ConstructWithTypes(g: Graph, x: NodeId, y: NodeId, types: seq<FunctionType>): (r: Result<Fused, OpError>)
    requires x < |g| && y < |g| && |types| == 2
    ensures r.Success? <==> TypeOf(g, x) == TypeOf(g, y)
    ensures r.Success? ==> r.value == Fused([x, y], types, [TypeOf(g, x)])
    ensures r.Failure? ==> r.error == if g[x].elementType != g[y].elementType then ElementTypeMismatch else ShapeMismatch
  {
    if g[x].elementType != g[y].elementType then Failure(ElementTypeMismatch)
    else if g[x].shape != g[y].shape then Failure(ShapeMismatch)
    else Success(Fused([x, y], types, [TypeOf(g, x)]))
  }

  /** copy_with_new_args as intended: the arity check, then a node over the new arguments with the same function types. */
  function Copy(g: Graph, f: Fused, newArgs: seq<NodeId>): (r: Result<Fused, OpError>)
    requires |f.inputType| == 2 && forall k :: 0 <= k < |newArgs| ==> newArgs[k] < |g|
    ensures |newArgs| != 2 ==> r == Failure(WrongArgumentCount)
    ensures r.Success? ==> r.value.arguments == newArgs && r.value.inputType == f.inputType && |r.value.outputs| == 1
  {
    if |newArgs| != 2 then Failure(WrongArgumentCount)
    else ConstructWithTypes(g, newArgs[0], newArgs[1], f.inputType)
  }

  /** An activation has the element type and shape of its argument, as Tanh and Sigmoid do. */
  ghost predicate KeepsArgumentType(g: Graph, n: NodeId)
    requires n < |g|
  {
    |g[n].args| > 0 && g[n].args[0] < |g| && TypeOf(g, g[n].args[0]) == TypeOf(g, n)
  }

  /** The intended copy reproduces a constructed node when given that node's own arguments. */
  lemma {:induction false} CopyRoundTrips(g: Graph, input1: NodeId, input2: NodeId)
    requires input1 < |g| && input2 < |g| && Construct(g, input1, input2).Success?
    requires KeepsArgumentType(g, input1) && KeepsArgumentType(g, input2)
    ensures var f := Construct(g, input1, input2).value;
      (forall k :: 0 <= k < |f.arguments| ==> f.arguments[k] < |g|) &&
      Copy(g, f, f.arguments) == Success(f)
  {
    ConstructBuilds(g, input1, input2);
  }
}
