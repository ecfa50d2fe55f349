/** The public calls of `FatNet` applied in sequence to a constructed network, and what
    stays true of every network reachable that way. */
module Training {
  import opened Squashing
  import opened Nodes
  import opened Layers
  import opened Network

  /** One public call: `feedforward`, `update_output_error`, `backprop` or
      `update_weights`. */
  datatype Call = Forward(input: seq<real>) | OutputError(target: seq<real>)
                | Backward(target: seq<real>) | Update(alpha: real)

  /** What every public call preserves: the constructed shape; and, from zero hidden
      errors, zero hidden errors with only activations and errors written. */
  predicate Keeps(net: FatNet, r: FatNet)
  {
    && WellFormed(r)
    && (HiddenErrorsZero(net) ==> HiddenErrorsZero(r) && NetAgree(net, r, {Activations, Errors}))
  }

  /** `feedforward` writes only activations. */
  lemma ForwardKeeps(sigmoid: Squash, net: FatNet, x: seq<real>)
    requires WellFormed(net)
    ensures Keeps(net, Network.Feedforward(sigmoid, net, x))
  {
    WellFormedIsWired(net);
    var r := Network.Feedforward(sigmoid, net, x);
    NetAgreeKeepsWellFormed(net, r, {Activations});
    NetAgreeWeaken(net, r, {Activations}, {Activations, Errors});
    if HiddenErrorsZero(net) {
      HiddenErrorsZeroKept(net, r, {Activations});
    }
  }

  /** `update_output_error` writes only output errors. */
  lemma OutputErrorKeeps(net: FatNet, t: seq<real>)
    requires WellFormed(net)
    ensures Keeps(net, UpdateOutputError(net, t))
  {
    var r := UpdateOutputError(net, t);
    NetAgreeKeepsWellFormed(net, r, {Errors});
    NetAgreeWeaken(net, r, {Errors}, {Activations, Errors});
  }

  /** `backprop` writes only output errors. */
  lemma BackwardKeeps(net: FatNet, t: seq<real>)
    requires WellFormed(net)
    ensures Keeps(net, Network.Backprop(net, t))
  {
    OutputErrorKeeps(net, t);
  }

  /** `update_weights` writes only weights, and none at all from zero hidden errors. */
  lemma UpdateKeeps(net: FatNet, alpha: real)
    requires WellFormed(net)
    ensures Keeps(net, UpdateWeights(net, alpha))
  {
    var r := UpdateWeights(net, alpha);
    NetAgreeKeepsWellFormed(net, r, {Weights});
    UpdateWeightsIdle(net, alpha);
  }

  /** One call. Every call keeps the constructed shape; from a state with zero hidden
      errors, every call keeps them zero and writes only activations and errors. */
  function Apply(sigmoid: Squash, net: FatNet, c: Call): (r: FatNet)
    requires WellFormed(net)
    ensures WellFormed(r)
    ensures HiddenErrorsZero(net) ==>
      HiddenErrorsZero(r) && NetAgree(net, r, {Activations, Errors})
  {
    match c
    case Forward(x) =>
      ForwardKeeps(sigmoid, net, x);
      WellFormedIsWired(net);
      Network.Feedforward(sigmoid, net, x)
    case OutputError(t) =>
      OutputErrorKeeps(net, t);
      UpdateOutputError(net, t)
    case Backward(t) =>
      BackwardKeeps(net, t);
      Network.Backprop(net, t)
    case Update(alpha) =>
      UpdateKeeps(net, alpha);
      UpdateWeights(net, alpha)
  }

  /** The calls in order. */
  function Run(sigmoid: Squash, net: FatNet, calls: seq<Call>): (r: FatNet)
    requires WellFormed(net)
    ensures WellFormed(r)
    ensures HiddenErrorsZero(net) ==>
      HiddenErrorsZero(r) && NetAgree(net, r, {Activations, Errors})
    decreases |calls|
  {
    if calls == [] then net
    else
      var next := Apply(sigmoid, net, calls[0]);
      var r := Run(sigmoid, next, calls[1..]);
      if HiddenErrorsZero(net) then
        NetAgreeTransitive(net, next, r, {Activations, Errors}, {Activations, Errors});
        assert {Activations, Errors} + {Activations, Errors} == {Activations, Errors};
        r
      else r
  }

  /** Every input and hidden weight equals 1. */
  predicate WeightsAllOne(net: FatNet)
  {
    && (forall j, m :: 0 <= j < Len(net.input) && 0 <= m < |net.input.nodes[j].weights| ==>
          net.input.nodes[j].weights[m] == 1.0)
    && (forall k, j, m ::
          0 <= k < |net.hidden| && 0 <= j < Len(net.hidden[k]) && 0 <= m < |net.hidden[k].nodes[j].weights|
          ==> net.hidden[k].nodes[j].weights[m] == 1.0)
  }

  lemma NewWeightsAllOne(inputWidth: nat, hiddenShape: (nat, nat), outputWidth: nat)
    requires hiddenShape.0 >= 1
    ensures WeightsAllOne(Network.New(inputWidth, hiddenShape, outputWidth))
  {
    var net := Network.New(inputWidth, hiddenShape, outputWidth);
    forall k, j, m | 0 <= k < |net.hidden| && 0 <= j < Len(net.hidden[k])
      && 0 <= m < |net.hidden[k].nodes[j].weights|
      ensures net.hidden[k].nodes[j].weights[m] == 1.0
    {
      if k < |net.hidden| - 1 {
        assert Fresh(net.hidden[k].nodes[j], hiddenShape.1);
      } else {
        assert Fresh(Last(net).nodes[j], outputWidth);
      }
    }
  }

  /** Agreement outside activations and errors keeps every weight. */
  lemma WeightsAllOneKept(a: FatNet, b: FatNet)
    requires WeightsAllOne(a) && NetAgree(a, b, {Activations, Errors})
    ensures WeightsAllOne(b)
  {
    forall j | 0 <= j < Len(b.input)
      ensures b.input.nodes[j].weights == a.input.nodes[j].weights
    {
      assert Agree(a.input.nodes[j], b.input.nodes[j], {Activations, Errors});
    }
    forall k, j | 0 <= k < |b.hidden| && 0 <= j < Len(b.hidden[k])
      ensures b.hidden[k].nodes[j].weights == a.hidden[k].nodes[j].weights
    {
      assert Agree(a.hidden[k].nodes[j], b.hidden[k].nodes[j], {Activations, Errors});
    }
  }

  /** Hidden errors start at zero and no public call writes a hidden error, so in every
      network reachable from construction the hidden errors are zero, `update_weights`
      changes nothing, and every weight keeps its constructed value 1. */
  lemma ReachableNetworksAreFrozen(sigmoid: Squash, inputWidth: nat, hiddenShape: (nat, nat),
                                   outputWidth: nat, calls: seq<Call>, alpha: real)
    requires hiddenShape.0 >= 1
    ensures var net := Run(sigmoid, Network.New(inputWidth, hiddenShape, outputWidth), calls);
      && HiddenErrorsZero(net)
      && UpdateWeights(net, alpha) == net
      && WeightsAllOne(net)
  {
    var start := Network.New(inputWidth, hiddenShape, outputWidth);
    var net := Run(sigmoid, start, calls);
    UpdateWeightsIdle(net, alpha);
    NewWeightsAllOne(inputWidth, hiddenShape, outputWidth);
    WeightsAllOneKept(start, net);
  }
}
