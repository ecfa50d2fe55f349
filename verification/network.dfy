/** The multilayer perceptron `FatNet` (src/network/mod.rs): an input layer, a non-empty
    list of hidden layers and an output layer, with construction, the forward pass, the
    output error, back-propagation, the weight update and output read-back. */
module Network {
  import opened Squashing
  import opened Nodes
  import opened Layers

  datatype FatNet = FatNet(input: Layer, hidden: seq<Layer>, output: Layer)

  function Last(net: FatNet): (l: Layer)
    requires |net.hidden| >= 1
  {
    net.hidden[|net.hidden| - 1]
  }

  /** What the forward pass indexes: a first hidden layer, and every layer with at least
      as many weights per node as the layer it feeds has nodes. */
  predicate Wired(net: FatNet)
  {
    && |net.hidden| >= 1
    && Reaches(net.input, Len(net.hidden[0]))
    && (forall k :: 0 <= k < |net.hidden| - 1 ==> Reaches(net.hidden[k], Len(net.hidden[k + 1])))
    && Reaches(Last(net), Len(net.output))
  }

  /** The shape `FatNet::new` builds: each node's weight vector is exactly as long as the
      next layer, and output nodes have none. */
  predicate WellFormed(net: FatNet)
  {
    && |net.hidden| >= 1
    && FansOut(net.input, Len(net.hidden[0]))
    && (forall k :: 0 <= k < |net.hidden| - 1 ==> FansOut(net.hidden[k], Len(net.hidden[k + 1])))
    && FansOut(Last(net), Len(net.output))
    && FansOut(net.output, 0)
  }

  lemma WellFormedIsWired(net: FatNet)
    requires WellFormed(net)
    ensures Wired(net)
  {
  }

  /** `a` and `b` have the same topology and differ at most in the listed fields. */
  predicate NetAgree(a: FatNet, b: FatNet, except: set<Field>)
  {
    && AgreeExcept(a.input, b.input, except)
    && |a.hidden| == |b.hidden|
    && (forall k :: 0 <= k < |a.hidden| ==> AgreeExcept(a.hidden[k], b.hidden[k], except))
    && AgreeExcept(a.output, b.output, except)
  }

  lemma NetAgreeTransitive(a: FatNet, b: FatNet, c: FatNet, e: set<Field>, f: set<Field>)
    requires NetAgree(a, b, e) && NetAgree(b, c, f)
    ensures NetAgree(a, c, e + f)
  {
    AgreeExceptTransitive(a.input, b.input, c.input, e, f);
    AgreeExceptTransitive(a.output, b.output, c.output, e, f);
    forall k | 0 <= k < |a.hidden|
      ensures AgreeExcept(a.hidden[k], c.hidden[k], e + f)
    {
      AgreeExceptTransitive(a.hidden[k], b.hidden[k], c.hidden[k], e, f);
    }
  }

  /** No operation changes the topology or a weight vector's length, so none breaks the
      constructed shape. */
  lemma NetAgreeKeepsWellFormed(a: FatNet, b: FatNet, except: set<Field>)
    requires WellFormed(a) && NetAgree(a, b, except)
    ensures WellFormed(b)
  {
    FansOutKept(a.input, b.input, except, Len(a.hidden[0]));
    FansOutKept(a.output, b.output, except, 0);
    FansOutKept(Last(a), Last(b), except, Len(a.output));
    forall k | 0 <= k < |a.hidden| - 1
      ensures FansOut(b.hidden[k], Len(b.hidden[k + 1]))
    {
      FansOutKept(a.hidden[k], b.hidden[k], except, Len(a.hidden[k + 1]));
    }
  }

  /** Allowing more fields to differ keeps agreement. */
  lemma NetAgreeWeaken(a: FatNet, b: FatNet, e: set<Field>, f: set<Field>)
    requires NetAgree(a, b, e) && e <= f
    ensures NetAgree(a, b, f)
  {
  }

  /** Every hidden node's error term is zero. */
  predicate HiddenErrorsZero(net: FatNet)
  {
    forall k, j :: 0 <= k < |net.hidden| && 0 <= j < Len(net.hidden[k]) ==>
      net.hidden[k].nodes[j].error == 0.0
  }

  /** An operation that leaves error terms alone keeps the hidden errors at zero. */
  lemma HiddenErrorsZeroKept(a: FatNet, b: FatNet, except: set<Field>)
    requires HiddenErrorsZero(a) && NetAgree(a, b, except) && Errors !in except
    ensures HiddenErrorsZero(b)
  {
    forall k, j | 0 <= k < |b.hidden| && 0 <= j < Len(b.hidden[k])
      ensures b.hidden[k].nodes[j].error == 0.0
    {
      assert Agree(a.hidden[k].nodes[j], b.hidden[k].nodes[j], except);
    }
  }

  // ---------------------------------------------------------------- construction

  /** `vec![1.0; n]`. */
  function Ones(n: nat): (ws: seq<real>)
    ensures |ws| == n && forall m :: 0 <= m < n ==> ws[m] == 1.0
  {
    seq(n, _ => 1.0)
  }

  /** Give every node of `l` the weight vector `ws`. */
  function WithWeights(l: Layer, ws: seq<real>): (r: Layer)
    ensures Len(r) == Len(l)
    ensures forall j :: 0 <= j < Len(l) ==> r.nodes[j] == l.nodes[j].(weights := ws)
  {
    Layer(seq(Len(l), j requires 0 <= j < Len(l) => l.nodes[j].(weights := ws)))
  }

  /** A node as construction leaves it: blank except for `width` weights all equal to 1. */
  predicate Fresh(n: Node, width: nat)
  {
    && n.activation == 0.0 && n.bias == 0.0 && n.error == 0.0
    && |n.weights| == width
    && forall m :: 0 <= m < width ==> n.weights[m] == 1.0
  }

  /** `FatNet::new(i, (d, w), o)`. The source computes `hidden.len() - 1` and indexes
      `hidden[last_idx]`, so it needs at least one hidden layer. */
  function New(inputWidth: nat, hiddenShape: (nat, nat), outputWidth: nat): (net: FatNet)
    requires hiddenShape.0 >= 1
    ensures Len(net.input) == inputWidth
    ensures |net.hidden| == hiddenShape.0
    ensures forall k :: 0 <= k < |net.hidden| ==> Len(net.hidden[k]) == hiddenShape.1
    ensures Len(net.output) == outputWidth
    ensures forall j :: 0 <= j < inputWidth ==> Fresh(net.input.nodes[j], hiddenShape.1)
    ensures forall k, j :: 0 <= k < hiddenShape.0 - 1 && 0 <= j < Len(net.hidden[k]) ==>
      Fresh(net.hidden[k].nodes[j], hiddenShape.1)
    ensures forall j :: 0 <= j < Len(Last(net)) ==> Fresh(Last(net).nodes[j], outputWidth)
    ensures forall j :: 0 <= j < outputWidth ==> Blank(net.output.nodes[j])
    ensures WellFormed(net) && Wired(net) && HiddenErrorsZero(net)
  {
    var blankInput := Layers.New(inputWidth);
    var blankHidden := seq(hiddenShape.0, _ => Layers.New(hiddenShape.1));
    var output := Layers.New(outputWidth);
    var input := WithWeights(blankInput, Ones(hiddenShape.1));
    var lastIdx := |blankHidden| - 1;
    var inner := seq(|blankHidden|, k requires 0 <= k < |blankHidden| =>
      if k < lastIdx then WithWeights(blankHidden[k], Ones(hiddenShape.1)) else blankHidden[k]);
    var hidden := inner[lastIdx := WithWeights(blankHidden[lastIdx], Ones(outputWidth))];
    var net := FatNet(input, hidden, output);
    assert FansOut(input, Len(hidden[0]));
    assert forall k :: 0 <= k < |hidden| - 1 ==> FansOut(hidden[k], Len(hidden[k + 1]));
    assert FansOut(Last(net), Len(output));
    assert WellFormed(net);
    WellFormedIsWired(net);
    net
  }

  // ---------------------------------------------------------------- forward pass

  /** The zip of the input layer's nodes with the input vector: node `j` takes `x[j]`
      while both last, and the rest keep their activation. */
  function AssignActivations(l: Layer, x: seq<real>): (r: Layer)
    ensures AgreeExcept(l, r, {Activations})
    ensures forall j :: 0 <= j < Len(l) ==>
      r.nodes[j].activation == if j < |x| then x[j] else l.nodes[j].activation
  {
    Layer(seq(Len(l), j requires 0 <= j < Len(l) =>
      if j < |x| then l.nodes[j].(activation := x[j]) else l.nodes[j]))
  }

  /** The hidden-to-hidden loop of `feedforward`: it zips the clone `snapshot` with the
      live layers after the first, so layer `k + 1` is fed from layer `k` of the clone. */
  function HiddenPass(sigmoid: Squash, snapshot: seq<Layer>, current: seq<Layer>): (r: seq<Layer>)
    requires |snapshot| == |current|
    requires forall k :: 0 <= k < |current| - 1 ==> Reaches(snapshot[k], Len(current[k + 1]))
    ensures |r| == |current|
    ensures |current| > 0 ==> r[0] == current[0]
    ensures forall k :: 0 <= k < |current| ==> AgreeExcept(current[k], r[k], {Activations})
    ensures forall k, j :: 1 <= k < |current| && 0 <= j < Len(r[k]) ==>
      0.0 < r[k].nodes[j].activation < 1.0
    ensures forall k :: 0 <= k < |current| - 1 ==>
      r[k + 1] == Layers.Feedforward(sigmoid, snapshot[k], current[k + 1])
  {
    seq(|current|, k requires 0 <= k < |current| =>
      if k == 0 then current[0] else Layers.Feedforward(sigmoid, snapshot[k - 1], current[k]))
  }

  /** `get_output`: the output activations in node order. */
  function GetOutput(net: FatNet): (r: seq<real>)
    ensures |r| == Len(net.output)
    ensures forall k :: 0 <= k < |r| ==> r[k] == net.output.nodes[k].activation
  {
    seq(Len(net.output), k requires 0 <= k < Len(net.output) => net.output.nodes[k].activation)
  }

  /** The first statement of `feedforward`: the input vector is zipped into the input layer. */
  function FeedInput(net: FatNet, x: seq<real>): (r: FatNet)
    ensures NetAgree(net, r, {Activations})
    ensures Wired(net) ==> Wired(r)
    ensures r.hidden == net.hidden && r.output == net.output
    ensures forall j :: 0 <= j < Len(net.input) ==>
      r.input.nodes[j].activation == if j < |x| then x[j] else net.input.nodes[j].activation
  {
    var input := AssignActivations(net.input, x);
    if Wired(net) then
      ReachesKept(net.input, input, {Activations}, Len(net.hidden[0]));
      net.(input := input)
    else net.(input := input)
  }

  /** `self.input.feedforward(&mut self.hidden[0])`: the first hidden layer is fed from the
      input layer. */
  function FeedFirstHidden(sigmoid: Squash, net: FatNet): (r: FatNet)
    requires |net.hidden| >= 1 && Reaches(net.input, Len(net.hidden[0]))
    ensures NetAgree(net, r, {Activations})
    ensures Wired(net) ==> Wired(r)
    ensures r.input == net.input && r.output == net.output
    ensures r.hidden == net.hidden[0 := Layers.Feedforward(sigmoid, net.input, net.hidden[0])]
  {
    var first := Layers.Feedforward(sigmoid, net.input, net.hidden[0]);
    var r := net.(hidden := net.hidden[0 := first]);
    if Wired(net) then
      ReachesKept(net.hidden[0], first, {Activations}, if |net.hidden| > 1 then Len(net.hidden[1]) else Len(net.output));
      r
    else r
  }

  /** The hidden-to-hidden loop over `self.hidden.clone()` zipped with the live layers after
      the first, reading the clone taken at that point. */
  function FeedHiddenChain(sigmoid: Squash, net: FatNet): (r: FatNet)
    requires Wired(net)
    ensures NetAgree(net, r, {Activations}) && Wired(r)
    ensures r.input == net.input && r.output == net.output
    ensures r.hidden == HiddenPass(sigmoid, net.hidden, net.hidden)
  {
    var fed := HiddenPass(sigmoid, net.hidden, net.hidden);
    var r := net.(hidden := fed);
    ReachesKept(Last(net), Last(r), {Activations}, Len(net.output));
    r
  }

  /** The last statement of `feedforward`: the output layer is fed from the last hidden layer. */
  function FeedOutput(sigmoid: Squash, net: FatNet): (r: FatNet)
    requires Wired(net)
    ensures NetAgree(net, r, {Activations})
    ensures r.input == net.input && r.hidden == net.hidden
    ensures r.output == Layers.Feedforward(sigmoid, Last(net), net.output)
  {
    net.(output := Layers.Feedforward(sigmoid, Last(net), net.output))
  }

  /** `FatNet::feedforward(x)` as written: assign the input, feed the first hidden layer,
      run the hidden-to-hidden loop over a clone taken after that, then feed the output
      from the last hidden layer. */
  function Feedforward(sigmoid: Squash, net: FatNet, x: seq<real>): (r: FatNet)
    requires Wired(net)
    ensures NetAgree(net, r, {Activations})
    ensures forall j :: 0 <= j < Len(net.input) ==>
      r.input.nodes[j].activation == if j < |x| then x[j] else net.input.nodes[j].activation
    ensures forall k, j :: 0 <= k < |r.hidden| && 0 <= j < Len(r.hidden[k]) ==>
      0.0 < r.hidden[k].nodes[j].activation < 1.0
    ensures |GetOutput(r)| == Len(net.output)
    ensures forall k :: 0 <= k < |GetOutput(r)| ==> 0.0 < GetOutput(r)[k] < 1.0
  {
    var n1 := FeedInput(net, x);
    var n2 := FeedFirstHidden(sigmoid, n1);
    var n3 := FeedHiddenChain(sigmoid, n2);
    var r := FeedOutput(sigmoid, n3);
    NetAgreeTransitive(net, n1, n2, {Activations}, {Activations});
    NetAgreeTransitive(net, n2, n3, {Activations}, {Activations});
    NetAgreeTransitive(net, n3, r, {Activations}, {Activations});
    assert {Activations} + {Activations} == {Activations};
    r
  }

  /** The order in which `feedforward` reads layers: the first hidden layer from the
      assigned input; the second from the freshly computed first; every later hidden
      layer from the activations its predecessor had before the hidden-to-hidden loop;
      and the output from the freshly computed last hidden layer. */
  lemma FeedforwardSchedule(sigmoid: Squash, net: FatNet, x: seq<real>)
    requires Wired(net)
    ensures var r := Feedforward(sigmoid, net, x);
      && r.hidden[0] == Layers.Feedforward(sigmoid, r.input, net.hidden[0])
      && (|net.hidden| >= 2 ==>
            r.hidden[1] == Layers.Feedforward(sigmoid, r.hidden[0], net.hidden[1]))
      && (forall k :: 1 <= k < |net.hidden| - 1 ==>
            r.hidden[k + 1] == Layers.Feedforward(sigmoid, net.hidden[k], net.hidden[k + 1]))
      && r.output == Layers.Feedforward(sigmoid, Last(r), net.output)
  {
  }

  /** The strict sequential pipeline: each layer of `rest` is fed from the freshly
      computed layer before it, the first one from `prev`. */
  function Chain(sigmoid: Squash, prev: Layer, rest: seq<Layer>): (r: seq<Layer>)
    requires |rest| > 0 ==> Reaches(prev, Len(rest[0]))
    requires forall k :: 0 <= k < |rest| - 1 ==> Reaches(rest[k], Len(rest[k + 1]))
    ensures |r| == |rest|
    ensures forall k :: 0 <= k < |rest| ==> AgreeExcept(rest[k], r[k], {Activations})
    ensures forall k :: 0 <= k < |rest| - 1 ==> Reaches(r[k], Len(rest[k + 1]))
    ensures |rest| > 0 ==> r[0] == Layers.Feedforward(sigmoid, prev, rest[0])
    ensures forall k :: 0 <= k < |rest| - 1 ==>
      r[k + 1] == Layers.Feedforward(sigmoid, r[k], rest[k + 1])
    ensures forall k, j :: 0 <= k < |r| && 0 <= j < Len(r[k]) ==> 0.0 < r[k].nodes[j].activation < 1.0
    decreases |rest|
  {
    if |rest| == 0 then []
    else
      var head := Layers.Feedforward(sigmoid, prev, rest[0]);
      assert |rest| > 1 ==> Reaches(head, Len(rest[1])) by {
        if |rest| > 1 {
          ReachesKept(rest[0], head, {Activations}, Len(rest[1]));
        }
      }
      [head] + Chain(sigmoid, head, rest[1..])
  }

  /** The forward pass as the pipeline it is meant to be: no layer is computed before its
      predecessor's activations are final. */
  function PipelineFeedforward(sigmoid: Squash, net: FatNet, x: seq<real>): (r: FatNet)
    requires Wired(net)
    ensures NetAgree(net, r, {Activations})
    ensures forall j :: 0 <= j < Len(net.input) ==>
      r.input.nodes[j].activation == if j < |x| then x[j] else net.input.nodes[j].activation
    ensures r.hidden[0] == Layers.Feedforward(sigmoid, r.input, net.hidden[0])
    ensures forall k :: 0 <= k < |net.hidden| - 1 ==>
      r.hidden[k + 1] == Layers.Feedforward(sigmoid, r.hidden[k], net.hidden[k + 1])
    ensures r.output == Layers.Feedforward(sigmoid, Last(r), net.output)
    ensures forall k, j :: 0 <= k < |r.hidden| && 0 <= j < Len(r.hidden[k]) ==>
      0.0 < r.hidden[k].nodes[j].activation < 1.0
    ensures |GetOutput(r)| == Len(net.output)
    ensures forall k :: 0 <= k < |GetOutput(r)| ==> 0.0 < GetOutput(r)[k] < 1.0
  {
    var input := AssignActivations(net.input, x);
    ReachesKept(net.input, input, {Activations}, Len(net.hidden[0]));
    var hidden := Chain(sigmoid, input, net.hidden);
    var lastIdx := |hidden| - 1;
    ReachesKept(net.hidden[lastIdx], hidden[lastIdx], {Activations}, Len(net.output));
    var output := Layers.Feedforward(sigmoid, hidden[lastIdx], net.output);
    FatNet(input, hidden, output)
  }

  /** With one or two hidden layers the clone is never read stale: the forward pass as
      written is the pipeline. */
  lemma ShallowFeedforwardIsPipeline(sigmoid: Squash, net: FatNet, x: seq<real>)
    requires Wired(net) && |net.hidden| <= 2
    ensures Feedforward(sigmoid, net, x) == PipelineFeedforward(sigmoid, net, x)
  {
    var a := Feedforward(sigmoid, net, x);
    var b := PipelineFeedforward(sigmoid, net, x);
    assert a.input == b.input;
    assert a.hidden[0] == b.hidden[0];
    if |net.hidden| == 2 {
      assert a.hidden[1] == b.hidden[1];
    }
    assert a.hidden == b.hidden;
  }

  // ---------------------------------------------------------------- backward pass

  /** The output delta of the sigmoid unit: (t - a) * a * (1 - a). */
  function OutputDelta(target: real, activation: real): (d: real)
    ensures activation == 0.0 || activation == 1.0 || target == activation ==> d == 0.0
  {
    (target - activation) * activation * (1.0 - activation)
  }

  /** For an activation strictly inside (0, 1) the delta has the sign of `target - a`:
      it pushes the activation towards the target, and vanishes exactly on it. */
  lemma OutputDeltaSign(target: real, activation: real)
    requires 0.0 < activation < 1.0
    ensures OutputDelta(target, activation) > 0.0 <==> target > activation
    ensures OutputDelta(target, activation) == 0.0 <==> target == activation
    ensures OutputDelta(target, activation) < 0.0 <==> target < activation
  {
    var g := activation * (1.0 - activation);
    assert g > 0.0;
    assert OutputDelta(target, activation) == (target - activation) * g;
  }

  /** `update_output_error(t)`: the zip of the output nodes with the targets gives node `k`
      the delta of `t[k]` while both last; nothing else changes. */
  function UpdateOutputError(net: FatNet, target: seq<real>): (r: FatNet)
    ensures r.input == net.input && r.hidden == net.hidden
    ensures AgreeExcept(net.output, r.output, {Errors})
    ensures NetAgree(net, r, {Errors})
    ensures forall k :: 0 <= k < Len(net.output) ==>
      r.output.nodes[k].error == if k < |target| then
        OutputDelta(target[k], net.output.nodes[k].activation)
      else net.output.nodes[k].error
  {
    net.(output := Layer(seq(Len(net.output), k requires 0 <= k < Len(net.output) =>
      var n := net.output.nodes[k];
      if k < |target| then n.(error := OutputDelta(target[k], n.activation))
      else n)))
  }

  /** The output error reads only activations, which it does not write: a second call with
      the same targets changes nothing. */
  lemma UpdateOutputErrorIdempotent(net: FatNet, target: seq<real>)
    ensures UpdateOutputError(UpdateOutputError(net, target), target) == UpdateOutputError(net, target)
  {
    var once := UpdateOutputError(net, target);
    var twice := UpdateOutputError(once, target);
    assert twice.output.nodes == once.output.nodes;
  }

  /** One pass of the inner `backprop` loop, written into the clone of `l`: node `i`,
      zipped with node `i` of `next`, takes next[i].error * a * (1 - a). */
  function ScratchLayer(l: Layer, next: Layer): (r: Layer)
    ensures AgreeExcept(l, r, {Errors})
    ensures forall i :: 0 <= i < Len(l) ==>
      r.nodes[i].error == if i < Len(next) then
        next.nodes[i].error * l.nodes[i].activation * (1.0 - l.nodes[i].activation)
      else l.nodes[i].error
  {
    Layer(seq(Len(l), i requires 0 <= i < Len(l) =>
      var n := l.nodes[i];
      if i < Len(next) then n.(error := next.nodes[i].error * n.activation * (1.0 - n.activation))
      else n))
  }

  /** The loop of `backprop` over hidden pairs, as it writes into the clone of the hidden
      layers: layer `k` is rewritten from layer `k + 1` of the live network; the last hidden
      layer is never written. */
  function HiddenErrorScratch(hidden: seq<Layer>): (r: seq<Layer>)
    ensures |r| == |hidden|
    ensures forall k :: 0 <= k < |hidden| ==> AgreeExcept(hidden[k], r[k], {Errors})
    ensures forall k :: 0 <= k < |hidden| - 1 ==> r[k] == ScratchLayer(hidden[k], hidden[k + 1])
    ensures |hidden| > 0 ==> r[|hidden| - 1] == hidden[|hidden| - 1]
  {
    seq(|hidden|, k requires 0 <= k < |hidden| =>
      if k < |hidden| - 1 then ScratchLayer(hidden[k], hidden[k + 1]) else hidden[k])
  }

  /** When every hidden error is zero the scratch writes only zeros, so even a kept
      scratch would leave the hidden errors as they are. */
  lemma HiddenErrorScratchOfZeros(net: FatNet)
    requires HiddenErrorsZero(net)
    ensures HiddenErrorScratch(net.hidden) == net.hidden
  {
    var r := HiddenErrorScratch(net.hidden);
    forall k | 0 <= k < |net.hidden| - 1
      ensures r[k] == net.hidden[k]
    {
      var l := net.hidden[k];
      forall i | 0 <= i < Len(l)
        ensures r[k].nodes[i] == l.nodes[i]
      {
        assert r[k].nodes[i].error == 0.0;
      }
      assert r[k].nodes == l.nodes;
    }
  }

  /** `backprop(t)`: the output error, then the hidden-error loop, which writes into a
      clone of the hidden layers that is dropped. Its effect is exactly the output error. */
  function Backprop(net: FatNet, target: seq<real>): (r: FatNet)
    ensures r == UpdateOutputError(net, target)
    ensures r.hidden == net.hidden
  {
    var withOutput := UpdateOutputError(net, target);
    var dropped := HiddenErrorScratch(withOutput.hidden);
    withOutput
  }

  // ---------------------------------------------------------------- weight update

  /** The change `update_weights` makes to one weight: alpha * error * activation. */
  function Delta(alpha: real, error: real, activation: real): (d: real)
  {
    alpha * error * activation
  }

  /** Deltas are linear in the rate, and vanish with a zero error or rate. */
  lemma DeltaLinear(alpha: real, beta: real, error: real, activation: real)
    ensures Delta(alpha, error, activation) + Delta(beta, error, activation) ==
      Delta(alpha + beta, error, activation)
    ensures error == 0.0 || alpha == 0.0 ==> Delta(alpha, error, activation) == 0.0
  {
  }

  /** The innermost `update_weights` loop on one node: weight `k`, zipped with node `k` of
      `binding` (the clone of the node's own layer), moves by
      alpha * error * binding[k].activation. */
  function StepNode(n: Node, error: real, binding: seq<Node>, alpha: real): (r: Node)
    ensures Agree(n, r, {Weights})
    ensures error == 0.0 || alpha == 0.0 || |binding| == 0 ==> r == n
  {
    n.(weights := seq(|n.weights|, k requires 0 <= k < |n.weights| =>
      if k < |binding| then n.weights[k] + Delta(alpha, error, binding[k].activation)
      else n.weights[k]))
  }

  /** Weight `k` of a stepped node. */
  lemma StepNodeWeight(n: Node, error: real, binding: seq<Node>, alpha: real, k: nat)
    requires k < |n.weights|
    ensures StepNode(n, error, binding, alpha).weights[k] ==
      n.weights[k] + (if k < |binding| then Delta(alpha, error, binding[k].activation) else 0.0)
  {
  }

  /** Two steps of one node with bindings of equal activations are one step by the summed
      rate. */
  lemma StepNodeAdditive(n: Node, error: real, b1: seq<Node>, b2: seq<Node>, alpha: real, beta: real)
    requires |b1| == |b2| && forall k :: 0 <= k < |b1| ==> b1[k].activation == b2[k].activation
    ensures StepNode(StepNode(n, error, b1, alpha), error, b2, beta) == StepNode(n, error, b1, alpha + beta)
  {
    var one := StepNode(n, error, b1, alpha);
    var two := StepNode(one, error, b2, beta);
    var sum := StepNode(n, error, b1, alpha + beta);
    forall k | 0 <= k < |n.weights|
      ensures two.weights[k] == sum.weights[k]
    {
      StepNodeWeight(n, error, b1, alpha, k);
      StepNodeWeight(one, error, b2, beta, k);
      StepNodeWeight(n, error, b1, alpha + beta, k);
      if k < |b1| {
        DeltaLinear(alpha, beta, error, b1[k].activation);
      }
    }
    assert two.weights == sum.weights;
  }

  /** A step with zero error or zero rate moves nothing. */
  lemma StepNodeIdle(n: Node, error: real, binding: seq<Node>, alpha: real)
    requires error == 0.0 || alpha == 0.0
    ensures StepNode(n, error, binding, alpha) == n
  {
    var r := StepNode(n, error, binding, alpha);
    forall k | 0 <= k < |n.weights|
      ensures r.weights[k] == n.weights[k]
    {
      StepNodeWeight(n, error, binding, alpha, k);
      if k < |binding| {
        DeltaLinear(alpha, 0.0, error, binding[k].activation);
      }
    }
    assert r.weights == n.weights;
  }

  /** The middle `update_weights` loop for one pair of hidden layers: node `i` of `l`,
      zipped with node `i` of `next`, steps with next[i].error and the clone of `l`. */
  function UpdateLayerWeights(l: Layer, next: Layer, alpha: real): (r: Layer)
    ensures AgreeExcept(l, r, {Weights})
    ensures forall i :: 0 <= i < Len(l) ==>
      r.nodes[i] == if i < Len(next) then StepNode(l.nodes[i], next.nodes[i].error, l.nodes, alpha)
      else l.nodes[i]
  {
    var binding := l.nodes;
    Layer(seq(Len(l), i requires 0 <= i < Len(l) =>
      if i < Len(next) then StepNode(l.nodes[i], next.nodes[i].error, binding, alpha)
      else l.nodes[i]))
  }

  /** Hidden layer `l` after `update_weights`: stepped against the clone of the layer after
      it when there is one, and untouched when it is the last. */
  function UpdatedLayer(hidden: seq<Layer>, binding: seq<Layer>, l: nat, alpha: real): (r: Layer)
    requires l < |hidden| == |binding|
    ensures AgreeExcept(hidden[l], r, {Weights})
    ensures r == if l < |binding| - 1 then UpdateLayerWeights(hidden[l], binding[l + 1], alpha) else hidden[l]
  {
    if l < |binding| - 1 then UpdateLayerWeights(hidden[l], binding[l + 1], alpha) else hidden[l]
  }

  /** `update_weights(alpha)`: zips the live hidden layers with the clone shifted by one,
      so it visits the pairs (hidden[l], hidden[l + 1]) for l < d - 1. */
  function UpdateWeights(net: FatNet, alpha: real): (r: FatNet)
    ensures NetAgree(net, r, {Weights})
    ensures r.input == net.input && r.output == net.output
    ensures |net.hidden| > 0 ==> Last(r) == Last(net)
    ensures forall l :: 0 <= l < |net.hidden| - 1 ==>
      r.hidden[l] == UpdateLayerWeights(net.hidden[l], net.hidden[l + 1], alpha)
  {
    var binding := net.hidden;
    net.(hidden := seq(|net.hidden|, l requires 0 <= l < |net.hidden| => UpdatedLayer(net.hidden, binding, l, alpha)))
  }

  /** Weight `k` of node `i` of hidden layer `l < d - 1`, for `i` below the next layer's
      width and `k` below the layer's own width, moves by
      alpha * hidden[l + 1][i].error * hidden[l][k].activation. Every other weight of the
      network keeps its value. */
  lemma UpdateWeightsRule(net: FatNet, alpha: real, l: nat, i: nat, k: nat)
    requires l < |net.hidden| && i < Len(net.hidden[l]) && k < |net.hidden[l].nodes[i].weights|
    ensures var w := UpdateWeights(net, alpha).hidden[l].nodes[i].weights;
      && k < |w|
      && w[k] == net.hidden[l].nodes[i].weights[k] +
           (if l < |net.hidden| - 1 && i < Len(net.hidden[l + 1]) && k < Len(net.hidden[l]) then
              Delta(alpha, net.hidden[l + 1].nodes[i].error, net.hidden[l].nodes[k].activation)
            else 0.0)
  {
    var r := UpdateWeights(net, alpha);
    var n := net.hidden[l].nodes[i];
    if l < |net.hidden| - 1 {
      var h := UpdateLayerWeights(net.hidden[l], net.hidden[l + 1], alpha);
      assert r.hidden[l] == h;
      if i < Len(net.hidden[l + 1]) {
        var e := net.hidden[l + 1].nodes[i].error;
        var m := StepNode(n, e, net.hidden[l].nodes, alpha);
        assert h.nodes[i] == m;
        StepNodeWeight(n, e, net.hidden[l].nodes, alpha, k);
      } else {
        assert h.nodes[i] == n;
      }
    } else {
      assert r.hidden[l] == net.hidden[l];
    }
  }

  /** Two updates of one layer, against layers of equal errors, are one update by the
      summed rate. */
  lemma UpdateLayerWeightsAdditive(l: Layer, next: Layer, next2: Layer, alpha: real, beta: real)
    requires Len(next) == Len(next2)
    requires forall i :: 0 <= i < Len(next) ==> next.nodes[i].error == next2.nodes[i].error
    ensures UpdateLayerWeights(UpdateLayerWeights(l, next, alpha), next2, beta) ==
      UpdateLayerWeights(l, next, alpha + beta)
  {
    var one := UpdateLayerWeights(l, next, alpha);
    var two := UpdateLayerWeights(one, next2, beta);
    var sum := UpdateLayerWeights(l, next, alpha + beta);
    forall k | 0 <= k < Len(l)
      ensures l.nodes[k].activation == one.nodes[k].activation
    {
      assert Agree(l.nodes[k], one.nodes[k], {Weights});
    }
    forall i | 0 <= i < Len(l)
      ensures two.nodes[i] == sum.nodes[i]
    {
      if i < Len(next) {
        StepNodeAdditive(l.nodes[i], next.nodes[i].error, l.nodes, one.nodes, alpha, beta);
      }
    }
    assert two.nodes == sum.nodes;
  }

  /** Weight steps add up: two updates are one update by the summed rate, since the update
      reads only errors and activations, which it does not write. */
  lemma UpdateWeightsAdditive(net: FatNet, alpha: real, beta: real)
    ensures UpdateWeights(UpdateWeights(net, alpha), beta) == UpdateWeights(net, alpha + beta)
  {
    var one := UpdateWeights(net, alpha);
    var two := UpdateWeights(one, beta);
    var sum := UpdateWeights(net, alpha + beta);
    forall l | 0 <= l < |net.hidden| - 1
      ensures two.hidden[l] == sum.hidden[l]
    {
      var next := net.hidden[l + 1];
      var next2 := one.hidden[l + 1];
      assert AgreeExcept(next, next2, {Weights});
      forall i | 0 <= i < Len(next)
        ensures next.nodes[i].error == next2.nodes[i].error
      {
        assert Agree(next.nodes[i], next2.nodes[i], {Weights});
      }
      UpdateLayerWeightsAdditive(net.hidden[l], next, next2, alpha, beta);
    }
    assert two.hidden == sum.hidden;
  }

  /** With every hidden error zero, or a zero rate, the update moves nothing. */
  lemma UpdateWeightsIdle(net: FatNet, alpha: real)
    ensures HiddenErrorsZero(net) || alpha == 0.0 ==> UpdateWeights(net, alpha) == net
  {
    if HiddenErrorsZero(net) || alpha == 0.0 {
      var r := UpdateWeights(net, alpha);
      forall l | 0 <= l < |net.hidden| - 1
        ensures r.hidden[l] == net.hidden[l]
      {
        var h := net.hidden[l];
        forall i | 0 <= i < Len(h)
          ensures r.hidden[l].nodes[i] == h.nodes[i]
        {
          if i < Len(net.hidden[l + 1]) {
            StepNodeIdle(h.nodes[i], net.hidden[l + 1].nodes[i].error, h.nodes, alpha);
          }
        }
        assert r.hidden[l].nodes == h.nodes;
      }
      assert r.hidden == net.hidden;
    }
  }

  /** The sum into node 0 from a one-node layer. */
  lemma SingleNodeSum(l: Layer)
    requires Len(l) == 1 && |l.nodes[0].weights| >= 1
    ensures WeightedSum(l.nodes, 0) == l.nodes[0].activation * l.nodes[0].weights[0]
  {
    assert l.nodes[..0] == [];
  }

  /** The forward step between one-node layers whose single weight is 1. */
  lemma UnitStep(sigmoid: Squash, l: Layer, next: Layer)
    requires Len(l) == 1 && Len(next) == 1 && |l.nodes[0].weights| == 1 && l.nodes[0].weights[0] == 1.0
    requires next.nodes[0].bias == 0.0
    ensures Layers.Feedforward(sigmoid, l, next).nodes[0].activation == sigmoid(l.nodes[0].activation)
  {
    SingleNodeSum(l);
    assert WeightedSum(l.nodes, 0) + next.nodes[0].bias == l.nodes[0].activation;
  }

  /** The three-hidden-layer, one-node-per-layer network `New(1, (3, 1), 1)` builds, as
      far as the forward pass can tell. */
  predicate UnitChain3(net: FatNet)
  {
    && Len(net.input) == 1 && |net.hidden| == 3 && Len(net.output) == 1
    && Len(net.hidden[0]) == 1 && Len(net.hidden[1]) == 1 && Len(net.hidden[2]) == 1
    && Fresh(net.input.nodes[0], 1) && Fresh(net.hidden[0].nodes[0], 1)
    && Fresh(net.hidden[1].nodes[0], 1) && Fresh(net.hidden[2].nodes[0], 1)
    && net.output.nodes[0].bias == 0.0
  }

  /** The as-written pass on that network with input 1, for any squash taking the
      values below. */
  lemma StaleOutput(sigmoid: Squash, net: FatNet)
    requires UnitChain3(net) && Wired(net)
    requires sigmoid(0.0) == 0.5 && sigmoid(1.0) == 0.75 && sigmoid(0.5) == 2.0 / 3.0
    ensures GetOutput(Feedforward(sigmoid, net, [1.0]))[0] == 2.0 / 3.0
  {
    var a := Feedforward(sigmoid, net, [1.0]);
    FeedforwardSchedule(sigmoid, net, [1.0]);
    assert a.input.nodes[0].activation == 1.0;
    UnitStep(sigmoid, a.input, net.hidden[0]);
    UnitStep(sigmoid, net.hidden[1], net.hidden[2]);
    assert a.hidden[2].nodes[0].activation == 0.5;
    assert a.hidden[2].nodes[0].weights == net.hidden[2].nodes[0].weights;
    UnitStep(sigmoid, a.hidden[2], net.output);
  }

  /** The pipeline on that network with input 1, for any squash taking the values below. */
  lemma PipelineOutput(sigmoid: Squash, net: FatNet)
    requires UnitChain3(net) && Wired(net)
    requires sigmoid(1.0) == 0.75 && sigmoid(0.75) == 5.0 / 7.0
    requires sigmoid(5.0 / 7.0) == 17.0 / 24.0 && sigmoid(17.0 / 24.0) == 29.0 / 41.0
    ensures GetOutput(PipelineFeedforward(sigmoid, net, [1.0]))[0] == 29.0 / 41.0
  {
    var b := PipelineFeedforward(sigmoid, net, [1.0]);
    assert b.input.nodes[0].activation == 1.0;
    UnitStep(sigmoid, b.input, net.hidden[0]);
    assert b.hidden[0].nodes[0].activation == 0.75;
    assert b.hidden[0].nodes[0].weights == net.hidden[0].nodes[0].weights;
    UnitStep(sigmoid, b.hidden[0], net.hidden[1]);
    assert b.hidden[1].nodes[0].activation == 5.0 / 7.0;
    assert b.hidden[1].nodes[0].weights == net.hidden[1].nodes[0].weights;
    UnitStep(sigmoid, b.hidden[1], net.hidden[2]);
    assert b.hidden[2].nodes[0].activation == 17.0 / 24.0;
    assert b.hidden[2].nodes[0].weights == net.hidden[2].nodes[0].weights;
    UnitStep(sigmoid, b.hidden[2], net.output);
  }

  /** With three hidden layers the third is fed from the second's activations as they were
      before the pass, so the output differs from the pipeline's: with one node per layer,
      input 1 and the rational squash, 2/3 against 29/41. */
  lemma DeepFeedforwardReadsStaleActivations()
    ensures var net := New(1, (3, 1), 1);
      && GetOutput(Feedforward(Rational, net, [1.0]))[0] == 2.0 / 3.0
      && GetOutput(PipelineFeedforward(Rational, net, [1.0]))[0] == 29.0 / 41.0
  {
    var net := New(1, (3, 1), 1);
    assert UnitChain3(net);
    RationalValues();
    StaleOutput(Rational, net);
    PipelineOutput(Rational, net);
  }
}
