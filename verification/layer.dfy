/** An ordered, fixed-width collection of nodes, and the one-step forward propagation
    between two adjacent layers (src/network/layer.rs). */
module Layers {
  import opened Squashing
  import opened Nodes

  datatype Layer = Layer(nodes: seq<Node>)

  /** `Layer::len`: the number of nodes, the bound every index into the layer respects. */
  function Len(l: Layer): (n: nat)
  {
    |l.nodes|
  }

  /** `Layer::new`: `width` default nodes. */
  function New(width: nat): (l: Layer)
    ensures Len(l) == width
    ensures forall j :: 0 <= j < width ==> l.nodes[j] == Nodes.Default()
  {
    Layer(seq(width, _ => Nodes.Default()))
  }

  /** `Index`: reading node `i`, which panics unless `i < len()`. */
  function At(l: Layer, i: nat): (n: Node)
    requires i < Len(l)
  {
    l.nodes[i]
  }

  /** `len()` is zero exactly for the layer without nodes. */
  lemma LenZero(l: Layer)
    ensures Len(l) == 0 <==> l == Layer([])
  {
  }

  /** `Index` returns node `i` of the layer: the layer splits around it. */
  lemma IndexSplits(l: Layer, i: nat)
    requires i < Len(l)
    ensures At(l, i) in l.nodes
    ensures l.nodes[..i] + [At(l, i)] + l.nodes[i + 1..] == l.nodes
  {
  }

  /** `IndexMut`: overwriting node `i`, which panics unless `i < len()`. */
  function Put(l: Layer, i: nat, n: Node): (r: Layer)
    requires i < Len(l)
    ensures Len(r) == Len(l)
    ensures At(r, i) == n
    ensures forall j :: 0 <= j < Len(l) && j != i ==> At(r, j) == At(l, j)
  {
    Layer(l.nodes[i := n])
  }

  /** Writing back the node just read changes nothing, and reading the node just written
      gives it back. */
  lemma PutAt(l: Layer, i: nat, n: Node)
    requires i < Len(l)
    ensures Put(l, i, At(l, i)) == l
    ensures At(Put(l, i, n), i) == n
  {
  }

  /** Node-by-node agreement outside the fields in `except`, with equal widths. */
  predicate AgreeExcept(a: Layer, b: Layer, except: set<Field>)
  {
    Len(a) == Len(b) && forall j :: 0 <= j < Len(a) ==> Agree(a.nodes[j], b.nodes[j], except)
  }

  lemma AgreeExceptTransitive(a: Layer, b: Layer, c: Layer, e: set<Field>, f: set<Field>)
    requires AgreeExcept(a, b, e) && AgreeExcept(b, c, f)
    ensures AgreeExcept(a, c, e + f)
  {
    forall j | 0 <= j < Len(a)
      ensures Agree(a.nodes[j], c.nodes[j], e + f)
    {
      AgreeTransitive(a.nodes[j], b.nodes[j], c.nodes[j], e, f);
    }
  }

  /** Every node of `l` has at least `width` outgoing weights: what the forward step into a
      layer of that width indexes. */
  predicate Reaches(l: Layer, width: nat)
  {
    forall j :: 0 <= j < Len(l) ==> |l.nodes[j].weights| >= width
  }

  /** Every node of `l` has exactly `width` outgoing weights. */
  predicate FansOut(l: Layer, width: nat)
  {
    forall j :: 0 <= j < Len(l) ==> |l.nodes[j].weights| == width
  }

  /** Agreement keeps every weight vector's length, so it keeps what a layer reaches. */
  lemma ReachesKept(a: Layer, b: Layer, except: set<Field>, width: nat)
    requires AgreeExcept(a, b, except) && Reaches(a, width)
    ensures Reaches(b, width)
  {
  }

  lemma FansOutKept(a: Layer, b: Layer, except: set<Field>, width: nat)
    requires AgreeExcept(a, b, except) && FansOut(a, width)
    ensures FansOut(b, width)
  {
  }

  /** Σ n.activation * n.weights[i] over `nodes`, accumulated from the first node on. */
  function WeightedSum(nodes: seq<Node>, i: nat): (s: real)
    requires forall j :: 0 <= j < |nodes| ==> i < |nodes[j].weights|
    ensures |nodes| == 1 ==> s == nodes[0].activation * nodes[0].weights[i]
    ensures (forall j :: 0 <= j < |nodes| ==> nodes[j].activation == 0.0) ==> s == 0.0
  {
    if |nodes| == 0 then 0.0
    else
      var n := nodes[|nodes| - 1];
      WeightedSum(nodes[..|nodes| - 1], i) + n.activation * n.weights[i]
  }

  /** Every node of `nodes` has a weight at index `i`. */
  predicate Indexable(nodes: seq<Node>, i: nat)
  {
    forall j :: 0 <= j < |nodes| ==> i < |nodes[j].weights|
  }

  /** Concatenating two indexable node lists keeps them indexable. */
  lemma IndexableConcat(a: seq<Node>, b: seq<Node>, i: nat)
    requires Indexable(a, i) && Indexable(b, i)
    ensures Indexable(a + b, i)
  {
    forall j | 0 <= j < |a + b| ensures i < |(a + b)[j].weights| {
      if j >= |a| { assert (a + b)[j] == b[j - |a|]; }
    }
  }

  /** The sum over a concatenation is the sum of the sums of its two parts. */
  lemma {:induction false} WeightedSumSplit(a: seq<Node>, b: seq<Node>, i: nat)
    requires Indexable(a, i) && Indexable(b, i)
    ensures Indexable(a + b, i)
    ensures WeightedSum(a + b, i) == WeightedSum(a, i) + WeightedSum(b, i)
    decreases |b|
  {
    IndexableConcat(a, b, i);
    if |b| == 0 {
      assert a + b == a;
    } else {
      var b' := b[..|b| - 1];
      assert Indexable(b', i);
      assert (a + b)[..|a + b| - 1] == a + b';
      WeightedSumSplit(a, b', i);
    }
  }

  /** `Layer::feedforward(self, next)`: node `i` of `next` gets the squashed weighted sum
      of this layer's activations plus its own bias. The source panics when some node of
      `self` has fewer than `next.len()` weights. */
  function Feedforward(sigmoid: Squash, l: Layer, next: Layer): (r: Layer)
    requires Reaches(l, Len(next))
    ensures AgreeExcept(next, r, {Activations})
    ensures forall i :: 0 <= i < Len(r) ==>
      r.nodes[i].activation == sigmoid(WeightedSum(l.nodes, i) + next.nodes[i].bias)
    ensures Len(l) == 0 ==> forall i :: 0 <= i < Len(r) ==>
      r.nodes[i].activation == sigmoid(next.nodes[i].bias)
    ensures forall i :: 0 <= i < Len(r) ==> 0.0 < r.nodes[i].activation < 1.0
  {
    Layer(seq(Len(next), i requires 0 <= i < Len(next) =>
      next.nodes[i].(activation := sigmoid(WeightedSum(l.nodes, i) + next.nodes[i].bias))))
  }

  /** The inner loop of `Layer::feedforward`: the sum for node `i` of the next layer,
      accumulated over this layer's nodes in order. */
  method SumLoop(l: Layer, i: nat) returns (sum: real)
    requires forall j :: 0 <= j < |l.nodes| ==> i < |l.nodes[j].weights|
    ensures sum == WeightedSum(l.nodes, i)
  {
    sum := 0.0;
    var j := 0;
    while j < Len(l)
      invariant 0 <= j <= Len(l)
      invariant sum == WeightedSum(l.nodes[..j], i)
    {
      assert l.nodes[..j + 1][..j] == l.nodes[..j];
      sum := sum + l.nodes[j].activation * l.nodes[j].weights[i];
      j := j + 1;
    }
    assert l.nodes[..j] == l.nodes;
  }

  /** The outer loop of `Layer::feedforward` as written: for each node of `next`, take the
      sum, add the bias, squash, store. */
  method FeedforwardLoop(sigmoid: Squash, l: Layer, next: Layer) returns (r: Layer)
    requires Reaches(l, Len(next))
    ensures r == Feedforward(sigmoid, l, next)
  {
    ghost var spec := Feedforward(sigmoid, l, next);
    r := next;
    var i := 0;
    while i < Len(r)
      invariant 0 <= i <= Len(r) == Len(next)
      invariant forall k :: 0 <= k < i ==> r.nodes[k] == spec.nodes[k]
      invariant forall k :: i <= k < Len(r) ==> r.nodes[k] == next.nodes[k]
    {
      var sum := SumLoop(l, i);
      sum := sum + r.nodes[i].bias;
      var fed := r.nodes[i].(activation := sigmoid(sum));
      assert Nodes.Agree(next.nodes[i], spec.nodes[i], {Activations});
      assert fed == spec.nodes[i];
      r := Put(r, i, fed);
      i := i + 1;
    }
    assert r.nodes == spec.nodes;
  }
}
