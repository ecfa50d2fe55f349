# neurolite multilayer perceptron, modelled in Dafny

This project models the hand-rolled multilayer perceptron of `src/network/`. A `Node`
holds an activation, a bias, an error term and its outgoing weights. A `Layer` is an
ordered sequence of nodes. A `FatNet` is an input layer, a non-empty list of hidden
layers and an output layer. The model covers construction, the forward pass, the
output error, back-propagation, the weight update and output read-back. It also covers
the small interlaced-matrix element of `src/matrix_utils.rs`.

The model is functional. Every operation is a pure function from a network to the
updated network. Rust's 32-bit floats are Dafny `real`s: arithmetic is exact, with no rounding, NaN or
infinity, so every numeric claim below is about finite values computed exactly. The sigmoid is a parameter of
type `Squashing.Squash`: any function into the open interval (0, 1), and nothing more is
assumed of it. Panics become preconditions: `FatNet::new` needs at least one hidden
layer, and `Layer::feedforward` needs every node to have at least as many weights as the
next layer has nodes. The zip-based loops truncate to the shorter side, exactly as the
source does.

Modules, one per source file or concern:

- `Squashing` (squashing.dfy): the `Squash` type, and a strictly increasing rational
  squash used to compute one concrete forward pass exactly.
- `Nodes` (node.dfy): `Node`, `Node::new`, `Default`, and the frame predicate `Agree`,
  which says which fields an operation may change.
- `Layers` (layer.dfy): `Layer`, `Layer::new`, indexing, and the one-step forward
  propagation as a function plus a loop-for-loop method proved equal to it.
- `Network` (network.dfy): `FatNet` and its operations, split into the four statements of
  `feedforward`.
- `Training` (training.dfy): the public calls applied in sequence from construction. It
  shows what stays true of every reachable network.
- `MatrixUtils` (matrix_utils.dfy): `LacedMatrixElement`, its `Add` and `Zero`, and
  `interlace` over rectangular `seq<seq<real>>`.

What the model pins down about the code as written:

- `backprop` writes the hidden error terms into a clone of the hidden layers and then
  drops the clone. Its effect is exactly `update_output_error`
  (`Network.Backprop`).
- Hidden errors start at zero and are never written. So in every network reachable from
  construction with finite inputs, targets and rates, `update_weights` changes nothing
  and every weight stays at its constructed 1.0 (`Training.ReachableNetworksAreFrozen`).
- `update_weights` pairs weight `k` of node `i` with the error of node `i` of the next
  layer and the activation of node `k` of the same layer (`Network.UpdateWeightsRule`).
- For three or more hidden layers, `feedforward` feeds `hidden[k+1]` (for `k >= 1`) from
  the activations `hidden[k]` had before the pass (`Network.FeedforwardSchedule`). See
  Findings.

## Model

| member | source | states |
|---|---|---|
| `Nodes.New` | src/network/node.rs:13-20 | a new node has activation, bias and error 0 and no outgoing weights |
| `Nodes.Default` | src/network/node.rs:23-27 | the default node is the one `Node::new` builds |
| `Nodes.BlankIsNew` | src/network/node.rs:13-20 | a node is blank exactly when it equals the new node |
| `Layers.New` | src/network/layer.rs:12-16 | `Layer::new(n)` has exactly `n` nodes, each the default node |
| `Layers.LenZero` | src/network/layer.rs:34-36 | `len()` counts the nodes: it is 0 exactly for the layer with no nodes |
| `Layers.IndexSplits` | src/network/layer.rs:39-45 | `Index` at `i < len()` returns node `i`: a node of the layer around which the layer splits into its first `i` nodes and the rest |
| `Layers.Put` | src/network/layer.rs:47-51 | writing through `IndexMut` at `i < len()` replaces node `i`, keeps the length and leaves every other node as it was |
| `Layers.PutAt` | src/network/layer.rs:39-51 | writing back the node just read changes nothing, and reading the node just written returns it |
| `Layers.WeightedSum` | src/network/layer.rs:20-25 | the sum the inner loop accumulates: over one node it is that node's activation times `weights[i]`, and it is 0 when every activation is 0 |
| `Layers.WeightedSumSplit` | src/network/layer.rs:20-25 | the weighted sum over two runs of nodes one after the other is the sum of the two runs' sums |
| `Layers.Feedforward` | src/network/layer.rs:18-32 | with every node of `self` reaching the next layer's width, node `i` of `next` gets sigmoid(Σ activation·weights[i] over `self` in order, plus its bias), which is sigmoid(bias) for an empty `self`; the new activation lies in (0,1); bias, error, weights and length of `next` are unchanged |
| `Layers.SumLoop` | src/network/layer.rs:20-25 | the inner loop accumulates exactly the weighted sum over the layer's nodes, first node first |
| `Layers.FeedforwardLoop` | src/network/layer.rs:18-32 | the nested loops as written compute the same layer as the functional definition |
| `Network.New` | src/network/mod.rs:25-61 | with depth >= 1, `new(i, (d, w), o)` has input width `i`, `d` hidden layers of width `w`, output width `o`; input and non-last hidden nodes carry `w` weights all 1.0, last hidden nodes carry `o` weights all 1.0, output nodes carry none; every activation, bias and error is 0 |
| `Network.AssignActivations` | src/network/mod.rs:66-68 | the zip of input nodes with the input vector: node `j` takes `x[j]` for `j` below both lengths and keeps its activation otherwise; only activations change |
| `Network.FeedInput` | src/network/mod.rs:66-68 | input node `j` takes `x[j]` for `j < min(|x|, i)`; every other input activation and every other field is unchanged |
| `Network.FeedFirstHidden` | src/network/mod.rs:71 | the first hidden layer is fed from the input layer; nothing else changes |
| `Network.FeedHiddenChain` | src/network/mod.rs:74-76 | the hidden-to-hidden loop feeds each layer after the first from its predecessor as it stood in the clone taken before the loop |
| `Network.HiddenPass` | src/network/mod.rs:74-76 | the zip of the clone with the live layers after the first: live layer `k+1` is fed from clone layer `k`, layer 0 is untouched, only activations change, and every layer after the first ends with activations in (0,1) |
| `Network.FeedOutput` | src/network/mod.rs:79 | the output layer is fed from the current last hidden layer |
| `Network.Feedforward` | src/network/mod.rs:64-80 | the forward pass changes only activations: no weight, bias, error or width changes; input activations follow the zip truncation; every hidden activation and every value of `get_output` lies in (0,1), and `get_output` has the output width |
| `Network.FeedforwardSchedule` | src/network/mod.rs:70-79 | `hidden[0]` is fed from the assigned input, `hidden[1]` from the fresh `hidden[0]`, `hidden[k+1]` for `k >= 1` from the pre-pass `hidden[k]`, and the output from the fresh last hidden layer |
| `Network.ShallowFeedforwardIsPipeline` | src/network/mod.rs:74-76 | with one or two hidden layers the pass as written equals the strict sequential pipeline |
| `Network.DeepFeedforwardReadsStaleActivations` | src/network/mod.rs:74-76 | on `new(1, (3, 1), 1)` with input [1] the pass as written outputs 2/3 under the rational squash, while the pipeline outputs 29/41 |
| `Network.PipelineFeedforward` | src/network/mod.rs:73-76 | the corrected pass: every hidden layer after the first is fed from its predecessor's fresh activations; the same frame, input truncation, hidden range (0,1), output length and output range (0,1) as the pass as written |
| `Network.GetOutput` | src/network/mod.rs:93-95 | `get_output` lists the output activations in node order, one per output node |
| `Network.UpdateOutputError` | src/network/mod.rs:97-103 | output node `k` gets error (t[k] - a)·a·(1 - a) for `k < min(|t|, o)`; every other error and every other field is unchanged |
| `Network.OutputDelta` | src/network/mod.rs:101 | the output delta vanishes at a saturated activation (0 or 1) and when the target equals the activation |
| `Network.OutputDeltaSign` | src/network/mod.rs:101 | for an activation in (0,1) the output delta is positive, zero or negative exactly as the target is above, at or below the activation |
| `Network.UpdateOutputErrorIdempotent` | src/network/mod.rs:97-103 | a second `update_output_error` with the same targets changes nothing |
| `Network.ScratchLayer` | src/network/mod.rs:87-89 | the inner backprop loop gives node `i` the error next[i].error·a·(1 - a) for `i` below both widths and changes nothing else |
| `Network.HiddenErrorScratch` | src/network/mod.rs:86-90 | the backprop loop rewrites each hidden layer but the last from the live layer after it; only error terms change |
| `Network.HiddenErrorScratchOfZeros` | src/network/mod.rs:86-90 | with all hidden errors zero the backprop loop's writes would leave the hidden layers unchanged |
| `Network.Backprop` | src/network/mod.rs:82-91 | `backprop(t)` has exactly the effect of `update_output_error(t)`; every hidden layer, and so every hidden error, is unchanged |
| `Network.StepNode` | src/network/mod.rs:115-117 | stepping one node changes only its weight values, never their count; with zero error, zero rate or an empty clone it changes nothing |
| `Network.StepNodeWeight` | src/network/mod.rs:115-117 | weight `k` of a node moves by alpha·error·activation[k] when `k` is below the clone's length and stays otherwise |
| `Network.StepNodeAdditive` | src/network/mod.rs:115-117 | two steps of one node are one step by the summed rate |
| `Network.StepNodeIdle` | src/network/mod.rs:115-117 | a step with zero error or zero rate leaves the node unchanged |
| `Network.UpdateLayerWeights` | src/network/mod.rs:113-121 | node `i` of a hidden layer is stepped with the error of node `i` of the next layer when `i` is below its width and is unchanged otherwise; only weight values change |
| `Network.UpdateWeights` | src/network/mod.rs:105-124 | `update_weights` changes only weight values of hidden layers `0..d-1`; input, output and last hidden layer, all activations, biases, errors and all lengths are unchanged |
| `Network.UpdateWeightsRule` | src/network/mod.rs:108-122 | weight `k` of node `i` of hidden layer `l < d-1`, with `i` below the next width and `k` below the layer width, gains alpha·hidden[l+1][i].error·hidden[l][k].activation; every other weight keeps its value |
| `Network.UpdateLayerWeightsAdditive` | src/network/mod.rs:110-121 | two updates of one hidden layer are one update by the summed rate |
| `Network.UpdateWeightsAdditive` | src/network/mod.rs:105-124 | two weight updates with rates alpha and beta equal one with rate alpha + beta |
| `Network.UpdateWeightsIdle` | src/network/mod.rs:105-124 | with every hidden error zero, or rate zero, `update_weights` leaves the network unchanged |
| `Training.Apply` | src/network/mod.rs:64-124 | each public call keeps the constructed shape; from zero hidden errors it keeps them zero and changes only activations and errors |
| `Training.Run` | src/network/mod.rs:64-124 | any sequence of public calls keeps the constructed shape; from zero hidden errors it keeps them zero and keeps every weight |
| `Training.NewWeightsAllOne` | src/network/mod.rs:33-54 | every input and hidden weight of a new network is 1.0 |
| `Training.ReachableNetworksAreFrozen` | src/network/mod.rs:82-122 | in exact arithmetic, in every network reachable from `new` by public calls the hidden errors are zero, `update_weights` changes nothing, and every input and hidden weight is 1.0 |
| `MatrixUtils.NewLaced` | src/matrix_utils.rs:11-13 | `new(a, b)` holds `a` first and `b` second |
| `MatrixUtils.FromPair` | src/matrix_utils.rs:16-20 | converting a pair gives the element whose first component is the pair's first and whose second is the pair's second |
| `MatrixUtils.FromPairRoundTrip` | src/matrix_utils.rs:16-20 | a laced element and its pair of components convert into each other |
| `MatrixUtils.Add` | src/matrix_utils.rs:31-33 | addition is componentwise |
| `MatrixUtils.Zero` | src/matrix_utils.rs:37-39 | `zero()` is (0, 0) |
| `MatrixUtils.IsZero` | src/matrix_utils.rs:41-43 | `is_zero` holds exactly of `zero()` |
| `MatrixUtils.SetZero` | src/matrix_utils.rs:45-47 | after `set_zero` the value is `zero()` and `is_zero` holds |
| `MatrixUtils.IsZeroIffZero` | src/matrix_utils.rs:41-43 | `is_zero` holds exactly of `zero()`, both components 0 |
| `MatrixUtils.AddMonoid` | src/matrix_utils.rs:28-48 | `zero()` is a two-sided identity of `Add`, which is commutative and associative |
| `MatrixUtils.Interlace` | src/matrix_utils.rs:55-68 | for equal-shape inputs the result has their shape and entry (i, j) is (a[i][j], b[i][j]) |
| `MatrixUtils.InterlaceProjections` | src/matrix_utils.rs:61-65 | projecting first components of the interlaced matrix gives `a`, second components give `b` |
| `MatrixUtils.InterlaceOfProjections` | src/matrix_utils.rs:61-65 | interlacing the two projections of a rectangular matrix of pairs gives it back |
| `MatrixUtils.InterlaceLoop` | src/matrix_utils.rs:60-65 | the zero-filled matrix overwritten entry by entry ends equal to the interlace |

## Findings

| source | as written | input that shows it | evidently intended | confidence | as-written member | corrected member |
|---|---|---|---|---|---|---|
| src/network/mod.rs:74-76 | the hidden-to-hidden loop iterates a clone of the hidden layers, so for `k >= 1` layer `k+1` is fed from the activations layer `k` had before this pass | `new(1, (3, 1), 1)`, input [1.0], the rational squash: output 2/3, where the pipeline gives 29/41 | each layer fed from its predecessor's freshly computed activations, a strict layer-by-layer pipeline, as the comment on `feedforward` at line 63 ("feed it forward through the network") reads | medium, not executed | `Network.DeepFeedforwardReadsStaleActivations` | `Network.PipelineFeedforward` |

`Network.Feedforward` keeps the as-written behaviour because it is what the code does.
`Network.PipelineFeedforward` has the same frame and range contracts. So every result of
`Training` that depends only on those contracts holds for either pass.

## Left out

- Floating point: all f32 arithmetic is modelled as exact real arithmetic without
  rounding, NaN or infinity. The program can differ on non-finite or rounded values. For
  example, `update_weights(f32::INFINITY)` turns a weight into NaN, because infinity times
  a zero error is NaN.
- `Training.ReachableNetworksAreFrozen` holds only for finite inputs, targets and rates in
  exact arithmetic. An infinite rate, or a NaN input whose NaN reaches a weight, breaks
  it in the program.
- `Network.StepNodeAdditive` holds only in exact arithmetic. In f32, two tiny steps can
  each round away while one step by their summed rate does not.
- `Network.UpdateLayerWeightsAdditive` holds only in exact arithmetic, for the same
  rounding reason.
- `Network.UpdateWeightsAdditive` holds only in exact arithmetic, for the same rounding
  reason.
- Sigmoid: f32 rounding and the `exp` call are not modelled. The sigmoid is any function
  into (0, 1). A real f32 sigmoid saturates to exactly 1.0 for large inputs, and the
  model claims nothing about floats.
- `d_sigmoid` is not modelled: nothing calls it. The backward pass computes a·(1 - a)
  inline.
- The private `update_weight` helper (src/network/mod.rs:127-138) is not modelled:
  nothing calls it.
- The `println!` calls inside `update_weights` are output only.
- The `Display` and `Debug` impls are formatting only.
- `FatNet::default`, which is `new(4, (2, 2), 1)`, is not modelled separately.
- src/network.rs, src/main.rs and src/matrix.rs are not part of this model. They hold an
  abandoned zero-allocating network, a demo `main` and a shape holder with no behaviour.
- `LacedMatrixElement` is modelled over reals only. The source's `Add` and `Zero` impls
  exist only for f32.
- `MatrixUtils.Interlace`: a matrix with no rows is modelled as having no columns, because
  a sequence of rows cannot carry a column count. A nalgebra matrix with zero rows can.
- Hardened error results for bad topology, mismatched lengths or out-of-order calls are
  not modelled, because the code has none. Panics are preconditions, and length
  mismatches truncate as the zips do.
