/** A single unit of the network (src/network/node.rs). */
module Nodes {

  /** `weights[k]` is the strength of the connection to node `k` of the next layer. */
  datatype Node = Node(activation: real, bias: real, error: real, weights: seq<real>)

  /** The scalar fields an operation of the network may overwrite. */
  datatype Field = Activations | Errors | Weights

  /** Nothing computed yet, and no outgoing connections. */
  predicate Blank(n: Node)
  {
    n.activation == 0.0 && n.bias == 0.0 && n.error == 0.0 && n.weights == []
  }

  /** `Node::new`. */
  function New(): (n: Node)
    ensures Blank(n)
  {
    Node(0.0, 0.0, 0.0, [])
  }

  /** `Node::default`, which delegates to `Node::new`. */
  function Default(): (n: Node)
    ensures n == New()
    ensures Blank(n)
  {
    New()
  }

  /** A blank node is exactly the one `New` builds. */
  lemma BlankIsNew(n: Node)
    ensures Blank(n) <==> n == New()
  {
  }

  /** `m` and `n` differ at most in the fields listed in `except`; a weight vector keeps
      its length even when its values may change. */
  predicate Agree(m: Node, n: Node, except: set<Field>)
  {
    && (Activations !in except ==> m.activation == n.activation)
    && m.bias == n.bias
    && (Errors !in except ==> m.error == n.error)
    && |m.weights| == |n.weights|
    && (Weights !in except ==> m.weights == n.weights)
  }

  lemma AgreeTransitive(m: Node, n: Node, p: Node, e: set<Field>, f: set<Field>)
    requires Agree(m, n, e) && Agree(n, p, f)
    ensures Agree(m, p, e + f)
  {
  }
}
