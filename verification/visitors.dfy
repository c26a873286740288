/**
 * The forwarding behaviour of the base node visitor.
 *
 * A base `NodeVisitor` overrides nothing: each of its four `visit` overloads
 * hands the node to the visitor it was chained to, or drops the node when it
 * was built without one. A derived visitor such as the executor overrides all
 * four overloads and handles the node itself. The four overloads behave
 * identically, so one dispatch function stands for all of them.
 */
module Visitors {
  import opened Wrappers

  datatype Visitor =
    | Forwarding(next: Option<Visitor>)   // a base NodeVisitor and its `_next`
    | Overriding(name: string)            // a visitor that overrides every `visit`

  /**
   * The overriding visitor that ends up handling a node, if any: the one at
   * the end of the chain, or nobody when the chain ends without `_next`.
   */
  function Dispatch(v: Visitor): (r: Option<string>)
    ensures r.Some? ==> Last(v) == Overriding(r.value)
    ensures r.None? ==> Last(v) == Forwarding(None)
  {
    match v
    case Overriding(name) => Some(name)
    case Forwarding(None) => None
    case Forwarding(Some(next)) => Dispatch(next)
  }

  /** `v` behind `n` forwarding visitors. */
  function Chain(n: nat, v: Visitor): (c: Visitor)
    ensures n > 0 ==> c.Forwarding? && c.next.Some?
  {
    if n == 0 then v else Forwarding(Some(Chain(n - 1, v)))
  }

  /** Number of forwarding visitors in front of the end of the chain. */
  function Depth(v: Visitor): nat
  {
    match v
    case Forwarding(Some(next)) => 1 + Depth(next)
    case _ => 0
  }

  /** The visitor at the end of the chain: an overriding one or a bare base one. */
  function Last(v: Visitor): (w: Visitor)
    ensures w.Overriding? || w == Forwarding(None)
  {
    match v
    case Forwarding(Some(next)) => Last(next)
    case _ => v
  }

  /** Every visitor is a chain of forwarding visitors ending in its last one. */
  lemma {:induction false} ChainDecomposes(v: Visitor)
    ensures v == Chain(Depth(v), Last(v))
  {
    match v
    case Forwarding(Some(next)) =>
      ChainDecomposes(next);
    case _ =>
  }

  /** Forwarding visitors are transparent: a chain behaves like its last visitor. */
  lemma {:induction false} ForwardingIsTransparent(n: nat, v: Visitor)
    ensures Dispatch(Chain(n, v)) == Dispatch(v)
  {
    if n > 0 {
      ForwardingIsTransparent(n - 1, v);
    }
  }

  /**
   * A node reaches an overriding visitor exactly when the chain ends in one,
   * and is dropped when the chain ends in a base visitor without `_next`.
   */
  lemma DispatchReachesLast(v: Visitor)
    ensures Last(v).Overriding? ==> Dispatch(v) == Some(Last(v).name)
    ensures Dispatch(v) == None <==> Last(v) == Forwarding(None)
  {
    ChainDecomposes(v);
    ForwardingIsTransparent(Depth(v), Last(v));
  }
}
