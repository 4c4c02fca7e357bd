/**
  The `GCNNorm` graph transform: it replaces adjacency matrices by their
  symmetrically normalised form D^{-1/2}(A + I)D^{-1/2} (Kipf & Welling).

  The normalisation kernel `gcn_norm` lives in a module that is not part of this
  model, so every operation takes it as a parameter `norm`; what is modelled is
  which adjacencies the transform hands to the kernel and that nothing else
  changes. The adjacency type `A` and the other attributes `P` of a graph or edge
  store are type parameters, so the transform can neither inspect nor alter them.
 */
module GcnNorm {
  import opened Wrappers

  /** One edge store of a heterogeneous graph: an optional `adj` attribute, whether it
      links two different node types, and everything else it carries. */
  datatype EdgeStore<A, P> = EdgeStore(adj: Option<A>, bipartite: bool, attrs: P)

  /** `GraphData` (one node type) or `HeteroGraphData` (a top-level attribute store and
      a sequence of edge stores). `adj` is `None` when the attribute is absent. */
  datatype Graph<A, P> =
    | Homo(adj: Option<A>, attrs: P)
    | Hetero(adj: Option<A>, stores: seq<EdgeStore<A, P>>, attrs: P)

  /** The assertion a homogeneous graph without adjacency trips. */
  datatype NormError = MissingAdjacency

  /** Whether the transform normalises this store: it has an `adj` and is not bipartite. */
  predicate Normalizable<A, P>(s: EdgeStore<A, P>) {
    s.adj.Some? && !s.bipartite
  }

  /** Normalise an optional adjacency: present stays present (normalised), absent stays absent. */
  function NormalizeOptional<A>(norm: A -> A, adj: Option<A>): (r: Option<A>)
    ensures r.Some? <==> adj.Some?
    ensures adj.Some? ==> r.value == norm(adj.value)
  {
    match adj
    case None => None
    case Some(a) => Some(norm(a))
  }

  /** One iteration of the loop over `data.edge_stores`. */
  function NormalizeStore<A, P>(norm: A -> A, s: EdgeStore<A, P>): (r: EdgeStore<A, P>)
    ensures !Normalizable(s) ==> r == s
    ensures Normalizable(s) ==> r == s.(adj := Some(norm(s.adj.value)))
  {
    if s.adj.None? || s.bipartite then s
    else s.(adj := Some(norm(s.adj.value)))
  }

  /** The whole loop over the edge stores: same number, same order, each store handled on its own. */
  function NormalizeStores<A, P>(norm: A -> A, stores: seq<EdgeStore<A, P>>): (r: seq<EdgeStore<A, P>>)
    ensures |r| == |stores|
    ensures forall i :: 0 <= i < |stores| && !Normalizable(stores[i]) ==> r[i] == stores[i]
    ensures forall i :: 0 <= i < |stores| && Normalizable(stores[i])
              ==> r[i] == stores[i].(adj := Some(norm(stores[i].adj.value)))
  {
    if |stores| == 0 then []
    else [NormalizeStore(norm, stores[0])] + NormalizeStores(norm, stores[1..])
  }

  /** `GCNNorm.forward`. The source mutates its argument and returns it; here the
      updated graph is returned. */
  function Forward<A, P>(norm: A -> A, g: Graph<A, P>): (r: Result<Graph<A, P>, NormError>)
    ensures r.Failure? <==> g.Homo? && g.adj.None?
    ensures r.Success? ==> r.value.Homo? == g.Homo? && r.value.attrs == g.attrs
    ensures r.Success? ==> r.value.adj == NormalizeOptional(norm, g.adj)
    ensures g.Hetero? ==> r.Success? && r.value.stores == NormalizeStores(norm, g.stores)
  {
    match g
    case Homo(adj, attrs) =>
      if adj.None? then Failure(MissingAdjacency)
      else Success(Homo(Some(norm(adj.value)), attrs))
    case Hetero(adj, stores, attrs) =>
      Success(Hetero(NormalizeOptional(norm, adj), NormalizeStores(norm, stores), attrs))
  }

  /** A homogeneous graph with an adjacency gets exactly `gcn_norm` of it and nothing else changes. */
  lemma HomoNormalized<A, P>(norm: A -> A, a: A, attrs: P)
    ensures Forward(norm, Homo(Some(a), attrs)) == Success(Homo(Some(norm(a)), attrs))
  {
  }

  /** On a heterogeneous graph the top-level adjacency is replaced exactly when it is
      present, every store keeps its position, and a store changes only if it has an
      adjacency and is not bipartite. */
  lemma HeteroStoresNormalized<A, P>(norm: A -> A, g: Graph<A, P>)
    requires g.Hetero?
    ensures Forward(norm, g).Success?
    ensures var h := Forward(norm, g).value;
      && h.Hetero?
      && (h.adj.Some? <==> g.adj.Some?)
      && (g.adj.Some? ==> h.adj == Some(norm(g.adj.value)))
      && |h.stores| == |g.stores|
      && (forall i :: 0 <= i < |g.stores| ==>
            h.stores[i].bipartite == g.stores[i].bipartite && h.stores[i].attrs == g.stores[i].attrs)
      && (forall i :: 0 <= i < |g.stores| && h.stores[i] != g.stores[i] ==>
            g.stores[i].adj.Some? && !g.stores[i].bipartite)
  {
  }

  /** A heterogeneous graph without any adjacency is accepted and returned unchanged. */
  lemma HeteroWithoutAdjacencyUnchanged<A, P>(norm: A -> A, g: Graph<A, P>)
    requires g.Hetero? && g.adj.None?
    requires forall i :: 0 <= i < |g.stores| ==> g.stores[i].adj.None?
    ensures Forward(norm, g) == Success(g)
  {
    var r := NormalizeStores(norm, g.stores);
    assert r == g.stores;
  }

  /** Composing the store loop twice is the store loop of the composed kernel. */
  lemma {:induction false} NormalizeStoresTwice<A, P>(norm: A -> A, stores: seq<EdgeStore<A, P>>)
    ensures NormalizeStores(norm, NormalizeStores(norm, stores))
         == NormalizeStores(x => norm(norm(x)), stores)
  {
    if |stores| > 0 {
      NormalizeStoresTwice(norm, stores[1..]);
      assert NormalizeStores(norm, stores)[1..] == NormalizeStores(norm, stores[1..]);
    }
  }

  /** Nothing guards against a second application: running the transform twice runs the
      kernel twice on every adjacency it touches. */
  lemma ForwardTwice<A, P>(norm: A -> A, g: Graph<A, P>)
    requires Forward(norm, g).Success?
    ensures Forward(norm, Forward(norm, g).value) == Forward(x => norm(norm(x)), g)
  {
    if g.Hetero? {
      NormalizeStoresTwice(norm, g.stores);
    }
  }

  /** Hence the transform is not idempotent whenever the kernel is not idempotent on the
      adjacency it is given. */
  lemma ForwardNotIdempotent<A, P>(norm: A -> A, a: A, attrs: P)
    requires norm(norm(a)) != norm(a)
    ensures Forward(norm, Forward(norm, Homo(Some(a), attrs)).value) != Forward(norm, Homo(Some(a), attrs))
  {
    ForwardTwice(norm, Homo(Some(a), attrs));
  }
}
