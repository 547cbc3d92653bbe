/** The coexpression network of analysis/flux_and_proteomics/coexpression_analysis.py:
    a correlation matrix is copied, its diagonal zeroed and its weak entries (below the
    cutoff in absolute value) zeroed; the nonzero entries become weighted edges of an
    undirected graph, nodes left without an edge are dropped, and on writing only the
    edges of the requested sign are kept. Nodes are matrix indices; the relabelling to
    gene ids is not part of this model. It is not a renaming in general: a protein the
    gene map does not know gets the label NaN, and relabelling in place merges the nodes
    that share a label. */
module Coexpression {
  import opened Common
  import opened Cobra

  /** An undirected weighted graph on nodes 0..n-1: the nodes still present, and the
      weight of each edge, keyed by its end points in increasing order. */
  datatype Graph = Graph(n: nat, nodes: set<nat>, weight: map<(nat, nat), real>)

  /** The key of the undirected edge between i and j. */
  function Key(i: nat, j: nat): (nat, nat)
  {
    if i <= j then (i, j) else (j, i)
  }

  // ---------------------------------------------------------------- the matrix

  /** `corr_df.copy()`: a new matrix with the same entries. */
  method Copy(corr: array2<real>) returns (cur: array2<real>)
    ensures fresh(cur)
    ensures cur.Length0 == corr.Length0 && cur.Length1 == corr.Length1
    ensures forall i, j :: 0 <= i < cur.Length0 && 0 <= j < cur.Length1 ==> cur[i, j] == corr[i, j]
  {
    cur := new real[corr.Length0, corr.Length1];
    for i := 0 to corr.Length0
      invariant forall p, q :: 0 <= p < i && 0 <= q < cur.Length1 ==> cur[p, q] == corr[p, q]
    {
      for j := 0 to corr.Length1
        invariant forall p, q :: 0 <= p < i && 0 <= q < cur.Length1 ==> cur[p, q] == corr[p, q]
        invariant forall q :: 0 <= q < j ==> cur[i, q] == corr[i, q]
      {
        cur[i, j] := corr[i, j];
      }
    }
  }

  /** `np.fill_diagonal(cur, 0)`: removes the self-edges. */
  method FillDiagonal(a: array2<real>)
    modifies a
    ensures forall i, j :: 0 <= i < a.Length0 && 0 <= j < a.Length1 ==>
      a[i, j] == if i == j then 0.0 else old(a[i, j])
  {
    for i := 0 to a.Length0
      invariant forall p, q :: 0 <= p < a.Length0 && 0 <= q < a.Length1 ==>
        a[p, q] == if p == q && p < i then 0.0 else old(a[p, q])
    {
      if i < a.Length1 {
        a[i, i] := 0.0;
      }
    }
  }

  /** `cur[abs(cur) < cutoff] = 0`: weak correlations are dropped, the others kept. */
  method ZeroWeak(a: array2<real>, cutoff: real)
    modifies a
    ensures forall i, j :: 0 <= i < a.Length0 && 0 <= j < a.Length1 ==>
      a[i, j] == if Abs(old(a[i, j])) < cutoff then 0.0 else old(a[i, j])
  {
    for i := 0 to a.Length0
      invariant forall p, q :: 0 <= p < a.Length0 && 0 <= q < a.Length1 ==>
        a[p, q] == if p < i && Abs(old(a[p, q])) < cutoff then 0.0 else old(a[p, q])
    {
      for j := 0 to a.Length1
        invariant forall p, q :: 0 <= p < a.Length0 && 0 <= q < a.Length1 ==>
          a[p, q] == if (p < i || (p == i && q < j)) && Abs(old(a[p, q])) < cutoff then 0.0 else old(a[p, q])
      {
        if Abs(a[i, j]) < cutoff {
          a[i, j] := 0.0;
        }
      }
    }
  }

  /** An entry of the correlation matrix after both steps. */
  function Masked(corr: array2<real>, cutoff: real, i: nat, j: nat): real
    requires i < corr.Length0 && j < corr.Length1
    reads corr
  {
    if i == j || Abs(corr[i, j]) < cutoff then 0.0 else corr[i, j]
  }

  // ---------------------------------------------------------------- the graph

  /** Entry (p, q) comes before entry (i, j) in row-major order. */
  predicate Before(p: nat, q: nat, i: nat, j: nat)
  {
    p < i || (p == i && q < j)
  }

  /** The edges that the entries before (r, c) in row-major order give. */
  ghost predicate EdgesUpTo(a: array2<real>, weight: map<(nat, nat), real>, r: nat, c: nat)
    requires a.Length0 == a.Length1
    reads a
  {
    && (forall e :: e in weight ==> e.0 <= e.1 < a.Length0)
    && (forall i, j | 0 <= i <= j < a.Length0 ::
          (i, j) in weight <==> (a[i, j] != 0.0 && Before(i, j, r, c)) || (a[j, i] != 0.0 && Before(j, i, r, c)))
    && (forall i, j | 0 <= i <= j < a.Length0 && (i, j) in weight ::
          weight[(i, j)] == if a[j, i] != 0.0 && Before(j, i, r, c) then a[j, i] else a[i, j])
  }

  /** `nx.from_numpy_matrix`: every nonzero entry, in row-major order, sets the weight
      of its undirected edge, so of the two entries of an edge the one below the
      diagonal, coming later, wins. */
  method FromMatrix(a: array2<real>) returns (weight: map<(nat, nat), real>)
    requires a.Length0 == a.Length1
    ensures EdgesUpTo(a, weight, a.Length0, 0)
  {
    weight := map[];
    var n := a.Length0;
    for i := 0 to n
      invariant EdgesUpTo(a, weight, i, 0)
    {
      for j := 0 to n
        invariant EdgesUpTo(a, weight, i, j)
      {
        EdgeStep(a, weight, i, j);
        if a[i, j] != 0.0 {
          weight := weight[Key(i, j) := a[i, j]];
        }
      }
      RowDone(a, weight, i);
    }
  }

  /** Entry (i, j) of FromMatrix's loop sets its edge's weight, if nonzero. */
  lemma EdgeStep(a: array2<real>, weight: map<(nat, nat), real>, i: nat, j: nat)
    requires a.Length0 == a.Length1 && i < a.Length0 && j < a.Length0
    requires EdgesUpTo(a, weight, i, j)
    ensures EdgesUpTo(a, if a[i, j] != 0.0 then weight[Key(i, j) := a[i, j]] else weight, i, j + 1)
  {
  }

  /** Finishing row i is starting row i + 1. */
  lemma RowDone(a: array2<real>, weight: map<(nat, nat), real>, i: nat)
    requires a.Length0 == a.Length1 && i < a.Length0
    requires EdgesUpTo(a, weight, i, a.Length0)
    ensures EdgesUpTo(a, weight, i + 1, 0)
  {
  }

  /** Edge e has i as an end point. */
  predicate Incident(e: (nat, nat), i: nat)
  {
    e.0 == i || e.1 == i
  }

  /** The nodes with an edge: `G.remove_nodes_from(list(nx.isolates(G)))` keeps these. */
  function Linked(weight: map<(nat, nat), real>): (r: set<nat>)
    ensures forall i: nat :: i in r <==> exists e :: e in weight && Incident(e, i)
  {
    var r := (set e | e in weight :: e.0) + (set e | e in weight :: e.1);
    assert forall e, i: nat | e in weight && Incident(e, i) :: i in r by {
      forall e, i: nat | e in weight && Incident(e, i) ensures i in r {
        if e.0 == i { assert e.0 in r; } else { assert e.1 in r; }
      }
    }
    r
  }

  /** `g` is the network built from `corr` with `cutoff`: nodes 0..n-1 of a square
      matrix, an edge between i <= j exactly when one of its two thresholded entries
      is nonzero, weighted by the later one (the entry below the diagonal) when that is
      nonzero, and only the nodes with an edge left. */
  ghost predicate NetworkOf(g: Graph, corr: array2<real>, cutoff: real)
    reads corr
  {
    && g.n == corr.Length0 == corr.Length1
    && (forall e :: e in g.weight ==> e.0 <= e.1 < g.n)
    && (forall i, j | 0 <= i <= j < g.n ::
          (i, j) in g.weight <==> Masked(corr, cutoff, i, j) != 0.0 || Masked(corr, cutoff, j, i) != 0.0)
    && (forall i, j | 0 <= i <= j < g.n && (i, j) in g.weight ::
          g.weight[(i, j)] == if Masked(corr, cutoff, j, i) != 0.0 then Masked(corr, cutoff, j, i) else Masked(corr, cutoff, i, j))
    && g.nodes == Linked(g.weight)
  }

  /** `build_network`: works on a copy, so the caller's matrix is left as it was (no
      `modifies`); a matrix that is not square is refused when the graph is built. */
  method BuildNetwork(corr: array2<real>, cutoff: real) returns (res: Result<Graph, string>)
    ensures res.Err? <==> corr.Length0 != corr.Length1
    ensures res.Ok? ==> NetworkOf(res.value, corr, cutoff)
  {
    var cur := Copy(corr);
    FillDiagonal(cur);
    ZeroWeak(cur, cutoff);
    assert forall i, j :: 0 <= i < cur.Length0 && 0 <= j < cur.Length1 ==> cur[i, j] == Masked(corr, cutoff, i, j);
    if cur.Length0 != cur.Length1 {
      return Err("Adjacency matrix is not square.");
    }
    var weight := FromMatrix(cur);
    var n := cur.Length0;
    res := Ok(Graph(n, Linked(weight), weight));
  }

  /** What a built network promises of each edge: it joins two different nodes, both
      kept; its weight is one of the edge's two matrix entries, nonzero and at least
      the cutoff in absolute value. */
  lemma EdgeProperties(g: Graph, corr: array2<real>, cutoff: real, i: nat, j: nat)
    requires NetworkOf(g, corr, cutoff) && (i, j) in g.weight
    ensures i < j < g.n && i in g.nodes && j in g.nodes
    ensures g.weight[(i, j)] != 0.0 && Abs(g.weight[(i, j)]) >= cutoff
    ensures g.weight[(i, j)] == corr[i, j] || g.weight[(i, j)] == corr[j, i]
  {
    assert Incident((i, j), i) && Incident((i, j), j);
  }

  /** For a symmetric matrix, as a correlation matrix is, each edge weighs the
      correlation of its two genes. */
  lemma SymmetricWeights(g: Graph, corr: array2<real>, cutoff: real, i: nat, j: nat)
    requires NetworkOf(g, corr, cutoff) && (i, j) in g.weight
    requires i < corr.Length0 && j < corr.Length0 && corr[i, j] == corr[j, i]
    ensures g.weight[(i, j)] == corr[i, j]
  {
  }

  /** Every node of a network has an edge. */
  lemma NoIsolates(g: Graph, corr: array2<real>, cutoff: real, i: nat)
    requires NetworkOf(g, corr, cutoff) && i in g.nodes
    ensures exists j: nat :: j < g.n && (Key(i, j) in g.weight)
  {
    var e :| e in g.weight && Incident(e, i);
    if e.0 == i {
      assert Key(i, e.1) == e;
    } else {
      assert Key(i, e.0) == e;
    }
  }

  // ---------------------------------------------------------------- write_network

  /** The graph `write_network` writes for `edges_to_keep`: all edges, the edges of
      weight at least 0, the edges of weight at most 0, or a ValueError for any other
      value. Nodes are never removed. */
  function Keep(g: Graph, edgesToKeep: string): (r: Result<Graph, string>)
    ensures r.Err? <==> edgesToKeep !in {"all", "positive", "negative"}
    ensures r.Ok? ==> r.value.n == g.n && r.value.nodes == g.nodes
    ensures r.Ok? ==> forall e :: e in r.value.weight ==> e in g.weight && r.value.weight[e] == g.weight[e]
    ensures edgesToKeep == "all" ==> r == Ok(g)
    ensures edgesToKeep == "positive" ==> forall e :: e in g.weight ==> (e in r.value.weight <==> g.weight[e] >= 0.0)
    ensures edgesToKeep == "negative" ==> forall e :: e in g.weight ==> (e in r.value.weight <==> g.weight[e] <= 0.0)
  {
    if edgesToKeep == "all" then Ok(g)
    else if edgesToKeep == "positive" then Ok(g.(weight := map e | e in g.weight && g.weight[e] >= 0.0 :: g.weight[e]))
    else if edgesToKeep == "negative" then Ok(g.(weight := map e | e in g.weight && g.weight[e] <= 0.0 :: g.weight[e]))
    else Err("Invalid value of edges_to_keep \"" + edgesToKeep + "\"")
  }

  /** Edge e is deleted under the mode: a negative weight when positives are kept, a
      positive weight when negatives are kept. */
  predicate Dropped(w: real, keepPositive: bool)
  {
    if keepPositive then w < 0.0 else w > 0.0
  }

  /** `write_network` up to the file output: collects `edges_to_del` over the edges,
      then removes them. */
  method WriteNetwork(g: Graph, edgesToKeep: string) returns (res: Result<Graph, string>)
    ensures res == Keep(g, edgesToKeep)
  {
    if edgesToKeep == "all" {
      return Ok(g);
    }
    if edgesToKeep != "positive" && edgesToKeep != "negative" {
      return Err("Invalid value of edges_to_keep \"" + edgesToKeep + "\"");
    }
    var keepPositive := edgesToKeep == "positive";
    var toDelete: seq<(nat, nat)> := [];
    var rest := g.weight.Keys;
    while rest != {}
      invariant rest <= g.weight.Keys
      invariant forall e :: e in toDelete <==> e in g.weight && e !in rest && Dropped(g.weight[e], keepPositive)
      decreases rest
    {
      var e :| e in rest;
      if Dropped(g.weight[e], keepPositive) {
        toDelete := toDelete + [e];
      }
      rest := rest - {e};
    }
    var weight := g.weight;
    for k := 0 to |toDelete|
      invariant forall e :: e in weight <==> e in g.weight && e !in toDelete[..k]
      invariant forall e :: e in weight ==> weight[e] == g.weight[e]
    {
      weight := weight - {toDelete[k]};
      assert toDelete[..k + 1] == toDelete[..k] + [toDelete[k]];
    }
    assert toDelete[..|toDelete|] == toDelete;
    ghost var kept := Keep(g, edgesToKeep).value.weight;
    assert forall e :: e in weight <==> e in kept;
    assert weight == kept;
    res := Ok(g.(weight := weight));
  }

  /** On a network, whose weights are never 0, the positive and the negative edges
      split the edges between them. */
  lemma SignsPartition(g: Graph, corr: array2<real>, cutoff: real)
    requires NetworkOf(g, corr, cutoff)
    ensures var pos, neg := Keep(g, "positive").value.weight, Keep(g, "negative").value.weight;
      pos.Keys !! neg.Keys && pos.Keys + neg.Keys == g.weight.Keys
  {
    var pos, neg := Keep(g, "positive").value.weight, Keep(g, "negative").value.weight;
    forall e | e in g.weight
      ensures e in pos.Keys + neg.Keys && !(e in pos && e in neg)
    {
      EdgeProperties(g, corr, cutoff, e.0, e.1);
    }
  }

  /** Keeping one sign a second time changes nothing. */
  lemma KeepIdempotent(g: Graph, edgesToKeep: string)
    requires Keep(g, edgesToKeep).Ok?
    ensures Keep(Keep(g, edgesToKeep).value, edgesToKeep) == Keep(g, edgesToKeep)
  {
    var k := Keep(g, edgesToKeep).value;
    var kk := Keep(k, edgesToKeep).value;
    assert forall e :: e in kk.weight <==> e in k.weight;
    assert kk.weight == k.weight;
  }
}
