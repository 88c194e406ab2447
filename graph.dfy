/** The read-only graph view the summary works on: one successor array per
    vertex, vertices numbered 0 .. n-1. It stands in for the compressed
    webgraph the original loads from disk. */
module Graphs {

  datatype Option<T> = None | Some(value: T)

  /** g[v] is the successor array of vertex v; duplicates are allowed. */
  type Graph = seq<seq<int>>

  /** Every successor is a vertex of the graph. */
  ghost predicate WellFormed(g: Graph)
  {
    forall v, i :: 0 <= v < |g| && 0 <= i < |g[v]| ==> 0 <= g[v][i] < |g|
  }

  /** Every listed vertex is a vertex of g. */
  ghost predicate AllVertices(g: Graph, us: seq<int>)
  {
    forall i :: 0 <= i < |us| ==> 0 <= us[i] < |g|
  }

  /** No successor array lists the same target twice. */
  ghost predicate SimpleLists(g: Graph)
  {
    forall v, i, j :: 0 <= v < |g| && 0 <= i < j < |g[v]| ==> g[v][i] != g[v][j]
  }

  /** The successor arrays of the vertices in us, one after the other. */
  function Successors(g: Graph, us: seq<int>): seq<int>
    requires AllVertices(g, us)
  {
    if us == [] then [] else Successors(g, us[..|us| - 1]) + g[us[|us| - 1]]
  }

  /** The sum of the out-degrees of the vertices in us. */
  function OutDegrees(g: Graph, us: seq<int>): nat
    requires AllVertices(g, us)
  {
    if us == [] then 0 else OutDegrees(g, us[..|us| - 1]) + |g[us[|us| - 1]]|
  }

  /** Concatenating the member lists concatenates their successor lists, and
      the length of the result is the total out-degree. */
  lemma {:induction false} SuccessorsAppend(g: Graph, xs: seq<int>, ys: seq<int>)
    requires AllVertices(g, xs) && AllVertices(g, ys)
    ensures AllVertices(g, xs + ys)
    ensures Successors(g, xs + ys) == Successors(g, xs) + Successors(g, ys)
    decreases |ys|
  {
    if ys != [] {
      var zs := xs + ys;
      assert zs[..|zs| - 1] == xs + ys[..|ys| - 1];
      SuccessorsAppend(g, xs, ys[..|ys| - 1]);
    } else {
      assert xs + ys == xs;
    }
  }

  lemma {:induction false} SuccessorsLength(g: Graph, us: seq<int>)
    requires AllVertices(g, us)
    ensures |Successors(g, us)| == OutDegrees(g, us)
    decreases |us|
  {
    if us != [] {
      SuccessorsLength(g, us[..|us| - 1]);
    }
  }
}
