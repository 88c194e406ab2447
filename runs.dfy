/** encodePhase_new, the sorting encoder: it lists every edge (u, v) with
    D[u] <= D[v] as a four-tuple (D[u], D[v], u, v), sorts the list by
    block, and decides each block when the run of its tuples ends. */
module Runs {
  import opened Graphs
  import opened Encoding

  /** One listed edge: its block (A, B) and its endpoints (u, v). */
  datatype FourTuple = FourTuple(A: int, B: int, u: int, v: int)

  /** The block of a tuple. */
  function KeyOf(t: FourTuple): Edge
  {
    (t.A, t.B)
  }

  /** The lexicographic order of blocks. */
  predicate KeyLe(a: Edge, b: Edge)
  {
    a.0 < b.0 || (a.0 == b.0 && a.1 <= b.1)
  }

  /** The tuples come block by block in ascending order. */
  predicate Sorted(s: seq<FourTuple>)
  {
    forall i, j :: 0 <= i < j < |s| ==> KeyLe(KeyOf(s[i]), KeyOf(s[j]))
  }

  // ---------------------------------------------------------------------
  // Listing the edges

  /** The tuples of the edges out of node, in the order of ns, for the
      edges that go to a dense id at least node's. */
  function RowTuples(D: seq<int>, node: int, ns: seq<int>): seq<FourTuple>
  {
    if ns == [] then []
    else
      var v := ns[|ns| - 1];
      RowTuples(D, node, ns[..|ns| - 1])
        + (if At(D, node) <= At(D, v) then [FourTuple(At(D, node), At(D, v), node, v)] else [])
  }

  /** The tuples of the vertices below k, vertex by vertex. */
  function Tuples(g: Graph, D: seq<int>, k: nat): seq<FourTuple>
    requires k <= |g|
  {
    if k == 0 then [] else Tuples(g, D, k - 1) + RowTuples(D, k - 1, g[k - 1])
  }

  /** t lists an edge whose block is upward, with the dense ids of its
      endpoints. */
  ghost predicate TupleOK(x: Ctx, t: FourTuple)
  {
    && IsEdge(x.g, (t.u, t.v))
    && t.A == At(x.D, t.u) && t.B == At(x.D, t.v) && t.A <= t.B
  }

  /** Every tuple of s is one of x. */
  ghost predicate AllOK(x: Ctx, s: seq<FourTuple>)
  {
    forall t :: t in s ==> TupleOK(x, t)
  }

  /** Every edge of x with an upward block has its tuple in s. */
  ghost predicate Covers(x: Ctx, s: seq<FourTuple>)
  {
    forall e :: IsEdge(x.g, e) && At(x.D, e.0) <= At(x.D, e.1) ==>
      FourTuple(At(x.D, e.0), At(x.D, e.1), e.0, e.1) in s
  }

  lemma {:induction false} RowTuplesIff(D: seq<int>, node: int, ns: seq<int>)
    ensures forall t :: t in RowTuples(D, node, ns) <==>
              t.u == node && t.v in ns && t.A == At(D, node) && t.B == At(D, t.v) && t.A <= t.B
    decreases |ns|
  {
    if ns != [] {
      RowTuplesIff(D, node, ns[..|ns| - 1]);
      assert ns == ns[..|ns| - 1] + [ns[|ns| - 1]];
    }
  }

  lemma {:induction false} TuplesBelow(x: Ctx, k: nat)
    requires x.OK() && k <= |x.g|
    ensures forall t :: t in Tuples(x.g, x.D, k) <==> TupleOK(x, t) && t.u < k
    decreases k
  {
    if k > 0 {
      TuplesBelow(x, k - 1);
      RowTuplesIff(x.D, k - 1, x.g[k - 1]);
    }
  }

  /** The listed tuples are exactly the tuples of the edges with an upward
      block. */
  lemma TuplesIff(x: Ctx)
    requires x.OK()
    ensures AllOK(x, Tuples(x.g, x.D, |x.g|)) && Covers(x, Tuples(x.g, x.D, |x.g|))
  {
    TuplesBelow(x, |x.g|);
  }

  /** The listing loops of the encoder. */
  method BuildTuples(x: Ctx) returns (edges_encoding: seq<FourTuple>)
    requires x.OK()
    ensures edges_encoding == Tuples(x.g, x.D, |x.g|)
  {
    edges_encoding := [];
    var node := 0;
    while node < |x.g|
      invariant 0 <= node <= |x.g|
      invariant edges_encoding == Tuples(x.g, x.D, node)
    {
      var neighbours := x.g[node];
      var i := 0;
      ghost var before := edges_encoding;
      while i < |neighbours|
        invariant 0 <= i <= |neighbours|
        invariant edges_encoding == before + RowTuples(x.D, node, neighbours[..i])
      {
        var neighbour := neighbours[i];
        assert neighbours[..i + 1][..i] == neighbours[..i];
        if x.D[node] <= x.D[neighbour] {
          edges_encoding := edges_encoding + [FourTuple(x.D[node], x.D[neighbour], node, neighbour)];
        }
        i := i + 1;
      }
      assert neighbours[..i] == neighbours;
      node := node + 1;
    }
  }

  // ---------------------------------------------------------------------
  // Sorting by block

  /** t inserted into the sorted s before the first tuple of a greater or
      equal block. */
  function Insert(t: FourTuple, s: seq<FourTuple>): (r: seq<FourTuple>)
    requires Sorted(s)
    ensures Sorted(r) && multiset(r) == multiset(s) + multiset{t}
  {
    if s == [] then [t]
    else if KeyLe(KeyOf(t), KeyOf(s[0])) then [t] + s
    else
      var rest := Insert(t, s[1..]);
      InsertBound(t, s, rest);
      [s[0]] + rest
  }

  /** The head of a sorted list stays below everything the insertion of a
      greater tuple into its tail gives. */
  lemma InsertBound(t: FourTuple, s: seq<FourTuple>, rest: seq<FourTuple>)
    requires Sorted(s) && s != [] && !KeyLe(KeyOf(t), KeyOf(s[0]))
    requires Sorted(rest) && multiset(rest) == multiset(s[1..]) + multiset{t}
    ensures Sorted([s[0]] + rest)
    ensures multiset([s[0]] + rest) == multiset(s) + multiset{t}
  {
    assert s == [s[0]] + s[1..];
    forall y | y in rest
      ensures KeyLe(KeyOf(s[0]), KeyOf(y))
    {
      assert y in multiset(rest);
      if y != t {
        assert y in multiset(s[1..]);
        var j :| 0 <= j < |s[1..]| && s[1..][j] == y;
        assert s[j + 1] == y;
      }
    }
    var r := [s[0]] + rest;
    forall i, j | 0 <= i < j < |r|
      ensures KeyLe(KeyOf(r[i]), KeyOf(r[j]))
    {
      if i > 0 {
        assert r[i] == rest[i - 1] && r[j] == rest[j - 1];
      } else {
        assert r[j] == rest[j - 1];
        assert r[j] in rest;
      }
    }
  }

  /** The list sorted by block, as the encoder's sort leaves it. */
  function SortTuples(s: seq<FourTuple>): (r: seq<FourTuple>)
    ensures Sorted(r) && multiset(r) == multiset(s)
  {
    if s == [] then []
    else
      assert s == s[..|s| - 1] + [s[|s| - 1]];
      Insert(s[|s| - 1], SortTuples(s[..|s| - 1]))
  }

  /** Sorting keeps the tuples: a sorted list of the listed tuples is
      still one of x that covers every upward edge. */
  lemma SortKeeps(x: Ctx, s: seq<FourTuple>, r: seq<FourTuple>)
    requires multiset(r) == multiset(s)
    requires AllOK(x, s) && Covers(x, s)
    ensures AllOK(x, r) && Covers(x, r)
  {
    assert forall t :: t in r <==> t in multiset(r);
    assert forall t :: t in s <==> t in multiset(s);
  }

  // ---------------------------------------------------------------------
  // Runs of equal blocks

  /** The blocks of the tuples of s. */
  ghost function KeysOf(s: seq<FourTuple>): set<Edge>
  {
    set t | t in s :: KeyOf(t)
  }

  /** The edges the tuples of s list for block k: edges_set once the run
      of k has been read. */
  ghost function RunSet(s: seq<FourTuple>, k: Edge): set<Edge>
  {
    set t | t in s && KeyOf(t) == k :: (t.u, t.v)
  }

  /** The edges a covering list of tuples of x holds for an upward block k
      are the block's edges. */
  lemma RunIsBlock(x: Ctx, s: seq<FourTuple>, k: Edge)
    requires x.OK() && AllOK(x, s) && Covers(x, s) && Upward(x, k)
    ensures RunSet(s, k) == BlockEdges(x, k)
  {
    BlockEdgesIff(x, k);
    forall e | e in BlockEdges(x, k)
      ensures e in RunSet(s, k)
    {
      var t := FourTuple(At(x.D, e.0), At(x.D, e.1), e.0, e.1);
      assert t in s && KeyOf(t) == k;
    }
  }

  /** Reading one more tuple. */
  lemma RunSnoc(s: seq<FourTuple>, i: int, k: Edge)
    requires 0 <= i < |s|
    ensures KeysOf(s[..i + 1]) == KeysOf(s[..i]) + {KeyOf(s[i])}
    ensures RunSet(s[..i + 1], k)
         == RunSet(s[..i], k) + (if KeyOf(s[i]) == k then {(s[i].u, s[i].v)} else {})
  {
    assert s[..i + 1] == s[..i] + [s[i]];
  }

  /** In a sorted list, when the block changes at i, the run of the block
      before it is complete and the new block has not been seen. */
  lemma RunEnds(s: seq<FourTuple>, i: int)
    requires Sorted(s) && 0 < i < |s| && KeyOf(s[i]) != KeyOf(s[i - 1])
    ensures RunSet(s[..i], KeyOf(s[i - 1])) == RunSet(s, KeyOf(s[i - 1]))
    ensures KeyOf(s[i]) !in KeysOf(s[..i])
  {
    var p := KeyOf(s[i - 1]);
    forall j | i <= j < |s|
      ensures KeyOf(s[j]) != p
    {
      assert KeyLe(p, KeyOf(s[i]));
    }
    forall e | e in RunSet(s, p)
      ensures e in RunSet(s[..i], p)
    {
      var t :| t in s && KeyOf(t) == p && e == (t.u, t.v);
      var j :| 0 <= j < |s| && s[j] == t;
      assert s[..i][j] == t;
    }
    forall j | 0 <= j < i
      ensures KeyOf(s[j]) != KeyOf(s[i])
    {
      assert KeyLe(KeyOf(s[j]), p);
    }
  }

  /** The decision for the block (A, B) whose run has ended: its distinct
      edges go to C+ when there are at most as many as its threshold, in
      real arithmetic; otherwise the block joins P and its missing vertex
      pairs go to C-. */
  method DecideRun(x: Ctx, A: int, B: int, edges_set: set<Edge>,
                   P0: seq<Edge>, Cp0: seq<Edge>, Cm0: seq<Edge>)
    returns (P: seq<Edge>, Cp: seq<Edge>, Cm: seq<Edge>)
    requires x.OK() && 0 <= A <= B < |x.mem| && edges_set == BlockEdges(x, (A, B))
    ensures forall p :: p in P <==> p in P0 || (Dense(x, (A, B), true) && p == (A, B))
    ensures forall e :: e in Cp <==> e in Cp0 || (!Dense(x, (A, B), true) && e in edges_set)
    ensures forall e :: e in Cm <==> e in Cm0 || (Dense(x, (A, B), true) && e.0 in x.mem[A] && e.1 in x.mem[B] && e !in edges_set)
    ensures Appended(x, (A, B), edges_set, P0, Cp0, Cm0, P, Cp, Cm)
  {
    var edges_compare_cond: real;
    if A == B {
      edges_compare_cond := (x.sizes[A] * (x.sizes[A] - 1)) as real / 4.0;
      RealThreshold(|edges_set|, x.sizes[A] * (x.sizes[A] - 1), 4);
    } else {
      edges_compare_cond := (x.sizes[A] * x.sizes[B]) as real / 2.0;
      RealThreshold(|edges_set|, x.sizes[A] * x.sizes[B], 2);
    }
    P, Cp, Cm := P0, Cp0, Cm0;
    if |edges_set| as real <= edges_compare_cond {
      Cp := AppendAll(Cp, edges_set);
    } else {
      P := P + [(A, B)];
      var cm := Complement(x.mem[A], x.mem[B], edges_set);
      MembersNoDup(x, A);
      MembersNoDup(x, B);
      assert (Cm + cm)[|Cm0|..] == cm;
      Cm := Cm + cm;
      assert P[|P0|..] == [(A, B)];
    }
  }

  /** One pass of the loop over the sorted tuples: the tuple at i is read;
      when it starts a new block, the block before it is decided and
      edges_set starts over. */
  method ReadTuple(x: Ctx, s: seq<FourTuple>, i: int, prev_A0: int, prev_B0: int, edges_set0: set<Edge>,
                   P0: seq<Edge>, Cp0: seq<Edge>, Cm0: seq<Edge>)
    returns (prev_A: int, prev_B: int, edges_set: set<Edge>, P: seq<Edge>, Cp: seq<Edge>, Cm: seq<Edge>)
    requires x.OK() && Sorted(s) && AllOK(x, s) && Covers(x, s) && 0 <= i < |s|
    requires (prev_A0, prev_B0) == KeyOf(s[if i == 0 then 0 else i - 1])
    requires edges_set0 == RunSet(s[..i], (prev_A0, prev_B0))
    requires Encodes(x, KeysOf(s[..i]) - {(prev_A0, prev_B0)}, true, P0, Cp0, Cm0)
    ensures (prev_A, prev_B) == KeyOf(s[i])
    ensures edges_set == RunSet(s[..i + 1], (prev_A, prev_B))
    ensures Encodes(x, KeysOf(s[..i + 1]) - {(prev_A, prev_B)}, true, P, Cp, Cm)
  {
    P, Cp, Cm := P0, Cp0, Cm0;
    edges_set := edges_set0;
    var e_encoding := s[i];
    var A, B := e_encoding.A, e_encoding.B;
    assert TupleOK(x, s[if i == 0 then 0 else i - 1]);
    RunSnoc(s, i, (A, B));
    if A != prev_A0 || B != prev_B0 {
      RunEnds(s, i);
      RunIsBlock(x, s, (prev_A0, prev_B0));
      if prev_A0 <= prev_B0 {
        P, Cp, Cm := DecideRun(x, prev_A0, prev_B0, edges_set, P, Cp, Cm);
        EmitStep(x, KeysOf(s[..i]) - {(prev_A0, prev_B0)}, true, P0, Cp0, Cm0,
                 (prev_A0, prev_B0), edges_set0, P, Cp, Cm);
        assert KeysOf(s[..i]) - {(prev_A0, prev_B0)} + {(prev_A0, prev_B0)} == KeysOf(s[..i + 1]) - {(A, B)};
      }
      edges_set := {};
    }
    edges_set := edges_set + {(e_encoding.u, e_encoding.v)};
    prev_A, prev_B := A, B;
  }

  /** The loop over the sorted tuples: every block whose run has ended is
      encoded; the last run is still held in prev and edges_set. */
  method ReadRuns(x: Ctx, s: seq<FourTuple>)
    returns (P: seq<Edge>, Cp: seq<Edge>, Cm: seq<Edge>, prev: Edge, edges_set: set<Edge>)
    requires x.OK() && Sorted(s) && AllOK(x, s) && Covers(x, s) && s != []
    ensures prev == KeyOf(s[|s| - 1]) && Upward(x, prev) && edges_set == BlockEdges(x, prev)
    ensures Encodes(x, KeysOf(s) - {prev}, true, P, Cp, Cm)
  {
    P, Cp, Cm := [], [], [];
    var prev_A, prev_B := s[0].A, s[0].B;
    edges_set := {};
    var i := 0;
    while i < |s|
      invariant 0 <= i <= |s|
      invariant (prev_A, prev_B) == KeyOf(s[if i == 0 then 0 else i - 1])
      invariant edges_set == RunSet(s[..i], (prev_A, prev_B))
      invariant Encodes(x, KeysOf(s[..i]) - {(prev_A, prev_B)}, true, P, Cp, Cm)
    {
      prev_A, prev_B, edges_set, P, Cp, Cm := ReadTuple(x, s, i, prev_A, prev_B, edges_set, P, Cp, Cm);
      i := i + 1;
    }
    prev := (prev_A, prev_B);
    assert s[..i] == s;
    assert TupleOK(x, s[|s| - 1]);
    RunIsBlock(x, s, prev);
  }

  /** encodePhase_new's run loop as written: it fails on an empty list
      (the first tuple is read before the loop), and the last run is
      never decided, so the last block is missing from the encoding. */
  method EncodeRunsAsWritten(x: Ctx, s: seq<FourTuple>)
    returns (failed: bool, P: seq<Edge>, Cp: seq<Edge>, Cm: seq<Edge>)
    requires x.OK() && Sorted(s) && AllOK(x, s) && Covers(x, s)
    ensures failed <==> s == []
    ensures !failed ==> Encodes(x, KeysOf(s) - {KeyOf(s[|s| - 1])}, true, P, Cp, Cm)
  {
    if s == [] {
      return true, [], [], [];
    }
    var prev, edges_set;
    P, Cp, Cm, prev, edges_set := ReadRuns(x, s);
    failed := false;
  }

  /** The run loop with the last run decided after the loop, and an empty
      list giving an empty encoding: every listed block is encoded. */
  method EncodeRuns(x: Ctx, s: seq<FourTuple>) returns (P: seq<Edge>, Cp: seq<Edge>, Cm: seq<Edge>)
    requires x.OK() && Sorted(s) && AllOK(x, s) && Covers(x, s)
    ensures Encodes(x, KeysOf(s), true, P, Cp, Cm)
  {
    if s == [] {
      return [], [], [];
    }
    var prev, edges_set;
    P, Cp, Cm, prev, edges_set := ReadRuns(x, s);
    ghost var P1, Cp1, Cm1 := P, Cp, Cm;
    P, Cp, Cm := DecideRun(x, prev.0, prev.1, edges_set, P, Cp, Cm);
    EmitStep(x, KeysOf(s) - {prev}, true, P1, Cp1, Cm1, prev, edges_set, P, Cp, Cm);
    assert prev in KeysOf(s);
    assert KeysOf(s) - {prev} + {prev} == KeysOf(s);
  }

  /** The blocks of a list of tuples of x are upward, and an upward block
      none of whose tuples is listed has no edge. */
  lemma KeysCover(x: Ctx, s: seq<FourTuple>)
    requires x.OK() && AllOK(x, s) && Covers(x, s)
    ensures KeysOf(s) <= Up(x)
    ensures forall k :: k in Up(x) - KeysOf(s) ==> Upward(x, k) && BlockEdges(x, k) == {}
  {
    UpIff(x);
    forall k | k in Up(x) - KeysOf(s)
      ensures BlockEdges(x, k) == {}
    {
      RunIsBlock(x, s, k);
      assert forall t :: t in s && KeyOf(t) == k ==> KeyOf(t) in KeysOf(s);
    }
  }

  /** encodePhase_new after renumbering, with the last run decided: P, C+
      and C- encode every block, counting each block's distinct edges. */
  method EncodeSorted(x: Ctx) returns (P: seq<Edge>, Cp: seq<Edge>, Cm: seq<Edge>)
    requires x.OK()
    ensures Encodes(x, Up(x), true, P, Cp, Cm)
  {
    var edges_encoding := BuildTuples(x);
    TuplesIff(x);
    var sorted := SortTuples(edges_encoding);
    SortKeeps(x, edges_encoding, sorted);
    P, Cp, Cm := EncodeRuns(x, sorted);
    KeysCover(x, sorted);
    PadEmpty(x, KeysOf(sorted), Up(x) - KeysOf(sorted), true, P, Cp, Cm);
    assert KeysOf(sorted) + (Up(x) - KeysOf(sorted)) == Up(x);
  }

  // ---------------------------------------------------------------------
  // The unflushed last run, on a concrete input

  /** Two vertices in supernodes of their own with the edges 0 -> 1 and
      1 -> 0. */
  function TwoCycle(): Ctx
  {
    Ctx([[1], [0]], [0, 1], [[0], [1]], [1, 1])
  }

  /** On TwoCycle the tuple of 0 -> 1 is listed and that of 1 -> 0,
      which points downward, is not. */
  lemma TwoCycleListed()
    ensures Tuples(TwoCycle().g, TwoCycle().D, 2) == [FourTuple(0, 1, 0, 1)]
  {
    var x := TwoCycle();
    var t := FourTuple(0, 1, 0, 1);
    assert RowTuples(x.D, 0, [1]) == [t];
    assert RowTuples(x.D, 1, [0]) == [];
    assert Tuples(x.g, x.D, 1) == [t];
  }

  /** On TwoCycle the only listed tuple, sorted, is that of 0 -> 1. */
  lemma TwoCycleTuples()
    ensures SortTuples(Tuples(TwoCycle().g, TwoCycle().D, 2)) == [FourTuple(0, 1, 0, 1)]
  {
    var t := FourTuple(0, 1, 0, 1);
    TwoCycleListed();
    assert SortTuples([t]) == Insert(t, SortTuples([]));
  }

  /** A single tuple lists a single block. */
  lemma SingleKey(t: FourTuple)
    ensures KeysOf([t]) == {KeyOf(t)}
  {
    assert t in [t];
  }

  /** On TwoCycle the encoding as written has no superedge and an empty
      C+, so the edge 0 -> 1 cannot be recovered from it. */
  lemma LastRunLost(P: seq<Edge>, Cp: seq<Edge>, Cm: seq<Edge>)
    requires Encodes(TwoCycle(), KeysOf(SortTuples(Tuples(TwoCycle().g, TwoCycle().D, 2))) - {(0, 1)}, true, P, Cp, Cm)
    ensures IsEdge(TwoCycle().g, (0, 1)) && (0, 1) !in Cp && (0, 1) !in P
  {
    TwoCycleTuples();
    SingleKey(FourTuple(0, 1, 0, 1));
    assert TwoCycle().g[0] == [1];
  }

  /** A single vertex without edges: the list of tuples is empty, which the
      loop as written cannot start on. */
  lemma NoTuples()
    ensures Tuples([[]], [0], 1) == []
    ensures Ctx([[]], [0], [[0]], [1]).OK()
  {
    assert RowTuples([0], 0, []) == [];
  }
}
