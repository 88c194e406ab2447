/** What the two encoders of the summary produce. After the supernodes are
    renumbered densely, every block (A, B) with A <= B of the supernode
    graph is encoded on its own: either its edges go to C+ one by one, or
    the pair (A, B) becomes a superedge in P and the vertex pairs of the
    block that are not edges go to C-. Both encoders are proved to satisfy
    the characterization Encodes below, from which the round trip follows. */
module Encoding {
  import opened Graphs

  /** A directed edge (u, v) or a supernode pair (A, B). */
  type Edge = (int, int)

  /** The state both encoders start from: the graph, the dense supernode id
      D[v] of every vertex, the member list mem[c] of every dense id c, and
      the size array sizes (at least one entry per dense id). */
  datatype Ctx = Ctx(g: Graph, D: seq<int>, mem: seq<seq<int>>, sizes: seq<int>)
  {
    /** D and mem describe one partition of the vertices: every vertex has a
        dense id, the members of c are exactly the vertices with id c, each
        listed once, and sizes[c] is the number of members of c. */
    ghost predicate OK()
    {
      && WellFormed(g)
      && |D| == |g| && |mem| <= |sizes|
      && (forall v :: 0 <= v < |g| ==> 0 <= D[v] < |mem|)
      && (forall c, i :: 0 <= c < |mem| && 0 <= i < |mem[c]| ==> 0 <= mem[c][i] < |g| && D[mem[c][i]] == c)
      && (forall v :: 0 <= v < |g| ==> v in mem[D[v]])
      && (forall c :: 0 <= c < |mem| ==> sizes[c] == |mem[c]|)
      && (forall c, i, j :: 0 <= c < |mem| && 0 <= i < j < |mem[c]| ==> mem[c][i] != mem[c][j])
    }
  }

  /** s[i], or -1 outside s. */
  function At(s: seq<int>, i: int): int
  {
    if 0 <= i < |s| then s[i] else -1
  }

  /** The block of an edge: the dense ids of its two endpoints. */
  function Key(D: seq<int>, e: Edge): Edge
  {
    (At(D, e.0), At(D, e.1))
  }

  /** e is an edge of g. */
  ghost predicate IsEdge(g: Graph, e: Edge)
  {
    0 <= e.0 < |g| && e.1 in g[e.0]
  }

  /** Both endpoints of e are vertices. */
  ghost predicate InV(x: Ctx, e: Edge)
  {
    0 <= e.0 < |x.g| && 0 <= e.1 < |x.g|
  }

  /** k is a block the encoders visit: A <= B, both dense ids. */
  ghost predicate Upward(x: Ctx, k: Edge)
  {
    0 <= k.0 <= k.1 < |x.mem|
  }

  /** All blocks the encoders visit. */
  ghost function Up(x: Ctx): set<Edge>
  {
    set a, b | 0 <= a <= b < |x.mem| :: (a, b)
  }

  /** The edges out of u, in the order of its successor array. */
  function Out(u: int, ns: seq<int>): (r: seq<Edge>)
    ensures |r| == |ns|
    ensures forall j :: 0 <= j < |ns| ==> r[j] == (u, ns[j])
  {
    seq(|ns|, j requires 0 <= j < |ns| => (u, ns[j]))
  }

  /** The edges out of the vertices us, member by member. */
  function Row(g: Graph, us: seq<int>): seq<Edge>
    requires AllVertices(g, us)
  {
    if us == [] then [] else Row(g, us[..|us| - 1]) + Out(us[|us| - 1], g[us[|us| - 1]])
  }

  /** How many entries of row end in a vertex with dense id b. */
  function Hits(D: seq<int>, row: seq<Edge>, b: int): nat
  {
    if row == [] then 0
    else Hits(D, row[..|row| - 1], b) + (if At(D, row[|row| - 1].1) == b then 1 else 0)
  }

  /** The members of dense id c, when c is one. */
  ghost predicate Members(x: Ctx, c: int)
  {
    0 <= c < |x.mem| && AllVertices(x.g, x.mem[c])
  }

  /** The number of edges of block k counted with multiplicity, as the
      pairwise encoder counts them. */
  ghost function Mult(x: Ctx, k: Edge): nat
  {
    if Members(x, k.0) then Hits(x.D, Row(x.g, x.mem[k.0]), k.1) else 0
  }

  /** The distinct edges of block k, as the sorting encoder collects them. */
  ghost function BlockEdges(x: Ctx, k: Edge): set<Edge>
  {
    if Members(x, k.0) then (set e | e in Row(x.g, x.mem[k.0]) && At(x.D, e.1) == k.1) else {}
  }

  /** The edge count of block k that the decision is based on. */
  ghost function Count(x: Ctx, k: Edge, distinct: bool): int
  {
    if distinct then |BlockEdges(x, k)| else Mult(x, k)
  }

  /** The threshold of block k: a quarter of the ordered vertex pairs of a
      self block, half of the vertex pairs of any other block, rounded
      down. */
  function Cond(sizes: seq<int>, k: Edge): int
  {
    if k.0 == k.1 then At(sizes, k.0) * (At(sizes, k.0) - 1) / 4
    else At(sizes, k.0) * At(sizes, k.1) / 2
  }

  /** Block k is encoded as a superedge: it has more edges than its
      threshold. */
  ghost predicate Dense(x: Ctx, k: Edge, distinct: bool)
  {
    Count(x, k, distinct) > Cond(x.sizes, k)
  }

  /** P, C+ and C- encode exactly the blocks in blocks: a pair is a
      superedge when its block is dense; an edge is in C+ when its block is
      sparse; a vertex pair is in C- when its block is dense and it is not
      an edge. Each of the three lists holds every entry once. */
  ghost predicate Encodes(x: Ctx, blocks: set<Edge>, distinct: bool, P: seq<Edge>, Cp: seq<Edge>, Cm: seq<Edge>)
  {
    && (forall k :: k in P <==> k in blocks && Dense(x, k, distinct))
    && (forall e :: e in Cp <==> IsEdge(x.g, e) && Key(x.D, e) in blocks && !Dense(x, Key(x.D, e), distinct))
    && (forall e :: e in Cm <==> InV(x, e) && Key(x.D, e) in blocks && Dense(x, Key(x.D, e), distinct) && !IsEdge(x.g, e))
    && NoDup(P) && NoDup(Cp) && NoDup(Cm)
  }

  /** P, Cp and Cm extend P0, Cp0 and Cm0 by the output of block k alone,
      each new entry once: at most the pair k itself, edges from es, and
      pairs of a member of k.0 and a member of k.1. */
  ghost predicate Appended(x: Ctx, k: Edge, es: set<Edge>, P0: seq<Edge>, Cp0: seq<Edge>, Cm0: seq<Edge>,
                           P: seq<Edge>, Cp: seq<Edge>, Cm: seq<Edge>)
  {
    && Upward(x, k)
    && |P0| <= |P| && P[..|P0|] == P0 && NoDup(P[|P0|..]) && (forall p :: p in P[|P0|..] ==> p == k)
    && |Cp0| <= |Cp| && Cp[..|Cp0|] == Cp0 && NoDup(Cp[|Cp0|..]) && (forall e :: e in Cp[|Cp0|..] ==> e in es)
    && |Cm0| <= |Cm| && Cm[..|Cm0|] == Cm0 && NoDup(Cm[|Cm0|..])
    && (forall e :: e in Cm[|Cm0|..] ==> e.0 in x.mem[k.0] && e.1 in x.mem[k.1])
  }

  // ---------------------------------------------------------------------
  // The block of an edge

  lemma UpIff(x: Ctx)
    ensures forall k :: k in Up(x) <==> Upward(x, k)
  {
    forall k | Upward(x, k)
      ensures k in Up(x)
    {
      assert k == (k.0, k.1);
    }
  }

  /** The edges out of us are the pairs (u, v) with u in us and v a
      successor of u. */
  lemma {:induction false} RowIn(g: Graph, us: seq<int>)
    requires AllVertices(g, us)
    ensures forall e :: e in Row(g, us) <==> e.0 in us && e.1 in g[e.0]
    decreases |us|
  {
    if us != [] {
      var us' := us[..|us| - 1];
      var u := us[|us| - 1];
      RowIn(g, us');
      assert us == us' + [u];
      forall e: Edge | e.0 in us && e.1 in g[e.0]
        ensures e in Row(g, us)
      {
        if e.0 !in us' {
          var j :| 0 <= j < |g[u]| && g[u][j] == e.1;
          assert Out(u, g[u])[j] == e;
        }
      }
    }
  }

  /** In a well-formed context the members of c are the vertices with dense
      id c. */
  lemma MemberIff(x: Ctx, c: int, v: int)
    requires x.OK() && 0 <= c < |x.mem| && 0 <= v < |x.g|
    ensures v in x.mem[c] <==> x.D[v] == c
  {
    if v in x.mem[c] {
      var i :| 0 <= i < |x.mem[c]| && x.mem[c][i] == v;
    }
  }

  /** The edges collected for block k are the edges whose endpoints have
      dense ids k.0 and k.1. */
  lemma BlockEdgesIff(x: Ctx, k: Edge)
    requires x.OK() && 0 <= k.0 < |x.mem|
    ensures forall e :: e in BlockEdges(x, k) <==> IsEdge(x.g, e) && Key(x.D, e) == k
  {
    assert Members(x, k.0);
    RowIn(x.g, x.mem[k.0]);
    forall e: Edge
      ensures e in BlockEdges(x, k) <==> IsEdge(x.g, e) && Key(x.D, e) == k
    {
      if e.0 in x.mem[k.0] {
        var i :| 0 <= i < |x.mem[k.0]| && x.mem[k.0][i] == e.0;
      }
      if IsEdge(x.g, e) {
        MemberIff(x, k.0, e.0);
      }
    }
  }

  /** No hits, no entry into b. */
  lemma {:induction false} HitsZero(D: seq<int>, row: seq<Edge>, b: int)
    requires Hits(D, row, b) == 0
    ensures forall e :: e in row ==> At(D, e.1) != b
    decreases |row|
  {
    if row != [] {
      HitsZero(D, row[..|row| - 1], b);
      assert row == row[..|row| - 1] + [row[|row| - 1]];
    }
  }

  /** An entry into b is a hit. */
  lemma {:induction false} HitsPositive(D: seq<int>, row: seq<Edge>, b: int, e: Edge)
    requires e in row && At(D, e.1) == b
    ensures Hits(D, row, b) > 0
    decreases |row|
  {
    if row[|row| - 1] != e {
      assert row == row[..|row| - 1] + [row[|row| - 1]];
      HitsPositive(D, row[..|row| - 1], b, e);
    }
  }

  /** A block without edges has no count under either way of counting. */
  lemma EmptyBlock(x: Ctx, k: Edge)
    requires BlockEdges(x, k) == {}
    ensures Mult(x, k) == 0 && Count(x, k, true) == 0 && Count(x, k, false) == 0
  {
    if Members(x, k.0) {
      var row := Row(x.g, x.mem[k.0]);
      assert forall e :: e in row && At(x.D, e.1) == k.1 ==> e in BlockEdges(x, k);
      HitsZeroConverse(x.D, row, k.1);
    }
  }

  /** A row with no entry into b has no hits. */
  lemma {:induction false} HitsZeroConverse(D: seq<int>, row: seq<Edge>, b: int)
    requires forall e :: e in row ==> At(D, e.1) != b
    ensures Hits(D, row, b) == 0
    decreases |row|
  {
    if row != [] {
      assert row[|row| - 1] in row;
      HitsZeroConverse(D, row[..|row| - 1], b);
    }
  }

  // ---------------------------------------------------------------------
  // Thresholds

  /** The integer test of the pairwise encoder: a count c is within a
      quarter (or a half) of m rounded down exactly when 4c <= m (2c <= m). */
  lemma SparseIff(x: Ctx, k: Edge, distinct: bool)
    ensures !Dense(x, k, distinct) <==>
            if k.0 == k.1 then 4 * Count(x, k, distinct) <= At(x.sizes, k.0) * (At(x.sizes, k.0) - 1)
            else 2 * Count(x, k, distinct) <= At(x.sizes, k.0) * At(x.sizes, k.1)
  {
  }

  /** The real test of the sorting encoder, c <= m / 4.0 (or m / 2.0),
      decides the same as the integer test c <= m / 4 (or m / 2). */
  lemma RealThreshold(c: int, m: int, d: int)
    requires d == 2 || d == 4
    ensures (c as real <= m as real / d as real) <==> c <= m / d
  {
    assert c <= m / d <==> d * c <= m;
    assert (c as real <= m as real / d as real) <==> (d * c) as real <= m as real;
  }

  /** Thresholds of blocks between supernodes of size at least 0 are at
      least 0. */
  lemma CondNonNeg(sizes: seq<int>, k: Edge)
    requires At(sizes, k.0) >= 0 && At(sizes, k.1) >= 0
    ensures Cond(sizes, k) >= 0
  {
    var s0, s1 := At(sizes, k.0), At(sizes, k.1);
    if k.0 == k.1 && s0 > 0 {
      assert s0 * (s0 - 1) >= 0;
    } else if k.0 != k.1 {
      assert s0 * s1 >= 0;
    }
  }

  /** A block whose count is 0 is never dense. */
  lemma ZeroNotDense(x: Ctx, k: Edge, distinct: bool)
    requires x.OK() && Upward(x, k) && Count(x, k, distinct) == 0
    ensures !Dense(x, k, distinct)
  {
    CondNonNeg(x.sizes, k);
  }

  // ---------------------------------------------------------------------
  // Building an encoding block by block

  /** Adding one block's output keeps the characterization: a sparse
      block's edges es join C+; a dense block joins P and its vertex pairs
      missing from es join C-. */
  lemma EmitStep(x: Ctx, blocks: set<Edge>, distinct: bool, P: seq<Edge>, Cp: seq<Edge>, Cm: seq<Edge>,
                 k: Edge, es: set<Edge>, P': seq<Edge>, Cp': seq<Edge>, Cm': seq<Edge>)
    requires x.OK() && Upward(x, k) && k !in blocks
    requires Encodes(x, blocks, distinct, P, Cp, Cm)
    requires es == BlockEdges(x, k)
    requires forall p :: p in P' <==> p in P || (Dense(x, k, distinct) && p == k)
    requires forall e :: e in Cp' <==> e in Cp || (!Dense(x, k, distinct) && e in es)
    requires forall e :: e in Cm' <==> e in Cm || (Dense(x, k, distinct) && e.0 in x.mem[k.0] && e.1 in x.mem[k.1] && e !in es)
    requires Appended(x, k, es, P, Cp, Cm, P', Cp', Cm')
    ensures Encodes(x, blocks + {k}, distinct, P', Cp', Cm')
  {
    EmitDistinct(x, blocks, distinct, P, Cp, Cm, k, es, P', Cp', Cm');
    BlockEdgesIff(x, k);
    forall e: Edge
      ensures e in Cm' <==> InV(x, e) && Key(x.D, e) in blocks + {k} && Dense(x, Key(x.D, e), distinct) && !IsEdge(x.g, e)
    {
      if InV(x, e) {
        MemberIff(x, k.0, e.0);
        MemberIff(x, k.1, e.1);
      }
      if e.0 in x.mem[k.0] && e.1 in x.mem[k.1] {
        var i :| 0 <= i < |x.mem[k.0]| && x.mem[k.0][i] == e.0;
        var j :| 0 <= j < |x.mem[k.1]| && x.mem[k.1][j] == e.1;
        MemberIff(x, k.0, e.0);
        MemberIff(x, k.1, e.1);
      }
    }
  }

  /** The entries of a new block are new: its edges and vertex pairs lie
      in block k, and every earlier entry lies in an earlier block. */
  lemma EmitDistinct(x: Ctx, blocks: set<Edge>, distinct: bool, P: seq<Edge>, Cp: seq<Edge>, Cm: seq<Edge>,
                     k: Edge, es: set<Edge>, P': seq<Edge>, Cp': seq<Edge>, Cm': seq<Edge>)
    requires x.OK() && k !in blocks
    requires Encodes(x, blocks, distinct, P, Cp, Cm)
    requires es == BlockEdges(x, k)
    requires Appended(x, k, es, P, Cp, Cm, P', Cp', Cm')
    ensures NoDup(P') && NoDup(Cp') && NoDup(Cm')
  {
    BlockEdgesIff(x, k);
    forall e | e in Cm'[|Cm|..]
      ensures e !in Cm
    {
      var i :| 0 <= i < |x.mem[k.0]| && x.mem[k.0][i] == e.0;
      var j :| 0 <= j < |x.mem[k.1]| && x.mem[k.1][j] == e.1;
      assert Key(x.D, e) == k;
    }
    NoDupJoin(P, P');
    NoDupJoin(Cp, Cp');
    NoDupJoin(Cm, Cm');
  }

  /** Blocks without edges add nothing: an encoding of blocks is also one
      of blocks + extra. */
  lemma PadEmpty(x: Ctx, blocks: set<Edge>, extra: set<Edge>, distinct: bool, P: seq<Edge>, Cp: seq<Edge>, Cm: seq<Edge>)
    requires x.OK()
    requires Encodes(x, blocks, distinct, P, Cp, Cm)
    requires forall k :: k in extra ==> Upward(x, k) && BlockEdges(x, k) == {}
    ensures Encodes(x, blocks + extra, distinct, P, Cp, Cm)
  {
    forall k | k in extra
      ensures !Dense(x, k, distinct)
    {
      EmptyBlock(x, k);
      ZeroNotDense(x, k, distinct);
    }
    forall k | k in extra
      ensures forall e :: IsEdge(x.g, e) && Key(x.D, e) == k ==> e in BlockEdges(x, k)
    {
      BlockEdgesIff(x, k);
    }
  }

  // ---------------------------------------------------------------------
  // What an encoding promises

  /** Lossless: an encoding of all blocks gives back every edge (u, v) with
      D[u] <= D[v], and nothing else: (u, v) is an edge exactly when it is
      in C+, or its block is a superedge and it is not in C-. */
  lemma RoundTrip(x: Ctx, distinct: bool, P: seq<Edge>, Cp: seq<Edge>, Cm: seq<Edge>)
    requires x.OK()
    requires Encodes(x, Up(x), distinct, P, Cp, Cm)
    ensures forall e :: InV(x, e) && x.D[e.0] <= x.D[e.1] ==>
              (IsEdge(x.g, e) <==> e in Cp || (Key(x.D, e) in P && e !in Cm))
  {
    UpIff(x);
  }

  /** The shape of an encoding of all blocks: superedges are ordered pairs
      of dense ids; C+ holds edges of sparse blocks only, with 4c <= m for
      a self block and 2c <= m for another block; every C- pair lies in a
      superedge block, between members of its two supernodes, and is not
      an edge. */
  lemma EncodingShape(x: Ctx, distinct: bool, P: seq<Edge>, Cp: seq<Edge>, Cm: seq<Edge>)
    requires x.OK()
    requires Encodes(x, Up(x), distinct, P, Cp, Cm)
    ensures forall k :: k in P ==> 0 <= k.0 <= k.1 < |x.mem|
    ensures forall e :: e in Cp ==>
              var k := Key(x.D, e);
              && IsEdge(x.g, e) && Upward(x, k)
              && (if k.0 == k.1 then 4 * Count(x, k, distinct) <= x.sizes[k.0] * (x.sizes[k.0] - 1)
                  else 2 * Count(x, k, distinct) <= x.sizes[k.0] * x.sizes[k.1])
    ensures forall e :: e in Cm ==>
              var k := Key(x.D, e);
              && k in P && e.0 in x.mem[k.0] && e.1 in x.mem[k.1] && !IsEdge(x.g, e)
  {
    UpIff(x);
    forall e: Edge | e in Cp
      ensures var k := Key(x.D, e);
              if k.0 == k.1 then 4 * Count(x, k, distinct) <= x.sizes[k.0] * (x.sizes[k.0] - 1)
              else 2 * Count(x, k, distinct) <= x.sizes[k.0] * x.sizes[k.1]
    {
      SparseIff(x, Key(x.D, e), distinct);
    }
    forall e: Edge | e in Cm
      ensures var k := Key(x.D, e); e.0 in x.mem[k.0] && e.1 in x.mem[k.1]
    {
      var k := Key(x.D, e);
      MemberIff(x, k.0, e.0);
      MemberIff(x, k.1, e.1);
    }
  }

  // ---------------------------------------------------------------------
  // The two ways of counting agree on duplicate-free successor arrays

  /** No entry of s occurs twice. */
  ghost predicate NoDup<T>(s: seq<T>)
  {
    forall i, j :: 0 <= i < j < |s| ==> s[i] != s[j]
  }

  /** The member list of a dense id has no repeats. */
  lemma MembersNoDup(x: Ctx, c: int)
    requires x.OK() && 0 <= c < |x.mem|
    ensures NoDup(x.mem[c])
  {
    forall i, j | 0 <= i < j < |x.mem[c]|
      ensures x.mem[c][i] != x.mem[c][j]
    {
    }
  }

  /** A list without repeats extended by new entries without repeats has
      none. */
  lemma NoDupJoin<T>(a: seq<T>, c: seq<T>)
    requires |a| <= |c| && c[..|a|] == a && NoDup(a) && NoDup(c[|a|..])
    requires forall e :: e in c[|a|..] ==> e !in a
    ensures NoDup(c)
  {
    forall i, j | 0 <= i < j < |c|
      ensures c[i] != c[j]
    {
      if i < |a| && j >= |a| {
        assert c[j] == c[|a|..][j - |a|] && c[j] in c[|a|..];
        assert c[i] == a[i] && c[i] in a;
      } else if i >= |a| {
        assert c[i] == c[|a|..][i - |a|] && c[j] == c[|a|..][j - |a|];
      } else {
        assert c[i] == a[i] && c[j] == a[j];
      }
    }
  }

  /** On lists without repeats, the multiset is the set of entries. */
  lemma {:induction false} NoDupMultiset<T>(s: seq<T>)
    requires NoDup(s)
    ensures forall e :: multiset(s)[e] == if e in s then 1 else 0
    decreases |s|
  {
    if s != [] {
      var s', e := s[..|s| - 1], s[|s| - 1];
      assert s == s' + [e];
      assert NoDup(s') by {
        forall i, j | 0 <= i < j < |s'|
          ensures s'[i] != s'[j]
        {
          assert s'[i] == s[i] && s'[j] == s[j];
        }
      }
      NoDupMultiset(s');
      assert e !in s' by {
        forall i | 0 <= i < |s'|
          ensures s'[i] != e
        {
          assert s'[i] == s[i];
        }
      }
    }
  }

  /** Lists without repeats holding the same entries are permutations of
      each other. */
  lemma SameEntries<T>(a: seq<T>, b: seq<T>)
    requires NoDup(a) && NoDup(b)
    requires forall e :: e in a <==> e in b
    ensures multiset(a) == multiset(b) && |a| == |b|
  {
    NoDupMultiset(a);
    NoDupMultiset(b);
    assert multiset(a) == multiset(b);
    assert |a| == |multiset(a)| && |b| == |multiset(b)|;
  }

  /** The encoding of a set of blocks is unique up to order: two encodings
      of the same blocks list the same entries, each once, so they are
      permutations of each other and have the same sizes. */
  lemma EncodingUnique(x: Ctx, blocks: set<Edge>, distinct: bool, P: seq<Edge>, Cp: seq<Edge>, Cm: seq<Edge>,
                       P': seq<Edge>, Cp': seq<Edge>, Cm': seq<Edge>)
    requires Encodes(x, blocks, distinct, P, Cp, Cm)
    requires Encodes(x, blocks, distinct, P', Cp', Cm')
    ensures multiset(P) == multiset(P') && multiset(Cp) == multiset(Cp') && multiset(Cm) == multiset(Cm')
    ensures |P| + |Cp| + |Cm| == |P'| + |Cp'| + |Cm'|
  {
    SameEntries(P, P');
    SameEntries(Cp, Cp');
    SameEntries(Cm, Cm');
  }

  /** The row of distinct members with duplicate-free successor arrays has
      no repeated edge. */
  lemma {:induction false} RowNoDup(g: Graph, us: seq<int>)
    requires AllVertices(g, us) && SimpleLists(g) && NoDup(us)
    ensures NoDup(Row(g, us))
    decreases |us|
  {
    if us != [] {
      var us', u := us[..|us| - 1], us[|us| - 1];
      RowNoDup(g, us');
      RowIn(g, us');
      var a, b := Row(g, us'), Out(u, g[u]);
      assert forall i :: 0 <= i < |us'| ==> us'[i] == us[i] != us[|us| - 1];
      forall i, j | 0 <= i < j < |a + b|
        ensures (a + b)[i] != (a + b)[j]
      {
        if i < |a| && j >= |a| {
          assert (a + b)[j] == b[j - |a|] && b[j - |a|].0 == u;
          assert (a + b)[i] in a;
        } else if i >= |a| {
          assert b[i - |a|] != b[j - |a|];
        }
      }
    }
  }

  /** On a duplicate-free row, the hits into b are the distinct entries
      into b. */
  lemma {:induction false} HitsDistinct(D: seq<int>, row: seq<Edge>, b: int)
    requires NoDup(row)
    ensures Hits(D, row, b) == |set e | e in row && At(D, e.1) == b|
    decreases |row|
  {
    if row != [] {
      var row', e := row[..|row| - 1], row[|row| - 1];
      assert NoDup(row');
      HitsDistinct(D, row', b);
      var s' := set f | f in row' && At(D, f.1) == b;
      var s := set f | f in row && At(D, f.1) == b;
      assert row == row' + [e];
      assert forall i :: 0 <= i < |row'| ==> row'[i] == row[i] != row[|row| - 1];
      if At(D, e.1) == b {
        assert s == s' + {e};
      } else {
        assert s == s';
      }
    }
  }

  /** Without duplicate successors the distinct count of a block is its
      count with multiplicity, so both encoders decide alike. */
  lemma CountsAgree(x: Ctx, k: Edge)
    requires x.OK() && SimpleLists(x.g)
    ensures Count(x, k, true) == Count(x, k, false)
    ensures Dense(x, k, true) <==> Dense(x, k, false)
  {
    if Members(x, k.0) {
      var c := k.0;
      assert NoDup(x.mem[c]) by {
        forall i, j | 0 <= i < j < |x.mem[c]|
          ensures x.mem[c][i] != x.mem[c][j]
        {
        }
      }
      RowNoDup(x.g, x.mem[c]);
      HitsDistinct(x.D, Row(x.g, x.mem[c]), k.1);
    }
  }

  /** Hence, without duplicate successors, the characterizations of the two
      encoders are the same. */
  lemma EncodesAgree(x: Ctx, blocks: set<Edge>, P: seq<Edge>, Cp: seq<Edge>, Cm: seq<Edge>)
    requires x.OK() && SimpleLists(x.g)
    ensures Encodes(x, blocks, true, P, Cp, Cm) <==> Encodes(x, blocks, false, P, Cp, Cm)
  {
    forall k
      ensures Dense(x, k, true) <==> Dense(x, k, false)
    {
      CountsAgree(x, k);
    }
  }

  // ---------------------------------------------------------------------
  // The emission loops both encoders share

  /** The loop adding every edge of a hash set to C+ (Cp_0 and Cp_1 as one
      list of pairs), in the set's iteration order. */
  method AppendAll(Cp0: seq<Edge>, es: set<Edge>) returns (Cp: seq<Edge>)
    ensures forall e :: e in Cp <==> e in Cp0 || e in es
    ensures |Cp| == |Cp0| + |es|
    ensures Cp[..|Cp0|] == Cp0 && NoDup(Cp[|Cp0|..]) && (forall e :: e in Cp[|Cp0|..] ==> e in es)
  {
    Cp := Cp0;
    var iter := es;
    while iter != {}
      invariant iter <= es
      invariant forall e :: e in Cp <==> e in Cp0 || e in es - iter
      invariant |Cp| == |Cp0| + |es - iter|
      invariant Cp[..|Cp0|] == Cp0 && NoDup(Cp[|Cp0|..])
      invariant forall e :: e in Cp[|Cp0|..] ==> e in es - iter
      decreases iter
    {
      var e :| e in iter;
      assert es - (iter - {e}) == (es - iter) + {e};
      NoDupSnoc(Cp[|Cp0|..], e);
      assert (Cp + [e])[|Cp0|..] == Cp[|Cp0|..] + [e];
      Cp := Cp + [e];
      iter := iter - {e};
    }
  }

  /** A new entry keeps a list free of repeats. */
  lemma NoDupSnoc<T>(s: seq<T>, e: T)
    requires NoDup(s) && e !in s
    ensures NoDup(s + [e])
  {
    assert forall i :: 0 <= i < |s| ==> (s + [e])[i] == s[i];
  }

  /** One row of the C- loops: the pairs (a, b), b in in_B, that are not
      in present, in in_B's order. */
  method ComplementRow(a: int, in_B: seq<int>, present: set<Edge>) returns (row: seq<Edge>)
    ensures forall e :: e in row <==> e.0 == a && e.1 in in_B && e !in present
    ensures NoDup(in_B) ==> NoDup(row)
  {
    row := [];
    var b := 0;
    while b < |in_B|
      invariant 0 <= b <= |in_B|
      invariant forall e :: e in row <==> e.0 == a && e.1 in in_B[..b] && e !in present
      invariant NoDup(in_B) ==> NoDup(row)
    {
      assert in_B[..b + 1] == in_B[..b] + [in_B[b]];
      if NoDup(in_B) {
        assert in_B[b] !in in_B[..b];
        if (a, in_B[b]) !in present {
          NoDupSnoc(row, (a, in_B[b]));
        }
      }
      if (a, in_B[b]) !in present {
        row := row + [(a, in_B[b])];
      }
      b := b + 1;
    }
    assert in_B[..b] == in_B;
  }

  /** The C- loops of a superedge (A, B): every pair of a member of A and a
      member of B that is not among the block's edges. */
  method Complement(in_A: seq<int>, in_B: seq<int>, present: set<Edge>) returns (cm: seq<Edge>)
    ensures forall e :: e in cm <==> e.0 in in_A && e.1 in in_B && e !in present
    ensures NoDup(in_A) && NoDup(in_B) ==> NoDup(cm)
  {
    cm := [];
    var a := 0;
    while a < |in_A|
      invariant 0 <= a <= |in_A|
      invariant forall e :: e in cm <==> e.0 in in_A[..a] && e.1 in in_B && e !in present
      invariant NoDup(in_A) && NoDup(in_B) ==> NoDup(cm)
    {
      assert in_A[..a + 1] == in_A[..a] + [in_A[a]];
      var row := ComplementRow(in_A[a], in_B, present);
      if NoDup(in_A) && NoDup(in_B) {
        assert in_A[a] !in in_A[..a];
        assert (cm + row)[..|cm|] == cm && (cm + row)[|cm|..] == row;
        NoDupJoin(cm, cm + row);
      }
      cm := cm + row;
      a := a + 1;
    }
    assert in_A[..a] == in_A;
  }
}
