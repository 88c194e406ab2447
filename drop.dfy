/** dropPhase, the lossy pass: every vertex gets a budget of error_bound
    times its out-degree; C+ and then C- entries are dropped greedily while
    both endpoints can pay 1, and then superedges between two different
    supernodes are dropped while every member of each side can pay the
    size of the other side. */
module Drop {
  import opened Graphs
  import opened Encoding

  /** The entries kept by a pass and the budgets left after it. */
  datatype Dropped = Dropped(kept: seq<Edge>, cv: seq<real>)

  /** a is a subsequence of b: b with some entries removed, in order. */
  predicate Sub<T(==)>(a: seq<T>, b: seq<T>)
    decreases |b|
  {
    if a == [] then true
    else if b == [] then false
    else if a[|a| - 1] == b[|b| - 1] then Sub(a[..|a| - 1], b[..|b| - 1])
    else Sub(a, b[..|b| - 1])
  }

  lemma {:induction false} SubExtend<T>(a: seq<T>, b: seq<T>, e: T)
    requires Sub(a, b)
    ensures Sub(a, b + [e])
    decreases |b|, 1
  {
    assert (b + [e])[..|b|] == b;
    if a != [] && a[|a| - 1] == e {
      SubDropLast(a, b);
    }
  }

  lemma {:induction false} SubDropLast<T>(a: seq<T>, b: seq<T>)
    requires Sub(a, b) && a != []
    ensures Sub(a[..|a| - 1], b)
    decreases |b|, 0
  {
    var b' := b[..|b| - 1];
    assert b == b' + [b[|b| - 1]];
    if a[|a| - 1] == b[|b| - 1] {
      SubExtend(a[..|a| - 1], b', b[|b| - 1]);
    } else {
      SubDropLast(a, b');
      SubExtend(a[..|a| - 1], b', b[|b| - 1]);
    }
  }

  /** The sum of the budgets. */
  function SumR(c: seq<real>): real
  {
    if c == [] then 0.0 else SumR(c[..|c| - 1]) + c[|c| - 1]
  }

  /** Lowering one budget by d lowers the sum by d. */
  lemma {:induction false} SumLower(c: seq<real>, i: int, d: real)
    requires 0 <= i < |c|
    ensures SumR(c[i := c[i] - d]) == SumR(c) - d
    decreases |c|
  {
    var c' := c[i := c[i] - d];
    assert c'[..|c| - 1] == if i < |c| - 1 then c[..|c| - 1][i := c[i] - d] else c[..|c| - 1];
    if i < |c| - 1 {
      SumLower(c[..|c| - 1], i, d);
    }
  }

  // ---------------------------------------------------------------------
  // The budgets

  /** cv[v] is error_bound times the out-degree of v. */
  function Budgets(g: Graph, error_bound: real): (cv: seq<real>)
    ensures |cv| == |g|
  {
    seq(|g|, v requires 0 <= v < |g| => error_bound * |g[v]| as real)
  }

  /** A non-negative error bound gives non-negative budgets. */
  lemma BudgetsNonNeg(g: Graph, error_bound: real)
    requires error_bound >= 0.0
    ensures forall v :: 0 <= v < |g| ==> Budgets(g, error_bound)[v] >= 0.0
  {
    forall v | 0 <= v < |g|
      ensures Budgets(g, error_bound)[v] >= 0.0
    {
      assert |g[v]| as real >= 0.0;
    }
  }

  /** The loop filling cv. */
  method InitBudgets(g: Graph, error_bound: real) returns (cv: array<real>)
    ensures fresh(cv) && cv[..] == Budgets(g, error_bound)
  {
    cv := new real[|g|];
    var i := 0;
    while i < |g|
      invariant 0 <= i <= |g|
      invariant forall v :: 0 <= v < i ==> cv[v] == error_bound * |g[v]| as real
    {
      cv[i] := error_bound * |g[i]| as real;
      i := i + 1;
    }
    assert forall v :: 0 <= v < |g| ==> cv[..][v] == Budgets(g, error_bound)[v];
  }

  // ---------------------------------------------------------------------
  // Dropping C+ and C- entries

  /** Every entry of es is a pair of vertices with a budget. */
  ghost predicate Vertices(n: int, es: seq<Edge>)
  {
    forall e :: e in es ==> 0 <= e.0 < n && 0 <= e.1 < n
  }

  /** Both endpoints of e pay 1, one after the other. */
  function Charge(c: seq<real>, u: int, v: int): (r: seq<real>)
    requires 0 <= u < |c| && 0 <= v < |c|
    ensures |r| == |c|
  {
    var c1 := c[u := c[u] - 1.0];
    c1[v := c1[v] - 1.0]
  }

  /** Charging an entry takes 2 off the total budget. */
  lemma {:induction false} ChargeSum(c: seq<real>, u: int, v: int)
    requires 0 <= u < |c| && 0 <= v < |c|
    ensures SumR(Charge(c, u, v)) == SumR(c) - 2.0
  {
    SumLower(c, u, 1.0);
    SumLower(c[u := c[u] - 1.0], v, 1.0);
  }

  /** The pass over a list of entries, from first to last: an entry is
      dropped when both its endpoints still have a budget of at least 1,
      and they pay for it; otherwise it is kept. */
  function DropEdges(c: seq<real>, es: seq<Edge>): (r: Dropped)
    requires Vertices(|c|, es)
    ensures |r.cv| == |c|
  {
    if es == [] then Dropped([], c)
    else
      var r := DropEdges(c, es[..|es| - 1]);
      var e := es[|es| - 1];
      if r.cv[e.0] >= 1.0 && r.cv[e.1] >= 1.0 then Dropped(r.kept, Charge(r.cv, e.0, e.1))
      else Dropped(r.kept + [e], r.cv)
  }

  /** The C+ (or C-) loop of the drop pass. */
  method DropEdgeList(cv: array<real>, es: seq<Edge>) returns (kept: seq<Edge>)
    requires Vertices(cv.Length, es)
    modifies cv
    ensures Dropped(kept, cv[..]) == DropEdges(old(cv[..]), es)
  {
    ghost var c0 := cv[..];
    kept := [];
    var i := 0;
    while i < |es|
      invariant 0 <= i <= |es|
      invariant Dropped(kept, cv[..]) == DropEdges(c0, es[..i])
    {
      assert es[..i + 1][..i] == es[..i];
      var edge_u, edge_v := es[i].0, es[i].1;
      if cv[edge_u] >= 1.0 && cv[edge_v] >= 1.0 {
        cv[edge_u] := cv[edge_u] - 1.0;
        cv[edge_v] := cv[edge_v] - 1.0;
      } else {
        kept := kept + [(edge_u, edge_v)];
      }
      i := i + 1;
    }
    assert es[..i] == es;
  }

  /** The entry pass keeps a subsequence of its input and never raises a
      budget. */
  lemma {:induction false} DropEdgesSub(c: seq<real>, es: seq<Edge>)
    requires Vertices(|c|, es)
    ensures Sub(DropEdges(c, es).kept, es)
    ensures forall v :: 0 <= v < |c| ==> DropEdges(c, es).cv[v] <= c[v]
    decreases |es|
  {
    if es != [] {
      var es' := es[..|es| - 1];
      var e := es[|es| - 1];
      assert es == es' + [e];
      var r := DropEdges(c, es');
      DropEdgesSub(c, es');
      if r.cv[e.0] >= 1.0 && r.cv[e.1] >= 1.0 {
        SubExtend(r.kept, es', e);
      } else {
        assert (r.kept + [e])[..|r.kept|] == r.kept;
      }
    }
  }

  /** Every dropped entry takes exactly 2 from the budget sum: one from
      each endpoint. */
  lemma {:induction false} DropEdgesSum(c: seq<real>, es: seq<Edge>)
    requires Vertices(|c|, es)
    ensures SumR(DropEdges(c, es).cv) == SumR(c) - 2.0 * (|es| - |DropEdges(c, es).kept|) as real
    decreases |es|
  {
    if es != [] {
      var es' := es[..|es| - 1];
      var e := es[|es| - 1];
      var r := DropEdges(c, es');
      DropEdgesSum(c, es');
      var dropped := (|es'| - |r.kept|) as real;
      if r.cv[e.0] >= 1.0 && r.cv[e.1] >= 1.0 {
        ChargeSum(r.cv, e.0, e.1);
        assert (|es| - |r.kept|) as real == dropped + 1.0;
      } else {
        assert (|es| - |r.kept + [e]|) as real == dropped;
      }
    }
  }



  /** A subsequence is no longer than its sequence. */
  lemma {:induction false} SubLength<T>(a: seq<T>, b: seq<T>)
    requires Sub(a, b)
    ensures |a| <= |b|
    decreases |b|
  {
    if a != [] {
      if a[|a| - 1] == b[|b| - 1] {
        SubLength(a[..|a| - 1], b[..|b| - 1]);
      } else {
        SubLength(a, b[..|b| - 1]);
      }
    }
  }

  /** Without self-loop entries, non-negative budgets stay non-negative:
      an entry is only dropped when both of its two different endpoints
      can pay. */
  lemma {:induction false} DropEdgesNonNeg(c: seq<real>, es: seq<Edge>)
    requires Vertices(|c|, es)
    requires forall v :: 0 <= v < |c| ==> c[v] >= 0.0
    requires forall e :: e in es ==> e.0 != e.1
    ensures forall v :: 0 <= v < |c| ==> DropEdges(c, es).cv[v] >= 0.0
    decreases |es|
  {
    if es != [] {
      DropEdgesNonNeg(c, es[..|es| - 1]);
      assert es[|es| - 1] in es;
    }
  }

  /** A self-loop entry is charged twice to one vertex: with a budget of
      exactly 1 the entry is dropped and the budget ends at -1. */
  lemma SelfLoopOverdraw()
    ensures DropEdges([1.0], [(0, 0)]) == Dropped([], [-1.0])
  {
    assert [(0, 0)][..0] == [];
  }

  // ---------------------------------------------------------------------
  // Dropping superedges

  /** Every member in vs has a budget of at least t. */
  predicate AllAtLeast(c: seq<real>, vs: seq<int>, t: int)
  {
    forall i :: 0 <= i < |vs| ==> 0 <= vs[i] < |c| && c[vs[i]] >= t as real
  }

  /** Every member in vs pays d, one after the other. */
  function SubAll(c: seq<real>, vs: seq<int>, d: int): (r: seq<real>)
    requires forall i :: 0 <= i < |vs| ==> 0 <= vs[i] < |c|
    ensures |r| == |c|
  {
    if vs == [] then c
    else
      var r := SubAll(c, vs[..|vs| - 1], d);
      r[vs[|vs| - 1] := r[vs[|vs| - 1]] - d as real]
  }

  /** With vs listing each vertex once, SubAll takes d from exactly the
      listed vertices. */
  lemma {:induction false} SubAllAt(c: seq<real>, vs: seq<int>, d: int)
    requires forall i :: 0 <= i < |vs| ==> 0 <= vs[i] < |c|
    requires forall i, j :: 0 <= i < j < |vs| ==> vs[i] != vs[j]
    ensures forall v :: 0 <= v < |c| ==> SubAll(c, vs, d)[v] == if v in vs then c[v] - d as real else c[v]
    decreases |vs|
  {
    if vs != [] {
      var vs' := vs[..|vs| - 1];
      SubAllAt(c, vs', d);
      assert vs == vs' + [vs[|vs| - 1]];
      assert vs[|vs| - 1] !in vs';
    }
  }

  /** The member lists sn_to_n and sizes supernode_sizes of the dense
      ids: every list has its size recorded, and its members are vertices
      below n, each listed once and in one list only. */
  ghost predicate Lists(n: int, mem: seq<seq<int>>, sizes: seq<int>)
  {
    && |mem| <= |sizes|
    && (forall c :: 0 <= c < |mem| ==> sizes[c] == |mem[c]|)
    && (forall c, i :: 0 <= c < |mem| && 0 <= i < |mem[c]| ==> 0 <= mem[c][i] < n)
    && (forall c, i, j :: 0 <= c < |mem| && 0 <= i < j < |mem[c]| ==> mem[c][i] != mem[c][j])
    && (forall c, d, v :: 0 <= c < |mem| && 0 <= d < |mem| && c != d && v in mem[c] ==> v !in mem[d])
  }

  /** The lists of a well-formed context are such lists. */
  lemma ListsOfCtx(x: Ctx)
    requires x.OK()
    ensures Lists(|x.g|, x.mem, x.sizes)
  {
    forall c, d, v | 0 <= c < |x.mem| && 0 <= d < |x.mem| && c != d && v in x.mem[c]
      ensures v !in x.mem[d]
    {
      var i :| 0 <= i < |x.mem[c]| && x.mem[c][i] == v;
      MemberIff(x, d, v);
    }
  }

  /** The superedge pairs are dense ids below k. */
  ghost predicate Pairs(k: int, ps: seq<Edge>)
  {
    forall p :: p in ps ==> 0 <= p.0 < k && 0 <= p.1 < k
  }

  /** An encoding of all blocks is what the drop pass works on: its C+
      and C- entries are vertex pairs and its superedges dense id pairs. */
  lemma EncodedDroppable(x: Ctx, distinct: bool, P: seq<Edge>, Cp: seq<Edge>, Cm: seq<Edge>)
    requires x.OK() && Encodes(x, Up(x), distinct, P, Cp, Cm)
    ensures Lists(|x.g|, x.mem, x.sizes)
    ensures Vertices(|x.g|, Cp) && Vertices(|x.g|, Cm) && Pairs(|x.mem|, P)
  {
    ListsOfCtx(x);
    EncodingShape(x, distinct, P, Cp, Cm);
    forall e | e in Cp
      ensures 0 <= e.1 < |x.g|
    {
      var j :| 0 <= j < |x.g[e.0]| && x.g[e.0][j] == e.1;
    }
  }

  /** The budgets after deciding superedge p: None when p is kept (a self
      pair, or a side with a member that cannot pay), otherwise every
      member of A pays |B| and then every member of B pays |A|. */
  function PairCharge(mem: seq<seq<int>>, sizes: seq<int>, c: seq<real>, p: Edge): (r: Option<seq<real>>)
    requires Lists(|c|, mem, sizes) && 0 <= p.0 < |mem| && 0 <= p.1 < |mem|
    ensures r.Some? ==> |r.value| == |c|
  {
    var (A, B) := p;
    if A == B then None
    else if !AllAtLeast(c, mem[A], sizes[B]) then None
    else if !AllAtLeast(c, mem[B], sizes[A]) then None
    else Some(SubAll(SubAll(c, mem[A], sizes[B]), mem[B], sizes[A]))
  }

  /** The superedge pass over the pairs in the order given. */
  function DropPairs(mem: seq<seq<int>>, sizes: seq<int>, c: seq<real>, ps: seq<Edge>): (r: Dropped)
    requires Lists(|c|, mem, sizes) && Pairs(|mem|, ps)
    ensures |r.cv| == |c|
  {
    if ps == [] then Dropped([], c)
    else
      var r := DropPairs(mem, sizes, c, ps[..|ps| - 1]);
      match PairCharge(mem, sizes, r.cv, ps[|ps| - 1])
      case None => Dropped(r.kept + [ps[|ps| - 1]], r.cv)
      case Some(c') => Dropped(r.kept, c')
  }

  /** The member test of one side, with the early exit of the source. */
  method AllAtLeastLoop(cv: array<real>, vs: seq<int>, t: int) returns (cond: bool)
    requires forall i :: 0 <= i < |vs| ==> 0 <= vs[i] < cv.Length
    ensures cond == AllAtLeast(cv[..], vs, t)
  {
    cond := true;
    var i := 0;
    while i < |vs|
      invariant 0 <= i <= |vs|
      invariant forall j :: 0 <= j < i ==> cv[vs[j]] >= t as real
    {
      if cv[vs[i]] < t as real {
        cond := false;
        break;
      }
      i := i + 1;
    }
  }

  /** The loop charging every member of one side. */
  method SubAllLoop(cv: array<real>, vs: seq<int>, d: int)
    requires forall i :: 0 <= i < |vs| ==> 0 <= vs[i] < cv.Length
    modifies cv
    ensures cv[..] == SubAll(old(cv[..]), vs, d)
  {
    ghost var c0 := cv[..];
    var i := 0;
    while i < |vs|
      invariant 0 <= i <= |vs|
      invariant cv[..] == SubAll(c0, vs[..i], d)
    {
      assert vs[..i + 1][..i] == vs[..i];
      cv[vs[i]] := cv[vs[i]] - d as real;
      i := i + 1;
    }
    assert vs[..i] == vs;
  }

  /** The decision for one superedge. */
  method DropPair(sn_to_n: seq<seq<int>>, supernode_sizes: seq<int>, cv: array<real>, p: Edge) returns (keep: bool)
    requires Lists(cv.Length, sn_to_n, supernode_sizes) && 0 <= p.0 < |sn_to_n| && 0 <= p.1 < |sn_to_n|
    modifies cv
    ensures keep == PairCharge(sn_to_n, supernode_sizes, old(cv[..]), p).None?
    ensures if keep then cv[..] == old(cv[..]) else cv[..] == PairCharge(sn_to_n, supernode_sizes, old(cv[..]), p).value
  {
    var (A, B) := p;
    if A == B {
      return true;
    }
    var size_B := supernode_sizes[B];
    var in_A := sn_to_n[A];
    var cond_A := AllAtLeastLoop(cv, in_A, size_B);
    if !cond_A {
      return true;
    }
    var size_A := supernode_sizes[A];
    var in_B := sn_to_n[B];
    var cond_B := AllAtLeastLoop(cv, in_B, size_A);
    if !cond_B {
      return true;
    }
    SubAllLoop(cv, in_A, size_B);
    SubAllLoop(cv, in_B, size_A);
    keep := false;
  }

  /** The P loop of the drop pass. */
  method DropPairList(sn_to_n: seq<seq<int>>, supernode_sizes: seq<int>, cv: array<real>, ps: seq<Edge>)
    returns (kept: seq<Edge>)
    requires Lists(cv.Length, sn_to_n, supernode_sizes) && Pairs(|sn_to_n|, ps)
    modifies cv
    ensures Dropped(kept, cv[..]) == DropPairs(sn_to_n, supernode_sizes, old(cv[..]), ps)
  {
    ghost var c0 := cv[..];
    kept := [];
    var i := 0;
    while i < |ps|
      invariant 0 <= i <= |ps|
      invariant Dropped(kept, cv[..]) == DropPairs(sn_to_n, supernode_sizes, c0, ps[..i])
    {
      assert ps[..i + 1][..i] == ps[..i];
      var keep := DropPair(sn_to_n, supernode_sizes, cv, ps[i]);
      if keep {
        kept := kept + [ps[i]];
      }
      i := i + 1;
    }
    assert ps[..i] == ps;
  }

  /** The superedge pass keeps a subsequence of its input and keeps
      every self pair. */
  lemma {:induction false} DropPairsSub(mem: seq<seq<int>>, sizes: seq<int>, c: seq<real>, ps: seq<Edge>)
    requires Lists(|c|, mem, sizes) && Pairs(|mem|, ps)
    ensures Sub(DropPairs(mem, sizes, c, ps).kept, ps)
    ensures forall p :: p in ps && p.0 == p.1 ==> p in DropPairs(mem, sizes, c, ps).kept
    decreases |ps|
  {
    if ps != [] {
      var ps' := ps[..|ps| - 1];
      var p := ps[|ps| - 1];
      assert ps == ps' + [p];
      var r := DropPairs(mem, sizes, c, ps');
      DropPairsSub(mem, sizes, c, ps');
      match PairCharge(mem, sizes, r.cv, p)
      case None =>
        assert (r.kept + [p])[..|r.kept|] == r.kept;
      case Some(c') =>
        SubExtend(r.kept, ps', p);
    }
  }

  /** The superedge pass never raises a budget. */
  lemma {:induction false} DropPairsLower(mem: seq<seq<int>>, sizes: seq<int>, c: seq<real>, ps: seq<Edge>)
    requires Lists(|c|, mem, sizes) && Pairs(|mem|, ps)
    ensures forall v :: 0 <= v < |c| ==> DropPairs(mem, sizes, c, ps).cv[v] <= c[v]
    decreases |ps|
  {
    if ps != [] {
      var ps' := ps[..|ps| - 1];
      var p := ps[|ps| - 1];
      assert p in ps;
      DropPairsLower(mem, sizes, c, ps');
      var r := DropPairs(mem, sizes, c, ps');
      if PairCharge(mem, sizes, r.cv, p).Some? {
        PairChargeLowers(mem, sizes, r.cv, p);
      }
    }
  }

  /** Dropping a superedge lowers the budgets of its members and of no
      other vertex, by at most the size of the other side; with sizes and
      budgets non-negative before, the budgets stay non-negative. */
  lemma PairChargeLowers(mem: seq<seq<int>>, sizes: seq<int>, c: seq<real>, p: Edge)
    requires Lists(|c|, mem, sizes) && 0 <= p.0 < |mem| && 0 <= p.1 < |mem|
    requires PairCharge(mem, sizes, c, p).Some?
    ensures forall v :: 0 <= v < |c| ==> PairCharge(mem, sizes, c, p).value[v] <= c[v]
    ensures forall v :: 0 <= v < |c| && v !in mem[p.0] && v !in mem[p.1] ==> PairCharge(mem, sizes, c, p).value[v] == c[v]
    ensures (forall v :: 0 <= v < |c| ==> c[v] >= 0.0) ==>
              forall v :: 0 <= v < |c| ==> PairCharge(mem, sizes, c, p).value[v] >= 0.0
  {
    var (A, B) := p;
    var c1 := SubAll(c, mem[A], sizes[B]);
    SubAllAt(c, mem[A], sizes[B]);
    SubAllAt(c1, mem[B], sizes[A]);
    forall v | 0 <= v < |c|
      ensures v in mem[A] ==> v !in mem[B] && c[v] >= sizes[B] as real
      ensures v in mem[B] ==> c1[v] >= sizes[A] as real
    {
      if v in mem[A] {
        var i :| 0 <= i < |mem[A]| && mem[A][i] == v;
      }
      if v in mem[B] {
        var i :| 0 <= i < |mem[B]| && mem[B][i] == v;
      }
    }
  }

  /** Non-negative budgets stay non-negative through the superedge pass. */
  lemma {:induction false} DropPairsNonNeg(mem: seq<seq<int>>, sizes: seq<int>, c: seq<real>, ps: seq<Edge>)
    requires Lists(|c|, mem, sizes) && Pairs(|mem|, ps)
    requires forall v :: 0 <= v < |c| ==> c[v] >= 0.0
    ensures forall v :: 0 <= v < |c| ==> DropPairs(mem, sizes, c, ps).cv[v] >= 0.0
    decreases |ps|
  {
    if ps != [] {
      var ps' := ps[..|ps| - 1];
      var p := ps[|ps| - 1];
      assert p in ps;
      DropPairsNonNeg(mem, sizes, c, ps');
      var r := DropPairs(mem, sizes, c, ps');
      if PairCharge(mem, sizes, r.cv, p).Some? {
        PairChargeLowers(mem, sizes, r.cv, p);
      }
    }
  }

  // ---------------------------------------------------------------------
  // The whole pass

  /** The outcome of the drop pass: the budgets of the error bound are
      spent first on the C+ entries, then on the C- entries, then on the
      superedges in the order given. */
  ghost predicate DropsTo(Gr: Graph, mem: seq<seq<int>>, sizes: seq<int>, error_bound: real,
                          order: seq<Edge>, Cp: seq<Edge>, Cm: seq<Edge>,
                          P': seq<Edge>, Cp': seq<Edge>, Cm': seq<Edge>)
  {
    && Lists(|Gr|, mem, sizes) && Vertices(|Gr|, Cp) && Vertices(|Gr|, Cm) && Pairs(|mem|, order)
    && var r1 := DropEdges(Budgets(Gr, error_bound), Cp);
       var r2 := DropEdges(r1.cv, Cm);
       && Cp' == r1.kept && Cm' == r2.kept
       && P' == DropPairs(mem, sizes, r2.cv, order).kept
  }

  /** dropPhase: C+, then C-, then the superedges in the order given (P
      sorted by the source's comparator, any permutation of P). What
      survives is a subsequence of each list, self superedges all
      survive, and the output is no larger than the input. */
  method DropAll(Gr: Graph, sn_to_n: seq<seq<int>>, supernode_sizes: seq<int>, error_bound: real,
                 P: seq<Edge>, order: seq<Edge>, Cp: seq<Edge>, Cm: seq<Edge>)
    returns (P': seq<Edge>, Cp': seq<Edge>, Cm': seq<Edge>)
    requires Lists(|Gr|, sn_to_n, supernode_sizes)
    requires Vertices(|Gr|, Cp) && Vertices(|Gr|, Cm) && Pairs(|sn_to_n|, order)
    requires multiset(order) == multiset(P)
    ensures DropsTo(Gr, sn_to_n, supernode_sizes, error_bound, order, Cp, Cm, P', Cp', Cm')
    ensures Sub(Cp', Cp) && Sub(Cm', Cm) && Sub(P', order)
    ensures forall p :: p in P && p.0 == p.1 ==> p in P'
    ensures |P'| + |Cp'| + |Cm'| <= |P| + |Cp| + |Cm|
  {
    var cv := InitBudgets(Gr, error_bound);
    Cp' := DropEdgeList(cv, Cp);
    Cm' := DropEdgeList(cv, Cm);
    P' := DropPairList(sn_to_n, supernode_sizes, cv, order);
    var r1 := DropEdges(Budgets(Gr, error_bound), Cp);
    DropEdgesSub(Budgets(Gr, error_bound), Cp);
    DropEdgesSub(r1.cv, Cm);
    DropPairsSub(sn_to_n, supernode_sizes, DropEdges(r1.cv, Cm).cv, order);
    SubLength(Cp', Cp);
    SubLength(Cm', Cm);
    SubLength(P', order);
    assert |order| == |multiset(order)|;
    assert forall p :: p in P ==> p in multiset(P);
  }

  /** With a non-negative error bound, non-negative sizes and no self-loop
      entry in C+ or C-, no budget ends below 0. */
  lemma DropBudgetsNonNeg(Gr: Graph, sn_to_n: seq<seq<int>>, supernode_sizes: seq<int>, error_bound: real,
                          order: seq<Edge>, Cp: seq<Edge>, Cm: seq<Edge>)
    requires Lists(|Gr|, sn_to_n, supernode_sizes)
    requires Vertices(|Gr|, Cp) && Vertices(|Gr|, Cm) && Pairs(|sn_to_n|, order)
    requires error_bound >= 0.0
    requires forall e :: e in Cp ==> e.0 != e.1
    requires forall e :: e in Cm ==> e.0 != e.1
    ensures var r1 := DropEdges(Budgets(Gr, error_bound), Cp);
            var r2 := DropEdges(r1.cv, Cm);
            forall v :: 0 <= v < |Gr| ==> DropPairs(sn_to_n, supernode_sizes, r2.cv, order).cv[v] >= 0.0
  {
    var c := Budgets(Gr, error_bound);
    BudgetsNonNeg(Gr, error_bound);
    DropEdgesNonNeg(c, Cp);
    var r1 := DropEdges(c, Cp);
    DropEdgesNonNeg(r1.cv, Cm);
    DropPairsNonNeg(sn_to_n, supernode_sizes, DropEdges(r1.cv, Cm).cv, order);
  }
}
