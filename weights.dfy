/** Weight vectors: for a supernode, the map from each successor vertex of
    its members to the number of edges into it (multiplicities are kept).
    Also the key-wise sum used when two supernodes are merged, and the two
    integer accumulators of the weighted Jaccard similarity. */
module Weights {
  import opened Sums
  import opened Graphs

  /** The count map of a multiset: every element mapped to its multiplicity. */
  function WeightOf(ms: multiset<int>): map<int, int>
  {
    map k | k in ms :: ms[k]
  }

  /** The weight vector of a member list: how many times each vertex occurs
      among the members' successor arrays. */
  ghost function Weight(g: Graph, members: seq<int>): map<int, int>
    requires AllVertices(g, members)
  {
    WeightOf(multiset(Successors(g, members)))
  }

  /** Every stored count is positive, as in a map built by counting. */
  ghost predicate IsWeightVector(w: map<int, int>)
  {
    forall k :: k in w ==> w[k] >= 1
  }

  /** The key-wise sum of two weight vectors over the union of their keys. */
  function Combine(wA: map<int, int>, wB: map<int, int>): map<int, int>
  {
    map k | k in wA.Keys + wB.Keys :: Get(wA, k) + Get(wB, k)
  }

  /** Key-wise minimum over the union of keys, absent keys counting 0. */
  function MinMap(wA: map<int, int>, wB: map<int, int>): map<int, int>
  {
    map k | k in wA.Keys + wB.Keys :: if Get(wA, k) <= Get(wB, k) then Get(wA, k) else Get(wB, k)
  }

  /** Key-wise maximum over the union of keys, absent keys counting 0. */
  function MaxMap(wA: map<int, int>, wB: map<int, int>): map<int, int>
  {
    map k | k in wA.Keys + wB.Keys :: if Get(wA, k) <= Get(wB, k) then Get(wB, k) else Get(wA, k)
  }

  /** The numerator of the weighted Jaccard similarity: the sum of minima. */
  ghost function JacUp(wA: map<int, int>, wB: map<int, int>): int
  {
    Total(MinMap(wA, wB))
  }

  /** The denominator of the weighted Jaccard similarity: the sum of maxima. */
  ghost function JacDown(wA: map<int, int>, wB: map<int, int>): int
  {
    Total(MaxMap(wA, wB))
  }

  // ----- the count map of a multiset -----

  /** Counting one more occurrence of x bumps (or creates) the entry of x. */
  lemma WeightOfAdd(ms: multiset<int>, x: int)
    ensures WeightOf(ms + multiset{x}) == WeightOf(ms)[x := Get(WeightOf(ms), x) + 1]
  {
  }

  /** One step of the counting loop: a new key starts at 1, a known one
      goes up by 1, and the map then counts xs + [x]. */
  lemma CountOne(w: map<int, int>, xs: seq<int>, x: int, w': map<int, int>, ys: seq<int>)
    requires w == WeightOf(multiset(xs))
    requires w' == if x in w then w[x := w[x] + 1] else w[x := 1]
    requires ys == xs + [x]
    ensures w' == WeightOf(multiset(ys))
  {
    assert multiset(xs + [x]) == multiset(xs) + multiset{x};
    WeightOfAdd(multiset(xs), x);
  }

  /** The counting loops of createW over a member array: every successor
      of every member is counted once per occurrence. */
  method CountSuccessors(g: Graph, Nodes: array<int>) returns (w_Single: map<int, int>)
    requires AllVertices(g, Nodes[..])
    ensures w_Single == WeightOf(multiset(Successors(g, Nodes[..])))
  {
    w_Single := map[];
    var j := 0;
    while j < Nodes.Length
      invariant 0 <= j <= Nodes.Length
      invariant AllVertices(g, Nodes[..j])
      invariant w_Single == WeightOf(multiset(Successors(g, Nodes[..j])))
    {
      assert Nodes[j] == Nodes[..][j];
      w_Single := CountRow(w_Single, Successors(g, Nodes[..j]), g[Nodes[j]]);
      assert Nodes[..j + 1][..j] == Nodes[..j];
      j := j + 1;
    }
    assert Nodes[..j] == Nodes[..];
  }

  /** The inner loop of createW: counts one successor array on top of the
      counts of the successors seen before. */
  method CountRow(w: map<int, int>, ghost before: seq<int>, Neigh: seq<int>) returns (w_Single: map<int, int>)
    requires w == WeightOf(multiset(before))
    ensures w_Single == WeightOf(multiset(before + Neigh))
  {
    w_Single := w;
    var k := 0;
    assert before + Neigh[..0] == before;
    while k < |Neigh|
      invariant 0 <= k <= |Neigh|
      invariant w_Single == WeightOf(multiset(before + Neigh[..k]))
    {
      ghost var w0 := w_Single;
      if Neigh[k] in w_Single {
        w_Single := w_Single[Neigh[k] := w_Single[Neigh[k]] + 1];
      } else {
        w_Single := w_Single[Neigh[k] := 1];
      }
      assert before + Neigh[..k + 1] == before + Neigh[..k] + [Neigh[k]];
      CountOne(w0, before + Neigh[..k], Neigh[k], w_Single, before + Neigh[..k + 1]);
      k := k + 1;
    }
    assert Neigh[..k] == Neigh;
  }

  /** A count map is a weight vector whose values add up to the size of the
      multiset it counts. */
  lemma {:induction false} WeightOfTotal(ms: multiset<int>)
    ensures IsWeightVector(WeightOf(ms))
    ensures Total(WeightOf(ms)) == |ms|
    decreases |ms|
  {
    if ms == multiset{} {
      assert WeightOf(ms) == map[];
    } else {
      if forall y :: y !in ms {
        assert false;
      }
      var x :| x in ms;
      var rest := ms - multiset{x};
      assert ms == rest + multiset{x};
      WeightOfTotal(rest);
      WeightOfAdd(rest, x);
      TotalBump(WeightOf(rest), x, 1);
    }
  }

  /** Counting a multiset union is summing the two count maps key-wise. */
  lemma WeightOfUnion(m1: multiset<int>, m2: multiset<int>)
    ensures WeightOf(m1 + m2) == Combine(WeightOf(m1), WeightOf(m2))
  {
  }

  /** The weight vector of a member list counts each vertex as often as it
      occurs among the members' successors, its keys are exactly those
      successors, and its values add up to the members' total out-degree. */
  lemma WeightCounts(g: Graph, members: seq<int>)
    requires AllVertices(g, members)
    ensures forall k :: k in Weight(g, members) <==> k in Successors(g, members)
    ensures forall k :: k in Weight(g, members) ==>
              Weight(g, members)[k] == multiset(Successors(g, members))[k]
    ensures IsWeightVector(Weight(g, members))
    ensures Total(Weight(g, members)) == OutDegrees(g, members)
  {
    WeightOfTotal(multiset(Successors(g, members)));
    SuccessorsLength(g, members);
  }

  /** The weight vector of a merged supernode is the key-wise sum of the two
      former vectors: this is why updateW may replace a fresh createW after a
      merge. */
  lemma MergedWeight(g: Graph, sA: seq<int>, sB: seq<int>)
    requires AllVertices(g, sA) && AllVertices(g, sB)
    ensures AllVertices(g, sA + sB)
    ensures Weight(g, sA + sB) == Combine(Weight(g, sA), Weight(g, sB))
  {
    SuccessorsAppend(g, sA, sB);
    WeightOfUnion(multiset(Successors(g, sA)), multiset(Successors(g, sB)));
  }

  /** The key-wise sum does not depend on the order of its arguments, and
      its total is the sum of the totals. */
  lemma CombineProps(wA: map<int, int>, wB: map<int, int>)
    ensures Combine(wA, wB) == Combine(wB, wA)
    ensures Total(Combine(wA, wB)) == Total(wA) + Total(wB)
  {
    var c := Combine(wA, wB);
    var u := wA.Keys + wB.Keys;
    assert c.Keys == u;
    SumOverPlus(c, wA, wB, u);
    SumOverPadZero(wA, wA.Keys, u - wA.Keys);
    assert wA.Keys + (u - wA.Keys) == u;
    SumOverPadZero(wB, wB.Keys, u - wB.Keys);
    assert wB.Keys + (u - wB.Keys) == u;
  }

  // ----- weighted Jaccard -----

  /** The two accumulators satisfy 0 <= up <= down. */
  lemma JacBounds(wA: map<int, int>, wB: map<int, int>)
    requires NonNeg(wA) && NonNeg(wB)
    ensures 0 <= JacUp(wA, wB) <= JacDown(wA, wB)
  {
    var mn, mx := MinMap(wA, wB), MaxMap(wA, wB);
    var u := wA.Keys + wB.Keys;
    assert mn.Keys == u && mx.Keys == u;
    assert forall k :: k in u ==> Get(wA, k) >= 0 && Get(wB, k) >= 0;
    SumOverNonNeg(mn, u);
    SumOverLe(mn, mx, u);
  }

  /** Both accumulators are symmetric in the two vectors. */
  lemma JacSymmetric(wA: map<int, int>, wB: map<int, int>)
    ensures JacUp(wA, wB) == JacUp(wB, wA) && JacDown(wA, wB) == JacDown(wB, wA)
  {
    var u := wA.Keys + wB.Keys;
    assert MinMap(wA, wB).Keys == u && MinMap(wB, wA).Keys == u;
    assert MaxMap(wA, wB).Keys == u && MaxMap(wB, wA).Keys == u;
    SumOverExt(MinMap(wA, wB), MinMap(wB, wA), u);
    SumOverExt(MaxMap(wA, wB), MaxMap(wB, wA), u);
  }

  /** A vector compared with itself gives up == down == its total. */
  lemma JacSelf(wA: map<int, int>)
    ensures JacUp(wA, wA) == JacDown(wA, wA) == Total(wA)
  {
    assert MinMap(wA, wA) == wA && MaxMap(wA, wA) == wA;
  }

  /** For weight vectors, the sum of minima reaches the sum of maxima exactly
      when the two vectors are equal (a similarity of 1). */
  lemma JacEqualIff(wA: map<int, int>, wB: map<int, int>)
    requires IsWeightVector(wA) && IsWeightVector(wB)
    ensures JacUp(wA, wB) == JacDown(wA, wB) <==> wA == wB
  {
    var mn, mx := MinMap(wA, wB), MaxMap(wA, wB);
    var u := wA.Keys + wB.Keys;
    assert mn.Keys == u && mx.Keys == u;
    if wA == wB {
      JacSelf(wA);
    }
    if JacUp(wA, wB) == JacDown(wA, wB) {
      SumOverTight(mn, mx, u);
      assert forall k :: k in u ==> Get(wA, k) == Get(wB, k);
      assert wA.Keys == wB.Keys;
    }
  }

  /** The similarity itself: up / down, undefined (NaN in the original)
      when down is 0. */
  function JacRatio(up: int, down: int): (r: Option<real>)
    ensures down != 0 <==> r.Some?
    ensures 0 <= up <= down && r.Some? ==> 0.0 <= r.value <= 1.0
    ensures r.Some? ==> r.value * (down as real) == up as real
  {
    if down == 0 then None else Some((up as real) / (down as real))
  }

  // ----- the methods -----

  /** updateW: the key-wise sum of two weight vectors. */
  method UpdateW(wA: map<int, int>, wB: map<int, int>) returns (result: map<int, int>)
    ensures result == Combine(wA, wB)
  {
    result := map[];
    var todo := wA.Keys;
    while todo != {}
      invariant todo <= wA.Keys
      invariant result.Keys == wA.Keys - todo
      invariant forall k :: k in result ==> result[k] == Get(wA, k) + Get(wB, k)
      decreases todo
    {
      HasElement(todo);
      var key :| key in todo;
      if key in wB {
        result := result[key := wA[key] + wB[key]];
      } else {
        result := result[key := wA[key]];
      }
      todo := todo - {key};
    }
    todo := wB.Keys;
    while todo != {}
      invariant todo <= wB.Keys
      invariant result.Keys == wA.Keys + (wB.Keys - todo)
      invariant forall k :: k in result ==> result[k] == Get(wA, k) + Get(wB, k)
      decreases todo
    {
      HasElement(todo);
      var key :| key in todo;
      if key !in wA {
        result := result[key := wB[key]];
      }
      todo := todo - {key};
    }
  }

  /** computeJacSim, up to the final division: up accumulates the minima
      and down the maxima over the union of keys. */
  method ComputeJacSim(wA: map<int, int>, wB: map<int, int>) returns (up: int, down: int)
    requires NonNeg(wA) && NonNeg(wB)
    ensures up == JacUp(wA, wB) && down == JacDown(wA, wB)
  {
    ghost var mn, mx := MinMap(wA, wB), MaxMap(wA, wB);
    down, up := 0, 0;
    var todo := wA.Keys;
    while todo != {}
      invariant todo <= wA.Keys
      invariant up == SumOver(mn, wA.Keys - todo)
      invariant down == SumOver(mx, wA.Keys - todo)
      decreases todo
    {
      HasElement(todo);
      var key :| key in todo;
      SumOverAdd(mn, wA.Keys - todo, key);
      SumOverAdd(mx, wA.Keys - todo, key);
      assert wA.Keys - todo + {key} == wA.Keys - (todo - {key});
      if key in wB {
        if wA[key] <= wB[key] {
          up := up + wA[key];
          down := down + wB[key];
        } else {
          down := down + wA[key];
          up := up + wB[key];
        }
      } else {
        down := down + wA[key];
      }
      todo := todo - {key};
    }
    todo := wB.Keys;
    assert wA.Keys + (wB.Keys - todo) == wA.Keys - {};
    while todo != {}
      invariant todo <= wB.Keys
      invariant up == SumOver(mn, wA.Keys + (wB.Keys - todo))
      invariant down == SumOver(mx, wA.Keys + (wB.Keys - todo))
      decreases todo
    {
      HasElement(todo);
      var key :| key in todo;
      ghost var done := wA.Keys + (wB.Keys - todo);
      ghost var next := wA.Keys + (wB.Keys - (todo - {key}));
      if !(key in wA) {
        assert key !in done && next == done + {key};
        SumOverAdd(mn, done, key);
        SumOverAdd(mx, done, key);
        down := down + wB[key];
      } else {
        assert next == done;
      }
      todo := todo - {key};
    }
    assert wA.Keys + (wB.Keys - todo) == mn.Keys == mx.Keys;
  }
}
