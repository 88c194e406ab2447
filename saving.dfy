/** The savings estimate of a candidate merge. Every adjacency block between
    two supernodes is charged the cheaper of two encodings: its E edges
    listed one by one, or a declared superedge (cost 1) plus one correction
    for each of the compare - E missing pairs. All costs are integers: a
    block bound is either a product of sizes or num * (num - 1) / 2, which
    is whole. */
module Saving {
  import opened Sums
  import opened Graphs

  /** The cost of one block with E edges out of compare possible pairs: the
      cheaper of listing the edges and declaring the block. */
  function BlockCost(E: int, compare: int): (c: int)
    ensures c <= E && c <= 1 + compare - E
    ensures c == E || c == 1 + compare - E
  {
    if 2 * E <= compare then E else 1 + compare - E
  }

  /** The pair bound of a supernode against itself, num * (num - 1) / 2. */
  function SelfCompare(num: int): (c: int)
    ensures 2 * c == num * (num - 1)
  {
    ProductEven(num);
    num * (num - 1) / 2
  }

  lemma ProductEven(num: int)
    ensures (num * (num - 1)) % 2 == 0
  {
    var h := num / 2;
    if num % 2 == 0 {
      assert num * (num - 1) == 2 * (h * (num - 1));
    } else {
      assert num - 1 == 2 * h;
      assert num * (num - 1) == 2 * (num * h);
    }
  }

  // ----- grouping a weight vector by supernode -----

  /** The supernodes owning the keys in ks. */
  ghost function OwnersOf(owner: seq<int>, ks: set<int>): set<int>
    requires forall k :: k in ks ==> 0 <= k < |owner|
  {
    set k | k in ks :: owner[k]
  }

  /** The keys in ks owned by c. */
  ghost function OwnedBy(owner: seq<int>, ks: set<int>, c: int): set<int>
    requires forall k :: k in ks ==> 0 <= k < |owner|
  {
    set k | k in ks && owner[k] == c
  }

  /** The weights of the keys in ks, summed per owning supernode. */
  ghost function GroupOver(w: map<int, int>, owner: seq<int>, ks: set<int>): map<int, int>
    requires forall k :: k in ks ==> 0 <= k < |owner|
  {
    map c | c in OwnersOf(owner, ks) :: SumOver(w, OwnedBy(owner, ks, c))
  }

  /** A weight vector summed per owning supernode: the edge count from the
      supernode the vector belongs to into every other supernode. */
  ghost function Group(w: map<int, int>, owner: seq<int>): map<int, int>
    requires forall k :: k in w ==> 0 <= k < |owner|
  {
    GroupOver(w, owner, w.Keys)
  }

  /** Grouping one more key bumps its owner's entry by its weight. */
  lemma GroupStep(w: map<int, int>, owner: seq<int>, ks: set<int>, key: int)
    requires forall k :: k in ks ==> 0 <= k < |owner|
    requires 0 <= key < |owner| && key !in ks
    ensures var g := GroupOver(w, owner, ks);
            GroupOver(w, owner, ks + {key}) == g[owner[key] := Get(g, owner[key]) + Get(w, key)]
  {
    var g := GroupOver(w, owner, ks);
    var g' := GroupOver(w, owner, ks + {key});
    var c := owner[key];
    var h := g[c := Get(g, c) + Get(w, key)];
    OwnersStep(owner, ks, key);
    assert g'.Keys == h.Keys;
    GroupOwnerEntry(w, owner, ks, key);
    forall d | d in g' && d != c
      ensures g'[d] == h[d]
    {
      GroupOtherEntry(w, owner, ks, key, d);
    }
  }

  /** One step of a grouping loop: the owner's entry starts at the key's
      weight or goes up by it, and the map then groups one more key. */
  lemma GroupBump(w: map<int, int>, owner: seq<int>, ks: set<int>, key: int, g: map<int, int>, g': map<int, int>)
    requires forall k :: k in ks ==> 0 <= k < |owner|
    requires 0 <= key < |owner| && key !in ks && key in w
    requires g == GroupOver(w, owner, ks)
    requires g' == if owner[key] in g then g[owner[key] := g[owner[key]] + w[key]] else g[owner[key] := w[key]]
    ensures g' == GroupOver(w, owner, ks + {key})
  {
    GroupStep(w, owner, ks, key);
  }

  lemma OwnersStep(owner: seq<int>, ks: set<int>, key: int)
    requires forall k :: k in ks ==> 0 <= k < |owner|
    requires 0 <= key < |owner|
    ensures OwnersOf(owner, ks + {key}) == OwnersOf(owner, ks) + {owner[key]}
  {
  }

  lemma GroupOwnerEntry(w: map<int, int>, owner: seq<int>, ks: set<int>, key: int)
    requires forall k :: k in ks ==> 0 <= k < |owner|
    requires 0 <= key < |owner| && key !in ks
    ensures SumOver(w, OwnedBy(owner, ks + {key}, owner[key]))
         == Get(GroupOver(w, owner, ks), owner[key]) + Get(w, key)
  {
    var c := owner[key];
    OwnedStep(owner, ks, key);
    SumOverAdd(w, OwnedBy(owner, ks, c), key);
    if c !in GroupOver(w, owner, ks) {
      assert OwnedBy(owner, ks, c) == {};
    }
  }

  lemma GroupOtherEntry(w: map<int, int>, owner: seq<int>, ks: set<int>, key: int, d: int)
    requires forall k :: k in ks ==> 0 <= k < |owner|
    requires 0 <= key < |owner| && d != owner[key] && d in OwnersOf(owner, ks)
    ensures SumOver(w, OwnedBy(owner, ks + {key}, d)) == GroupOver(w, owner, ks)[d]
  {
    assert OwnedBy(owner, ks + {key}, d) == OwnedBy(owner, ks, d);
  }

  lemma OwnedStep(owner: seq<int>, ks: set<int>, key: int)
    requires forall k :: k in ks ==> 0 <= k < |owner|
    requires 0 <= key < |owner| && key !in ks
    ensures OwnedBy(owner, ks + {key}, owner[key]) == OwnedBy(owner, ks, owner[key]) + {key}
    ensures key !in OwnedBy(owner, ks, owner[key])
  {
  }

  /** Grouping preserves the total weight. */
  lemma {:induction false} GroupTotal(w: map<int, int>, owner: seq<int>, ks: set<int>)
    requires forall k :: k in ks ==> 0 <= k < |owner|
    ensures Total(GroupOver(w, owner, ks)) == SumOver(w, ks)
    decreases ks
  {
    if ks == {} {
      assert GroupOver(w, owner, ks) == map[];
    } else {
      HasElement(ks);
      var k :| k in ks;
      GroupTotal(w, owner, ks - {k});
      GroupStep(w, owner, ks - {k}, k);
      assert ks - {k} + {k} == ks;
      var g := GroupOver(w, owner, ks - {k});
      TotalBump(g, owner[k], Get(w, k));
      SumOverRemove(w, ks, k);
    }
  }

  /** A grouped vector of non-negative weights has non-negative entries. */
  lemma GroupNonNeg(w: map<int, int>, owner: seq<int>)
    requires forall k :: k in w ==> 0 <= k < |owner|
    requires NonNeg(w)
    ensures NonNeg(Group(w, owner))
  {
    forall c | c in Group(w, owner)
      ensures Group(w, owner)[c] >= 0
    {
      SumOverNonNeg(w, OwnedBy(owner, w.Keys, c));
    }
  }

  // ----- the three costs -----

  /** The pair bound of a block of supernode self (num members) against c. */
  function SideCompare(c: int, self: int, num: int, size: map<int, int>): int
  {
    if c == self then SelfCompare(num) else num * Get(size, c)
  }

  /** The block costs of one supernode against each neighbouring supernode. */
  function SideCosts(sp: map<int, int>, size: map<int, int>, self: int, num: int): map<int, int>
  {
    map c | c in sp :: BlockCost(sp[c], SideCompare(c, self, num, size))
  }

  /** The block costs of the merged supernode against every neighbouring
      supernode other than A and B, with the edge counts of both sides. */
  function UnionCosts(spA: map<int, int>, spB: map<int, int>, size: map<int, int>, A: int, B: int, num: int): map<int, int>
  {
    map c | c in (spA.Keys + spB.Keys) - {A, B} :: BlockCost(Get(spA, c) + Get(spB, c), num * Get(size, c))
  }

  /** The edges that end up inside the merged supernode: A to itself, A to
      B and B to itself. Edges from B to A are not added; on a symmetric
      graph they equal the A to B count. */
  function SelfEdges(spA: map<int, int>, spB: map<int, int>, A: int, B: int): int
  {
    Get(spA, A) + Get(spA, B) + Get(spB, B)
  }

  /** The cost of the merged supernode's own block, charged only when it
      holds an edge. */
  function SelfCost(spA: map<int, int>, spB: map<int, int>, A: int, B: int, num: int): int
  {
    var E := SelfEdges(spA, spB, A, B);
    if E > 0 then BlockCost(E, SelfCompare(num)) else 0
  }

  datatype Costs = Costs(costA: int, costB: int, costAB: int)

  /** The three costs of a candidate merge of A (numA members, grouped edge
      counts spA) and B (numB, spB). */
  ghost function SavingCosts(spA: map<int, int>, spB: map<int, int>, size: map<int, int>,
                             A: int, B: int, numA: int, numB: int): Costs
  {
    Costs(Total(SideCosts(spA, size, A, numA)),
          Total(SideCosts(spB, size, B, numB)),
          Total(UnionCosts(spA, spB, size, A, B, numA + numB)) + SelfCost(spA, spB, A, B, numA + numB))
  }

  /** The savings score 1 - costAB / (costA + costB); undefined (a NaN or an
      infinity in the original's doubles) when both side costs are 0. */
  function SavingRatio(c: Costs): (r: Option<real>)
    ensures c.costA + c.costB != 0 <==> r.Some?
    ensures r.Some? ==> r.value * ((c.costA + c.costB) as real) == (c.costA + c.costB - c.costAB) as real
  {
    if c.costA + c.costB == 0 then None
    else Some(1.0 - (c.costAB as real) / ((c.costA + c.costB) as real))
  }

  /** Charging the cheaper encoding never costs more than listing every
      edge: one side's cost is at most its total edge count. */
  lemma SideCostAtMost(sp: map<int, int>, size: map<int, int>, self: int, num: int)
    ensures Total(SideCosts(sp, size, self, num)) <= Total(sp)
  {
    var sc := SideCosts(sp, size, self, num);
    assert sc.Keys == sp.Keys;
    SumOverLe(sc, sp, sp.Keys);
  }

  /** Likewise the merged cost is at most the edge count of both sides. */
  lemma UnionCostAtMost(spA: map<int, int>, spB: map<int, int>, size: map<int, int>, A: int, B: int, num: int)
    requires NonNeg(spA) && NonNeg(spB) && A != B
    ensures Total(UnionCosts(spA, spB, size, A, B, num)) + SelfCost(spA, spB, A, B, num)
         <= Total(spA) + Total(spB)
  {
    var u := spA.Keys + spB.Keys;
    var rest := u - {A, B};
    var uc := UnionCosts(spA, spB, size, A, B, num);
    var both := Both(spA, spB);
    assert uc.Keys == rest;
    SumOverLe(uc, both, rest);
    BothTotal(spA, spB);
    SplitPair(both, u, A, B);
    assert Get(both, A) >= Get(spA, A) && Get(both, B) >= Get(spA, B) + Get(spB, B);
  }

  /** The key-wise sum of two count maps. */
  function Both(spA: map<int, int>, spB: map<int, int>): map<int, int>
  {
    map c | c in spA.Keys + spB.Keys :: Get(spA, c) + Get(spB, c)
  }

  lemma BothTotal(spA: map<int, int>, spB: map<int, int>)
    ensures SumOver(Both(spA, spB), spA.Keys + spB.Keys) == Total(spA) + Total(spB)
  {
    var u := spA.Keys + spB.Keys;
    SumOverPlus(Both(spA, spB), spA, spB, u);
    SumOverPadZero(spA, spA.Keys, u - spA.Keys);
    assert spA.Keys + (u - spA.Keys) == u;
    SumOverPadZero(spB, spB.Keys, u - spB.Keys);
    assert spB.Keys + (u - spB.Keys) == u;
  }

  /** Grouping by owner and then charging the cheaper encoding per block:
      each side costs at most its number of edges, and the merged
      supernode at most both together. */
  lemma SavingCostsAtMost(w_A: map<int, int>, w_B: map<int, int>, owner: seq<int>, size: map<int, int>,
                          A: int, B: int, numA: int, numB: int)
    requires forall k :: k in w_A ==> 0 <= k < |owner|
    requires forall k :: k in w_B ==> 0 <= k < |owner|
    requires NonNeg(w_A) && NonNeg(w_B) && A != B
    ensures SavingCosts(Group(w_A, owner), Group(w_B, owner), size, A, B, numA, numB).costA <= Total(w_A)
    ensures SavingCosts(Group(w_A, owner), Group(w_B, owner), size, A, B, numA, numB).costB <= Total(w_B)
    ensures SavingCosts(Group(w_A, owner), Group(w_B, owner), size, A, B, numA, numB).costAB
         <= Total(w_A) + Total(w_B)
  {
    var spA := Group(w_A, owner);
    var spB := Group(w_B, owner);
    Grouped(w_A, owner);
    Grouped(w_B, owner);
    SideCostAtMost(spA, size, A, numA);
    SideCostAtMost(spB, size, B, numB);
    UnionCostAtMost(spA, spB, size, A, B, numA + numB);
  }

  /** Grouping keeps the total and the signs of the weights. */
  lemma Grouped(w: map<int, int>, owner: seq<int>)
    requires forall k :: k in w ==> 0 <= k < |owner|
    requires NonNeg(w)
    ensures NonNeg(Group(w, owner)) && Total(Group(w, owner)) == Total(w)
  {
    GroupTotal(w, owner, w.Keys);
    GroupNonNeg(w, owner);
  }

  /** A sum over u splits into the keys other than A and B, plus the
      entries of A and B (absent ones counting 0). */
  lemma SplitPair(m: map<int, int>, u: set<int>, A: int, B: int)
    requires A != B
    requires forall k :: k !in u ==> Get(m, k) == 0
    ensures SumOver(m, u) == SumOver(m, u - {A, B}) + Get(m, A) + Get(m, B)
  {
    var rest := u - {A, B};
    var ab := u * {A, B};
    assert rest + ab == u && rest !! ab;
    SumOverUnion(m, rest, ab);
    SumOverPadZero(m, ab, {A, B} - ab);
    assert ab + ({A, B} - ab) == {A, B};
    SumOverRemove(m, {A, B}, A);
    assert {A, B} - {A} == {B};
    SumOverRemove(m, {B}, B);
    assert {B} - {B} == {};
  }

  // ----- the cost loops of computeSaving -----

  /** Adding one neighbour to a partial sum of side costs. */
  lemma SideStep(sp: map<int, int>, size: map<int, int>, self: int, num: int, done: set<int>, key: int)
    requires key in sp && key !in done
    ensures SumOver(SideCosts(sp, size, self, num), done + {key})
         == SumOver(SideCosts(sp, size, self, num), done) + BlockCost(sp[key], SideCompare(key, self, num, size))
  {
    SumOverAdd(SideCosts(sp, size, self, num), done, key);
  }

  /** Adding one neighbour other than A and B to a partial sum of merged
      costs. */
  lemma UnionStep(spA: map<int, int>, spB: map<int, int>, size: map<int, int>, A: int, B: int, num: int,
                  done: set<int>, key: int)
    requires key in spA.Keys + spB.Keys && key != A && key != B && key !in done
    ensures SumOver(UnionCosts(spA, spB, size, A, B, num), done + {key})
         == SumOver(UnionCosts(spA, spB, size, A, B, num), done)
            + BlockCost(Get(spA, key) + Get(spB, key), num * Get(size, key))
  {
    SumOverAdd(UnionCosts(spA, spB, size, A, B, num), done, key);
  }

  lemma SideKeys(sp: map<int, int>, size: map<int, int>, self: int, num: int)
    ensures SideCosts(sp, size, self, num).Keys == sp.Keys
  {
  }

  /** One iteration of the loop over spA keeps both partial sums. */
  lemma LoopAStep(spA: map<int, int>, spB: map<int, int>, size: map<int, int>, A: int, B: int,
                  numA: int, numB: int, done: set<int>, key: int,
                  cA: int, cAB: int, cA': int, cAB': int)
    requires key in spA && key !in done
    requires cA == SumOver(SideCosts(spA, size, A, numA), done)
    requires cAB == SumOver(UnionCosts(spA, spB, size, A, B, numA + numB), done - {A, B})
    requires cA' == cA + BlockCost(spA[key], if key == A then SelfCompare(numA) else numA * Get(size, key))
    requires cAB' == if key != B && key != A
                     then cAB + BlockCost(spA[key] + Get(spB, key), (numA + numB) * Get(size, key))
                     else cAB
    ensures cA' == SumOver(SideCosts(spA, size, A, numA), done + {key})
    ensures cAB' == SumOver(UnionCosts(spA, spB, size, A, B, numA + numB), done + {key} - {A, B})
  {
    SideStep(spA, size, A, numA, done, key);
    UnionPartA(spA, spB, size, A, B, numA + numB, done, key, cAB, cAB');
  }

  lemma UnionPartA(spA: map<int, int>, spB: map<int, int>, size: map<int, int>, A: int, B: int,
                   num: int, done: set<int>, key: int, cAB: int, cAB': int)
    requires key in spA && key !in done
    requires cAB == SumOver(UnionCosts(spA, spB, size, A, B, num), done - {A, B})
    requires cAB' == if key != B && key != A
                     then cAB + BlockCost(spA[key] + Get(spB, key), num * Get(size, key))
                     else cAB
    ensures cAB' == SumOver(UnionCosts(spA, spB, size, A, B, num), done + {key} - {A, B})
  {
    if key != B && key != A {
      assert done + {key} - {A, B} == (done - {A, B}) + {key};
      UnionStep(spA, spB, size, A, B, num, done - {A, B}, key);
    } else {
      assert done + {key} - {A, B} == done - {A, B};
    }
  }

  /** The loop over spA: the cost of A, and the merged cost of every
      neighbour of A other than A and B (with B's count added). */
  method CostLoopA(spA: map<int, int>, spB: map<int, int>, size: map<int, int>,
                   A: int, B: int, numA: int, numB: int) returns (cost_A: int, cost_AB: int)
    ensures cost_A == Total(SideCosts(spA, size, A, numA))
    ensures cost_AB == SumOver(UnionCosts(spA, spB, size, A, B, numA + numB), spA.Keys - {A, B})
  {
    cost_A, cost_AB := 0, 0;
    var todo := spA.Keys;
    ghost var done: set<int> := {};
    while todo != {}
      invariant todo !! done && todo + done == spA.Keys
      invariant cost_A == SumOver(SideCosts(spA, size, A, numA), done)
      invariant cost_AB == SumOver(UnionCosts(spA, spB, size, A, B, numA + numB), done - {A, B})
      decreases todo
    {
      HasElement(todo);
      var key :| key in todo;
      ghost var cA, cAB := cost_A, cost_AB;
      var E := spA[key];
      var compare := if key == A then SelfCompare(numA) else numA * Get(size, key);
      cost_A := cost_A + BlockCost(E, compare);
      if key != B && key != A {
        E := E + Get(spB, key);
        compare := (numA + numB) * Get(size, key);
        cost_AB := cost_AB + BlockCost(E, compare);
      }
      LoopAStep(spA, spB, size, A, B, numA, numB, done, key, cA, cAB, cost_A, cost_AB);
      done := done + {key};
      todo := todo - {key};
    }
    SideKeys(spA, size, A, numA);
  }

  /** One iteration of the loop over spB keeps both partial sums. */
  lemma LoopBStep(spA: map<int, int>, spB: map<int, int>, size: map<int, int>, A: int, B: int,
                  numA: int, numB: int, done: set<int>, key: int,
                  cB: int, cAB: int, cB': int, cAB': int)
    requires key in spB && key !in done
    requires cB == SumOver(SideCosts(spB, size, B, numB), done)
    requires cAB == SumOver(UnionCosts(spA, spB, size, A, B, numA + numB), done - spA.Keys - {A, B})
    requires cB' == cB + BlockCost(spB[key], if key == B then SelfCompare(numB) else numB * Get(size, key))
    requires cAB' == if key != B && key != A && key !in spA
                     then cAB + BlockCost(spB[key], (numA + numB) * Get(size, key))
                     else cAB
    ensures cB' == SumOver(SideCosts(spB, size, B, numB), done + {key})
    ensures cAB' == SumOver(UnionCosts(spA, spB, size, A, B, numA + numB), done + {key} - spA.Keys - {A, B})
  {
    SideStep(spB, size, B, numB, done, key);
    UnionPartB(spA, spB, size, A, B, numA + numB, done, key, cAB, cAB');
  }

  lemma UnionPartB(spA: map<int, int>, spB: map<int, int>, size: map<int, int>, A: int, B: int,
                   num: int, done: set<int>, key: int, cAB: int, cAB': int)
    requires key in spB && key !in done
    requires cAB == SumOver(UnionCosts(spA, spB, size, A, B, num), done - spA.Keys - {A, B})
    requires cAB' == if key != B && key != A && key !in spA
                     then cAB + BlockCost(spB[key], num * Get(size, key))
                     else cAB
    ensures cAB' == SumOver(UnionCosts(spA, spB, size, A, B, num), done + {key} - spA.Keys - {A, B})
  {
    if key != B && key != A && key !in spA {
      assert done + {key} - spA.Keys - {A, B} == (done - spA.Keys - {A, B}) + {key};
      UnionStep(spA, spB, size, A, B, num, done - spA.Keys - {A, B}, key);
    } else {
      assert done + {key} - spA.Keys - {A, B} == done - spA.Keys - {A, B};
    }
  }

  /** The loop over spB: the cost of B, and the merged cost of every
      neighbour of B that is not a neighbour of A, nor A or B. */
  method CostLoopB(spA: map<int, int>, spB: map<int, int>, size: map<int, int>,
                   A: int, B: int, numA: int, numB: int) returns (cost_B: int, cost_AB: int)
    ensures cost_B == Total(SideCosts(spB, size, B, numB))
    ensures cost_AB == SumOver(UnionCosts(spA, spB, size, A, B, numA + numB), spB.Keys - spA.Keys - {A, B})
  {
    cost_B, cost_AB := 0, 0;
    var todo := spB.Keys;
    ghost var done: set<int> := {};
    while todo != {}
      invariant todo !! done && todo + done == spB.Keys
      invariant cost_B == SumOver(SideCosts(spB, size, B, numB), done)
      invariant cost_AB == SumOver(UnionCosts(spA, spB, size, A, B, numA + numB), done - spA.Keys - {A, B})
      decreases todo
    {
      HasElement(todo);
      var key :| key in todo;
      ghost var cB, cAB := cost_B, cost_AB;
      var E := spB[key];
      var compare := if key == B then SelfCompare(numB) else numB * Get(size, key);
      cost_B := cost_B + BlockCost(E, compare);
      if key != B && key != A && key !in spA {
        compare := (numA + numB) * Get(size, key);
        cost_AB := cost_AB + BlockCost(E, compare);
      }
      LoopBStep(spA, spB, size, A, B, numA, numB, done, key, cB, cAB, cost_B, cost_AB);
      done := done + {key};
      todo := todo - {key};
    }
    SideKeys(spB, size, B, numB);
  }

  lemma UnionKeys(spA: map<int, int>, spB: map<int, int>, size: map<int, int>, A: int, B: int, num: int)
    ensures UnionCosts(spA, spB, size, A, B, num).Keys == (spA.Keys - {A, B}) + (spB.Keys - spA.Keys - {A, B})
  {
  }

  /** The three cost components determine the costs of a candidate merge. */
  lemma CostsFromParts(c: Costs, spA: map<int, int>, spB: map<int, int>, size: map<int, int>,
                       A: int, B: int, numA: int, numB: int)
    requires c.costA == Total(SideCosts(spA, size, A, numA))
    requires c.costB == Total(SideCosts(spB, size, B, numB))
    requires c.costAB == Total(UnionCosts(spA, spB, size, A, B, numA + numB)) + SelfCost(spA, spB, A, B, numA + numB)
    ensures c == SavingCosts(spA, spB, size, A, B, numA, numB)
  {
  }

  /** The three costs of computeSaving from the grouped counts: both loops,
      then the block of the merged supernode with itself. */
  method ComputeCosts(spA: map<int, int>, spB: map<int, int>, size: map<int, int>,
                      A: int, B: int, numA: int, numB: int) returns (c: Costs)
    ensures c.costA == Total(SideCosts(spA, size, A, numA))
    ensures c.costB == Total(SideCosts(spB, size, B, numB))
    ensures c.costAB == Total(UnionCosts(spA, spB, size, A, B, numA + numB)) + SelfCost(spA, spB, A, B, numA + numB)
  {
    var cost_A, cost_AB1 := CostLoopA(spA, spB, size, A, B, numA, numB);
    var cost_B, cost_AB2 := CostLoopB(spA, spB, size, A, B, numA, numB);
    UnionKeys(spA, spB, size, A, B, numA + numB);
    SumOverUnion(UnionCosts(spA, spB, size, A, B, numA + numB), spA.Keys - {A, B}, spB.Keys - spA.Keys - {A, B});
    var cost_AUnionB := cost_AB1 + cost_AB2;
    var E := 0;
    if A in spA {
      E := E + spA[A];
    }
    if B in spA {
      E := E + spA[B];
    }
    if B in spB {
      E := E + spB[B];
    }
    assert E == SelfEdges(spA, spB, A, B);
    if E > 0 {
      cost_AUnionB := cost_AUnionB + BlockCost(E, SelfCompare(numA + numB));
    }
    c := Costs(cost_A, cost_B, cost_AUnionB);
  }
}
