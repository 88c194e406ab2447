/** The summary object: the supernode partition kept as three integer arrays
    (owner S, list head I, next-member J), the weight-vector builders, the
    grouping step of the savings estimate, the two encoders and the lossy
    drop pass, all over one read-only graph. */
module GraphSummary {
  import opened Sums
  import opened Graphs
  import opened Weights
  import opened Saving
  import opened Encoding
  import Pairwise
  import Runs
  import Drop

  /** The representatives below k in increasing order. */
  ghost function RepsBelow(M: map<int, seq<int>>, k: nat): seq<int>
  {
    if k == 0 then [] else RepsBelow(M, k - 1) + (if k - 1 in M then [k - 1] else [])
  }

  /** The number of members of the supernodes whose representative is below k. */
  ghost function SumSizes(M: map<int, seq<int>>, k: nat): int
  {
    if k == 0 then 0 else SumSizes(M, k - 1) + (if k - 1 in M then |M[k - 1]| else 0)
  }

  /** The member after position i of a list, or -1 after the last one. */
  function NextOf(s: seq<int>, i: int): int
  {
    if 0 <= i && i + 1 < |s| then s[i + 1] else -1
  }

  /** The merge of the supernodes lo and hi: lo's members followed by hi's
      members, kept under lo; hi is no longer a supernode. */
  ghost function Merged(M: map<int, seq<int>>, lo: int, hi: int): map<int, seq<int>>
    requires lo in M && hi in M
  {
    M[lo := M[lo] + M[hi]] - {hi}
  }

  /** n singleton supernodes hold n vertices in all. */
  lemma {:induction false} SumSizesSingletons(M: map<int, seq<int>>, k: nat)
    requires forall r :: 0 <= r < k ==> r in M && |M[r]| == 1
    ensures SumSizes(M, k) == k
  {
    if k > 0 {
      SumSizesSingletons(M, k - 1);
    }
  }

  /** A merge moves hi's members to lo: counted up to k, the sizes gain
      |M[hi]| once lo is below k and lose it again once hi is. */
  lemma {:induction false} SumSizesMerge(M: map<int, seq<int>>, lo: int, hi: int, k: nat)
    requires 0 <= lo < hi && lo in M && hi in M
    ensures SumSizes(Merged(M, lo, hi), k)
         == SumSizes(M, k) + (if lo < k then |M[hi]| else 0) - (if hi < k then |M[hi]| else 0)
  {
    if k > 0 {
      SumSizesMerge(M, lo, hi, k - 1);
    }
  }

  /** Supernode heads: r is a supernode exactly when I[r] != -1, and then
      r is the first member of its own non-empty list. */
  ghost predicate HeadsOK(n: int, I: seq<int>, M: map<int, seq<int>>)
  {
    && |I| == n
    && (forall r :: r in M <==> 0 <= r < n && I[r] != -1)
    && (forall r :: r in M ==> I[r] == r && M[r] != [] && M[r][0] == r)
  }

  /** Each member list is linked through J, and S and Idx name the list and
      the position of every member. */
  ghost predicate ListsOK(n: int, S: seq<int>, J: seq<int>, Idx: seq<int>, M: map<int, seq<int>>)
  {
    && |S| == n && |J| == n && |Idx| == n
    && (forall r, i :: r in M && 0 <= i < |M[r]| ==>
          && 0 <= M[r][i] < n
          && S[M[r][i]] == r
          && Idx[M[r][i]] == i)
    && (forall r, i {:trigger J[M[r][i]]} :: r in M && 0 <= i < |M[r]| ==> J[M[r][i]] == NextOf(M[r], i))
  }

  /** Every vertex occurs in the list S names, at the position Idx names. */
  ghost predicate CoversOK(n: int, S: seq<int>, Idx: seq<int>, M: map<int, seq<int>>)
  {
    && |S| == n && |Idx| == n
    && (forall v :: 0 <= v < n ==> S[v] in M && 0 <= Idx[v] < |M[S[v]]| && M[S[v]][Idx[v]] == v)
  }

  /** Merging keeps the heads: hi's entry of I is cleared, lo still heads
      the merged list. */
  lemma MergeHeads(n: int, I0: seq<int>, I1: seq<int>, M0: map<int, seq<int>>, a: int, b: int)
    requires HeadsOK(n, I0, M0)
    requires 0 <= a < b < n && a in M0 && b in M0
    requires I1 == I0[b := -1]
    ensures HeadsOK(n, I1, Merged(M0, a, b))
  {
  }

  /** Merging keeps the links: the old last member of lo now points at hi's
      head, and hi's members move behind lo's. */
  lemma MergeLists(n: int, S0: seq<int>, S1: seq<int>, J0: seq<int>, J1: seq<int>,
                   Idx0: seq<int>, Idx1: seq<int>, M0: map<int, seq<int>>, a: int, b: int)
    requires ListsOK(n, S0, J0, Idx0, M0)
    requires 0 <= a < b < n && a in M0 && b in M0 && M0[a] != [] && M0[b] != [] && M0[b][0] == b
    requires |S1| == n && |J1| == n && |Idx1| == n
    requires var last := M0[a][|M0[a]| - 1];
             forall v :: 0 <= v < n ==> J1[v] == if v == last then b else J0[v]
    requires forall v :: 0 <= v < n ==> S1[v] == if S0[v] == a || S0[v] == b then a else S0[v]
    requires forall v :: 0 <= v < n ==> Idx1[v] == if S0[v] == b then Idx0[v] + |M0[a]| else Idx0[v]
    ensures ListsOK(n, S1, J1, Idx1, Merged(M0, a, b))
  {
    var M := Merged(M0, a, b);
    var sA, sB := M0[a], M0[b];
    var last := sA[|sA| - 1];
    assert S0[last] == a && Idx0[last] == |sA| - 1;
    forall r, i | r in M && 0 <= i < |M[r]|
      ensures && 0 <= M[r][i] < n
              && S1[M[r][i]] == r
              && Idx1[M[r][i]] == i
              && J1[M[r][i]] == NextOf(M[r], i)
    {
      var x := M[r][i];
      if r == a {
        if i < |sA| {
          assert x == sA[i] && S0[x] == a && Idx0[x] == i;
          if i < |sA| - 1 {
            assert x != last;
          }
        } else {
          assert x == sB[i - |sA|] && S0[x] == b && Idx0[x] == i - |sA|;
          assert x != last;
        }
      } else {
        assert x == M0[r][i] && S0[x] == r && x != last;
      }
    }
  }

  /** Merging keeps every vertex covered. */
  lemma MergeCovers(n: int, S0: seq<int>, S1: seq<int>, Idx0: seq<int>, Idx1: seq<int>,
                    M0: map<int, seq<int>>, a: int, b: int)
    requires CoversOK(n, S0, Idx0, M0)
    requires 0 <= a < b < n && a in M0 && b in M0
    requires |S1| == n && |Idx1| == n
    requires forall v :: 0 <= v < n ==> S1[v] == if S0[v] == a || S0[v] == b then a else S0[v]
    requires forall v :: 0 <= v < n ==> Idx1[v] == if S0[v] == b then Idx0[v] + |M0[a]| else Idx0[v]
    ensures CoversOK(n, S1, Idx1, Merged(M0, a, b))
  {
    var M := Merged(M0, a, b);
    forall v | 0 <= v < n
      ensures S1[v] in M && 0 <= Idx1[v] < |M[S1[v]]| && M[S1[v]][Idx1[v]] == v
    {
      if S0[v] == b {
        assert M[a][|M0[a]| + Idx0[v]] == M0[b][Idx0[v]];
      } else if S0[v] == a {
        assert M[a][Idx0[v]] == M0[a][Idx0[v]];
      }
    }
  }

  /** A vertex is a member of r's list exactly when S names r. */
  lemma InListIff(n: int, S: seq<int>, Idx: seq<int>, M: map<int, seq<int>>, r: int)
    requires CoversOK(n, S, Idx, M)
    requires forall r', i :: r' in M && 0 <= i < |M[r']| ==> 0 <= M[r'][i] < n && S[M[r'][i]] == r'
    requires r in M
    ensures forall v :: 0 <= v < n ==> (v in M[r] <==> S[v] == r)
  {
    forall v | 0 <= v < n
      ensures v in M[r] <==> S[v] == r
    {
      if v in M[r] {
        var i :| 0 <= i < |M[r]| && M[r][i] == v;
      }
    }
  }

  /** s with every position listed in nodes set to owner. */
  function Relabelled(s: seq<int>, nodes: seq<int>, owner: int): (r: seq<int>)
    ensures |r| == |s|
    ensures forall v :: 0 <= v < |s| ==> r[v] == if v in nodes then owner else s[v]
  {
    seq(|s|, v requires 0 <= v < |s| => if v in nodes then owner else s[v])
  }

  /** n singleton supernodes satisfy the partition invariant. */
  lemma Singletons(n: nat, S: seq<int>, I: seq<int>, J: seq<int>) returns (M: map<int, seq<int>>, Idx: seq<int>)
    requires |S| == n && |I| == n && |J| == n
    requires forall v :: 0 <= v < n ==> S[v] == v && I[v] == v && J[v] == -1
    ensures M == map r | 0 <= r < n :: [r]
    ensures HeadsOK(n, I, M) && ListsOK(n, S, J, Idx, M) && CoversOK(n, S, Idx, M)
    ensures SumSizes(M, n) == n
  {
    M := map r | 0 <= r < n :: [r];
    Idx := seq(n, v => 0);
    SumSizesSingletons(M, n);
  }

  /** The positions after a merge: hi's members move |lo's list| places on. */
  ghost function MergedIdx(S0: seq<int>, Idx0: seq<int>, hi: int, shift: int): seq<int>
    requires |Idx0| == |S0|
  {
    seq(|S0|, v requires 0 <= v < |S0| => if S0[v] == hi then Idx0[v] + shift else Idx0[v])
  }

  /** The whole partition invariant survives a merge of lo and hi: the head
      of hi is cleared, the last member of lo is linked to hi's head, and
      every member of either list is relabelled lo. */
  lemma MergeStep(n: int, M0: map<int, seq<int>>, S0: seq<int>, I0: seq<int>, J0: seq<int>, Idx0: seq<int>,
                  a: int, b: int, S1: seq<int>, I1: seq<int>, J1: seq<int>)
    requires HeadsOK(n, I0, M0) && ListsOK(n, S0, J0, Idx0, M0) && CoversOK(n, S0, Idx0, M0)
    requires SumSizes(M0, n) == n
    requires 0 <= a < b < n && a in M0 && b in M0
    requires I1 == I0[b := -1]
    requires J1 == J0[M0[a][|M0[a]| - 1] := b]
    requires S1 == Relabelled(Relabelled(S0, M0[a], a), M0[b], a)
    ensures S1 == Relabelled(S0, M0[a] + M0[b], a)
    ensures forall v :: 0 <= v < n ==> S1[v] == if S0[v] == a || S0[v] == b then a else S0[v]
    ensures HeadsOK(n, I1, Merged(M0, a, b))
    ensures ListsOK(n, S1, J1, MergedIdx(S0, Idx0, b, |M0[a]|), Merged(M0, a, b))
    ensures CoversOK(n, S1, MergedIdx(S0, Idx0, b, |M0[a]|), Merged(M0, a, b))
    ensures SumSizes(Merged(M0, a, b), n) == n
  {
    InListIff(n, S0, Idx0, M0, a);
    InListIff(n, S0, Idx0, M0, b);
    var Idx1 := MergedIdx(S0, Idx0, b, |M0[a]|);
    MergeHeads(n, I0, I1, M0, a, b);
    MergeLists(n, S0, S1, J0, J1, Idx0, Idx1, M0, a, b);
    MergeCovers(n, S0, S1, Idx0, Idx1, M0, a, b);
    SumSizesMerge(M0, a, b, n);
  }

  /** One iteration of either grouping loop keeps all three loop facts:
      the counts are the grouping of the keys seen so far, the size map has
      an entry for each owner met, and each entry is that owner's size. */
  lemma GroupLoopStep(w: map<int, int>, owner: seq<int>, M: map<int, seq<int>>, base: set<int>,
                      done: set<int>, key: int, size: map<int, int>, sp: map<int, int>,
                      size': map<int, int>, sp': map<int, int>)
    requires forall k :: k in w ==> 0 <= k < |owner|
    requires done <= w.Keys && key in w && key !in done
    requires sp == GroupOver(w, owner, done)
    requires size.Keys == base + sp.Keys
    requires forall c :: c in size ==> c in M && size[c] == |M[c]|
    requires owner[key] in M
    requires sp' == (if owner[key] in sp then sp[owner[key] := sp[owner[key]] + w[key]] else sp[owner[key] := w[key]])
    requires size' == (if owner[key] in size then size else size[owner[key] := |M[owner[key]]|])
    ensures sp' == GroupOver(w, owner, done + {key})
    ensures size'.Keys == base + sp'.Keys
    ensures forall c :: c in size' ==> c in M && size'[c] == |M[c]|
  {
    GroupBump(w, owner, done, key, sp, sp');
  }

  // ---------------------------------------------------------------------
  // Dense renumbering of the supernodes (shared by both encoders)

  /** The representatives below k, in order, are k's supernodes: each is
      a supernode below k, they increase strictly, and there are at most
      k of them. */
  lemma {:induction false} RepsFacts(M: map<int, seq<int>>, k: nat)
    ensures |RepsBelow(M, k)| <= k
    ensures forall c :: 0 <= c < |RepsBelow(M, k)| ==> RepsBelow(M, k)[c] in M && 0 <= RepsBelow(M, k)[c] < k
    ensures forall a, b :: 0 <= a < b < |RepsBelow(M, k)| ==> RepsBelow(M, k)[a] < RepsBelow(M, k)[b]
  {
    if k > 0 {
      RepsFacts(M, k - 1);
    }
  }

  /** The representatives below r start the representatives below k. */
  lemma {:induction false} RepsPrefix(M: map<int, seq<int>>, r: nat, k: nat)
    requires r <= k
    ensures |RepsBelow(M, r)| <= |RepsBelow(M, k)|
    ensures RepsBelow(M, k)[..|RepsBelow(M, r)|] == RepsBelow(M, r)
    decreases k - r
  {
    if r < k {
      RepsPrefix(M, r, k - 1);
      assert RepsBelow(M, k)[..|RepsBelow(M, k - 1)|] == RepsBelow(M, k - 1);
    }
  }

  /** A supernode r below k sits in the representatives below k at
      position |RepsBelow(M, r)|, its dense id. */
  lemma Rank(M: map<int, seq<int>>, r: nat, k: nat)
    requires r in M && r < k
    ensures |RepsBelow(M, r)| < |RepsBelow(M, k)|
    ensures RepsBelow(M, k)[|RepsBelow(M, r)|] == r
  {
    RepsPrefix(M, r + 1, k);
    assert RepsBelow(M, r + 1) == RepsBelow(M, r) + [r];
  }

  /** The dense id of the c-th representative is c. */
  lemma RankOf(M: map<int, seq<int>>, k: nat, c: int)
    requires 0 <= c < |RepsBelow(M, k)|
    ensures RepsBelow(M, k)[c] >= 0 && |RepsBelow(M, RepsBelow(M, k)[c])| == c
  {
    RepsFacts(M, k);
    var r := RepsBelow(M, k)[c];
    Rank(M, r, k);
  }

  /** The supernodes below k, as a set. */
  ghost function KeysBelow(M: map<int, seq<int>>, k: nat): set<int>
  {
    set r | r in M && 0 <= r < k
  }

  /** There are as many representatives below k as supernodes below k. */
  lemma {:induction false} RepsCount(M: map<int, seq<int>>, k: nat)
    ensures |RepsBelow(M, k)| == |KeysBelow(M, k)|
  {
    if k > 0 {
      RepsCount(M, k - 1);
      if k - 1 in M {
        assert KeysBelow(M, k) == KeysBelow(M, k - 1) + {k - 1};
      } else {
        assert KeysBelow(M, k) == KeysBelow(M, k - 1);
      }
    }
  }

  /** The renumbering loop has visited the ids below i: the supernodes
      among them got the dense ids 0 .. count-1 in increasing order, sn
      lists their members and sizes their sizes (0 beyond count), and
      every vertex owned by one of them carries its dense id in scopy,
      while every other vertex still carries its owner. */
  ghost predicate RenumberedUpTo(M: map<int, seq<int>>, owner: seq<int>, i: nat, count: int,
                                 scopy: seq<int>, sizes: seq<int>, sn: seq<seq<int>>)
  {
    var R := RepsBelow(M, i);
    && count == |R| && |sn| == count && count <= |sizes|
    && (forall c :: 0 <= c < count ==> R[c] in M && sn[c] == M[R[c]] && sizes[c] == |sn[c]|)
    && (forall c :: count <= c < |sizes| ==> sizes[c] == 0)
    && |scopy| == |owner|
    && (forall v :: 0 <= v < |owner| ==> scopy[v] == if 0 <= owner[v] < i then |RepsBelow(M, owner[v])| else owner[v])
  }

  /** Before the renumbering loop nothing is visited: no dense ids, all
      sizes 0, and the copy of S unchanged. */
  lemma RenumberStart(M: map<int, seq<int>>, owner: seq<int>, sizes: seq<int>)
    requires forall c :: 0 <= c < |sizes| ==> sizes[c] == 0
    ensures RenumberedUpTo(M, owner, 0, 0, owner, sizes, [])
  {
    assert RepsBelow(M, 0) == [];
  }

  /** One pass of the renumbering loop keeps RenumberedUpTo: a supernode i
      gets the next dense id, its members are relabelled with it, its size
      and member list are recorded; any other id changes nothing. */
  lemma RenumberStepLemma(M: map<int, seq<int>>, owner: seq<int>, i: nat, count: int,
                          scopy: seq<int>, sizes: seq<int>, sn: seq<seq<int>>,
                          count': int, scopy': seq<int>, sizes': seq<int>, sn': seq<seq<int>>)
    requires RenumberedUpTo(M, owner, i, count, scopy, sizes, sn) && i < |sizes|
    requires forall v :: 0 <= v < |owner| ==> owner[v] in M
    requires i in M ==> forall v :: 0 <= v < |owner| ==> (v in M[i] <==> owner[v] == i)
    requires i in M ==> && count' == count + 1 && scopy' == Relabelled(scopy, M[i], count)
                        && count < |sizes| && sizes' == sizes[count := |M[i]|] && sn' == sn + [M[i]]
    requires i !in M ==> count' == count && scopy' == scopy && sizes' == sizes && sn' == sn
    ensures RenumberedUpTo(M, owner, i + 1, count', scopy', sizes', sn')
  {
    RepsFacts(M, i);
    assert RepsBelow(M, i + 1) == RepsBelow(M, i) + (if i in M then [i] else []);
  }

  /** The renumbering loop over the members of one supernode: the member
      list is copied and every member gets the dense id c. */
  method RenumberMembers(S_copy: array<int>, nodes_inside: array<int>, c: int) returns (nodes_inside_list: seq<int>)
    requires S_copy != nodes_inside
    requires forall j :: 0 <= j < nodes_inside.Length ==> 0 <= nodes_inside[j] < S_copy.Length
    modifies S_copy
    ensures nodes_inside_list == nodes_inside[..]
    ensures S_copy[..] == Relabelled(old(S_copy[..]), nodes_inside[..], c)
  {
    nodes_inside_list := [];
    var j := 0;
    while j < nodes_inside.Length
      invariant 0 <= j <= nodes_inside.Length
      invariant nodes_inside_list == nodes_inside[..j]
      invariant S_copy[..] == Relabelled(old(S_copy[..]), nodes_inside[..j], c)
    {
      assert nodes_inside[..j + 1] == nodes_inside[..j] + [nodes_inside[j]];
      nodes_inside_list := nodes_inside_list + [nodes_inside[j]];
      S_copy[nodes_inside[j]] := c;
      j := j + 1;
    }
    assert nodes_inside[..j] == nodes_inside[..];
  }

  /** After the renumbering loop, the graph, the new ids, the member lists
      and the sizes form a well-formed encoder context: every vertex's new
      id is the rank of its supernode, there is one dense id per
      supernode, and dense id c lists exactly the members of the c-th
      supernode. */
  lemma DenseCtxOK(g: Graph, n: nat, S: seq<int>, I: seq<int>, J: seq<int>, Idx: seq<int>, M: map<int, seq<int>>,
                   count: int, scopy: seq<int>, sizes: seq<int>, sn: seq<seq<int>>)
    requires n == |g| && WellFormed(g)
    requires HeadsOK(n, I, M) && ListsOK(n, S, J, Idx, M) && CoversOK(n, S, Idx, M)
    requires RenumberedUpTo(M, S, n, count, scopy, sizes, sn)
    ensures Ctx(g, scopy, sn, sizes).OK()
    ensures count == |M|
    ensures forall v :: 0 <= v < n ==> scopy[v] == |RepsBelow(M, S[v])|
  {
    var R := RepsBelow(M, n);
    RepsFacts(M, n);
    forall v | 0 <= v < n
      ensures 0 <= S[v] < n && 0 <= scopy[v] < count && R[scopy[v]] == S[v]
    {
      Rank(M, S[v], n);
    }
    forall c, i | 0 <= c < count && 0 <= i < |sn[c]|
      ensures 0 <= sn[c][i] < n && scopy[sn[c][i]] == c
    {
      RankOf(M, n, c);
    }
    forall c, i, j | 0 <= c < count && 0 <= i < j < |sn[c]|
      ensures sn[c][i] != sn[c][j]
    {
      assert Idx[M[R[c]][i]] == i && Idx[M[R[c]][j]] == j;
    }
    forall v | 0 <= v < n
      ensures v in sn[scopy[v]]
    {
      assert M[S[v]][Idx[v]] == v;
    }
    RepsCount(M, n);
    assert KeysBelow(M, n) == M.Keys;
  }

  class Summary {
    /** The graph; Gr[v] is the successor array of vertex v. */
    const Gr: Graph
    /** The number of vertices. */
    const n: nat
    /** S[v]: the supernode that owns vertex v. */
    const S: array<int>
    /** I[r]: the first member of supernode r, or -1 if r is not a supernode. */
    const I: array<int>
    /** J[v]: the member after v in its supernode's list, or -1. */
    const J: array<int>

    /** Each supernode's members in list order, keyed by representative. */
    ghost var Members: map<int, seq<int>>
    /** Idx[v]: the position of v in its supernode's member list. */
    ghost var Idx: seq<int>

    /** supernode_sizes[c]: the size of the supernode with dense id c. */
    var supernode_sizes: array<int>
    /** sn_to_n: the member list of every dense id c, 0 <= c < |sn_to_n|. */
    var sn_to_n: seq<seq<int>>
    /** The superedges, as pairs of dense ids. */
    var P: seq<Edge>
    /** C+, the edges added back (Cp_0 and Cp_1 as one list of pairs). */
    var Cp: seq<Edge>
    /** C-, the edges taken out (Cm_0 and Cm_1 as one list of pairs). */
    var Cm: seq<Edge>
    /** The dense ids of the vertices at the last encoding: the encoders'
        local S_copy. */
    ghost var DenseIds: seq<int>

    /** The partition invariant. The lists are exactly the member sequences,
        each vertex sits at exactly one position of exactly one list (so the
        lists are acyclic, pairwise disjoint and cover 0 .. n-1), a
        representative heads its own list, and S names each vertex's list. */
    ghost predicate Valid()
      reads this`Members, this`Idx, S, I, J
    {
      && n == |Gr| && WellFormed(Gr)
      && S.Length == n && I.Length == n && J.Length == n
      && S != I && S != J && I != J
      && HeadsOK(n, I[..], Members)
      && ListsOK(n, S[..], J[..], Idx, Members)
      && CoversOK(n, S[..], Idx, Members)
      && SumSizes(Members, n) == n
    }

    /** The partition invariant from its parts. */
    lemma ValidFromParts()
      requires n == |Gr| && WellFormed(Gr)
      requires S.Length == n && I.Length == n && J.Length == n
      requires S != I && S != J && I != J
      requires HeadsOK(n, I[..], Members)
      requires ListsOK(n, S[..], J[..], Idx, Members)
      requires CoversOK(n, S[..], Idx, Members)
      requires SumSizes(Members, n) == n
      ensures Valid()
    {
    }

    /** The members of r, or nothing when r is not a supernode. */
    ghost function MembersOf(r: int): seq<int>
      reads this`Members
    {
      if r in Members then Members[r] else []
    }

    /** Every vertex starts as its own supernode. */
    constructor (g: Graph)
      requires WellFormed(g)
      ensures Valid() && Gr == g
      ensures Members == map r | 0 <= r < |g| :: [r]
    {
      Gr := g;
      n := |g|;
      S := new int[|g|];
      I := new int[|g|];
      J := new int[|g|];
      supernode_sizes := new int[0];
      new;
      var i := 0;
      while i < n
        invariant 0 <= i <= n
        invariant forall j :: 0 <= j < i ==> S[j] == j && I[j] == j && J[j] == -1
      {
        S[i] := i;
        I[i] := i;
        J[i] := -1;
        i := i + 1;
      }
      ghost var Idx1;
      Members, Idx1 := Singletons(n, S[..], I[..], J[..]);
      Idx := Idx1;
      ValidFromParts();
    }

    /** superNodeLength: walks r's list and counts its members. */
    method SuperNodeLength(super_node_id: int) returns (counter: int)
      requires Valid() && 0 <= super_node_id < n
      ensures counter == |MembersOf(super_node_id)|
      ensures counter > 0 <==> I[super_node_id] != -1
    {
      ghost var s := MembersOf(super_node_id);
      assert I[..][super_node_id] == I[super_node_id];
      assert super_node_id in Members <==> I[super_node_id] != -1;
      counter := 0;
      var node := I[super_node_id];
      while node != -1
        invariant 0 <= counter <= |s|
        invariant node == (if counter < |s| then s[counter] else -1)
        decreases |s| - counter
      {
        assert J[..][s[counter]] == NextOf(s, counter);
        counter := counter + 1;
        node := J[node];
      }
    }

    /** recoverSuperNode: walks r's list into a fresh array of its members,
        in list order. */
    method RecoverSuperNode(super_node_id: int) returns (nodes: array<int>)
      requires Valid() && 0 <= super_node_id < n
      ensures fresh(nodes)
      ensures nodes[..] == MembersOf(super_node_id)
    {
      ghost var s := MembersOf(super_node_id);
      var length := SuperNodeLength(super_node_id);
      nodes := new int[length];
      var counter := 0;
      var node := I[super_node_id];
      while node != -1
        invariant 0 <= counter <= |s|
        invariant node == (if counter < |s| then s[counter] else -1)
        invariant nodes[..counter] == s[..counter]
        decreases |s| - counter
      {
        nodes[counter] := node;
        counter := counter + 1;
        node := J[node];
      }
      assert nodes[..] == nodes[..counter];
    }

    /** One relabelling loop of updateSuperNode: every vertex listed in nodes
        gets the owner owner, every other owner entry stays. */
    method Relabel(nodes: array<int>, owner: int)
      requires nodes != S
      requires forall i :: 0 <= i < nodes.Length ==> 0 <= nodes[i] < S.Length
      modifies S
      ensures S[..] == Relabelled(old(S[..]), nodes[..], owner)
    {
      var i := 0;
      while i < nodes.Length
        invariant 0 <= i <= nodes.Length
        invariant S[..] == Relabelled(old(S[..]), nodes[..i], owner)
      {
        assert nodes[..i + 1] == nodes[..i] + [nodes[i]];
        S[nodes[i]] := owner;
        i := i + 1;
      }
      assert nodes[..] == nodes[..i];
    }

    /** The array writes of updateSuperNode: link the last member of a to
        the head of b, clear b's head, relabel both member lists with a. */
    method Splice(A_nodes: array<int>, B_nodes: array<int>, a: int, b: int)
      requires S.Length == n && I.Length == n && J.Length == n
      requires S != I && S != J && I != J
      requires A_nodes != S && A_nodes != I && A_nodes != J
      requires B_nodes != S && B_nodes != I && B_nodes != J
      requires A_nodes.Length > 0 && 0 <= A_nodes[A_nodes.Length - 1] < n
      requires forall i :: 0 <= i < A_nodes.Length ==> 0 <= A_nodes[i] < n
      requires forall i :: 0 <= i < B_nodes.Length ==> 0 <= B_nodes[i] < n
      requires 0 <= a < n && 0 <= b < n && a != b
      modifies S, I, J
      ensures J[..] == old(J[..])[A_nodes[A_nodes.Length - 1] := old(I[b])]
      ensures I[..] == old(I[..])[b := -1]
      ensures S[..] == Relabelled(Relabelled(old(S[..]), A_nodes[..], old(I[a])), B_nodes[..], old(I[a]))
    {
      J[A_nodes[A_nodes.Length - 1]] := I[b];
      I[b] := -1;
      Relabel(A_nodes, I[a]);
      Relabel(B_nodes, I[a]);
    }

    /** updateSuperNode: merges the supernodes a and b. The higher id's list
        is spliced after the last member of the lower id's list, the higher
        id stops being a supernode and every member of either is relabelled
        with the lower id. a == b is excluded: the splice would close the
        list into a cycle. */
    method UpdateSuperNode(super_node_a: int, super_node_b: int)
      requires Valid()
      requires 0 <= super_node_a < n && 0 <= super_node_b < n && super_node_a != super_node_b
      requires I[super_node_a] != -1 && I[super_node_b] != -1
      modifies this`Members, this`Idx, S, I, J
      ensures Valid()
      ensures var lo := if super_node_a <= super_node_b then super_node_a else super_node_b;
              var hi := if super_node_a <= super_node_b then super_node_b else super_node_a;
              && Members == Merged(old(Members), lo, hi)
              && I[..] == old(I[..])[hi := -1]
              && S[..] == Relabelled(old(S[..]), old(Members[lo]) + old(Members[hi]), lo)
    {
      var a := if super_node_a <= super_node_b then super_node_a else super_node_b;
      var b := if super_node_a <= super_node_b then super_node_b else super_node_a;
      MergeOrdered(a, b);
    }

    /** The merge once the two ids are ordered, a < b. */
    method MergeOrdered(a: int, b: int)
      requires Valid()
      requires 0 <= a < b < n && I[a] != -1 && I[b] != -1
      modifies this`Members, this`Idx, S, I, J
      ensures Valid()
      ensures Members == Merged(old(Members), a, b)
      ensures I[..] == old(I[..])[b := -1]
      ensures S[..] == Relabelled(old(S[..]), old(Members[a]) + old(Members[b]), a)
    {
      var A_nodes := RecoverSuperNode(a);
      var B_nodes := RecoverSuperNode(b);
      SpliceLists(A_nodes, B_nodes, a, b);
    }

    /** The splice itself, given the two member arrays. */
    method SpliceLists(A_nodes: array<int>, B_nodes: array<int>, a: int, b: int)
      requires Valid()
      requires 0 <= a < b < n && a in Members && b in Members
      requires A_nodes[..] == Members[a] && B_nodes[..] == Members[b]
      requires A_nodes != S && A_nodes != I && A_nodes != J
      requires B_nodes != S && B_nodes != I && B_nodes != J
      modifies this`Members, this`Idx, S, I, J
      ensures Valid()
      ensures Members == Merged(old(Members), a, b)
      ensures I[..] == old(I[..])[b := -1]
      ensures S[..] == Relabelled(old(S[..]), old(Members[a]) + old(Members[b]), a)
    {
      ghost var M0, S0, I0, J0, Idx0 := Members, S[..], I[..], J[..], Idx;
      Splice(A_nodes, B_nodes, a, b);
      Members, Idx := Merged(M0, a, b), MergedIdx(S0, Idx0, b, |M0[a]|);
      MergeStep(n, M0, S0, I0, J0, Idx0, a, b, S[..], I[..], J[..]);
      ValidFromParts();
    }
 
    /** Every vertex is owned by a supernode that lists it. */
    lemma OwnerValid(v: int)
      requires Valid() && 0 <= v < n
      ensures S[v] in Members && 0 <= S[v] < n && v in Members[S[v]]
    {
      assert S[..][v] == S[v];
    }

    /** A member list names vertices of the graph, each owned by the list's
        supernode. */
    lemma MembersInRange(r: int)
      requires Valid()
      ensures AllVertices(Gr, MembersOf(r))
      ensures forall i :: 0 <= i < |MembersOf(r)| ==> S[MembersOf(r)[i]] == r
    {
      if r in Members {
        forall i | 0 <= i < |Members[r]|
          ensures 0 <= Members[r][i] < n && S[Members[r][i]] == r
        {
          assert S[..][Members[r][i]] == S[Members[r][i]];
        }
      }
    }

    /** createW for one supernode: counts every successor of every member. */
    method CreateW(super_node_id: int) returns (w_Single: map<int, int>)
      requires Valid() && 0 <= super_node_id < n
      ensures AllVertices(Gr, MembersOf(super_node_id))
      ensures w_Single == Weight(Gr, MembersOf(super_node_id))
    {
      MembersInRange(super_node_id);
      var Nodes := RecoverSuperNode(super_node_id);
      w_Single := CountSuccessors(Gr, Nodes);
    }

    /** createW over a group: entry i is the weight vector of Q[i]. */
    method CreateWBatch(Q: array<int>, group_size: int) returns (w_All: map<int, map<int, int>>)
      requires Valid()
      requires 0 <= group_size <= Q.Length
      requires forall i :: 0 <= i < group_size ==> 0 <= Q[i] < n
      ensures forall i :: i in w_All <==> 0 <= i < group_size
      ensures forall i :: 0 <= i < group_size ==>
                AllVertices(Gr, MembersOf(Q[i])) && w_All[i] == Weight(Gr, MembersOf(Q[i]))
    {
      w_All := map[];
      var i := 0;
      while i < group_size
        invariant 0 <= i <= group_size
        invariant forall j :: j in w_All <==> 0 <= j < i
        invariant forall j :: 0 <= j < i ==>
                    AllVertices(Gr, MembersOf(Q[j])) && w_All[j] == Weight(Gr, MembersOf(Q[j]))
      {
        var w_Single := CreateW(Q[i]);
        w_All := w_All[i := w_Single];
        i := i + 1;
      }
    }

    /** The sizes of the supernodes in cs. */
    ghost function SizesOf(cs: set<int>): map<int, int>
      reads this`Members
    {
      map c | c in cs :: |MembersOf(c)|
    }

    /** The three costs computeSaving charges for merging A and B, whose
        weight vectors are w_A and w_B. */
    ghost function SavingSpec(w_A: map<int, int>, w_B: map<int, int>, A: int, B: int): Costs
      reads this`Members, S
      requires forall k :: k in w_A ==> 0 <= k < S.Length
      requires forall k :: k in w_B ==> 0 <= k < S.Length
    {
      var spA := Group(w_A, S[..]);
      var spB := Group(w_B, S[..]);
      SavingCosts(spA, spB, SizesOf(spA.Keys + spB.Keys), A, B, |MembersOf(A)|, |MembersOf(B)|)
    }

    /** The grouping loops of computeSaving: the edge counts of A and of B
        towards every supernode, and the size of every supernode met. */
    method GroupByOwner(w_A: map<int, int>, w_B: map<int, int>)
      returns (candidate_size: map<int, int>, candidate_spA: map<int, int>, candidate_spB: map<int, int>)
      requires Valid()
      requires forall k :: k in w_A ==> 0 <= k < n
      requires forall k :: k in w_B ==> 0 <= k < n
      ensures candidate_spA == Group(w_A, S[..]) && candidate_spB == Group(w_B, S[..])
      ensures candidate_size.Keys == candidate_spA.Keys + candidate_spB.Keys
      ensures forall c :: c in candidate_size ==> candidate_size[c] == |MembersOf(c)|
    {
      candidate_size, candidate_spA := GroupFirst(w_A);
      candidate_size, candidate_spB := GroupSecond(w_B, candidate_size, candidate_spA);
    }

    /** The loop over w_A: sizes are looked up for new owners only. */
    method GroupFirst(w_A: map<int, int>) returns (candidate_size: map<int, int>, candidate_spA: map<int, int>)
      requires Valid()
      requires forall k :: k in w_A ==> 0 <= k < n
      ensures candidate_spA == Group(w_A, S[..])
      ensures candidate_size.Keys == {} + candidate_spA.Keys
      ensures forall c :: c in candidate_size ==> c in Members && candidate_size[c] == |Members[c]|
    {
      candidate_size, candidate_spA := map[], map[];
      var todo := w_A.Keys;
      ghost var done: set<int> := {};
      while todo != {}
        invariant Valid()
        invariant todo !! done && todo + done == w_A.Keys
        invariant candidate_spA == GroupOver(w_A, S[..], done)
        invariant candidate_size.Keys == {} + candidate_spA.Keys
        invariant forall c :: c in candidate_size ==> c in Members && candidate_size[c] == |Members[c]|
        decreases todo
      {
        HasElement(todo);
        var key :| key in todo;
        candidate_size, candidate_spA := GroupKey(w_A, key, candidate_size, candidate_spA, {}, done, false);
        done := done + {key};
        todo := todo - {key};
      }
    }

    /** The loop over w_B, continuing the size map of the first loop. */
    method GroupSecond(w_B: map<int, int>, size0: map<int, int>, spA: map<int, int>)
      returns (candidate_size: map<int, int>, candidate_spB: map<int, int>)
      requires Valid()
      requires forall k :: k in w_B ==> 0 <= k < n
      requires size0.Keys == spA.Keys
      requires forall c :: c in size0 ==> c in Members && size0[c] == |Members[c]|
      ensures candidate_spB == Group(w_B, S[..])
      ensures candidate_size.Keys == spA.Keys + candidate_spB.Keys
      ensures forall c :: c in candidate_size ==> c in Members && candidate_size[c] == |Members[c]|
    {
      candidate_size, candidate_spB := size0, map[];
      var todo := w_B.Keys;
      ghost var done: set<int> := {};
      while todo != {}
        invariant Valid()
        invariant todo !! done && todo + done == w_B.Keys
        invariant candidate_spB == GroupOver(w_B, S[..], done)
        invariant candidate_size.Keys == spA.Keys + candidate_spB.Keys
        invariant forall c :: c in candidate_size ==> c in Members && candidate_size[c] == |Members[c]|
        decreases todo
      {
        HasElement(todo);
        var key :| key in todo;
        candidate_size, candidate_spB := GroupKey(w_B, key, candidate_size, candidate_spB, spA.Keys, done, true);
        done := done + {key};
        todo := todo - {key};
      }
    }

    /** One iteration of either grouping loop: the owner of key gets its
        size looked up when first met, and key's weight is added to the
        owner's count, which starts afresh when the owner is new to sp. The
        second loop tests the size map first and sp second; the first loop
        keeps both maps on the same keys, so one test decides both. It keeps
        the loop invariant: sp is the grouping of the keys seen so far, and
        the size map holds the true size of every owner it names. */
    method GroupKey(w: map<int, int>, key: int, size: map<int, int>, sp: map<int, int>,
                    ghost base: set<int>, ghost done: set<int>, second: bool)
      returns (size': map<int, int>, sp': map<int, int>)
      requires Valid()
      requires forall k :: k in w ==> 0 <= k < n
      requires done <= w.Keys && key in w && key !in done
      requires sp == GroupOver(w, S[..], done)
      requires size.Keys == base + sp.Keys
      requires !second ==> base == {}
      requires forall c :: c in size ==> c in Members && size[c] == |Members[c]|
      ensures sp' == GroupOver(w, S[..], done + {key})
      ensures size'.Keys == base + sp'.Keys
      ensures forall c :: c in size' ==> c in Members && size'[c] == |Members[c]|
    {
      OwnerValid(key);
      assert S[..][key] == S[key];
      size', sp' := size, sp;
      if S[key] !in size {
        var nodes := RecoverSuperNode(S[key]);
        size' := size[S[key] := nodes.Length];
        sp' := sp[S[key] := w[key]];
      } else if !second || S[key] in sp {
        sp' := sp[S[key] := sp[S[key]] + w[key]];
      } else {
        sp' := sp[S[key] := w[key]];
      }
      GroupLoopStep(w, S[..], Members, base, done, key, size, sp, size', sp');
    }

    /** computeSaving: the savings score of merging supernodes A and B. */
    method ComputeSaving(w_A: map<int, int>, w_B: map<int, int>, supernode_A: int, supernode_B: int)
      returns (saving: Option<real>)
      requires Valid() && 0 <= supernode_A < n && 0 <= supernode_B < n
      requires forall k :: k in w_A ==> 0 <= k < n
      requires forall k :: k in w_B ==> 0 <= k < n
      ensures saving == SavingRatio(SavingSpec(w_A, w_B, supernode_A, supernode_B))
    {
      var nodes_A := RecoverSuperNode(supernode_A);
      var nodes_B := RecoverSuperNode(supernode_B);
      var num_A, num_B := nodes_A.Length, nodes_B.Length;
      var candidate_size, candidate_spA, candidate_spB := GroupByOwner(w_A, w_B);
      assert candidate_size == SizesOf(candidate_spA.Keys + candidate_spB.Keys);
      var c := ComputeCosts(candidate_spA, candidate_spB, candidate_size, supernode_A, supernode_B, num_A, num_B);
      CostsFromParts(c, candidate_spA, candidate_spB, candidate_size, supernode_A, supernode_B, num_A, num_B);
      saving := SavingRatio(c);
    }

    /** Charging the cheaper encoding per block: the cost of A is at most
        the number of edges leaving A, likewise for B, and the merged cost
        is at most both together. */
    lemma SavingBounds(w_A: map<int, int>, w_B: map<int, int>, A: int, B: int)
      requires Valid() && A != B
      requires forall k :: k in w_A ==> 0 <= k < n
      requires forall k :: k in w_B ==> 0 <= k < n
      requires NonNeg(w_A) && NonNeg(w_B)
      ensures SavingSpec(w_A, w_B, A, B).costA <= Total(w_A)
      ensures SavingSpec(w_A, w_B, A, B).costB <= Total(w_B)
      ensures SavingSpec(w_A, w_B, A, B).costAB <= Total(w_A) + Total(w_B)
    {
      var spA := Group(w_A, S[..]);
      var spB := Group(w_B, S[..]);
      SavingCostsAtMost(w_A, w_B, S[..], SizesOf(spA.Keys + spB.Keys), A, B, |MembersOf(A)|, |MembersOf(B)|);
    }

    // -------------------------------------------------------------------
    // Encoding

    /** sp_num in evaluatePhase: the number of ids r with I[r] != -1, which
        is the number of supernodes. */
    method SupernodeCount() returns (sp_num: int)
      requires Valid()
      ensures sp_num == |Members|
    {
      sp_num := 0;
      var i := 0;
      while i < n
        invariant 0 <= i <= n
        invariant sp_num == |RepsBelow(Members, i)|
      {
        assert I[..][i] == I[i];
        if I[i] != -1 {
          sp_num := sp_num + 1;
        }
        i := i + 1;
      }
      RepsCount(Members, n);
      assert KeysBelow(Members, n) == Members.Keys;
    }

    /** The renumbering loop shared by both encoders: the supernodes get the
        dense ids 0 .. supernode_count-1 in increasing id order, their sizes
        and member lists are recorded, and S_copy, a copy of S, gives every
        vertex the dense id of its supernode. */
    method Renumber() returns (supernode_count: int, S_copy: array<int>)
      requires Valid()
      modifies this`supernode_sizes, this`sn_to_n
      ensures Valid()
      ensures fresh(S_copy) && fresh(supernode_sizes) && supernode_sizes.Length == n
      ensures RenumberedUpTo(Members, S[..], n, supernode_count, S_copy[..], supernode_sizes[..], sn_to_n)
    {
      supernode_sizes := new int[n](_ => 0);
      sn_to_n := [];
      supernode_count := 0;
      S_copy := new int[S.Length](v reads S requires 0 <= v < S.Length => S[v]);
      assert S_copy[..] == S[..];
      RenumberStart(Members, S[..], supernode_sizes[..]);
      var i := 0;
      while i < n
        invariant 0 <= i <= n
        invariant fresh(S_copy) && fresh(supernode_sizes)
        invariant S_copy.Length == n && supernode_sizes.Length == n && S_copy != supernode_sizes
        invariant RenumberedUpTo(Members, S[..], i, supernode_count, S_copy[..], supernode_sizes[..], sn_to_n)
      {
        supernode_count := RenumberSupernode(i, supernode_count, S_copy);
        i := i + 1;
      }
    }

    /** One pass of the renumbering loop, for id i. */
    method RenumberSupernode(i: int, supernode_count: int, S_copy: array<int>) returns (count': int)
      requires Valid() && 0 <= i < n
      requires S_copy.Length == n && supernode_sizes.Length == n
      requires S_copy != S && S_copy != I && S_copy != J && S_copy != supernode_sizes
      requires supernode_sizes != S && supernode_sizes != I && supernode_sizes != J
      requires RenumberedUpTo(Members, S[..], i, supernode_count, S_copy[..], supernode_sizes[..], sn_to_n)
      modifies this`sn_to_n, supernode_sizes, S_copy
      ensures RenumberedUpTo(Members, S[..], i + 1, count', S_copy[..], supernode_sizes[..], sn_to_n)
    {
      ghost var scopy, sizes, sn := S_copy[..], supernode_sizes[..], sn_to_n;
      RepsFacts(Members, i);
      assert I[..][i] == I[i];
      if I[i] != -1 {
        var nodes_inside := RecoverSuperNode(i);
        MembersInRange(i);
        supernode_sizes[supernode_count] := nodes_inside.Length;
        var nodes_inside_list := RenumberMembers(S_copy, nodes_inside, supernode_count);
        sn_to_n := sn_to_n + [nodes_inside_list];
        count' := supernode_count + 1;
        InListIff(n, S[..], Idx, Members, i);
      } else {
        count' := supernode_count;
      }
      RenumberStepLemma(Members, S[..], i, supernode_count, scopy, sizes, sn,
                        count', S_copy[..], supernode_sizes[..], sn_to_n);
    }

    /** The encoder fields hold an encoding of every block of the supernode
        graph under the dense ids DenseIds. */
    ghost predicate Encoded(distinct: bool)
      reads this, supernode_sizes
    {
      var x := Ctx(Gr, DenseIds, sn_to_n, supernode_sizes[..]);
      x.OK() && Encodes(x, Up(x), distinct, P, Cp, Cm)
    }

    /** The renumbering as both encoders see it: the graph, the dense id
        of every vertex, the member lists and the sizes by dense id. */
    method DenseContext() returns (x: Ctx)
      requires Valid()
      modifies this`supernode_sizes, this`sn_to_n, this`DenseIds
      ensures Valid()
      ensures x == Ctx(Gr, DenseIds, sn_to_n, supernode_sizes[..]) && x.OK()
      ensures |sn_to_n| == |Members|
      ensures forall v :: 0 <= v < n ==> DenseIds[v] == |RepsBelow(Members, S[v])|
    {
      var supernode_count, S_copy := Renumber();
      DenseIds := S_copy[..];
      DenseCtxOK(Gr, n, S[..], I[..], J[..], Idx, Members, supernode_count, S_copy[..], supernode_sizes[..], sn_to_n);
      x := Ctx(Gr, S_copy[..], sn_to_n, supernode_sizes[..]);
    }

    /** encodePhase: renumbering, then the pairwise encoder. */
    method EncodePhase()
      requires Valid()
      modifies this`supernode_sizes, this`sn_to_n, this`P, this`Cp, this`Cm, this`DenseIds
      ensures Valid() && Encoded(false)
      ensures |sn_to_n| == |Members|
      ensures forall v :: 0 <= v < n ==> DenseIds[v] == |RepsBelow(Members, S[v])|
    {
      var x := DenseContext();
      P, Cp, Cm := Pairwise.EncodePairwise(x);
    }

    /** encodePhase_new: renumbering, then the sorting encoder, with the
        last run decided. */
    method EncodePhaseNew()
      requires Valid()
      modifies this`supernode_sizes, this`sn_to_n, this`P, this`Cp, this`Cm, this`DenseIds
      ensures Valid() && Encoded(true)
      ensures |sn_to_n| == |Members|
      ensures forall v :: 0 <= v < n ==> DenseIds[v] == |RepsBelow(Members, S[v])|
    {
      var x := DenseContext();
      P, Cp, Cm := Runs.EncodeSorted(x);
    }

    // -------------------------------------------------------------------
    // The lossy pass

    /** dropPhase on the encoding left by either encoder (distinct tells
        which); order is P in the order of the source's comparator. The pass
        writes only P, Cp and Cm, so Valid() is kept by framing. */
    method DropPhase(error_bound: real, order: seq<Edge>, ghost distinct: bool)
      requires Encoded(distinct)
      requires multiset(order) == multiset(P)
      modifies this`P, this`Cp, this`Cm
      ensures Drop.DropsTo(Gr, sn_to_n, supernode_sizes[..], error_bound, order, old(Cp), old(Cm), P, Cp, Cm)
      ensures Drop.Sub(Cp, old(Cp)) && Drop.Sub(Cm, old(Cm)) && Drop.Sub(P, order)
      ensures forall p :: p in old(P) && p.0 == p.1 ==> p in P
      ensures |P| + |Cp| + |Cm| <= old(|P| + |Cp| + |Cm|)
    {
      Drop.EncodedDroppable(Ctx(Gr, DenseIds, sn_to_n, supernode_sizes[..]), distinct, P, Cp, Cm);
      assert forall p :: p in order ==> p in multiset(P);
      P, Cp, Cm := Drop.DropAll(Gr, sn_to_n, supernode_sizes[..], error_bound, P, order, Cp, Cm);
    }
  }
}
