/** encodePhase, the pairwise encoder: for each supernode A in dense-id
    order it scans the edges out of A's members, counting them per target
    supernode B and collecting them per B, then decides every block (A, B)
    with B >= A that has an edge. */
module Pairwise {
  import opened Sums
  import opened Graphs
  import opened Encoding

  /** The entries of row that end in dense id b: edges_list[b] after
      scanning row. */
  function EdgesInto(D: seq<int>, row: seq<Edge>, b: int): set<Edge>
  {
    set e | e in row && At(D, e.1) == b
  }

  /** edges_count after scanning row: the hits into every dense id below k. */
  function CountsOf(D: seq<int>, row: seq<Edge>, k: nat): seq<int>
  {
    seq(k, b => Hits(D, row, b))
  }

  /** edges_list after scanning row. */
  function ListsOf(D: seq<int>, row: seq<Edge>, k: nat): seq<set<Edge>>
  {
    seq(k, b => EdgesInto(D, row, b))
  }

  /** has_edge_with_A after scanning row: the dense ids at least A that row
      leads into. */
  function HasOf(D: seq<int>, row: seq<Edge>, A: int): set<int>
  {
    set e | e in row && At(D, e.1) >= A :: At(D, e.1)
  }

  /** The blocks of the supernodes below A. */
  ghost function Below(x: Ctx, A: int): set<Edge>
  {
    set a, b | 0 <= a < A && a <= b < |x.mem| :: (a, b)
  }

  /** The blocks (A, b) for b in bs. */
  ghost function RowBlocks(A: int, bs: set<int>): set<Edge>
  {
    set b | b in bs :: (A, b)
  }

  /** One scanned edge e: its target's count goes up by one, e joins the
      target's set, and the target joins has when it is at least A. */
  lemma ScanStep(D: seq<int>, row: seq<Edge>, e: Edge, k: nat, A: int,
                 ec: seq<int>, el: seq<set<Edge>>, has: set<int>,
                 ec': seq<int>, el': seq<set<Edge>>, has': set<int>, row': seq<Edge>)
    requires 0 <= At(D, e.1) < k
    requires ec == CountsOf(D, row, k) && el == ListsOf(D, row, k) && has == HasOf(D, row, A)
    requires row' == row + [e]
    requires ec' == ec[At(D, e.1) := ec[At(D, e.1)] + 1]
    requires el' == el[At(D, e.1) := el[At(D, e.1)] + {e}]
    requires has' == if At(D, e.1) >= A then has + {At(D, e.1)} else has
    ensures ec' == CountsOf(D, row', k) && el' == ListsOf(D, row', k) && has' == HasOf(D, row', A)
  {
    assert row'[..|row'| - 1] == row;
    assert EdgesInto(D, row', At(D, e.1)) == EdgesInto(D, row, At(D, e.1)) + {e};
    assert forall b :: b != At(D, e.1) ==> EdgesInto(D, row', b) == EdgesInto(D, row, b);
    assert HasOf(D, row', A) == HasOf(D, row, A) + (if At(D, e.1) >= A then {At(D, e.1)} else {});
  }

  /** Extending a scanned prefix by one entry. */
  lemma PrefixSnoc<T>(before: seq<T>, s: seq<T>, i: int)
    requires 0 <= i < |s|
    ensures before + s[..i + 1] == (before + s[..i]) + [s[i]]
  {
    assert s[..i + 1] == s[..i] + [s[i]];
  }

  /** One turn of the inner loop of the scan: the edge to neighbours[i]
      is counted and collected under its target supernode. */
  method ScanEdge(x: Ctx, A: int, node: int, neighbours: seq<int>, i: int,
                  edges_count: array<int>, edges_list: array<set<Edge>>,
                  has0: set<int>, ghost before: seq<Edge>)
    returns (has: set<int>)
    requires x.OK() && 0 <= node < |x.g| && neighbours == x.g[node] && 0 <= i < |neighbours|
    requires edges_count.Length == |x.mem| && edges_list.Length == |x.mem|
    requires edges_count[..] == CountsOf(x.D, before + Out(node, neighbours)[..i], |x.mem|)
    requires edges_list[..] == ListsOf(x.D, before + Out(node, neighbours)[..i], |x.mem|)
    requires has0 == HasOf(x.D, before + Out(node, neighbours)[..i], A)
    modifies edges_count, edges_list
    ensures edges_count[..] == CountsOf(x.D, before + Out(node, neighbours)[..i + 1], |x.mem|)
    ensures edges_list[..] == ListsOf(x.D, before + Out(node, neighbours)[..i + 1], |x.mem|)
    ensures has == HasOf(x.D, before + Out(node, neighbours)[..i + 1], A)
  {
    ghost var out := Out(node, neighbours);
    var B := x.D[neighbours[i]];
    ghost var ec, el := edges_count[..], edges_list[..];
    edges_count[B] := edges_count[B] + 1;
    has := if B >= A then has0 + {B} else has0;
    edges_list[B] := edges_list[B] + {(node, neighbours[i])};
    PrefixSnoc(before, out, i);
    ScanStep(x.D, before + out[..i], out[i], |x.mem|, A, ec, el, has0,
             edges_count[..], edges_list[..], has, before + out[..i + 1]);
  }

  /** The scan of one member's successor array: the inner loop of the
      scan. */
  method ScanMember(x: Ctx, A: int, node: int, edges_count: array<int>, edges_list: array<set<Edge>>,
                    has0: set<int>, ghost before: seq<Edge>)
    returns (has: set<int>)
    requires x.OK() && 0 <= node < |x.g|
    requires edges_count.Length == |x.mem| && edges_list.Length == |x.mem|
    requires edges_count[..] == CountsOf(x.D, before, |x.mem|)
    requires edges_list[..] == ListsOf(x.D, before, |x.mem|)
    requires has0 == HasOf(x.D, before, A)
    modifies edges_count, edges_list
    ensures edges_count[..] == CountsOf(x.D, before + Out(node, x.g[node]), |x.mem|)
    ensures edges_list[..] == ListsOf(x.D, before + Out(node, x.g[node]), |x.mem|)
    ensures has == HasOf(x.D, before + Out(node, x.g[node]), A)
  {
    var neighbours := x.g[node];
    ghost var out := Out(node, neighbours);
    has := has0;
    var i := 0;
    assert before + out[..0] == before;
    while i < |neighbours|
      invariant 0 <= i <= |neighbours|
      invariant edges_count[..] == CountsOf(x.D, before + out[..i], |x.mem|)
      invariant edges_list[..] == ListsOf(x.D, before + out[..i], |x.mem|)
      invariant has == HasOf(x.D, before + out[..i], A)
    {
      has := ScanEdge(x, A, node, neighbours, i, edges_count, edges_list, has, before);
      i := i + 1;
    }
    assert out[..i] == out;
  }

  /** The scan of supernode A: the counts, the lists and the candidate
      blocks of all edges out of A's members. */
  method ScanBlock(x: Ctx, A: int) returns (edges_count: array<int>, edges_list: array<set<Edge>>, has: set<int>)
    requires x.OK() && 0 <= A < |x.mem|
    ensures fresh(edges_count) && fresh(edges_list)
    ensures AllVertices(x.g, x.mem[A])
    ensures edges_count[..] == CountsOf(x.D, Row(x.g, x.mem[A]), |x.mem|)
    ensures edges_list[..] == ListsOf(x.D, Row(x.g, x.mem[A]), |x.mem|)
    ensures has == HasOf(x.D, Row(x.g, x.mem[A]), A)
  {
    var in_A := x.mem[A];
    edges_count := new int[|x.mem|](_ => 0);
    edges_list := new set<Edge>[|x.mem|](_ => {});
    has := {};
    assert edges_count[..] == CountsOf(x.D, [], |x.mem|);
    assert forall b :: EdgesInto(x.D, [], b) == {};
    assert edges_list[..] == ListsOf(x.D, [], |x.mem|);
    var a := 0;
    while a < |in_A|
      invariant 0 <= a <= |in_A|
      invariant AllVertices(x.g, in_A[..a])
      invariant edges_count[..] == CountsOf(x.D, Row(x.g, in_A[..a]), |x.mem|)
      invariant edges_list[..] == ListsOf(x.D, Row(x.g, in_A[..a]), |x.mem|)
      invariant has == HasOf(x.D, Row(x.g, in_A[..a]), A)
    {
      var node := in_A[a];
      has := ScanMember(x, A, node, edges_count, edges_list, has, Row(x.g, in_A[..a]));
      assert in_A[..a + 1][..a] == in_A[..a];
      a := a + 1;
    }
    assert in_A[..a] == in_A;
  }

  /** The scanned lists and counts are the block's edges and their count
      with multiplicity; has holds exactly the blocks (A, b), b >= A, with
      an edge. */
  lemma ScanMeaning(x: Ctx, A: int, ec: seq<int>, el: seq<set<Edge>>, has: set<int>)
    requires x.OK() && 0 <= A < |x.mem| && AllVertices(x.g, x.mem[A])
    requires ec == CountsOf(x.D, Row(x.g, x.mem[A]), |x.mem|)
    requires el == ListsOf(x.D, Row(x.g, x.mem[A]), |x.mem|)
    requires has == HasOf(x.D, Row(x.g, x.mem[A]), A)
    ensures forall b :: 0 <= b < |x.mem| ==> ec[b] == Mult(x, (A, b))
    ensures forall b :: 0 <= b < |x.mem| ==> el[b] == BlockEdges(x, (A, b))
    ensures forall b :: b in has <==> A <= b < |x.mem| && BlockEdges(x, (A, b)) != {}
  {
    var row := Row(x.g, x.mem[A]);
    assert Members(x, A);
    RowIn(x.g, x.mem[A]);
    forall b
      ensures b in has <==> A <= b < |x.mem| && BlockEdges(x, (A, b)) != {}
    {
      if b in has {
        var e :| e in row && At(x.D, e.1) >= A && At(x.D, e.1) == b;
        assert e in BlockEdges(x, (A, b));
      }
      if A <= b < |x.mem| && BlockEdges(x, (A, b)) != {} {
        var e :| e in BlockEdges(x, (A, b));
        assert e in row && At(x.D, e.1) == b;
      }
    }
  }

  /** The blocks of the supernodes below A + 1: those below A, the blocks
      (A, b) with an edge, and the blocks (A, b), b >= A, without one. */
  lemma BelowNext(x: Ctx, A: int, has: set<int>)
    requires 0 <= A < |x.mem|
    requires forall b :: b in has ==> A <= b < |x.mem|
    ensures Below(x, A + 1)
         == Below(x, A) + RowBlocks(A, has) + RowBlocks(A, set b | A <= b < |x.mem| && b !in has)
  {
    var rest := set b | A <= b < |x.mem| && b !in has;
    forall k | k in Below(x, A + 1)
      ensures k in Below(x, A) + RowBlocks(A, has) + RowBlocks(A, rest)
    {
      if k.0 < A {
        assert k == (k.0, k.1);
      } else if k.1 in has {
        assert k == (A, k.1);
      } else {
        assert k.1 in rest;
        assert k == (A, k.1);
      }
    }
  }

  /** The decision for one block (A, B): its edges go to C+ when there
      are at most as many (with multiplicity) as its threshold; otherwise
      the block joins P and its missing vertex pairs go to C-. */
  method DecideBlock(x: Ctx, A: int, B: int, count: int, es: set<Edge>,
                     P0: seq<Edge>, Cp0: seq<Edge>, Cm0: seq<Edge>)
    returns (P: seq<Edge>, Cp: seq<Edge>, Cm: seq<Edge>)
    requires x.OK() && 0 <= A <= B < |x.mem| && count == Mult(x, (A, B))
    ensures forall p :: p in P <==> p in P0 || (Dense(x, (A, B), false) && p == (A, B))
    ensures forall e :: e in Cp <==> e in Cp0 || (!Dense(x, (A, B), false) && e in es)
    ensures forall e :: e in Cm <==> e in Cm0 || (Dense(x, (A, B), false) && e.0 in x.mem[A] && e.1 in x.mem[B] && e !in es)
    ensures Appended(x, (A, B), es, P0, Cp0, Cm0, P, Cp, Cm)
  {
    var edge_compare_cond: int;
    if A == B {
      edge_compare_cond := x.sizes[A] * (x.sizes[A] - 1) / 4;
    } else {
      edge_compare_cond := (x.sizes[A] * x.sizes[B]) / 2;
    }
    P, Cp, Cm := P0, Cp0, Cm0;
    if count <= edge_compare_cond {
      Cp := AppendAll(Cp, es);
    } else {
      P := P + [(A, B)];
      var cm := Complement(x.mem[A], x.mem[B], es);
      MembersNoDup(x, A);
      MembersNoDup(x, B);
      assert (Cm + cm)[|Cm0|..] == cm;
      Cm := Cm + cm;
      assert P[|P0|..] == [(A, B)];
    }
  }

  /** The decision loop over the candidate blocks of A: each is encoded on
      its own, in any order. */
  method DecideBlocks(x: Ctx, A: int, edges_count: array<int>, edges_list: array<set<Edge>>, has: set<int>,
                      P0: seq<Edge>, Cp0: seq<Edge>, Cm0: seq<Edge>)
    returns (P: seq<Edge>, Cp: seq<Edge>, Cm: seq<Edge>)
    requires x.OK() && 0 <= A < |x.mem|
    requires edges_count.Length == |x.mem| && edges_list.Length == |x.mem|
    requires forall b :: 0 <= b < |x.mem| ==> edges_count[b] == Mult(x, (A, b))
    requires forall b :: 0 <= b < |x.mem| ==> edges_list[b] == BlockEdges(x, (A, b))
    requires forall b :: b in has ==> A <= b < |x.mem|
    requires Encodes(x, Below(x, A), false, P0, Cp0, Cm0)
    ensures Encodes(x, Below(x, A) + RowBlocks(A, has), false, P, Cp, Cm)
  {
    P, Cp, Cm := P0, Cp0, Cm0;
    var iter := has;
    ghost var done: set<int> := {};
    while iter != {}
      invariant iter !! done && iter + done == has
      invariant Encodes(x, Below(x, A) + RowBlocks(A, done), false, P, Cp, Cm)
      decreases iter
    {
      HasElement(iter);
      var B :| B in iter;
      ghost var P1, Cp1, Cm1 := P, Cp, Cm;
      P, Cp, Cm := DecideBlock(x, A, B, edges_count[B], edges_list[B], P, Cp, Cm);
      assert (A, B) !in Below(x, A) + RowBlocks(A, done);
      EmitStep(x, Below(x, A) + RowBlocks(A, done), false, P1, Cp1, Cm1,
               (A, B), edges_list[B], P, Cp, Cm);
      assert Below(x, A) + RowBlocks(A, done) + {(A, B)} == Below(x, A) + RowBlocks(A, done + {B});
      done := done + {B};
      iter := iter - {B};
    }
  }

  /** The encoding of the blocks of supernode A. */
  method EncodeSupernode(x: Ctx, A: int, P0: seq<Edge>, Cp0: seq<Edge>, Cm0: seq<Edge>)
    returns (P: seq<Edge>, Cp: seq<Edge>, Cm: seq<Edge>)
    requires x.OK() && 0 <= A < |x.mem|
    requires Encodes(x, Below(x, A), false, P0, Cp0, Cm0)
    ensures Encodes(x, Below(x, A + 1), false, P, Cp, Cm)
  {
    var edges_count, edges_list, has := ScanBlock(x, A);
    ScanMeaning(x, A, edges_count[..], edges_list[..], has);
    P, Cp, Cm := DecideBlocks(x, A, edges_count, edges_list, has, P0, Cp0, Cm0);
    var rest := set b | A <= b < |x.mem| && b !in has;
    PadEmpty(x, Below(x, A) + RowBlocks(A, has), RowBlocks(A, rest), false, P, Cp, Cm);
    BelowNext(x, A, has);
  }

  /** encodePhase after renumbering: P, C+ and C- encode every block. */
  method EncodePairwise(x: Ctx) returns (P: seq<Edge>, Cp: seq<Edge>, Cm: seq<Edge>)
    requires x.OK()
    ensures Encodes(x, Up(x), false, P, Cp, Cm)
  {
    P, Cp, Cm := [], [], [];
    var A := 0;
    while A < |x.mem|
      invariant 0 <= A <= |x.mem|
      invariant Encodes(x, Below(x, A), false, P, Cp, Cm)
    {
      P, Cp, Cm := EncodeSupernode(x, A, P, Cp, Cm);
      A := A + 1;
    }
    assert Below(x, A) == Up(x);
  }
}
