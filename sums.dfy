/** Sums of integer-valued maps over finite key sets. A key that is absent
    from a map contributes 0, which is how the summary code treats a missing
    entry of a count map. */
module Sums {

  /** The value stored under k, or 0 when k is absent. */
  function Get(m: map<int, int>, k: int): int
  {
    if k in m then m[k] else 0
  }

  /** The sum of Get(m, k) over the keys k in ks. */
  ghost function SumOver(m: map<int, int>, ks: set<int>): int
    decreases ks
  {
    if ks == {} then 0
    else
      HasElement(ks);
      var k :| k in ks;
      Get(m, k) + SumOver(m, ks - {k})
  }

  /** A non-empty set has an element. */
  lemma HasElement(ks: set<int>)
    requires ks != {}
    ensures exists k :: k in ks
  {
    if forall k :: k !in ks {
      assert false;
    }
  }

  /** The sum of all values of m. */
  ghost function Total(m: map<int, int>): int
  {
    SumOver(m, m.Keys)
  }

  /** Every value of m is at least 0. */
  ghost predicate NonNeg(m: map<int, int>)
  {
    forall k :: k in m ==> m[k] >= 0
  }

  /** Any element may be taken out first, whichever one SumOver picks. */
  lemma {:induction false} SumOverRemove(m: map<int, int>, ks: set<int>, k: int)
    requires k in ks
    ensures SumOver(m, ks) == Get(m, k) + SumOver(m, ks - {k})
    decreases ks
  {
    var j :| j in ks && SumOver(m, ks) == Get(m, j) + SumOver(m, ks - {j});
    if j != k {
      SumOverRemove(m, ks - {j}, k);
      SumOverRemove(m, ks - {k}, j);
      assert ks - {j} - {k} == ks - {k} - {j};
    }
  }

  lemma SumOverAdd(m: map<int, int>, ks: set<int>, k: int)
    requires k !in ks
    ensures SumOver(m, ks + {k}) == SumOver(m, ks) + Get(m, k)
  {
    SumOverRemove(m, ks + {k}, k);
    assert ks + {k} - {k} == ks;
  }

  /** Pointwise agreement on ks gives equal sums. */
  lemma {:induction false} SumOverExt(m1: map<int, int>, m2: map<int, int>, ks: set<int>)
    requires forall k :: k in ks ==> Get(m1, k) == Get(m2, k)
    ensures SumOver(m1, ks) == SumOver(m2, ks)
    decreases ks
  {
    if ks != {} {
      HasElement(ks);
      var k :| k in ks;
      SumOverRemove(m1, ks, k);
      SumOverRemove(m2, ks, k);
      SumOverExt(m1, m2, ks - {k});
    }
  }

  /** A pointwise bound on ks bounds the sums. */
  lemma {:induction false} SumOverLe(m1: map<int, int>, m2: map<int, int>, ks: set<int>)
    requires forall k :: k in ks ==> Get(m1, k) <= Get(m2, k)
    ensures SumOver(m1, ks) <= SumOver(m2, ks)
    decreases ks
  {
    if ks != {} {
      HasElement(ks);
      var k :| k in ks;
      SumOverRemove(m1, ks, k);
      SumOverRemove(m2, ks, k);
      SumOverLe(m1, m2, ks - {k});
    }
  }

  /** Keys with a zero (or absent) value do not change a sum. */
  lemma {:induction false} SumOverZero(m: map<int, int>, ks: set<int>)
    requires forall k :: k in ks ==> Get(m, k) == 0
    ensures SumOver(m, ks) == 0
    decreases ks
  {
    if ks != {} {
      HasElement(ks);
      var k :| k in ks;
      SumOverRemove(m, ks, k);
      SumOverZero(m, ks - {k});
    }
  }

  /** Sums over two disjoint key sets add up. */
  lemma {:induction false} SumOverUnion(m: map<int, int>, xs: set<int>, ys: set<int>)
    requires xs !! ys
    ensures SumOver(m, xs + ys) == SumOver(m, xs) + SumOver(m, ys)
    decreases ys
  {
    if ys != {} {
      HasElement(ys);
      var k :| k in ys;
      SumOverRemove(m, xs + ys, k);
      SumOverRemove(m, ys, k);
      assert xs + ys - {k} == xs + (ys - {k});
      SumOverUnion(m, xs, ys - {k});
    } else {
      assert xs + ys == xs;
    }
  }

  /** A pointwise bound whose sums meet is an equality at every key. */
  lemma {:induction false} SumOverTight(m1: map<int, int>, m2: map<int, int>, ks: set<int>)
    requires forall k :: k in ks ==> Get(m1, k) <= Get(m2, k)
    requires SumOver(m1, ks) == SumOver(m2, ks)
    ensures forall k :: k in ks ==> Get(m1, k) == Get(m2, k)
    decreases ks
  {
    if ks != {} {
      HasElement(ks);
      var k :| k in ks;
      SumOverRemove(m1, ks, k);
      SumOverRemove(m2, ks, k);
      SumOverLe(m1, m2, ks - {k});
      SumOverTight(m1, m2, ks - {k});
    }
  }

  /** Extending ks by keys on which m is zero or absent leaves the sum alone. */
  lemma SumOverPadZero(m: map<int, int>, ks: set<int>, more: set<int>)
    requires forall k :: k in more ==> Get(m, k) == 0
    ensures SumOver(m, ks + more) == SumOver(m, ks)
  {
    SumOverUnion(m, ks, more - ks);
    SumOverZero(m, more - ks);
    assert ks + more == ks + (more - ks);
  }

  /** The sum of a pointwise sum is the sum of the sums. */
  lemma {:induction false} SumOverPlus(m: map<int, int>, m1: map<int, int>, m2: map<int, int>, ks: set<int>)
    requires forall k :: k in ks ==> Get(m, k) == Get(m1, k) + Get(m2, k)
    ensures SumOver(m, ks) == SumOver(m1, ks) + SumOver(m2, ks)
    decreases ks
  {
    if ks != {} {
      HasElement(ks);
      var k :| k in ks;
      SumOverRemove(m, ks, k);
      SumOverRemove(m1, ks, k);
      SumOverRemove(m2, ks, k);
      SumOverPlus(m, m1, m2, ks - {k});
    }
  }

  /** A sum of values that are at least 0 is at least 0. */
  lemma {:induction false} SumOverNonNeg(m: map<int, int>, ks: set<int>)
    requires forall k :: k in ks ==> Get(m, k) >= 0
    ensures SumOver(m, ks) >= 0
    decreases ks
  {
    if ks != {} {
      HasElement(ks);
      var k :| k in ks;
      SumOverRemove(m, ks, k);
      SumOverNonNeg(m, ks - {k});
    }
  }

  /** Adding x to the entry under c (absent counts as 0) adds x to the total. */
  lemma TotalBump(m: map<int, int>, c: int, x: int)
    ensures Total(m[c := Get(m, c) + x]) == Total(m) + x
  {
    var m' := m[c := Get(m, c) + x];
    if c in m {
      SumOverRemove(m', m'.Keys, c);
      SumOverRemove(m, m.Keys, c);
      assert m'.Keys - {c} == m.Keys - {c};
      SumOverExt(m', m, m.Keys - {c});
    } else {
      assert m'.Keys == m.Keys + {c};
      SumOverAdd(m', m.Keys, c);
      SumOverExt(m', m, m.Keys);
    }
  }
}
