/**
 Pair enumeration (`getPairFromIndex`, pages/index.js:53-62).

 The component walks every unordered pair of candidate positions `(i, j)`
 with `i < j` in lexicographic order, driven by a single cursor. This module
 gives the nested loop of the source (`GetPairFromIndex`), a recursive
 reference definition of the same enumeration (`PairFromIndex`), its inverse
 (`Rank`), and proves that the enumeration is an order-preserving bijection
 between `[0, n(n-1)/2)` and the pairs of `n` candidates.
 */
module Pairs {
  import opened Optional

  /** Two candidate positions; a valid pair has `first < second`. */
  datatype Pair = Pair(first: nat, second: nat)

  predicate ValidPair(n: nat, p: Pair) {
    p.first < p.second < n
  }

  /** Strict lexicographic order on pairs. */
  predicate LexLess(p: Pair, q: Pair) {
    p.first < q.first || (p.first == q.first && p.second < q.second)
  }

  /** Number of pairs, computed as the source does: `n * (n - 1) / 2`.
      The division is exact, so JavaScript's floating-point `/` gives the
      same integer. */
  function TotalPairs(n: nat): (t: nat)
    ensures 2 * t == n * (n - 1)
  {
    RowStartClosedForm(n, n);
    n * (n - 1) / 2
  }

  /** Number of pairs the nested loop visits before row `i` starts,
      i.e. the pairs whose first component is below `i`. */
  function RowStart(n: nat, i: nat): nat
    requires i <= n
  {
    if i == 0 then 0 else RowStart(n, i - 1) + (n - i)
  }

  /** Position of a valid pair in the enumeration. */
  function Rank(n: nat, p: Pair): nat
    requires ValidPair(n, p)
  {
    RowStart(n, p.first) + (p.second - p.first - 1)
  }

  /** Reference enumeration: the `k`-th pair counted from the start of row `i`. */
  function PairAtRow(n: nat, i: nat, k: nat): Option<Pair>
    requires i <= n
    decreases n - i
  {
    if i == n then None
    else if k < n - 1 - i then Some(Pair(i, i + 1 + k))
    else PairAtRow(n, i + 1, k - (n - 1 - i))
  }

  /** The pair shown for cursor `k` among `n` candidates, or `None` once the
      cursor has passed the last pair. */
  function PairFromIndex(n: nat, k: nat): Option<Pair> {
    PairAtRow(n, 0, k)
  }

  /** `getPairFromIndex` as written: a running counter over the nested loop. */
  method GetPairFromIndex(n: nat, index: nat) returns (r: Option<Pair>)
    ensures r == PairFromIndex(n, index)
    ensures r.Some? <==> index < TotalPairs(n)
    ensures r.Some? ==> ValidPair(n, r.value) && Rank(n, r.value) == index
  {
    PairFromIndexSpec(n, index);
    var count := 0;
    var i := 0;
    while i < n
      invariant i <= n
      invariant count == RowStart(n, i) <= index
      invariant PairFromIndex(n, index) == PairAtRow(n, i, index - count)
    {
      var j := i + 1;
      while j < n
        invariant i + 1 <= j <= n
        invariant count == RowStart(n, i) + (j - i - 1) <= index
      {
        if count == index {
          return Some(Pair(i, j));
        }
        count := count + 1;
        j := j + 1;
      }
      i := i + 1;
    }
    return None;
  }

  /** The loop's row counts add up to the source's closed formula. */
  lemma {:induction false} RowStartClosedForm(n: nat, i: nat)
    requires i <= n
    ensures 2 * RowStart(n, i) == i * (2 * n - i - 1)
  {
    if i > 0 {
      RowStartClosedForm(n, i - 1);
    }
  }

  lemma RowStartTotal(n: nat)
    ensures RowStart(n, n) == TotalPairs(n)
  {
    RowStartClosedForm(n, n);
  }

  lemma {:induction false} RowStartMonotone(n: nat, a: nat, b: nat)
    requires a <= b <= n
    ensures RowStart(n, a) <= RowStart(n, b)
    decreases b
  {
    if a < b {
      RowStartMonotone(n, a, b - 1);
    }
  }

  /** Every pair of row `i` comes before every pair of a later row. */
  lemma RowBound(n: nat, p: Pair, i: nat)
    requires ValidPair(n, p) && p.first < i <= n
    ensures Rank(n, p) < RowStart(n, i)
  {
    RowStartMonotone(n, p.first + 1, i);
  }

  lemma {:induction false} PairAtRowSpec(n: nat, i: nat, k: nat)
    requires i <= n
    ensures PairAtRow(n, i, k).Some? <==> RowStart(n, i) + k < RowStart(n, n)
    ensures PairAtRow(n, i, k).Some? ==>
              var p := PairAtRow(n, i, k).value;
              ValidPair(n, p) && i <= p.first && Rank(n, p) == RowStart(n, i) + k
    decreases n - i
  {
    if i == n {
    } else if k < n - 1 - i {
      RowBound(n, Pair(i, i + 1 + k), n);
    } else {
      PairAtRowSpec(n, i + 1, k - (n - 1 - i));
    }
  }

  /** Range: a pair comes back exactly for cursors below `n(n-1)/2`, it is a
      valid pair, and its rank is the cursor. */
  lemma PairFromIndexSpec(n: nat, k: nat)
    ensures PairFromIndex(n, k).Some? <==> k < TotalPairs(n)
    ensures PairFromIndex(n, k).Some? ==>
              ValidPair(n, PairFromIndex(n, k).value) && Rank(n, PairFromIndex(n, k).value) == k
  {
    PairAtRowSpec(n, 0, k);
    RowStartTotal(n);
  }

  /** With fewer than two candidates there is never a pair to show. */
  lemma NoPairBelowTwo(n: nat, k: nat)
    requires n < 2
    ensures PairFromIndex(n, k) == None
  {
    PairFromIndexSpec(n, k);
  }

  /** Rank is strictly monotone in the lexicographic order, in both directions. */
  lemma RankOrder(n: nat, p: Pair, q: Pair)
    requires ValidPair(n, p) && ValidPair(n, q)
    ensures LexLess(p, q) <==> Rank(n, p) < Rank(n, q)
  {
    if p.first < q.first {
      RowBound(n, p, q.first);
    } else if q.first < p.first {
      RowBound(n, q, p.first);
    }
  }

  lemma RankInjective(n: nat, p: Pair, q: Pair)
    requires ValidPair(n, p) && ValidPair(n, q) && Rank(n, p) == Rank(n, q)
    ensures p == q
  {
    RankOrder(n, p, q);
    RankOrder(n, q, p);
  }

  /** Surjectivity: every valid pair is shown, at the cursor equal to its rank. */
  lemma RankRoundTrip(n: nat, p: Pair)
    requires ValidPair(n, p)
    ensures Rank(n, p) < TotalPairs(n)
    ensures PairFromIndex(n, Rank(n, p)) == Some(p)
  {
    RowBound(n, p, n);
    RowStartTotal(n);
    var k := Rank(n, p);
    PairFromIndexSpec(n, k);
    RankInjective(n, PairFromIndex(n, k).value, p);
  }

  /** Injectivity: distinct cursors in range show distinct pairs. */
  lemma PairFromIndexInjective(n: nat, k1: nat, k2: nat)
    requires k1 < TotalPairs(n) && k2 < TotalPairs(n) && k1 != k2
    ensures PairFromIndex(n, k1) != PairFromIndex(n, k2)
  {
    PairFromIndexSpec(n, k1);
    PairFromIndexSpec(n, k2);
  }

  /** Pairs come out in lexicographic order as the cursor increases. */
  lemma PairFromIndexOrdered(n: nat, k1: nat, k2: nat)
    requires k1 < k2 < TotalPairs(n)
    ensures PairFromIndex(n, k1).Some? && PairFromIndex(n, k2).Some?
    ensures LexLess(PairFromIndex(n, k1).value, PairFromIndex(n, k2).value)
  {
    PairFromIndexSpec(n, k1);
    PairFromIndexSpec(n, k2);
    RankOrder(n, PairFromIndex(n, k1).value, PairFromIndex(n, k2).value);
  }
}
