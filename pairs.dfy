/** The index pairs that both `check_drug_compatibility` loops visit:
    `for i in range(n): for j in range(i + 1, n)`. */
module PairOrder {

  type Pair = (nat, nat)

  /** `(i, j), (i, j + 1), ..., (i, n - 1)`: what the inner loop visits from `j` on. */
  function Row(i: nat, j: nat, n: nat): (r: seq<Pair>)
    decreases n - j
  {
    if j >= n then [] else [(i, j)] + Row(i, j + 1, n)
  }

  /** The pairs the outer loop visits from `i` on. */
  function PairsFrom(i: nat, n: nat): (r: seq<Pair>)
    decreases n - i
  {
    if i >= n then [] else Row(i, i + 1, n) + PairsFrom(i + 1, n)
  }

  /** Every pair `i < j < n`, in the order the nested loops visit them. */
  function Pairs(n: nat): seq<Pair> {
    PairsFrom(0, n)
  }

  /** Lexicographic order on index pairs. */
  predicate Before(p: Pair, q: Pair) {
    p.0 < q.0 || (p.0 == q.0 && p.1 < q.1)
  }

  /** Every pair of `ps` has indices below `n`. */
  predicate InRange(ps: seq<Pair>, n: nat) {
    forall k :: 0 <= k < |ps| ==> ps[k].0 < n && ps[k].1 < n
  }

  lemma {:induction false} RowLength(i: nat, j: nat, n: nat)
    requires j <= n
    ensures |Row(i, j, n)| == n - j
    decreases n - j
  {
    if j < n {
      RowLength(i, j + 1, n);
    }
  }

  lemma {:induction false} PairsFromLength(i: nat, n: nat)
    requires i <= n
    ensures 2 * |PairsFrom(i, n)| == (n - i) * (n - i - 1)
    decreases n - i
  {
    if i < n {
      RowLength(i, i + 1, n);
      PairsFromLength(i + 1, n);
      var m := n - i;
      assert (m - 1) * (m - 2) + 2 * (m - 1) == m * (m - 1);
    }
  }

  /** A list of `n` drugs has `n * (n - 1) / 2` pairs: none for `n <= 1`,
      45 for `n == 10`. */
  lemma PairsCount(n: nat)
    ensures |Pairs(n)| == n * (n - 1) / 2
    ensures n <= 1 ==> Pairs(n) == []
  {
    PairsFromLength(0, n);
  }

  lemma {:induction false} RowMembers(i: nat, j: nat, n: nat, p: Pair)
    ensures p in Row(i, j, n) <==> p.0 == i && j <= p.1 < n
    decreases n - j
  {
    if j < n {
      RowMembers(i, j + 1, n, p);
    }
  }

  lemma {:induction false} PairsFromMembers(i: nat, n: nat, p: Pair)
    ensures p in PairsFrom(i, n) <==> i <= p.0 < p.1 < n
    decreases n - i
  {
    if i < n {
      RowMembers(i, i + 1, n, p);
      PairsFromMembers(i + 1, n, p);
    }
  }

  /** The loops visit exactly the pairs `i < j` of positions in the list. */
  lemma PairsMembers(n: nat, p: Pair)
    ensures p in Pairs(n) <==> p.0 < p.1 < n
  {
    PairsFromMembers(0, n, p);
  }

  lemma {:induction false} RowSorted(i: nat, j: nat, n: nat)
    ensures forall a, b :: 0 <= a < b < |Row(i, j, n)| ==> Before(Row(i, j, n)[a], Row(i, j, n)[b])
    ensures forall a :: 0 <= a < |Row(i, j, n)| ==> Row(i, j, n)[a].0 == i && j <= Row(i, j, n)[a].1
    decreases n - j
  {
    if j < n {
      RowSorted(i, j + 1, n);
    }
  }

  lemma {:induction false} PairsFromSorted(i: nat, n: nat)
    ensures forall a, b :: 0 <= a < b < |PairsFrom(i, n)| ==> Before(PairsFrom(i, n)[a], PairsFrom(i, n)[b])
    ensures forall a :: 0 <= a < |PairsFrom(i, n)| ==> i <= PairsFrom(i, n)[a].0
    decreases n - i
  {
    if i < n {
      RowSorted(i, i + 1, n);
      PairsFromSorted(i + 1, n);
    }
  }

  /** The pairs come in strictly increasing lexicographic order, so no pair is
      visited twice. */
  lemma PairsSorted(n: nat)
    ensures forall a, b :: 0 <= a < b < |Pairs(n)| ==> Before(Pairs(n)[a], Pairs(n)[b])
  {
    PairsFromSorted(0, n);
  }

  lemma PairsInRange(n: nat)
    ensures InRange(Pairs(n), n)
  {
    forall k | 0 <= k < |Pairs(n)|
      ensures Pairs(n)[k].0 < n && Pairs(n)[k].1 < n
    {
      PairsMembers(n, Pairs(n)[k]);
    }
  }

  /** The number of pairs in the rows before row `i`: the position in
      `Pairs(n)` where row `i` starts. */
  function RowsBefore(i: nat, n: nat): nat
    requires i <= n
  {
    if i == 0 then 0 else RowsBefore(i - 1, n) + (n - i)
  }

  lemma {:induction false} RowAt(i: nat, j: nat, n: nat, k: nat)
    requires j <= k < n
    ensures |Row(i, j, n)| == n - j && Row(i, j, n)[k - j] == (i, k)
    decreases k - j
  {
    RowLength(i, j, n);
    if j < k {
      RowAt(i, j + 1, n, k);
    }
  }

  lemma {:induction false} PairsFromAt(i: nat, n: nat, a: nat, b: nat)
    requires i <= a < b < n
    ensures RowsBefore(i, n) <= RowsBefore(a, n)
    ensures RowsBefore(a, n) - RowsBefore(i, n) + (b - a - 1) < |PairsFrom(i, n)|
    ensures PairsFrom(i, n)[RowsBefore(a, n) - RowsBefore(i, n) + (b - a - 1)] == (a, b)
    decreases a - i
  {
    var row, later := Row(i, i + 1, n), PairsFrom(i + 1, n);
    assert PairsFrom(i, n) == row + later;
    RowLength(i, i + 1, n);
    if a == i {
      RowAt(i, i + 1, n, b);
    } else {
      PairsFromAt(i + 1, n, a, b);
      assert RowsBefore(i + 1, n) == RowsBefore(i, n) + |row|;
      var t := RowsBefore(a, n) - RowsBefore(i + 1, n) + (b - a - 1);
      assert (row + later)[|row| + t] == later[t];
    }
  }

  /** The pair `(i, j)` sits at position `RowsBefore(i, n) + j - i - 1` of
      the visiting order. */
  lemma PairAt(n: nat, i: nat, j: nat)
    requires i < j < n
    ensures RowsBefore(i, n) + (j - i - 1) < |Pairs(n)|
    ensures Pairs(n)[RowsBefore(i, n) + (j - i - 1)] == (i, j)
  {
    PairsFromAt(0, n, i, j);
  }

  lemma {:induction false} PairsFromTotal(i: nat, n: nat)
    requires i <= n
    ensures RowsBefore(i, n) + |PairsFrom(i, n)| == RowsBefore(n, n)
    decreases n - i
  {
    if i < n {
      RowLength(i, i + 1, n);
      PairsFromTotal(i + 1, n);
    }
  }

  /** The rows together hold all the pairs. */
  lemma PairsTotal(n: nat)
    ensures |Pairs(n)| == RowsBefore(n, n)
  {
    PairsFromTotal(0, n);
  }
}
