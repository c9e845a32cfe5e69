/** The float values the selectors compare: a finite log-likelihood or score,
    the starting values `float("-inf")` / `float("inf")`, and the NaN that
    `np.mean([])` produces. Comparisons follow IEEE 754: NaN compares false. */
module Scores {

  datatype Score = NegInf | Fin(r: real) | PosInf | NaN

  /** IEEE `a < b`. */
  predicate Lt(a: Score, b: Score)
  {
    if a.NaN? || b.NaN? then false
    else if a.NegInf? then !b.NegInf?
    else if a.Fin? then (b.Fin? && a.r < b.r) || b.PosInf?
    else false
  }

  lemma LtTransitive(a: Score, b: Score, c: Score)
    requires Lt(a, b) && Lt(b, c)
    ensures Lt(a, c)
  {
  }

  /** Two non-NaN scores are ordered one way, or equal. */
  lemma LtTotal(a: Score, b: Score)
    requires !a.NaN? && !b.NaN?
    ensures Lt(a, b) || a == b || Lt(b, a)
  {
  }

  function SumR(xs: seq<real>): real
  {
    if xs == [] then 0.0 else xs[0] + SumR(xs[1..])
  }

  /** `np.mean`: the arithmetic mean, and NaN for an empty list. */
  function Mean(xs: seq<real>): (m: Score)
    ensures m.NaN? <==> xs == []
    ensures xs != [] ==> m.Fin? && m.r * |xs| as real == SumR(xs)
  {
    if xs == [] then NaN else Fin(SumR(xs) / |xs| as real)
  }

  lemma {:induction false} SumRBounds(xs: seq<real>, lo: real, hi: real)
    requires forall i :: 0 <= i < |xs| ==> lo <= xs[i] <= hi
    ensures lo * |xs| as real <= SumR(xs) <= hi * |xs| as real
    decreases |xs|
  {
    if xs != [] {
      assert forall i :: 0 <= i < |xs[1..]| ==> xs[1..][i] == xs[i + 1];
      SumRBounds(xs[1..], lo, hi);
      assert lo * |xs| as real == lo + lo * |xs[1..]| as real;
      assert hi * |xs| as real == hi + hi * |xs[1..]| as real;
    }
  }

  lemma ScaleBound(a: real, b: real, n: real)
    requires n > 0.0 && a * n <= b * n
    ensures a <= b
  {
    assert (b - a) * n >= 0.0;
  }

  /** The mean of a non-empty list lies between any lower and upper bound of its elements. */
  lemma MeanBounds(xs: seq<real>, lo: real, hi: real)
    requires xs != []
    requires forall i :: 0 <= i < |xs| ==> lo <= xs[i] <= hi
    ensures Mean(xs).Fin? && lo <= Mean(xs).r <= hi
  {
    SumRBounds(xs, lo, hi);
    var n := |xs| as real;
    var m := Mean(xs).r;
    assert m * n == SumR(xs);
    assert lo * n <= SumR(xs) <= hi * n;
    ScaleBound(lo, m, n);
    ScaleBound(m, hi, n);
  }
}
