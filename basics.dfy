/** Small value types shared by every part of the model: an optional value,
    a success-or-error result, and exact percentages as fractions. */
module Basics {

  datatype Option<+T> = None | Some(value: T)

  datatype Result<+T, +E> = Ok(value: T) | Err(error: E)

  type Pos = n: nat | n > 0 witness 1

  /** The fraction num/den. The source computes percentages in floating point;
      the model keeps them exact and compares them by cross-multiplication. */
  datatype Ratio = Ratio(num: nat, den: Pos)

  /** `part` out of `whole`, as a percentage, or `fallback` percent when
      `whole` is zero (the source uses 0 in some views and 100 in another). */
  function PercentOr(part: nat, whole: nat, fallback: nat): (p: Ratio)
    ensures whole > 0 ==> p.num * whole == part * 100 * p.den
    ensures whole == 0 ==> p.num == fallback * p.den
  {
    if whole > 0 then Ratio(part * 100, whole) else Ratio(fallback, 1)
  }

  /** p < k percent. */
  predicate Below(p: Ratio, k: nat) {
    p.num < k * p.den
  }

  /** p <= q as rationals. */
  predicate AtMost(p: Ratio, q: Ratio) {
    p.num * q.den <= q.num * p.den
  }

  /** 0 <= p <= 100 percent. */
  predicate IsPercentage(p: Ratio) {
    p.num <= 100 * p.den
  }

  lemma PercentOfPartIsPercentage(part: nat, whole: nat, fallback: nat)
    requires part <= whole && fallback <= 100
    ensures IsPercentage(PercentOr(part, whole, fallback))
  {
    if whole > 0 {
      assert part * 100 <= whole * 100;
    }
  }

  lemma AtMostTransitive(p: Ratio, q: Ratio, r: Ratio)
    requires AtMost(p, q) && AtMost(q, r)
    ensures AtMost(p, r)
  {
    // p.num/p.den <= q.num/q.den <= r.num/r.den, multiply through by q.den > 0
    calc {
      p.num * r.den * q.den;
      == (p.num * q.den) * r.den;
      <= { MulMonotone(p.num * q.den, q.num * p.den, r.den); }
      (q.num * p.den) * r.den;
      == (q.num * r.den) * p.den;
      <= { MulMonotone(q.num * r.den, r.num * q.den, p.den); }
      (r.num * q.den) * p.den;
      == (r.num * p.den) * q.den;
    }
    MulCancel(p.num * r.den, r.num * p.den, q.den);
  }

  lemma AtMostTotal(p: Ratio, q: Ratio)
    ensures AtMost(p, q) || AtMost(q, p)
  {
  }

  lemma MulMonotone(a: nat, b: nat, c: nat)
    requires a <= b
    ensures a * c <= b * c
  {
  }

  lemma MulCancel(a: nat, b: nat, c: Pos)
    requires a * c <= b * c
    ensures a <= b
  {
    if a > b {
      MulMonotone(b + 1, a, c);
    }
  }

  /** A subset is no larger than its superset. */
  lemma SubsetCard<T>(a: set<T>, b: set<T>)
    requires a <= b
    ensures |a| <= |b|
  {
    assert b == a + (b - a);
  }
}
