/** Small facts about integer multiplication and Euclidean division used by the
    index arithmetic of the kernels and the launch geometry. */
module Arith {

  lemma MulMonotone(a: int, b: int, t: nat)
    ensures a <= b ==> a * t <= b * t
  {
    assert (b - a) * t == b * t - a * t;
  }

  /** An index already inside [0, n) is left alone by `% n`. */
  lemma ModOfSmall(i: int, n: int)
    requires 0 <= i < n
    ensures i % n == i
  {
    var q, r := i / n, i % n;
    assert q * n + r == i && 0 <= r < n;
    MulMonotone(1, q, n);
    MulMonotone(q, -1, n);
  }

  lemma PositiveProduct(h: nat, w: nat)
    requires h * w > 0
    ensures h > 0 && w > 0
  {
  }
}
