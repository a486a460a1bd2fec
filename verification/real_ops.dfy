/** Small facts about exact real arithmetic shared by the calculators. */
module RealOps {

  function Abs(x: real): (r: real)
    ensures 0.0 <= r
  {
    if x < 0.0 then -x else x
  }

  /** `x` lies on the closed segment between `a` and `b`, in either order. */
  predicate Between(a: real, b: real, x: real)
  {
    (a <= x <= b) || (b <= x <= a)
  }

  /** How many multiples of `eps` fit in `width`: the bisection's termination measure. */
  ghost function Units(width: real, eps: real): nat
    requires 0.0 <= width && 0.0 < eps
  {
    (width / eps).Floor
  }

  /** Halving a width larger than `eps` strictly lowers the number of `eps` units in it. */
  lemma HalvingShrinks(width: real, eps: real)
    requires 0.0 < eps < width
    ensures Units(width / 2.0, eps) < Units(width, eps)
  {
    var q := width / eps;
    assert q > 1.0 by {
      assert width == q * eps;
    }
    assert (width / 2.0) / eps == q / 2.0;
    assert q.Floor >= 1;
    assert (q / 2.0).Floor as real <= q / 2.0;
    assert q.Floor as real > q - 1.0;
  }

  /** 0 <= x * rate <= top * x whenever 0 <= x and 0 <= rate <= top. */
  lemma ScaleBound(x: real, rate: real, top: real)
    requires 0.0 <= x && 0.0 <= rate <= top
    ensures 0.0 <= x * rate <= top * x
  {
    assert top * x - x * rate == x * (top - rate);
  }
}
