// A few facts about products and Euclidean quotients.
module Arithmetic {

  lemma MulMonotone(a: int, b: int, k: int)
    requires a <= b && 0 <= k
    ensures a * k <= b * k && k * a <= k * b
  {
    assert (b - a) * k >= 0;
  }

  lemma QuotientUnique(b: int, q: int, r: int, q': int, r': int)
    requires b > 0 && b * q + r == b * q' + r' && 0 <= r < b && 0 <= r' < b
    ensures q == q' && r == r'
  {
    assert b * (q + 1) == b * q + b && b * (q' + 1) == b * q' + b;
    if q < q' {
      MulMonotone(q + 1, q', b);
    } else if q' < q {
      MulMonotone(q' + 1, q, b);
    }
  }

  lemma DivMod(a: int, b: int)
    requires b > 0
    ensures a == b * (a / b) + a % b && 0 <= a % b < b
  {
  }

  // Quotient and remainder are determined by a == b * q + r.
  lemma DivIs(a: int, b: int, q: int, r: int)
    requires b > 0 && a == b * q + r && 0 <= r < b
    ensures a / b == q && a % b == r
  {
    DivMod(a, b);
    QuotientUnique(b, q, r, a / b, a % b);
  }

  lemma QuotientBelow(x: int, b: int, n: int)
    requires b > 0 && 0 <= x < b * n
    ensures 0 <= x / b < n
  {
    DivMod(x, b);
    var q := x / b;
    if q < 0 {
      MulMonotone(q, -1, b);
    }
    if n <= q {
      MulMonotone(n, q, b);
    }
  }

  // x lies in the k-th stretch of b numbers exactly when its quotient is k.
  lemma Stretch(x: int, b: int, k: int)
    requires b > 0
    ensures k * b <= x < (k + 1) * b <==> x / b == k
  {
    DivMod(x, b);
    assert (k + 1) * b == k * b + b && k * b == b * k;
    if k * b <= x < (k + 1) * b {
      DivIs(x, b, k, x - b * k);
    }
  }
}
