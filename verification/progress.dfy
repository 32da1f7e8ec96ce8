/** The progress percentage reported after each successfully re-encoded image:
    `int((i + 1) / total * 100)` for the candidate at index `i` of `total`. */
module Progress {

  /** The percentage, computed exactly as the floor of (i + 1) * 100 / total.
      It never exceeds 100 and reaches 100 exactly at the last candidate. */
  function Percent(i: nat, total: nat): (p: int)
    requires i < total
    ensures 0 <= p <= 100
    ensures p == 100 <==> i == total - 1
  {
    MulMonotone(i + 1, total, 100);
    QuotientBound((i + 1) * 100, total, 100);
    (i + 1) * 100 / total
  }

  /** Multiplying by a natural number keeps the order. */
  lemma {:induction false} MulMonotone(a: int, b: int, c: nat)
    requires a <= b
    ensures a * c <= b * c
  {
    if c > 0 {
      MulMonotone(a, b, c - 1);
      assert a * c == a * (c - 1) + a;
      assert b * c == b * (c - 1) + b;
    }
  }

  /** With a positive factor, the products are ordered exactly as the
      multiplicands. */
  lemma MulOrder(a: int, b: int, c: nat)
    requires c > 0
    ensures a <= b <==> a * c <= b * c
  {
    if a <= b {
      MulMonotone(a, b, c);
    } else {
      MulMonotone(b + 1, a, c);
      assert (b + 1) * c == b * c + c;
    }
  }

  /** Integer division by a positive divisor: a numerator of at most `q * d`
      gives a quotient of at most `q`, and exactly `q` only for `q * d` itself. */
  lemma QuotientBound(n: nat, d: nat, q: nat)
    requires d > 0 && n <= q * d
    ensures n / d <= q
    ensures n / d == q <==> n == q * d
  {
    var r, m := n / d, n % d;
    assert n == r * d + m && 0 <= m < d;
    assert (q + 1) * d == q * d + d && (r + 1) * d == r * d + d;
    MulOrder(q + 1, r, d);
    MulOrder(r + 1, q, d);
  }

  /** Later candidates never report a smaller percentage. */
  lemma PercentMonotone(i: nat, j: nat, total: nat)
    requires i <= j < total
    ensures Percent(i, total) <= Percent(j, total)
  {
    var a, b := (i + 1) * 100, (j + 1) * 100;
    var ra, rb := a / total, b / total;
    assert a == ra * total + a % total && b == rb * total + b % total;
    assert (rb + 1) * total == rb * total + total;
    MulOrder(rb + 1, ra, total);
  }

  /** The percentage is at least 1 exactly when (i + 1) * 100 reaches `total`;
      with 100 candidates or fewer every event reports at least 1. */
  lemma PercentPositive(i: nat, total: nat)
    requires i < total
    ensures Percent(i, total) >= 1 <==> (i + 1) * 100 >= total
    ensures total <= 100 ==> Percent(i, total) >= 1
  {
    var n := (i + 1) * 100;
    var r := n / total;
    assert n == r * total + n % total;
    MulOrder(1, r, total);
  }
}


