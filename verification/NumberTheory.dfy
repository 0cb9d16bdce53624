/** Arithmetic modulo a prime, as much of it as the proof engine relies on. */
module NumberTheory {

  ghost predicate Divides(d: int, n: int)
    requires d > 0
  {
    n % d == 0
  }

  ghost predicate Prime(n: int) {
    n >= 2 && forall d :: 2 <= d < n ==> !Divides(d, n)
  }

  /** Numbers that differ by a multiple of n leave the same remainder. */
  lemma ModOfSum(x: int, y: int, q: int, n: int)
    requires n > 0 && x == y + q * n
    ensures x % n == y % n
  {
    var r, p := y % n, y / n;
    assert x == r + (p + q) * n;
    QuotientUnique(x, p + q, r, n);
  }

  lemma SmallMultiple(d: int, n: int)
    requires n > 0
    ensures d >= 1 ==> d * n >= n
    ensures d <= -1 ==> d * n <= -n
  {
  }

  lemma QuotientUnique(x: int, q: int, r: int, n: int)
    requires n > 0 && x == r + q * n && 0 <= r < n
    ensures x % n == r && x / n == q
  {
    var q', r' := x / n, x % n;
    assert (q - q') * n == r' - r;
    SmallMultiple(q - q', n);
  }

  function NegatedProduct(q: int, c: int, n: int): (b: int)
    requires n > 0
    ensures 0 <= b < n
  {
    (-q * c) % n
  }

  ghost function DivRem(n: int, a: int): (qr: (int, int))
    requires Prime(n) && 1 < a < n
    ensures n == qr.0 * a + qr.1 && 0 < qr.1 < a
  {
    assert !Divides(a, n);
    (n / a, n % a)
  }

  /** The inverse of a modulo the prime n, by division of n by a. */
  ghost function Inverse(a: int, n: int): (b: int)
    requires Prime(n) && 0 < a < n
    ensures 0 <= b < n && (a * b) % n == 1
    decreases a
  {
    if a == 1 then 1
    else
      var (q, r) := DivRem(n, a);
      var c := Inverse(r, n);
      InverseStep(a, n, q, r, c);
      NegatedProduct(q, c, n)
  }

  lemma InverseStep(a: int, n: int, q: int, r: int, c: int)
    requires n >= 2 && n == q * a + r && (r * c) % n == 1
    ensures (a * NegatedProduct(q, c, n)) % n == 1
  {
    var m := (-q * c) / n;
    var b := NegatedProduct(q, c, n);
    calc {
      a * b;
      a * (-q * c - m * n);
      -(q * a) * c - a * m * n;
      (r - n) * c - a * m * n;
      r * c + (-c - a * m) * n;
    }
    ModOfSum(a * b, r * c, -c - a * m, n);
  }

  /** Sum and difference of two remainders. */
  lemma SumOfRemainders(k: nat, m: nat, n: nat)
    requires k < n && m < n
    ensures (k + m) % n == if k + m < n then k + m else k + m - n
    ensures (k + (n - m)) % n == if k >= m then k - m else k + n - m
  {
    QuotientUnique(k + m, if k + m < n then 0 else 1, if k + m < n then k + m else k + m - n, n);
    QuotientUnique(k + (n - m), if k >= m then 1 else 0, if k >= m then k - m else k + n - m, n);
  }
}
