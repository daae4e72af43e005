/** Division with remainder by a variable divisor. */
module Arithmetic {

  lemma DivOf(q: int, d: int, r: int)
    requires 0 <= r < d
    ensures (q * d + r) / d == q
  {
    var x := q * d + r;
    var e := q - x / d;
    assert x == (x / d) * d + x % d;
    assert e * d == x % d - r;
    assert e <= -1 ==> e * d <= -d;
    assert e >= 1 ==> e * d >= d;
  }

  lemma NextRemainder(k: nat, n: nat)
    requires n > 0
    ensures (k + 1) % n == if k % n + 1 == n then 0 else k % n + 1
  {
    var r := if k % n + 1 == n then 0 else k % n + 1;
    var q := if k % n + 1 == n then k / n + 1 else k / n;
    assert k + 1 == q * n + r;
    Remainder(q, n, r);
  }

  lemma Remainder(q: int, n: int, r: int)
    requires 0 <= r < n
    ensures (q * n + r) % n == r
  {
    var x := q * n + r;
    var d := q - x / n;
    assert x == (x / n) * n + x % n;
    assert d * n == x % n - r;
    assert d <= -1 ==> d * n <= -n;
    assert d >= 1 ==> d * n >= n;
  }
}
