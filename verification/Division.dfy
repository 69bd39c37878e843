/** Facts about quotients and remainders of natural numbers. */
module Division {

  lemma DivisionBounds(x: nat, n: nat)
    requires n >= 1
    ensures 0 <= x - n * (x / n) < n
    ensures n * (x / n) + x % n == x
  {
  }

  lemma MulLe(k: nat, a: int, b: int)
    requires a <= b
    ensures k * a <= k * b
  {
  }

  /** Quotients are unique. */
  lemma QuotientUnique(x: nat, n: nat, q: nat)
    requires n >= 1 && n * q <= x < n * q + n
    ensures x / n == q && x % n == x - n * q
  {
    DivisionBounds(x, n);
    var d := x / n - q;
    assert n * (x / n) - n * q == n * d;
    if d >= 1 { MulLe(n, 1, d); }
    if d <= -1 { MulLe(n, d, -1); }
  }

  /** Adding k to a residue moves it by k, modulo n. */
  lemma ModShift(x: nat, k: nat, n: nat)
    requires n >= 1
    ensures (x % n + k) % n == (x + k) % n
  {
    DivisionBounds(x, n);
    var y := x % n + k;
    DivisionBounds(y, n);
    assert n * (x / n + y / n) == n * (x / n) + n * (y / n);
    QuotientUnique(x + k, n, x / n + y / n);
  }

  /** Two numbers fewer than n apart with the same residue are equal. */
  lemma ModWindow(a: nat, b: nat, n: nat)
    requires n >= 1 && a % n == b % n && a <= b < a + n
    ensures a == b
  {
    DivisionBounds(a, n);
    DivisionBounds(b, n);
    var d := b / n - a / n;
    assert n * (b / n) - n * (a / n) == n * d;
    assert b - a == n * d;
    if d >= 1 { MulLe(n, 1, d); }
  }
}
