/** Congruences, with witnesses kept explicit. */
module Modular {
  lemma NonNegativeFactor(h: int, r: int)
    requires r > 0 && h * r >= 0
    ensures h >= 0
  {
  }

  lemma BelowOne(h: int, r: int)
    requires r > 0 && h * r < r
    ensures h <= 0
  {
    NonNegativeFactor(1 - h, r);
  }

  lemma Below(q: nat, n: nat, p: nat, r: nat)
    requires p >= 1 && q * p + r < p * n
    ensures q < n
  {
    assert (q - n) * p < 0;
    BelowOne(q - n + 1, p);
  }

  /** Quotient and remainder are unique. */
  lemma DivModUnique(x: int, q: int, r: int, n: int)
    requires n > 0 && 0 <= r < n && x == q * n + r
    ensures x / n == q && x % n == r
  {
    var q', r' := x / n, x % n;
    assert (q' - q) * n == r - r' && (q - q') * n == r' - r;
    BelowOne(q' - q, n);
    BelowOne(q - q', n);
  }

  lemma DivSplit(x: int, n: int)
    requires n > 0
    ensures x == x / n * n + x % n && 0 <= x % n < n
  {
  }

  lemma AddMultiple(x: int, k: int, n: int)
    requires n > 0
    ensures (x + k * n) % n == x % n
  {
    assert x + k * n == (x / n + k) * n + x % n;
    DivModUnique(x + k * n, x / n + k, x % n, n);
  }

  /** Equal remainders, read off a witness. */
  lemma Congruent(x: int, y: int, k: int, n: int)
    requires n > 0 && x == y + k * n
    ensures x % n == y % n
  {
    AddMultiple(y, k, n);
  }

  /** A witness, read off equal remainders. */
  lemma Witness(x: int, y: int, n: int) returns (k: int)
    requires n > 0 && x % n == y % n
    ensures x == y + k * n
  {
    k := x / n - y / n;
    assert x == x / n * n + x % n && y == y / n * n + y % n;
    assert k * n == x / n * n - y / n * n;
  }

  lemma Factor(x: int, n: int) returns (k: int)
    requires n > 0 && x % n == 0
    ensures x == k * n
  {
    k := Witness(x, 0, n);
  }

  lemma ModMod(x: int, n: int)
    requires n > 0
    ensures (x % n) % n == x % n
  {
    DivModUnique(x % n, 0, x % n, n);
  }

  lemma MulCongruent(x: int, x': int, y: int, y': int, n: int)
    requires n > 0 && x % n == x' % n && y % n == y' % n
    ensures (x * y) % n == (x' * y') % n
  {
    var j := Witness(x, x', n);
    var k := Witness(y, y', n);
    calc {
      x * y;
      (x' + j * n) * y;
      x' * y + j * y * n;
      x' * (y' + k * n) + j * y * n;
      x' * y' + (x' * k + j * y) * n;
    }
    Congruent(x * y, x' * y', x' * k + j * y, n);
  }
}
