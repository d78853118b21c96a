/** Modular exponentiation, the prime sieve, the Miller-Rabin test and the
    primality verdict that dispatches to them. */
module Primality {
  import opened Words
  import opened Bitwise
  import opened Modular
  import opened NumberTheory

  /** Product of two residues, in 128-bit arithmetic. */
  method ModMul64(a: word, b: word, mod: word) returns (r: word)
    requires mod > 0
    ensures r == (a * b) % mod
  {
    MulNat(a, b);
    r := a * b % mod;
  }

  /** One bit of the exponent: x to the power e, times result, is unchanged. */
  lemma ExpoStep(result: int, base: int, e: nat, n: int)
    requires n > 0 && e > 0
    ensures (result * Power(base, e)) % n
         == ((if e % 2 == 1 then (result * base) % n else result) * Power((base * base) % n, e / 2)) % n
  {
    var h, q, s := e / 2, base * base, (base * base) % n;
    PowerSquare(base, h);
    ModMod(q, n);
    ModMod(result * base, n);
    PowerCongruent(q, s, h, n);
    if e % 2 == 1 {
      assert result * (base * Power(base, 2 * h)) == (result * base) * Power(q, h);
      MulCongruent(result * base, (result * base) % n, Power(q, h), Power(s, h), n);
    } else {
      MulCongruent(result, result, Power(q, h), Power(s, h), n);
    }
  }

  /** Square and multiply. A zero exponent gives 1 even modulo 1. */
  method ModExpo64(base0: word, exp0: word, mod: word) returns (result: word)
    requires mod > 0
    ensures exp0 > 0 ==> result == Power(base0, exp0) % mod
    ensures exp0 == 0 ==> result == 1
  {
    result := 1;
    var base, exp: nat := base0 % mod, exp0;
    ModMod(base0, mod);
    PowerCongruent(base0, base, exp, mod);
    while exp != 0
      invariant 0 <= base < mod
      invariant (result * Power(base, exp)) % mod == Power(base0, exp0) % mod
      invariant exp0 == 0 ==> result == 1
      invariant exp == 0 && exp0 > 0 ==> result < mod
      invariant exp == 0 || exp0 > 0
    {
      ExpoStep(result, base, exp, mod);
      if exp % 2 == 1 {
        result := ModMul64(result, base, mod);
      }
      base := ModMul64(base, base, mod);
      exp := exp / 2;
    }
    if exp0 > 0 {
      DivModUnique(result, 0, result, mod);
    }
  }

  /** No number from 2 up to below i whose square is at most j divides j. */
  ghost predicate NoSmallDivisor(j: nat, i: nat) {
    forall p :: 2 <= p < i && p * p <= j ==> !Divides(p, j)
  }

  /** Trial division up to the square root decides primality. */
  lemma NoSmallDivisorIsPrime(n: nat, i: nat)
    requires 2 <= n <= i
    ensures NoSmallDivisor(n, i) <==> IsPrime(n)
  {
    if NoSmallDivisor(n, i) {
      forall d | 2 <= d < n
        ensures !Divides(d, n)
      {
        if Divides(d, n) {
          var e := Factor(n, d);
          CofactorBounds(n, d, e);
          if d * d > n {
            MultipleDivides(e, d);
            assert false;
          }
        }
      }
    } else {
      var p :| 2 <= p < i && p * p <= n && Divides(p, n);
      MulLe(p, 2, p);
    }
  }

  lemma CofactorBounds(n: nat, d: nat, e: int)
    requires n == e * d && 2 <= d < n
    ensures 2 <= e < n && (d * d > n ==> e * e <= n)
  {
    NonNegativeFactor(e, d);
    if e <= 1 {
      MulLe(d, e, 1);
      assert false;
    }
    MulLt(e, 1, d);
    if d * d > n {
      if e >= d {
        MulLe(d, d, e);
        assert false;
      }
      MulLe(e, e, d);
    }
  }

  /** A composite number marks nothing a smaller divisor has not marked. */
  lemma CompositeMarksNothing(j: nat, i: nat)
    requires i >= 2 && !NoSmallDivisor(i, i)
    ensures NoSmallDivisor(j, i) <==> NoSmallDivisor(j, i + 1)
  {
    if NoSmallDivisor(j, i) && i * i <= j && Divides(i, j) {
      var p :| 2 <= p < i && p * p <= i && Divides(p, i);
      DividesTransitive(p, i, j);
      MulLe(i, 1, i);
      assert false;
    }
  }

  /** The sieve over all numbers below limit, read at n. It never clears 1. */
  method IsPrimeTable(n: nat, limit: nat) returns (r: bool)
    requires n < limit
    ensures r <==> n == 1 || IsPrime(n)
  {
    var primes := new bool[64 * ((limit + 63) / 64)];
    for i := 0 to primes.Length
      invariant forall k :: 0 <= k < i ==> primes[k]
    {
      primes[i] := true;
    }
    primes[0] := false;
    var i := 2;
    while i < limit
      invariant 2 <= i <= if limit < 2 then 2 else limit
      invariant !primes[0]
      invariant forall k :: 1 <= k < limit ==> (primes[k] <==> NoSmallDivisor(k, i))
    {
      if primes[i] {
        MarkMultiples(primes, i, limit);
      } else {
        forall k | 1 <= k < limit
          ensures NoSmallDivisor(k, i) <==> NoSmallDivisor(k, i + 1)
        {
          CompositeMarksNothing(k, i);
        }
      }
      i := i + 1;
    }
    r := primes[n];
    if n >= 2 {
      NoSmallDivisorIsPrime(n, i);
    }
  }

  /** Clears i * i and every further multiple of i below limit. */
  method MarkMultiples(primes: array<bool>, i: nat, limit: nat)
    requires 2 <= i < limit <= primes.Length
    modifies primes
    ensures forall k :: 0 <= k < limit ==> (primes[k] <==> old(primes[k]) && !(i * i <= k && Divides(i, k)))
  {
    var j, m := i * i, i;
    while j < limit
      invariant j == m * i && m >= i
      invariant forall k :: 0 <= k < limit ==> (primes[k] <==> old(primes[k]) && !(i * i <= k < j && Divides(i, k)))
      decreases limit - j
    {
      MultipleDivides(i, m);
      forall k | j < k < j + i
        ensures !Divides(i, k)
      {
        DivModUnique(k, m, k - j, i);
      }
      primes[j] := false;
      j, m := j + i, m + 1;
    }
  }

  /** The shift that drops the low zero bits. */
  function OddPart(d: nat): (o: nat)
    requires d > 0
    ensures o > 0
  {
    if d % 2 == 1 then d else OddPart(d / 2)
  }

  lemma Double(x: int, y: int)
    ensures x * (2 * y) == 2 * (x * y)
  {
  }

  lemma {:induction false} OddPartSplit(d: nat)
    requires d > 0
    ensures d == OddPart(d) * Pow2(TrailingZeros(d)) && OddPart(d) % 2 == 1
  {
    if d % 2 == 0 {
      OddPartSplit(d / 2);
      Double(OddPart(d / 2), Pow2(TrailingZeros(d / 2)));
    }
  }

  /** The base a squared j times from its d-th power, modulo n. */
  ghost function Squared(n: nat, a: nat, d: nat, j: nat): nat
    requires n > 0
  {
    MulNat(d, Pow2(j));
    Power(a, d * Pow2(j)) % n
  }

  /** n is a strong probable prime to base a. */
  ghost predicate StrongProbablePrime(n: nat, a: nat, d: nat, r: nat)
    requires n > 0
  {
    Squared(n, a, d, 0) == 1 || exists j :: 0 <= j < r && Squared(n, a, d, j) == n - 1
  }

  lemma SquaredNext(n: nat, a: nat, d: nat, j: nat)
    requires n > 0
    ensures Squared(n, a, d, j + 1) == (Squared(n, a, d, j) * Squared(n, a, d, j)) % n
  {
    MulNat(d, Pow2(j));
    var e := d * Pow2(j);
    var x := Power(a, e);
    assert d * Pow2(j + 1) == e + e;
    PowerAdd(a, e, e);
    ModMod(x, n);
    MulCongruent(x, x % n, x, x % n, n);
  }

  /** From 1 at step j down: without meeting n - 1, every square root is 1. */
  lemma {:induction false} RootsAreOne(n: nat, a: nat, d: nat, j: nat)
    requires IsPrime(n) && Squared(n, a, d, j) == 1
    requires forall i :: 0 <= i < j ==> Squared(n, a, d, i) != n - 1
    ensures Squared(n, a, d, 0) == 1
  {
    if j > 0 {
      var x := Squared(n, a, d, j - 1);
      SquaredNext(n, a, d, j - 1);
      if x == 0 {
        DivModUnique(0, 0, 0, n);
        assert false;
      }
      SquareRootOfOne(n, x);
      RootsAreOne(n, a, d, j - 1);
    }
  }

  /** Every prime is a strong probable prime to every base below it. */
  lemma PrimePasses(n: nat, a: nat, d: nat, r: nat)
    requires IsPrime(n) && 0 < a < n && n - 1 == d * Pow2(r)
    ensures StrongProbablePrime(n, a, d, r)
  {
    SmallNotMultiple(n, a);
    Fermat(n, a);
    if forall i :: 0 <= i < r ==> Squared(n, a, d, i) != n - 1 {
      RootsAreOne(n, a, d, r);
    }
  }

  /** One Miller-Rabin round decides strong probable primality to its base. */
  method Round(n: word, a: word, d: word, r: nat) returns (passed: bool)
    requires n > 2 && r > 0 && d > 0
    ensures passed <==> StrongProbablePrime(n, a, d, r)
  {
    var nm1: word := n - 1;
    var x := ModExpo64(a, d, n);
    assert x == Squared(n, a, d, 0);
    passed := true;
    if x != 1 && x != nm1 {
      var composite := true;
      var j := 0;
      while j < r - 1
        invariant 0 <= j <= r - 1
        invariant x == Squared(n, a, d, j)
        invariant forall i :: 0 <= i <= j ==> Squared(n, a, d, i) != nm1
      {
        SquaredNext(n, a, d, j);
        assert Power(x, 2) == x * (x * Power(x, 0)) == x * x;
        x := ModExpo64(x, 2, n);
        if x == nm1 {
          composite := false;
          break;
        }
        j := j + 1;
      }
      passed := !composite;
    }
  }

  const FIRST_HASH_PRIME: word := 0x618E9735

  /** The base after a: between 3 and n - 3, but for n = 5, where it is 3. */
  function NextBase(n: nat, a: nat): (b: nat)
    requires n > 4 && a >= 2
    ensures 3 <= b <= n - 2 && (n >= 6 ==> b <= n - 3)
  {
    var b := 2 + (n % 0x1_0000 + (a - 2) + FIRST_HASH_PRIME) % BASE % 0x1_0000_0000 % (n - 4);
    if b == 2 then 3 else b
  }

  /** The k-th base tried for n. */
  function TestBase(n: nat, k: nat): (b: nat)
    requires n > 4
    ensures 2 <= b <= n - 2 && (n >= 6 ==> b <= n - 3)
  {
    if k == 0 then 2 else NextBase(n, TestBase(n, k - 1))
  }

  lemma TestSetup(n: nat)
    requires n > 4 && n % 2 == 1
    ensures TrailingZeros(n - 1) > 0 && OddPart(n - 1) < n
    ensures n - 1 == OddPart(n - 1) * Pow2(TrailingZeros(n - 1))
  {
    OddPartSplit(n - 1);
    MulLe(OddPart(n - 1), 1, Pow2(TrailingZeros(n - 1)));
  }

  /** The probabilistic test is exactly its rounds, and never rejects a prime. */
  method IsPrimeMaybe(n: word, tests0: nat) returns (result: bool)
    requires n > 4 && n % 2 == 1
    ensures result <==> forall k :: 0 <= k < (if tests0 == 0 then 1 else tests0) ==>
                          StrongProbablePrime(n, TestBase(n, k), OddPart(n - 1), TrailingZeros(n - 1))
    ensures IsPrime(n) ==> result
  {
    var total := if tests0 == 0 then 1 else tests0;
    var d, r := OddPart(n - 1), TrailingZeros(n - 1);
    TestSetup(n);
    var a, tests: nat := 2, total;
    while true
      invariant 1 <= tests <= total && a == TestBase(n, total - tests)
      invariant forall k :: 0 <= k < total - tests ==> StrongProbablePrime(n, TestBase(n, k), d, r)
      decreases tests
    {
      var passed := Round(n, a, d, r);
      if !passed {
        if IsPrime(n) {
          PrimePasses(n, a, d, r);
          assert false;
        }
        return false;
      }
      tests := tests - 1;
      if tests == 0 {
        return true;
      }
      a := NextBase(n, a);
    }
  }

  /** fio_math_is_uprime: no prime is rejected, and below the table limit
      nothing but the primes is accepted. */
  method IsUPrime(n: word, limit: nat) returns (r: bool)
    ensures IsPrime(n) ==> r
    ensures n < limit ==> (r <==> IsPrime(n))
    ensures n < 4 ==> (r <==> n >= 2)
    ensures n >= limit && n >= 4 ==> (r <==> n % 2 == 1 && forall k :: 0 <= k < 10 ==>
      StrongProbablePrime(n, TestBase(n, k), OddPart(n - 1), TrailingZeros(n - 1)))
  {
    if n < 2 {
      return false;
    }
    if n < 4 {
      assert n == 3 ==> !Divides(2, 3);
      return true;
    }
    if n % 2 == 0 {
      assert Divides(2, n);
      return false;
    }
    if n < limit {
      r := IsPrimeTable(n, limit);
    } else {
      r := IsPrimeMaybe(n, 10);
    }
  }
}
