/** Which bases the Miller-Rabin test tries, in numbers, and that they reject a
    composite number that the first two primes as bases would not. */
module PrimalityBases {
  import opened Words
  import opened Bitwise
  import opened Modular
  import opened NumberTheory
  import opened Primality

  /** From one base to the next, for every number that is tested. */
  lemma BaseStep(n: nat, k: nat)
    requires 4 < n < 0x1_0000_0000_0000_0000
    ensures TestBase(n, 0) == 2
    ensures var x := (n % 0x1_0000 + (TestBase(n, k) - 2) + 0x618E9735) % 0x1_0000_0000 % (n - 4);
      TestBase(n, k + 1) == if x == 0 then 3 else 2 + x
  {
    var a := TestBase(n, k);
    LowHalfOf(n % 0x1_0000 + (a - 2) + 0x618E9735);
  }

  lemma LowHalfOf(x: nat)
    ensures x % BASE % 0x1_0000_0000 == x % 0x1_0000_0000
  {
    var q, r := x / BASE, x % BASE;
    DivSplit(x, BASE);
    Congruent(x, r, q * 0x1_0000_0000, 0x1_0000_0000);
  }

  /** The second base. */
  lemma SecondBase(n: nat)
    requires 4 < n < 0x1_0000_0000_0000_0000
    ensures var x := (n % 0x1_0000 + 0x618E9735) % (n - 4);
      TestBase(n, 1) == if x == 0 then 3 else 2 + x
  {
    BaseStep(n, 0);
    DivModUnique(n % 0x1_0000 + 0x618E9735, 0, n % 0x1_0000 + 0x618E9735, 0x1_0000_0000);
  }

  /** How often the multiples of the step have passed 2 to the 32. */
  function Passed(k: nat): nat
    requires k < 10
  {
    if k <= 2 then 0 else if k <= 5 then 1 else if k <= 7 then 2 else 3
  }

  lemma StepMultiple(c: nat, k: nat)
    requires 0x618E9735 <= c < 0x618E9735 + 0x1_0000 && k < 10
    ensures (k * c) % 0x1_0000_0000 == k * c - Passed(k) * 0x1_0000_0000
    ensures k > 0 ==> 0 < k * c - Passed(k) * 0x1_0000_0000 < 0x1_0000_0000
  {
    if k == 0 {} else if k == 1 {} else if k == 2 {} else if k == 3 {} else if k == 4 {}
    else if k == 5 {} else if k == 6 {} else if k == 7 {} else if k == 8 {} else {}
    DivModUnique(k * c, Passed(k), k * c - Passed(k) * 0x1_0000_0000, 0x1_0000_0000);
  }

  /** For large numbers the bases are an arithmetic progression modulo 2 to the 32. */
  lemma {:induction false} LargeBases(n: nat, k: nat)
    requires 0x1_0000_0004 <= n < 0x1_0000_0000_0000_0000 && k < 10
    ensures TestBase(n, k) == 2 + (k * (n % 0x1_0000 + 0x618E9735)) % 0x1_0000_0000
  {
    var c := n % 0x1_0000 + 0x618E9735;
    StepMultiple(c, k);
    if k > 0 {
      LargeBases(n, k - 1);
      BaseStep(n, k - 1);
      StepMultiple(c, k - 1);
      NextMultiple(c, k, n - 4);
    }
  }

  lemma NextMultiple(c: nat, k: nat, m: nat)
    requires k > 0 && m >= 0x1_0000_0000 && c < 0x1_0000_0000
    ensures (c + ((k - 1) * c) % 0x1_0000_0000) % 0x1_0000_0000 % m == (k * c) % 0x1_0000_0000
  {
    var x, w := (k - 1) * c, 0x1_0000_0000;
    MulNat(k - 1, c);
    assert k * c == x + c;
    DivSplit(x, w);
    Congruent(x + c, c + x % w, x / w, w);
    DivModUnique((x + c) % w, 0, (x + c) % w, m);
  }

  /** So the ten bases are different. */
  lemma BasesDiffer(n: nat, j: nat, k: nat)
    requires 0x1_0000_0004 <= n < 0x1_0000_0000_0000_0000 && j < k < 10
    ensures TestBase(n, j) != TestBase(n, k)
  {
    LargeBases(n, j);
    LargeBases(n, k);
    var c := n % 0x1_0000 + 0x618E9735;
    StepMultiple(c, j);
    StepMultiple(c, k);
    hide TestBase;
    MultiplesDiffer(c, j, k);
  }

  lemma MultiplesDiffer(c: nat, j: nat, k: nat)
    requires 0x618E9735 <= c < 0x618E9735 + 0x1_0000 && j < k < 10
    ensures j * c - Passed(j) * 0x1_0000_0000 != k * c - Passed(k) * 0x1_0000_0000
  {
    assert k * c - j * c == (k - j) * c;
    var d, p := k - j, Passed(k) - Passed(j);
    assert 0 <= p <= 3;
    if d == 1 {} else if d == 2 {} else if d == 3 {} else if d == 4 {}
    else if d == 5 {} else if d == 6 {} else if d == 7 {} else if d == 8 {} else {}
  }

  // ---- A composite number ----

  /** Squaring, and one more factor for an odd exponent. */
  lemma PowerStep(a: int, e: nat, x: int, odd: bool, y: int, n: int)
    requires n > 0 && Power(a, e) % n == x
    requires (if odd then x * x * a else x * x) % n == y
    ensures Power(a, if odd then 2 * e + 1 else 2 * e) % n == y
  {
    var p := Power(a, e);
    PowerAdd(a, e, e);
    assert e + e == 2 * e;
    ModMod(p, n);
    MulCongruent(p, x, p, x, n);
    if odd {
      MulCongruent(p * p, x * x, a, a, n);
      assert Power(a, 2 * e + 1) == a * Power(a, 2 * e);
    }
  }

  /** 1373653 is 829 times 1657, and its second base shows that it is composite. */
  lemma SecondBaseRejects()
    ensures 829 * 1657 == 1373653 && TestBase(1373653, 1) == 781749
    ensures !StrongProbablePrime(1373653, TestBase(1373653, 1), OddPart(1373652), TrailingZeros(1373652))
  {
    hide *;
    SecondBaseOfIt();
    OddPartOfIt();
    SecondBasePower();
    SquaresOfIt();
    NeverMinusOne(1373653, 781749, 343413);
  }

  lemma SecondBaseOfIt()
    ensures TestBase(1373653, 1) == 781749
  {
    hide TestBase;
    SecondBase(1373653);
  }

  lemma OddPartOfIt()
    ensures OddPart(1373652) == 343413 && TrailingZeros(1373652) == 2
  {
    assert OddPart(343413) == 343413 && OddPart(686826) == 343413;
    assert TrailingZeros(343413) == 0 && TrailingZeros(686826) == 1;
  }

  lemma SquaresOfIt()
    requires Power(781749, 343413) % 1373653 == 793599
    ensures Squared(1373653, 781749, 343413, 0) == 793599 && Squared(1373653, 781749, 343413, 1) == 77096
  {
    hide *;
    SquaredFirst(1373653, 781749, 343413);
    SquareOnce(1373653, 781749, 343413, 793599, 77096);
  }

  lemma SquareOnce(n: nat, a: nat, d: nat, x: nat, y: nat)
    requires n > 0 && Squared(n, a, d, 0) == x && (x * x) % n == y
    ensures Squared(n, a, d, 1) == y
  {
    hide *;
    SquaredNext(n, a, d, 0);
  }

  lemma SquaredFirst(n: nat, a: nat, d: nat)
    requires n > 0
    ensures Squared(n, a, d, 0) == Power(a, d) % n
  {
    hide Power;
    assert Pow2(0) == 1 && d * 1 == d;
  }

  lemma NeverMinusOne(n: nat, a: nat, d: nat)
    requires n > 0 && Squared(n, a, d, 0) != 1 && Squared(n, a, d, 0) != n - 1 && Squared(n, a, d, 1) != n - 1
    ensures !StrongProbablePrime(n, a, d, 2)
  {
    hide Squared;
  }

  lemma FirstPowers()
    requires Power(781749, 1) % 1373653 == 781749
    ensures Power(781749, 83) % 1373653 == 367906
  {
    hide Power;
    PowerStep(781749, 1, 781749, false, 147566, 1373653);
    PowerStep(781749, 2, 147566, true, 1363737, 1373653);
    PowerStep(781749, 5, 1363737, false, 797693, 1373653);
    PowerStep(781749, 10, 797693, false, 964018, 1373653);
    PowerStep(781749, 20, 964018, true, 1146228, 1373653);
    PowerStep(781749, 41, 1146228, true, 367906, 1373653);
  }

  lemma MiddlePowers()
    requires Power(781749, 83) % 1373653 == 367906
    ensures Power(781749, 5365) % 1373653 == 249704
  {
    hide Power;
    PowerStep(781749, 83, 367906, true, 897577, 1373653);
    PowerStep(781749, 167, 897577, true, 1362564, 1373653);
    PowerStep(781749, 335, 1362564, false, 710804, 1373653);
    PowerStep(781749, 670, 710804, true, 1344827, 1373653);
    PowerStep(781749, 1341, 1344827, false, 1251864, 1373653);
    PowerStep(781749, 2682, 1251864, true, 249704, 1373653);
  }

  lemma LastPowers()
    requires Power(781749, 5365) % 1373653 == 249704
    ensures Power(781749, 343413) % 1373653 == 793599
  {
    hide Power;
    PowerStep(781749, 5365, 249704, true, 687145, 1373653);
    PowerStep(781749, 10731, 687145, true, 1046392, 1373653);
    PowerStep(781749, 21463, 1046392, false, 158670, 1373653);
    PowerStep(781749, 42926, 158670, true, 1036516, 1373653);
    PowerStep(781749, 85853, 1036516, false, 1186590, 1373653);
    PowerStep(781749, 171706, 1186590, true, 793599, 1373653);
  }

  lemma SecondBasePower()
    ensures Power(781749, 343413) % 1373653 == 793599
  {
    assert Power(781749, 1) == 781749 * Power(781749, 0) == 781749;
    hide Power;
    FirstPowers();
    MiddlePowers();
    LastPowers();
  }

  /** So the verdict on it is right, although it lies above the table. */
  method RejectsComposite() returns (r: bool)
    ensures !r
  {
    r := IsUPrime(1373653, 1024);
    SecondBaseRejects();
  }
}
