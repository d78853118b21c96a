/** Little-endian multi-precision numbers: sequences of 64-bit words and the
    natural number they stand for. */
module Words {
  const BASE: nat := 0x1_0000_0000_0000_0000

  type word = x: nat | x < BASE

  /** BASE to the power n. */
  ghost function Pow(n: nat): (p: nat)
    ensures p >= 1
  {
    if n == 0 then 1 else BASE * Pow(n - 1)
  }

  /** The number a word sequence stands for, least significant word first. */
  ghost function Val(s: seq<word>): nat {
    if s == [] then 0 else s[0] + BASE * Val(s[1..])
  }

  lemma {:induction false} PowAdd(m: nat, n: nat)
    ensures Pow(m + n) == Pow(m) * Pow(n)
  {
    if m == 0 {
    } else {
      PowAdd(m - 1, n);
      assert Pow(m + n) == BASE * (Pow(m - 1) * Pow(n)) == Pow(m) * Pow(n);
    }
  }

  lemma {:induction false} ValConcat(s: seq<word>, t: seq<word>)
    ensures Val(s + t) == Val(s) + Val(t) * Pow(|s|)
  {
    if s == [] {
      assert s + t == t;
    } else {
      assert (s + t)[1..] == s[1..] + t;
      ValConcat(s[1..], t);
      ConcatStep(s[0], Val(s[1..]), Val(t), Pow(|s| - 1));
    }
  }

  lemma ConcatStep(x: nat, low: nat, high: nat, p: nat)
    ensures x + BASE * (low + high * p) == x + BASE * low + high * (BASE * p)
  {
  }

  lemma ValSingle(x: word)
    ensures Val([x]) == x
  {
    assert [x][1..] == [];
  }

  /** Taking one more word of s adds that word at its place. */
  lemma ValSnoc(s: seq<word>, j: nat)
    requires j < |s|
    ensures Val(s[..j + 1]) == Val(s[..j]) + s[j] * Pow(j)
  {
    assert s[..j + 1] == s[..j] + [s[j]];
    ValConcat(s[..j], [s[j]]);
    ValSingle(s[j]);
  }

  /** Cutting a number at word k. */
  lemma ValSplit(s: seq<word>, k: nat)
    requires k <= |s|
    ensures Val(s) == Val(s[..k]) + Val(s[k..]) * Pow(k)
  {
    assert s == s[..k] + s[k..];
    ValConcat(s[..k], s[k..]);
  }

  lemma {:induction false} ValBound(s: seq<word>)
    ensures Val(s) < Pow(|s|)
  {
    if s == [] {
    } else {
      ValBound(s[1..]);
      assert Val(s[1..]) + 1 <= Pow(|s| - 1);
    }
  }

  /** Replacing word k by v moves the number by the difference at place k. */
  lemma ValUpdate(s: seq<word>, k: nat, v: word)
    requires k < |s|
    ensures Val(s[k := v]) == Val(s) + (v - s[k]) * Pow(k)
  {
    var t := s[k := v];
    ValSplit(s, k + 1);
    ValSplit(t, k + 1);
    ValSnoc(s, k);
    ValSnoc(t, k);
    assert t[..k] == s[..k] && t[k + 1..] == s[k + 1..];
    assert v * Pow(k) - s[k] * Pow(k) == (v - s[k]) * Pow(k);
  }

  lemma {:induction false} ValZeros(s: seq<word>)
    requires forall i :: 0 <= i < |s| ==> s[i] == 0
    ensures Val(s) == 0
  {
    if s != [] {
      ValZeros(s[1..]);
    }
  }

  /** A number whose upper words are zero is the number of its lower words. */
  lemma ValTrim(s: seq<word>, k: nat)
    requires k <= |s|
    requires forall i :: k <= i < |s| ==> s[i] == 0
    ensures Val(s) == Val(s[..k])
  {
    ValSplit(s, k);
    ValZeros(s[k..]);
  }

  /** Two numbers of one length are equal only if all their words are. */
  lemma {:induction false} ValInjective(s: seq<word>, t: seq<word>)
    requires |s| == |t| && Val(s) == Val(t)
    ensures s == t
  {
    if s != [] {
      assert s[0] == Val(s) % BASE == t[0];
      ValInjective(s[1..], t[1..]);
      assert s == [s[0]] + s[1..] && t == [t[0]] + t[1..];
    }
  }

  lemma MulLe(a: nat, b: nat, c: nat)
    requires b <= c
    ensures a * b <= a * c && b * a <= c * a
  {
    assert a * c - a * b == a * (c - b) >= 0;
  }

  lemma MulNat(a: nat, b: nat)
    ensures a * b >= 0
  {
  }

  lemma MulLt(a: nat, b: nat, c: nat)
    requires b < c && a > 0
    ensures a * b < a * c && b * a < c * a
  {
    assert a * c - a * b == a * (c - b) > 0;
  }

  /** Associativity and distribution, in the shape the row proofs use them. */
  lemma PlaceSum(x: int, u: int, y: int, p: int, q: int)
    ensures x * (u + y * p) * q == x * u * q + x * y * (q * p)
  {
    assert x * (u + y * p) == x * u + x * y * p;
    assert x * y * p * q == x * y * (q * p);
  }

  lemma PlaceShift(u: int, y: int, p: int, q: int, r: int)
    requires r == q * p
    ensures (u + y * p) * q == u * q + y * r
  {
    assert (u + y * p) * q == u * q + y * p * q;
  }

  lemma PlaceRow(u: int, y: int, p: int, z: int)
    ensures (u + y * p) * z == u * z + y * z * p
  {
    assert (u + y * p) * z == u * z + y * p * z;
  }

  /** A word and its outgoing carry, moved to place p together. */
  lemma PlaceMac(v: int, t: int, c': int, s: int, c: int, p: int)
    requires v + BASE * c' == t + s + c
    ensures (v - t) * p + c' * (BASE * p) == s * p + c * p
  {
    assert (v - t) * p + c' * (BASE * p) == (v - t + BASE * c') * p;
    assert (s + c) * p == s * p + c * p;
  }

  lemma PlaceBorrow(d: int, a: int, b: int, c: int, c': int, p: int)
    requires d + b + c == a + BASE * c'
    ensures d * p + b * p + c * p == a * p + c' * (BASE * p)
  {
    assert d * p + b * p + c * p == (d + b + c) * p;
    assert a * p + c' * (BASE * p) == (a + BASE * c') * p;
  }

  /** Writing v at word k, with carry c' out of s + c, changes the number by s
      and turns the carry c at place k into c' at place k + 1. */
  lemma WriteWord(t: seq<word>, k: nat, v: word, s: int, c: int, c': int)
    requires k < |t| && v + BASE * c' == t[k] + s + c
    ensures Val(t[k := v]) + c' * Pow(k + 1) == Val(t) + s * Pow(k) + c * Pow(k)
  {
    ValUpdate(t, k, v);
    PlaceMac(v, t[k], c', s, c, Pow(k));
  }

  lemma PlaceBound(x: nat, p: nat)
    requires x * p < BASE * p
    ensures x < BASE
  {
    if x >= BASE {
      MulLe(p, BASE, x);
      assert false;
    }
  }

  lemma WordProduct(x: word, y: word)
    ensures x * y <= (BASE - 1) * (BASE - 1)
  {
    MulLe(x, y, BASE - 1);
    MulLe(BASE - 1, x, BASE - 1);
  }

  /** Two words, the low one first. */
  lemma TwoWordNumber(low: word, high: word)
    ensures Val([low, high]) == low + 0x1_0000_0000_0000_0000 * high
  {
    assert [low, high][1..] == [high];
    ValSingle(high);
  }
}
