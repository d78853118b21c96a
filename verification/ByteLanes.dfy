/** Words as sequences of bytes, lowest byte first, and what AND, XOR,
    subtraction and complement do to the bytes. */
module ByteLanes {
  import opened Bytes
  import opened Modular
  import opened Bitwise

  /** The word whose bytes are s. */
  function Word(s: seq<byte>): nat {
    if s == [] then 0 else s[0] + 0x100 * Word(s[1..])
  }

  /** One more than the largest word of n bytes. */
  function Bound(n: nat): (b: nat)
    ensures b >= 1
  {
    if n == 0 then 1 else 0x100 * Bound(n - 1)
  }

  lemma {:induction false} WordBelow(s: seq<byte>)
    ensures Word(s) < Bound(|s|)
  {
    if s != [] {
      WordBelow(s[1..]);
    }
  }

  /** A word determines its bytes. */
  lemma {:induction false} WordInjective(s: seq<byte>, t: seq<byte>)
    requires |s| == |t| && Word(s) == Word(t)
    ensures s == t
  {
    if s != [] {
      DivModUnique(Word(s), Word(s[1..]), s[0], 0x100);
      DivModUnique(Word(t), Word(t[1..]), t[0], 0x100);
      WordInjective(s[1..], t[1..]);
      assert s == [s[0]] + s[1..] && t == [t[0]] + t[1..];
    }
  }

  function Xor(x: nat, y: nat): (z: nat) {
    if x == 0 then y else if y == 0 then x
    else (if x % 2 != y % 2 then 1 else 0) + 2 * Xor(x / 2, y / 2)
  }

  lemma XorUnfold(x: nat, y: nat)
    ensures Xor(x, y) == (if x % 2 != y % 2 then 1 else 0) + 2 * Xor(x / 2, y / 2)
  {
  }

  /** XOR is zero exactly for equal words. */
  lemma {:induction false} XorZero(x: nat, y: nat)
    ensures Xor(x, y) == 0 <==> x == y
    decreases x
  {
    if x > 0 && y > 0 {
      XorZero(x / 2, y / 2);
    }
  }

  /** OR is zero exactly for two zeros, and not below either operand. */
  lemma {:induction false} OrZero(x: nat, y: nat)
    ensures Or(x, y) == 0 <==> x == 0 && y == 0
    ensures Or(x, y) >= x && Or(x, y) >= y
    decreases x
  {
    if x > 0 && y > 0 {
      OrZero(x / 2, y / 2);
    }
  }

  /** OR stays within the word. */
  lemma {:induction false} OrBelow(x: nat, y: nat, k: nat)
    requires x < Pow2(k) && y < Pow2(k)
    ensures Or(x, y) < Pow2(k)
    decreases k
  {
    if x > 0 && y > 0 {
      assert Pow2(k) == 2 * Pow2(k - 1);
      OrBelow(x / 2, y / 2, k - 1);
      OrUnfold(x, y);
    }
  }

  lemma {:induction false} XorBelow(x: nat, y: nat, k: nat)
    requires x < Pow2(k) && y < Pow2(k)
    ensures Xor(x, y) < Pow2(k)
    decreases k
  {
    if x > 0 && y > 0 {
      assert Pow2(k) == 2 * Pow2(k - 1);
      XorBelow(x / 2, y / 2, k - 1);
      XorUnfold(x, y);
    }
  }

  lemma {:induction false} XorSplit(x: nat, hi: nat, m: nat, mhi: nat, k: nat)
    requires x < Pow2(k) && m < Pow2(k)
    ensures Xor(x + Pow2(k) * hi, m + Pow2(k) * mhi) == Xor(x, m) + Pow2(k) * Xor(hi, mhi)
    decreases k
  {
    if k > 0 {
      var p, q := Pow2(k - 1), Pow2(k);
      assert q == 2 * p;
      hide Pow2, Xor;
      XorSplit(x / 2, hi, m / 2, mhi, k - 1);
      Halve(x, hi, p, q);
      Halve(m, mhi, p, q);
      XorUnfold(x + q * hi, m + q * mhi);
      XorUnfold(x, m);
      Halve(0, Xor(hi, mhi), p, q);
    } else {
      assert x == 0 && m == 0;
    }
  }

  lemma ByteXor(x: nat, hi: nat, y: nat, yhi: nat)
    requires x < 0x100 && y < 0x100
    ensures Xor(x + 0x100 * hi, y + 0x100 * yhi) == Xor(x, y) + 0x100 * Xor(hi, yhi) && Xor(x, y) < 0x100
  {
    BytePower();
    hide Xor, Pow2;
    XorSplit(x, hi, y, yhi, 8);
    XorBelow(x, y, 8);
  }

  lemma BytePower()
    ensures Pow2(8) == 0x100
  {
    assert Pow2(8) == 4 * Pow2(6) && Pow2(6) == 4 * Pow2(4) && Pow2(4) == 4 * Pow2(2) && Pow2(2) == 4;
  }

  lemma ByteAnd(x: nat, hi: nat, y: nat, yhi: nat)
    requires x < 0x100 && y < 0x100
    ensures And(x + 0x100 * hi, y + 0x100 * yhi) == And(x, y) + 0x100 * And(hi, yhi)
  {
    BytePower();
    hide And, Pow2;
    AndSplit(x, hi, y, yhi, 8);
  }

  /** The bytes XORed with one token. */
  function Differences(s: seq<byte>, token: byte): (t: seq<byte>)
    ensures |t| == |s|
  {
    if s == [] then [] else
      ByteXor(s[0], 0, token, 0);
      [Xor(s[0], token)] + Differences(s[1..], token)
  }

  /** n bytes of one value. */
  function Repeated(token: byte, n: nat): (t: seq<byte>)
    ensures |t| == n && forall k :: 0 <= k < n ==> t[k] == token
  {
    if n == 0 then [] else [token] + Repeated(token, n - 1)
  }

  lemma WordCons(c: byte, s: seq<byte>)
    ensures Word([c] + s) == c + 0x100 * Word(s)
  {
    assert ([c] + s)[1..] == s;
  }

  lemma {:induction false} XorBytes(s: seq<byte>, token: byte)
    ensures Xor(Word(s), Word(Repeated(token, |s|))) == Word(Differences(s, token))
    decreases s
  {
    if s != [] {
      ByteXor(s[0], Word(s[1..]), token, Word(Repeated(token, |s| - 1)));
      XorBytes(s[1..], token);
      WordCons(token, Repeated(token, |s| - 1));
      WordCons(Xor(s[0], token), Differences(s[1..], token));
    }
  }

  lemma {:induction false} DifferenceAt(s: seq<byte>, token: byte, k: nat)
    requires k < |s|
    ensures Differences(s, token)[k] == 0 <==> s[k] == token
    decreases s
  {
    if k == 0 {
      XorZero(s[0], token);
    } else {
      DifferenceAt(s[1..], token, k - 1);
    }
  }
}
