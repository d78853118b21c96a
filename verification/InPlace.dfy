/** Multiplication with the first operand as its target, statement by statement, as
    the Montgomery product calls it. */
module InPlace {
  import opened Words
  import opened CarryOps
  import opened LongMul
  import Karatsuba

  predicate Zeros(dest: array<word>, n: nat)
    requires n <= dest.Length
    reads dest
  {
    forall m :: 0 <= m < n ==> dest[m] == 0
  }

  /** A column of a row, once the target is cleared: the word of the operand is
      read from the target. */
  method MacOver(dest: array<word>, y: word, i: nat, k: nat, n: nat, carry: word) returns (c: word)
    requires i < n <= dest.Length && k < n && Zeros(dest, n) && carry == 0
    modifies dest
    ensures Zeros(dest, n) && dest[n..] == old(dest[n..]) && c == 0
  {
    var v;
    v, c := Mac(dest[k], dest[i], y, carry);
    dest[k] := v;
  }

  /** Schoolbook multiplication with 128-bit carries, for any length. The source
      visits the columns in this order, in groups of four and then the rest. */
  method LongOver128(dest: array<word>, b: array<word>, b0: nat, len: nat)
    requires dest != b && 2 * len <= dest.Length && b0 + len <= b.Length
    modifies dest
    ensures Zeros(dest, 2 * len) && dest[2 * len..] == old(dest[2 * len..])
  {
    Clear(dest, 2 * len);
    for i := 0 to len
      invariant Zeros(dest, 2 * len) && dest[2 * len..] == old(dest[2 * len..])
    {
      var carry: word := 0;
      for j := 0 to len
        invariant carry == 0 && Zeros(dest, 2 * len) && dest[2 * len..] == old(dest[2 * len..])
      {
        carry := MacOver(dest, b[b0 + j], i, i + j, 2 * len, carry);
      }
      dest[i + len] := carry;
    }
  }

  /** A column of the fallback. */
  method SplitMacOver(dest: array<word>, y: word, i: nat, k: nat, n: nat, cl: word, ch: word)
    returns (cl': word, ch': word)
    requires i < n <= dest.Length && k + 1 < n && Zeros(dest, n) && cl == 0 && ch == 0
    modifies dest
    ensures Zeros(dest, n) && dest[n..] == old(dest[n..]) && cl' == 0 && ch' == 0
  {
    var lo, hi := MulC(false, dest[i], y);
    var v, w;
    v, cl' := AddC(dest[k], lo, cl);
    dest[k] := v;
    w, ch' := AddC(dest[k + 1], hi, ch);
    dest[k + 1] := w;
  }

  /** Schoolbook multiplication without 128-bit integers. */
  method LongOverPortable(dest: array<word>, b: array<word>, b0: nat, len: nat)
    requires dest != b && 2 * len <= dest.Length && b0 + len <= b.Length
    modifies dest
    ensures Zeros(dest, 2 * len) && dest[2 * len..] == old(dest[2 * len..])
  {
    Clear(dest, 2 * len);
    for i := 0 to len
      invariant Zeros(dest, 2 * len) && dest[2 * len..] == old(dest[2 * len..])
    {
      var cl: word, ch: word := 0, 0;
      for j := 0 to len
        invariant cl == 0 && ch == 0 && Zeros(dest, 2 * len) && dest[2 * len..] == old(dest[2 * len..])
      {
        cl, ch := SplitMacOver(dest, b[b0 + j], i, i + j, 2 * len, cl, ch);
      }
      dest[i + len] := Wrap(dest[i + len] + cl);
    }
  }

  /** The unrolled 256-bit product: its first row does not accumulate. */
  method Over256(dest: array<word>, b: array<word>, b0: nat)
    requires dest != b && 8 <= dest.Length && b0 + 4 <= b.Length
    modifies dest
    ensures Zeros(dest, 8) && dest[8..] == old(dest[8..])
  {
    Clear(dest, 8);
    var carry: word := 0;
    for j := 0 to 4
      invariant carry == 0 && Zeros(dest, 8) && dest[8..] == old(dest[8..])
    {
      var sum: nat := carry + dest[0] * b[b0 + j];
      dest[j], carry := sum % BASE, sum / BASE;
    }
    dest[4] := carry;
    for i := 1 to 4
      invariant Zeros(dest, 8) && dest[8..] == old(dest[8..])
    {
      carry := 0;
      for j := 0 to 4
        invariant carry == 0 && Zeros(dest, 8) && dest[8..] == old(dest[8..])
      {
        carry := MacOver(dest, b[b0 + j], i, i + j, 8, carry);
      }
      dest[i + 4] := carry;
    }
  }

  /** Whether fio_math_mul reads its operands before it writes its target. */
  predicate ReadsFirst(len: nat) {
    len == 1 || (len >= Karatsuba.THRESHOLD && len % 2 == 0)
  }

  /** fio_math_mul(dest, dest, b, len): the product for the lengths that read
      first, and 0 for all others, which clear the operand. */
  method MulOver(wide: bool, dest: array<word>, b: array<word>, b0: nat, len: nat)
    requires dest != b && len > 0 && 2 * len <= dest.Length && b0 + len <= b.Length
    modifies dest
    ensures Val(dest[..2 * len])
         == if ReadsFirst(len) then old(Val(dest[..len])) * Val(b[b0..b0 + len]) else 0
    ensures dest[2 * len..] == old(dest[2 * len..])
  {
    hide Val;
    ghost var bv := b[b0..b0 + len];
    if len == 1 {
      ghost var x := dest[0];
      assert dest[..1] == [x] && bv == [b[b0]];
      var lo, hi := MulC(wide, dest[0], b[b0]);
      dest[1] := hi;
      dest[0] := lo;
      assert dest[..2] == [lo, hi] && [lo, hi][1..] == [hi];
      TwoWords(lo, hi, x, b[b0]);
      return;
    }
    if len >= Karatsuba.THRESHOLD && len % 2 == 0 {
      assert dest[0..0 + len] == dest[..len];
      Karatsuba.MulKaratsuba(wide, dest, dest, 0, b, b0, len);
      assert b[b0..b0 + len] == bv;
      return;
    }
    if wide && len == 4 {
      Over256(dest, b, b0);
    } else if wide {
      LongOver128(dest, b, b0, len);
    } else {
      LongOverPortable(dest, b, b0, len);
    }
    ValZeros(dest[..2 * len]);
  }

  lemma TwoWords(lo: word, hi: word, x: word, y: word)
    requires lo + BASE * hi == x * y
    ensures Val([lo, hi]) == Val([x]) * Val([y])
  {
    assert [lo, hi][1..] == [hi];
    ValSingle(hi); ValSingle(x); ValSingle(y);
  }

  /** Of the widths that the source defines only the widest reads first. */
  lemma WidthsThatClear()
    ensures !ReadsFirst(2) && !ReadsFirst(4) && !ReadsFirst(8) && !ReadsFirst(16) && ReadsFirst(32)
  {
  }
}
