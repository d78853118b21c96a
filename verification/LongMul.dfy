/** Schoolbook multiplication: the 128-bit row loop, the two-carry-chain
    fallback, the fixed-size versions and the dispatcher. */
module LongMul {
  import opened Words
  import opened CarryOps

  /** State of a row: t is t0 with x times the first j words of bs added at
      place i, except for the carry c still owed at place i + j. */
  ghost predicate RowInv(t0: seq<word>, t: seq<word>, x: word, bs: seq<word>, i: nat, j: nat, c: word) {
    && |t| == |t0| && j <= |bs| && i + |bs| <= |t|
    && Val(t) + c * Pow(i + j) == Val(t0) + x * Val(bs[..j]) * Pow(i)
    && forall m :: 0 <= m < i || i + j <= m < |t| ==> t[m] == t0[m]
  }

  lemma RowStart(t0: seq<word>, x: word, bs: seq<word>, i: nat)
    requires i + |bs| <= |t0|
    ensures RowInv(t0, t0, x, bs, i, 0, 0)
  {
    assert bs[..0] == [];
  }

  /** x times one more word of bs, placed at i. */
  lemma RowProduct(x: word, bs: seq<word>, i: nat, j: nat)
    requires j < |bs|
    ensures x * Val(bs[..j + 1]) * Pow(i) == x * Val(bs[..j]) * Pow(i) + x * bs[j] * Pow(i + j)
  {
    ValSnoc(bs, j);
    PowAdd(i, j);
    PlaceSum(x, Val(bs[..j]), bs[j], Pow(j), Pow(i));
  }

  lemma RowAdvance(t0: seq<word>, t: seq<word>, v: word, x: word, bs: seq<word>, i: nat, j: nat, c: word, c': word)
    requires RowInv(t0, t, x, bs, i, j, c) && j < |bs|
    requires v + BASE * c' == t[i + j] + x * bs[j] + c
    ensures RowInv(t0, t[i + j := v], x, bs, i, j + 1, c')
  {
    RowProduct(x, bs, i, j);
    WriteWord(t, i + j, v, x * bs[j], c, c');
  }

  /** Multiply, accumulate and carry, in 128-bit arithmetic: neither the sum
      nor the outgoing carry leaves its type. */
  method Mac(t: word, x: word, y: word, carry: word) returns (v: word, c: word)
    ensures v + BASE * c == t + x * y + carry
  {
    WordProduct(x, y);
    var product := x * y;
    var sum := t + product % BASE + carry;
    v := sum % BASE;
    c := product / BASE + sum / BASE;
  }

  method MacAt(dest: array<word>, x: word, b: array<word>, b0: nat, len: nat, i: nat, j: nat, carry: word,
               ghost t0: seq<word>)
    returns (c: word)
    requires dest != b && |t0| <= dest.Length && b0 + len <= b.Length && j < len
    requires RowInv(t0, dest[..|t0|], x, b[b0..b0 + len], i, j, carry)
    modifies dest
    ensures RowInv(t0, dest[..|t0|], x, b[b0..b0 + len], i, j + 1, c)
    ensures dest[|t0|..] == old(dest[|t0|..])
  {
    ghost var t, bs := dest[..|t0|], b[b0..b0 + len];
    var v;
    v, c := Mac(dest[i + j], x, b[b0 + j], carry);
    RowAdvance(t0, t, v, x, bs, i, j, carry, c);
    dest[i + j] := v;
    assert dest[..|t0|] == t[i + j := v];
  }

  /** One row: four columns at a time, then the rest. */
  method Row(dest: array<word>, x: word, b: array<word>, b0: nat, len: nat, i: nat, ghost n: nat) returns (carry: word)
    requires dest != b && i + len <= n <= dest.Length && b0 + len <= b.Length
    modifies dest
    ensures RowInv(old(dest[..n]), dest[..n], x, b[b0..b0 + len], i, len, carry)
    ensures dest[n..] == old(dest[n..])
  {
    ghost var t0, bs := dest[..n], b[b0..b0 + len];
    carry := 0;
    RowStart(t0, x, bs, i);
    var j := 0;
    while j + 3 < len
      invariant j <= len && RowInv(t0, dest[..n], x, bs, i, j, carry)
      invariant dest[n..] == old(dest[n..])
    {
      carry := MacAt(dest, x, b, b0, len, i, j, carry, t0);
      carry := MacAt(dest, x, b, b0, len, i, j + 1, carry, t0);
      carry := MacAt(dest, x, b, b0, len, i, j + 2, carry, t0);
      carry := MacAt(dest, x, b, b0, len, i, j + 3, carry, t0);
      j := j + 4;
    }
    while j < len
      invariant j <= len && RowInv(t0, dest[..n], x, bs, i, j, carry)
      invariant dest[n..] == old(dest[n..])
    {
      carry := MacAt(dest, x, b, b0, len, i, j, carry, t0);
      j := j + 1;
    }
  }

  /** State between rows: t holds the product of the first i words of a with
      b, and its words from i + |bs| on are zero. */
  ghost predicate ProductInv(t: seq<word>, a: seq<word>, bs: seq<word>, i: nat) {
    && |t| == |a| + |bs| && i <= |a|
    && Val(t) == Val(a[..i]) * Val(bs)
    && forall m :: i + |bs| <= m < |t| ==> t[m] == 0
  }

  lemma ProductStart(t: seq<word>, a: seq<word>, bs: seq<word>)
    requires |t| == |a| + |bs| && forall m :: 0 <= m < |t| ==> t[m] == 0
    ensures ProductInv(t, a, bs, 0)
  {
    ValZeros(t);
    assert a[..0] == [];
  }

  /** One more row of a partial product. */
  lemma PartialProduct(a: seq<word>, bs: seq<word>, i: nat)
    requires i < |a|
    ensures Val(a[..i + 1]) * Val(bs) == Val(a[..i]) * Val(bs) + a[i] * Val(bs) * Pow(i)
    ensures Val(a[..i + 1]) * Val(bs) < Pow(i + 1 + |bs|)
  {
    ValSnoc(a, i);
    PlaceRow(Val(a[..i]), a[i], Pow(i), Val(bs));
    ProductBound(a[..i + 1], bs);
  }

  lemma ProductBound(a: seq<word>, b: seq<word>)
    ensures Val(a) * Val(b) < Pow(|a| + |b|)
  {
    ValBound(a); ValBound(b);
    PowAdd(|a|, |b|);
    MulLe(Val(a), Val(b), Pow(|b|));
    MulLt(Pow(|b|), Val(a), Pow(|a|));
  }

  /** Storing the final carry of row i in the still empty word i + |bs|. */
  lemma RowDone(t0: seq<word>, t: seq<word>, a: seq<word>, bs: seq<word>, i: nat, c: word)
    requires ProductInv(t0, a, bs, i) && i < |a|
    requires RowInv(t0, t, a[i], bs, i, |bs|, c)
    ensures ProductInv(t[i + |bs| := c], a, bs, i + 1)
  {
    assert bs[..|bs|] == bs;
    ValUpdate(t, i + |bs|, c);
    PartialProduct(a, bs, i);
  }

  method Clear(dest: array<word>, n: nat)
    requires n <= dest.Length
    modifies dest
    ensures forall m :: 0 <= m < n ==> dest[m] == 0
    ensures dest[n..] == old(dest[n..])
  {
    for i := 0 to n
      invariant forall m :: 0 <= m < i ==> dest[m] == 0
      invariant dest[n..] == old(dest[n..])
    {
      dest[i] := 0;
    }
  }

  /** Schoolbook multiplication with 128-bit carries. */
  method MulLong128(dest: array<word>, a: array<word>, a0: nat, b: array<word>, b0: nat, len: nat)
    requires dest != a && dest != b && 2 * len <= dest.Length && a0 + len <= a.Length && b0 + len <= b.Length
    modifies dest
    ensures Val(dest[..2 * len]) == Val(a[a0..a0 + len]) * Val(b[b0..b0 + len])
    ensures dest[2 * len..] == old(dest[2 * len..])
  {
    ghost var av, bv, n := a[a0..a0 + len], b[b0..b0 + len], 2 * len;
    Clear(dest, 2 * len);
    ProductStart(dest[..n], av, bv);
    for i := 0 to len
      invariant ProductInv(dest[..n], av, bv, i)
      invariant dest[n..] == old(dest[n..])
    {
      ghost var t0 := dest[..n];
      var carry := Row(dest, a[a0 + i], b, b0, len, i, n);
      ghost var t := dest[..n];
      RowDone(t0, t, av, bv, i, carry);
      dest[i + len] := carry;
      assert dest[..n] == t[i + len := carry];
    }
    assert av[..len] == av;
  }

  /** State of a fallback row: low halves carry cl into place i + j, high
      halves carry ch into place i + j + 1. */
  ghost predicate SplitRowInv(t0: seq<word>, t: seq<word>, x: word, bs: seq<word>, i: nat, j: nat, cl: word, ch: word) {
    && |t| == |t0| && j <= |bs| && i + |bs| < |t| && cl <= 1 && ch <= 1
    && Val(t) + cl * Pow(i + j) + ch * Pow(i + j + 1) == Val(t0) + x * Val(bs[..j]) * Pow(i)
    && forall m :: 0 <= m < i || i + j < m < |t| ==> t[m] == t0[m]
  }

  lemma SplitRowAdvance(t0: seq<word>, t: seq<word>, v: word, w: word, lo: word, hi: word, x: word, bs: seq<word>,
                        i: nat, j: nat, cl: word, ch: word, cl': word, ch': word)
    requires SplitRowInv(t0, t, x, bs, i, j, cl, ch) && j < |bs|
    requires lo + BASE * hi == x * bs[j]
    requires v + BASE * cl' == t[i + j] + lo + cl && cl' <= 1
    requires w + BASE * ch' == t[i + j + 1] + hi + ch && ch' <= 1
    ensures SplitRowInv(t0, t[i + j := v][i + j + 1 := w], x, bs, i, j + 1, cl', ch')
  {
    var k := i + j;
    RowProduct(x, bs, i, j);
    WriteWord(t, k, v, lo, cl, cl');
    WriteWord(t[k := v], k + 1, w, hi, ch, ch');
    PlaceMac(lo, 0, hi, x * bs[j], 0, Pow(k));
  }

  method SplitMacAt(dest: array<word>, x: word, b: array<word>, b0: nat, len: nat, i: nat, j: nat, cl: word,
                    ch: word, ghost t0: seq<word>)
    returns (cl': word, ch': word)
    requires dest != b && |t0| <= dest.Length && b0 + len <= b.Length && j < len
    requires SplitRowInv(t0, dest[..|t0|], x, b[b0..b0 + len], i, j, cl, ch)
    modifies dest
    ensures SplitRowInv(t0, dest[..|t0|], x, b[b0..b0 + len], i, j + 1, cl', ch')
    ensures dest[|t0|..] == old(dest[|t0|..])
  {
    ghost var t, bs := dest[..|t0|], b[b0..b0 + len];
    var lo, hi := MulC(false, x, b[b0 + j]);
    var v, w;
    v, cl' := AddC(dest[i + j], lo, cl);
    w, ch' := AddC(dest[i + j + 1], hi, ch);
    SplitRowAdvance(t0, t, v, w, lo, hi, x, bs, i, j, cl, ch, cl', ch');
    dest[i + j] := v;
    dest[i + j + 1] := w;
    assert dest[..|t0|] == t[i + j := v][i + j + 1 := w];
  }

  method SplitRow(dest: array<word>, x: word, b: array<word>, b0: nat, len: nat, i: nat, ghost n: nat)
    returns (cl: word, ch: word)
    requires dest != b && i + len < n <= dest.Length && b0 + len <= b.Length
    modifies dest
    ensures SplitRowInv(old(dest[..n]), dest[..n], x, b[b0..b0 + len], i, len, cl, ch)
    ensures dest[n..] == old(dest[n..])
  {
    ghost var t0, bs := dest[..n], b[b0..b0 + len];
    assert bs[..0] == [];
    cl, ch := 0, 0;
    var j := 0;
    while j + 3 < len
      invariant j <= len && SplitRowInv(t0, dest[..n], x, bs, i, j, cl, ch)
      invariant dest[n..] == old(dest[n..])
    {
      cl, ch := SplitMacAt(dest, x, b, b0, len, i, j, cl, ch, t0);
      cl, ch := SplitMacAt(dest, x, b, b0, len, i, j + 1, cl, ch, t0);
      cl, ch := SplitMacAt(dest, x, b, b0, len, i, j + 2, cl, ch, t0);
      cl, ch := SplitMacAt(dest, x, b, b0, len, i, j + 3, cl, ch, t0);
      j := j + 4;
    }
    while j < len
      invariant j <= len && SplitRowInv(t0, dest[..n], x, bs, i, j, cl, ch)
      invariant dest[n..] == old(dest[n..])
    {
      cl, ch := SplitMacAt(dest, x, b, b0, len, i, j, cl, ch, t0);
      j := j + 1;
    }
  }

  /** What a fallback row has added up, and that it reaches no further word. */
  lemma SplitRowSum(t0: seq<word>, t: seq<word>, a: seq<word>, bs: seq<word>, i: nat, cl: word, ch: word)
    requires ProductInv(t0, a, bs, i) && i < |a|
    requires SplitRowInv(t0, t, a[i], bs, i, |bs|, cl, ch)
    ensures Val(t) + cl * Pow(i + |bs|) + ch * Pow(i + |bs| + 1) == Val(a[..i + 1]) * Val(bs)
    ensures Val(a[..i + 1]) * Val(bs) < Pow(i + |bs| + 1)
  {
    assert bs[..|bs|] == bs;
    PartialProduct(a, bs, i);
  }

  /** The top word of a sum that stays below the next place. */
  lemma TopWordOf(t: seq<word>, k: nat, cl: word)
    requires k < |t| && (forall m :: k < m < |t| ==> t[m] == 0) && Val(t) + cl * Pow(k) < Pow(k + 1)
    ensures t[k] + cl < BASE
  {
    ValTrim(t, k + 1);
    ValSnoc(t, k);
    TopWordFits(Val(t[..k]), t[k], cl, Pow(k));
  }

  /** At the end of a fallback row the high carry is 0 and adding the low carry
      to the top word does not wrap, so the row may drop both. */
  lemma SplitRowFits(t0: seq<word>, t: seq<word>, a: seq<word>, bs: seq<word>, i: nat, cl: word, ch: word)
    requires ProductInv(t0, a, bs, i) && i < |a|
    requires SplitRowInv(t0, t, a[i], bs, i, |bs|, cl, ch)
    ensures ch == 0 && t[i + |bs|] + cl < BASE
    ensures Val(t) + cl * Pow(i + |bs|) == Val(a[..i + 1]) * Val(bs)
  {
    var k := i + |bs|;
    SplitRowSum(t0, t, a, bs, i, cl, ch);
    hide Val, Pow;
    TopCarry(Val(t), cl * Pow(k), ch, Pow(k + 1));
    TopWordOf(t, k, cl);
  }

  lemma SplitRowDone(t0: seq<word>, t: seq<word>, a: seq<word>, bs: seq<word>, i: nat, cl: word, ch: word)
    requires ProductInv(t0, a, bs, i) && i < |a|
    requires SplitRowInv(t0, t, a[i], bs, i, |bs|, cl, ch)
    requires t[i + |bs|] + cl < BASE && Val(t) + cl * Pow(i + |bs|) == Val(a[..i + 1]) * Val(bs)
    ensures ProductInv(t[i + |bs| := t[i + |bs|] + cl], a, bs, i + 1)
  {
    ValUpdate(t, i + |bs|, t[i + |bs|] + cl);
  }

  lemma TopWordFits(u: nat, t: nat, cl: nat, p: nat)
    requires u + t * p + cl * p < BASE * p
    ensures t + cl < BASE
  {
    assert t * p + cl * p == (t + cl) * p;
    PlaceBound(t + cl, p);
  }

  /** A carry at a place the number does not reach is 0. */
  lemma TopCarry(v: nat, w: nat, ch: nat, q: nat)
    requires v + w + ch * q < q
    ensures ch == 0
  {
    if ch > 0 {
      MulLe(q, 1, ch);
    }
  }

  /** Schoolbook multiplication on platforms without 128-bit integers. */
  method MulLongPortable(dest: array<word>, a: array<word>, a0: nat, b: array<word>, b0: nat, len: nat)
    requires dest != a && dest != b && 2 * len <= dest.Length && a0 + len <= a.Length && b0 + len <= b.Length
    modifies dest
    ensures Val(dest[..2 * len]) == Val(a[a0..a0 + len]) * Val(b[b0..b0 + len])
    ensures dest[2 * len..] == old(dest[2 * len..])
  {
    ghost var av, bv, n := a[a0..a0 + len], b[b0..b0 + len], 2 * len;
    Clear(dest, 2 * len);
    ProductStart(dest[..n], av, bv);
    for i := 0 to len
      invariant ProductInv(dest[..n], av, bv, i)
      invariant dest[n..] == old(dest[n..])
    {
      ghost var t0 := dest[..n];
      var cl, ch := SplitRow(dest, a[a0 + i], b, b0, len, i, n);
      ghost var t := dest[..n];
      SplitRowFits(t0, t, av, bv, i, cl, ch);
      SplitRowDone(t0, t, av, bv, i, cl, ch);
      WrapSmall(dest[i + len] + cl);
      dest[i + len] := Wrap(dest[i + len] + cl);
      assert dest[..n] == t[i + len := t[i + len] + cl];
    }
    assert av[..len] == av;
  }

  method MulLong(wide: bool, dest: array<word>, a: array<word>, a0: nat, b: array<word>, b0: nat, len: nat)
    requires dest != a && dest != b && 2 * len <= dest.Length && a0 + len <= a.Length && b0 + len <= b.Length
    modifies dest
    ensures Val(dest[..2 * len]) == Val(a[a0..a0 + len]) * Val(b[b0..b0 + len])
    ensures dest[2 * len..] == old(dest[2 * len..])
  {
    if wide {
      MulLong128(dest, a, a0, b, b0, len);
    } else {
      MulLongPortable(dest, a, a0, b, b0, len);
    }
  }

  /** First-row step of the unrolled 256-bit product: there is nothing to
      accumulate yet, so the product is added to the carry alone. */
  method FirstMacAt(dest: array<word>, x: word, b: array<word>, b0: nat, j: nat, carry: word, ghost t0: seq<word>)
    returns (c: word)
    requires dest != b && |t0| == 8 <= dest.Length && b0 + 4 <= b.Length && j < 4 && t0[j] == 0
    requires RowInv(t0, dest[..8], x, b[b0..b0 + 4], 0, j, carry)
    modifies dest
    ensures RowInv(t0, dest[..8], x, b[b0..b0 + 4], 0, j + 1, c)
    ensures dest[8..] == old(dest[8..])
  {
    ghost var t, bs := dest[..8], b[b0..b0 + 4];
    WordProduct(x, b[b0 + j]);
    var sum := carry + x * b[b0 + j];
    var v: word := sum % BASE;
    c := sum / BASE;
    RowAdvance(t0, t, v, x, bs, 0, j, carry, c);
    dest[j] := v;
    assert dest[..8] == t[0 + j := v];
  }

  /** Rows 1 to 3 of the unrolled 256-bit product. */
  method Row256(dest: array<word>, a: array<word>, a0: nat, b: array<word>, b0: nat, i: nat)
    requires dest != a && dest != b && 8 <= dest.Length && a0 + 4 <= a.Length && b0 + 4 <= b.Length && i < 4
    requires ProductInv(dest[..8], a[a0..a0 + 4], b[b0..b0 + 4], i)
    modifies dest
    ensures ProductInv(dest[..8], a[a0..a0 + 4], b[b0..b0 + 4], i + 1)
    ensures dest[8..] == old(dest[8..])
  {
    ghost var t0, av, bv := dest[..8], a[a0..a0 + 4], b[b0..b0 + 4];
    RowStart(t0, a[a0 + i], bv, i);
    var c := MacAt(dest, a[a0 + i], b, b0, 4, i, 0, 0, t0);
    c := MacAt(dest, a[a0 + i], b, b0, 4, i, 1, c, t0);
    c := MacAt(dest, a[a0 + i], b, b0, 4, i, 2, c, t0);
    c := MacAt(dest, a[a0 + i], b, b0, 4, i, 3, c, t0);
    ghost var t := dest[..8];
    RowDone(t0, t, av, bv, i, c);
    dest[i + 4] := c;
    assert dest[..8] == t[i + 4 := c];
  }

  /** The unrolled 256-bit product. */
  method Mul256(wide: bool, dest: array<word>, a: array<word>, a0: nat, b: array<word>, b0: nat)
    requires dest != a && dest != b && 8 <= dest.Length && a0 + 4 <= a.Length && b0 + 4 <= b.Length
    modifies dest
    ensures Val(dest[..8]) == Val(a[a0..a0 + 4]) * Val(b[b0..b0 + 4])
    ensures dest[8..] == old(dest[8..])
  {
    if !wide {
      MulLong(false, dest, a, a0, b, b0, 4);
      return;
    }
    ghost var av, bv := a[a0..a0 + 4], b[b0..b0 + 4];
    Clear(dest, 8);
    ghost var t0 := dest[..8];
    ProductStart(t0, av, bv);
    RowStart(t0, a[a0], bv, 0);
    var c := FirstMacAt(dest, a[a0], b, b0, 0, 0, t0);
    c := FirstMacAt(dest, a[a0], b, b0, 1, c, t0);
    c := FirstMacAt(dest, a[a0], b, b0, 2, c, t0);
    c := FirstMacAt(dest, a[a0], b, b0, 3, c, t0);
    ghost var t := dest[..8];
    RowDone(t0, t, av, bv, 0, c);
    dest[4] := c;
    assert dest[..8] == t[0 + 4 := c];
    Row256(dest, a, a0, b, b0, 1);
    Row256(dest, a, a0, b, b0, 2);
    Row256(dest, a, a0, b, b0, 3);
    assert av[..4] == av;
  }

  /** The 512-bit product: the loops of the schoolbook product for 8 words. */
  method Mul512(wide: bool, dest: array<word>, a: array<word>, a0: nat, b: array<word>, b0: nat)
    requires dest != a && dest != b && 16 <= dest.Length && a0 + 8 <= a.Length && b0 + 8 <= b.Length
    modifies dest
    ensures Val(dest[..16]) == Val(a[a0..a0 + 8]) * Val(b[b0..b0 + 8])
    ensures dest[16..] == old(dest[16..])
  {
    if wide {
      MulLong128(dest, a, a0, b, b0, 8);
    } else {
      MulLong(false, dest, a, a0, b, b0, 8);
    }
  }

  /** The dispatcher used for the parts of a Karatsuba product. */
  method MulNoRecurse(wide: bool, dest: array<word>, a: array<word>, a0: nat, b: array<word>, b0: nat, len: nat)
    requires dest != a && dest != b && 2 * len <= dest.Length && a0 + len <= a.Length && b0 + len <= b.Length
    requires len == 0 ==> dest.Length > 0
    modifies dest
    ensures len > 0 ==> Val(dest[..2 * len]) == Val(a[a0..a0 + len]) * Val(b[b0..b0 + len])
    ensures len == 0 ==> dest[0] == 0
    ensures len > 0 ==> dest[2 * len..] == old(dest[2 * len..])
  {
    if len == 0 {
      dest[0] := 0;
    } else if len == 1 {
      var lo, hi := MulC(wide, a[a0], b[b0]);
      dest[0], dest[1] := lo, hi;
      assert dest[..2] == [lo, hi] && [lo, hi][1..] == [hi];
      assert a[a0..a0 + 1] == [a[a0]] && b[b0..b0 + 1] == [b[b0]];
      ValSingle(a[a0]); ValSingle(b[b0]); ValSingle(hi);
    } else if len == 4 {
      Mul256(wide, dest, a, a0, b, b0);
    } else if len == 8 {
      Mul512(wide, dest, a, a0, b, b0);
    } else {
      MulLong(wide, dest, a, a0, b, b0, len);
    }
  }
}
