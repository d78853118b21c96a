/** Word-parallel conversions between eight binary digits and one byte: the
    printer spreads the bits of a byte over eight text bytes, the reader gathers
    them back. */
module SwarBits {
  import opened Words
  import opened Modular
  import opened Bitwise
  import opened Swar

  /** The number of eight bits, least significant first. */
  function Bits8(a: nat, b: nat, c: nat, d: nat, e: nat, f: nat, g: nat, h: nat): nat {
    a + 2 * b + 4 * c + 8 * d + 16 * e + 32 * f + 64 * g + 128 * h
  }

  // ---- Reading ----

  /** w |= w >> s, where p is 2 to the s. */
  function OrShifted(w: nat, p: nat): nat
    requires p >= 1
  {
    Or(w, w / p)
  }

  /** The first two shifted ORs, */
  function Gather(w: nat): nat {
    OrShifted(OrShifted(w, 0x80), 0x4000)
  }

  /** and the third with its mask. */
  function Gather8(w: nat): nat {
    And(OrShifted(Gather(w), 0x1000_0000), 0xFF)
  }

  function Gather4(w: nat): nat {
    And(Gather(w), 0x0F)
  }

  lemma SmallPowers()
    ensures Pow2(0) == 1 && Pow2(1) == 2 && Pow2(2) == 4 && Pow2(3) == 8 && Pow2(4) == 16
  {
    assert Pow2(2) == 4 && Pow2(4) == 4 * Pow2(2);
  }

  /** x and y have no set bit in common, and are bytes. */
  predicate Apart(x: nat, y: nat) {
    x < 0x100 && y < 0x100 && Or(x, y) == x + y
  }

  lemma BitsApart(x: nat, y: nat)
    ensures x < 2 && y < 2 ==> Apart(x, 2 * y)
    ensures x < 4 && y < 4 ==> Apart(x, 4 * y)
    ensures x < 16 && y < 16 ==> Apart(x, 16 * y)
  {
    SmallPowers();
    hide Pow2;
    if x < 2 { OrAdd(x, y, 1); }
    if x < 4 { OrAdd(x, y, 2); }
    if x < 16 { OrAdd(x, y, 4); }
  }

  /** ORing lanes that are apart adds them. */
  lemma OrLane(x: nat, hi: nat, y: nat, yhi: nat)
    requires Apart(x, y)
    ensures Or(Lanes2(x, hi, 0x100), Lanes2(y, yhi, 0x100)) == Lanes2(x + y, Or(hi, yhi), 0x100)
  {
    Powers();
    hide Or, Pow2;
    OrLaneAt(x, hi, y, yhi, 8, 0x100);
  }

  lemma OrLaneAt(x: nat, hi: nat, y: nat, yhi: nat, k: nat, base: nat)
    requires base == Pow2(k) && x < base && y < base
    ensures Or(Lanes2(x, hi, base), Lanes2(y, yhi, base)) == Lanes2(Or(x, y), Or(hi, yhi), base)
  {
    OrSplit(x, hi, y, yhi, k);
  }

  lemma OrLanes4(a: nat, b: nat, c: nat, d: nat, a': nat, b': nat, c': nat, d': nat)
    requires Apart(a, a') && Apart(b, b') && Apart(c, c') && Apart(d, d')
    ensures Or(Lanes4(a, b, c, d, 0x100), Lanes4(a', b', c', d', 0x100))
         == Lanes4(a + a', b + b', c + c', d + d', 0x100)
  {
    hide Or, Lanes2;
    OrLane(a, Lanes2(b, Lanes2(c, d, 0x100), 0x100), a', Lanes2(b', Lanes2(c', d', 0x100), 0x100));
    OrLane(b, Lanes2(c, d, 0x100), b', Lanes2(c', d', 0x100));
    OrLane(c, d, c', d');
  }

  lemma OrLanes8(a: nat, b: nat, c: nat, d: nat, e: nat, f: nat, g: nat, h: nat,
                 a': nat, b': nat, c': nat, d': nat, e': nat, f': nat, g': nat, h': nat)
    requires Apart(a, a') && Apart(b, b') && Apart(c, c') && Apart(d, d')
    requires Apart(e, e') && Apart(f, f') && Apart(g, g') && Apart(h, h')
    ensures Or(Lanes8(a, b, c, d, e, f, g, h, 0x100), Lanes8(a', b', c', d', e', f', g', h', 0x100))
         == Lanes8(a + a', b + b', c + c', d + d', e + e', f + f', g + g', h + h', 0x100)
  {
    hide Or, Lanes2, Lanes4, Apart;
    var lo, lo' := Lanes4(e, f, g, h, 0x100), Lanes4(e', f', g', h', 0x100);
    OrLanes4(e, f, g, h, e', f', g', h');
    OrLane(d, lo, d', lo');
    OrLane(c, Lanes2(d, lo, 0x100), c', Lanes2(d', lo', 0x100));
    OrLane(b, Lanes2(c, Lanes2(d, lo, 0x100), 0x100), b', Lanes2(c', Lanes2(d', lo', 0x100), 0x100));
    OrLane(a, Lanes2(b, Lanes2(c, Lanes2(d, lo, 0x100), 0x100), 0x100),
           a', Lanes2(b', Lanes2(c', Lanes2(d', lo', 0x100), 0x100), 0x100));
  }

  /** Shifting eight one-bit lanes down by seven. */
  lemma ShiftSeven(a: nat, b: nat, c: nat, d: nat, e: nat, f: nat, g: nat, h: nat)
    requires a < 2
    ensures Lanes8(a, b, c, d, e, f, g, h, 0x100) / 0x80
         == Lanes8(2 * b, 2 * c, 2 * d, 2 * e, 2 * f, 2 * g, 2 * h, 0, 0x100)
  {
    DivModUnique(Lanes8(a, b, c, d, e, f, g, h, 0x100),
                 Lanes8(2 * b, 2 * c, 2 * d, 2 * e, 2 * f, 2 * g, 2 * h, 0, 0x100), a, 0x80);
  }

  lemma ShiftFourteen(a: nat, b: nat, c: nat, d: nat, e: nat, f: nat, g: nat, h: nat)
    requires a < 4 && b < 4
    ensures Lanes8(a, b, c, d, e, f, g, h, 0x100) / 0x4000
         == Lanes8(4 * c, 4 * d, 4 * e, 4 * f, 4 * g, 4 * h, 0, 0, 0x100)
  {
    DivModUnique(Lanes8(a, b, c, d, e, f, g, h, 0x100), Lanes8(4 * c, 4 * d, 4 * e, 4 * f, 4 * g, 4 * h, 0, 0, 0x100),
                 Lanes2(a, b, 0x100), 0x4000);
  }

  lemma ShiftTwentyEight(a: nat, b: nat, c: nat, d: nat, e: nat, f: nat, g: nat, h: nat)
    requires a < 16 && b < 16 && c < 16 && d < 16
    ensures Lanes8(a, b, c, d, e, f, g, h, 0x100) / 0x1000_0000
         == Lanes8(16 * e, 16 * f, 16 * g, 16 * h, 0, 0, 0, 0, 0x100)
  {
    DivModUnique(Lanes8(a, b, c, d, e, f, g, h, 0x100), Lanes8(16 * e, 16 * f, 16 * g, 16 * h, 0, 0, 0, 0, 0x100),
                 Lanes4(a, b, c, d, 0x100), 0x1000_0000);
  }

  /** Numbers of two and of four bits. */
  function Pair(a: nat, b: nat): nat {
    a + 2 * b
  }

  function Quad(a: nat, b: nat): nat {
    a + 4 * b
  }

  function Four(a: nat, b: nat, c: nat, d: nat): nat {
    Quad(Pair(a, b), Pair(c, d))
  }

  /** The first OR leaves pairs of bits in the lanes, */
  lemma PairLanes(a: nat, b: nat, c: nat, d: nat, e: nat, f: nat, g: nat, h: nat)
    requires a < 2 && b < 2 && c < 2 && d < 2 && e < 2 && f < 2 && g < 2 && h < 2
    ensures OrShifted(Lanes8(a, b, c, d, e, f, g, h, 0x100), 0x80)
         == Lanes8(Pair(a, b), Pair(b, c), Pair(c, d), Pair(d, e), Pair(e, f), Pair(f, g), Pair(g, h), Pair(h, 0),
                   0x100)
  {
    ShiftSeven(a, b, c, d, e, f, g, h);
    BitsApart(a, b); BitsApart(b, c); BitsApart(c, d); BitsApart(d, e);
    BitsApart(e, f); BitsApart(f, g); BitsApart(g, h); BitsApart(h, 0);
    hide Or, Lanes8, Apart;
    OrLanes8(a, b, c, d, e, f, g, h, 2 * b, 2 * c, 2 * d, 2 * e, 2 * f, 2 * g, 2 * h, 0);
  }

  /** the second one adds the pair two lanes up. */
  lemma FourLanes(a: nat, b: nat, c: nat, d: nat, e: nat, f: nat, g: nat, h: nat)
    requires a < 4 && b < 4 && c < 4 && d < 4 && e < 4 && f < 4 && g < 4 && h < 4
    ensures OrShifted(Lanes8(a, b, c, d, e, f, g, h, 0x100), 0x4000)
         == Lanes8(Quad(a, c), Quad(b, d), Quad(c, e), Quad(d, f), Quad(e, g), Quad(f, h), g, h, 0x100)
  {
    ShiftFourteen(a, b, c, d, e, f, g, h);
    BitsApart(a, c); BitsApart(b, d); BitsApart(c, e); BitsApart(d, f);
    BitsApart(e, g); BitsApart(f, h); BitsApart(g, 0); BitsApart(h, 0);
    hide Or, Lanes8, Apart;
    OrLanes8(a, b, c, d, e, f, g, h, 4 * c, 4 * d, 4 * e, 4 * f, 4 * g, 4 * h, 0, 0);
  }

  /** So the lowest lanes hold the bits of the four lanes from them up. */
  lemma GatherLanes(a: nat, b: nat, c: nat, d: nat, e: nat, f: nat, g: nat, h: nat)
    requires a < 2 && b < 2 && c < 2 && d < 2 && e < 2 && f < 2 && g < 2 && h < 2
    ensures Gather(Lanes8(a, b, c, d, e, f, g, h, 0x100))
         == Lanes8(Four(a, b, c, d), Four(b, c, d, e), Four(c, d, e, f), Four(d, e, f, g),
                   Four(e, f, g, h), Four(f, g, h, 0), Pair(g, h), Pair(h, 0), 0x100)
  {
    hide OrShifted, Lanes8, Quad;
    PairLanes(a, b, c, d, e, f, g, h);
    FourLanes(Pair(a, b), Pair(b, c), Pair(c, d), Pair(d, e), Pair(e, f), Pair(f, g), Pair(g, h), Pair(h, 0));
  }

  /** The lowest lane of a gathered word. */
  lemma LowLane(x: nat, hi: nat)
    requires x < 0x100
    ensures And(Lanes2(x, hi, 0x100), 0xFF) == x
    ensures x < 16 ==> And(Lanes2(x, hi, 0x100), 0x0F) == x
  {
    Powers();
    AndMask(Lanes2(x, hi, 0x100), 8);
    AndMask(Lanes2(x, hi, 0x100), 4);
    hide And;
    DivModUnique(Lanes2(x, hi, 0x100), hi, x, 0x100);
    if x < 16 {
      DivModUnique(Lanes2(x, hi, 0x100), 16 * hi, x, 16);
    }
  }

  /** A word as its lowest lane and the others. */
  function Rest(b: nat, c: nat, d: nat, e: nat, f: nat, g: nat, h: nat): nat {
    Lanes2(b, Lanes2(c, Lanes2(d, Lanes4(e, f, g, h, 0x100), 0x100), 0x100), 0x100)
  }

  lemma AsLowLane(a: nat, b: nat, c: nat, d: nat, e: nat, f: nat, g: nat, h: nat)
    ensures Lanes8(a, b, c, d, e, f, g, h, 0x100) == Lanes2(a, Rest(b, c, d, e, f, g, h), 0x100)
  {
  }

  /** The third OR adds the lane four lanes up to the lowest one. */
  lemma ThirdOr(a: nat, b: nat, c: nat, d: nat, e: nat, f: nat, g: nat, h: nat)
    requires a < 16 && b < 16 && c < 16 && d < 16 && e < 16
    ensures And(OrShifted(Lanes8(a, b, c, d, e, f, g, h, 0x100), 0x1000_0000), 0xFF) == a + 16 * e
  {
    ShiftTwentyEight(a, b, c, d, e, f, g, h);
    BitsApart(a, e);
    AsLowLane(a, b, c, d, e, f, g, h);
    AsLowLane(16 * e, 16 * f, 16 * g, 16 * h, 0, 0, 0, 0);
    var hi, hi' := Rest(b, c, d, e, f, g, h), Rest(16 * f, 16 * g, 16 * h, 0, 0, 0, 0);
    hide Or, And, Lanes8, Lanes2, Rest, Apart;
    OrLane(a, hi, 16 * e, hi');
    LowLane(a + 16 * e, Or(hi, hi'));
  }

  /** Eight one-bit lanes gathered to a byte, */
  lemma Gather8Of(a: nat, b: nat, c: nat, d: nat, e: nat, f: nat, g: nat, h: nat)
    requires a < 2 && b < 2 && c < 2 && d < 2 && e < 2 && f < 2 && g < 2 && h < 2
    ensures Gather8(Lanes8(a, b, c, d, e, f, g, h, 0x100)) == Bits8(a, b, c, d, e, f, g, h)
  {
    GatherLanes(a, b, c, d, e, f, g, h);
    assert Bits8(a, b, c, d, e, f, g, h) == Four(a, b, c, d) + 16 * Four(e, f, g, h);
    hide Gather, Bits8, Lanes8, And, OrShifted;
    ThirdOr(Four(a, b, c, d), Four(b, c, d, e), Four(c, d, e, f), Four(d, e, f, g),
            Four(e, f, g, h), Four(f, g, h, 0), Pair(g, h), Pair(h, 0));
  }

  lemma PadLanes(a: nat, b: nat, c: nat, d: nat)
    requires a < 2 && b < 2 && c < 2 && d < 2
    ensures Lanes4(a, b, c, d, 0x100) == Lanes8(a, b, c, d, 0, 0, 0, 0, 0x100) && Four(a, b, c, d) < 16
  {
  }

  /** and four of them to a number below sixteen. */
  lemma Gather4Of(a: nat, b: nat, c: nat, d: nat)
    requires a < 2 && b < 2 && c < 2 && d < 2
    ensures Gather4(Lanes4(a, b, c, d, 0x100)) == Four(a, b, c, d)
  {
    hide Gather, Lanes8, And, Rest, Lanes2, Lanes4, Four, Pair;
    var z := Four(0, 0, 0, 0);
    GatherLanes(a, b, c, d, 0, 0, 0, 0);
    AsLowLane(Four(a, b, c, d), Four(b, c, d, 0), Four(c, d, 0, 0), Four(d, 0, 0, 0), z, z, Pair(0, 0), Pair(0, 0));
    PadLanes(a, b, c, d);
    LowLane(Four(a, b, c, d), Rest(Four(b, c, d, 0), Four(c, d, 0, 0), Four(d, 0, 0, 0), z, z, Pair(0, 0), Pair(0, 0)));
  }

  // ---- Writing ----

  /** The bits of a byte spread to the eight lanes of a word, as text bytes. */
  function Spread(t: nat): nat {
    SpreadWord(And(t, 0x7F), And(t, 0x80))
  }

  function SpreadWord(low: nat, top: nat): nat {
    And(Or(low * 0x02040810204081 % BASE, top * 0x2_0000_0000_0000 % BASE), 0x0101010101010101) + 0x3030303030303030
  }

  /** Eight bits starting again with the first of seven. */
  function Cycle(a: nat, b: nat, c: nat, d: nat, e: nat, f: nat, g: nat): nat {
    Bits8(a, b, c, d, e, f, g, a)
  }

  /** The multiplication repeats the low seven bits every seven places. */
  lemma SpreadLanes(a: nat, b: nat, c: nat, d: nat, e: nat, f: nat, g: nat, h: nat)
    requires a < 2 && b < 2 && c < 2 && d < 2 && e < 2 && f < 2 && g < 2 && h < 2
    ensures Bits8(a, b, c, d, e, f, g, 0) * 0x02040810204081 + h * 0x100_0000_0000_0000
         == Lanes8(Cycle(a, b, c, d, e, f, g), Cycle(b, c, d, e, f, g, a), Cycle(c, d, e, f, g, a, b),
                   Cycle(d, e, f, g, a, b, c),
                   Cycle(e, f, g, a, b, c, d), Cycle(f, g, a, b, c, d, e), Cycle(g, a, b, c, d, e, f), h, 0x100)
  {
  }

  lemma BitLane(a: nat, x: nat, hi: nat, mhi: nat)
    requires x < 0x100 && a == x % 2
    ensures And(Lanes2(x, hi, 0x100), Lanes2(1, mhi, 0x100)) == Lanes2(a, And(hi, mhi), 0x100)
  {
    Powers();
    SmallPowers();
    hide And, Pow2;
    MaskLane(x, hi, 1, mhi, 8, 1, 0x100, 2);
  }

  lemma BitMask4(a: nat, b: nat, c: nat, d: nat)
    requires a < 0x100 && b < 0x100 && c < 0x100 && d < 2
    ensures And(Lanes4(a, b, c, d, 0x100), Lanes4(1, 1, 1, 1, 0x100)) == Lanes4(a % 2, b % 2, c % 2, d, 0x100)
  {
    AndMask(d, 1);
    SmallPowers();
    hide And, Pow2, Lanes2;
    BitLane(a % 2, a, Lanes2(b, Lanes2(c, d, 0x100), 0x100), Lanes2(1, Lanes2(1, 1, 0x100), 0x100));
    BitLane(b % 2, b, Lanes2(c, d, 0x100), Lanes2(1, 1, 0x100));
    BitLane(c % 2, c, d, 1);
  }

  /** Masking leaves the lowest bit of every lane. */
  lemma BitMask(a: nat, b: nat, c: nat, d: nat, e: nat, f: nat, g: nat, h: nat)
    requires a < 0x100 && b < 0x100 && c < 0x100 && d < 0x100 && e < 0x100 && f < 0x100 && g < 0x100 && h < 2
    ensures And(Lanes8(a, b, c, d, e, f, g, h, 0x100), 0x0101010101010101)
         == Lanes8(a % 2, b % 2, c % 2, d % 2, e % 2, f % 2, g % 2, h, 0x100)
  {
    assert 0x0101010101010101 == Lanes8(1, 1, 1, 1, 1, 1, 1, 1, 0x100);
    hide And, Lanes2, Lanes4;
    var lo, ones := Lanes4(e, f, g, h, 0x100), Lanes4(1, 1, 1, 1, 0x100);
    BitMask4(e, f, g, h);
    BitLane(d % 2, d, lo, ones);
    BitLane(c % 2, c, Lanes2(d, lo, 0x100), Lanes2(1, ones, 0x100));
    BitLane(b % 2, b, Lanes2(c, Lanes2(d, lo, 0x100), 0x100), Lanes2(1, Lanes2(1, ones, 0x100), 0x100));
    BitLane(a % 2, a, Lanes2(b, Lanes2(c, Lanes2(d, lo, 0x100), 0x100), 0x100),
            Lanes2(1, Lanes2(1, Lanes2(1, ones, 0x100), 0x100), 0x100));
  }

  lemma CycleBit(a: nat, b: nat, c: nat, d: nat, e: nat, f: nat, g: nat)
    requires a < 2 && b < 2 && c < 2 && d < 2 && e < 2 && f < 2 && g < 2
    ensures Cycle(a, b, c, d, e, f, g) < 0x100 && Cycle(a, b, c, d, e, f, g) % 2 == a
  {
    DivModUnique(Cycle(a, b, c, d, e, f, g), Bits8(b, c, d, e, f, g, a, 0), a, 2);
  }

  /** The byte without its top bit, and the top bit. */
  lemma TopBitApart(a: nat, b: nat, c: nat, d: nat, e: nat, f: nat, g: nat, h: nat)
    requires a < 2 && b < 2 && c < 2 && d < 2 && e < 2 && f < 2 && g < 2 && h < 2
    ensures And(Bits8(a, b, c, d, e, f, g, h), 0x7F) == Bits8(a, b, c, d, e, f, g, 0)
    ensures And(Bits8(a, b, c, d, e, f, g, h), 0x80) == 0x80 * h
  {
    var x, r := Bits8(a, b, c, d, e, f, g, h), Bits8(a, b, c, d, e, f, g, 0);
    assert x == h * 0x80 + r && r < 0x80;
    hide Bits8;
    SevenPower();
    AndMask(x, 7);
    SmallPowers();
    hide And, Pow2;
    DivModUnique(x, h, r, 0x80);
    AndUpper(r, h, 7, 1);
  }

  lemma SevenPower()
    ensures Pow2(7) == 0x80
  {
    SmallPowers();
    assert Pow2(7) == 2 * Pow2(6) && Pow2(5) == 2 * Pow2(4);
  }

  lemma SpreadOr(low: nat, h: nat, x: nat)
    requires low < 0x100_0000_0000_0000 && h < 2 && x == low + h * 0x100_0000_0000_0000
    ensures Or(low % BASE, 0x80 * h * 0x2_0000_0000_0000 % BASE) == x
  {
    TopPower();
    hide Or, Pow2;
    OrAdd(low, h, 56);
    DivModUnique(low, 0, low, BASE);
    DivModUnique(0x100_0000_0000_0000 * h, 0, 0x100_0000_0000_0000 * h, BASE);
  }

  lemma TopPower()
    ensures Pow2(56) == 0x100_0000_0000_0000
  {
    Powers();
    hide *;
    PowSum(32, 16);
    PowSum(48, 8);
  }

  lemma SpreadWordOf(low: nat, h: nat, x: nat)
    requires low * 0x02040810204081 < 0x100_0000_0000_0000 && h < 2
    requires x == low * 0x02040810204081 + h * 0x100_0000_0000_0000
    ensures SpreadWord(low, 0x80 * h) == And(x, 0x0101010101010101) + 0x3030303030303030
  {
    SpreadOr(low * 0x02040810204081, h, x);
  }

  /** So the bits of the byte land in the lanes, each as its digit character. */
  lemma SpreadOf(a: nat, b: nat, c: nat, d: nat, e: nat, f: nat, g: nat, h: nat)
    requires a < 2 && b < 2 && c < 2 && d < 2 && e < 2 && f < 2 && g < 2 && h < 2
    ensures Spread(Bits8(a, b, c, d, e, f, g, h))
         == Lanes8(48 + a, 48 + b, 48 + c, 48 + d, 48 + e, 48 + f, 48 + g, 48 + h, 0x100)
  {
    hide *;
    SpreadIs(Bits8(a, b, c, d, e, f, g, h));
    TopBitApart(a, b, c, d, e, f, g, h);
    var l := Bits8(a, b, c, d, e, f, g, 0);
    var l0, l1, l2 := Cycle(a, b, c, d, e, f, g), Cycle(b, c, d, e, f, g, a), Cycle(c, d, e, f, g, a, b);
    var l3 := Cycle(d, e, f, g, a, b, c);
    var l4, l5, l6 := Cycle(e, f, g, a, b, c, d), Cycle(f, g, a, b, c, d, e), Cycle(g, a, b, c, d, e, f);
    SpreadLanes(a, b, c, d, e, f, g, h);
    SevenBits(a, b, c, d, e, f, g);
    SpreadWordOf(l, h, Lanes8(l0, l1, l2, l3, l4, l5, l6, h, 0x100));
    CycleBit(a, b, c, d, e, f, g); CycleBit(b, c, d, e, f, g, a); CycleBit(c, d, e, f, g, a, b);
    CycleBit(d, e, f, g, a, b, c);
    CycleBit(e, f, g, a, b, c, d); CycleBit(f, g, a, b, c, d, e); CycleBit(g, a, b, c, d, e, f);
    BitMask(l0, l1, l2, l3, l4, l5, l6, h);
    AddZeros(a, b, c, d, e, f, g, h);
  }

  lemma SevenBits(a: nat, b: nat, c: nat, d: nat, e: nat, f: nat, g: nat)
    requires a < 2 && b < 2 && c < 2 && d < 2 && e < 2 && f < 2 && g < 2
    ensures Bits8(a, b, c, d, e, f, g, 0) < 0x80
  {
  }

  lemma SpreadIs(t: nat)
    ensures Spread(t) == SpreadWord(And(t, 0x7F), And(t, 0x80))
  {
  }

  lemma AddZeros(a: nat, b: nat, c: nat, d: nat, e: nat, f: nat, g: nat, h: nat)
    ensures Lanes8(a, b, c, d, e, f, g, h, 0x100) + 0x3030303030303030
         == Lanes8(48 + a, 48 + b, 48 + c, 48 + d, 48 + e, 48 + f, 48 + g, 48 + h, 0x100)
  {
  }
}
