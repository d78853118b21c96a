/** fio___memchr_scalar: a byte search by blocks of words. */
module MemChr {
  import opened Bytes
  import opened Words
  import opened Modular
  import opened Bitwise
  import opened Swar
  import opened SwarBits
  import opened ByteLanes

  // ---- Marking zero bytes ----

  /** fio_has_zero_byte64: (row - 0x01..01) & (~row & 0x80..80). */
  function HasZeroByte64(row: nat): nat
    requires row < BASE
  {
    And((row - 0x0101010101010101) % BASE, And(BASE - 1 - row, 0x8080808080808080))
  }

  /** One byte less one, and less the borrow into it; and the borrow out of it. */
  function Less(b: byte, borrow: nat): byte
    requires borrow < 2
  {
    if b >= 1 + borrow then b - 1 - borrow else 0xFF + b - borrow
  }

  function Borrows(b: byte, borrow: nat): (c: nat)
    ensures c < 2
  {
    if b < 1 + borrow then 1 else 0
  }

  /** The bytes of row - 0x01..01, given a borrow into the lowest one. */
  function Decremented(s: seq<byte>, borrow: nat): (t: seq<byte>)
    requires borrow < 2
    ensures |t| == |s|
  {
    if s == [] then [] else [Less(s[0], borrow)] + Decremented(s[1..], Borrows(s[0], borrow))
  }

  function BorrowOut(s: seq<byte>, borrow: nat): (b: nat)
    requires borrow < 2
    ensures b < 2
  {
    if s == [] then borrow else BorrowOut(s[1..], Borrows(s[0], borrow))
  }

  lemma {:induction false} Decrement(s: seq<byte>, borrow: nat)
    requires borrow < 2
    ensures Word(s) - Word(Repeated(1, |s|)) - borrow
         == Word(Decremented(s, borrow)) - if BorrowOut(s, borrow) == 1 then Bound(|s|) else 0
    decreases s
  {
    if s != [] {
      var next := Borrows(s[0], borrow);
      Decrement(s[1..], next);
      WordCons(1, Repeated(1, |s| - 1));
      WordCons(Less(s[0], borrow), Decremented(s[1..], next));
      assert Word(s) == s[0] + 0x100 * Word(s[1..]);
      assert Bound(|s|) == 0x100 * Bound(|s| - 1);
    }
  }

  function Complement(s: seq<byte>): (t: seq<byte>)
    ensures |t| == |s|
  {
    if s == [] then [] else [0xFF - s[0]] + Complement(s[1..])
  }

  lemma {:induction false} ComplementWord(s: seq<byte>)
    ensures Word(Complement(s)) == Bound(|s|) - 1 - Word(s)
  {
    if s != [] {
      ComplementWord(s[1..]);
      WordCons(0xFF - s[0], Complement(s[1..]));
    }
  }

  /** The marker of one byte: 0x80 for 0, and for 1 below which a borrow came. */
  function Marker(b: byte, borrow: nat): byte {
    if b == 0 || (b == 1 && borrow == 1) then 0x80 else 0
  }

  function Markers(s: seq<byte>, borrow: nat): (t: seq<byte>)
    requires borrow < 2
    ensures |t| == |s| && forall k :: 0 <= k < |t| ==> t[k] == 0 || t[k] == 0x80
  {
    if s == [] then [] else [Marker(s[0], borrow)] + Markers(s[1..], Borrows(s[0], borrow))
  }

  lemma TopBit(x: nat)
    requires x < 0x100
    ensures And(x, 0x80) == if x >= 0x80 then 0x80 else 0
  {
    SevenPower();
    SmallPowers();
    var q := x / 0x80;
    DivSplit(x, 0x80);
    hide And, Pow2;
    AndUpper(x % 0x80, q, 7, 1);
  }

  lemma MarkerOf(b: byte, borrow: nat)
    requires borrow < 2
    ensures And(Less(b, borrow), And(0xFF - b, 0x80)) == Marker(b, borrow)
  {
    assert And(Less(b, borrow), 0) == 0;
    hide And;
    TopBit(0xFF - b);
    TopBit(Less(b, borrow));
  }

  lemma {:induction false} MarkWords(s: seq<byte>, borrow: nat)
    requires borrow < 2
    ensures And(Word(Decremented(s, borrow)), And(Word(Complement(s)), Word(Repeated(0x80, |s|))))
         == Word(Markers(s, borrow))
    decreases s
  {
    if s == [] {
      assert And(0, And(0, 0)) == 0;
    } else {
      var next, tail := Borrows(s[0], borrow), s[1..];
      assert Decremented(s, borrow) == [Less(s[0], borrow)] + Decremented(tail, next);
      assert Complement(s) == [0xFF - s[0]] + Complement(tail);
      assert Repeated(0x80, |s|) == [0x80] + Repeated(0x80, |tail|);
      assert Markers(s, borrow) == [Marker(s[0], borrow)] + Markers(tail, next);
      hide *;
      MarkWords(tail, next);
      WordCons(Less(s[0], borrow), Decremented(tail, next));
      WordCons(0xFF - s[0], Complement(tail));
      WordCons(0x80, Repeated(0x80, |tail|));
      WordCons(Marker(s[0], borrow), Markers(tail, next));
      MarkLow(s[0], borrow, Word(Decremented(tail, next)), Word(Complement(tail)), Word(Repeated(0x80, |tail|)));
    }
  }

  /** One more byte below the others. */
  lemma MarkLow(b: byte, borrow: nat, x: nat, y: nat, z: nat)
    requires borrow < 2
    ensures And(Less(b, borrow) + 0x100 * x, And((0xFF - b) + 0x100 * y, 0x80 + 0x100 * z))
         == Marker(b, borrow) + 0x100 * And(x, And(y, z))
  {
    MarkerOf(b, borrow);
    TopBit(0xFF - b);
    var m := And(0xFF - b, 0x80);
    hide *;
    ByteAnd(0xFF - b, y, 0x80, z);
    ByteAnd(Less(b, borrow), x, m, And(y, z));
  }

  lemma EightBytes(c: byte)
    ensures Word(Repeated(c, 8)) == c * 0x0101010101010101 && Bound(8) == BASE
  {
    assert Bound(8) == 0x100 * 0x100 * Bound(6) && Bound(6) == 0x100 * 0x100 * Bound(4);
    assert Bound(4) == 0x100 * 0x100 * Bound(2) && Bound(2) == 0x100 * 0x100;
    RepeatedWord(c, 7); RepeatedWord(c, 6); RepeatedWord(c, 5); RepeatedWord(c, 4);
    RepeatedWord(c, 3); RepeatedWord(c, 2); RepeatedWord(c, 1); RepeatedWord(c, 0);
    assert Word(Repeated(c, 0)) == 0;
  }

  lemma RepeatedWord(c: byte, n: nat)
    ensures Word(Repeated(c, n + 1)) == c + 0x100 * Word(Repeated(c, n))
  {
    WordCons(c, Repeated(c, n));
  }

  /** The word-parallel marking does this to each byte of a word. */
  lemma ZeroBytesMarked(s: seq<byte>)
    requires |s| == 8
    ensures Word(s) < BASE && HasZeroByte64(Word(s)) == Word(Markers(s, 0))
  {
    hide *;
    EightBytes(1);
    EightBytes(0x80);
    WordBelow(s);
    WordBelow(Decremented(s, 0));
    Decrement(s, 0);
    ComplementWord(s);
    MarkWords(s, 0);
    Reduced(Word(s) - 0x0101010101010101, Word(Decremented(s, 0)), BorrowOut(s, 0));
    HasZeroIs(Word(s));
  }

  lemma HasZeroIs(row: nat)
    requires row < BASE
    ensures HasZeroByte64(row) == And((row - 0x0101010101010101) % BASE, And(BASE - 1 - row, 0x8080808080808080))
  {
  }

  lemma Reduced(x: int, d: nat, b: nat)
    requires d < BASE && x == d - if b == 1 then BASE else 0
    ensures x % BASE == d
  {
    DivModUnique(x, if b == 1 then -1 else 0, d, BASE);
  }

  // ---- The lowest marker ----

  ghost predicate FirstAt(s: seq<byte>, c: byte, k: nat) {
    k < |s| && s[k] == c && forall j :: 0 <= j < k ==> s[j] != c
  }

  /** No marker without a zero byte, and the lowest marker is at the first one.
      The markers above it need not be right. */
  lemma {:induction false} LowestMarker(s: seq<byte>, k: nat)
    requires k <= |s| && (k < |s| ==> s[k] == 0) && forall j :: 0 <= j < k ==> s[j] != 0
    ensures k < |s| ==> Markers(s, 0)[k] == 0x80
    ensures forall j :: 0 <= j < k ==> Markers(s, 0)[j] == 0
    decreases s
  {
    if s != [] && k > 0 {
      assert s[0] != 0;
      LowestMarker(s[1..], k - 1);
    }
  }

  /** Some byte 1 stands directly above a zero byte. */
  predicate OneAboveZero(s: seq<byte>) {
    exists j :: 0 <= j < |s| - 1 && s[j] == 0 && s[j + 1] == 1
  }

  /** Every marker is right: it marks a zero byte, and no zero byte is missed. */
  predicate AllRight(s: seq<byte>, borrow: nat)
    requires borrow < 2
  {
    forall k :: 0 <= k < |s| ==> (Markers(s, borrow)[k] == 0x80 <==> s[k] == 0)
  }

  lemma RightStep(s: seq<byte>, borrow: nat)
    requires borrow < 2 && s != []
    ensures AllRight(s, borrow)
       <==> (Marker(s[0], borrow) == 0x80 <==> s[0] == 0) && AllRight(s[1..], Borrows(s[0], borrow))
  {
    var tail, m := s[1..], Markers(s, borrow);
    var n := Markers(tail, Borrows(s[0], borrow));
    assert m == [Marker(s[0], borrow)] + n;
    if AllRight(s, borrow) {
      forall k | 0 <= k < |tail|
        ensures n[k] == 0x80 <==> tail[k] == 0
      {
        assert m[k + 1] == 0x80 <==> s[k + 1] == 0;
      }
      assert m[0] == 0x80 <==> s[0] == 0;
    }
    if (Marker(s[0], borrow) == 0x80 <==> s[0] == 0) && AllRight(tail, Borrows(s[0], borrow)) {
      forall k | 0 <= k < |s|
        ensures m[k] == 0x80 <==> s[k] == 0
      {
        assert k > 0 ==> m[k] == n[k - 1] && s[k] == tail[k - 1];
      }
    }
  }

  lemma OneAboveStep(s: seq<byte>)
    requires s != []
    ensures OneAboveZero(s) <==> OneAboveZero(s[1..]) || (|s| > 1 && s[0] == 0 && s[1] == 1)
  {
    var tail := s[1..];
    if OneAboveZero(tail) {
      var j :| 0 <= j < |tail| - 1 && tail[j] == 0 && tail[j + 1] == 1;
      assert s[j + 1] == 0 && s[j + 2] == 1;
    }
    if OneAboveZero(s) {
      var j :| 0 <= j < |s| - 1 && s[j] == 0 && s[j + 1] == 1;
      assert j > 0 ==> tail[j - 1] == 0 && tail[j] == 1;
    }
  }

  lemma {:induction false} RightMarkers(s: seq<byte>, borrow: nat)
    requires borrow < 2
    ensures AllRight(s, borrow) <==> !OneAboveZero(s) && !(borrow == 1 && s != [] && s[0] == 1)
    decreases s
  {
    if s != [] {
      RightStep(s, borrow);
      OneAboveStep(s);
      RightMarkers(s[1..], Borrows(s[0], borrow));
      hide AllRight, OneAboveZero;
    }
  }

  /** The word-parallel test marks exactly the zero bytes of a word if and only
      if no byte 1 stands directly above a zero byte. */
  lemma MarksZerosExactly(s: seq<byte>)
    requires |s| == 8
    ensures Word(s) < BASE
    ensures HasZeroByte64(Word(s)) == Word(ZeroMarks(s)) <==> !OneAboveZero(s)
  {
    ZeroBytesMarked(s);
    RightMarkers(s, 0);
    if AllRight(s, 0) {
      assert Markers(s, 0) == ZeroMarks(s);
    } else if Word(Markers(s, 0)) == Word(ZeroMarks(s)) {
      WordInjective(Markers(s, 0), ZeroMarks(s));
      assert forall k :: 0 <= k < 8 ==> (Markers(s, 0)[k] == 0x80 <==> s[k] == 0);
    }
  }

  /** 0x80 for each zero byte and 0 for every other one, as documented. */
  function ZeroMarks(s: seq<byte>): (m: seq<byte>)
    ensures |m| == |s| && forall k :: 0 <= k < |m| ==> m[k] == if s[k] == 0 then 0x80 else 0
  {
    if s == [] then [] else [if s[0] == 0 then 0x80 else 0] + ZeroMarks(s[1..])
  }

  /** A word whose two lowest bytes are 0 and 1 has both of them marked. */
  lemma FalseMarker()
    ensures Word([0, 1, 9, 9, 9, 9, 9, 9]) == 0x0909090909090100
    ensures HasZeroByte64(0x0909090909090100) == 0x8080
  {
    var s: seq<byte> := [0, 1, 9, 9, 9, 9, 9, 9];
    WordOfEight(s);
    ZeroBytesMarked(s);
    var m := Markers(s, 0);
    MarkersNext(s, 0, 0);
    MarkersNext(s, 1, 1);
    MarkersNext(s, 2, 1);
    MarkersNext(s, 3, 0);
    MarkersNext(s, 4, 0);
    MarkersNext(s, 5, 0);
    MarkersNext(s, 6, 0);
    MarkersNext(s, 7, 0);
    assert s[0..] == s;
    WordOfEight(m);
  }

  lemma MarkersNext(s: seq<byte>, k: nat, borrow: nat)
    requires k < |s| && borrow < 2
    ensures Markers(s[k..], borrow) == [Marker(s[k], borrow)] + Markers(s[k + 1..], Borrows(s[k], borrow))
  {
    assert s[k..][1..] == s[k + 1..];
  }

  lemma WordOfFour(s: seq<byte>)
    requires |s| == 4
    ensures Word(s) == Lanes4(s[0], s[1], s[2], s[3], 0x100)
  {
    assert Word(s) == s[0] + 0x100 * Word(s[1..]) && s[1..][1..] == s[2..] && s[2..][1..] == s[3..];
    assert Word(s[1..]) == s[1] + 0x100 * Word(s[2..]) && Word(s[2..]) == s[2] + 0x100 * Word(s[3..]);
    assert Word(s[3..]) == s[3];
  }

  lemma WordOfEight(s: seq<byte>)
    requires |s| == 8
    ensures Word(s) == Lanes8(s[0], s[1], s[2], s[3], s[4], s[5], s[6], s[7], 0x100)
  {
    WordOfFour(s[4..]);
    assert s[1..][1..] == s[2..] && s[2..][1..] == s[3..] && s[3..][1..] == s[4..];
    assert Word(s) == s[0] + 0x100 * Word(s[1..]) && Word(s[1..]) == s[1] + 0x100 * Word(s[2..]);
    assert Word(s[2..]) == s[2] + 0x100 * Word(s[3..]) && Word(s[3..]) == s[3] + 0x100 * Word(s[4..]);
  }

  /** fio_has_byte2bitmap: one bit for each marker. */
  function ByteToBitmap(flag: nat): nat {
    Gather8(flag / 0x80)
  }

  function Bit(b: byte): nat {
    if b == 0 then 0 else 1
  }

  lemma EightMarkers(a: byte, b: byte, c: byte, d: byte, e: byte, f: byte, g: byte, h: byte)
    requires a == 0x80 * Bit(a) && b == 0x80 * Bit(b) && c == 0x80 * Bit(c) && d == 0x80 * Bit(d)
    requires e == 0x80 * Bit(e) && f == 0x80 * Bit(f) && g == 0x80 * Bit(g) && h == 0x80 * Bit(h)
    ensures Lanes8(a, b, c, d, e, f, g, h, 0x100) / 0x80
         == Lanes8(Bit(a), Bit(b), Bit(c), Bit(d), Bit(e), Bit(f), Bit(g), Bit(h), 0x100)
  {
    DivModUnique(Lanes8(a, b, c, d, e, f, g, h, 0x100),
                 Lanes8(Bit(a), Bit(b), Bit(c), Bit(d), Bit(e), Bit(f), Bit(g), Bit(h), 0x100), 0, 0x80);
  }

  lemma Bitmap(m: seq<byte>)
    requires |m| == 8 && forall k :: 0 <= k < 8 ==> m[k] == 0 || m[k] == 0x80
    ensures ByteToBitmap(Word(m))
         == Bits8(Bit(m[0]), Bit(m[1]), Bit(m[2]), Bit(m[3]), Bit(m[4]), Bit(m[5]), Bit(m[6]), Bit(m[7]))
  {
    WordOfEight(m);
    assert forall k :: 0 <= k < 8 ==> m[k] == 0x80 * Bit(m[k]) && Bit(m[k]) < 2;
    hide Word, Lanes8, Gather8, Bits8, Bit;
    EightMarkers(m[0], m[1], m[2], m[3], m[4], m[5], m[6], m[7]);
    Gather8Of(Bit(m[0]), Bit(m[1]), Bit(m[2]), Bit(m[3]), Bit(m[4]), Bit(m[5]), Bit(m[6]), Bit(m[7]));
  }

  /** The bitmap of the markers. */
  function Packed(m: seq<byte>): nat {
    if m == [] then 0 else Bit(m[0]) + 2 * Packed(m[1..])
  }

  /** The lowest bit of a bitmap belongs to the first marker. */
  lemma {:induction false} LsbFrom(m: seq<byte>, k: nat)
    requires k < |m| && m[k] != 0 && forall j :: 0 <= j < k ==> m[j] == 0
    ensures Packed(m) > 0 && TrailingZeros(Packed(m)) == k
    decreases k
  {
    if k > 0 {
      LsbFrom(m[1..], k - 1);
    }
  }

  lemma PackedEight(m: seq<byte>)
    requires |m| == 8
    ensures Packed(m) == Bits8(Bit(m[0]), Bit(m[1]), Bit(m[2]), Bit(m[3]), Bit(m[4]), Bit(m[5]), Bit(m[6]), Bit(m[7]))
  {
    hide Packed, Bit;
    PackedNone(m);
    PackedStep(m, 0); PackedStep(m, 1); PackedStep(m, 2); PackedStep(m, 3);
    PackedStep(m, 4); PackedStep(m, 5); PackedStep(m, 6); PackedStep(m, 7);
    assert m[0..] == m;
  }

  lemma PackedNone(m: seq<byte>)
    ensures Packed(m[|m|..]) == 0
  {
  }

  lemma PackedStep(m: seq<byte>, k: nat)
    requires k < |m|
    ensures Packed(m[k..]) == Bit(m[k]) + 2 * Packed(m[k + 1..])
  {
    assert m[k..][1..] == m[k + 1..];
  }

  // ---- One word of the buffer ----

  lemma {:induction false} WordZero(s: seq<byte>)
    ensures Word(s) == 0 <==> forall k :: 0 <= k < |s| ==> s[k] == 0
    decreases s
  {
    if s != [] {
      WordZero(s[1..]);
      assert forall k :: 0 <= k < |s[1..]| ==> s[1..][k] == s[k + 1];
      if Word(s) != 0 && s[0] == 0 {
        var k :| 0 <= k < |s[1..]| && s[1..][k] != 0;
        assert s[k + 1] != 0;
      }
    }
  }

  /** The markers of the bytes of a chunk that equal the token. */
  function ChunkMarkers(chunk: seq<byte>, token: byte): (m: seq<byte>)
    ensures |m| == |chunk| && forall k :: 0 <= k < |m| ==> m[k] == 0 || m[k] == 0x80
  {
    Markers(Differences(chunk, token), 0)
  }

  /** Where the token is first, counting |chunk| for nowhere. */
  function FirstIndex(chunk: seq<byte>, token: byte): (k: nat)
    ensures k <= |chunk| && (k < |chunk| ==> chunk[k] == token)
    ensures forall j :: 0 <= j < k ==> chunk[j] != token
  {
    if chunk == [] || chunk[0] == token then 0 else 1 + FirstIndex(chunk[1..], token)
  }

  lemma FirstMarker(chunk: seq<byte>, token: byte)
    ensures var k, m := FirstIndex(chunk, token), ChunkMarkers(chunk, token);
      (k < |chunk| ==> m[k] == 0x80) && forall j :: 0 <= j < k ==> m[j] == 0
  {
    var k, d := FirstIndex(chunk, token), Differences(chunk, token);
    forall j | 0 <= j < |chunk| && j <= k
      ensures d[j] == 0 <==> chunk[j] == token
    {
      DifferenceAt(chunk, token, j);
    }
    LowestMarker(d, k);
  }

  /** The word operations on eight bytes, and what they find. */
  lemma ChunkFound(chunk: seq<byte>, token: byte)
    requires |chunk| == 8
    ensures Xor(Word(chunk), Word(Repeated(token, 8))) < BASE
    ensures HasZeroByte64(Xor(Word(chunk), Word(Repeated(token, 8)))) == Word(ChunkMarkers(chunk, token))
    ensures Word(ChunkMarkers(chunk, token)) == 0 <==> token !in chunk
  {
    var m := ChunkMarkers(chunk, token);
    XorBytes(chunk, token);
    ZeroBytesMarked(Differences(chunk, token));
    FirstMarker(chunk, token);
    WordZero(m);
    if token in chunk {
      var j :| 0 <= j < 8 && chunk[j] == token;
      assert FirstIndex(chunk, token) < 8;
      assert m[FirstIndex(chunk, token)] == 0x80;
    }
  }

  /** The lowest bit of the bitmap is the place of the first occurrence. */
  lemma ChunkPlace(chunk: seq<byte>, token: byte)
    requires |chunk| == 8 && token in chunk
    ensures ByteToBitmap(Word(ChunkMarkers(chunk, token))) > 0
    ensures TrailingZeros(ByteToBitmap(Word(ChunkMarkers(chunk, token)))) == FirstIndex(chunk, token) < 8
  {
    var m, k := ChunkMarkers(chunk, token), FirstIndex(chunk, token);
    var j :| 0 <= j < 8 && chunk[j] == token;
    assert k < 8;
    FirstMarker(chunk, token);
    hide ByteToBitmap, Word, TrailingZeros, Packed, ChunkMarkers;
    Bitmap(m);
    PackedEight(m);
    LsbFrom(m, k);
  }

  /** w |= w << s, where p is 2 to the s. */
  function OrLeft(w: nat, p: nat): nat {
    Or(w, w * p % BASE)
  }

  /** Each byte of the mask is the token. */
  function TokenMask(t: byte): nat {
    OrLeft(OrLeft(OrLeft(t, 0x1_0000_0000), 0x1_0000), 0x100)
  }

  lemma MaskShifts(t: byte)
    ensures t == Lanes8(t, 0, 0, 0, 0, 0, 0, 0, 0x100)
    ensures t * 0x1_0000_0000 % BASE == Lanes8(0, 0, 0, 0, t, 0, 0, 0, 0x100)
    ensures Lanes8(t, 0, 0, 0, t, 0, 0, 0, 0x100) * 0x1_0000 % BASE == Lanes8(0, 0, t, 0, 0, 0, t, 0, 0x100)
    ensures Lanes8(t, 0, t, 0, t, 0, t, 0, 0x100) * 0x100 % BASE == Lanes8(0, t, 0, t, 0, t, 0, t, 0x100)
    ensures Lanes8(t, t, t, t, t, t, t, t, 0x100) == t * 0x0101010101010101
  {
    DivModUnique(Lanes8(0, 0, 0, 0, t, 0, 0, 0, 0x100), 0, Lanes8(0, 0, 0, 0, t, 0, 0, 0, 0x100), BASE);
    DivModUnique(Lanes8(0, 0, t, 0, 0, 0, t, 0, 0x100), 0, Lanes8(0, 0, t, 0, 0, 0, t, 0, 0x100), BASE);
    DivModUnique(Lanes8(0, t, 0, t, 0, t, 0, t, 0x100), 0, Lanes8(0, t, 0, t, 0, t, 0, t, 0x100), BASE);
  }

  lemma OrLeftIs(w: nat, p: nat, x: nat)
    requires w * p % BASE == x
    ensures OrLeft(w, p) == Or(w, x)
  {
  }

  lemma ZerosApart(t: byte)
    ensures Apart(t, 0) && Apart(0, t) && Apart(0, 0)
  {
  }

  lemma TokenMaskIs(t: byte)
    ensures TokenMask(t) == OrLeft(OrLeft(OrLeft(t, 0x1_0000_0000), 0x1_0000), 0x100)
  {
  }

  /** Spreading the token over a word by shifts and ORs. */
  lemma MaskOf(t: byte)
    ensures TokenMask(t) == Word(Repeated(t, 8))
  {
    hide *;
    TokenMaskIs(t);
    ZerosApart(t);
    MaskShifts(t);
    EightBytes(t);
    OrLeftIs(t, 0x1_0000_0000, Lanes8(0, 0, 0, 0, t, 0, 0, 0, 0x100));
    OrLanes8(t, 0, 0, 0, 0, 0, 0, 0, 0, 0, 0, 0, t, 0, 0, 0);
    var m32, m16 := Lanes8(t, 0, 0, 0, t, 0, 0, 0, 0x100), Lanes8(t, 0, t, 0, t, 0, t, 0, 0x100);
    OrLeftIs(m32, 0x1_0000, Lanes8(0, 0, t, 0, 0, 0, t, 0, 0x100));
    OrLanes8(t, 0, 0, 0, t, 0, 0, 0, 0, 0, t, 0, 0, 0, t, 0);
    OrLeftIs(m16, 0x100, Lanes8(0, t, 0, t, 0, t, 0, t, 0x100));
    OrLanes8(t, 0, t, 0, t, 0, t, 0, 0, t, 0, t, 0, t, 0, t);
  }

  // ---- The search ----

  /** The markers of the word at r. */
  function MarkersAt(buffer: seq<byte>, r: nat, mask: nat): nat
    requires r + 8 <= |buffer|
  {
    HasZeroByte64(Xor(Word(buffer[r..r + 8]), mask) % BASE)
  }

  lemma MarkersFind(buffer: seq<byte>, r: nat, token: byte)
    requires r + 8 <= |buffer|
    ensures MarkersAt(buffer, r, TokenMask(token)) == Word(ChunkMarkers(buffer[r..r + 8], token))
    ensures MarkersAt(buffer, r, TokenMask(token)) == 0 <==> token !in buffer[r..r + 8]
  {
    hide Xor, Word, Repeated, ChunkMarkers, TokenMask, HasZeroByte64;
    MaskOf(token);
    ChunkFound(buffer[r..r + 8], token);
    DivModUnique(Xor(Word(buffer[r..r + 8]), TokenMask(token)), 0, Xor(Word(buffer[r..r + 8]), TokenMask(token)), BASE);
  }

  /** The first occurrence of the token, if there is one. */
  ghost predicate Found(buffer: seq<byte>, token: byte, r: Option<nat>) {
    match r
    case None => token !in buffer
    case Some(k) => FirstAt(buffer, token, k)
  }

  /** The place named by the markers of the word at r. */
  method Place(buffer: seq<byte>, r: nat, token: byte, flag: nat) returns (k: nat)
    requires r + 8 <= |buffer| && token !in buffer[..r] && token in buffer[r..r + 8]
    requires flag == MarkersAt(buffer, r, TokenMask(token))
    ensures FirstAt(buffer, token, k)
  {
    ghost var chunk := buffer[r..r + 8];
    MarkersFind(buffer, r, token);
    ChunkPlace(chunk, token);
    hide ByteToBitmap, TrailingZeros, MarkersAt, TokenMask;
    k := r + TrailingZeros(ByteToBitmap(flag));
    assert buffer[k] == chunk[k - r];
    forall j | 0 <= j < k
      ensures buffer[j] != token
    {
      assert j < r ==> buffer[j] == buffer[..r][j];
      assert j >= r ==> buffer[j] == chunk[j - r];
    }
  }

  /** The words of a block, replaced by their markers. */
  ghost predicate MarkedFrom(us: seq<nat>, buffer: seq<byte>, r: nat, token: byte) {
    && r + 8 * |us| <= |buffer|
    && forall j :: 0 <= j < |us| ==> us[j] == MarkersAt(buffer, r + 8 * j, TokenMask(token))
  }

  predicate AllZero(us: seq<nat>) {
    forall j :: 0 <= j < |us| ==> us[j] == 0
  }

  lemma MarkedNext(us: seq<nat>, buffer: seq<byte>, r: nat, token: byte, m: nat, flag: nat)
    requires MarkedFrom(us, buffer, r, token) && r + 8 * |us| + 8 <= |buffer|
    requires m == MarkersAt(buffer, r + 8 * |us|, TokenMask(token)) && (flag == 0 <==> AllZero(us))
    ensures MarkedFrom(us + [m], buffer, r, token) && (Or(flag, m) == 0 <==> AllZero(us + [m]))
  {
    OrZero(flag, m);
    hide Or, MarkersAt, TokenMask;
    var all := us + [m];
    assert all[|us|] == m;
    assert forall j :: 0 <= j < |us| ==> us[j] == all[j];
  }

  /** The markers of sixteen words; the flag tells whether there are any. */
  method ScanBlock(buffer: seq<byte>, r: nat, token: byte, u: array<nat>) returns (flag: nat)
    requires r + 128 <= |buffer| && u.Length == 16
    modifies u
    ensures MarkedFrom(u[..], buffer, r, token) && (flag == 0 <==> AllZero(u[..]))
  {
    flag := 0;
    for i := 0 to 16
      invariant MarkedFrom(u[..i], buffer, r, token) && (flag == 0 <==> AllZero(u[..i]))
    {
      hide *;
      ghost var done := u[..i];
      var m := MarkersAt(buffer, r + 8 * i, TokenMask(token));
      MarkedNext(done, buffer, r, token, m, flag);
      u[i] := m;
      flag := Or(flag, m);
      assert u[..i + 1] == done + [m];
    }
    assert u[..16] == u[..];
  }

  lemma NotYet(buffer: seq<byte>, r: nat, n: nat, token: byte)
    requires r + n <= |buffer| && token !in buffer[..r] && token !in buffer[r..r + n]
    ensures token !in buffer[..r + n]
  {
    assert buffer[..r + n] == buffer[..r] + buffer[r..r + n];
  }

  lemma {:induction false} NoneInWords(buffer: seq<byte>, r: nat, us: seq<nat>, token: byte)
    requires MarkedFrom(us, buffer, r, token) && token !in buffer[..r] && AllZero(us)
    ensures token !in buffer[..r + 8 * |us|]
    decreases |us|
  {
    hide MarkersAt, TokenMask;
    if us != [] {
      var n := |us| - 1;
      NoneInWords(buffer, r, us[..n], token);
      assert us[n] == MarkersAt(buffer, r + 8 * n, TokenMask(token));
      MarkersFind(buffer, r + 8 * n, token);
      NotYet(buffer, r + 8 * n, 8, token);
    }
  }

  /** One block: the occurrence in it, if there is one. */
  method SearchBlock(buffer: seq<byte>, r: nat, token: byte, u: array<nat>) returns (k: Option<nat>)
    requires r + 128 <= |buffer| && u.Length == 16 && token !in buffer[..r]
    modifies u
    ensures k.None? ==> token !in buffer[..r + 128]
    ensures k.Some? ==> FirstAt(buffer, token, k.value)
  {
    hide MarkersAt, TokenMask, FirstAt, MarkedFrom;
    var flag := ScanBlock(buffer, r, token, u);
    ghost var us := u[..];
    if flag == 0 {
      NoneInWords(buffer, r, us, token);
      return None;
    }
    ghost var last :| 0 <= last < 16 && us[last] != 0;
    var i := 0;
    while u[i] == 0
      invariant 0 <= i <= last && u[..] == us && AllZero(us[..i])
      decreases 16 - i
    {
      i := i + 1;
    }
    MarkedAt(us, buffer, r, token, i);
    NoneInWords(buffer, r, us[..i], token);
    MarkersFind(buffer, r + 8 * i, token);
    var place := Place(buffer, r + 8 * i, token, u[i]);
    return Some(place);
  }

  lemma MarkedAt(us: seq<nat>, buffer: seq<byte>, r: nat, token: byte, i: nat)
    requires MarkedFrom(us, buffer, r, token) && i < |us|
    ensures MarkedFrom(us[..i], buffer, r, token)
    ensures us[i] == MarkersAt(buffer, r + 8 * i, TokenMask(token))
  {
    hide MarkersAt, TokenMask;
  }

  /** fio___memchr_scalar */
  method Memchr(buffer: seq<byte>, token: byte) returns (k: Option<nat>)
    ensures k.None? ==> token !in buffer
    ensures k.Some? ==> k.value < |buffer| && buffer[k.value] == token && token !in buffer[..k.value]
  {
    var r, len := 0, |buffer|;
    if len >= 128 {
      var u := new nat[16];
      while r < len - 127
        invariant 0 <= r <= len && token !in buffer[..r]
        decreases len - r
      {
        k := SearchBlock(buffer, r, token, u);
        if k.Some? {
          return;
        }
        r := r + 128;
      }
      while r < len - 7
        invariant 0 <= r <= len && token !in buffer[..r]
        decreases len - r
      {
        hide MarkersAt, TokenMask;
        MarkersFind(buffer, r, token);
        var flag := MarkersAt(buffer, r, TokenMask(token));
        if flag != 0 {
          var place := Place(buffer, r, token, flag);
          return Some(place);
        }
        NotYet(buffer, r, 8, token);
        r := r + 8;
      }
    }
    while r < len
      invariant 0 <= r <= len && token !in buffer[..r]
    {
      if buffer[r] == token {
        return Some(r);
      }
      assert buffer[r..r + 1] == [buffer[r]];
      NotYet(buffer, r, 1, token);
      r := r + 1;
    }
    assert buffer[..r] == buffer;
    return None;
  }
}
