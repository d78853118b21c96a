/** The UTF-8 codec: the bit layout of section 3 of RFC 3629, for all code points
    of 21 bits. */
module Utf8 {
  import opened Bytes
  import opened Modular
  import opened Bitwise
  import opened Parsers
  import opened Swar

  const LIMIT: nat := 0x20_0000

  // ---- The encoding ----

  /** The continuation byte with the low six bits of u. */
  function Tail(u: nat): (c: byte) {
    0x80 + u % 0x40
  }

  /** The bytes of a code point. */
  function Encode(u: nat): (s: seq<byte>)
    requires u < LIMIT
    ensures 1 <= |s| <= 4
  {
    if u < 0x80 then [u]
    else if u < 0x800 then [0xC0 + u / 0x40, Tail(u)]
    else if u < 0x1_0000 then [0xE0 + u / 0x40 / 0x40, Tail(u / 0x40), Tail(u)]
    else [0xF0 + u / 0x40 / 0x40 / 0x40, Tail(u / 0x40 / 0x40), Tail(u / 0x40), Tail(u)]
  }

  /** The length that a lead byte announces, or 0. */
  function LeadLength(c: byte): (n: nat)
    ensures n <= 4
  {
    if c < 0x80 then 1
    else if c < 0xC0 then 0
    else if c < 0xE0 then 2
    else if c < 0xF0 then 3
    else if c < 0xF8 then 4
    else 0
  }

  predicate IsContinuation(c: byte) {
    0x80 <= c < 0xC0
  }

  /** A lead byte and the right number of continuation bytes. */
  predicate IsChar(text: seq<byte>, p: nat, n: nat) {
    && 1 <= n && p + n <= |text| && LeadLength(text[p]) == n
    && forall k :: p < k < p + n ==> IsContinuation(text[k])
  }

  /** The payload of a lead byte, and six more bits. */
  function Lead(c: byte, n: nat): nat
    requires n > 0
  {
    c as int % n
  }

  function Join(high: nat, c: byte): nat {
    high * 0x40 + Lead(c, 0x40)
  }

  /** The number that such bytes carry. */
  function Payload(text: seq<byte>, p: nat, n: nat): nat
    requires 1 <= n <= 4 && p + n <= |text|
  {
    if n == 1 then text[p]
    else if n == 2 then Join(Lead(text[p], 0x20), text[p + 1])
    else if n == 3 then Join(Join(Lead(text[p], 0x10), text[p + 1]), text[p + 2])
    else Join(Join(Join(Lead(text[p], 8), text[p + 1]), text[p + 2]), text[p + 3])
  }

  lemma JoinTail(u: nat)
    ensures Join(u / 0x40, Tail(u)) == u && IsContinuation(Tail(u))
  {
  }

  lemma JoinSplit(high: nat, c: byte)
    requires IsContinuation(c)
    ensures Join(high, c) / 0x40 == high && Tail(Join(high, c)) == c
  {
    DivModUnique(Join(high, c), high, c - 0x80, 0x40);
  }

  lemma EncodeTwo(text: seq<byte>, p: nat, u: nat)
    requires 0x80 <= u < 0x800 && p + 2 <= |text| && text[p] == 0xC0 + u / 0x40 && text[p + 1] == Tail(u)
    ensures IsChar(text, p, 2) && Payload(text, p, 2) == u
  {
    JoinTail(u);
    hide Join, Tail;
    DivModUnique(0xC0 + u / 0x40, 6, u / 0x40, 0x20);
  }

  lemma EncodeThree(text: seq<byte>, p: nat, u: nat)
    requires 0x800 <= u < 0x1_0000 && p + 3 <= |text|
    requires text[p] == 0xE0 + u / 0x40 / 0x40 && text[p + 1] == Tail(u / 0x40) && text[p + 2] == Tail(u)
    ensures IsChar(text, p, 3) && Payload(text, p, 3) == u
  {
    JoinTail(u);
    JoinTail(u / 0x40);
    hide Join, Tail;
    DivModUnique(0xE0 + u / 0x40 / 0x40, 14, u / 0x40 / 0x40, 0x10);
  }

  lemma EncodeFour(text: seq<byte>, p: nat, u: nat)
    requires 0x1_0000 <= u < LIMIT && p + 4 <= |text|
    requires text[p] == 0xF0 + u / 0x40 / 0x40 / 0x40 && text[p + 1] == Tail(u / 0x40 / 0x40)
    requires text[p + 2] == Tail(u / 0x40) && text[p + 3] == Tail(u)
    ensures IsChar(text, p, 4) && Payload(text, p, 4) == u
  {
    JoinTail(u);
    JoinTail(u / 0x40);
    JoinTail(u / 0x40 / 0x40);
    hide Join, Tail;
    DivModUnique(0xF0 + u / 0x40 / 0x40 / 0x40, 30, u / 0x40 / 0x40 / 0x40, 8);
  }

  /** Decoding what was encoded. */
  lemma EncodeDecodes(text: seq<byte>, p: nat, u: nat)
    requires u < LIMIT && p + |Encode(u)| <= |text| && text[p..p + |Encode(u)|] == Encode(u)
    ensures IsChar(text, p, |Encode(u)|) && Payload(text, p, |Encode(u)|) == u
  {
    var s := Encode(u);
    forall k | 0 <= k < |s|
      ensures text[p + k] == s[k]
    {
      assert text[p + k] == text[p..p + |s|][k];
    }
    assert text[p + 0] == s[0];
    hide Tail, IsChar, Payload;
    if u < 0x80 {
      Ascii(text, p);
    } else if u < 0x800 {
      EncodeTwo(text, p, u);
    } else if u < 0x1_0000 {
      EncodeThree(text, p, u);
    } else {
      EncodeFour(text, p, u);
    }
  }

  lemma Ascii(text: seq<byte>, p: nat)
    requires p < |text|
    ensures text[p] < 0x80 ==> IsChar(text, p, 1) && Payload(text, p, 1) == text[p]
  {
  }

  lemma DecodeTwo(a: byte, b: byte, u: nat)
    requires LeadLength(a) == 2 && IsContinuation(b) && u == Join(Lead(a, 0x20), b)
    ensures u < 0x800 && (u >= 0x80 ==> Encode(u) == [a, b])
  {
    JoinSplit(Lead(a, 0x20), b);
    DivModUnique(a, 6, a - 0xC0, 0x20);
    Bounded(Lead(a, 0x20), b);
    hide Join, Tail;
  }

  lemma Bounded(high: nat, c: byte)
    ensures 0x40 * high <= Join(high, c) < 0x40 * high + 0x40
  {
  }

  lemma DecodeThree(a: byte, b: byte, c: byte, u: nat)
    requires LeadLength(a) == 3 && IsContinuation(b) && IsContinuation(c) && u == Join(Join(Lead(a, 0x10), b), c)
    ensures u < 0x1_0000 && (u >= 0x800 ==> Encode(u) == [a, b, c])
  {
    JoinSplit(Lead(a, 0x10), b);
    JoinSplit(Join(Lead(a, 0x10), b), c);
    DivModUnique(a, 14, a - 0xE0, 0x10);
    Bounded(Lead(a, 0x10), b);
    Bounded(Join(Lead(a, 0x10), b), c);
    hide Join, Tail;
  }

  lemma DecodeFour(a: byte, b: byte, c: byte, d: byte, u: nat)
    requires LeadLength(a) == 4 && IsContinuation(b) && IsContinuation(c) && IsContinuation(d)
    requires u == Join(Join(Join(Lead(a, 8), b), c), d)
    ensures u < LIMIT && (u >= 0x1_0000 ==> Encode(u) == [a, b, c, d])
  {
    JoinSplit(Lead(a, 8), b);
    JoinSplit(Join(Lead(a, 8), b), c);
    JoinSplit(Join(Join(Lead(a, 8), b), c), d);
    DivModUnique(a, 30, a - 0xF0, 8);
    Bounded(Lead(a, 8), b);
    Bounded(Join(Lead(a, 8), b), c);
    Bounded(Join(Join(Lead(a, 8), b), c), d);
    hide Join, Tail;
  }

  /** Encoding what was decoded gives the bytes back exactly if they are not
      longer than the number needs. */
  lemma DecodeEncodes(text: seq<byte>, p: nat, n: nat)
    requires IsChar(text, p, n)
    ensures Payload(text, p, n) < LIMIT
    ensures text[p..p + n] == Encode(Payload(text, p, n)) <==> |Encode(Payload(text, p, n))| == n
  {
    var u := Payload(text, p, n);
    if n == 1 {
      assert text[p..p + 1] == [text[p]];
    } else if n == 2 {
      DecodeTwo(text[p], text[p + 1], u);
      assert text[p..p + 2] == [text[p], text[p + 1]];
    } else if n == 3 {
      DecodeThree(text[p], text[p + 1], text[p + 2], u);
      assert text[p..p + 3] == [text[p], text[p + 1], text[p + 2]];
    } else {
      DecodeFour(text[p], text[p + 1], text[p + 2], text[p + 3], u);
      assert text[p..p + 4] == [text[p], text[p + 1], text[p + 2], text[p + 3]];
    }
  }

  // ---- Lengths ----

  /** fio_utf8_code_len */
  function CodeLength(u: nat): (len: nat)
    ensures len == if u < LIMIT then |Encode(u)| else 0
  {
    var len := 1 + (if u > 127 then 1 else 0) + (if u > 2047 then 1 else 0) + (if u > 65535 then 1 else 0);
    if u > 0x1F_FFFF then 0 else len
  }

  /** fio_utf8_char_len_unsafe: 1 to 4 for a lead byte, 8 for a continuation. */
  function ByteClass(c: byte): (n: nat)
    ensures n == if IsContinuation(c) then 8 else LeadLength(c)
  {
    var i := c as int / 8;
    if i < 16 then 1 else if i < 24 then 8 else if i < 28 then 2 else if i < 30 then 3 else if i < 31 then 4 else 0
  }

  /** The length of the character at p, 0 if there is none. */
  function CharAt(text: seq<byte>, p: nat): (n: nat)
    requires p < |text|
    ensures n > 0 ==> IsChar(text, p, n)
    ensures (exists m :: IsChar(text, p, m)) ==> n > 0
  {
    if IsChar(text, p, LeadLength(text[p])) then LeadLength(text[p]) else 0
  }

  /** fio_utf8_char_len, where the text holds as many bytes as announced or ends
      with a NUL. */
  method CharLength(text: seq<byte>, p: nat) returns (r: nat)
    requires p < |text| && (p + LeadLength(text[p]) <= |text| || Terminated(text, p))
    ensures r == CharAt(text, p)
  {
    r := ByteClass(text[p]) % 8;
    if r < 2 {
      return;
    }
    if p + r > |text| {
      StillTerminated(text, p);
    }
    var tst := 1;
    if r > 3 {
      tst := tst + ByteClass(text[p + tst]) / 8;
    }
    if tst > 1 && p + r > |text| {
      StillTerminated(text, p + 1);
    }
    if r > 2 {
      ghost var before := tst;
      tst := tst + ByteClass(text[p + tst]) / 8;
      if tst > before && p + r > |text| {
        StillTerminated(text, p + before);
      }
    }
    tst := tst + ByteClass(text[p + tst]) / 8;
    if r != tst {
      r := 0;
    }
  }

  // ---- Writing ----

  lemma SixMask(x: nat)
    ensures And(x, 0x3F) == x % 0x40 && Or(0x80, And(x, 0x3F)) == Tail(x)
  {
    UtfPowers();
    AndMask(x, 6);
    OrAddLow(2, x % 0x40, 6);
  }

  lemma UtfPowers()
    ensures Pow2(3) == 8 && Pow2(4) == 0x10 && Pow2(5) == 0x20 && Pow2(6) == 0x40
    ensures Pow2(12) == 0x1000 && Pow2(18) == 0x4_0000
  {
    assert Pow2(4) == 16 * Pow2(0) && Pow2(6) == 4 * Pow2(4);
    PowSum(6, 6);
    PowSum(6, 12);
  }

  lemma LeadBytes(x: nat)
    ensures x < 0x20 ==> Or(0xC0, x) == 0xC0 + x
    ensures x < 0x10 ==> Or(0xE0, x) == 0xE0 + x
    ensures x < 8 ==> Or(0xF0, x) == 0xF0 + x
  {
    UtfPowers();
    hide Or, Pow2;
    if x < 0x20 { OrAddLow(6, x, 5); }
    if x < 0x10 { OrAddLow(14, x, 4); }
    if x < 8 { OrAddLow(30, x, 3); }
  }

  /** u shifted down by six bits for each continuation byte. */
  function Shifted(u: nat, n: nat): nat
    requires n <= 3
  {
    if n == 0 then u else if n == 1 then u / 0x40 else if n == 2 then u / 0x40 / 0x40 else u / 0x40 / 0x40 / 0x40
  }

  /** The lead byte, from a shifted 0xF0 truncated to a byte. */
  function LeadByte(u: nat, len: nat): byte
    requires 2 <= len <= 4
  {
    Or(0xF0 * (if len == 2 then 4 else if len == 3 then 2 else 1) % 0x100, Shifted(u, len - 1)) % 0x100
  }

  lemma LeadByteIs(u: nat)
    requires 0x80 <= u < LIMIT
    ensures LeadByte(u, |Encode(u)|) == Encode(u)[0]
  {
    hide Or;
    if u < 0x800 {
      LeadBytes(u / 0x40);
    } else if u < 0x1_0000 {
      LeadBytes(u / 0x40 / 0x40);
    } else {
      LeadBytes(u / 0x40 / 0x40 / 0x40);
    }
  }

  lemma EncodeAt(u: nat)
    requires 0x80 <= u < LIMIT
    ensures var n := |Encode(u)|;
      && Encode(u)[n - 1] == Tail(u)
      && (n > 2 ==> Encode(u)[n - 2] == Tail(u / 0x40))
      && (n > 3 ==> Encode(u)[1] == Tail(u / 0x40 / 0x40))
  {
    hide Tail;
  }

  /** The part of fio_utf8_write for more than one byte. Bytes that the length
      does not count are overwritten by the next one. */
  method WriteLong(dest: array<byte>, at: nat, u: nat, len: nat)
    requires 0x80 <= u < LIMIT && len == |Encode(u)| >= 2 && at + len <= dest.Length
    modifies dest
    ensures dest[at..at + len] == Encode(u)
    ensures forall j :: 0 <= j < dest.Length && !(at <= j < at + len) ==> dest[j] == old(dest[j])
  {
    hide Or, And, LeadByte, Tail, Encode, Shifted;
    LeadByteIs(u);
    EncodeAt(u);
    SixMask(u / 0x40 / 0x40);
    SixMask(u / 0x40);
    SixMask(u);
    var p := at;
    dest[p] := LeadByte(u, len);
    p := p + 1;
    dest[p] := Or(0x80, And(u / 0x40 / 0x40, 0x3F));
    p := p + if len > 3 then 1 else 0;
    dest[p] := Or(0x80, And(u / 0x40, 0x3F));
    p := p + if len > 2 then 1 else 0;
    dest[p] := Or(0x80, And(u, 0x3F));
    ghost var s := Encode(u);
    assert dest[at] == s[0] && dest[at + len - 1] == s[len - 1];
    assert len > 2 ==> dest[at + len - 2] == s[len - 2];
    assert len > 3 ==> dest[at + 1] == s[1];
  }

  /** fio_utf8_write. A number over the limit is truncated to one byte, and the
      length 0 is returned. */
  method Write(dest: array<byte>, at: nat, u: nat) returns (len: nat)
    requires at + (if u < LIMIT then |Encode(u)| else 1) <= dest.Length
    modifies dest
    ensures len == if u < LIMIT then |Encode(u)| else 0
    ensures u < LIMIT ==> dest[at..at + len] == Encode(u)
    ensures u >= LIMIT ==> dest[at] == u % 0x100
    ensures forall j | 0 <= j < dest.Length && !(at <= j < at + len || (len == 0 && j == at))
              :: dest[j] == old(dest[j])
  {
    len := CodeLength(u);
    if len < 2 {
      dest[at] := u % 0x100;
      return;
    }
    WriteLong(dest, at, u, len);
  }

  // ---- Reading ----

  /** ORing in bits that are already there changes nothing. */
  lemma OrAgain(hi: nat, x: nat, k: nat, p: nat)
    requires p == Pow2(k) && x < p
    ensures p * hi >= 0 && Or(p * hi + x, x) == p * hi + x
  {
    OrSelf(x);
    OrNothing(hi);
    hide *;
    MulNonNegative(p, hi);
    OrSplit(x, hi, x, 0, k);
    assert p * 0 == 0;
  }

  lemma OrNothing(x: nat)
    ensures Or(x, 0) == x
  {
  }

  lemma {:induction false} OrSelf(x: nat)
    ensures Or(x, x) == x
  {
    if x > 0 {
      OrSelf(x / 2);
    }
  }

  /** The four terms that fio_utf8_read ORs together. For shorter characters
      some of them repeat a term. */
  function OrFour(a: nat, b: nat, c: nat, d: nat): nat {
    Or(Or(Or(a, b), c), d)
  }

  lemma OrFourIs(a: nat, b: nat, c: nat, d: nat)
    requires b < 0x40 && c < 0x40 && d < 0x40
    ensures OrFour(a * 0x40, b, b, b) == a * 0x40 + b
    ensures OrFour(a * 0x1000, b * 0x40, b * 0x40, c) == (a * 0x40 + b) * 0x40 + c
    ensures OrFour(a * 0x4_0000, b * 0x1000, c * 0x40, d) == ((a * 0x40 + b) * 0x40 + c) * 0x40 + d
  {
    UtfPowers();
    hide Or, Pow2;
    OrAddLow(a, b, 6);
    OrAgain(a, b, 6, 0x40);
    OrAddLow(a, b * 0x40, 12);
    OrAgain(a, b * 0x40, 12, 0x1000);
    OrAddLow(a * 0x40 + b, c, 6);
    OrAddLow(a, b * 0x1000, 18);
    OrAddLow(a * 0x40 + b, c * 0x40, 12);
    OrAddLow((a * 0x40 + b) * 0x40 + c, d, 6);
  }

  lemma LeadMasks(x: byte)
    ensures And(x, 0x1F) == Lead(x, 0x20) && And(x, 0x0F) == Lead(x, 0x10)
    ensures And(x, 7) == Lead(x, 8) && And(x, 0x3F) == Lead(x, 0x40)
  {
    UtfPowers();
    AndMask(x, 5);
    AndMask(x, 4);
    AndMask(x, 3);
    AndMask(x, 6);
  }

  /** 2 to the 6n, for shifts by n times six bits. */
  function SixShift(n: nat): nat
    requires n <= 3
  {
    if n == 0 then 1 else if n == 1 then 0x40 else if n == 2 then 0x1000 else 0x4_0000
  }

  /** The part of fio_utf8_read for more than one byte. */
  method ReadLong(text: seq<byte>, p: nat, len: nat) returns (u: nat)
    requires 2 <= len <= 4 && p + len <= |text|
    ensures u == Payload(text, p, len)
  {
    hide And, Or, OrFour, Payload, Lead;
    var t2, t3 := if len > 2 then 1 else 0, if len > 3 then 2 else 1;
    var t3a, t4 := (if len > 2 then 1 else 0) + (if len > 3 then 1 else 0), len - 1;
    var mask := if t4 == 1 then 0x1F else if t4 == 2 then 0x0F else 7;
    LeadMasks(text[p]);
    LeadMasks(text[p + 1]);
    LeadMasks(text[p + t3]);
    LeadMasks(text[p + t4]);
    TermsJoined(text, p, len);
    u := OrFour(And(text[p], mask) * SixShift(t4), And(text[p + 1], 0x3F) * SixShift(t3a),
                And(text[p + t3], 0x3F) * SixShift(t2), And(text[p + t4], 0x3F));
  }

  /** fio_utf8_read. Where no character is, nothing is consumed. */
  method Read(text: seq<byte>, p: nat) returns (u: nat, q: nat)
    requires p < |text| && (p + LeadLength(text[p]) <= |text| || Terminated(text, p))
    ensures q == p + CharAt(text, p)
    ensures u == if q > p then Payload(text, p, q - p) else 0
  {
    var len := CharLength(text, p);
    q := p + len;
    if len == 0 {
      return 0, q;
    }
    if len == 1 {
      return text[p], q;
    }
    u := ReadLong(text, p, len);
  }

  /** The OR of the terms, by length. */
  function ReadTerms(text: seq<byte>, p: nat, len: nat): nat
    requires 2 <= len <= 4 && p + len <= |text|
  {
    var x, y := Lead(text[p + 1], 0x40), Lead(text[p + len - 1], 0x40);
    if len == 2 then OrFour(Lead(text[p], 0x20) * 0x40, x, x, x)
    else if len == 3 then OrFour(Lead(text[p], 0x10) * 0x1000, x * 0x40, x * 0x40, y)
    else OrFour(Lead(text[p], 8) * 0x4_0000, x * 0x1000, Lead(text[p + 2], 0x40) * 0x40, y)
  }

  lemma TermsJoined(text: seq<byte>, p: nat, len: nat)
    requires 2 <= len <= 4 && p + len <= |text|
    ensures ReadTerms(text, p, len) == Payload(text, p, len)
  {
    hide Or, OrFour;
    var x, y := Lead(text[p + 1], 0x40), Lead(text[p + len - 1], 0x40);
    if len == 2 {
      OrFourIs(Lead(text[p], 0x20), x, 0, 0);
    } else if len == 3 {
      OrFourIs(Lead(text[p], 0x10), x, y, 0);
    } else {
      OrFourIs(Lead(text[p], 8), x, Lead(text[p + 2], 0x40), y);
    }
  }

  // ---- Sequences ----

  function EncodeAll(us: seq<nat>): (s: seq<byte>)
    requires forall k :: 0 <= k < |us| ==> us[k] < LIMIT
    ensures |us| <= |s| <= 4 * |us|
  {
    if us == [] then [] else EncodeAll(us[..|us| - 1]) + Encode(us[|us| - 1])
  }

  /** Writes the code points one after the other. */
  method WriteAll(dest: array<byte>, us: seq<nat>) returns (n: nat)
    requires 4 * |us| <= dest.Length && forall k :: 0 <= k < |us| ==> us[k] < LIMIT
    modifies dest
    ensures n == |EncodeAll(us)| && dest[..n] == EncodeAll(us)
  {
    n := 0;
    for i := 0 to |us|
      invariant n == |EncodeAll(us[..i])| && dest[..n] == EncodeAll(us[..i])
    {
      hide Encode, LeadLength;
      assert us[..i + 1][..i] == us[..i];
      ghost var done := dest[..n];
      var len := Write(dest, n, us[i]);
      n := n + len;
      assert dest[..n] == dest[..n - len] + dest[n - len..n];
      assert dest[..n - len] == done && dest[n - len..n] == Encode(us[i]);
    }
    assert us[..|us|] == us;
  }

  /** A shorter sequence of code points has a shorter encoding, which begins the
      longer one. */
  lemma {:induction false} EncodedPrefix(us: seq<nat>, i: nat)
    requires i <= |us| && forall k :: 0 <= k < |us| ==> us[k] < LIMIT
    ensures EncodeAll(us[..i]) <= EncodeAll(us)
    ensures i < |us| ==> EncodeAll(us[..i + 1]) == EncodeAll(us[..i]) + Encode(us[i])
    ensures i < |us| ==> |EncodeAll(us[..i])| < |EncodeAll(us)|
    decreases |us|
  {
    hide Encode;
    if i == |us| {
      assert us[..i] == us;
    } else {
      assert us[..i + 1][..i] == us[..i];
      var n := |us| - 1;
      EncodedPrefix(us[..n], i);
      assert us[..n][..i] == us[..i];
    }
  }

  /** After the first i characters comes the next one, and the reader finds it. */
  lemma NextChar(us: seq<nat>, i: nat, text: seq<byte>, p: nat)
    requires forall k :: 0 <= k < |us| ==> us[k] < LIMIT
    requires text == EncodeAll(us) && i <= |us| && p == |EncodeAll(us[..i])| < |text|
    ensures i < |us| && |EncodeAll(us[..i + 1])| == p + |Encode(us[i])| <= |text|
    ensures CharAt(text, p) == LeadLength(text[p]) == |Encode(us[i])| && Payload(text, p, |Encode(us[i])|) == us[i]
  {
    assert us[..|us|] == us;
    hide *;
    EncodedPrefix(us, i);
    EncodedPrefix(us, i + 1);
    var done, next := EncodeAll(us[..i]), Encode(us[i]);
    PrefixAt(text, done, next);
    EncodeDecodes(text, p, us[i]);
    CharLengthIs(text, p, |Encode(us[i])|);
  }

  lemma PrefixAt(text: seq<byte>, done: seq<byte>, next: seq<byte>)
    requires done + next <= text
    ensures text[|done|..|done| + |next|] == next
  {
    assert text[|done|..|done| + |next|] == (done + next)[|done|..];
  }

  lemma CharLengthIs(text: seq<byte>, p: nat, n: nat)
    requires IsChar(text, p, n)
    ensures CharAt(text, p) == LeadLength(text[p]) == n
  {
  }

  /** Reads the whole text of some code points. */
  method ReadAll(text: seq<byte>, ghost us: seq<nat>) returns (read: seq<nat>, p: nat)
    requires forall k :: 0 <= k < |us| ==> us[k] < LIMIT
    requires text == EncodeAll(us)
    ensures read == us && p == |text|
  {
    hide Encode, EncodeAll, CharAt, LeadLength, Payload;
    read, p := [], 0;
    assert |EncodeAll([])| == 0;
    assert us[..0] == [];
    while p < |text|
      invariant |read| <= |us| && read == us[..|read|]
      invariant p == |EncodeAll(us[..|read|])| <= |text|
      decreases |text| - p
    {
      NextChar(us, |read|, text, p);
      var u, q := Read(text, p);
      read := read + [u];
      p := q;
    }
    EncodedPrefix(us, |read|);
  }

  /** Writing any code points of 21 bits and reading them back: the sequence is
      the same, and every byte is consumed. */
  method RoundTrip(us: seq<nat>) returns (written: nat, read: seq<nat>, consumed: nat)
    requires forall k :: 0 <= k < |us| ==> us[k] < LIMIT
    ensures read == us && consumed == written
  {
    var dest := new byte[4 * |us|];
    written := WriteAll(dest, us);
    read, consumed := ReadAll(dest[..written], us);
  }

  // ---- In numbers ----

  /** The encodings that RFC 3629 and its tables give: a dollar sign, a cent sign,
      a euro sign and the Gothic letter hwair. */
  lemma KnownEncodings()
    ensures Encode(0x24) == [0x24] && Encode(0xA2) == [0xC2, 0xA2]
    ensures Encode(0x20AC) == [0xE2, 0x82, 0xAC] && Encode(0x1_0348) == [0xF0, 0x90, 0x8D, 0x88]
  {
  }

  /** The encoding by length: its first byte names the length, and the bytes carry
      the number in base 64. */
  lemma EncodingBytes(u: nat)
    requires u < 0x20_0000
    ensures var s := Encode(u);
      && (u < 0x80 <==> |s| == 1) && (0x80 <= u < 0x800 <==> |s| == 2)
      && (0x800 <= u < 0x1_0000 <==> |s| == 3) && (0x1_0000 <= u <==> |s| == 4)
      && (|s| == 1 ==> s[0] == u)
      && (|s| == 2 ==> u == Base64(s[0] as int - 0xC0, s[1]))
      && (|s| == 3 ==> u == Base64(Base64(s[0] as int - 0xE0, s[1]), s[2]))
      && (|s| == 4 ==> u == Base64(Base64(Base64(s[0] as int - 0xF0, s[1]), s[2]), s[3]))
      && forall k :: 1 <= k < |s| ==> 0x80 <= s[k] < 0xC0
  {
  }

  /** Six more bits, in a continuation byte. */
  function Base64(high: int, c: byte): int {
    high * 64 + (c as int - 0x80)
  }

  /** A character in a text, byte by byte. */
  lemma CharacterBytes(text: seq<byte>, p: nat, n: nat)
    requires p < |text|
    ensures IsChar(text, p, n) <==>
      && 1 <= n <= 4 && p + n <= |text|
      && (n == 1 ==> text[p] < 0x80) && (n == 2 ==> 0xC0 <= text[p] < 0xE0)
      && (n == 3 ==> 0xE0 <= text[p] < 0xF0) && (n == 4 ==> 0xF0 <= text[p] < 0xF8)
      && forall k :: p < k < p + n ==> 0x80 <= text[k] < 0xC0
  {
  }
}
