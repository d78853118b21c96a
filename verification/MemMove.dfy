/** fio_memcpy: a memory move made of fixed-size copies. Addresses are offsets
    into one memory, so that every overlap can occur. */
module MemMove {
  import opened Bytes
  import opened Modular
  import opened Bitwise

  /** The memory after moving n bytes from s to d. */
  ghost function Moved(m: seq<byte>, d: nat, s: nat, n: nat): seq<byte>
    requires d + n <= |m| && s + n <= |m|
  {
    m[..d] + m[s..s + n] + m[d + n..]
  }

  /** Bytes lo to hi of the move from s to d are done, nothing else changed. */
  ghost predicate Copied(m0: seq<byte>, m: seq<byte>, d: nat, s: nat, lo: nat, hi: nat) {
    && lo <= hi && |m| == |m0| && d + hi <= |m| && s + hi <= |m|
    && (forall x :: d + lo <= x < d + hi ==> m[x] == m0[s + (x - d)])
    && (forall x :: 0 <= x < d + lo || d + hi <= x < |m| ==> m[x] == m0[x])
  }

  predicate Disjoint(d: nat, s: nat, n: nat) {
    d + n <= s || s + n <= d
  }

  lemma CopiedIsMoved(m0: seq<byte>, m: seq<byte>, d: nat, s: nat, n: nat)
    requires Copied(m0, m, d, s, 0, n)
    ensures m == Moved(m0, d, s, n)
  {
  }

  /** Moving the bytes p to p + c of a longer move, next to or over what is
      already done, while their source is still as it was. */
  lemma CopyMore(m0: seq<byte>, m: seq<byte>, d: nat, s: nat, lo: nat, hi: nat, p: nat, c: nat)
    requires Copied(m0, m, d, s, lo, hi) && d + p + c <= |m| && s + p + c <= |m|
    requires lo <= p <= hi <= p + c || p <= lo <= p + c <= hi
    requires forall x :: s + p <= x < s + p + c ==> m[x] == m0[x]
    ensures Copied(m0, Moved(m, d + p, s + p, c), d, s, if p < lo then p else lo, if p + c > hi then p + c else hi)
  {
  }

  // ---- Fixed-size copies ----

  /** fio_memcpyN: byte by byte upwards; the ranges must not overlap. */
  method Copy(mem: array<byte>, d: nat, s: nat, n: nat)
    requires d + n <= mem.Length && s + n <= mem.Length && Disjoint(d, s, n)
    modifies mem
    ensures mem[..] == Moved(old(mem[..]), d, s, n)
  {
    for i := 0 to n
      invariant Copied(old(mem[..]), mem[..], d, s, 0, i)
    {
      mem[d + i] := mem[s + i];
    }
    CopiedIsMoved(old(mem[..]), mem[..], d, s, n);
  }

  /** Two fixed-size copies through a buffer: the ranges may overlap. */
  method CopyBuffered(mem: array<byte>, t: array<byte>, d: nat, s: nat, n: nat)
    requires mem != t && n <= t.Length && d + n <= mem.Length && s + n <= mem.Length
    modifies mem, t
    ensures mem[..] == Moved(old(mem[..]), d, s, n)
  {
    for i := 0 to n
      invariant forall k :: 0 <= k < i ==> t[k] == mem[s + k]
      invariant mem[..] == old(mem[..])
    {
      t[i] := mem[s + i];
    }
    ghost var tv := t[..];
    for i := 0 to n
      invariant Copied(old(mem[..]), mem[..], d, s, 0, i)
      invariant t[..] == tv
    {
      assert tv[i] == old(mem[..])[s + i];
      mem[d + i] := t[i];
    }
    CopiedIsMoved(old(mem[..]), mem[..], d, s, n);
  }

  lemma NothingCopied(m: seq<byte>, d: nat, s: nat)
    requires d <= |m| && s <= |m|
    ensures Copied(m, m, d, s, 0, 0)
  {
  }

  /** A copy that extends a partial move of disjoint ranges. */
  method CopyPart(mem: array<byte>, d: nat, s: nat, p: nat, c: nat, ghost m0: seq<byte>, ghost hi: nat, ghost n: nat)
    requires Copied(m0, mem[..], d, s, 0, hi) && Disjoint(d, s, n) && p <= hi <= p + c <= n
    requires d + n <= mem.Length && s + n <= mem.Length
    modifies mem
    ensures Copied(m0, mem[..], d, s, 0, p + c)
  {
    CopyNext(m0, mem[..], d, s, hi, p, c, n);
    hide Copied, Moved;
    Copy(mem, d + p, s + p, c);
  }

  /** Between disjoint ranges no part of the source is ever overwritten. */
  lemma CopyNext(m0: seq<byte>, m: seq<byte>, d: nat, s: nat, hi: nat, p: nat, c: nat, n: nat)
    requires Copied(m0, m, d, s, 0, hi) && Disjoint(d, s, n) && p <= hi <= p + c <= n
    requires d + n <= |m| && s + n <= |m|
    ensures Copied(m0, Moved(m, d + p, s + p, c), d, s, 0, p + c)
  {
    assert forall x :: s + p <= x < s + p + c ==> m[x] == m0[x];
    CopyMore(m0, m, d, s, 0, hi, p, c);
  }

  /** A copy of b bytes if bit b of the length l asks for it. */
  method CopyIf(mem: array<byte>, d: nat, s: nat, p: nat, l: nat, b: nat, ghost m0: seq<byte>, ghost n: nat)
    returns (p': nat)
    requires b > 0 && p + l % (2 * b) == n && Copied(m0, mem[..], d, s, 0, p) && Disjoint(d, s, n)
    requires d + n <= mem.Length && s + n <= mem.Length
    modifies mem
    ensures p <= p' && p' + l % b == n && Copied(m0, mem[..], d, s, 0, p')
  {
    hide Copied, HasBit;
    BitRest(l, b);
    p' := p;
    if HasBit(l, b) {
      CopyPart(mem, d, s, p, b, m0, p, n);
      p' := p + b;
    }
  }

  /** Two copies of one size, the second ending at the end. */
  method CopyTwice(mem: array<byte>, d: nat, s: nat, l: nat, size: nat, ghost m0: seq<byte>) returns (p: nat)
    requires 0 < size <= l < 2 * size && Copied(m0, mem[..], d, s, 0, 0) && Disjoint(d, s, l)
    requires d + l <= mem.Length && s + l <= mem.Length
    modifies mem
    ensures p == l && Copied(m0, mem[..], d, s, 0, p)
  {
    hide Copied;
    DivModUnique(l, 1, l - size, size);
    CopyPart(mem, d, s, 0, size, m0, 0, l);
    CopyPart(mem, d, s, l % size, size, m0, size, l);
    p := l % size + size;
  }

  /** Up to 63 bytes between disjoint ranges: two copies of one size that may
      overlap each other, or one copy for each bit of a length below 8. Returns
      the end of the target. */
  method CopyUnsafe63(mem: array<byte>, d: nat, s: nat, l: nat) returns (end: nat)
    requires l < 64 && d + l <= mem.Length && s + l <= mem.Length && Disjoint(d, s, l)
    modifies mem
    ensures mem[..] == Moved(old(mem[..]), d, s, l) && end == d + l
  {
    ghost var m0 := mem[..];
    NothingCopied(m0, d, s);
    hide Copied, Moved;
    var p: nat;
    if l > 31 {
      p := CopyTwice(mem, d, s, l, 32, m0);
    } else if l > 15 {
      p := CopyTwice(mem, d, s, l, 16, m0);
    } else if l > 7 {
      p := CopyTwice(mem, d, s, l, 8, m0);
    } else {
      p := CopyIf(mem, d, s, 0, l, 4, m0, l);
      p := CopyIf(mem, d, s, p, l, 2, m0, l);
      p := CopyIf(mem, d, s, p, l, 1, m0, l);
    }
    CopiedIsMoved(m0, mem[..], d, s, l);
    end := d + p;
  }

  /** Any length between disjoint ranges. For 64 bytes or more the last copy
      ends at the end and may cover bytes already copied. */
  method CopyUnsafe(mem: array<byte>, d: nat, s: nat, l0: nat, limitBuffer: bool) returns (end: nat)
    requires d + l0 <= mem.Length && s + l0 <= mem.Length && Disjoint(d, s, l0)
    modifies mem
    ensures mem[..] == Moved(old(mem[..]), d, s, l0) && end == d + l0
  {
    if l0 < 64 {
      end := CopyUnsafe63(mem, d, s, l0);
      return;
    }
    ghost var m0 := mem[..];
    NothingCopied(m0, d, s);
    hide Copied, Moved;
    var l: nat, p: nat := l0, 0;
    var step := if limitBuffer then 128 else 256;
    while l >= step
      invariant p + l == l0
      invariant Copied(m0, mem[..], d, s, 0, p)
    {
      CopyPart(mem, d, s, p, step, m0, p, l0);
      l, p := l - step, p + step;
    }
    if !limitBuffer {
      p := CopyIf(mem, d, s, p, l, 128, m0, l0);
    }
    p := CopyIf(mem, d, s, p, l, 64, m0, l0);
    p := p - 64 + l % 64;
    CopyPart(mem, d, s, p, 64, m0, p + 64 - l % 64, l0);
    CopiedIsMoved(m0, mem[..], d, s, l0);
    end := d + p + 64;
  }

  // ---- Overlapping ranges ----

  /** One buffered step upwards. */
  method StepUp(mem: array<byte>, t: array<byte>, d: nat, s: nat, p: nat, c: nat, ghost m0: seq<byte>)
    requires mem != t && c <= t.Length && d < s && d + p + c <= mem.Length && s + p + c <= mem.Length
    requires Copied(m0, mem[..], d, s, 0, p)
    modifies mem, t
    ensures Copied(m0, mem[..], d, s, 0, p + c)
  {
    CopyMore(m0, mem[..], d, s, 0, p, p, c);
    CopyBuffered(mem, t, d + p, s + p, c);
  }

  /** A step upwards if bit c of the remaining length asks for it. */
  method StepUpIf(mem: array<byte>, t: array<byte>, d: nat, s: nat, p: nat, l: nat, c: nat,
                  ghost m0: seq<byte>, ghost n: nat)
    returns (p': nat)
    requires mem != t && t.Length == 64 && d < s && s + n <= mem.Length
    requires c == 2 || c == 4 || c == 8 || c == 16 || c == 32
    requires p + l % (2 * c) == n && Copied(m0, mem[..], d, s, 0, p)
    modifies mem, t
    ensures p' + l % c == n && Copied(m0, mem[..], d, s, 0, p')
  {
    hide Copied, HasBit;
    BitRest(l, c);
    p' := p;
    if HasBit(l, c) {
      StepUp(mem, t, d, s, p, c, m0);
      p' := p + c;
    }
  }

  /** Copies upwards through a buffer: right whenever the target lies below. */
  method MoveUp(mem: array<byte>, d: nat, s: nat, l0: nat) returns (end: nat)
    requires d < s && s + l0 <= mem.Length
    modifies mem
    ensures mem[..] == Moved(old(mem[..]), d, s, l0) && end == d + l0
  {
    ghost var m0 := mem[..];
    NothingCopied(m0, d, s);
    var t := new byte[64];
    var l: nat, p: nat := l0, 0;
    hide Copied, Moved, HasBit;
    while l > 63
      invariant p + l == l0
      invariant Copied(m0, mem[..], d, s, 0, p)
    {
      StepUp(mem, t, d, s, p, 64, m0);
      l, p := l - 64, p + 64;
    }
    p := StepUpIf(mem, t, d, s, p, l, 32, m0, l0);
    p := StepUpIf(mem, t, d, s, p, l, 16, m0, l0);
    p := StepUpIf(mem, t, d, s, p, l, 8, m0, l0);
    p := StepUpIf(mem, t, d, s, p, l, 4, m0, l0);
    p := StepUpIf(mem, t, d, s, p, l, 2, m0, l0);
    BitRest(l, 1);
    if HasBit(l, 1) {
      LastUp(m0, mem[..], d, s, p);
      mem[d + p] := mem[s + p];
      p := p + 1;
    }
    CopiedIsMoved(m0, mem[..], d, s, l0);
    end := d + p;
  }

  lemma LastUp(m0: seq<byte>, m: seq<byte>, d: nat, s: nat, p: nat)
    requires Copied(m0, m, d, s, 0, p) && d < s && s + p < |m|
    ensures Copied(m0, m[d + p := m[s + p]], d, s, 0, p + 1)
  {
  }

  /** One buffered step downwards. */
  method StepDown(mem: array<byte>, t: array<byte>, d: nat, s: nat, p: nat, c: nat, ghost m0: seq<byte>, ghost n: nat)
    requires mem != t && c <= t.Length && s < d && p + c <= n && d + n <= mem.Length
    requires Copied(m0, mem[..], d, s, p + c, n)
    modifies mem, t
    ensures Copied(m0, mem[..], d, s, p, n)
  {
    CopyMore(m0, mem[..], d, s, p + c, n, p, c);
    CopyBuffered(mem, t, d + p, s + p, c);
  }

  /** A step downwards if bit c of the remaining length asks for it. */
  method StepDownIf(mem: array<byte>, t: array<byte>, d: nat, s: nat, p: nat, l: nat, c: nat,
                    ghost m0: seq<byte>, ghost n: nat)
    returns (p': nat)
    requires mem != t && t.Length == 64 && s < d && d + n <= mem.Length && p <= n
    requires c == 2 || c == 4 || c == 8 || c == 16 || c == 32
    requires p == l % (2 * c) && Copied(m0, mem[..], d, s, p, n)
    modifies mem, t
    ensures p' == l % c <= p && Copied(m0, mem[..], d, s, p', n)
  {
    hide Copied, HasBit;
    BitRest(l, c);
    p' := p;
    if HasBit(l, c) {
      p' := p - c;
      StepDown(mem, t, d, s, p', c, m0, n);
    }
  }

  /** Copies downwards through a buffer: right whenever the target lies above. */
  method MoveDown(mem: array<byte>, d: nat, s: nat, l0: nat) returns (start: nat)
    requires s < d && d + l0 <= mem.Length
    modifies mem
    ensures mem[..] == Moved(old(mem[..]), d, s, l0) && start == d
  {
    ghost var m0 := mem[..];
    assert Copied(m0, mem[..], d, s, l0, l0);
    var t := new byte[64];
    var l: nat, p: nat := l0, l0;
    hide Copied, Moved, HasBit;
    while l > 63
      invariant l == p <= l0
      invariant Copied(m0, mem[..], d, s, p, l0)
    {
      l, p := l - 64, p - 64;
      StepDown(mem, t, d, s, p, 64, m0, l0);
    }
    p := StepDownIf(mem, t, d, s, p, l, 32, m0, l0);
    p := StepDownIf(mem, t, d, s, p, l, 16, m0, l0);
    p := StepDownIf(mem, t, d, s, p, l, 8, m0, l0);
    p := StepDownIf(mem, t, d, s, p, l, 4, m0, l0);
    p := StepDownIf(mem, t, d, s, p, l, 2, m0, l0);
    BitRest(l, 1);
    if HasBit(l, 1) {
      p := p - 1;
      LastDown(m0, mem[..], d, s, p, l0);
      mem[d + p] := mem[s + p];
    }
    CopiedIsMoved(m0, mem[..], d, s, l0);
    start := d + p;
  }

  lemma LastDown(m0: seq<byte>, m: seq<byte>, d: nat, s: nat, p: nat, n: nat)
    requires Copied(m0, m, d, s, p + 1, n) && s < d
    ensures Copied(m0, m[d + p := m[s + p]], d, s, p, n)
  {
  }

  // ---- The move ----

  /** Up to 64 bytes between disjoint ranges: two copies of half the next power
      of two, one at each end. */
  method CopySmall(mem: array<byte>, d: nat, s: nat, bytes: nat)
    requires 0 < bytes <= 64 && d + bytes <= mem.Length && s + bytes <= mem.Length && Disjoint(d, s, bytes)
    modifies mem
    ensures mem[..] == Moved(old(mem[..]), d, s, bytes)
  {
    ghost var m0 := mem[..];
    NothingCopied(m0, d, s);
    hide Copied, Moved;
    var size :=
      if bytes <= 8 then (if bytes >= 4 then 4 else if bytes >= 2 then 2 else 1)
      else if bytes <= 16 then 8
      else if bytes <= 32 then 16
      else 32;
    CopyPart(mem, d, s, 0, size, m0, 0, bytes);
    if size > 1 {
      CopyPart(mem, d, s, bytes - size, size, m0, size, bytes);
    }
    CopiedIsMoved(m0, mem[..], d, s, bytes);
  }

  /** fio_memcpy moves: for every length and every overlap the target ends up
      with the bytes the source had, and no other byte changes. It returns the
      start of the target, or its end: from 65 bytes on, and on overlap, the end
      exactly if the target is apart from the source or below it. */
  method Memcpy(mem: array<byte>, dest: Option<nat>, src: Option<nat>, bytes: nat, limitBuffer: bool)
    returns (p: Option<nat>)
    requires dest.Some? && src.Some? ==> dest.value + bytes <= mem.Length && src.value + bytes <= mem.Length
    modifies mem
    ensures dest.Some? && src.Some? ==> mem[..] == Moved(old(mem[..]), dest.value, src.value, bytes)
    ensures dest.None? || src.None? ==> mem[..] == old(mem[..])
    ensures dest.None? || src.None? || dest == src || bytes == 0 ==> p == dest
    ensures dest.Some? && src.Some? && bytes > 0 ==>
      var d, s := dest.value, src.value;
      && (d + bytes <= s || s + bytes <= d ==> p == Some(if bytes > 64 then d + bytes else d))
      && (!(d + bytes <= s || s + bytes <= d) ==> p == Some(if d < s then d + bytes else d))
  {
    if dest == src || bytes == 0 || dest.None? || src.None? {
      assert dest.Some? && src.Some? ==> mem[..] == Moved(mem[..], dest.value, src.value, bytes);
      return dest;
    }
    var d, s := dest.value, src.value;
    if bytes <= 64 && (d + bytes <= s || s + bytes <= d) {
      CopySmall(mem, d, s, bytes);
      return dest;
    }
    var at: nat;
    if s + bytes <= d || d + bytes <= s {
      at := CopyUnsafe(mem, d, s, bytes, limitBuffer);
    } else if d < s {
      at := MoveUp(mem, d, s, bytes);
    } else {
      at := MoveDown(mem, d, s, bytes);
    }
    return Some(at);
  }

  /** A moved byte comes from its place in the source range, all others stay. */
  lemma MovedByte(m: seq<byte>, d: nat, s: nat, n: nat, x: nat)
    requires d + n <= |m| && s + n <= |m| && x < |m|
    ensures |Moved(m, d, s, n)| == |m|
    ensures Moved(m, d, s, n)[x] == if d <= x < d + n then m[s + (x - d)] else m[x]
  {
  }
}
