/** Comparing memory: fio_memcmp, which tests for a difference only at the end
    of each block, and fio_ct_is_eq, which tests once at the very end. */
module Compare {
  import opened Bytes
  import opened Words
  import opened Modular
  import opened Bitwise
  import opened Parsers
  import opened ByteLanes
  import opened MemChr

  // ---- The order ----

  /** The sign of the first difference. */
  function Sign(s: seq<byte>, t: seq<byte>): (c: int)
    requires |s| == |t|
  {
    if s == [] then 0
    else if s[0] != t[0] then (if s[0] < t[0] then -1 else 1)
    else Sign(s[1..], t[1..])
  }

  lemma {:induction false} SignAt(s: seq<byte>, t: seq<byte>, f: nat)
    requires |s| == |t| && f < |s| && s[..f] == t[..f] && s[f] != t[f]
    ensures Sign(s, t) == if s[f] < t[f] then -1 else 1
    decreases f
  {
    if f > 0 {
      assert s[0] == s[..f][0] && t[0] == t[..f][0];
      assert s[1..][..f - 1] == s[..f][1..] && t[1..][..f - 1] == t[..f][1..];
      SignAt(s[1..], t[1..], f - 1);
    }
  }

  lemma {:induction false} SignZero(s: seq<byte>, t: seq<byte>)
    requires |s| == |t|
    ensures Sign(s, t) == 0 <==> s == t
    decreases s
  {
    if s != [] && s[0] == t[0] {
      SignZero(s[1..], t[1..]);
      assert s == [s[0]] + s[1..] && t == [t[0]] + t[1..];
    }
  }

  /** The signs order memory totally. */
  lemma {:induction false} SignOrder(s: seq<byte>, t: seq<byte>, u: seq<byte>)
    requires |s| == |t| == |u|
    ensures Sign(s, t) == -Sign(t, s)
    ensures Sign(s, t) <= 0 && Sign(t, u) <= 0 ==> Sign(s, u) <= 0
    decreases s
  {
    if s != [] {
      SignOrder(s[1..], t[1..], u[1..]);
    }
  }

  // ---- Unrolled loops ----

  const GROUP := 256

  /** How many steps of a size FIO_FOR_UNROLL makes one group. */
  function GroupFor(size: nat): nat
    requires size > 0
  {
    GROUP / size
  }

  /** The mask that FIO_FOR_UNROLL takes for the remainder by a group. */
  function Mask(group: nat): nat {
    (group - 1) % BASE
  }

  /** The index at which FIO_FOR_UNROLL ends: the remainder that a mask takes from
      the count, and as many whole groups as reach the count. For a step longer
      than the group size the mask takes the whole count. */
  function UnrolledTo(n: nat, group: nat): (e: nat)
    requires n < BASE
  {
    var remainder := And(n, Mask(group));
    AndAtMost(n, Mask(group));
    if group == 0 then remainder else remainder + Ceiling(n - remainder, group) * group
  }

  function Ceiling(n: nat, group: nat): nat
    requires group > 0
  {
    n / group + if n % group == 0 then 0 else 1
  }

  lemma {:induction false} AndAtMost(x: nat, y: nat)
    ensures And(x, y) <= x
  {
    if x > 0 && y > 0 {
      AndAtMost(x / 2, y / 2);
    }
  }

  /** FIO_FOR_UNROLL over n steps of the given size: the remainder first, then
      whole groups. The largest word as n would loop without end. */
  method ForUnroll(n: nat, size: nat) returns (visited: seq<nat>)
    requires n < BASE - 1 && size > 0 && UnrolledTo(n, GroupFor(size)) < BASE
    ensures |visited| == UnrolledTo(n, GroupFor(size)) && forall k :: 0 <= k < |visited| ==> visited[k] == k
  {
    var group: nat := GroupFor(size);
    visited := [];
    var i, remainder := 0, And(n, Mask(group));
    AndAtMost(n, Mask(group));
    while i < remainder
      invariant 0 <= i <= remainder
      invariant |visited| == i && forall k :: 0 <= k < i ==> visited[k] == k
    {
      visited := visited + [i];
      i := i + 1;
    }
    if group == 0 {
      MaskOfWord(n);
    } else {
      visited := WholeGroups(visited, n, group);
    }
  }

  /** A count is visited exactly if whole groups fill what the mask leaves; */
  lemma UnrollsExactly(n: nat, group: nat)
    requires n < BASE && group > 0
    ensures And(n, Mask(group)) <= n <= UnrolledTo(n, group)
    ensures UnrolledTo(n, group) == n <==> (n - And(n, Mask(group))) % group == 0
  {
    AndAtMost(n, Mask(group));
    var rest := n - And(n, Mask(group));
    CeilingMeans(rest, group);
  }

  lemma CeilingMeans(rest: nat, group: nat)
    requires group > 0
    ensures Ceiling(rest, group) * group >= rest
    ensures Ceiling(rest, group) * group == rest <==> rest % group == 0
    ensures Ceiling(rest, group) * group < rest + group
  {
    DivSplit(rest, group);
    assert (rest / group + 1) * group == rest / group * group + group;
  }

  /** so it always is when the size is a power of two. */
  lemma PowersUnroll(n: nat, j: nat)
    requires n < BASE
    ensures UnrolledTo(n, GroupFor(Pow2(j))) == n
  {
    hide And, Pow2, UnrolledTo, GroupFor;
    if j <= 8 {
      GroupOfPower(j);
      PowerGroup(n, 8 - j);
    } else {
      LongStep(j);
      NoGroup(n);
    }
  }

  lemma PowerGroup(n: nat, k: nat)
    requires n < BASE && k <= 8 && Pow2(k) <= 256
    ensures UnrolledTo(n, Pow2(k)) == n
  {
    hide *;
    AndMask(n, k);
    GroupLeft(n, Pow2(k));
  }

  lemma NoGroup(n: nat)
    requires n < BASE
    ensures UnrolledTo(n, 0) == n
  {
    MaskOfWord(n);
  }

  lemma GroupOfPower(j: nat)
    requires j <= 8
    ensures GroupFor(Pow2(j)) == Pow2(8 - j) <= 256
  {
    SmallPowers();
    hide Pow2;
    if j == 0 {} else if j == 1 {} else if j == 2 {} else if j == 3 {}
    else if j == 4 {} else if j == 5 {} else if j == 6 {} else if j == 7 {} else {}
  }

  lemma SmallPowers()
    ensures Pow2(0) == 1 && Pow2(1) == 2 && Pow2(2) == 4 && Pow2(3) == 8 && Pow2(4) == 16
    ensures Pow2(5) == 32 && Pow2(6) == 64 && Pow2(7) == 128 && Pow2(8) == 256
  {
    assert Pow2(4) == 2 * Pow2(3) && Pow2(3) == 2 * Pow2(2) && Pow2(2) == 2 * Pow2(1);
    assert Pow2(8) == 2 * Pow2(7) && Pow2(7) == 2 * Pow2(6) && Pow2(6) == 2 * Pow2(5) && Pow2(5) == 2 * Pow2(4);
  }

  lemma {:induction false} LongStep(j: nat)
    requires j > 8
    ensures Pow2(j) > GROUP && GroupFor(Pow2(j)) == 0
  {
    if j > 9 {
      LongStep(j - 1);
    } else {
      assert Pow2(9) == 2 * Pow2(8) == 4 * Pow2(7) && Pow2(7) == 128;
    }
    DivModUnique(GROUP, 0, GROUP, Pow2(j));
  }

  lemma MaskOfWord(n: nat)
    requires n < BASE
    ensures And(n, Mask(0)) == n
  {
    WordPower();
    AndMask(n, 64);
    DivModUnique(0 - 1, -1, MAX, BASE);
    DivModUnique(n, 0, n, BASE);
  }

  lemma GroupLeft(n: nat, group: nat)
    requires n < BASE && 0 < group <= 256 && And(n, group - 1) == n % group
    ensures UnrolledTo(n, group) == n
  {
    DivModUnique(group - 1, 0, group - 1, BASE);
    DivSplit(n, group);
    DivModUnique(n - n % group, n / group, 0, group);
    UnrollsExactly(n, group);
  }

  /** A step of three bytes runs past a count of one: the loop of 85 runs once. */
  lemma ThreeOverruns()
    ensures UnrolledTo(1, GroupFor(3)) == 85
  {
    assert And(1, 84) == 0;
  }

  method WholeGroups(visited0: seq<nat>, n: nat, group: nat) returns (visited: seq<nat>)
    requires group > 0 && |visited0| <= n
    requires forall k :: 0 <= k < |visited0| ==> visited0[k] == k
    ensures |visited| == |visited0| + Ceiling(n - |visited0|, group) * group
    ensures forall k :: 0 <= k < |visited| ==> visited[k] == k
  {
    visited := visited0;
    var i := |visited|;
    ghost var done: nat := 0;
    ghost var groups: nat := Ceiling(n - |visited0|, group);
    CeilingMeans(n - |visited0|, group);
    while i < n
      invariant done <= groups && i == |visited0| + done * group
      invariant |visited| == i && forall k :: 0 <= k < i ==> visited[k] == k
      decreases groups - done
    {
      NextGroup(done, groups, group);
      visited, i := OneGroup(visited, group);
      done := done + 1;
    }
    LastGroup(done, groups, group, n - |visited0|);
  }

  lemma NextGroup(done: nat, groups: nat, group: nat)
    requires done <= groups && group > 0
    ensures (done + 1) * group == done * group + group
    ensures done == groups ==> done * group == groups * group
  {
  }

  /** A group short of the last one does not reach the count. */
  lemma LastGroup(done: nat, groups: nat, group: nat, rest: nat)
    requires done <= groups && group > 0 && rest <= done * group && groups * group < rest + group
    ensures done == groups
  {
    assert group * (done + 1) == done * group + group;
    if done < groups {
      MulLe(group, done + 1, groups);
    }
  }

  method OneGroup(visited0: seq<nat>, group: nat) returns (visited: seq<nat>, i: nat)
    requires forall k :: 0 <= k < |visited0| ==> visited0[k] == k
    ensures |visited| == i == |visited0| + group && forall k :: 0 <= k < i ==> visited[k] == k
  {
    visited, i := visited0, |visited0|;
    for j := 0 to group
      invariant i == |visited0| + j
      invariant |visited| == i && forall k :: 0 <= k < i ==> visited[k] == k
    {
      visited := visited + [i];
      i := i + 1;
    }
  }

  // ---- fio_memcmp ----

  /** Of the first i bytes the last `since` are counted from the first
      difference on. */
  ghost predicate Since(s: seq<byte>, t: seq<byte>, i: nat, since: nat) {
    && since <= i <= |s| == |t| && s[..i - since] == t[..i - since]
    && (since > 0 ==> s[i - since] != t[i - since])
  }

  lemma SinceNext(s: seq<byte>, t: seq<byte>, i: nat, since: nat)
    requires Since(s, t, i, since) && i < |s|
    ensures Since(s, t, i + 1, since + if s[i] != t[i] || since > 0 then 1 else 0)
  {
    if since == 0 && s[i] == t[i] {
      assert s[..i + 1] == s[..i] + [s[i]] && t[..i + 1] == t[..i] + [t[i]];
    }
  }

  /** The indices i up to end: since += (a[i] != b[i]) | !!since. */
  method CountSince(a: array<byte>, a0: nat, b: array<byte>, b0: nat, start: nat, end: nat, since0: nat,
                    ghost s: seq<byte>, ghost t: seq<byte>)
    returns (since: nat)
    requires |s| == |t| && start <= end <= |s| && a0 + |s| <= a.Length && b0 + |t| <= b.Length
    requires s == a[a0..a0 + |s|] && t == b[b0..b0 + |t|] && Since(s, t, start, since0)
    ensures Since(s, t, end, since)
  {
    hide Since;
    since := since0;
    for i := start to end
      invariant Since(s, t, i, since)
    {
      SinceNext(s, t, i, since);
      assert a[a0 + i] == s[i] && b[b0 + i] == t[i];
      since := since + if a[a0 + i] != b[b0 + i] || since > 0 then 1 else 0;
    }
  }

  lemma SinceSign(s: seq<byte>, t: seq<byte>, i: nat, since: nat)
    requires Since(s, t, i, since)
    ensures since <= i <= |s| == |t|
    ensures since > 0 ==> Sign(s, t) == if s[i - since] < t[i - since] then -1 else 1
    ensures since == 0 && i == |s| ==> Sign(s, t) == 0
  {
    if since > 0 {
      SignAt(s, t, i - since);
    } else if i == |s| {
      assert s[..i] == s && t[..i] == t;
      SignZero(s, t);
    }
  }

  lemma SinceStart(s: seq<byte>, t: seq<byte>)
    requires |s| == |t|
    ensures Since(s, t, 0, 0)
  {
  }

  /** A pointer into a buffer. */
  datatype Pointer = Pointer(buffer: array<byte>, offset: nat)

  /** fio_memcmp, from anywhere in two buffers or in one; a null pointer is less
      than any other. */
  method Memcmp(a: Option<Pointer>, b: Option<Pointer>, len: nat) returns (c: int)
    requires a.Some? ==> a.value.offset + len <= a.value.buffer.Length
    requires b.Some? ==> b.value.offset + len <= b.value.buffer.Length
    ensures a == b || len == 0 ==> c == 0
    ensures len > 0 && a.None? && b.Some? ==> c == -1
    ensures len > 0 && a.Some? && b.None? ==> c == 1
    ensures a.Some? && b.Some? ==> c == Sign(BytesAt(a.value, len), BytesAt(b.value, len))
  {
    if a == b || len == 0 {
      if a.Some? && b.Some? {
        SignZero(BytesAt(a.value, len), BytesAt(b.value, len));
      }
      return 0;
    }
    if a.None? {
      return -1;
    }
    if b.None? {
      return 1;
    }
    c := CompareBlocks(a.value.buffer, a.value.offset, b.value.buffer, b.value.offset, len);
  }

  function BytesAt(p: Pointer, len: nat): (s: seq<byte>)
    requires p.offset + len <= p.buffer.Length
    reads p.buffer
    ensures |s| == len
  {
    p.buffer[p.offset..p.offset + len]
  }

  /** The blocks, with the test of the counter after each of them. */
  method CompareBlocks(a: array<byte>, a0: nat, b: array<byte>, b0: nat, len: nat) returns (c: int)
    requires a0 + len <= a.Length && b0 + len <= b.Length
    ensures c == Sign(a[a0..a0 + len], b[b0..b0 + len])
  {
    hide Since, Sign;
    ghost var s, t := a[a0..a0 + len], b[b0..b0 + len];
    SinceStart(s, t);
    var i := len % GROUP;
    var since := CountSince(a, a0, b, b0, 0, i, 0, s, t);
    while since == 0 && i < len
      invariant 0 <= i <= len && (len - i) % GROUP == 0
      invariant Since(s, t, i, since)
      decreases len - i
    {
      since := CountSince(a, a0, b, b0, i, i + GROUP, since, s, t);
      i := i + GROUP;
    }
    SinceSign(s, t, i, since);
    if since > 0 {
      assert a[a0 + i - since] == s[i - since] && b[b0 + i - since] == t[i - since];
      return if a[a0 + i - since] < b[b0 + i - since] then -1 else 1;
    }
    return 0;
  }

  // ---- fio_ct_is_eq ----

  /** Two buffers agree exactly if the first `from` bytes compared are equal, and
      nothing is written to them from `at` on. */
  ghost predicate Agree(x: seq<byte>, y: seq<byte>, s: seq<byte>, t: seq<byte>, from: nat, at: nat) {
    && |x| == |y| == 64 && from <= |s| && from <= |t| && at <= 64
    && (x == y <==> s[..from] == t[..from])
    && forall j :: at <= j < 64 ==> x[j] == y[j]
  }

  /** Both buffers take the next piece. */
  ghost predicate Took(x: seq<byte>, x': seq<byte>, s: seq<byte>, from: nat, at: nat, size: nat) {
    && |x| == |x'| == 64 && from + size <= |s| && at + size <= 64
    && (forall j :: at <= j < at + size ==> x'[j] == s[from + (j - at)])
    && (forall j :: 0 <= j < 64 && !(at <= j < at + size) ==> x'[j] == x[j])
  }

  lemma TookPiece(x: seq<byte>, x': seq<byte>, s: seq<byte>, from: nat, at: nat, size: nat)
    requires Took(x, x', s, from, at, size)
    ensures x' == x[..at] + s[from..from + size] + x[at + size..]
  {
  }

  lemma AgreeNext(x: seq<byte>, x': seq<byte>, y: seq<byte>, y': seq<byte>, s: seq<byte>, t: seq<byte>,
                  from: nat, at: nat, size: nat)
    requires Agree(x, y, s, t, from, at) && Took(x, x', s, from, at, size) && Took(y, y', t, from, at, size)
    ensures Agree(x', y', s, t, from + size, at + size)
  {
    TookPiece(x, x', s, from, at, size);
    TookPiece(y, y', t, from, at, size);
    assert s[..from + size] == s[..from] + s[from..from + size] && t[..from + size] == t[..from] + t[from..from + size];
    assert x == x[..at] + x[at..] && y == y[..at] + y[at..] && x[at..] == y[at..];
    assert x' == y' ==> x'[..at] == y'[..at] && x'[at..at + size] == y'[at..at + size];
    assert x'[..at] == x[..at] && y'[..at] == y[..at];
    assert x'[at..at + size] == s[from..from + size] && y'[at..at + size] == t[from..from + size];
    assert s[..from + size] == t[..from + size] ==> s[..from + size][..from] == t[..from + size][..from];
    assert s[..from + size] == t[..from + size] ==> s[..from + size][from..] == t[..from + size][from..];
    assert x[at + size..] == x[at..][size..] && y[at + size..] == y[at..][size..];
  }

  lemma AgreeSkip(x: seq<byte>, y: seq<byte>, s: seq<byte>, t: seq<byte>, from: nat, at: nat, size: nat)
    requires Agree(x, y, s, t, from, at) && at + size <= 64
    ensures Agree(x, y, s, t, from, at + size)
  {
  }

  /** A fixed-size copy into a buffer. */
  method CopyBytes(m: array<byte>, at: nat, a: array<byte>, from: nat, n: nat)
    requires m != a && m.Length == 64 && at + n <= 64 && from + n <= a.Length
    modifies m
    ensures Took(old(m[..]), m[..], a[..], from, at, n)
  {
    for i := 0 to n
      invariant Took(old(m[..]), m[..], a[..], from, at, i)
    {
      m[at + i] := a[from + i];
    }
  }

  /** One bit of the length: both copies, if it is set. */
  method CopyBoth(x: array<byte>, y: array<byte>, a: array<byte>, b: array<byte>, from: nat, at: nat, size: nat,
                  present: bool, ghost s: seq<byte>, ghost t: seq<byte>, ghost next: nat)
    requires x.Length == y.Length == 64 && x != y && x != a && x != b && y != a && y != b
    requires a[..] == s && b[..] == t && Agree(x[..], y[..], s, t, from, at) && at + size <= 64
    requires next == (if present then from + size else from) <= |s| && next <= |t|
    modifies x, y
    ensures a[..] == s && b[..] == t && Agree(x[..], y[..], s, t, next, at + size)
  {
    ghost var xv, yv := x[..], y[..];
    hide Agree, Took;
    if present {
      CopyBytes(x, at, a, from, size);
      CopyBytes(y, at, b, from, size);
      AgreeNext(xv, x[..], yv, y[..], s, t, from, at, size);
    } else {
      AgreeSkip(xv, yv, s, t, from, at, size);
    }
  }

  /** The length modulo 64 without its bits below bit b. */
  function Above(bytes: nat, b: nat): int
    requires b > 0
  {
    bytes % 64 - bytes % b
  }

  lemma AboveBits(bytes: nat)
    ensures 0 <= Above(bytes, 32) == if HasBit(bytes, 32) then 32 else 0
    ensures Above(bytes, 16) == Above(bytes, 32) + if HasBit(bytes, 16) then 16 else 0
    ensures Above(bytes, 8) == Above(bytes, 16) + if HasBit(bytes, 8) then 8 else 0
    ensures Above(bytes, 4) == Above(bytes, 8) + if HasBit(bytes, 4) then 4 else 0
    ensures Above(bytes, 2) == Above(bytes, 4) + if HasBit(bytes, 2) then 2 else 0
    ensures bytes % 64 == Above(bytes, 2) + if HasBit(bytes, 1) then 1 else 0
  {
    hide HasBit;
    BitRest(bytes, 32); BitRest(bytes, 16); BitRest(bytes, 8); BitRest(bytes, 4); BitRest(bytes, 2); BitRest(bytes, 1);
  }

  /** The head: the first bytes modulo 64, taken apart by the bits of the length.
      Each piece begins where the one for the next higher bit ended. */
  method CopyHead(x: array<byte>, y: array<byte>, a: array<byte>, b: array<byte>, bytes: nat)
    requires x.Length == y.Length == 64 && x != y && x != a && x != b && y != a && y != b
    requires bytes <= a.Length && bytes <= b.Length && x[..] == y[..]
    modifies x, y
    ensures x[..] == y[..] <==> a[..bytes % 64] == b[..bytes % 64]
  {
    hide HasBit, Agree, Above;
    ghost var s, t := a[..], b[..];
    AboveBits(bytes);
    AgreeStart(x[..], y[..], s, t);
    CopyBoth(x, y, a, b, 0, 0, 32, HasBit(bytes, 32), s, t, Above(bytes, 32));
    CopyBoth(x, y, a, b, Above(bytes, 32), 32, 16, HasBit(bytes, 16), s, t, Above(bytes, 16));
    CopyBoth(x, y, a, b, Above(bytes, 16), 48, 8, HasBit(bytes, 8), s, t, Above(bytes, 8));
    CopyTail(x, y, a, b, bytes, s, t);
    AgreeEnd(x[..], y[..], s, t, bytes % 64);
  }

  /** Its last three bits. */
  method CopyTail(x: array<byte>, y: array<byte>, a: array<byte>, b: array<byte>, bytes: nat,
                  ghost s: seq<byte>, ghost t: seq<byte>)
    requires x.Length == y.Length == 64 && x != y && x != a && x != b && y != a && y != b
    requires a[..] == s && b[..] == t && bytes <= |s| && bytes <= |t|
    requires Above(bytes, 8) >= 0 && Agree(x[..], y[..], s, t, Above(bytes, 8), 56)
    modifies x, y
    ensures a[..] == s && b[..] == t && Agree(x[..], y[..], s, t, bytes % 64, 63)
  {
    hide HasBit, Agree, Above;
    AboveBits(bytes);
    CopyBoth(x, y, a, b, Above(bytes, 8), 56, 4, HasBit(bytes, 4), s, t, Above(bytes, 4));
    CopyBoth(x, y, a, b, Above(bytes, 4), 60, 2, HasBit(bytes, 2), s, t, Above(bytes, 2));
    CopyBoth(x, y, a, b, Above(bytes, 2), 62, 1, HasBit(bytes, 1), s, t, bytes % 64);
  }

  lemma AgreeStart(x: seq<byte>, y: seq<byte>, s: seq<byte>, t: seq<byte>)
    requires |x| == |y| == 64 && x == y
    ensures Agree(x, y, s, t, 0, 0)
  {
  }

  lemma AgreeEnd(x: seq<byte>, y: seq<byte>, s: seq<byte>, t: seq<byte>, r: nat)
    requires Agree(x, y, s, t, r, 63)
    ensures r <= |s| && r <= |t| && (x == y <==> s[..r] == t[..r])
  {
  }

  lemma WordDifference(x: seq<byte>, y: seq<byte>, flag: nat)
    requires |x| == |y| == 8 && flag < BASE
    ensures Xor(Word(x), Word(y)) < BASE && Or(flag, Xor(Word(x), Word(y))) < BASE
    ensures Or(flag, Xor(Word(x), Word(y))) == 0 <==> flag == 0 && x == y
  {
    WordPower();
    EightBytes(0);
    WordBelow(x);
    WordBelow(y);
    hide Xor, Or, Pow2, Word, Bound, Repeated;
    XorBelow(Word(x), Word(y), 64);
    OrBelow(flag, Xor(Word(x), Word(y)), 64);
    OrZero(flag, Xor(Word(x), Word(y)));
    XorZero(Word(x), Word(y));
    if Word(x) == Word(y) {
      WordInjective(x, y);
    }
  }

  /** flag |= ua[i] ^ ub[i], for eight words. */
  method OrWords(x: seq<byte>, y: seq<byte>, flag0: nat) returns (flag: nat)
    requires |x| == |y| == 64 && flag0 < BASE
    ensures flag < BASE && (flag == 0 <==> flag0 == 0 && x == y)
  {
    hide Xor, Or, Word;
    flag := flag0;
    for i := 0 to 8
      invariant flag < BASE && (flag == 0 <==> flag0 == 0 && x[..8 * i] == y[..8 * i])
    {
      var u, v := x[8 * i..8 * i + 8], y[8 * i..8 * i + 8];
      WordDifference(u, v, flag);
      flag := Or(flag, Xor(Word(u), Word(v)));
      EqualParts(x, y, 8 * i, 8 * i + 8);
    }
    assert x[..64] == x && y[..64] == y;
  }

  lemma EqualParts(x: seq<byte>, y: seq<byte>, i: nat, j: nat)
    requires i <= j <= |x| && j <= |y|
    ensures x[..j] == y[..j] <==> x[..i] == y[..i] && x[i..j] == y[i..j]
  {
    assert x[..j] == x[..i] + x[i..j] && y[..j] == y[..i] + y[i..j];
    assert x[..j][..i] == x[..i] && x[..j][i..] == x[i..j] && y[..j][..i] == y[..i] && y[..j][i..] == y[i..j];
  }

  /** flag |= ~flag + 1; flag = ~flag; flag >> 63. */
  function IsZero(flag: nat): nat
    requires flag < BASE
  {
    (BASE - 1 - Or(flag, (BASE - flag) % BASE)) % BASE / (BASE / 2)
  }

  lemma IsZeroMeans(flag: nat)
    requires flag < BASE
    ensures IsZero(flag) == if flag == 0 then 1 else 0
  {
    WordPower();
    hide Or, Pow2;
    var negated := (BASE - flag) % BASE;
    OrZero(flag, negated);
    OrBelow(flag, negated, 64);
    if flag > 0 {
      DivModUnique(BASE - flag, 0, BASE - flag, BASE);
      TopClear(Or(flag, negated));
    }
  }

  lemma TopClear(v: nat)
    requires BASE / 2 <= v < BASE
    ensures (BASE - 1 - v) % BASE / (BASE / 2) == 0
  {
    DivModUnique(BASE - 1 - v, 0, BASE - 1 - v, BASE);
    DivModUnique(BASE - 1 - v, 0, BASE - 1 - v, BASE / 2);
  }

  /** The blocks of 64 bytes behind the head. */
  method CompareRest(a: array<byte>, b: array<byte>, bytes: nat, head: nat, flag0: nat) returns (flag: nat)
    requires head <= bytes <= a.Length && bytes <= b.Length && (bytes - head) % 64 == 0
    requires flag0 < BASE && (flag0 == 0 <==> a[..head] == b[..head])
    ensures flag < BASE && (flag == 0 <==> a[..bytes] == b[..bytes])
  {
    flag := flag0;
    var i := head;
    while i < bytes
      invariant head <= i <= bytes && (bytes - i) % 64 == 0
      invariant flag < BASE && (flag == 0 <==> a[..i] == b[..i])
    {
      assert i + 64 <= bytes;
      PrefixParts(a[..], i, i + 64);
      PrefixParts(b[..], i, i + 64);
      EqualParts(a[..], b[..], i, i + 64);
      assert a[..i] == a[..][..i] && b[..i] == b[..][..i];
      flag := OrWords(a[i..i + 64], b[i..i + 64], flag);
      i := i + 64;
    }
  }

  lemma PrefixParts(s: seq<byte>, i: nat, j: nat)
    requires i <= j <= |s|
    ensures s[..j][..i] == s[..i] && s[..j][i..] == s[i..j]
  {
  }

  /** fio_ct_is_eq: true exactly if the ranges are equal. */
  method CtIsEq(a: array<byte>, b: array<byte>, bytes: nat) returns (equal: bool)
    requires bytes <= a.Length && bytes <= b.Length
    ensures equal <==> a[..bytes] == b[..bytes]
  {
    hide IsZero;
    var flag := 0;
    if bytes % 64 > 0 {
      var x, y := new byte[64](_ => 0), new byte[64](_ => 0);
      assert x[..] == y[..];
      CopyHead(x, y, a, b, bytes);
      flag := OrWords(x[..], y[..], flag);
    }
    flag := CompareRest(a, b, bytes, bytes % 64, flag);
    IsZeroMeans(flag);
    equal := IsZero(flag) == 1;
  }
}
