/** Glob patterns: how a pattern reads, what it matches, and what the
    single-level backtracking matcher computes. */
module Glob {
  import opened Bytes

  const ANY: byte := 63
  const STAR: byte := 42
  const OPEN: byte := 91
  const CLOSE: byte := 93
  const CARET: byte := 94
  const BANG: byte := 33
  const DASH: byte := 45
  const ESCAPE: byte := 92

  datatype Span = Span(lo: byte, hi: byte)

  /** One element of a pattern. Never is an unterminated class, Dangling a final
      backslash with nothing to escape. */
  datatype Token = Star | AnyByte | Literal(b: byte) | Class(inverted: bool, spans: seq<Span>) | Never | Dangling

  // ---- Reading a pattern ----

  /** The span that starts with the byte a, read just before position i, and the
      position after it. */
  function SpanAt(pat: seq<byte>, i: nat, a: byte): (r: Option<(Span, nat)>)
    requires i <= |pat|
    ensures r.Some? ==> i <= r.value.1 <= |pat|
  {
    if a == ESCAPE then
      if i >= |pat| then None else Some((Span(pat[i], pat[i]), i + 1))
    else if i + 1 < |pat| && pat[i] == DASH && pat[i + 1] != CLOSE then
      var b := pat[i + 1];
      Some((if a <= b then Span(a, b) else Span(b, a), i + 2))
    else
      Some((Span(a, a), i))
  }

  /** The spans from there up to the closing bracket, and the position after it. */
  function SpansAt(pat: seq<byte>, i: nat, a: byte): (r: Option<(seq<Span>, nat)>)
    requires i <= |pat|
    ensures r.Some? ==> i < r.value.1 <= |pat|
    decreases |pat| - i
  {
    match SpanAt(pat, i, a)
    case None => None
    case Some((span, j)) =>
      if j >= |pat| then None
      else if pat[j] == CLOSE then Some(([span], j + 1))
      else
        match SpansAt(pat, j + 1, pat[j])
        case None => None
        case Some((rest, end)) => Some(([span] + rest, end))
  }

  predicate IsInverted(pat: seq<byte>, i: nat) {
    i < |pat| && (pat[i] == CARET || pat[i] == BANG)
  }

  /** The token at position i and the position after it. */
  function TokenAt(pat: seq<byte>, i: nat): (r: (Token, nat))
    requires i < |pat|
    ensures i < r.1 <= |pat|
  {
    if pat[i] == ANY then (AnyByte, i + 1)
    else if pat[i] == STAR then (Star, i + 1)
    else if pat[i] == OPEN then
      var first := if IsInverted(pat, i + 1) then i + 2 else i + 1;
      if first >= |pat| then (Never, i + 1)
      else
        match SpansAt(pat, first + 1, pat[first])
        case None => (Never, i + 1)
        case Some((spans, end)) => (Class(IsInverted(pat, i + 1), spans), end)
    else if pat[i] == ESCAPE then
      if i + 1 < |pat| then (Literal(pat[i + 1]), i + 2) else (Dangling, i + 1)
    else (Literal(pat[i]), i + 1)
  }

  /** The tokens from position i on; nothing after an unterminated class can
      ever be reached. */
  function TokensFrom(pat: seq<byte>, i: nat): seq<Token>
    requires i <= |pat|
    decreases |pat| - i
  {
    if i == |pat| then []
    else
      var (t, n) := TokenAt(pat, i);
      if t.Never? then [t] else [t] + TokensFrom(pat, n)
  }

  // ---- What a pattern matches ----

  predicate InSpans(spans: seq<Span>, c: byte) {
    exists k :: 0 <= k < |spans| && spans[k].lo <= c <= spans[k].hi
  }

  predicate Accepts(t: Token, c: byte) {
    match t
    case AnyByte => true
    case Literal(b) => b == c
    case Class(inverted, spans) => InSpans(spans, c) != inverted
    case _ => false
  }

  /** The tokens match s from position i to its end: a star matches any number
      of bytes, every other token one byte it accepts. */
  predicate MatchesFrom(toks: seq<Token>, s: seq<byte>, i: nat)
    requires i <= |s|
    decreases |toks|, |s| - i
  {
    if toks == [] then i == |s|
    else if toks[0].Star? then MatchesFrom(toks[1..], s, i) || (i < |s| && MatchesFrom(toks, s, i + 1))
    else i < |s| && Accepts(toks[0], s[i]) && MatchesFrom(toks[1..], s, i + 1)
  }

  // ---- What the matcher computes ----

  /** The star-free tokens seg accept the bytes of s from position i. */
  predicate SegmentAt(seg: seq<Token>, s: seq<byte>, i: nat) {
    i + |seg| <= |s| && forall k :: 0 <= k < |seg| ==> Accepts(seg[k], s[i + k])
  }

  /** The first position from i on where seg fits. */
  function FirstAt(seg: seq<Token>, s: seq<byte>, i: nat): (r: Option<nat>)
    requires i <= |s|
    ensures r.Some? ==> i <= r.value <= r.value + |seg| <= |s|
    decreases |s| - i
  {
    if SegmentAt(seg, s, i) then Some(i) else if i == |s| then None else FirstAt(seg, s, i + 1)
  }

  lemma {:induction false} FirstAtIsFirst(seg: seq<Token>, s: seq<byte>, i: nat)
    requires i <= |s|
    ensures var r := FirstAt(seg, s, i);
      && (r.Some? ==> SegmentAt(seg, s, r.value) && forall j :: i <= j < r.value ==> !SegmentAt(seg, s, j))
      && (r.None? ==> forall j :: i <= j ==> !SegmentAt(seg, s, j))
    decreases |s| - i
  {
    if !SegmentAt(seg, s, i) && i < |s| {
      FirstAtIsFirst(seg, s, i + 1);
    }
  }

  /** Index of the first star, or the length if there is none. */
  function StarIndex(toks: seq<Token>): (n: nat)
    ensures n <= |toks| && (n < |toks| ==> toks[n].Star?) && forall k :: 0 <= k < n ==> !toks[k].Star?
  {
    if toks == [] || toks[0].Star? then 0 else 1 + StarIndex(toks[1..])
  }

  /** After a star: each segment at its first position, the last one ending
      exactly at the end of s unless the pattern ends in a star. */
  predicate Placed(toks: seq<Token>, s: seq<byte>, i: nat)
    requires i <= |s|
    decreases |toks|
  {
    if toks == [] then true
    else
      var n := StarIndex(toks);
      match FirstAt(toks[..n], s, i)
      case None => false
      case Some(j) => if n == |toks| then j + n == |s| else Placed(toks[n + 1..], s, j + n)
  }

  /** The whole pattern: its first segment sits at the start of s. */
  predicate Leftmost(toks: seq<Token>, s: seq<byte>) {
    var n := StarIndex(toks);
    SegmentAt(toks[..n], s, 0) && (if n == |toks| then n == |s| else Placed(toks[n + 1..], s, n))
  }
}
