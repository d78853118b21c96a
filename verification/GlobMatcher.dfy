/** The glob matching loop: one remembered star, retried one byte later. */
module GlobMatcher {
  import opened Bytes
  import opened Glob

  function Prepend(seen: seq<Span>, r: Option<(seq<Span>, nat)>): Option<(seq<Span>, nat)> {
    match r
    case None => None
    case Some((spans, end)) => Some((seen + spans, end))
  }

  lemma PrependSpan(seen: seq<Span>, span: Span, r: Option<(seq<Span>, nat)>)
    ensures Prepend(seen, Prepend([span], r)) == Prepend(seen + [span], r)
  {
    if r.Some? {
      assert seen + ([span] + r.value.0) == seen + [span] + r.value.0;
    }
  }

  lemma InSpansAppend(spans: seq<Span>, span: Span, c: byte)
    ensures InSpans(spans + [span], c) <==> InSpans(spans, c) || span.lo <= c <= span.hi
  {
    var all := spans + [span];
    if InSpans(spans, c) {
      var k :| 0 <= k < |spans| && spans[k].lo <= c <= spans[k].hi;
      assert all[k].lo <= c <= all[k].hi;
    }
    if span.lo <= c <= span.hi {
      assert all[|spans|].lo <= c <= all[|spans|].hi;
    }
  }

  lemma InSpansNone(c: byte)
    ensures !InSpans([], c)
  {
  }

  /** The span that starts with a: an escaped byte, a range in either order, or
      the byte alone. */
  method ReadSpan(pat: seq<byte>, cls: nat, a: byte) returns (complete: bool, lo: byte, hi: byte, next: nat)
    requires cls <= |pat|
    ensures SpanAt(pat, cls, a) == if complete then Some((Span(lo, hi), next)) else None
    ensures complete ==> cls <= next <= |pat|
  {
    complete, lo, hi, next := true, a, a, cls;
    if a == ESCAPE {
      if cls >= |pat| {
        complete := false;
        return;
      }
      lo, hi, next := pat[cls], pat[cls], cls + 1;
    } else if cls + 1 < |pat| && pat[cls] == DASH && pat[cls + 1] != CLOSE {
      hi, next := pat[cls + 1], cls + 2;
      if lo > hi {
        lo, hi := hi, lo;
      }
    }
  }

  /** Scans the spans of a class, noting whether any of them holds c. */
  method ScanSpans(pat: seq<byte>, start: nat, c: byte) returns (terminated: bool, matched: bool, end: nat)
    requires start < |pat|
    ensures terminated <==> SpansAt(pat, start + 1, pat[start]).Some?
    ensures terminated ==> end == SpansAt(pat, start + 1, pat[start]).value.1
    ensures terminated ==> matched == InSpans(SpansAt(pat, start + 1, pat[start]).value.0, c)
  {
    hide InSpans, SpanAt;
    InSpansNone(c);
    var cls, a := start + 1, pat[start];
    ghost var seen: seq<Span> := [];
    ghost var whole := SpansAt(pat, start + 1, pat[start]);
    assert whole.Some? ==> [] + whole.value.0 == whole.value.0;
    matched := false;
    end := 0;
    while true
      invariant start < cls <= |pat|
      invariant SpansAt(pat, start + 1, pat[start]) == Prepend(seen, SpansAt(pat, cls, a))
      invariant matched == InSpans(seen, c)
      decreases |pat| - cls
    {
      var complete, lo, hi, next := ReadSpan(pat, cls, a);
      if !complete {
        return false, matched, 0;
      }
      ghost var span := Span(lo, hi);
      matched := matched || (lo <= c <= hi);
      InSpansAppend(seen, span, c);
      if next >= |pat| {
        return false, matched, 0;
      }
      if pat[next] == CLOSE {
        return true, matched, next + 1;
      }
      assert SpansAt(pat, cls, a) == Prepend([span], SpansAt(pat, next + 1, pat[next]));
      PrependSpan(seen, span, SpansAt(pat, next + 1, pat[next]));
      seen := seen + [span];
      a, cls := pat[next], next + 1;
    }
  }

  /** Tries the token at pi, which is not a star, on the byte c. */
  method TryToken(pat: seq<byte>, pi: nat, c: byte) returns (accepted: bool, next: nat)
    requires pi < |pat| && !TokenAt(pat, pi).0.Star? && !TokenAt(pat, pi).0.Dangling?
    ensures accepted == Accepts(TokenAt(pat, pi).0, c)
    ensures accepted ==> next == TokenAt(pat, pi).1
  {
    var d := pat[pi];
    next := pi + 1;
    if d == ANY {
      accepted := true;
    } else if d == OPEN {
      var inverted := false;
      var cls := pi + 1;
      if cls < |pat| && (pat[cls] == CARET || pat[cls] == BANG) {
        inverted := true;
        cls := cls + 1;
      }
      if cls >= |pat| {
        return false, next;
      }
      var terminated, matched, end := ScanSpans(pat, cls, c);
      accepted := terminated && matched != inverted;
      next := end;
    } else {
      if d == ESCAPE {
        d := pat[next];
        next := next + 1;
      }
      accepted := c == d;
    }
  }

  /** Where the loop stands: before the first star the tokens read so far sit at
      the start of s; after a star, at position bs, and the answer is that of
      placing the tokens after the star from there. */
  ghost predicate LoopInv(all: seq<Token>, s: seq<byte>, toks: seq<Token>, si: nat,
                          hasBack: bool, back: seq<Token>, bs: nat) {
    && bs <= si <= |s|
    && var base := if hasBack then back else all;
       var m := si - bs;
       && m <= |base| && toks == base[m..] && Star !in base[..m] && SegmentAt(base[..m], s, bs)
       && (if hasBack then back != [] && Placed(back, s, bs) == Leftmost(all, s) else bs == 0)
  }

  lemma StarIndexAtLeast(base: seq<Token>, m: nat)
    requires m <= |base| && Star !in base[..m]
    ensures StarIndex(base) >= m
    ensures m < |base| && base[m].Star? ==> StarIndex(base) == m
    ensures m < |base| && !base[m].Star? ==> StarIndex(base) > m
  {
    assert forall k :: 0 <= k < m ==> base[k] == base[..m][k] && base[k] in base[..m];
  }

  lemma SegmentExtend(base: seq<Token>, m: nat, s: seq<byte>, bs: nat)
    requires m < |base| && bs + m < |s| && SegmentAt(base[..m], s, bs)
    requires !base[m].Star? && Star !in base[..m] && Accepts(base[m], s[bs + m])
    ensures SegmentAt(base[..m + 1], s, bs) && Star !in base[..m + 1]
  {
    var seg, seg' := base[..m], base[..m + 1];
    assert forall k :: 0 <= k < m ==> seg'[k] == seg[k];
    assert seg' == seg + [base[m]];
  }

  /** The next token accepts the next byte. */
  lemma AdvanceInv(all: seq<Token>, s: seq<byte>, toks: seq<Token>, si: nat, hasBack: bool, back: seq<Token>, bs: nat)
    requires LoopInv(all, s, toks, si, hasBack, back, bs)
    requires toks != [] && !toks[0].Star? && si < |s| && Accepts(toks[0], s[si])
    ensures LoopInv(all, s, toks[1..], si + 1, hasBack, back, bs)
  {
    var base := if hasBack then back else all;
    var m := si - bs;
    SegmentExtend(base, m, s, bs);
    assert base[m + 1..] == toks[1..];
  }

  /** A segment that fits at once is placed there. */
  lemma SegmentPlaced(base: seq<Token>, s: seq<byte>, bs: nat, m: nat)
    requires m == StarIndex(base) < |base| && SegmentAt(base[..m], s, bs)
    ensures bs + m <= |s| && Placed(base, s, bs) == Placed(base[m + 1..], s, bs + m)
  {
    hide StarIndex;
    var seg := base[..m];
    FitsAtOnce(seg, s, bs);
    hide FirstAt, SegmentAt;
    assert |seg| == m;
  }

  lemma FitsAtOnce(seg: seq<Token>, s: seq<byte>, bs: nat)
    requires SegmentAt(seg, s, bs)
    ensures FirstAt(seg, s, bs) == Some(bs) && bs + |seg| <= |s|
  {
  }

  lemma SegmentFirst(base: seq<Token>, s: seq<byte>, m: nat)
    requires m == StarIndex(base) < |base| && SegmentAt(base[..m], s, 0)
    ensures m <= |s| && Leftmost(base, s) == Placed(base[m + 1..], s, m)
  {
    hide StarIndex, Placed;
  }

  /** A star: everything before it is placed for good. */
  lemma StarInv(all: seq<Token>, s: seq<byte>, toks: seq<Token>, si: nat, hasBack: bool, back: seq<Token>, bs: nat)
    requires LoopInv(all, s, toks, si, hasBack, back, bs) && toks != [] && toks[0].Star?
    ensures Placed(toks[1..], s, si) == Leftmost(all, s)
    ensures toks[1..] != [] ==> LoopInv(all, s, toks[1..], si, true, toks[1..], si)
    ensures toks[1..] == [] ==> Leftmost(all, s)
  {
    PlacedNothing(s, si);
    hide Placed, Leftmost, StarIndex, Accepts;
    var base := if hasBack then back else all;
    var m := si - bs;
    StarIndexAtLeast(base, m);
    assert base[m + 1..] == toks[1..];
    assert toks[1..][..0] == [] && toks[1..][0..] == toks[1..];
    if hasBack {
      SegmentPlaced(base, s, bs, m);
    } else {
      SegmentFirst(base, s, m);
    }
  }

  lemma PlacedNothing(s: seq<byte>, i: nat)
    ensures i <= |s| ==> Placed([], s, i)
  {
  }

  /** A segment that does not fit is looked for one byte later. */
  lemma SegmentShifted(back: seq<Token>, s: seq<byte>, bs: nat)
    requires back != [] && bs < |s| && !SegmentAt(back[..StarIndex(back)], s, bs)
    ensures Placed(back, s, bs) == Placed(back, s, bs + 1)
  {
    assert FirstAt(back[..StarIndex(back)], s, bs) == FirstAt(back[..StarIndex(back)], s, bs + 1);
    hide StarIndex, FirstAt, SegmentAt;
  }

  /** The next token refuses the next byte: the segment does not fit here. */
  lemma MismatchInv(all: seq<Token>, s: seq<byte>, toks: seq<Token>, si: nat, hasBack: bool, back: seq<Token>, bs: nat)
    requires LoopInv(all, s, toks, si, hasBack, back, bs)
    requires toks != [] && !toks[0].Star? && si < |s| && !Accepts(toks[0], s[si])
    ensures !hasBack ==> !Leftmost(all, s)
    ensures hasBack ==> LoopInv(all, s, back, bs + 1, true, back, bs + 1)
  {
    hide Placed, StarIndex, Accepts;
    var base := if hasBack then back else all;
    var m := si - bs;
    StarIndexAtLeast(base, m);
    var seg := base[..StarIndex(base)];
    assert seg[m] == toks[0] && s[bs + m] == s[si];
    assert !SegmentAt(seg, s, bs);
    if hasBack {
      SegmentShifted(back, s, bs);
      assert back[0..] == back && back[..0] == [];
    }
  }

  predicate AllStars(toks: seq<Token>) {
    forall k :: 0 <= k < |toks| ==> toks[k].Star?
  }

  /** With no byte left, only stars can still be placed. */
  lemma {:induction false} PlacedAtEnd(toks: seq<Token>, s: seq<byte>)
    ensures Placed(toks, s, |s|) <==> AllStars(toks)
    decreases |toks|
  {
    if toks != [] {
      var n := StarIndex(toks);
      if n == 0 {
        assert toks[..0] == [];
        PlacedAtEnd(toks[1..], s);
        assert forall k :: 1 <= k < |toks| ==> toks[k] == toks[1..][k - 1];
      } else {
        assert !toks[0].Star?;
      }
    }
  }

  /** At the end of the pattern or of the string the loop knows the answer. */
  lemma FinishInv(all: seq<Token>, s: seq<byte>, toks: seq<Token>, si: nat, hasBack: bool, back: seq<Token>, bs: nat)
    requires LoopInv(all, s, toks, si, hasBack, back, bs) && (si == |s| || toks == [])
    ensures Leftmost(all, s) <==> si == |s| && AllStars(toks)
  {
    var base := if hasBack then back else all;
    var m := si - bs;
    StarIndexAtLeast(base, m);
    if toks == [] {
      assert base[..m] == base;
    } else if toks[0].Star? {
      hide Placed, StarIndex, Accepts;
      StarInv(all, s, toks, si, hasBack, back, bs);
      PlacedAtEnd(toks[1..], s);
      AllStarsNext(toks);
    } else {
      assert forall j :: bs <= j ==> !SegmentAt(base[..StarIndex(base)], s, j);
    }
  }

  /** The tokens from a position, split into the first and the others. */
  lemma TokensNext(pat: seq<byte>, i: nat)
    requires i < |pat| && Dangling !in TokensFrom(pat, i)
    ensures TokensFrom(pat, i) != [] && TokensFrom(pat, i)[0] == TokenAt(pat, i).0 != Dangling
    ensures !TokenAt(pat, i).0.Never? ==>
      TokensFrom(pat, i)[1..] == TokensFrom(pat, TokenAt(pat, i).1) && Dangling !in TokensFrom(pat, TokenAt(pat, i).1)
  {
    assert TokensFrom(pat, i)[0] in TokensFrom(pat, i);
  }

  lemma AllStarsNext(toks: seq<Token>)
    requires toks != []
    ensures AllStars(toks) <==> toks[0].Star? && AllStars(toks[1..])
  {
    assert forall k :: 1 <= k < |toks| ==> toks[k] == toks[1..][k - 1];
  }

  lemma StartInv(all: seq<Token>, s: seq<byte>, back: seq<Token>)
    ensures LoopInv(all, s, all, 0, false, back, 0)
  {
    assert all[0..] == all && all[..0] == [];
  }

  lemma TokensEnd(pat: seq<byte>, i: nat)
    requires i <= |pat|
    ensures TokensFrom(pat, i) == [] <==> i == |pat|
  {
  }

  /** Skips the stars at the end of the pattern. */
  method SkipStars(pat: seq<byte>, start: nat) returns (pi: nat)
    requires start <= |pat| && Dangling !in TokensFrom(pat, start)
    ensures start <= pi <= |pat|
    ensures pi == |pat| <==> AllStars(TokensFrom(pat, start))
  {
    pi := start;
    while pi < |pat| && pat[pi] == STAR
      invariant start <= pi <= |pat| && Dangling !in TokensFrom(pat, pi)
      invariant AllStars(TokensFrom(pat, start)) <==> AllStars(TokensFrom(pat, pi))
    {
      TokensNext(pat, pi);
      AllStarsNext(TokensFrom(pat, pi));
      pi := pi + 1;
    }
    if pi < |pat| {
      TokensNext(pat, pi);
      AllStarsNext(TokensFrom(pat, pi));
    }
  }

  /** fio_glob_match. A final backslash with nothing to escape would be read past
      the end of the pattern, so no pattern has one. */
  method GlobMatch(pat: seq<byte>, str: seq<byte>) returns (r: bool)
    requires Dangling !in TokensFrom(pat, 0)
    ensures r <==> Leftmost(TokensFrom(pat, 0), str)
  {
    hide LoopInv, TokensFrom, Leftmost, Placed;
    ghost var all := TokensFrom(pat, 0);
    var pi: nat, si: nat := 0, 0;
    var hasBack, bp: nat, bs: nat := false, 0, 0;
    ghost var toks, back := all, all;
    StartInv(all, str, back);
    while si < |str| && pi < |pat|
      invariant pi <= |pat| && bp <= |pat| && bs <= si <= |str|
      invariant hasBack ==> bp <= pi
      invariant toks == TokensFrom(pat, pi) && Dangling !in toks
      invariant back == TokensFrom(pat, bp) && Dangling !in back
      invariant LoopInv(all, str, toks, si, hasBack, back, bs)
      decreases if hasBack then |pat| - bp else |pat| + 1, |str| - bs, |pat| - pi
    {
      TokensNext(pat, pi);
      if pat[pi] == STAR {
        StarInv(all, str, toks, si, hasBack, back, bs);
        toks := toks[1..];
        pi := pi + 1;
        TokensEnd(pat, pi);
        if pi == |pat| {
          return true;
        }
        hasBack, bp, bs := true, pi, si;
        back := toks;
      } else {
        var accepted, next := TryToken(pat, pi, str[si]);
        if accepted {
          AdvanceInv(all, str, toks, si, hasBack, back, bs);
          toks := toks[1..];
          si, pi := si + 1, next;
        } else {
          MismatchInv(all, str, toks, si, hasBack, back, bs);
          if !hasBack {
            return false;
          }
          toks := back;
          bs := bs + 1;
          pi, si := bp, bs;
        }
      }
    }
    TokensEnd(pat, pi);
    FinishInv(all, str, toks, si, hasBack, back, bs);
    pi := SkipStars(pat, pi);
    r := si == |str| && pi == |pat|;
  }
}
