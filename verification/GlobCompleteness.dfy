/** On which patterns one remembered star loses no match, whatever the string. */
module GlobCompleteness {
  import opened Bytes
  import opened Glob
  import opened GlobTheory

  predicate AcceptsSome(t: Token) {
    exists c: byte :: Accepts(t, c)
  }

  /** A token that no byte satisfies, such as a class that excludes every byte. */
  predicate HasDeadToken(toks: seq<Token>) {
    exists k :: 0 <= k < |toks| && !toks[k].Star? && !AcceptsSome(toks[k])
  }

  /** A pattern with such a token matches nothing. */
  lemma {:induction false} DeadNeverMatches(toks: seq<Token>, s: seq<byte>, i: nat)
    requires i <= |s| && HasDeadToken(toks)
    ensures !MatchesFrom(toks, s, i)
    decreases |toks|, |s| - i
  {
    var k :| 0 <= k < |toks| && !toks[k].Star? && !AcceptsSome(toks[k]);
    if k > 0 {
      assert toks[1..][k - 1] == toks[k];
    }
    if toks[0].Star? {
      DeadNeverMatches(toks[1..], s, i);
      if i < |s| {
        DeadNeverMatches(toks, s, i + 1);
      }
    } else if i < |s| && Accepts(toks[0], s[i]) {
      DeadNeverMatches(toks[1..], s, i + 1);
    }
  }

  ghost function ByteFor(t: Token): (c: byte)
    requires AcceptsSome(t)
    ensures Accepts(t, c)
  {
    var c: byte :| Accepts(t, c);
    c
  }

  /** One accepted byte for each token but the stars. */
  ghost function Sample(toks: seq<Token>): (s: seq<byte>)
    requires !HasDeadToken(toks)
    decreases |toks|
  {
    if toks == [] then [] else
      TailAlive(toks);
      (if toks[0].Star? then [] else [ByteFor(toks[0])]) + Sample(toks[1..])
  }

  lemma TailAlive(toks: seq<Token>)
    requires toks != [] && !HasDeadToken(toks)
    ensures !HasDeadToken(toks[1..]) && (toks[0].Star? || AcceptsSome(toks[0]))
  {
    assert forall k :: 0 <= k < |toks[1..]| ==> toks[1..][k] == toks[k + 1];
  }

  lemma {:induction false} SuffixAlive(toks: seq<Token>, n: nat)
    requires n <= |toks| && !HasDeadToken(toks)
    ensures !HasDeadToken(toks[n..])
    decreases n
  {
    if n > 0 {
      TailAlive(toks);
      SuffixAlive(toks[1..], n - 1);
      assert toks[1..][n - 1..] == toks[n..];
    } else {
      assert toks[0..] == toks;
    }
  }

  /** The sample of a pattern that begins with n tokens other than stars. */
  lemma {:induction false} SampleSegment(toks: seq<Token>, n: nat)
    requires n <= |toks| && !HasDeadToken(toks) && forall k :: 0 <= k < n ==> !toks[k].Star?
    ensures !HasDeadToken(toks[n..]) && |Sample(toks)| == n + |Sample(toks[n..])|
    ensures Sample(toks)[n..] == Sample(toks[n..])
    ensures forall k :: 0 <= k < n ==> Accepts(toks[k], Sample(toks)[k])
    decreases n
  {
    SuffixAlive(toks, n);
    if n > 0 {
      TailAlive(toks);
      SampleSegment(toks[1..], n - 1);
      assert toks[1..][n - 1..] == toks[n..];
      var s := Sample(toks);
      assert s == [ByteFor(toks[0])] + Sample(toks[1..]);
      assert forall k :: 1 <= k < n ==> toks[k] == toks[1..][k - 1] && s[k] == Sample(toks[1..])[k - 1];
    } else {
      assert toks[0..] == toks;
    }
  }

  /** The string contains the sample of the pattern at p. */
  ghost predicate Contains(s: seq<byte>, p: nat, toks: seq<Token>) {
    !HasDeadToken(toks) && p + |Sample(toks)| <= |s| && s[p..p + |Sample(toks)|] == Sample(toks)
  }

  lemma SegmentOf(seg: seq<Token>, s: seq<byte>, p: nat, t: seq<byte>)
    requires |t| == |seg| && p + |seg| <= |s| && s[p..p + |seg|] == t
    requires forall k :: 0 <= k < |seg| ==> Accepts(seg[k], t[k])
    ensures SegmentAt(seg, s, p)
  {
    hide Accepts;
    forall k | 0 <= k < |seg|
      ensures Accepts(seg[k], s[p + k])
    {
      assert s[p + k] == s[p..p + |seg|][k];
    }
  }

  /** Then it contains the first segment at p, and the sample of what follows the
      first star behind that. */
  lemma ContainsParts(s: seq<byte>, p: nat, toks: seq<Token>)
    requires Contains(s, p, toks)
    ensures var n := StarIndex(toks);
      && SegmentAt(toks[..n], s, p)
      && (n == |toks| ==> |Sample(toks)| == n)
      && (n < |toks| ==> Contains(s, p + n, toks[n + 1..]) && |Sample(toks)| == n + |Sample(toks[n + 1..])|)
  {
    var n, w := StarIndex(toks), Sample(toks);
    assert p + |w| <= |s| && s[p..p + |w|] == w;
    hide StarIndex, SegmentAt, HasDeadToken, Accepts;
    SampleSegment(toks, n);
    assert s[p..p + n] == s[p..p + |w|][..n];
    SegmentOf(toks[..n], s, p, w[..n]);
    if n < |toks| {
      TailAlive(toks[n..]);
      assert toks[n..][1..] == toks[n + 1..];
      assert s[p + n..p + |w|] == s[p..p + |w|][n..];
    } else {
      assert toks[n..] == [];
    }
  }

  lemma ContainsFits(s: seq<byte>, p: nat, toks: seq<Token>)
    requires Contains(s, p, toks)
    ensures !HasDeadToken(toks) && p + |Sample(toks)| <= |s|
  {
  }

  /** In such a string the segments before the last one are placed no later than
      there, and the last one fits there. */
  lemma {:induction false} PlacedInSample(toks: seq<Token>, s: seq<byte>, i: nat, p: nat)
    requires i <= p && Contains(s, p, toks)
    ensures i <= |s| && LastStart(toks, s, i).Some?
    ensures LastStart(toks, s, i).value + |LastSegment(toks)| <= p + |Sample(toks)|
    ensures SegmentAt(LastSegment(toks), s, p + |Sample(toks)| - |LastSegment(toks)|)
    decreases |toks|
  {
    hide *;
    var n := StarIndex(toks);
    ContainsFits(s, p, toks);
    ContainsParts(s, p, toks);
    LastUnfold(toks);
    StartUnfold(toks, s, i);
    if n == |toks| {
      assert toks[..n] == toks;
    } else {
      FirstAtIsFirst(toks[..n], s, i);
      PlacedInSample(toks[n + 1..], s, FirstAt(toks[..n], s, i).value + n, p + n);
    }
  }

  lemma {:induction false} LastSegmentThere(toks: seq<Token>)
    requires toks != [] && !toks[|toks| - 1].Star?
    ensures LastSegment(toks) != []
    decreases |toks|
  {
    var n := StarIndex(toks);
    if n < |toks| {
      LastSegmentThere(toks[n + 1..]);
    }
  }

  lemma HasStar(toks: seq<Token>)
    requires Star in toks
    ensures StarIndex(toks) < |toks|
  {
    var k :| 0 <= k < |toks| && toks[k] == Star;
  }

  /** A segment that ends a string also ends it when repeated behind it. */
  lemma EndingTwice(last: seq<Token>, w: seq<byte>, s: seq<byte>)
    requires |last| <= |w| && SegmentAt(last, w, |w| - |last|) && s == w + w[|w| - |last|..]
    ensures SegmentAt(last, s, |w| - |last|) && SegmentAt(last, s, |s| - |last|)
  {
    var a := |w| - |last|;
    assert forall k :: 0 <= k < |last| ==> Accepts(last[k], w[a..][k]);
    hide Accepts, SegmentAt;
    assert s[a..a + |last|] == w[a..] && s[|w|..|w| + |last|] == w[a..];
    SegmentOf(last, s, a, w[a..]);
    SegmentOf(last, s, |w|, w[a..]);
  }

  lemma SampleEnds(toks: seq<Token>)
    requires !HasDeadToken(toks)
    ensures |LastSegment(toks)| <= |Sample(toks)|
    ensures SegmentAt(LastSegment(toks), Sample(toks), |Sample(toks)| - |LastSegment(toks)|)
  {
    var w := Sample(toks);
    assert w[0..0 + |w|] == w;
    assert Contains(w, 0, toks);
    hide HasDeadToken, Contains, Sample, SegmentAt, LastSegment, LastStart;
    PlacedInSample(toks, w, 0, 0);
  }

  lemma ContainsPrefix(toks: seq<Token>, s: seq<byte>)
    requires !HasDeadToken(toks) && Sample(toks) <= s
    ensures Contains(s, 0, toks)
  {
  }

  /** A string that matches, but whose last segment also fits earlier: the sample
      with its last segment repeated. */
  lemma Missed(toks: seq<Token>) returns (s: seq<byte>)
    requires !HasDeadToken(toks) && Star in toks && !toks[|toks| - 1].Star?
    ensures MatchesFrom(toks, s, 0) && !Leftmost(toks, s)
  {
    hide *;
    var n, w, last := StarIndex(toks), Sample(toks), LastSegment(toks);
    HasStar(toks);
    LastSegmentThere(toks);
    LastUnfold(toks);
    SampleEnds(toks);
    s := w + w[|w| - |last|..];
    ContainsPrefix(toks, s);
    ContainsParts(s, 0, toks);
    PlacedInSample(toks[n + 1..], s, n, n);
    EndingTwice(last, w, s);
    MissedFrom(toks, s, n, |w| - |last|);
  }

  lemma MissedFrom(toks: seq<Token>, s: seq<byte>, n: nat, p: nat)
    requires n == StarIndex(toks) < |toks| && n <= |s| && SegmentAt(toks[..n], s, 0)
    requires LastStart(toks[n + 1..], s, n).Some? && LastStart(toks[n + 1..], s, n).value <= p
    requires var last := LastSegment(toks[n + 1..]);
      last != [] && p + |last| < |s| && SegmentAt(last, s, p) && SegmentAt(last, s, |s| - |last|)
    ensures MatchesFrom(toks, s, 0) && !Leftmost(toks, s)
  {
    hide LastStart, LastSegment, SegmentAt;
    assert toks[n..][1..] == toks[n + 1..];
    SegmentSplit(toks, s, 0, n);
    StarMeans(toks[n..], s, n);
    MatchesAfterStar(toks[n + 1..], s, n);
    LeftmostExact(toks, s);
  }

  /** The matcher is complete on a pattern, for every string, exactly if the
      pattern has no star, ends in one, or can match nothing at all. */
  lemma CompleteExactly(toks: seq<Token>)
    ensures (forall s :: Leftmost(toks, s) <==> MatchesFrom(toks, s, 0))
       <==> Star !in toks || toks[|toks| - 1].Star? || HasDeadToken(toks)
  {
    if Star !in toks || toks[|toks| - 1].Star? {
      forall s
        ensures Leftmost(toks, s) <==> MatchesFrom(toks, s, 0)
      {
        CompleteWithoutStarOrWithTrailingStar(toks, s);
      }
    } else if HasDeadToken(toks) {
      forall s
        ensures Leftmost(toks, s) <==> MatchesFrom(toks, s, 0)
      {
        Soundness(toks, s);
        DeadNeverMatches(toks, s, 0);
      }
    } else {
      var s := Missed(toks);
    }
  }
}
