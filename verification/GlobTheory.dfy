/** How the leftmost placement relates to matching. */
module GlobTheory {
  import opened Bytes
  import opened Glob

  /** A star may absorb any number of bytes. */
  lemma {:induction false} StarAbsorbs(toks: seq<Token>, s: seq<byte>, i: nat, j: nat)
    requires toks != [] && toks[0].Star? && i <= j <= |s| && MatchesFrom(toks[1..], s, j)
    ensures MatchesFrom(toks, s, i)
    decreases j - i
  {
    if i < j {
      StarAbsorbs(toks, s, i + 1, j);
    }
  }

  /** Where the rest of the pattern starts after a star. */
  lemma {:induction false} StarSplit(toks: seq<Token>, s: seq<byte>, i: nat) returns (j: nat)
    requires i <= |s| && toks != [] && toks[0].Star? && MatchesFrom(toks, s, i)
    ensures i <= j <= |s| && MatchesFrom(toks[1..], s, j)
    decreases |s| - i
  {
    if MatchesFrom(toks[1..], s, i) {
      j := i;
    } else {
      j := StarSplit(toks, s, i + 1);
    }
  }

  /** A star-free prefix matches exactly the bytes it fits. */
  lemma {:induction false} SegmentSplit(toks: seq<Token>, s: seq<byte>, i: nat, n: nat)
    requires i <= |s| && n <= |toks| && forall k :: 0 <= k < n ==> !toks[k].Star?
    ensures MatchesFrom(toks, s, i) <==> SegmentAt(toks[..n], s, i) && MatchesFrom(toks[n..], s, i + n)
    decreases n
  {
    if n > 0 {
      assert toks[..n][0] == toks[0];
      if i < |s| {
        SegmentSplit(toks[1..], s, i + 1, n - 1);
        assert toks[1..][n - 1..] == toks[n..];
        SegmentShift(toks[..n], s, i);
        assert toks[..n][1..] == toks[1..][..n - 1];
      }
    } else {
      assert toks[0..] == toks;
    }
  }

  lemma SegmentShift(seg: seq<Token>, s: seq<byte>, i: nat)
    requires seg != [] && i < |s|
    ensures SegmentAt(seg, s, i) <==> Accepts(seg[0], s[i]) && SegmentAt(seg[1..], s, i + 1)
  {
    if Accepts(seg[0], s[i]) && SegmentAt(seg[1..], s, i + 1) {
      assert forall k :: 1 <= k < |seg| ==> seg[k] == seg[1..][k - 1] && s[i + k] == s[i + 1 + (k - 1)];
    }
    if SegmentAt(seg, s, i) {
      assert forall k :: 0 <= k < |seg| - 1 ==> seg[1..][k] == seg[k + 1] && s[i + (k + 1)] == s[i + 1 + k];
    }
  }

  /** The last segment, and the position from which the matcher looks for it:
      every earlier segment sits at its first position. */
  function LastSegment(toks: seq<Token>): seq<Token>
    decreases |toks|
  {
    var n := StarIndex(toks);
    if n == |toks| then toks else LastSegment(toks[n + 1..])
  }

  function LastStart(toks: seq<Token>, s: seq<byte>, i: nat): (r: Option<nat>)
    requires i <= |s|
    ensures r.Some? ==> i <= r.value <= |s|
    decreases |toks|
  {
    var n := StarIndex(toks);
    if n == |toks| then Some(i)
    else
      match FirstAt(toks[..n], s, i)
      case None => None
      case Some(j) => LastStart(toks[n + 1..], s, j + n)
  }

  /** The last segment fits at the very end of s, from position k on. */
  predicate FitsAtEnd(seg: seq<Token>, s: seq<byte>, k: nat) {
    k + |seg| <= |s| && SegmentAt(seg, s, |s| - |seg|)
  }

  /** The last segment fits somewhere from k on before the end of s. */
  predicate FitsEarlier(seg: seq<Token>, s: seq<byte>, k: nat) {
    seg != [] && exists j :: k <= j < |s| - |seg| && SegmentAt(seg, s, j)
  }

  /** The tokens match s from i or from some later position. */
  predicate MatchesSomewhere(toks: seq<Token>, s: seq<byte>, i: nat) {
    exists j :: i <= j <= |s| && MatchesFrom(toks, s, j)
  }

  /** If a segment, a star and the rest match somewhere, the rest still matches
      somewhere after the first position of the segment. */
  lemma PlaceFirst(toks: seq<Token>, s: seq<byte>, i: nat)
    requires i <= |s| && StarIndex(toks) < |toks|
    ensures MatchesSomewhere(toks, s, i) <==>
      var n, first := StarIndex(toks), FirstAt(toks[..StarIndex(toks)], s, i);
      first.Some? && MatchesSomewhere(toks[n + 1..], s, first.value + n)
  {
    var n := StarIndex(toks);
    var rest, first := toks[n + 1..], FirstAt(toks[..n], s, i);
    assert toks[n..][1..] == rest;
    FirstAtIsFirst(toks[..n], s, i);
    if MatchesSomewhere(toks, s, i) {
      var j :| i <= j <= |s| && MatchesFrom(toks, s, j);
      SegmentSplit(toks, s, j, n);
      var k := StarSplit(toks[n..], s, j + n);
      assert first.value + n <= k;
    }
    if first.Some? && MatchesSomewhere(rest, s, first.value + n) {
      var k :| first.value + n <= k <= |s| && MatchesFrom(rest, s, k);
      StarAbsorbs(toks[n..], s, first.value + n, k);
      SegmentSplit(toks, s, first.value, n);
    }
  }

  /** All segments but the last placed leftmost, the last one at the end. */
  predicate LastAtEnd(toks: seq<Token>, s: seq<byte>, i: nat)
    requires i <= |s|
  {
    LastStart(toks, s, i).Some? && FitsAtEnd(LastSegment(toks), s, LastStart(toks, s, i).value)
  }

  lemma MatchesLast(toks: seq<Token>, s: seq<byte>, i: nat)
    requires i <= |s| && StarIndex(toks) == |toks|
    ensures MatchesSomewhere(toks, s, i) <==> FitsAtEnd(toks, s, i)
  {
    hide LastStart, LastSegment, StarIndex, FirstAt, Accepts;
    var n := |toks|;
    assert toks[..n] == toks && toks[n..] == [];
    if MatchesSomewhere(toks, s, i) {
      var j :| i <= j <= |s| && MatchesFrom(toks, s, j);
      SegmentSplit(toks, s, j, n);
    }
    if FitsAtEnd(toks, s, i) {
      SegmentSplit(toks, s, |s| - n, n);
    }
  }

  /** Matching somewhere from i on is leftmost placement of all segments but
      the last, with the last one at the end: placing earlier segments further
      left never loses a match. */
  lemma {:induction false} MatchesAfterStar(toks: seq<Token>, s: seq<byte>, i: nat)
    requires i <= |s|
    ensures MatchesSomewhere(toks, s, i) <==> LastAtEnd(toks, s, i)
    decreases |toks|
  {
    hide MatchesSomewhere, FitsAtEnd;
    var n := StarIndex(toks);
    if n == |toks| {
      MatchesLast(toks, s, i);
    } else {
      PlaceFirst(toks, s, i);
      var first := FirstAt(toks[..n], s, i);
      if first.Some? {
        MatchesAfterStar(toks[n + 1..], s, first.value + n);
      }
    }
  }

  /** The tokens after a star that match from n on are those that match
      somewhere from n on. */
  lemma StarMeans(toks: seq<Token>, s: seq<byte>, i: nat)
    requires i <= |s| && toks != [] && toks[0].Star?
    ensures MatchesFrom(toks, s, i) <==> MatchesSomewhere(toks[1..], s, i)
  {
    if MatchesFrom(toks, s, i) {
      var j := StarSplit(toks, s, i);
    }
    if MatchesSomewhere(toks[1..], s, i) {
      var j :| i <= j <= |s| && MatchesFrom(toks[1..], s, j);
      StarAbsorbs(toks, s, i, j);
    }
  }

  /** After the leftmost placement of the other segments, the last one also
      fits somewhere before the end of s. */
  predicate LastEarlier(toks: seq<Token>, s: seq<byte>, i: nat)
    requires i <= |s|
  {
    LastStart(toks, s, i).Some? && FitsEarlier(LastSegment(toks), s, LastStart(toks, s, i).value)
  }

  lemma LastUnfold(toks: seq<Token>)
    ensures var n := StarIndex(toks);
      LastSegment(toks) == if n == |toks| then toks else LastSegment(toks[n + 1..])
  {
    hide StarIndex;
  }

  lemma StartUnfold(toks: seq<Token>, s: seq<byte>, i: nat)
    requires i <= |s|
    ensures var n := StarIndex(toks); n == |toks| ==> LastStart(toks, s, i) == Some(i)
    ensures var n := StarIndex(toks); n < |toks| && FirstAt(toks[..n], s, i).Some? ==>
      LastStart(toks, s, i) == LastStart(toks[n + 1..], s, FirstAt(toks[..n], s, i).value + n)
    ensures var n := StarIndex(toks); n < |toks| && FirstAt(toks[..n], s, i).None? ==> LastStart(toks, s, i) == None
  {
    hide StarIndex, FirstAt;
  }

  lemma PlacedUnfold(toks: seq<Token>, s: seq<byte>, i: nat)
    requires i <= |s| && StarIndex(toks) < |toks|
    ensures var n := StarIndex(toks); var first := FirstAt(toks[..n], s, i);
      Placed(toks, s, i) <==> first.Some? && Placed(toks[n + 1..], s, first.value + n)
  {
    hide StarIndex, FirstAt;
  }

  /** The last segment is found first at the end exactly if it fits there and
      nowhere before. */
  lemma PlacedLast(toks: seq<Token>, s: seq<byte>, i: nat)
    requires i <= |s| && StarIndex(toks) == |toks|
    ensures Placed(toks, s, i) <==> FitsAtEnd(toks, s, i) && !FitsEarlier(toks, s, i)
  {
    assert toks[..|toks|] == toks;
    FirstAtIsFirst(toks, s, i);
    hide StarIndex, FirstAt, Accepts;
  }

  /** The loop's answer after a star: the last segment must be found at the end
      of s before it is found anywhere else. */
  lemma {:induction false} PlacedMeans(toks: seq<Token>, s: seq<byte>, i: nat)
    requires i <= |s|
    ensures Placed(toks, s, i) <==> LastAtEnd(toks, s, i) && !LastEarlier(toks, s, i)
    decreases |toks|
  {
    hide StarIndex, FirstAt, Placed, LastStart, LastSegment, FitsAtEnd, FitsEarlier;
    var n := StarIndex(toks);
    LastUnfold(toks);
    StartUnfold(toks, s, i);
    if n == |toks| {
      PlacedLast(toks, s, i);
    } else {
      PlacedUnfold(toks, s, i);
      var first := FirstAt(toks[..n], s, i);
      if first.Some? {
        PlacedMeans(toks[n + 1..], s, first.value + n);
      }
    }
  }

  /** The last segment of the pattern also fits earlier than at the end of s. */
  predicate EarlierFit(toks: seq<Token>, s: seq<byte>) {
    var n := StarIndex(toks);
    n < |toks| && n <= |s| && LastEarlier(toks[n + 1..], s, n)
  }

  /** The matcher accepts exactly the matches whose last segment does not also
      fit earlier, after the leftmost placement of the others. */
  lemma LeftmostExact(toks: seq<Token>, s: seq<byte>)
    ensures Leftmost(toks, s) <==> MatchesFrom(toks, s, 0) && !EarlierFit(toks, s)
  {
    var n := StarIndex(toks);
    SegmentSplit(toks, s, 0, n);
    if n == |toks| {
      assert toks[n..] == [];
    } else if n <= |s| {
      var rest := toks[n + 1..];
      assert toks[n..][1..] == rest;
      StarMeans(toks[n..], s, n);
      PlacedMeans(rest, s, n);
      MatchesAfterStar(rest, s, n);
    }
  }

  /** No accepted string fails to match. */
  lemma Soundness(toks: seq<Token>, s: seq<byte>)
    ensures Leftmost(toks, s) ==> MatchesFrom(toks, s, 0)
  {
    LeftmostExact(toks, s);
  }

  lemma {:induction false} LastSegmentEmpty(toks: seq<Token>)
    requires toks == [] || toks[|toks| - 1].Star?
    ensures LastSegment(toks) == []
    decreases |toks|
  {
    var n := StarIndex(toks);
    if n < |toks| {
      LastSegmentEmpty(toks[n + 1..]);
    }
  }

  /** Without a star, or with a star at the end, one remembered star loses no
      match. */
  lemma CompleteWithoutStarOrWithTrailingStar(toks: seq<Token>, s: seq<byte>)
    requires Star !in toks || toks[|toks| - 1].Star?
    ensures Leftmost(toks, s) <==> MatchesFrom(toks, s, 0)
  {
    LeftmostExact(toks, s);
    var n := StarIndex(toks);
    if n < |toks| {
      assert toks[n] in toks;
      LastSegmentEmpty(toks[n + 1..]);
    }
  }

  /** A match the matcher misses: the pattern *a and the string aba. */
  lemma MissedMatch()
    ensures var toks := TokensFrom([42, 97], 0);
            MatchesFrom(toks, [97, 98, 97], 0) && !Leftmost(toks, [97, 98, 97])
  {
    var s: seq<byte> := [97, 98, 97];
    var pat: seq<byte> := [STAR, 97];
    assert TokensFrom(pat, 2) == [];
    assert TokensFrom(pat, 1) == [Literal(97)];
    var toks := TokensFrom(pat, 0);
    assert toks == [Star, Literal(97)];
    var last := toks[1..];
    assert last[1..] == [];
    assert MatchesFrom(last, s, 2);
    StarAbsorbs(toks, s, 0, 2);
    assert StarIndex(toks) == 0 && toks[..0] == [];
    assert StarIndex(last[1..]) == 0 && StarIndex(last) == 1 && last[..1] == last;
    assert SegmentAt(last, s, 0);
    assert !Placed(last, s, 0);
  }
}
