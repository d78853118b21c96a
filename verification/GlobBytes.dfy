/** What the bytes of a pattern mean, byte values written out: the pieces that
    patterns are made of, which bytes each takes, and the match of a whole
    pattern by its pieces. */
module GlobBytes {
  import opened Bytes
  import opened Glob
  import opened GlobTheory

  /** One element of a class: a byte, a byte behind a backslash, or a range. */
  datatype Item = One(b: byte) | Quoted(b: byte) | Range(lo: byte, hi: byte)

  /** One element of a pattern. The mark of a class is empty, or one byte that
      inverts it. */
  datatype Piece = Question | Asterisk | Plain(b: byte) | Escaped(b: byte) | Class(mark: seq<byte>, items: seq<Item>)

  function ItemBytes(item: Item): (t: seq<byte>)
    ensures t != []
  {
    match item
    case One(b) => [b]
    case Quoted(b) => [92, b]
    case Range(lo, hi) => [lo, 45, hi]
  }

  function ItemsBytes(items: seq<Item>): (t: seq<byte>)
    ensures items != [] ==> t != [] && t[0] == ItemBytes(items[0])[0]
  {
    if items == [] then [] else ItemBytes(items[0]) + ItemsBytes(items[1..])
  }

  function PieceBytes(p: Piece): (t: seq<byte>)
    ensures t != []
  {
    match p
    case Question => [63]
    case Asterisk => [42]
    case Plain(b) => [b]
    case Escaped(b) => [92, b]
    case Class(mark, items) => [91] + mark + ItemsBytes(items) + [93]
  }

  function PatternBytes(ps: seq<Piece>): seq<byte> {
    if ps == [] then [] else PieceBytes(ps[0]) + PatternBytes(ps[1..])
  }

  /** A backslash quotes, and a range does not end in a bracket. */
  predicate WellFormed(item: Item) {
    match item
    case One(b) => b != 92
    case Quoted(_) => true
    case Range(lo, hi) => lo != 92 && hi != 93
  }

  /** Behind the first element a bracket ends the class and a dash makes a range,
      but for a dash that is the last element. */
  predicate Follows(items: seq<Item>, k: nat)
    requires k < |items|
  {
    && WellFormed(items[k]) && ItemBytes(items[k])[0] != 93
    && (ItemBytes(items[k])[0] == 45 ==> k == |items| - 1 && items[k] == One(45))
  }

  predicate WellFormedPiece(p: Piece) {
    match p
    case Plain(b) => b != 42 && b != 63 && b != 91 && b != 92
    case Class(mark, items) =>
      && (mark == [] || mark == [33] || mark == [94])
      && items != [] && WellFormed(items[0])
      && (mark == [] ==> ItemBytes(items[0])[0] != 33 && ItemBytes(items[0])[0] != 94)
      && forall k :: 1 <= k < |items| ==> Follows(items, k)
    case _ => true
  }

  // ---- What they take ----

  predicate ItemTakes(item: Item, c: byte) {
    match item
    case One(b) => c == b
    case Quoted(b) => c == b
    case Range(lo, hi) => lo <= c <= hi || hi <= c <= lo
  }

  /** The bytes that a piece takes one of. */
  predicate Takes(p: Piece, c: byte) {
    match p
    case Question => true
    case Asterisk => false
    case Plain(b) => c == b
    case Escaped(b) => c == b
    case Class(mark, items) =>
      if mark == [] then exists k :: 0 <= k < |items| && ItemTakes(items[k], c)
      else forall k :: 0 <= k < |items| ==> !ItemTakes(items[k], c)
  }

  /** The pieces match s: an asterisk takes any bytes, every other piece one. */
  predicate PiecesMatch(ps: seq<Piece>, s: seq<byte>) {
    if ps == [] then s == []
    else if ps[0].Asterisk? then exists j :: 0 <= j <= |s| && PiecesMatch(ps[1..], s[j..])
    else s != [] && Takes(ps[0], s[0]) && PiecesMatch(ps[1..], s[1..])
  }

  // ---- Reading further on in a pattern ----

  function Shifted<T>(r: Option<(T, nat)>, n: nat): Option<(T, nat)> {
    match r
    case None => None
    case Some((x, end)) => Some((x, n + end))
  }

  lemma SpanShift(front: seq<byte>, q: seq<byte>, i: nat, a: byte)
    requires i <= |q|
    ensures SpanAt(front + q, |front| + i, a) == Shifted(SpanAt(q, i, a), |front|)
  {
  }

  lemma {:induction false} SpansShift(front: seq<byte>, q: seq<byte>, i: nat, a: byte)
    requires i <= |q|
    ensures SpansAt(front + q, |front| + i, a) == Shifted(SpansAt(q, i, a), |front|)
    decreases |q| - i
  {
    hide SpanAt;
    SpanShift(front, q, i, a);
    var r := SpanAt(q, i, a);
    if r.Some? && r.value.1 < |q| {
      var j := r.value.1;
      assert (front + q)[|front| + j] == q[j] && |front| + (j + 1) == |front| + j + 1;
      if q[j] != CLOSE {
        SpansShift(front, q, j + 1, q[j]);
      }
    }
  }

  lemma MarkShift(front: seq<byte>, q: seq<byte>, i: nat)
    requires i <= |q|
    ensures IsInverted(front + q, |front| + i) <==> IsInverted(q, i)
  {
  }

  lemma ClassShift(front: seq<byte>, q: seq<byte>, i: nat)
    requires i < |q| && q[i] == OPEN
    ensures TokenAt(front + q, |front| + i).0 == TokenAt(q, i).0
    ensures TokenAt(front + q, |front| + i).1 == |front| + TokenAt(q, i).1
  {
    hide SpansAt, SpanAt, IsInverted;
    var all, m := front + q, |front|;
    var first := if IsInverted(q, i + 1) then i + 2 else i + 1;
    assert all[m + i] == q[i] && m + (i + 1) == m + i + 1;
    MarkShift(front, q, i + 1);
    if first < |q| {
      assert all[m + first] == q[first] && m + (first + 1) == m + first + 1;
      SpansShift(front, q, first + 1, q[first]);
    }
  }

  lemma TokenShift(front: seq<byte>, q: seq<byte>, i: nat)
    requires i < |q|
    ensures TokenAt(front + q, |front| + i).0 == TokenAt(q, i).0
    ensures TokenAt(front + q, |front| + i).1 == |front| + TokenAt(q, i).1
  {
    assert (front + q)[|front| + i] == q[i];
    if q[i] == OPEN {
      ClassShift(front, q, i);
    } else {
      hide SpansAt, SpanAt, IsInverted;
      assert i + 1 < |q| ==> (front + q)[|front| + i + 1] == q[i + 1];
    }
  }

  lemma {:induction false} TokensShift(front: seq<byte>, q: seq<byte>, i: nat)
    requires i <= |q|
    ensures TokensFrom(front + q, |front| + i) == TokensFrom(q, i)
    decreases |q| - i
  {
    hide TokenAt;
    if i < |q| {
      TokenShift(front, q, i);
      var n := TokenAt(q, i).1;
      TokensShift(front, q, n);
      assert TokenAt(front + q, |front| + i) == (TokenAt(q, i).0, |front| + n);
    }
  }

  // ---- Reading the pieces ----

  function ItemSpan(item: Item): Span {
    match item
    case One(b) => Span(b, b)
    case Quoted(b) => Span(b, b)
    case Range(lo, hi) => if lo <= hi then Span(lo, hi) else Span(hi, lo)
  }

  function ItemSpans(items: seq<Item>): (spans: seq<Span>)
    ensures |spans| == |items| && forall k :: 0 <= k < |items| ==> spans[k] == ItemSpan(items[k])
  {
    seq(|items|, k requires 0 <= k < |items| => ItemSpan(items[k]))
  }

  /** An element that is followed by a bracket or another element. */
  lemma ReadItem(item: Item, q: seq<byte>)
    requires WellFormed(item) && q != [] && (q[0] == 45 ==> |q| > 1 && q[1] == 93)
    ensures var pat := ItemBytes(item) + q;
      SpanAt(pat, 1, pat[0]) == Some((ItemSpan(item), |ItemBytes(item)|))
  {
  }

  /** One element of a class, and what follows it. */
  lemma SpansStep(pat: seq<byte>, i: nat, a: byte, span: Span, j: nat)
    requires i <= j < |pat| && SpanAt(pat, i, a) == Some((span, j))
    ensures pat[j] == 93 ==> SpansAt(pat, i, a) == Some(([span], j + 1))
    ensures pat[j] != 93 && SpansAt(pat, j + 1, pat[j]).Some? ==>
      var (more, end) := SpansAt(pat, j + 1, pat[j]).value;
      SpansAt(pat, i, a) == Some(([span] + more, end))
  {
  }

  /** The elements of a class, taken apart at the first one. */
  lemma ItemsApart(items: seq<Item>, q: seq<byte>)
    requires items != []
    ensures var more, n := items[1..], |ItemBytes(items[0])|;
      var rest := ItemsBytes(more) + [93] + q;
      && ItemsBytes(items) + [93] + q == ItemBytes(items[0]) + rest
      && |ItemsBytes(items)| == n + |ItemsBytes(more)|
      && ItemSpans(items) == [ItemSpan(items[0])] + ItemSpans(more)
      && (ItemBytes(items[0]) + rest)[n] == rest[0]
      && rest[0] == if more == [] then 93 else ItemBytes(items[1])[0]
  {
  }

  lemma LastDash(items: seq<Item>, q: seq<byte>)
    requires items != [] && forall k :: 1 <= k < |items| ==> Follows(items, k)
    ensures var rest := ItemsBytes(items[1..]) + [93] + q;
      (rest[0] == 45 ==> |rest| > 1 && rest[1] == 93) && (|items| > 1 ==> rest[0] != 93)
  {
    if |items| > 1 {
      assert Follows(items, 1) && items[1..][0] == items[1];
      if ItemBytes(items[1])[0] == 45 {
        assert items[1..] == [One(45)] && items[1..][1..] == [];
        assert ItemsBytes(items[1..]) == [45];
      }
    }
  }

  lemma MoreFollow(items: seq<Item>)
    requires items != [] && forall k :: 1 <= k < |items| ==> Follows(items, k)
    ensures forall k :: 1 <= k < |items[1..]| ==> Follows(items[1..], k)
  {
    forall k | 1 <= k < |items[1..]|
      ensures Follows(items[1..], k)
    {
      assert Follows(items, k + 1) && items[1..][k] == items[k + 1];
    }
  }

  lemma {:induction false} ReadItems(items: seq<Item>, q: seq<byte>)
    requires items != [] && WellFormed(items[0]) && forall k :: 1 <= k < |items| ==> Follows(items, k)
    ensures var pat := ItemsBytes(items) + [93] + q;
      SpansAt(pat, 1, pat[0]) == Some((ItemSpans(items), |ItemsBytes(items)| + 1))
    decreases |items|
  {
    ItemsApart(items, q);
    var more, n := items[1..], |ItemBytes(items[0])|;
    var rest := ItemsBytes(more) + [93] + q;
    assert |more| == 0 ==> |ItemsBytes(more)| == 0 && ItemSpans(more) == [];
    LastDash(items, q);
    assert |more| > 0 ==> WellFormed(more[0]) by {
      assert |more| > 0 ==> Follows(items, 1);
    }
    MoreFollow(items);
    hide SpanAt, SpansAt, ItemBytes, ItemsBytes, ItemSpan, ItemSpans, WellFormed, Follows;
    ReadItem(items[0], rest);
    var pat := ItemBytes(items[0]) + rest;
    SpansStep(pat, 1, pat[0], ItemSpan(items[0]), n);
    if |more| > 0 {
      ReadItems(more, q);
      SpansShift(ItemBytes(items[0]), rest, 1, rest[0]);
      assert SpansAt(pat, n + 1, pat[n]) == Some((ItemSpans(more), n + (|ItemsBytes(more)| + 1)));
    } else {
      assert [ItemSpan(items[0])] + ItemSpans(more) == [ItemSpan(items[0])];
    }
  }

  /** The token of a piece. */
  function PieceToken(p: Piece): Token {
    match p
    case Question => AnyByte
    case Asterisk => Star
    case Plain(b) => Literal(b)
    case Escaped(b) => Literal(b)
    case Class(mark, items) => Token.Class(mark != [], ItemSpans(items))
  }

  lemma ReadClass(front: seq<byte>, body: seq<byte>, spans: seq<Span>, end: nat)
    requires front == [91] || front == [91, 33] || front == [91, 94]
    requires body != [] && (front == [91] ==> body[0] != 33 && body[0] != 94)
    requires SpansAt(body, 1, body[0]) == Some((spans, end))
    ensures TokenAt(front + body, 0) == (Token.Class(front != [91], spans), |front| + end)
  {
    SpansShift(front, body, 1, body[0]);
    var pat := front + body;
    assert pat[|front|] == body[0] && pat[0] == 91 && (|front| == 2 ==> pat[1] == front[1]);
    hide SpansAt;
  }

  lemma ReadPiece(p: Piece, q: seq<byte>)
    requires WellFormedPiece(p)
    ensures TokenAt(PieceBytes(p) + q, 0) == (PieceToken(p), |PieceBytes(p)|)
  {
    if p.Class? {
      var front, body := [91] + p.mark, ItemsBytes(p.items) + [93] + q;
      assert PieceBytes(p) + q == front + body;
      ReadItems(p.items, q);
      hide SpansAt, ItemSpans, ItemsBytes, TokenAt;
      ReadClass(front, body, ItemSpans(p.items), |ItemsBytes(p.items)| + 1);
    } else {
      hide SpansAt, ItemSpans, ItemsBytes;
    }
  }

  function PieceTokens(ps: seq<Piece>): seq<Token> {
    if ps == [] then [] else [PieceToken(ps[0])] + PieceTokens(ps[1..])
  }

  lemma {:induction false} ReadPieces(ps: seq<Piece>, q: seq<byte>)
    requires forall k :: 0 <= k < |ps| ==> WellFormedPiece(ps[k])
    ensures TokensFrom(PatternBytes(ps) + q, 0) == PieceTokens(ps) + TokensFrom(q, 0)
    decreases |ps|
  {
    if ps == [] {
      assert PatternBytes(ps) + q == q;
    } else {
      PiecesApart(ps, q, TokensFrom(q, 0));
      hide *;
      ReadPiece(ps[0], PatternBytes(ps[1..]) + q);
      NoNever(ps[0]);
      TokensNext(PieceBytes(ps[0]), PatternBytes(ps[1..]) + q, PieceToken(ps[0]));
      ReadPieces(ps[1..], q);
    }
  }

  lemma PiecesApart(ps: seq<Piece>, q: seq<byte>, toks: seq<Token>)
    requires ps != []
    ensures PatternBytes(ps) + q == PieceBytes(ps[0]) + (PatternBytes(ps[1..]) + q)
    ensures PieceTokens(ps) + toks == [PieceToken(ps[0])] + (PieceTokens(ps[1..]) + toks)
  {
    assert PatternBytes(ps) == PieceBytes(ps[0]) + PatternBytes(ps[1..]);
    assert PieceTokens(ps) == [PieceToken(ps[0])] + PieceTokens(ps[1..]);
    hide *;
    Associative(PieceBytes(ps[0]), PatternBytes(ps[1..]), q);
    Associative([PieceToken(ps[0])], PieceTokens(ps[1..]), toks);
  }

  lemma Associative<T>(a: seq<T>, b: seq<T>, c: seq<T>)
    ensures a + b + c == a + (b + c)
  {
  }

  lemma NoNever(p: Piece)
    ensures !PieceToken(p).Never?
  {
  }

  lemma TokensNext(first: seq<byte>, rest: seq<byte>, t: Token)
    requires first != [] && TokenAt(first + rest, 0) == (t, |first|) && !t.Never?
    ensures TokensFrom(first + rest, 0) == [t] + TokensFrom(rest, 0)
  {
    TokensShift(first, rest, 0);
  }

  /** A pattern that begins with pieces reads as those pieces and the rest. */
  lemma PiecesConcat(ps: seq<Piece>, q: seq<byte>)
    requires forall k :: 0 <= k < |ps| ==> WellFormedPiece(ps[k])
    ensures var p := PatternBytes(ps); TokensFrom(p + q, 0) == TokensFrom(p, 0) + TokensFrom(q, 0)
  {
    var p := PatternBytes(ps);
    assert p + [] == p && PieceTokens(ps) + [] == PieceTokens(ps) && TokensFrom([], 0) == [];
    hide TokensFrom, PatternBytes, PieceTokens, WellFormedPiece;
    ReadPieces(ps, q);
    ReadPieces(ps, []);
  }

  // ---- What is matched ----

  lemma TakesToken(p: Piece, c: byte)
    ensures Accepts(PieceToken(p), c) <==> Takes(p, c)
  {
    if p.Class? {
      var spans := ItemSpans(p.items);
      assert forall k :: 0 <= k < |p.items| ==> (ItemTakes(p.items[k], c) <==> spans[k].lo <= c <= spans[k].hi);
    }
  }

  predicate MatchedAt(toks: seq<Token>, s: seq<byte>, i: nat) {
    i <= |s| && MatchesFrom(toks, s, i)
  }

  /** A star matches any bytes. */
  lemma {:induction false} StarMeans(toks: seq<Token>, s: seq<byte>, i: nat)
    requires i <= |s| && toks != [] && toks[0].Star?
    ensures MatchesFrom(toks, s, i) <==> exists j :: i <= j && MatchedAt(toks[1..], s, j)
    decreases |s| - i
  {
    var more := toks[1..];
    if i < |s| {
      StarMeans(toks, s, i + 1);
    }
    assert MatchesFrom(toks, s, i) <==> MatchedAt(more, s, i) || (i < |s| && MatchesFrom(toks, s, i + 1));
    forall j | i <= j && MatchedAt(more, s, j)
      ensures j == i || i + 1 <= j
    {
    }
  }

  lemma {:induction false} PiecesMeaning(ps: seq<Piece>, s: seq<byte>, i: nat)
    requires i <= |s|
    ensures MatchesFrom(PieceTokens(ps), s, i) <==> PiecesMatch(ps, s[i..])
    decreases |ps|
  {
    if ps != [] && ps[0].Asterisk? {
      var more := ps[1..];
      StarMeans(PieceTokens(ps), s, i);
      forall j | i <= j <= |s|
        ensures MatchedAt(PieceTokens(more), s, j) <==> PiecesMatch(more, s[i..][j - i..])
      {
        PiecesMeaning(more, s, j);
        assert s[i..][j - i..] == s[j..];
      }
      AsteriskMeaning(ps, PieceTokens(more), s, i);
    } else if ps != [] && i < |s| {
      TakesToken(ps[0], s[i]);
      PiecesMeaning(ps[1..], s, i + 1);
      assert s[i..][1..] == s[i + 1..];
    }
  }

  lemma AsteriskMeaning(ps: seq<Piece>, toks: seq<Token>, s: seq<byte>, i: nat)
    requires i <= |s| && ps != [] && ps[0].Asterisk?
    requires forall j | i <= j <= |s| :: MatchedAt(toks, s, j) <==> PiecesMatch(ps[1..], s[i..][j - i..])
    ensures (exists j :: i <= j && MatchedAt(toks, s, j)) <==> PiecesMatch(ps, s[i..])
  {
    hide MatchesFrom;
    var more := ps[1..];
    if PiecesMatch(ps, s[i..]) {
      var k :| 0 <= k <= |s[i..]| && PiecesMatch(more, s[i..][k..]);
      assert s[i..][k..] == s[i..][(i + k) - i..];
      assert MatchedAt(toks, s, i + k);
    } else {
      forall j | i <= j
        ensures !MatchedAt(toks, s, j)
      {
        var k := j - i;
        assert j <= |s| ==> 0 <= k <= |s[i..]| && !PiecesMatch(more, s[i..][k..]);
      }
    }
  }

  lemma PatternTokens(ps: seq<Piece>)
    requires forall k :: 0 <= k < |ps| ==> WellFormedPiece(ps[k])
    ensures TokensFrom(PatternBytes(ps), 0) == PieceTokens(ps)
  {
    assert TokensFrom([], 0) == [];
    hide TokensFrom, PatternBytes, PieceTokens, WellFormedPiece;
    ReadPieces(ps, []);
    assert PatternBytes(ps) + [] == PatternBytes(ps) && PieceTokens(ps) + [] == PieceTokens(ps);
  }

  /** A pattern matches a string exactly if its pieces do. */
  lemma PatternMeaning(ps: seq<Piece>, s: seq<byte>)
    requires forall k :: 0 <= k < |ps| ==> WellFormedPiece(ps[k])
    ensures MatchesFrom(TokensFrom(PatternBytes(ps), 0), s, 0) <==> PiecesMatch(ps, s)
  {
    PatternTokens(ps);
    assert s[0..] == s;
    hide *;
    PiecesMeaning(ps, s, 0);
  }

  /** A pattern of one piece. */
  lemma OnePiece(p: Piece, c: byte)
    requires WellFormedPiece(p) && !p.Asterisk?
    ensures Leftmost(TokensFrom(PieceBytes(p), 0), [c]) <==> Takes(p, c)
  {
    ReadPiece(p, []);
    assert PieceBytes(p) + [] == PieceBytes(p);
    hide PieceBytes, WellFormedPiece, TokenAt, Takes, Accepts;
    TakesToken(p, c);
    var toks := TokensFrom(PieceBytes(p), 0);
    assert TokensFrom(PieceBytes(p), |PieceBytes(p)|) == [];
    assert TokenAt(PieceBytes(p), 0).0 == PieceToken(p);
    assert toks == [PieceToken(p)];
    assert toks[..1] == toks && StarIndex(toks) == 1;
  }

  // ---- Pattern by pattern ----

  /** A class of one element takes what that element takes, or, with a mark, what
      it does not. */
  lemma OneItem(mark: seq<byte>, item: Item, c: byte)
    requires WellFormedPiece(Piece.Class(mark, [item]))
    ensures Leftmost(TokensFrom([91] + mark + ItemBytes(item) + [93], 0), [c]) <==> (ItemTakes(item, c) <==> mark == [])
  {
    var items := [item];
    assert items[1..] == [] && items[0] == item && ItemsBytes(items) == ItemBytes(item);
    OnePiece(Piece.Class(mark, items), c);
    hide ItemTakes;
    if mark == [] {
      assert (exists k :: 0 <= k < |items| && ItemTakes(items[k], c)) <==> ItemTakes(items[0], c);
    } else {
      assert (forall k :: 0 <= k < |items| ==> !ItemTakes(items[k], c)) <==> !ItemTakes(items[0], c);
    }
  }

  /** A range takes the bytes between its ends, in either order; behind an
      exclamation mark or a caret, it takes the others. */
  lemma RangeTakes(lo: byte, hi: byte, c: byte)
    requires lo != 92 && hi != 93
    ensures lo != 33 && lo != 94 ==>
      (Leftmost(TokensFrom([91, lo, 45, hi, 93], 0), [c]) <==> lo <= c <= hi || hi <= c <= lo)
    ensures Leftmost(TokensFrom([91, 33, lo, 45, hi, 93], 0), [c]) <==> !(lo <= c <= hi || hi <= c <= lo)
    ensures Leftmost(TokensFrom([91, 94, lo, 45, hi, 93], 0), [c]) <==> !(lo <= c <= hi || hi <= c <= lo)
  {
    var item := Range(lo, hi);
    assert [91] + [] + [lo, 45, hi] + [93] == [91, lo, 45, hi, 93];
    assert [91] + [33] + [lo, 45, hi] + [93] == [91, 33, lo, 45, hi, 93];
    assert [91] + [94] + [lo, 45, hi] + [93] == [91, 94, lo, 45, hi, 93];
    hide Leftmost, TokensFrom;
    if lo != 33 && lo != 94 {
      OneItem([], item, c);
    }
    OneItem([33], item, c);
    OneItem([94], item, c);
  }

  /** A class of one byte, of one behind a backslash, and of the bracket. */
  lemma ClassTakes(b: byte, c: byte)
    ensures b != 33 && b != 92 && b != 94 ==> (Leftmost(TokensFrom([91, b, 93], 0), [c]) <==> c == b)
    ensures b != 92 ==> (Leftmost(TokensFrom([91, 33, b, 93], 0), [c]) <==> c != b)
    ensures Leftmost(TokensFrom([91, 92, b, 93], 0), [c]) <==> c == b
    ensures Leftmost(TokensFrom([91, 93, 93], 0), [c]) <==> c == 93
  {
    assert [91] + [] + [b] + [93] == [91, b, 93] && [91] + [33] + [b] + [93] == [91, 33, b, 93];
    assert [91] + [] + [92, b] + [93] == [91, 92, b, 93] && [91] + [] + [93] + [93] == [91, 93, 93];
    hide Leftmost, TokensFrom;
    if b != 92 {
      OneItem([33], One(b), c);
      if b != 33 && b != 94 {
        OneItem([], One(b), c);
      }
    }
    OneItem([], Quoted(b), c);
    OneItem([], One(93), c);
  }

  /** A dash before the bracket stands for itself. */
  lemma DashTakes(b: byte, c: byte)
    requires b != 33 && b != 92 && b != 94
    ensures Leftmost(TokensFrom([91, b, 45, 93], 0), [c]) <==> c == b || c == 45
  {
    var items := [One(b), One(45)];
    assert items[1..] == [One(45)] && items[1..][1..] == [] && ItemsBytes([One(45)]) == [45];
    assert ItemsBytes(items) == [b, 45];
    assert [91] + [] + [b, 45] + [93] == [91, b, 45, 93];
    assert Follows(items, 1);
    hide Leftmost, TokensFrom, ItemsBytes, Follows;
    OnePiece(Piece.Class([], items), c);
    assert ItemTakes(items[0], c) <==> c == b;
    assert ItemTakes(items[1], c) <==> c == 45;
  }

  /** The other patterns of one element. */
  lemma ByteTakes(b: byte, c: byte)
    ensures Leftmost(TokensFrom([63], 0), [c])
    ensures Leftmost(TokensFrom([92, b], 0), [c]) <==> c == b
    ensures b != 42 && b != 63 && b != 91 && b != 92 ==> (Leftmost(TokensFrom([b], 0), [c]) <==> c == b)
  {
    hide Leftmost, TokensFrom;
    OnePiece(Question, c);
    OnePiece(Escaped(b), c);
    if b != 42 && b != 63 && b != 91 && b != 92 {
      OnePiece(Plain(b), c);
    }
  }

  /** An asterisk takes every string. */
  lemma AsteriskTakes(s: seq<byte>)
    ensures Leftmost(TokensFrom([42], 0), s)
  {
    assert TokensFrom([42], 1) == [];
    assert TokensFrom([42], 0) == [Star];
  }

  /** Without an asterisk, or with one at the end, the matcher gives exactly the
      match of the pieces. */
  lemma PiecesMatched(ps: seq<Piece>, s: seq<byte>)
    requires forall k :: 0 <= k < |ps| ==> WellFormedPiece(ps[k])
    requires Asterisk !in ps || ps[|ps| - 1].Asterisk?
    ensures Leftmost(TokensFrom(PatternBytes(ps), 0), s) <==> PiecesMatch(ps, s)
  {
    hide TokensFrom, PatternBytes, PiecesMatch, MatchesFrom, Leftmost, WellFormedPiece, PieceTokens;
    PatternMeaning(ps, s);
    PatternTokens(ps);
    StarsOf(ps);
    CompleteWithoutStarOrWithTrailingStar(TokensFrom(PatternBytes(ps), 0), s);
  }

  lemma {:induction false} StarsOf(ps: seq<Piece>)
    ensures |PieceTokens(ps)| == |ps| && forall k :: 0 <= k < |ps| ==> PieceTokens(ps)[k] == PieceToken(ps[k])
    ensures Star in PieceTokens(ps) <==> Asterisk in ps
  {
    if ps != [] {
      StarsOf(ps[1..]);
      var toks := PieceTokens(ps[1..]);
      assert ps == [ps[0]] + ps[1..];
      assert Asterisk in ps <==> ps[0] == Asterisk || Asterisk in ps[1..];
    }
  }

  function Plains(w: seq<byte>): (ps: seq<Piece>)
    ensures |ps| == |w| && forall k :: 0 <= k < |w| ==> ps[k] == Plain(w[k])
  {
    seq(|w|, k requires 0 <= k < |w| => Plain(w[k]))
  }

  predicate Ordinary(w: seq<byte>) {
    42 !in w && 63 !in w && 91 !in w && 92 !in w
  }

  lemma {:induction false} PlainsBytes(w: seq<byte>)
    ensures PatternBytes(Plains(w)) == w
  {
    if w != [] {
      PlainsBytes(w[1..]);
      assert Plains(w)[1..] == Plains(w[1..]) && w == [w[0]] + w[1..];
    }
  }

  lemma {:induction false} PlainsMatch(w: seq<byte>, s: seq<byte>)
    ensures PiecesMatch(Plains(w), s) <==> s == w
  {
    if w != [] && s != [] {
      PlainsMatch(w[1..], s[1..]);
      assert Plains(w)[1..] == Plains(w[1..]);
      assert s == [s[0]] + s[1..] && w == [w[0]] + w[1..];
    }
  }

  /** A pattern of ordinary bytes matches itself alone; */
  lemma OrdinaryString(w: seq<byte>, s: seq<byte>)
    requires Ordinary(w)
    ensures Leftmost(TokensFrom(w, 0), s) <==> s == w
  {
    PlainsBytes(w);
    PlainsMatch(w, s);
    PiecesMatched(Plains(w), s);
  }

  /** behind an asterisk, the strings that end in it are the match, */
  lemma OrdinarySuffix(w: seq<byte>, s: seq<byte>)
    requires Ordinary(w)
    ensures MatchesFrom(TokensFrom([42] + w, 0), s, 0) <==> |w| <= |s| && s[|s| - |w|..] == w
  {
    SuffixPieces(w);
    hide *;
    PatternMeaning([Asterisk] + Plains(w), s);
    SuffixMatch(w, s);
  }

  lemma SuffixPieces(w: seq<byte>)
    requires Ordinary(w)
    ensures var ps := [Asterisk] + Plains(w);
      && PatternBytes(ps) == [42] + w
      && forall k :: 0 <= k < |ps| ==> WellFormedPiece(ps[k])
  {
    var ps := [Asterisk] + Plains(w);
    PlainsBytes(w);
    assert ps[1..] == Plains(w);
  }

  lemma AsteriskSplit(ps: seq<Piece>, s: seq<byte>) returns (j: nat)
    requires ps != [] && ps[0].Asterisk? && PiecesMatch(ps, s)
    ensures j <= |s| && PiecesMatch(ps[1..], s[j..])
  {
    j :| 0 <= j <= |s| && PiecesMatch(ps[1..], s[j..]);
  }

  lemma AsteriskJoin(ps: seq<Piece>, s: seq<byte>, j: nat)
    requires ps != [] && ps[0].Asterisk? && j <= |s| && PiecesMatch(ps[1..], s[j..])
    ensures PiecesMatch(ps, s)
  {
  }

  lemma SuffixMatch(w: seq<byte>, s: seq<byte>)
    ensures PiecesMatch([Asterisk] + Plains(w), s) <==> |w| <= |s| && s[|s| - |w|..] == w
  {
    hide PiecesMatch, Plains;
    var ps := [Asterisk] + Plains(w);
    assert ps[1..] == Plains(w);
    if PiecesMatch(ps, s) {
      var j := AsteriskSplit(ps, s);
      PlainsMatch(w, s[j..]);
    }
    if |w| <= |s| && s[|s| - |w|..] == w {
      PlainsMatch(w, s[|s| - |w|..]);
      AsteriskJoin(ps, s, |s| - |w|);
    }
  }

  /** and before one, the strings that begin with it. */
  lemma OrdinaryPrefix(w: seq<byte>, s: seq<byte>)
    requires Ordinary(w)
    ensures Leftmost(TokensFrom(w + [42], 0), s) <==> |w| <= |s| && s[..|w|] == w
  {
    PrefixPieces(w);
    hide *;
    PiecesMatched(Plains(w) + [Asterisk], s);
    PrefixMatch(w, s);
  }

  lemma PrefixPieces(w: seq<byte>)
    requires Ordinary(w)
    ensures var ps := Plains(w) + [Asterisk];
      && PatternBytes(ps) == w + [42]
      && ps[|ps| - 1].Asterisk?
      && forall k :: 0 <= k < |ps| ==> WellFormedPiece(ps[k])
  {
    PlainsBytes(w);
    PatternConcat(Plains(w), [Asterisk]);
    assert PatternBytes([Asterisk]) == [42] + [] == [42];
  }

  lemma {:induction false} PatternConcat(a: seq<Piece>, b: seq<Piece>)
    ensures PatternBytes(a + b) == PatternBytes(a) + PatternBytes(b)
  {
    if a == [] {
      assert a + b == b;
    } else {
      assert (a + b)[1..] == a[1..] + b;
      PatternConcat(a[1..], b);
    }
  }

  lemma {:induction false} PrefixMatch(w: seq<byte>, s: seq<byte>)
    ensures PiecesMatch(Plains(w) + [Asterisk], s) <==> |w| <= |s| && s[..|w|] == w
  {
    var ps := Plains(w) + [Asterisk];
    if w == [] {
      assert ps == [Asterisk] && ps[1..] == [] && s[|s|..] == [] && PiecesMatch(ps[1..], s[|s|..]);
    } else if s != [] {
      PrefixMatch(w[1..], s[1..]);
      assert ps[1..] == Plains(w[1..]) + [Asterisk];
      assert |w| <= |s| ==> s[..|w|] == [s[0]] + s[1..][..|w| - 1];
      assert w == [w[0]] + w[1..];
    }
  }

  /** A class without a closing bracket matches nothing. */
  lemma UnterminatedMatchesNothing(q: seq<byte>, s: seq<byte>)
    requires 93 !in q
    ensures !Leftmost(TokensFrom([91] + q, 0), s)
  {
    var pat := [91] + q;
    var first := if IsInverted(pat, 1) then 2 else 1;
    if first < |pat| {
      NeverClosed(pat, first + 1, pat[first]);
    }
    var toks := TokensFrom(pat, 0);
    assert toks == [Never];
    assert StarIndex(toks) == 1 && toks[..1] == toks;
  }

  lemma {:induction false} NeverClosed(pat: seq<byte>, i: nat, a: byte)
    requires 1 <= i <= |pat| && forall k :: i <= k < |pat| ==> pat[k] != 93
    ensures SpansAt(pat, i, a).None?
    decreases |pat| - i
  {
    var r := SpanAt(pat, i, a);
    if r.Some? && r.value.1 < |pat| {
      NeverClosed(pat, r.value.1 + 1, pat[r.value.1]);
    }
  }
}
