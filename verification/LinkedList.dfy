/** The intrusive circular list: nodes linked in a ring through a head. */
module LinkedList {
  /** The links of a node that was never initialised are null. */
  class Node {
    var next: Node?
    var prev: Node?

    /** FIO_LIST_INIT: a ring of one. */
    constructor ()
      ensures next == this && prev == this && Ring(this, [])
    {
      next := this;
      prev := this;
    }

    constructor Zeroed()
      ensures next == null && prev == null
    {
      next := null;
      prev := null;
    }
  }

  /** The ring from the head through the elements and back. */
  function Around(head: Node, s: seq<Node>): (r: seq<Node>)
    ensures |r| == |s| + 2
  {
    [head] + s + [head]
  }

  /** x is directly before y: each points to the other. */
  ghost predicate Linked(x: Node, y: Node)
    reads x, y
  {
    x.next == y && y.prev == x
  }

  ghost predicate Distinct(head: Node, s: seq<Node>) {
    && head !in s
    && forall i, j :: 0 <= i < j < |s| ==> s[i] != s[j]
  }

  /** The ring from the head holds exactly the elements of s, in that order. */
  ghost predicate Ring(head: Node, s: seq<Node>)
    reads head, s
  {
    && Distinct(head, s) && head.next != null
    && forall i :: 0 <= i <= |s| ==> Linked(Around(head, s)[i], Around(head, s)[i + 1])
  }

  /** Following next and then prev, or prev and then next, leads back. */
  lemma MutuallyInverse(head: Node, s: seq<Node>, x: Node)
    requires Ring(head, s) && (x == head || x in s)
    ensures x.next != null && x.prev != null && x.next.prev == x && x.prev.next == x
    ensures (x.next == head || x.next in s) && (x.prev == head || x.prev in s)
  {
    var r := Around(head, s);
    if x == head {
      assert Linked(r[0], r[1]) && Linked(r[|s|], r[|s| + 1]);
    } else {
      var i :| 0 <= i < |s| && s[i] == x;
      assert Linked(r[i], r[i + 1]) && Linked(r[i + 1], r[i + 2]);
    }
  }

  /** FIO_LIST_PUSH: append. */
  method Push(head: Node, n: Node, ghost s: seq<Node>)
    requires Ring(head, s) && n != head && n !in s
    modifies head, head.prev, n
    ensures Ring(head, s + [n])
  {
    ghost var r, r' := Around(head, s), Around(head, s + [n]);
    assert Linked(r[|s|], r[|s| + 1]);
    n.prev := head.prev;
    n.next := head;
    head.prev.next := n;
    head.prev := n;
    forall i | 0 <= i <= |s| + 1
      ensures Linked(r'[i], r'[i + 1])
    {
      if i < |s| {
        assert r'[i] == r[i] && r'[i + 1] == r[i + 1];
        assert old(Linked(r[i], r[i + 1]));
      }
    }
  }

  /** The elements without the one at i. */
  function Without<T>(s: seq<T>, i: nat): (t: seq<T>)
    requires i < |s|
    ensures |t| == |s| - 1
  {
    s[..i] + s[i + 1..]
  }

  /** FIO_LIST_REMOVE: the element leaves the ring, its own links stay. On the
      head of an empty list it changes nothing. */
  method Unlink(n: Node, ghost head: Node, ghost s: seq<Node>, ghost i: nat)
    requires Ring(head, s) && if s == [] then n == head else i < |s| && n == s[i]
    modifies n.prev, n.next
    ensures Ring(head, if s == [] then [] else Without(s, i))
    ensures n.next == old(n.next) && n.prev == old(n.prev)
  {
    ghost var r := Around(head, s);
    if s == [] {
      assert Linked(r[0], r[1]);
    } else {
      assert Linked(r[i], r[i + 1]) && Linked(r[i + 1], r[i + 2]);
    }
    n.prev.next := n.next;
    n.next.prev := n.prev;
    if s != [] {
      ghost var t := Without(s, i);
      ghost var r' := Around(head, t);
      forall k | 0 <= k <= |t|
        ensures Linked(r'[k], r'[k + 1])
      {
        if k < i {
          assert r'[k] == r[k] && r'[k + 1] == r[k + 1];
          assert old(Linked(r[k], r[k + 1]));
        } else if k == i {
          assert r'[k] == r[i] && r'[k + 1] == r[i + 2];
        } else {
          assert r'[k] == r[k + 1] && r'[k + 1] == r[k + 2];
          assert old(Linked(r[k + 1], r[k + 2]));
        }
      }
    }
  }

  /** FIO_LIST_REMOVE_RESET: the element becomes a ring of its own. */
  method RemoveReset(n: Node, ghost head: Node, ghost s: seq<Node>, ghost i: nat)
    requires Ring(head, s) && i < |s| && n == s[i]
    modifies n, n.prev, n.next
    ensures Ring(head, Without(s, i)) && Ring(n, [])
  {
    MutuallyInverse(head, s, n);
    Unlink(n, head, s, i);
    ghost var t := Without(s, i);
    assert n !in t;
    n.prev := n;
    n.next := n;
    forall k | 0 <= k <= |t|
      ensures Linked(Around(head, t)[k], Around(head, t)[k + 1])
    {
    }
  }

  /** FIO_LIST_POP: the first element, or the head of an empty list. */
  method Pop(head: Node, ghost s: seq<Node>) returns (n: Node)
    requires Ring(head, s)
    modifies head, head.next.next
    ensures n == if s == [] then head else s[0]
    ensures Ring(head, if s == [] then [] else s[1..])
  {
    n := head.next;
    assert Linked(Around(head, s)[0], Around(head, s)[1]);
    MutuallyInverse(head, s, head);
    MutuallyInverse(head, s, n);
    Unlink(n, head, s, 0);
    assert s != [] ==> Without(s, 0) == s[1..];
  }

  /** FIO_LIST_IS_EMPTY: no head, a head that was never initialised, or no
      element. */
  method IsEmpty(head: Node?, ghost s: seq<Node>) returns (empty: bool)
    requires head != null && head.next != null ==> Ring(head, s)
    ensures empty <==> head == null || head.next == null || s == []
  {
    if head == null || head.next == null {
      return true;
    }
    assert Linked(Around(head, s)[0], Around(head, s)[1]);
    empty := head.next == head;
  }

  // ---- Visiting every element ----

  /** The elements that are not dropped. */
  ghost function Kept(s: seq<Node>, drop: set<Node>): (t: seq<Node>)
    ensures forall x :: x in t ==> x in s && x !in drop
  {
    if s == [] then [] else Kept(s[..|s| - 1], drop) + if s[|s| - 1] in drop then [] else [s[|s| - 1]]
  }

  /** The list when the first i elements have been visited. */
  ghost function Remaining(s: seq<Node>, drop: set<Node>, i: nat): (t: seq<Node>)
    requires i <= |s|
    ensures forall x :: x in t ==> x in s
  {
    Kept(s[..i], drop) + s[i..]
  }

  lemma StepKept(s: seq<Node>, drop: set<Node>, i: nat)
    requires i < |s|
    ensures |Kept(s[..i], drop)| < |Remaining(s, drop, i)| && Remaining(s, drop, i)[|Kept(s[..i], drop)|] == s[i]
    ensures s[i] in drop ==> Remaining(s, drop, i + 1) == Without(Remaining(s, drop, i), |Kept(s[..i], drop)|)
    ensures s[i] !in drop ==> Remaining(s, drop, i + 1) == Remaining(s, drop, i)
  {
    assert s[..i + 1][..i] == s[..i];
    assert s[i..] == [s[i]] + s[i + 1..];
  }

  /** The element at i, or the head behind the last one. */
  function Nth(head: Node, s: seq<Node>, i: nat): Node
    requires i <= |s|
  {
    if i < |s| then s[i] else head
  }

  /** The first i elements have been visited: the others and the kept ones are in
      the list, the dropped ones are rings of their own. */
  ghost predicate VisitedTo(head: Node, s: seq<Node>, drop: set<Node>, i: nat)
    requires i <= |s|
    reads head, s, Remaining(s, drop, i)
  {
    && Distinct(head, s) && Ring(head, Remaining(s, drop, i))
    && forall k :: 0 <= k < i && s[k] in drop ==> Ring(s[k], [])
  }

  /** Where the element leads whose turn it is. */
  lemma NextOf(head: Node, s: seq<Node>, drop: set<Node>, i: nat)
    requires i < |s| && VisitedTo(head, s, drop, i)
    ensures s[i].next == Nth(head, s, i + 1)
  {
    hide Kept, Remaining;
    var t, k := Remaining(s, drop, i), |Kept(s[..i], drop)|;
    StepKept(s, drop, i);
    NextKept(s, drop, i);
    assert Linked(Around(head, t)[k + 1], Around(head, t)[k + 2]);
  }

  lemma NextKept(s: seq<Node>, drop: set<Node>, i: nat)
    requires i < |s|
    ensures var t, k := Remaining(s, drop, i), |Kept(s[..i], drop)|;
      if i + 1 < |s| then k + 1 < |t| && t[k + 1] == s[i + 1] else k + 1 == |t|
  {
    hide Kept;
  }

  /** A dropped element is no longer in the list. */
  lemma DroppedIsOut(s: seq<Node>, drop: set<Node>, i: nat, k: nat)
    requires k < i <= |s| && s[k] in drop
    requires forall j, k :: 0 <= j < k < |s| ==> s[j] != s[k]
    ensures s[k] !in Remaining(s, drop, i)
  {
    assert forall j :: i <= j < |s| ==> s[k] != s[j];
  }

  /** The body of the loop: it removes the current element if it is dropped. */
  method Visit(pos: Node, head: Node, drop: set<Node>, ghost s: seq<Node>, ghost i: nat)
    requires i < |s| && pos == s[i] && VisitedTo(head, s, drop, i)
    modifies head, s
    ensures VisitedTo(head, s, drop, i + 1)
  {
    hide Kept, Remaining, Ring;
    ghost var t, k := Remaining(s, drop, i), |Kept(s[..i], drop)|;
    StepKept(s, drop, i);
    forall k | 0 <= k < i && s[k] in drop
      ensures s[k] !in t && s[k] != head
    {
      DroppedIsOut(s, drop, i, k);
    }
    MutuallyInverse(head, t, pos);
    if pos in drop {
      RemoveReset(pos, head, t, k);
    }
  }

  /** FIO_LIST_EACH, with a body that removes the current element if it is to be
      dropped: every element is visited once, in order, and the others remain. */
  method Each(head: Node, drop: set<Node>, ghost s: seq<Node>) returns (visited: seq<Node>)
    requires Ring(head, s)
    modifies head, s
    ensures visited == s && Ring(head, Kept(s, drop))
    ensures forall k :: 0 <= k < |s| && s[k] in drop ==> Ring(s[k], [])
  {
    ghost var i := 0;
    visited := [];
    EachStart(head, s, drop);
    hide VisitedTo, Ring, Kept;
    var pos, nxt := head.next, head.next.next;
    while pos != head
      invariant 0 <= i <= |s| && visited == s[..i] && VisitedTo(head, s, drop, i)
      invariant pos == Nth(head, s, i) && nxt == pos.next
      decreases |s| - i
    {
      NextOf(head, s, drop, i);
      visited := visited + [pos];
      Visit(pos, head, drop, s, i);
      pos := nxt;
      nxt := nxt.next;
      i := i + 1;
    }
    EachEnd(head, s, drop, i);
  }

  lemma EachStart(head: Node, s: seq<Node>, drop: set<Node>)
    requires Ring(head, s)
    ensures VisitedTo(head, s, drop, 0) && head.next == Nth(head, s, 0)
  {
    assert Remaining(s, drop, 0) == s;
    assert Linked(Around(head, s)[0], Around(head, s)[1]);
  }

  lemma EachEnd(head: Node, s: seq<Node>, drop: set<Node>, i: nat)
    requires i <= |s| && VisitedTo(head, s, drop, i) && Nth(head, s, i) == head
    ensures i == |s| && s[..i] == s && Ring(head, Kept(s, drop))
    ensures forall k :: 0 <= k < |s| && s[k] in drop ==> Ring(s[k], [])
  {
    assert s[..|s|] == s;
    assert Remaining(s, drop, |s|) == Kept(s, drop);
  }

  // ---- Runs of operations ----

  datatype Op = Push(n: Node) | Pop | Remove(n: Node)

  /** What an operation asks of its caller: a pushed node is new to the list, a
      removed one is in it. */
  ghost predicate Allowed(head: Node, s: seq<Node>, op: Op) {
    match op
    case Push(n) => n != head && n !in s
    case Pop => true
    case Remove(n) => n in s
  }

  ghost function IndexOf(s: seq<Node>, n: Node): (i: nat)
    requires n in s
    ensures i < |s| && s[i] == n
  {
    if s[0] == n then 0 else 1 + IndexOf(s[1..], n)
  }

  /** The list as a sequence, after one operation and after all of them. */
  ghost function After(s: seq<Node>, op: Op): seq<Node> {
    match op
    case Push(n) => s + [n]
    case Pop => if s == [] then [] else s[1..]
    case Remove(n) => if n in s then Without(s, IndexOf(s, n)) else s
  }

  ghost function AfterAll(s: seq<Node>, ops: seq<Op>): seq<Node> {
    if ops == [] then s else After(AfterAll(s, ops[..|ops| - 1]), ops[|ops| - 1])
  }

  /** What an operation returns, and what all of them do: a pop takes the first
      element, or the head of an empty list. */
  ghost function Taken(head: Node, s: seq<Node>, op: Op): seq<Node> {
    if op.Pop? then [if s == [] then head else s[0]] else []
  }

  ghost function TakenAll(head: Node, s: seq<Node>, ops: seq<Op>): seq<Node> {
    if ops == [] then [] else
      TakenAll(head, s, ops[..|ops| - 1]) + Taken(head, AfterAll(s, ops[..|ops| - 1]), ops[|ops| - 1])
  }

  ghost predicate AllowedAll(head: Node, s: seq<Node>, ops: seq<Op>) {
    forall k :: 0 <= k < |ops| ==> Allowed(head, AfterAll(s, ops[..k]), ops[k])
  }

  /** Any run of operations leaves a ring of exactly the elements that the
      sequence operations leave, and its pops return the nodes that theirs do;
      nodes outside `all` are not touched. */
  method Run(head: Node, ops: seq<Op>, ghost s: seq<Node>, ghost all: set<Node>) returns (popped: seq<Node>)
    requires Ring(head, s) && AllowedAll(head, s, ops)
    requires head in all && (forall x :: x in s ==> x in all) && forall op :: op in ops && op.Push? ==> op.n in all
    modifies all
    ensures Ring(head, AfterAll(s, ops)) && popped == TakenAll(head, s, ops)
  {
    assert ops[..0] == [];
    popped := [];
    for i := 0 to |ops|
      invariant Ring(head, AfterAll(s, ops[..i])) && popped == TakenAll(head, s, ops[..i])
      invariant forall x :: x in AfterAll(s, ops[..i]) ==> x in all
    {
      ghost var now := AfterAll(s, ops[..i]);
      RunNext(head, s, ops, i);
      hide AfterAll, TakenAll;
      assert Allowed(head, now, ops[i]) && ops[i] in ops;
      MutuallyInverse(head, now, head);
      match ops[i]
      case Push(n) =>
        Push(head, n, now);
      case Pop =>
        MutuallyInverse(head, now, head.next);
        var n := Pop(head, now);
        popped := popped + [n];
      case Remove(n) =>
        MutuallyInverse(head, now, n);
        RemoveReset(n, head, now, IndexOf(now, n));
    }
    assert ops[..|ops|] == ops;
  }

  lemma RunNext(head: Node, s: seq<Node>, ops: seq<Op>, i: nat)
    requires i < |ops|
    ensures AfterAll(s, ops[..i + 1]) == After(AfterAll(s, ops[..i]), ops[i])
    ensures TakenAll(head, s, ops[..i + 1]) == TakenAll(head, s, ops[..i]) + Taken(head, AfterAll(s, ops[..i]), ops[i])
  {
    assert ops[..i + 1][..i] == ops[..i];
  }

  /** Pushing the elements of t one by one. */
  ghost function Pushes(t: seq<Node>): (ops: seq<Op>)
    ensures |ops| == |t|
  {
    if t == [] then [] else Pushes(t[..|t| - 1]) + [Op.Push(t[|t| - 1])]
  }

  ghost function Pops(n: nat): (ops: seq<Op>)
    ensures |ops| == n
  {
    if n == 0 then [] else Pops(n - 1) + [Op.Pop]
  }

  lemma {:induction false} RunConcat(s: seq<Node>, a: seq<Op>, b: seq<Op>)
    ensures AfterAll(s, a + b) == AfterAll(AfterAll(s, a), b)
    decreases |b|
  {
    if b == [] {
      assert a + b == a;
    } else {
      assert (a + b)[..|a + b| - 1] == a + b[..|b| - 1];
      RunConcat(s, a, b[..|b| - 1]);
    }
  }

  lemma {:induction false} TakenConcat(head: Node, s: seq<Node>, a: seq<Op>, b: seq<Op>)
    ensures TakenAll(head, s, a + b) == TakenAll(head, s, a) + TakenAll(head, AfterAll(s, a), b)
    decreases |b|
  {
    if b == [] {
      assert a + b == a;
    } else {
      var b' := b[..|b| - 1];
      assert (a + b)[..|a + b| - 1] == a + b';
      TakenConcat(head, s, a, b');
      RunConcat(s, a, b');
    }
  }

  /** A list is a queue: pushing t and popping k elements returns the first k of the
      old elements and t, in order, and leaves the others. */
  lemma Queue(head: Node, s: seq<Node>, t: seq<Node>, k: nat)
    requires k <= |s| + |t|
    ensures AfterAll(s, Pushes(t) + Pops(k)) == (s + t)[k..]
    ensures TakenAll(head, s, Pushes(t) + Pops(k)) == (s + t)[..k]
  {
    RunConcat(s, Pushes(t), Pops(k));
    TakenConcat(head, s, Pushes(t), Pops(k));
    AllPushed(head, s, t);
    Popped(head, s + t, k);
  }

  lemma {:induction false} AllPushed(head: Node, s: seq<Node>, t: seq<Node>)
    ensures AfterAll(s, Pushes(t)) == s + t && TakenAll(head, s, Pushes(t)) == []
    decreases |t|
  {
    if t != [] {
      var n := |t| - 1;
      AllPushed(head, s, t[..n]);
      assert Pushes(t)[..n] == Pushes(t[..n]);
      assert t == t[..n] + [t[n]];
    }
  }

  lemma PopNext(s: seq<Node>, k: nat)
    requires k < |s|
    ensures After(s[k..], Op.Pop) == s[k + 1..] && s[k..] != [] && s[..k] + [s[k..][0]] == s[..k + 1]
  {
  }

  lemma {:induction false} Popped(head: Node, s: seq<Node>, k: nat)
    requires k <= |s|
    ensures AfterAll(s, Pops(k)) == s[k..] && TakenAll(head, s, Pops(k)) == s[..k]
  {
    if k > 0 {
      Popped(head, s, k - 1);
      assert Pops(k)[..k - 1] == Pops(k - 1) && Pops(k)[k - 1] == Op.Pop;
      hide Pops, AfterAll;
      PopNext(s, k - 1);
    }
  }

  // ---- What a ring is ----

  /** From the head the next links lead through the elements in order and back, the
      prev links the other way round. */
  lemma RingLinks(head: Node, s: seq<Node>)
    requires Ring(head, s)
    ensures s == [] ==> head.next == head && head.prev == head
    ensures s != [] ==> head.next == s[0] && head.prev == s[|s| - 1]
    ensures forall k :: 0 <= k < |s| ==> s[k].next == if k + 1 < |s| then s[k + 1] else head
    ensures forall k :: 0 <= k < |s| ==> s[k].prev == if k > 0 then s[k - 1] else head
  {
    var r := Around(head, s);
    assert Linked(r[0], r[1]) && Linked(r[|s|], r[|s| + 1]);
    forall k | 0 <= k < |s|
      ensures s[k].next == if k + 1 < |s| then s[k + 1] else head
      ensures s[k].prev == if k > 0 then s[k - 1] else head
    {
      assert Linked(r[k], r[k + 1]) && Linked(r[k + 1], r[k + 2]);
    }
  }

  /** The loop over a list keeps exactly the elements that are not dropped, in
      their order. */
  lemma {:induction false} KeptExactly(s: seq<Node>, drop: set<Node>, x: Node)
    ensures x in Kept(s, drop) <==> x in s && x !in drop
    ensures multiset(Kept(s, drop))[x] == if x in drop then 0 else multiset(s)[x]
  {
    if s != [] {
      var n := |s| - 1;
      KeptExactly(s[..n], drop, x);
      assert s == s[..n] + [s[n]];
    }
  }

  /** Keeping goes part by part, so the order stays. */
  lemma {:induction false} KeptParts(s: seq<Node>, t: seq<Node>, drop: set<Node>)
    ensures Kept(s + t, drop) == Kept(s, drop) + Kept(t, drop)
    decreases |t|
  {
    if t == [] {
      assert s + t == s;
    } else {
      hide Kept;
      var n := |t| - 1;
      KeptParts(s, t[..n], drop);
      Last(s, t);
      KeptLast(s + t, drop);
      KeptLast(t, drop);
      Associative(Kept(s, drop), Kept(t[..n], drop), if t[n] in drop then [] else [t[n]]);
    }
  }

  lemma Last<T>(s: seq<T>, t: seq<T>)
    requires t != []
    ensures var m := |s + t| - 1; (s + t)[..m] == s + t[..|t| - 1] && (s + t)[m] == t[|t| - 1]
  {
  }

  lemma Associative<T>(a: seq<T>, b: seq<T>, c: seq<T>)
    ensures a + b + c == a + (b + c)
  {
  }

  lemma KeptLast(s: seq<Node>, drop: set<Node>)
    requires s != []
    ensures var n := |s| - 1; Kept(s, drop) == Kept(s[..n], drop) + (if s[n] in drop then [] else [s[n]])
  {
  }
}
