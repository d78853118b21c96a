/** The contention-safe slot allocator as a transition system: one step for
    each atomic operation on the hint and on the busy bytes. */
module SlotAllocator {
  import opened Words
  import opened Modular

  /** A try that has drawn its start and probed i slots, all found busy; seen
      records which slots those were. */
  datatype Phase = Idle | Probing(start: word, i: nat, seen: set<nat>)

  /** checkedOut is what the caller holds, to be given back one at a time. */
  datatype Thread = Thread(checkedOut: set<nat>, phase: Phase)

  datatype State = State(busy: seq<bool>, hint: word, threads: map<nat, Thread>)

  datatype Label = Begin(t: nat) | Probe(t: nat) | GiveUp(t: nat) | Free(t: nat, slot: nat)

  /** The slot probed k-th: the sum wraps at the word size. */
  function ProbeAt(start: nat, k: nat, max: nat): nat
    requires max > 0
  {
    (start + k) % BASE % max
  }

  predicate Enabled(s: State, l: Label) {
    l.t in s.threads &&
    var me := s.threads[l.t];
    match l
    case Begin(_) => me.phase.Idle?
    case Probe(_) => me.phase.Probing? && me.phase.i < |s.busy|
    case GiveUp(_) => me.phase.Probing? && me.phase.i >= |s.busy|
    case Free(_, slot) => me.phase.Idle? && slot in me.checkedOut && slot < |s.busy|
  }

  function Apply(s: State, l: Label): State
    requires Enabled(s, l)
  {
    var me := s.threads[l.t];
    match l
    case Begin(t) =>
      s.(hint := (s.hint + 1) % BASE, threads := s.threads[t := me.(phase := Probing(s.hint, 0, {}))])
    case Probe(t) =>
      var at := ProbeAt(me.phase.start, me.phase.i, |s.busy|);
      var me' := if s.busy[at] then me.(phase := Probing(me.phase.start, me.phase.i + 1, me.phase.seen + {at}))
                 else Thread(me.checkedOut + {at}, Idle);
      s.(busy := s.busy[at := true], threads := s.threads[t := me'])
    case GiveUp(t) =>
      s.(threads := s.threads[t := me.(phase := Idle)])
    case Free(t, slot) =>
      s.(busy := s.busy[slot := false], threads := s.threads[t := me.(checkedOut := me.checkedOut - {slot})])
  }

  predicate Initial(s: State) {
    && |s.busy| > 0
    && (forall a :: 0 <= a < |s.busy| ==> !s.busy[a])
    && (forall t :: t in s.threads ==> s.threads[t] == Thread({}, Idle))
  }

  predicate Possible(s: State, run: seq<Label>)
    decreases |run|
  {
    run == [] || (Enabled(s, run[0]) && Possible(Apply(s, run[0]), run[1..]))
  }

  function After(s: State, run: seq<Label>): State
    requires Possible(s, run)
    decreases |run|
  {
    if run == [] then s else After(Apply(s, run[0]), run[1..])
  }

  // ---- The steps ----

  /** A try draws the hint as its start and leaves the next one behind. */
  lemma BeginStep(s: State, t: nat)
    ensures Enabled(s, Begin(t)) <==> t in s.threads && s.threads[t].phase.Idle?
    ensures Enabled(s, Begin(t)) ==>
      var s' := Apply(s, Begin(t));
      && s'.busy == s.busy && s'.hint == (s.hint + 1) % 0x1_0000_0000_0000_0000
      && s'.threads == s.threads[t := Thread(s.threads[t].checkedOut, Probing(s.hint, 0, {}))]
  {
  }

  /** A probe that finds its slot busy only counts, one that finds it free takes
      this slot and no other and ends the try. */
  lemma ProbeStep(s: State, t: nat, at: nat)
    requires t in s.threads && s.threads[t].phase.Probing? && s.busy != []
    requires at == (s.threads[t].phase.start + s.threads[t].phase.i) % 0x1_0000_0000_0000_0000 % |s.busy|
    ensures Enabled(s, Probe(t)) <==> s.threads[t].phase.i < |s.busy|
    ensures Enabled(s, Probe(t)) ==>
      var s', p := Apply(s, Probe(t)), s.threads[t].phase;
      && s'.hint == s.hint && s'.busy == s.busy[at := true] && (s.busy[at] ==> s'.busy == s.busy)
      && s'.threads == s.threads[t :=
           if s.busy[at] then Thread(s.threads[t].checkedOut, Probing(p.start, p.i + 1, p.seen + {at}))
           else Thread(s.threads[t].checkedOut + {at}, Idle)]
  {
    assert s.busy[at] ==> s.busy[at := true] == s.busy;
  }

  /** A try that returns NULL has probed as often as there are slots, and changes
      neither the busy bytes nor the hint nor what any thread has. */
  lemma GiveUpStep(s: State, t: nat)
    ensures Enabled(s, GiveUp(t))
      <==> t in s.threads && s.threads[t].phase.Probing? && s.threads[t].phase.i >= |s.busy|
    ensures Enabled(s, GiveUp(t)) ==>
      Apply(s, GiveUp(t)) == State(s.busy, s.hint, s.threads[t := Thread(s.threads[t].checkedOut, Idle)])
  {
  }

  /** A slot that is given back is free, and no other. */
  lemma FreeStep(s: State, t: nat, a: nat)
    ensures Enabled(s, Free(t, a))
      <==> t in s.threads && s.threads[t].phase.Idle? && a in s.threads[t].checkedOut && a < |s.busy|
    ensures Enabled(s, Free(t, a)) ==>
      Apply(s, Free(t, a))
        == State(s.busy[a := false], s.hint, s.threads[t := Thread(s.threads[t].checkedOut - {a}, Idle)])
  {
  }

  // ---- The invariant ----

  predicate Holds(s: State, t: nat, a: nat) {
    t in s.threads && a in s.threads[t].checkedOut
  }

  /** The busy byte of slot a is set exactly while some thread holds the slot,
      and at most one does. */
  ghost predicate InvAt(s: State, a: nat)
    requires a < |s.busy|
  {
    && (s.busy[a] <==> exists t :: Holds(s, t, a))
    && (forall t, u :: Holds(s, t, a) && Holds(s, u, a) ==> t == u)
  }

  /** The busy bytes are exactly the outstanding checkouts, each held once, and
      every probing thread has seen exactly the slots of its probes busy. */
  ghost predicate Inv(s: State) {
    && |s.busy| > 0
    && (forall t: nat, a: nat :: Holds(s, t, a) ==> a < |s.busy|)
    && (forall a :: 0 <= a < |s.busy| ==> InvAt(s, a))
    && (forall t :: t in s.threads && s.threads[t].phase.Probing? ==> SeenProbes(s.threads[t].phase, |s.busy|))
  }

  ghost predicate SeenProbes(p: Phase, max: nat)
    requires p.Probing? && max > 0
  {
    && p.i <= max
    && (forall k :: 0 <= k < p.i ==> ProbeAt(p.start, k, max) in p.seen)
    && (forall a :: a in p.seen ==> exists k :: 0 <= k < p.i && ProbeAt(p.start, k, max) == a)
  }

  lemma SeenOneMore(p: Phase, max: nat)
    requires p.Probing? && p.i < max && SeenProbes(p, max)
    ensures SeenProbes(Probing(p.start, p.i + 1, p.seen + {ProbeAt(p.start, p.i, max)}), max)
  {
    forall a | a in p.seen
      ensures exists k :: 0 <= k < p.i + 1 && ProbeAt(p.start, k, max) == a
    {
      var k :| 0 <= k < p.i && ProbeAt(p.start, k, max) == a;
      assert 0 <= k < p.i + 1;
    }
  }

  /** A step of t that takes slot a only when it is free, and leaves its byte set
      exactly while someone holds it, keeps the invariant at a. */
  lemma ActorStep(s: State, s': State, t: nat, a: nat)
    requires a < |s.busy| == |s'.busy| && InvAt(s, a) && t in s.threads && t in s'.threads
    requires s'.threads == s.threads[t := s'.threads[t]]
    requires Holds(s', t, a) && !Holds(s, t, a) ==> !s.busy[a]
    requires s'.busy[a] <==> Holds(s', t, a) || (s.busy[a] && !Holds(s, t, a))
    ensures InvAt(s', a)
  {
    assert forall u :: u != t ==> (Holds(s', u, a) <==> Holds(s, u, a));
    if s'.busy[a] && !Holds(s', t, a) {
      var u :| Holds(s, u, a);
      assert Holds(s', u, a);
    }
  }

  lemma StepKeepsInv(s: State, l: Label)
    requires Inv(s) && Enabled(s, l)
    ensures Inv(Apply(s, l)) && |Apply(s, l).busy| == |s.busy|
  {
    var s' := Apply(s, l);
    forall a | 0 <= a < |s.busy|
      ensures InvAt(s', a)
    {
      assert InvAt(s, a);
      assert Holds(s, l.t, a) ==> s.busy[a];
      ActorStep(s, s', l.t, a);
    }
    forall u: nat, a: nat | Holds(s', u, a)
      ensures a < |s.busy|
    {
      assert Holds(s, u, a) || a < |s.busy|;
    }
    if l.Probe? {
      SeenOneMore(s.threads[l.t].phase, |s.busy|);
    }
  }

  lemma {:induction false} RunKeepsInv(s: State, run: seq<Label>)
    requires Inv(s) && Possible(s, run)
    ensures Inv(After(s, run)) && |After(s, run).busy| == |s.busy|
    decreases |run|
  {
    if run != [] {
      StepKeepsInv(s, run[0]);
      RunKeepsInv(Apply(s, run[0]), run[1..]);
    }
  }

  // ---- Safety ----

  /** After any run, no slot is checked out twice, and a busy byte is set exactly
      while its slot is checked out. */
  lemma NoDoubleCheckout(s: State, run: seq<Label>, a: nat)
    requires Initial(s) && Possible(s, run) && a < |s.busy|
    ensures var e := After(s, run);
      && |e.busy| == |s.busy|
      && (e.busy[a] <==> exists t :: Holds(e, t, a))
      && forall t, u :: Holds(e, t, a) && Holds(e, u, a) ==> t == u
  {
    assert Inv(s);
    RunKeepsInv(s, run);
    assert InvAt(After(s, run), a);
  }

  // ---- What a thread has ----

  /** The last label of a run is taken where the others lead. */
  lemma {:induction false} LastStep(s: State, run: seq<Label>)
    requires Possible(s, run) && run != []
    ensures var n := |run| - 1;
      Possible(s, run[..n]) && Enabled(After(s, run[..n]), run[n]) && After(s, run) == Apply(After(s, run[..n]), run[n])
    decreases |run|
  {
    var n := |run| - 1;
    if n > 0 {
      LastStep(Apply(s, run[0]), run[1..]);
      assert run[1..][..n - 1] == run[..n][1..];
    } else {
      assert run[..0] == [] && run[1..] == [];
    }
  }

  /** The next probe of u is of slot a, and finds it free. */
  predicate FindsFree(s: State, u: nat, a: nat) {
    && u in s.threads && s.threads[u].phase.Probing? && a < |s.busy| && !s.busy[a]
    && (s.threads[u].phase.start + s.threads[u].phase.i) % 0x1_0000_0000_0000_0000 % |s.busy| == a
  }

  /** One step: a probe that finds slot a free gives it to its thread, giving it
      back takes it away, and nothing else does either. */
  lemma HoldsChanges(s: State, l: Label, u: nat, a: nat)
    requires Enabled(s, l)
    ensures Holds(Apply(s, l), u, a) <==>
      (l == Probe(u) && FindsFree(s, u, a)) || (Holds(s, u, a) && l != Free(u, a))
  {
  }

  /** Step k of a run is a probe of u that finds slot a free. */
  predicate GainsAt(s: State, run: seq<Label>, k: nat, u: nat, a: nat) {
    k < |run| && run[k] == Probe(u) && Possible(s, run[..k]) && FindsFree(After(s, run[..k]), u, a)
  }

  predicate GainedAndKept(s: State, run: seq<Label>, u: nat, a: nat) {
    exists k :: 0 <= k < |run| && GainsAt(s, run, k, u, a) && forall j :: k < j < |run| ==> run[j] != Free(u, a)
  }

  lemma GainedAndKeptStep(s: State, run: seq<Label>, u: nat, a: nat)
    requires run != []
    ensures var n := |run| - 1; GainedAndKept(s, run, u, a) <==>
      (GainsAt(s, run, n, u, a) || (GainedAndKept(s, run[..n], u, a) && run[n] != Free(u, a)))
  {
    hide Possible, After, FindsFree;
    var n := |run| - 1;
    var most := run[..n];
    forall k | 0 <= k < n
      ensures GainsAt(s, most, k, u, a) <==> GainsAt(s, run, k, u, a)
    {
      assert most[..k] == run[..k];
    }
    if GainedAndKept(s, run, u, a) && !GainsAt(s, run, n, u, a) {
      var k :| 0 <= k < |run| && GainsAt(s, run, k, u, a) && forall j :: k < j < |run| ==> run[j] != Free(u, a);
      assert k < n && GainsAt(s, most, k, u, a);
    }
    if GainedAndKept(s, most, u, a) && run[n] != Free(u, a) {
      var k :| 0 <= k < n && GainsAt(s, most, k, u, a) && forall j :: k < j < n ==> most[j] != Free(u, a);
      assert GainsAt(s, run, k, u, a);
    }
  }

  /** After any run a thread has a slot exactly if one of its probes has found the
      slot free and it has not given the slot back since: no failed try and no
      step of another thread gives or takes one. */
  lemma {:induction false} HoldsExactly(s: State, run: seq<Label>, u: nat, a: nat)
    requires Initial(s) && Possible(s, run)
    ensures Holds(After(s, run), u, a) <==> GainedAndKept(s, run, u, a)
    decreases |run|
  {
    if run != [] {
      var n := |run| - 1;
      LastStep(s, run);
      HoldsExactly(s, run[..n], u, a);
      GainedAndKeptStep(s, run, u, a);
      HoldsChanges(After(s, run[..n]), run[n], u, a);
      hide Apply, GainedAndKept, Holds, FindsFree;
    }
  }

  /** How many tries a run begins. */
  function Begins(run: seq<Label>): nat {
    if run == [] then 0 else Begins(run[1..]) + if run[0].Begin? then 1 else 0
  }

  /** The hint counts the tries, modulo the word size. */
  lemma {:induction false} HintCounts(s: State, run: seq<Label>)
    requires Possible(s, run)
    ensures After(s, run).hint == (s.hint + Begins(run)) % 0x1_0000_0000_0000_0000
    decreases |run|
  {
    if run == [] {
      DivModUnique(s.hint, 0, s.hint, BASE);
    } else {
      var s1, b := Apply(s, run[0]), Begins(run[1..]);
      HintCounts(s1, run[1..]);
      if run[0].Begin? && s.hint + 1 == BASE {
        DivModUnique(s.hint + 1, 1, 0, BASE);
        Congruent(BASE + b, b, 1, BASE);
      } else if run[0].Begin? {
        DivModUnique(s.hint + 1, 0, s.hint + 1, BASE);
      }
    }
  }

  // ---- The probes of one try ----

  /** The sum of the start and the probe number never wraps, or wrapping does
      not change the slot. */
  predicate ProbesRegular(start: word, max: nat)
    requires max > 0
  {
    start + max <= BASE || BASE % max == 0
  }

  lemma RegularProbe(start: word, k: nat, max: nat)
    requires 0 <= k < max <= BASE && ProbesRegular(start, max)
    ensures ProbeAt(start, k, max) == (start + k) % max
  {
    if start + k >= BASE {
      var q := Factor(BASE, max);
      DivModUnique(start + k, 1, start + k - BASE, BASE);
      Congruent(start + k, start + k - BASE, q, max);
    } else {
      DivModUnique(start + k, 0, start + k, BASE);
    }
  }

  /** A regular try visits every slot. */
  lemma EverySlotProbed(start: word, a: nat, max: nat) returns (k: nat)
    requires a < max <= BASE && ProbesRegular(start, max)
    ensures k < max && ProbeAt(start, k, max) == a
  {
    k := (a - start) % max;
    var q := (a - start) / max;
    RegularProbe(start, k, max);
    Congruent(start + k, a, -q, max);
    DivModUnique(a, 0, a, max);
  }

  /** A regular try visits no slot twice. */
  lemma ProbesDistinct(start: word, j: nat, k: nat, max: nat)
    requires j < k < max <= BASE && ProbesRegular(start, max)
    ensures ProbeAt(start, j, max) != ProbeAt(start, k, max)
  {
    RegularProbe(start, j, max);
    RegularProbe(start, k, max);
    if (start + k) % max == (start + j) % max {
      var q := Witness(start + k, start + j, max);
      DivModUnique(k - j, q, 0, max);
      DivModUnique(k - j, 0, k - j, max);
      assert false;
    }
  }

  /** Any other try visits some slot twice, */
  lemma IrregularRepeats(start: word, max: nat) returns (j: nat, k: nat)
    requires 0 < max <= BASE && !ProbesRegular(start, max)
    ensures j < k < max && ProbeAt(start, j, max) == ProbeAt(start, k, max)
  {
    var before, rest, q := BASE - start, BASE % max, BASE / max;
    assert BASE == q * max + rest;
    if rest >= before {
      j, k := 0, rest;
      DivModUnique(start, q, rest - before, max);
      DivModUnique(start, 0, start, BASE);
      DivModUnique(start + rest, 1, rest - before, BASE);
      DivModUnique(rest - before, 0, rest - before, max);
    } else {
      j, k := before - rest, before;
      DivModUnique(BASE - rest, q, 0, max);
      DivModUnique(BASE - rest, 0, BASE - rest, BASE);
      DivModUnique(BASE, 1, 0, BASE);
      DivModUnique(0, 0, 0, max);
    }
  }

  /** The probes of a try are all different exactly when they are regular. */
  lemma DistinctExactly(start: word, max: nat)
    requires 0 < max <= BASE
    ensures (forall j, k :: 0 <= j < k < max ==> ProbeAt(start, j, max) != ProbeAt(start, k, max))
       <==> ProbesRegular(start, max)
  {
    if ProbesRegular(start, max) {
      forall j, k | 0 <= j < k < max
        ensures ProbeAt(start, j, max) != ProbeAt(start, k, max)
      {
        ProbesDistinct(start, j, k, max);
      }
    } else {
      var j, k := IrregularRepeats(start, max);
    }
  }

  /** A slot that an irregular try misses. */
  function MissedSlot(start: word, max: nat): (a: nat)
    requires 0 < max <= BASE && !ProbesRegular(start, max)
    ensures a < max
  {
    var before, rest := BASE - start, BASE % max;
    if rest >= before then max - 1 else if max - before >= rest then max - before else rest
  }

  /** and misses this one. */
  lemma IrregularMisses(start: word, k: nat, max: nat)
    requires 0 < max <= BASE && !ProbesRegular(start, max) && k < max
    ensures ProbeAt(start, k, max) != MissedSlot(start, max)
  {
    var before, rest, q := BASE - start, BASE % max, BASE / max;
    assert BASE == q * max + rest;
    if k < before {
      DivModUnique(start + k, 0, start + k, BASE);
      if rest - before + k >= 0 {
        DivModUnique(start + k, q, rest - before + k, max);
      } else {
        assert q * max == (q - 1) * max + max;
        DivModUnique(start + k, q - 1, max + rest - before + k, max);
      }
    } else {
      DivModUnique(start + k, 1, k - before, BASE);
      DivModUnique(k - before, 0, k - before, max);
    }
  }

  predicate Visits(start: word, max: nat, a: nat)
    requires max > 0
  {
    exists k :: 0 <= k < max && ProbeAt(start, k, max) == a
  }

  /** A try visits every slot exactly when it is regular. */
  lemma CoversExactly(start: word, max: nat)
    requires 0 < max <= BASE
    ensures (forall a :: 0 <= a < max ==> Visits(start, max, a)) <==> ProbesRegular(start, max)
  {
    if ProbesRegular(start, max) {
      forall a | 0 <= a < max
        ensures Visits(start, max, a)
      {
        var k := EverySlotProbed(start, a, max);
      }
    } else {
      var a := MissedSlot(start, max);
      forall k | 0 <= k < max
        ensures ProbeAt(start, k, max) != a
      {
        IrregularMisses(start, k, max);
      }
      assert !Visits(start, max, a);
    }
  }

  /** In any run, a try that gives up has seen every slot busy if and only if it
      was regular. */
  lemma GivesUpOnlyWhenAllSeen(s: State, run: seq<Label>, t: nat)
    requires Initial(s) && Possible(s, run) && |s.busy| <= BASE
    requires Enabled(After(s, run), GiveUp(t))
    ensures var p := After(s, run).threads[t].phase;
      (forall a :: 0 <= a < |s.busy| ==> a in p.seen) <==> ProbesRegular(p.start, |s.busy|)
  {
    RunKeepsInv(s, run);
    var e := After(s, run);
    var p, max := e.threads[t].phase, |s.busy|;
    assert SeenProbes(p, max) && p.i == max;
    forall a | 0 <= a < max
      ensures a in p.seen <==> Visits(p.start, max, a)
    {
    }
    CoversExactly(p.start, max);
  }

  /** With three slots a try that starts at the largest hint probes the slots 0,
      0 and 1. */
  lemma WrappedProbes()
    ensures ProbeAt(BASE - 4, 0, 3) == 0 && ProbeAt(BASE - 3, 0, 3) == 1
    ensures ProbeAt(BASE - 1, 0, 3) == 0 && ProbeAt(BASE - 1, 1, 3) == 0 && ProbeAt(BASE - 1, 2, 3) == 1
    ensures ProbeAt(BASE - 2, 0, 3) == 2
  {
  }

  lemma RunStep(s: State, l: Label, run: seq<Label>)
    requires Enabled(s, l) && Possible(Apply(s, l), run)
    ensures Possible(s, [l] + run) && After(s, [l] + run) == After(Apply(s, l), run)
  {
    assert ([l] + run)[1..] == run;
  }

  /** Threads 0 and 1; thread 1 has what is checked out. */
  function Pair(busy: seq<bool>, hint: word, held: set<nat>, p0: Phase, p1: Phase): State {
    State(busy, hint, map[0 := Thread({}, p0), 1 := Thread(held, p1)])
  }

  lemma FirstProbeTakes(busy: seq<bool>, hint: word, held: set<nat>, start: word, a: nat)
    requires a < |busy| && ProbeAt(start, 0, |busy|) == a && !busy[a]
    ensures var s := Pair(busy, hint, held, Idle, Probing(start, 0, {}));
      Enabled(s, Probe(1)) && Apply(s, Probe(1)) == Pair(busy[a := true], hint, held + {a}, Idle, Idle)
  {
    hide ProbeAt;
  }

  lemma ProbeFails(busy: seq<bool>, hint: word, held: set<nat>, start: word, i: nat, seen: set<nat>, a: nat)
    requires i < |busy| && a < |busy| && ProbeAt(start, i, |busy|) == a && busy[a]
    ensures var s := Pair(busy, hint, held, Probing(start, i, seen), Idle);
      Enabled(s, Probe(0)) && Apply(s, Probe(0)) == Pair(busy, hint, held, Probing(start, i + 1, seen + {a}), Idle)
  {
    hide ProbeAt;
    assert busy[a := true] == busy;
  }

  /** Thread 1 checks out the first slot it probes, and goes on with a run. */
  lemma Checkout(busy: seq<bool>, hint: word, held: set<nat>, a: nat, run: seq<Label>)
    requires a < |busy| && ProbeAt(hint, 0, |busy|) == a && !busy[a] && hint + 1 < BASE
    requires Possible(Pair(busy[a := true], hint + 1, held + {a}, Idle, Idle), run)
    ensures var s, all := Pair(busy, hint, held, Idle, Idle), [Begin(1)] + ([Probe(1)] + run);
      Possible(s, all) && After(s, all) == After(Pair(busy[a := true], hint + 1, held + {a}, Idle, Idle), run)
  {
    hide ProbeAt, Possible, After;
    var s, s1 := Pair(busy, hint, held, Idle, Idle), Pair(busy, hint + 1, held, Idle, Probing(hint, 0, {}));
    assert Enabled(s, Begin(1)) && Apply(s, Begin(1)) == s1;
    FirstProbeTakes(busy, hint + 1, held, hint, a);
    RunStep(s1, Probe(1), run);
    RunStep(s, Begin(1), [Probe(1)] + run);
  }

  /** Three free slots, nothing checked out, and the hint at h. */
  function Resting(h: word): State {
    Pair([false, false, false], h, {}, Idle, Idle)
  }

  /** Thread 1 checks out one slot and gives it back, which moves the hint. */
  lemma HintMoves(h: word, run: seq<Label>) returns (all: seq<Label>)
    requires h + 1 < BASE && Possible(Resting(h + 1), run)
    ensures Possible(Resting(h), all) && After(Resting(h), all) == After(Resting(h + 1), run)
  {
    var busy, a := [false, false, false], ProbeAt(h, 0, 3);
    var held: set<nat> := {} + {a};
    var taken := Pair(busy[a := true], h + 1, held, Idle, Idle);
    assert busy[a := true][a := false] == busy && held - {a} == {};
    assert Enabled(taken, Free(1, a)) && Apply(taken, Free(1, a)) == Resting(h + 1);
    hide ProbeAt, Possible, After, Enabled, Apply;
    RunStep(taken, Free(1, a), run);
    Checkout(busy, h, {}, a, [Free(1, a)] + run);
    all := [Begin(1)] + ([Probe(1)] + ([Free(1, a)] + run));
  }

  /** So every hint is reached from the hint 0. */
  lemma HintFromZero(h: word, run: seq<Label>) returns (all: seq<Label>)
    requires Possible(Resting(h), run)
    ensures Possible(Resting(0), all) && After(Resting(0), all) == After(Resting(h), run)
    decreases h
  {
    all := run;
    if h > 0 {
      all := HintMoves(h - 1, run);
      all := HintFromZero(h - 1, all);
    }
  }

  /** Thread 1 checks out the slots 0, 1 and 2 and gives slot 2 back. */
  lemma TwoOfThree() returns (run: seq<Label>)
    ensures var s := Resting(BASE - 4);
      Possible(s, run) && After(s, run) == Pair([true, true, false], BASE - 1, {0, 1}, Idle, Idle)
  {
    WrappedProbes();
    var none, one, two: set<nat> := {}, {} + {0}, {} + {0} + {1};
    var b0 := [false, false, false];
    var b1 := b0[0 := true];
    var b2 := b1[1 := true];
    var full := Pair(b2[2 := true], BASE - 1, two + {2}, Idle, Idle);
    var last := Pair([true, true, false], BASE - 1, {0, 1}, Idle, Idle);
    assert two + {2} - {2} == {0, 1} && b2[2 := true][2 := false] == [true, true, false];
    assert Enabled(full, Free(1, 2)) && Apply(full, Free(1, 2)) == last;
    assert Resting(BASE - 4) == Pair(b0, BASE - 4, none, Idle, Idle);
    hide ProbeAt, Possible, After, Enabled, Apply, Pair;
    NoStep(last);
    RunStep(full, Free(1, 2), []);
    run := [Free(1, 2)] + [];
    Checkout(b2, BASE - 2, two, 2, run);
    run := [Begin(1)] + ([Probe(1)] + run);
    Checkout(b1, BASE - 3, one, 1, run);
    run := [Begin(1)] + ([Probe(1)] + run);
    Checkout(b0, BASE - 4, none, 0, run);
    run := [Begin(1)] + ([Probe(1)] + run);
  }

  lemma NoStep(s: State)
    ensures Possible(s, []) && After(s, []) == s
  {
  }

  /** A try of thread 0 that runs without interruption gives up, while slot 2 is
      free all the time. */
  predicate GivesUpWithSlot2Free(s: State) {
    |s.busy| == 3 && !s.busy[2] && Enabled(s, Begin(0)) &&
    var s1 := Apply(s, Begin(0));
    |s1.busy| == 3 && !s1.busy[2] && Enabled(s1, Probe(0)) &&
    var s2 := Apply(s1, Probe(0));
    |s2.busy| == 3 && !s2.busy[2] && Enabled(s2, Probe(0)) &&
    var s3 := Apply(s2, Probe(0));
    |s3.busy| == 3 && !s3.busy[2] && Enabled(s3, Probe(0)) &&
    var s4 := Apply(s3, Probe(0));
    |s4.busy| == 3 && !s4.busy[2] && Enabled(s4, GiveUp(0))
  }

  lemma WrappedTryGivesUp()
    ensures GivesUpWithSlot2Free(Pair([true, true, false], BASE - 1, {0, 1}, Idle, Idle))
  {
    WrappedProbes();
    hide ProbeAt;
    var busy := [true, true, false];
    assert Apply(Pair(busy, BASE - 1, {0, 1}, Idle, Idle), Begin(0))
        == Pair(busy, 0, {0, 1}, Probing(BASE - 1, 0, {}), Idle);
    ProbeFails(busy, 0, {0, 1}, BASE - 1, 0, {}, 0);
    ProbeFails(busy, 0, {0, 1}, BASE - 1, 1, {} + {0}, 0);
    ProbeFails(busy, 0, {0, 1}, BASE - 1, 2, {} + {0} + {0}, 1);
  }

  /** Started at the hint 0, such a try is reached. */
  lemma NullWhileFree() returns (s: State, run: seq<Label>)
    ensures Initial(s) && s.hint == 0 && Possible(s, run) && GivesUpWithSlot2Free(After(s, run))
  {
    WrappedTryGivesUp();
    s := Resting(0);
    assert Initial(s) && s.hint == 0;
    hide Possible, After, GivesUpWithSlot2Free, Pair, Resting, Initial;
    run := TwoOfThree();
    run := HintFromZero(BASE - 4, run);
  }

  /** A slot enters what a try has seen only at a probe that finds it busy, that
      is, checked out at that moment. */
  lemma SeenMeansBusy(s: State, l: Label, t: nat, a: nat)
    requires Inv(s) && Enabled(s, l) && t in s.threads
    requires Apply(s, l).threads[t].phase.Probing? && a in Apply(s, l).threads[t].phase.seen
    ensures (s.threads[t].phase.Probing? && a in s.threads[t].phase.seen)
         || (l == Probe(t) && a < |s.busy| && s.busy[a] && exists u :: Holds(s, u, a))
  {
    if a < |s.busy| {
      assert InvAt(s, a);
    }
  }
}
