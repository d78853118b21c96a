/** The grouped spin lock as a transition system: any number of threads, one
    step for each atomic operation on the lock byte. */
module SpinLock {
  // ---- A byte as its eight bits, least significant first ----

  type Bits = s: seq<bool> | |s| == 8 witness [false, false, false, false, false, false, false, false]

  function Or(x: Bits, y: Bits): (z: Bits)
    ensures forall i :: 0 <= i < 8 ==> (z[i] <==> x[i] || y[i])
  {
    seq(8, i requires 0 <= i < 8 => x[i] || y[i])
  }

  function And(x: Bits, y: Bits): (z: Bits)
    ensures forall i :: 0 <= i < 8 ==> (z[i] <==> x[i] && y[i])
  {
    seq(8, i requires 0 <= i < 8 => x[i] && y[i])
  }

  function Not(x: Bits): (z: Bits)
    ensures forall i :: 0 <= i < 8 ==> (z[i] <==> !x[i])
  {
    seq(8, i requires 0 <= i < 8 => !x[i])
  }

  /** The byte with bit k alone. */
  function Bit(k: nat): (z: Bits)
    ensures forall i :: 0 <= i < 8 ==> (z[i] <==> i == k)
  {
    seq(8, i => i == k)
  }

  predicate IsZero(x: Bits) {
    forall i :: 0 <= i < 8 ==> !x[i]
  }

  const ZERO: Bits := [false, false, false, false, false, false, false, false]

  // ---- Threads and steps ----

  /** Holds, in a thread between its failed atomic OR and the atomic AND that
      undoes it, the byte that AND will use. */
  datatype Phase = Idle | RollingBack(mask: Bits)

  datatype Thread = Thread(held: Bits, phase: Phase)

  datatype State = State(lock: Bits, threads: map<nat, Thread>)

  datatype Label = TryLock(t: nat, group: Bits) | RollBack(t: nat) | Unlock(t: nat, group: Bits)

  /** An empty group stands for the master lock. */
  function Normalized(group: Bits): Bits {
    if IsZero(group) then Bit(0) else group
  }

  /** The bits a thread has set but is about to clear again. */
  function InFlight(p: Phase): Bits {
    match p
    case Idle => ZERO
    case RollingBack(mask) => Not(mask)
  }

  function Owned(t: Thread): Bits {
    Or(t.held, InFlight(t.phase))
  }

  /** A thread runs one operation at a time, and unlocks only what it holds. */
  predicate Enabled(s: State, l: Label) {
    l.t in s.threads &&
    var me := s.threads[l.t];
    match l
    case TryLock(_, _) => me.phase.Idle?
    case RollBack(_) => me.phase.RollingBack?
    case Unlock(_, group) => me.phase.Idle? && IsZero(And(Normalized(group), Not(me.held)))
  }

  /** Whether the atomic OR of a TryLock finds every bit of its group clear. */
  predicate Acquires(s: State, group: Bits) {
    IsZero(And(s.lock, Normalized(group)))
  }

  function Apply(s: State, l: Label): State
    requires Enabled(s, l)
  {
    var me := s.threads[l.t];
    match l
    case TryLock(t, group0) =>
      var group := Normalized(group0);
      var me' := if IsZero(And(s.lock, group)) then me.(held := Or(me.held, group))
                 else me.(phase := RollingBack(Not(And(Not(s.lock), group))));
      State(Or(s.lock, group), s.threads[t := me'])
    case RollBack(t) =>
      State(And(s.lock, me.phase.mask), s.threads[t := me.(phase := Idle)])
    case Unlock(t, group0) =>
      var mask := Not(Normalized(group0));
      State(And(s.lock, mask), s.threads[t := me.(held := And(me.held, mask))])
  }

  predicate Initial(s: State) {
    IsZero(s.lock) && forall t :: t in s.threads ==> IsZero(s.threads[t].held) && s.threads[t].phase.Idle?
  }

  /** The labels can be taken in this order, whatever threads they belong to. */
  predicate Possible(s: State, run: seq<Label>)
    decreases |run|
  {
    run == [] || (Enabled(s, run[0]) && Possible(Apply(s, run[0]), run[1..]))
  }

  function After(s: State, run: seq<Label>): State
    requires Possible(s, run)
    decreases |run|
  {
    if run == [] then s else After(Apply(s, run[0]), run[1..])
  }

  // ---- The steps, bit by bit ----

  /** An attempt on a group that is not empty sets the bits of the group, and
      gives them to the thread exactly if none of them was set. If one was, the
      bits that the attempt has set itself are those to be given back. */
  lemma TryStep(s: State, t: nat, group: Bits, k: nat, i: nat)
    requires k < 8 && group[k] && i < 8
    ensures Enabled(s, TryLock(t, group)) <==> t in s.threads && s.threads[t].phase.Idle?
    ensures Enabled(s, TryLock(t, group)) ==>
      var s' := Apply(s, TryLock(t, group));
      var free := forall j :: 0 <= j < 8 ==> !(s.lock[j] && group[j]);
      && t in s'.threads && s'.threads == s.threads[t := s'.threads[t]]
      && (s'.lock[i] <==> s.lock[i] || group[i])
      && (s'.threads[t].held[i] <==> s.threads[t].held[i] || (free && group[i]))
      && (s'.threads[t].phase.Idle? <==> free)
      && (!free ==> (s'.threads[t].phase.mask[i] <==> s.lock[i] || !group[i]))
  {
    assert !IsZero(group);
    var free := forall j :: 0 <= j < 8 ==> !(s.lock[j] && group[j]);
    assert IsZero(And(s.lock, group)) <==> free by {
      forall j | 0 <= j < 8
        ensures And(s.lock, group)[j] <==> s.lock[j] && group[j]
      {
      }
    }
  }

  /** The step that gives them back clears these alone. */
  lemma RollBackStep(s: State, t: nat, i: nat)
    requires i < 8
    ensures Enabled(s, RollBack(t)) <==> t in s.threads && s.threads[t].phase.RollingBack?
    ensures Enabled(s, RollBack(t)) ==>
      var s' := Apply(s, RollBack(t));
      && t in s'.threads && s'.threads == s.threads[t := Thread(s.threads[t].held, Idle)]
      && (s'.lock[i] <==> s.lock[i] && s.threads[t].phase.mask[i])
  {
  }

  /** An unlock clears exactly the bits of its group, all of which the thread must
      hold. */
  lemma UnlockStep(s: State, t: nat, group: Bits, k: nat, i: nat)
    requires t in s.threads && k < 8 && group[k] && i < 8
    ensures Enabled(s, Unlock(t, group))
      <==> s.threads[t].phase.Idle? && forall j :: 0 <= j < 8 && group[j] ==> s.threads[t].held[j]
    ensures Enabled(s, Unlock(t, group)) ==>
      var s' := Apply(s, Unlock(t, group));
      && t in s'.threads && s'.threads == s.threads[t := s'.threads[t]] && s'.threads[t].phase.Idle?
      && (s'.lock[i] <==> s.lock[i] && !group[i])
      && (s'.threads[t].held[i] <==> s.threads[t].held[i] && !group[i])
  {
    assert !IsZero(group);
    var missing := And(group, Not(s.threads[t].held));
    assert forall j :: 0 <= j < 8 ==> (missing[j] <==> group[j] && !s.threads[t].held[j]);
  }

  /** An empty group is the group of bit 0 alone. */
  lemma EmptyGroup(s: State, t: nat, group: Bits)
    requires forall k :: 0 <= k < 8 ==> !group[k]
    ensures var master: Bits := [true, false, false, false, false, false, false, false];
      && (Enabled(s, TryLock(t, group)) <==> Enabled(s, TryLock(t, master)))
      && (Enabled(s, Unlock(t, group)) <==> Enabled(s, Unlock(t, master)))
      && (Enabled(s, TryLock(t, group)) ==> Apply(s, TryLock(t, group)) == Apply(s, TryLock(t, master)))
      && (Enabled(s, Unlock(t, group)) ==> Apply(s, Unlock(t, group)) == Apply(s, Unlock(t, master)))
  {
    var master: Bits := [true, false, false, false, false, false, false, false];
    assert master[0] && Normalized(group) == master == Normalized(master);
  }

  /** Two groups without a common bit can both be taken. */
  lemma DisjointGroups(s: State, t: nat, u: nat, g: Bits, h: Bits, j: nat, k: nat)
    requires Initial(s) && t in s.threads && u in s.threads && t != u
    requires j < 8 && g[j] && k < 8 && h[k] && forall i :: 0 <= i < 8 ==> !(g[i] && h[i])
    ensures Enabled(s, TryLock(t, g)) && Enabled(Apply(s, TryLock(t, g)), TryLock(u, h))
    ensures var e := Apply(Apply(s, TryLock(t, g)), TryLock(u, h));
      t in e.threads && u in e.threads && forall i :: 0 <= i < 8 ==>
        && (e.threads[t].held[i] <==> g[i]) && (e.threads[u].held[i] <==> h[i]) && (e.lock[i] <==> g[i] || h[i])
  {
    var s1 := Apply(s, TryLock(t, g));
    forall i | 0 <= i < 8
      ensures (s1.lock[i] <==> g[i]) && (s1.threads[t].held[i] <==> g[i]) && s1.threads[u] == s.threads[u]
    {
      TryStep(s, t, g, j, i);
    }
    var e := Apply(s1, TryLock(u, h));
    forall i | 0 <= i < 8
      ensures (e.lock[i] <==> g[i] || h[i]) && (e.threads[u].held[i] <==> h[i]) && e.threads[t] == s1.threads[t]
    {
      TryStep(s1, u, h, k, i);
    }
  }

  // ---- The invariant ----

  predicate Owns(s: State, t: nat, i: nat)
    requires i < 8
  {
    t in s.threads && Owned(s.threads[t])[i]
  }

  /** At sublock i the lock byte says whether some thread owns it, at most one
      does, and no thread both holds it and is about to give it back. */
  ghost predicate InvAt(s: State, i: nat)
    requires i < 8
  {
    && (s.lock[i] <==> exists t :: Owns(s, t, i))
    && (forall t, u :: Owns(s, t, i) && Owns(s, u, i) ==> t == u)
    && (forall t :: t in s.threads ==> !(s.threads[t].held[i] && InFlight(s.threads[t].phase)[i]))
  }

  /** The lock byte is the disjoint union of what the threads hold and of what
      they are about to give back. */
  ghost predicate Inv(s: State) {
    forall i :: 0 <= i < 8 ==> InvAt(s, i)
  }

  lemma InitialInv(s: State)
    requires Initial(s)
    ensures Inv(s)
  {
  }

  /** A step of t that takes sublock i only when it is free, and leaves it set
      exactly while someone owns it, keeps the invariant at i. */
  lemma ActorStep(s: State, s': State, t: nat, i: nat)
    requires i < 8 && InvAt(s, i) && t in s.threads && t in s'.threads
    requires s'.threads == s.threads[t := s'.threads[t]]
    requires !(s'.threads[t].held[i] && InFlight(s'.threads[t].phase)[i])
    requires Owns(s', t, i) && !Owns(s, t, i) ==> !s.lock[i]
    requires s'.lock[i] <==> Owns(s', t, i) || (s.lock[i] && !Owns(s, t, i))
    ensures InvAt(s', i)
  {
    assert forall u :: u != t ==> (Owns(s', u, i) <==> Owns(s, u, i));
    if s'.lock[i] && !Owns(s', t, i) {
      var u :| Owns(s, u, i);
      assert Owns(s', u, i);
    }
  }

  lemma StepKeepsInv(s: State, l: Label)
    requires Inv(s) && Enabled(s, l)
    ensures Inv(Apply(s, l))
  {
    forall i | 0 <= i < 8
      ensures InvAt(Apply(s, l), i)
    {
      assert InvAt(s, i);
      assert Owns(s, l.t, i) ==> s.lock[i];
      ActorStep(s, Apply(s, l), l.t, i);
    }
  }

  lemma {:induction false} RunKeepsInv(s: State, run: seq<Label>)
    requires Inv(s) && Possible(s, run)
    ensures Inv(After(s, run))
    decreases |run|
  {
    if run != [] {
      StepKeepsInv(s, run[0]);
      RunKeepsInv(Apply(s, run[0]), run[1..]);
    }
  }

  lemma {:induction false} ThreadsStay(s: State, run: seq<Label>)
    requires Possible(s, run)
    ensures After(s, run).threads.Keys == s.threads.Keys
    decreases |run|
  {
    if run != [] {
      assert Apply(s, run[0]).threads.Keys == s.threads.Keys;
      ThreadsStay(Apply(s, run[0]), run[1..]);
    }
  }

  // ---- Safety ----

  /** After any run of any number of threads, no two threads hold a common
      sublock, and every held sublock is set in the lock byte. */
  lemma MutualExclusion(s: State, run: seq<Label>, t: nat, u: nat, i: nat)
    requires Initial(s) && Possible(s, run) && i < 8
    requires t in s.threads && u in s.threads && t != u
    ensures var e := After(s, run);
      && t in e.threads && u in e.threads
      && !(e.threads[t].held[i] && e.threads[u].held[i])
      && (e.threads[t].held[i] ==> e.lock[i])
  {
    InitialInv(s);
    RunKeepsInv(s, run);
    ThreadsStay(s, run);
    var e := After(s, run);
    assert InvAt(e, i);
    assert e.threads[t].held[i] ==> Owns(e, t, i);
    assert e.threads[u].held[i] ==> Owns(e, u, i);
  }

  /** Once every thread is between operations, the set bits of the lock byte are
      exactly the held ones: failed attempts leave nothing behind. */
  lemma NoResidue(s: State, run: seq<Label>, i: nat)
    requires Initial(s) && Possible(s, run) && i < 8
    requires forall t :: t in After(s, run).threads ==> After(s, run).threads[t].phase.Idle?
    ensures After(s, run).lock[i]
       <==> exists t :: t in After(s, run).threads && After(s, run).threads[t].held[i]
  {
    InitialInv(s);
    RunKeepsInv(s, run);
    var e := After(s, run);
    assert InvAt(e, i);
    assert forall t :: t in e.threads ==> (Owns(e, t, i) <==> e.threads[t].held[i]);
  }

  /** Undoing a failed attempt at once restores the whole state. */
  lemma FailedAttemptUndone(s: State, t: nat, group: Bits)
    requires Enabled(s, TryLock(t, group)) && t in Apply(s, TryLock(t, group)).threads
    requires Apply(s, TryLock(t, group)).threads[t].phase.RollingBack?
    ensures var s' := Apply(s, TryLock(t, group)); Enabled(s', RollBack(t)) && Apply(s', RollBack(t)) == s
  {
    var s' := Apply(s, TryLock(t, group));
    assert Apply(s', RollBack(t)).lock == s.lock;
    assert Apply(s', RollBack(t)).threads == s.threads;
  }

  /** Sublock i belongs to the group, the empty group standing for sublock 0. */
  predicate Includes(group: Bits, i: nat)
    requires i < 8
  {
    group[i] || (i == 0 && forall k :: 0 <= k < 8 ==> !group[k])
  }

  lemma IncludedBits(group: Bits, i: nat)
    requires i < 8
    ensures Normalized(group)[i] <==> Includes(group, i)
  {
  }

  /** The atomic OR decides ownership: an attempt succeeds, so that its thread is
      done with it, exactly when no thread owns any sublock of the group. */
  lemma AcquiresWhenFree(s: State, t: nat, group: Bits)
    requires Inv(s) && Enabled(s, TryLock(t, group))
    ensures t in Apply(s, TryLock(t, group)).threads
    ensures Apply(s, TryLock(t, group)).threads[t].phase.Idle?
       <==> forall u, i :: 0 <= i < 8 && Includes(group, i) ==> !Owns(s, u, i)
  {
    var g := Normalized(group);
    forall i | 0 <= i < 8
      ensures g[i] <==> Includes(group, i)
      ensures s.lock[i] <==> exists u :: Owns(s, u, i)
    {
      IncludedBits(group, i);
      assert InvAt(s, i);
    }
    if Acquires(s, group) {
      forall u, i | 0 <= i < 8 && Includes(group, i)
        ensures !Owns(s, u, i)
      {
        assert !And(s.lock, g)[i];
      }
    } else {
      var i :| 0 <= i < 8 && And(s.lock, g)[i];
      var u :| Owns(s, u, i);
      assert Includes(group, i);
    }
  }

  /** One step: a successful attempt adds its whole group to what the thread
      holds, an unlock takes its whole group away. */
  lemma HeldChanges(s: State, l: Label, u: nat, i: nat)
    requires Enabled(s, l) && u in s.threads && i < 8
    ensures u in Apply(s, l).threads
    ensures Apply(s, l).threads[u].held[i] <==>
      if u != l.t || l.RollBack? then s.threads[u].held[i]
      else if l.TryLock? then s.threads[u].held[i] || (Apply(s, l).threads[u].phase.Idle? && Includes(l.group, i))
      else s.threads[u].held[i] && !Includes(l.group, i)
  {
    if !l.RollBack? {
      IncludedBits(l.group, i);
    }
  }

  // ---- What a thread holds ----

  /** The last label of a run is taken where the others lead. */
  lemma {:induction false} LastStep(s: State, run: seq<Label>)
    requires Possible(s, run) && run != []
    ensures var n := |run| - 1;
      Possible(s, run[..n]) && Enabled(After(s, run[..n]), run[n]) && After(s, run) == Apply(After(s, run[..n]), run[n])
    decreases |run|
  {
    var n := |run| - 1;
    if n > 0 {
      LastStep(Apply(s, run[0]), run[1..]);
      assert run[1..][..n - 1] == run[..n][1..];
    } else {
      assert run[..0] == [] && run[1..] == [];
    }
  }

  /** Step k of a run is a successful attempt of u on sublock i, */
  ghost predicate GainsAt(s: State, run: seq<Label>, k: nat, u: nat, i: nat)
    requires i < 8
  {
    && k < |run| && Possible(s, run[..k]) && Enabled(After(s, run[..k]), run[k]) && run[k].TryLock? && run[k].t == u
    && Apply(After(s, run[..k]), run[k]).threads[u].phase.Idle? && Includes(run[k].group, i)
  }

  /** and step k is an unlock by u that includes sublock i. */
  predicate LosesAt(run: seq<Label>, k: nat, u: nat, i: nat)
    requires i < 8
  {
    k < |run| && run[k].Unlock? && run[k].t == u && Includes(run[k].group, i)
  }

  /** u has gained sublock i and not given it up since. */
  ghost predicate GainedAndKept(s: State, run: seq<Label>, u: nat, i: nat)
    requires i < 8
  {
    exists k :: 0 <= k < |run| && GainsAt(s, run, k, u, i) && forall j :: k < j < |run| ==> !LosesAt(run, j, u, i)
  }

  lemma GainedAndKeptStep(s: State, run: seq<Label>, u: nat, i: nat)
    requires run != [] && i < 8
    ensures var n := |run| - 1; GainedAndKept(s, run, u, i) <==>
      (GainsAt(s, run, n, u, i) || (GainedAndKept(s, run[..n], u, i) && !LosesAt(run, n, u, i)))
  {
    hide Possible, After, Apply, Includes;
    var n := |run| - 1;
    var most := run[..n];
    forall k | 0 <= k < n
      ensures GainsAt(s, most, k, u, i) <==> GainsAt(s, run, k, u, i)
      ensures LosesAt(most, k, u, i) <==> LosesAt(run, k, u, i)
    {
      assert most[..k] == run[..k];
    }
    if GainedAndKept(s, run, u, i) && !GainsAt(s, run, n, u, i) {
      var k :| 0 <= k < |run| && GainsAt(s, run, k, u, i) && forall j :: k < j < |run| ==> !LosesAt(run, j, u, i);
      assert k < n && GainsAt(s, most, k, u, i);
    }
    if GainedAndKept(s, most, u, i) && !LosesAt(run, n, u, i) {
      var k :| 0 <= k < n && GainsAt(s, most, k, u, i) && forall j :: k < j < n ==> !LosesAt(most, j, u, i);
      assert GainsAt(s, run, k, u, i);
    }
  }

  /** After any run a thread holds a sublock exactly if it has acquired it and
      not unlocked it since: no failed attempt and no step of another thread
      gives or takes a sublock. */
  lemma {:induction false} HeldExactly(s: State, run: seq<Label>, u: nat, i: nat)
    requires Initial(s) && Possible(s, run) && u in s.threads && i < 8
    ensures u in After(s, run).threads
    ensures After(s, run).threads[u].held[i] <==> GainedAndKept(s, run, u, i)
    decreases |run|
  {
    if run != [] {
      var n := |run| - 1;
      LastStep(s, run);
      HeldExactly(s, run[..n], u, i);
      GainedAndKeptStep(s, run, u, i);
      HeldChanges(After(s, run[..n]), run[n], u, i);
      hide Apply, GainedAndKept;
    }
  }

  /** An attempt may fail although nobody holds what it asks for: it collides
      with bits another failing attempt is about to give back. */
  lemma SpuriousFailure() returns (s: State, run: seq<Label>)
    ensures Initial(s) && Possible(s, run)
    ensures var e := After(s, run);
      var master: Bits := [true, false, false, false, false, false, false, false];
      && Enabled(e, TryLock(2, master))
      && 2 in Apply(e, TryLock(2, master)).threads && Apply(e, TryLock(2, master)).threads[2].phase.RollingBack?
      && forall t :: t in e.threads ==> !e.threads[t].held[0]
  {
    var other: Bits := [false, true, false, false, false, false, false, false];
    var both: Bits := [true, true, false, false, false, false, false, false];
    var master: Bits := [true, false, false, false, false, false, false, false];
    s := ThreeIdle();
    run := [TryLock(0, other), TryLock(1, both)];
    Collision(s, other, both);
    hide *;
    TwoSteps(s, TryLock(0, other), TryLock(1, both));
    MasterRefused(After(s, run), 2, master);
  }

  lemma ThreeIdle() returns (s: State)
    ensures Initial(s) && s.threads.Keys == {0, 1, 2}
  {
    var free := Thread(ZERO, Idle);
    s := State(ZERO, map[0 := free, 1 := free, 2 := free]);
  }

  lemma MasterRefused(s: State, t: nat, master: Bits)
    requires t in s.threads && s.threads[t].phase.Idle? && s.lock[0] && master[0]
    ensures Enabled(s, TryLock(t, master)) && t in Apply(s, TryLock(t, master)).threads
    ensures Apply(s, TryLock(t, master)).threads[t].phase.RollingBack?
  {
    TryStep(s, t, master, 0, 0);
  }

  /** A second attempt that fails because of bit 1 has set bit 0 in passing. */
  lemma Collision(s: State, other: Bits, both: Bits)
    requires Initial(s) && s.threads.Keys == {0, 1, 2} && other[1] && !other[0] && both[0] && both[1]
    ensures Enabled(s, TryLock(0, other)) && Enabled(Apply(s, TryLock(0, other)), TryLock(1, both))
    ensures var e := Apply(Apply(s, TryLock(0, other)), TryLock(1, both));
      && e.threads.Keys == {0, 1, 2} && e.lock[0] && e.threads[2].phase.Idle?
      && !e.threads[0].held[0] && !e.threads[1].held[0] && !e.threads[2].held[0]
  {
    hide Normalized, Or, And, Not, Apply;
    TryStep(s, 0, other, 1, 0);
    TryStep(s, 0, other, 1, 1);
    var s1 := Apply(s, TryLock(0, other));
    assert s1.lock[1] && both[1];
    TryStep(s1, 1, both, 0, 0);
  }

  lemma TwoSteps(s: State, l: Label, m: Label)
    requires Enabled(s, l) && Enabled(Apply(s, l), m)
    ensures Possible(s, [l, m]) && After(s, [l, m]) == Apply(Apply(s, l), m)
  {
    var run, s1, s2 := [l, m], Apply(s, l), Apply(Apply(s, l), m);
    assert run[1..] == [m] && run[1..][1..] == [];
    assert Possible(s2, []) && Possible(s1, run[1..]) && Possible(s, run);
    assert After(s, run) == After(s1, run[1..]) == After(s2, []) == s2;
  }
}
