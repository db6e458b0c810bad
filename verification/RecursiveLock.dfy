/** A recursive lock built on a plain one: any number of CPUs, in any interleaving of the single accesses to the
    inner lock, the counter and the owner. A CPU calls `unlock` only as often as its calls of `lock` have returned. */
module RecursiveLock {

  type Cpu = nat

  /** Where a CPU is in `lock` or `unlock`. */
  datatype Pc =
    | Outside
    | Trying | Testing | Claiming | Counting | TestingOwner | Deepening | Letting(won: bool)
    | Unlocking | Decrementing | Checking(zero: bool) | Freeing | Panicked

  /** `depth` is history: how often `lock` has returned on a CPU, less how often it has called `unlock`. */
  datatype State = State(inner: bool, count: int, owner: Cpu, pc: map<Cpu, Pc>, depth: map<Cpu, nat>)

  datatype Action = Lock(cpu: Cpu) | Unlock(cpu: Cpu) | Go(cpu: Cpu)

  predicate Enabled(s: State, a: Action) {
    && a.cpu in s.pc && a.cpu in s.depth
    && match a
       case Lock(c) => s.pc[c] == Outside
       case Unlock(c) => s.pc[c] == Outside && s.depth[c] > 0
       case Go(c) =>
              s.pc[c] != Outside && s.pc[c] != Panicked && (s.pc[c] == Trying || s.pc[c] == Unlocking ==> !s.inner)
  }

  function At(s: State, c: Cpu, pc: Pc): State {
    s.(pc := s.pc[c := pc])
  }

  /** One access to the lock's fields. A failed attempt leaves the inner lock and tries again. Going out through
      `Letting` or `Freeing` is the unlocking of the inner lock, which panics when that is not held. */
  function Step(s: State, c: Cpu): State
    requires Enabled(s, Go(c))
  {
    match s.pc[c]
    case Trying => At(s, c, Testing).(inner := true)
    case Testing => At(s, c, if s.count == 0 then Claiming else TestingOwner)
    case Claiming => At(s, c, Counting).(owner := c)
    case Counting => At(s, c, Letting(true)).(count := s.count + 1)
    case TestingOwner => At(s, c, if s.owner == c then Deepening else Letting(false))
    case Deepening => At(s, c, Letting(true)).(count := s.count + 1)
    case Letting(won) =>
      if !s.inner then At(s, c, Panicked)
      else if won then At(s, c, Outside).(inner := false, depth := s.depth[c := s.depth[c] + 1])
      else At(s, c, Trying).(inner := false)
    case Unlocking => At(s, c, Decrementing).(inner := true)
    case Decrementing => At(s, c, Checking(s.count == 0)).(count := s.count - 1)
    case Checking(zero) => At(s, c, if zero || s.owner != c then Panicked else Freeing)
    case Freeing => if !s.inner then At(s, c, Panicked) else At(s, c, Outside).(inner := false)
  }

  function Do(s: State, a: Action): State
    requires Enabled(s, a)
  {
    match a
    case Lock(c) => At(s, c, Trying)
    case Unlock(c) => At(s, c, Unlocking).(depth := s.depth[c := s.depth[c] - 1])
    case Go(c) => Step(s, c)
  }

  ghost predicate Initial(s: State) {
    && !s.inner && s.count == 0 && s.owner == 0
    && s.pc.Keys == s.depth.Keys
    && (forall c :: c in s.pc ==> s.pc[c] == Outside)
    && (forall c :: c in s.depth ==> s.depth[c] == 0)
  }

  ghost predicate Follows(s: State, t: State) {
    exists a :: Enabled(s, a) && t == Do(s, a)
  }

  ghost predicate Run(trace: seq<State>) {
    && |trace| > 0 && Initial(trace[0])
    && forall k :: 0 <= k < |trace| - 1 ==> Follows(trace[k], trace[k + 1])
  }

  // ---------------------------------------------------------------------------------------------
  // The invariant
  // ---------------------------------------------------------------------------------------------

  /** The CPU is between locking and unlocking the inner lock. */
  predicate Inside(pc: Pc) {
    match pc
    case Testing => true
    case Claiming => true
    case Counting => true
    case TestingOwner => true
    case Deepening => true
    case Letting(_) => true
    case Decrementing => true
    case Checking(_) => true
    case Freeing => true
    case _ => false
  }

  /** What a CPU has in the counter: its depth, plus one while it has counted itself but not returned from `lock`,
      or has called `unlock` but not decremented. */
  function Counted(s: State, c: Cpu): nat
    requires c in s.pc && c in s.depth
  {
    s.depth[c] + if s.pc[c] == Letting(true) || s.pc[c] == Unlocking || s.pc[c] == Decrementing then 1 else 0
  }

  ghost predicate CpuOk(s: State, c: Cpu)
    requires c in s.pc && c in s.depth
  {
    var pc := s.pc[c];
    && Counted(s, c) == (if c == s.owner then s.count else 0)
    && (Inside(pc) ==> s.inner)
    && (pc == Claiming || pc == Counting ==> s.count == 0)
    && (pc == Counting || pc == Deepening ==> s.owner == c)
    && (pc == Deepening || pc == TestingOwner ==> s.count > 0)
    && (pc == Letting(false) ==> s.count > 0 && s.owner != c)
    && (pc.Checking? ==> !pc.zero && s.owner == c)
    && pc != Panicked
  }

  ghost predicate Inv(s: State) {
    && s.pc.Keys == s.depth.Keys
    && s.count >= 0
    && (s.count > 0 ==> s.owner in s.pc)
    && (forall c {:trigger CpuOk(s, c)} :: c in s.pc ==> CpuOk(s, c))
    && OneInside(s.pc)
  }

  /** At most one CPU is between locking and unlocking the inner lock. */
  ghost predicate OneInside(pc: map<Cpu, Pc>) {
    forall c, d {:trigger pc[c], pc[d]} :: c in pc && d in pc && Inside(pc[c]) && Inside(pc[d]) ==> c == d
  }

  lemma StepOk(s: State, a: Action)
    requires Enabled(s, a) && CpuOk(s, a.cpu) && s.count >= 0
    requires s.count == 0 || (s.owner in s.pc && s.owner in s.depth && CpuOk(s, s.owner))
    ensures
      var t := Do(s, a);
      CpuOk(t, a.cpu) && t.count >= 0 && (t.count > 0 ==> t.owner in t.pc)
  {
  }

  /** A CPU counts itself or another out only when that is the owner already, and claims only a free lock. */
  lemma OtherOk(s: State, a: Action, c: Cpu)
    requires Enabled(s, a) && CpuOk(s, a.cpu) && s.count >= 0
    requires c in s.pc && c in s.depth && c != a.cpu && CpuOk(s, c)
    requires !(Inside(s.pc[a.cpu]) && Inside(s.pc[c]))
    ensures c in Do(s, a).pc && c in Do(s, a).depth && CpuOk(Do(s, a), c)
  {
  }

  /** A step moves one CPU, and into the inner lock only when that is free. */
  lemma OneMoves(s: State, a: Action)
    requires Enabled(s, a)
    ensures var t := Do(s, a);
      && a.cpu in t.pc && t.pc == s.pc[a.cpu := t.pc[a.cpu]]
      && (Inside(t.pc[a.cpu]) ==> Inside(s.pc[a.cpu]) || !s.inner)
  {
  }

  lemma StillAlone(s: State, a: Action)
    requires Inv(s) && Enabled(s, a)
    ensures OneInside(Do(s, a).pc)
  {
    OneMoves(s, a);
    forall c | c in s.pc && Inside(s.pc[c]) ensures s.inner {
      assert CpuOk(s, c);
    }
    hide Do, Inside, CpuOk;
  }

  /** A step changes nothing about which CPUs there are. */
  lemma SameCpus(s: State, a: Action)
    requires Enabled(s, a) && s.pc.Keys == s.depth.Keys
    ensures Do(s, a).pc.Keys == Do(s, a).depth.Keys == s.pc.Keys
  {
  }

  lemma StepInv(s: State, a: Action)
    requires Inv(s) && Enabled(s, a)
    ensures Inv(Do(s, a))
  {
    var t := Do(s, a);
    assert a.cpu in s.pc && CpuOk(s, a.cpu);
    assert s.count > 0 ==> CpuOk(s, s.owner);
    SameCpus(s, a);
    StepOk(s, a);
    StillAlone(s, a);
    forall c | c in t.pc ensures CpuOk(t, c) {
      assert CpuOk(s, c);
      if c != a.cpu {
        assert OneInside(s.pc);
        assert !(Inside(s.pc[a.cpu]) && Inside(s.pc[c]));
        hide Do, CpuOk, Inside, Enabled, OneInside;
        OtherOk(s, a, c);
      }
    }
    hide Do, CpuOk, Inside, Enabled, OneInside;
  }

  lemma {:induction false} RunInv(trace: seq<State>, k: nat)
    requires Run(trace) && k < |trace|
    ensures Inv(trace[k])
  {
    if k == 0 {
    } else {
      RunInv(trace, k - 1);
      assert Follows(trace[k - 1], trace[k - 1 + 1]);
      var a :| Enabled(trace[k - 1], a) && trace[k] == Do(trace[k - 1], a);
      StepInv(trace[k - 1], a);
    }
  }

  // ---------------------------------------------------------------------------------------------
  // Whole runs
  // ---------------------------------------------------------------------------------------------

  /** At most one CPU is between a return of `lock` and the matching `unlock`; the counter is its nesting depth,
      except that a call of that CPU which is under way may already, or still, be counted. */
  lemma MutualExclusion(trace: seq<State>, k: nat, c: Cpu, d: Cpu)
    requires Run(trace) && k < |trace|
    requires c in trace[k].pc && d in trace[k].pc
    ensures c in trace[k].depth && d in trace[k].depth
    ensures Counted(trace[k], c) > 0 ==>
      trace[k].owner == c && trace[k].count == Counted(trace[k], c) && (d != c ==> Counted(trace[k], d) == 0)
    ensures trace[k].depth[c] > 0 && trace[k].depth[d] > 0 ==> c == d
    ensures trace[k].depth[c] > 0 && trace[k].pc[c] == Outside ==> trace[k].count == trace[k].depth[c]
  {
    RunInv(trace, k);
    assert CpuOk(trace[k], c) && CpuOk(trace[k], d);
  }

  /** No call of `unlock`, of the lock or of its inner lock, ever panics. */
  lemma NeverPanics(trace: seq<State>, k: nat, c: Cpu)
    requires Run(trace) && k < |trace| && c in trace[k].pc
    ensures trace[k].pc[c] != Panicked
  {
    RunInv(trace, k);
    assert CpuOk(trace[k], c);
  }

  /** An attempt that tests the counter fails exactly when another CPU is counted: the owner that a release leaves
      behind keeps nobody out, and lets nobody in. */
  lemma FailsIffHeldByAnother(trace: seq<State>, k: nat, c: Cpu)
    requires Run(trace) && k < |trace| && c in trace[k].pc && trace[k].pc[c] == Testing
    ensures trace[k].pc.Keys == trace[k].depth.Keys && Enabled(trace[k], Go(c)) && Enabled(Step(trace[k], c), Go(c))
    ensures
      var after := Step(Step(trace[k], c), c);
      after.pc[c] == Letting(false) <==> exists d :: d in trace[k].pc && d != c && Counted(trace[k], d) > 0
  {
    var s := trace[k];
    RunInv(trace, k);
    assert CpuOk(s, c);
    var after := Step(Step(s, c), c);
    if d :| d in s.pc && d != c && Counted(s, d) > 0 {
      assert CpuOk(s, d);
    }
    if after.pc[c] == Letting(false) {
      assert CpuOk(s, s.owner) && Counted(s, s.owner) > 0;
    }
  }

  /** `lock` on the CPU that holds the lock goes through at the first attempt. */
  lemma HolderNeverWaits(trace: seq<State>, k: nat, c: Cpu)
    requires Run(trace) && k < |trace| && c in trace[k].pc && c in trace[k].depth && trace[k].depth[c] > 0
    ensures trace[k].pc[c] != Letting(false)
  {
    RunInv(trace, k);
    assert CpuOk(trace[k], c);
  }

  // ---------------------------------------------------------------------------------------------
  // The inner lock
  // ---------------------------------------------------------------------------------------------

  ghost predicate SomeInside(s: State) {
    exists c :: IsInside(s, c)
  }

  predicate IsInside(s: State, c: Cpu) {
    c in s.pc && Inside(s.pc[c])
  }

  lemma StepInside(s: State, a: Action)
    requires Inv(s) && Enabled(s, a) && (s.inner ==> SomeInside(s))
    ensures Do(s, a).inner ==> SomeInside(Do(s, a))
  {
    var t := Do(s, a);
    assert CpuOk(s, a.cpu);
    if t.inner {
      if IsInside(t, a.cpu) {
      } else {
        var c :| IsInside(s, c);
        assert c != a.cpu;
        assert IsInside(t, c);
      }
    }
  }

  lemma {:induction false} RunInside(trace: seq<State>, k: nat)
    requires Run(trace) && k < |trace|
    ensures trace[k].inner ==> SomeInside(trace[k])
  {
    if k > 0 {
      RunInside(trace, k - 1);
      RunInv(trace, k - 1);
      assert Follows(trace[k - 1], trace[k - 1 + 1]);
      var a :| Enabled(trace[k - 1], a) && trace[k] == Do(trace[k - 1], a);
      StepInside(trace[k - 1], a);
    }
  }

  /** The inner lock is held if and only if some CPU is between locking and unlocking it. */
  lemma InnerHeldIff(trace: seq<State>, k: nat)
    requires Run(trace) && k < |trace|
    ensures trace[k].inner <==> exists c :: c in trace[k].pc && Inside(trace[k].pc[c])
  {
    RunInv(trace, k);
    RunInside(trace, k);
    var s := trace[k];
    if s.inner {
      var c :| IsInside(s, c);
    }
    forall c | c in s.pc && Inside(s.pc[c]) ensures s.inner { assert CpuOk(s, c); }
  }

  // ---------------------------------------------------------------------------------------------
  // What one call does, once it comes to the inner lock
  // ---------------------------------------------------------------------------------------------

  /** The state after `n` accesses of one CPU in a row, or when it has returned or waits. */
  function Alone(s: State, c: Cpu, n: nat): State
    decreases n
  {
    if n == 0 || !Enabled(s, Go(c)) then s else Alone(Step(s, c), c, n - 1)
  }

  /** With nobody else counted, `lock` returns after five accesses: the depth is one more, the counter is the depth, the
      CPU is the owner, and the inner lock is free again. */
  lemma LockReturns(trace: seq<State>, k: nat, c: Cpu)
    requires Run(trace) && k < |trace| && c in trace[k].pc && c in trace[k].depth
    requires trace[k].pc[c] == Trying && !trace[k].inner
    requires forall d :: d in trace[k].pc && d in trace[k].depth && d != c ==> Counted(trace[k], d) == 0
    ensures
      var s := trace[k];
      Alone(s, c, 5) == State(false, s.depth[c] + 1, c, s.pc[c := Outside], s.depth[c := s.depth[c] + 1])
  {
    var s := trace[k];
    RunInv(trace, k);
    assert CpuOk(s, c);
    if s.count > 0 { assert CpuOk(s, s.owner); }
    AloneLock(s, c);
  }

  /** The last two accesses, which are the same for the first call and for a nested one. */
  lemma AloneCounts(s: State, c: Cpu)
    requires c in s.pc && c in s.depth && (s.pc[c] == Counting || s.pc[c] == Deepening) && s.inner
    ensures Alone(s, c, 2) ==
            State(false, s.count + 1, s.owner, s.pc[c := Outside], s.depth[c := s.depth[c] + 1])
  {
    var s1 := Step(s, c);
    var s2 := Step(s1, c);
    assert Alone(s, c, 2) == Alone(s1, c, 1) == s2;
    assert s2.pc == s.pc[c := Outside];
  }

  /** The first three, of a first call. */
  lemma AloneClaims(s: State, c: Cpu, n: nat)
    requires c in s.pc && c in s.depth && s.pc[c] == Trying && !s.inner && s.count == 0
    ensures Alone(s, c, n + 3) == Alone(State(true, 0, c, s.pc[c := Counting], s.depth), c, n)
  {
    var s1 := Step(s, c);
    var s2 := Step(s1, c);
    assert Step(s2, c) == State(true, 0, c, s.pc[c := Counting], s.depth);
    assert Alone(s, c, n + 3) == Alone(s1, c, n + 2) == Alone(s2, c, n + 1);
  }

  /** The first three, of a nested call. */
  lemma AloneDeepens(s: State, c: Cpu, n: nat)
    requires c in s.pc && c in s.depth && s.pc[c] == Trying && !s.inner && s.count > 0 && s.owner == c
    ensures Alone(s, c, n + 3) == Alone(State(true, s.count, c, s.pc[c := Deepening], s.depth), c, n)
  {
    var s1 := Step(s, c);
    var s2 := Step(s1, c);
    assert Step(s2, c) == State(true, s.count, c, s.pc[c := Deepening], s.depth);
    assert Alone(s, c, n + 3) == Alone(s1, c, n + 2) == Alone(s2, c, n + 1);
  }

  lemma AloneLock(s: State, c: Cpu)
    requires c in s.pc && c in s.depth && s.pc[c] == Trying && !s.inner && s.count == s.depth[c]
    requires s.count > 0 ==> s.owner == c
    ensures Alone(s, c, 5) == State(false, s.depth[c] + 1, c, s.pc[c := Outside], s.depth[c := s.depth[c] + 1])
  {
    hide Alone;
    var t := State(true, s.count, c, s.pc[c := if s.count == 0 then Counting else Deepening], s.depth);
    if s.count == 0 {
      AloneClaims(s, c, 2);
    } else {
      AloneDeepens(s, c, 2);
    }
    AloneCounts(t, c);
    assert t.pc[c := Outside] == s.pc[c := Outside];
  }

  /** With another CPU counted, an attempt leaves everything as it was, and waits again. */
  lemma AttemptChangesNothing(trace: seq<State>, k: nat, c: Cpu, d: Cpu)
    requires Run(trace) && k < |trace| && c in trace[k].pc && c in trace[k].depth
    requires trace[k].pc[c] == Trying && !trace[k].inner
    requires d in trace[k].pc && d in trace[k].depth && d != c && Counted(trace[k], d) > 0
    ensures Alone(trace[k], c, 4) == trace[k]
  {
    var s := trace[k];
    RunInv(trace, k);
    assert CpuOk(s, d);
    AloneAttempt(s, c);
  }

  lemma AloneAttempt(s: State, c: Cpu)
    requires c in s.pc && c in s.depth && s.pc[c] == Trying && !s.inner && s.count > 0 && s.owner != c
    ensures Alone(s, c, 4) == s
  {
    var s1 := Step(s, c);
    var s2 := Step(s1, c);
    var s3 := Step(s2, c);
    var s4 := Step(s3, c);
    assert Alone(s, c, 4) == Alone(s1, c, 3) == Alone(s2, c, 2) == Alone(s3, c, 1) == s4;
    assert s4.pc == s.pc[c := Trying] == s.pc;
  }

  /** `unlock` returns after four accesses, with the counter at the depth that is left and the inner lock free. */
  lemma UnlockReturns(trace: seq<State>, k: nat, c: Cpu)
    requires Run(trace) && k < |trace| && c in trace[k].pc && c in trace[k].depth
    requires trace[k].pc[c] == Unlocking && !trace[k].inner
    ensures
      var s := trace[k];
      Alone(s, c, 4) == s.(count := s.depth[c], pc := s.pc[c := Outside])
  {
    var s := trace[k];
    RunInv(trace, k);
    assert CpuOk(s, c);
    UnlockPanicsIff(s, c);
  }

  /** Without that discipline, in any state at all, `unlock` panics if and only if the counter is 0 or another CPU is
      the owner; it has decremented by then and keeps the inner lock. */
  lemma UnlockPanicsIff(s: State, c: Cpu)
    requires c in s.pc && c in s.depth && s.pc[c] == Unlocking && !s.inner
    ensures
      var panics := s.count == 0 || s.owner != c;
      Alone(s, c, 4) == s.(inner := panics, count := s.count - 1, pc := s.pc[c := if panics then Panicked else Outside])
  {
    var s1 := Step(s, c);
    var s2 := Step(s1, c);
    var s3 := Step(s2, c);
    assert s3.pc == s.pc[c := s3.pc[c]];
    assert Alone(s, c, 4) == Alone(s1, c, 3) == Alone(s2, c, 2) == Alone(s3, c, 1);
    if s3.pc[c] == Freeing {
      var s4 := Step(s3, c);
      assert Alone(s3, c, 1) == Alone(s4, c, 0) == s4;
      assert s4.pc == s.pc[c := Outside];
    }
  }

  /** Releasing the inner lock panics if and only if nobody holds that. */
  lemma ReleasePanicsIff(s: State, c: Cpu)
    requires c in s.pc && c in s.depth && (s.pc[c].Letting? || s.pc[c] == Freeing)
    ensures Step(s, c).pc[c] == Panicked <==> !s.inner
    ensures !Step(s, c).inner
  {
  }
}
