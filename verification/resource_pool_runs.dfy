/** Every interleaving of the operations of service/cpplib/system/resourcepool.cpp. A step is what one
    thread does between taking the mutex and giving it up or waiting on the condition. */
module ResourcePoolRuns {
  import opened ResourcePool

  type Client = nat

  datatype Request = WantIndex | WantResize(n: nat) | WantLock | WantLockAndResize(n: nat)

  datatype Step =
    | Call(c: Client, request: Request)
    | Wake(c: Client)
    | Timeout(c: Client)
    | Release(c: Client, index: nat)
    | ReleaseAll(c: Client)

  /** `held` records who was granted an index and has not released it. */
  datatype System = System(pool: Pool, held: set<(Client, nat)>, waiting: map<Client, Request>)

  function Start(n: nat): System {
    System(Fresh(false, n), {}, map[])
  }

  predicate AllFree(p: Pool) {
    |p.free| >= p.total
  }

  predicate Held(s: System, i: nat) {
    exists p | p in s.held :: p.1 == i
  }

  /** One pass of the loop of the operation that `c` has called. */
  function Attempt(s: System, c: Client, request: Request): System {
    var blocked := s.(waiting := s.waiting[c := request]);
    match request
    case WantIndex =>
      if s.pool.locked || s.pool.total == 0 then s
      else if CanTake(s.pool) then s.(pool := Take(s.pool), held := s.held + {(c, s.pool.free[0])})
      else blocked
    case WantResize(n) =>
      if AllFree(s.pool) then s.(pool := Fresh(s.pool.locked, n)) else blocked
    case WantLock =>
      if AllFree(s.pool) then s else blocked
    case WantLockAndResize(n) =>
      if AllFree(s.pool) then s.(pool := Fresh(true, n)) else blocked
  }

  /** A client releases what it holds, or an index that nobody holds. The pool cannot tell. */
  predicate MayRelease(s: System, c: Client, i: nat) {
    (c, i) in s.held || !Held(s, i)
  }

  /** What the pool has to trust its clients for; a waiting thread releases nothing. */
  predicate Permitted(s: System, step: Step) {
    step.Release? && step.c !in s.waiting ==> MayRelease(s, step.c, step.index)
  }

  function Next(s: System, step: Step): System {
    match step
    case Call(c, request) =>
      if c in s.waiting then s
      else Attempt(if request.WantLock? then s.(pool := s.pool.(locked := true)) else s, c, request)
    case Wake(c) =>
      if c in s.waiting then Attempt(s.(waiting := s.waiting - {c}), c, s.waiting[c]) else s
    case Timeout(c) =>
      if c in s.waiting && s.waiting[c].WantIndex? then s.(waiting := s.waiting - {c}) else s
    case Release(c, i) =>
      if c in s.waiting then s
      else s.(pool := Give(s.pool, i), held := s.held - {(c, i)})
    case ReleaseAll(c) =>
      if c in s.waiting then s else s.(pool := s.pool.(locked := false))
  }

  function Run(s: System, steps: seq<Step>): System
    decreases |steps|
  {
    if steps == [] then s else Next(Run(s, steps[..|steps| - 1]), steps[|steps| - 1])
  }

  // ---- Safety ----

  /** No index is held by two clients. */
  ghost predicate Exclusive(held: set<(Client, nat)>) {
    forall p, q :: p in held && q in held && p.1 == q.1 ==> p == q
  }

  /** What is held is in the pool and off the free list, and what is off the free list is held. */
  ghost predicate Complementary(s: System) {
    && (forall p :: p in s.held ==> p.1 < s.pool.total && p.1 !in s.pool.free)
    && (forall i: nat :: i < s.pool.total && i !in s.pool.free ==> Held(s, i))
  }

  ghost predicate Safe(s: System) {
    && Sound(s.pool)
    && |s.pool.free| + |s.held| == s.pool.total
    && Exclusive(s.held)
    && Complementary(s)
  }

  lemma ExclusiveAdd(held: set<(Client, nat)>, c: Client, i: nat)
    requires Exclusive(held) && forall p :: p in held ==> p.1 != i
    ensures Exclusive(held + {(c, i)})
  {
  }

  lemma FreshIsSafe(s: System, locked: bool, n: nat)
    requires s.pool == Fresh(locked, n) && s.held == {}
    ensures Safe(s)
  {
    UptoIsAll(n);
  }

  lemma GrantKeeps(s: System, c: Client)
    requires Safe(s) && CanTake(s.pool)
    ensures Safe(s.(pool := Take(s.pool), held := s.held + {(c, s.pool.free[0])}))
  {
    hide Exclusive;
    var i := s.pool.free[0];
    var s' := s.(pool := Take(s.pool), held := s.held + {(c, i)});
    assert i in s.pool.free;
    ExclusiveAdd(s.held, c, i);
    GrantComplements(s, c);
    assert Sound(s'.pool) by {
      DistinctRest(s.pool.free);
      assert forall k :: 0 <= k < |s'.pool.free| ==> s'.pool.free[k] == s.pool.free[k + 1];
    }
    assert (c, i) !in s.held;
  }

  lemma GrantComplements(s: System, c: Client)
    requires Complementary(s) && CanTake(s.pool) && Distinct(s.pool.free) && s.pool.free[0] < s.pool.total
    ensures Complementary(s.(pool := Take(s.pool), held := s.held + {(c, s.pool.free[0])}))
  {
    DistinctRest(s.pool.free);
    hide Distinct;
    var i, rest := s.pool.free[0], s.pool.free[1..];
    var s' := s.(pool := Take(s.pool), held := s.held + {(c, i)});
    assert forall j :: j in s.pool.free <==> j == i || j in rest by {
      assert s.pool.free == [i] + rest;
    }
    forall j: nat | j < s.pool.total && j !in rest
      ensures Held(s', j)
    {
      if j == i {
        assert (c, i) in s'.held;
      } else {
        assert Held(s, j);
        var p :| p in s.held && p.1 == j;
        assert p in s'.held;
      }
    }
  }

  lemma OwnReleaseKeeps(s: System, c: Client, i: nat)
    requires Safe(s) && (c, i) in s.held
    ensures Safe(s.(pool := Give(s.pool, i), held := s.held - {(c, i)}))
  {
    var s' := s.(pool := Give(s.pool, i), held := s.held - {(c, i)});
    DistinctMore(i, s.pool.free);
    assert |s'.held| == |s.held| - 1;
    assert forall k :: 1 <= k < |s'.pool.free| ==> s'.pool.free[k] == s.pool.free[k - 1];
    forall j: nat | j < s.pool.total && j !in s'.pool.free
      ensures Held(s', j)
    {
      assert Held(s, j);
      var p :| p in s.held && p.1 == j;
      assert p in s'.held;
    }
  }

  /** A release keeps the system safe if and only if the client holds the index or nobody does. */
  lemma ReleaseKeeps(s: System, c: Client, i: nat)
    requires Safe(s)
    ensures Safe(s.(pool := Give(s.pool, i), held := s.held - {(c, i)})) <==> MayRelease(s, c, i)
  {
    var s' := s.(pool := Give(s.pool, i), held := s.held - {(c, i)});
    if (c, i) in s.held {
      OwnReleaseKeeps(s, c, i);
    } else {
      assert s'.held == s.held;
      if Held(s, i) {
        var p :| p in s.held && p.1 == i;
        assert p in s'.held && s'.pool.free[0] == i;
      } else {
        assert s'.pool == s.pool && s' == s;
      }
    }
  }

  lemma AttemptKeeps(s: System, c: Client, request: Request)
    requires Safe(s)
    ensures Safe(Attempt(s, c, request))
  {
    var s' := Attempt(s, c, request);
    if s'.pool == s.pool && s'.held == s.held {
      SafeIgnoresRest(s, s');
    } else if request.WantIndex? {
      GrantKeeps(s, c);
    } else {
      NothingHeld(s);
      FreshIsSafe(s', s'.pool.locked, s'.pool.total);
    }
  }

  lemma SafeIgnoresRest(s: System, s': System)
    requires Safe(s) && s'.held == s.held && s'.pool == s.pool.(locked := s'.pool.locked)
    ensures Safe(s')
  {
    forall i: nat | i < s'.pool.total && i !in s'.pool.free
      ensures Held(s', i)
    {
      assert Held(s, i);
    }
  }

  lemma NothingHeld(s: System)
    requires Safe(s) && AllFree(s.pool)
    ensures s.held == {}
  {
  }

  /** A step keeps the system safe if and only if it is permitted. */
  lemma StepKeeps(s: System, step: Step)
    requires Safe(s)
    ensures Safe(Next(s, step)) <==> Permitted(s, step)
  {
    hide Safe, Attempt, MayRelease, Give;
    match step {
      case Call(c, request) =>
        var s1 := if request.WantLock? then s.(pool := s.pool.(locked := true)) else s;
        SafeIgnoresRest(s, s1);
        AttemptKeeps(s1, c, request);
      case Wake(c) =>
        if c in s.waiting {
          SafeIgnoresRest(s, s.(waiting := s.waiting - {c}));
          AttemptKeeps(s.(waiting := s.waiting - {c}), c, s.waiting[c]);
        }
      case Timeout(c) =>
        SafeIgnoresRest(s, Next(s, step));
      case Release(c, i) =>
        ReleaseKeeps(s, c, i);
      case ReleaseAll(c) =>
        SafeIgnoresRest(s, Next(s, step));
    }
  }

  /** Every state that a run passes through is safe. */
  ghost predicate SafeThroughout(s: System, steps: seq<Step>)
    decreases |steps|
  {
    Safe(Run(s, steps)) && (steps != [] ==> SafeThroughout(s, steps[..|steps| - 1]))
  }

  /** Every step of a run is permitted where it is made. */
  predicate PermittedThroughout(s: System, steps: seq<Step>)
    decreases |steps|
  {
    steps != [] ==>
      && PermittedThroughout(s, steps[..|steps| - 1])
      && Permitted(Run(s, steps[..|steps| - 1]), steps[|steps| - 1])
  }

  /** A run of any clients, whatever they release, keeps to: no index is held twice, an index is free
      or held but not both, the free and held indices are all there are. It does so if and only if
      each release is by the holder or of an index nobody holds. */
  lemma {:induction false} EveryRunIsSafe(n: nat, steps: seq<Step>)
    ensures SafeThroughout(Start(n), steps) <==> PermittedThroughout(Start(n), steps)
    ensures PermittedThroughout(Start(n), steps) ==> Safe(Run(Start(n), steps))
    decreases |steps|
  {
    hide Safe, Permitted;
    if steps == [] {
      FreshIsSafe(Start(n), false, n);
    } else {
      var init := steps[..|steps| - 1];
      EveryRunIsSafe(n, init);
      if PermittedThroughout(Start(n), init) {
        StepKeeps(Run(Start(n), init), steps[|steps| - 1]);
      }
    }
  }

  /** All that a step can do to the pool and to who holds what: nothing but the flag; a grant while
      the pool is unlocked; a release by the holder; a rebuild while nothing is held. */
  ghost predicate Explained(s: System, step: Step, s': System) {
    || (s'.pool == s.pool.(locked := s'.pool.locked) && s'.held == s.held)
    || (!s.pool.locked && s.pool.free != [] && s'.pool == s.pool.(free := s.pool.free[1..])
        && !Held(s, s.pool.free[0]) && s'.held == s.held + {(step.c, s.pool.free[0])})
    || (step.Release? && (step.c, step.index) in s.held
        && s'.pool == s.pool.(free := [step.index] + s.pool.free) && s'.held == s.held - {(step.c, step.index)})
    || (s.held == {} && s'.held == {} && s'.pool.free == Upto(s'.pool.total))
  }

  lemma StepIsExplained(s: System, step: Step)
    requires Safe(s) && Permitted(s, step)
    ensures Explained(s, step, Next(s, step))
  {
    assert Sound(s.pool) && |s.pool.free| + |s.held| == s.pool.total;
    assert forall p :: p in s.held ==> p.1 < s.pool.total && p.1 !in s.pool.free;
    hide Safe, Sound, Attempt, Held, Give;
    match step {
      case Call(c, request) =>
        var s1 := if request.WantLock? then s.(pool := s.pool.(locked := true)) else s;
        AttemptIsExplained(s1, c, request);
        AttemptIsExplained(s, c, request);
      case Wake(c) =>
        if c in s.waiting {
          AttemptIsExplained(s.(waiting := s.waiting - {c}), c, s.waiting[c]);
        }
      case Timeout(c) =>
      case Release(c, i) =>
        if c !in s.waiting {
          ReleaseIsExplained(s, c, i);
        }
      case ReleaseAll(c) =>
    }
  }

  lemma ReleaseIsExplained(s: System, c: Client, i: nat)
    requires Safe(s) && MayRelease(s, c, i)
    ensures (c, i) in s.held ==> Give(s.pool, i) == s.pool.(free := [i] + s.pool.free)
    ensures (c, i) !in s.held ==> Give(s.pool, i) == s.pool && s.held - {(c, i)} == s.held
  {
  }

  lemma AttemptIsExplained(s: System, c: Client, request: Request)
    requires Sound(s.pool) && |s.pool.free| + |s.held| == s.pool.total
    requires forall p :: p in s.held ==> p.1 < s.pool.total && p.1 !in s.pool.free
    ensures var s' := Attempt(s, c, request);
            || (s'.pool == s.pool && s'.held == s.held)
            || (!s.pool.locked && s.pool.free != [] && s'.pool == s.pool.(free := s.pool.free[1..])
                && !Held(s, s.pool.free[0]) && s'.held == s.held + {(c, s.pool.free[0])})
            || (s.held == {} && s'.held == {} && s'.pool.free == Upto(s'.pool.total))
  {
    if s.pool.free != [] {
      assert s.pool.free[0] in s.pool.free;
    }
  }

  lemma EveryStepIsExplained(n: nat, steps: seq<Step>, step: Step)
    requires PermittedThroughout(Start(n), steps) && Permitted(Run(Start(n), steps), step)
    ensures Explained(Run(Start(n), steps), step, Next(Run(Start(n), steps), step))
  {
    EveryRunIsSafe(n, steps);
    StepIsExplained(Run(Start(n), steps), step);
  }

  // ---- The flag ----

  datatype Option<T> = None | Some(value: T)

  /** What a step tries to do for its thread: what it calls, or what it has called and waits for. */
  function Tried(s: System, step: Step): Option<Request> {
    match step
    case Call(c, request) => if c in s.waiting then None else Some(request)
    case Wake(c) => if c in s.waiting then Some(s.waiting[c]) else None
    case _ => None
  }

  /** A step that comes from a call of releaseAll. */
  predicate Unlocks(s: System, step: Step) {
    step.ReleaseAll? && step.c !in s.waiting
  }

  /** A step at which lockAll is called or lockAllAndResize comes back. */
  predicate Locks(s: System, step: Step) {
    || (step.Call? && step.c !in s.waiting && step.request.WantLock?)
    || (Tried(s, step).Some? && Tried(s, step).value.WantLockAndResize? && step.c !in Next(s, step).waiting)
  }

  /** The flag is cleared by releaseAll and set by lockAll and lockAllAndResize, and nothing else moves it. */
  lemma FlagMoves(s: System, step: Step)
    ensures Next(s, step).pool.locked == if Unlocks(s, step) then false else s.pool.locked || Locks(s, step)
  {
  }

  lemma NoneGrantedWhileLocked(s: System, step: Step)
    requires s.pool.locked
    ensures Next(s, step).held <= s.held
  {
  }

  /** From where the flag is set, until releaseAll, it stays set and nobody is granted an index. */
  lemma {:induction false} LockLasts(s: System, steps: seq<Step>)
    requires s.pool.locked && forall k :: 0 <= k < |steps| ==> !steps[k].ReleaseAll?
    ensures Run(s, steps).pool.locked && Run(s, steps).held <= s.held
    decreases |steps|
  {
    hide Next;
    if steps != [] {
      var init, last := steps[..|steps| - 1], steps[|steps| - 1];
      LockLasts(s, init);
      FlagMoves(Run(s, init), last);
      NoneGrantedWhileLocked(Run(s, init), last);
    }
  }

  lemma {:induction false} RunThen(s: System, a: seq<Step>, b: seq<Step>)
    ensures Run(s, a + b) == Run(Run(s, a), b)
    decreases |b|
  {
    hide Next;
    if b == [] {
      assert a + b == a;
    } else {
      assert (a + b)[..|a + b| - 1] == a + b[..|b| - 1];
      RunThen(s, a, b[..|b| - 1]);
    }
  }

  /** In any run, whatever is released: once lockAll is called or lockAllAndResize has come back, nobody is
      granted an index before releaseAll is called. */
  lemma LockedRunGrantsNothing(n: nat, before: seq<Step>, step: Step, after: seq<Step>)
    requires Locks(Run(Start(n), before), step) && forall k :: 0 <= k < |after| ==> !after[k].ReleaseAll?
    ensures var s := Run(Start(n), before + [step] + after);
            s.pool.locked && s.held <= Run(Start(n), before + [step]).held
  {
    hide Next, Locks;
    var s := Run(Start(n), before);
    assert (before + [step])[..|before + [step]| - 1] == before;
    assert !Unlocks(s, step) by { LocksDoNotUnlock(s, step); }
    FlagMoves(s, step);
    LockLasts(Run(Start(n), before + [step]), after);
    RunThen(Start(n), before + [step], after);
  }

  lemma LocksDoNotUnlock(s: System, step: Step)
    requires Locks(s, step)
    ensures !Unlocks(s, step)
  {
  }

  /** A thread that waits in lockAll comes back without the flag if another calls releaseAll meanwhile. */
  lemma LockAllCanReturnUnlocked()
    ensures var steps := [Call(0, WantIndex), Call(1, WantLock), ReleaseAll(2), Release(0, 0)];
            var s := Run(Start(1), steps);
            && PermittedThroughout(Start(1), steps)
            && 1 in s.waiting && 1 !in Next(s, Wake(1)).waiting && !Next(s, Wake(1)).pool.locked
  {
    var a, b, c, d := Call(0, WantIndex), Call(1, WantLock), ReleaseAll(2), Release(0, 0);
    var s0 := Start(1);
    assert Run(s0, []) == s0 && PermittedThroughout(s0, []);
    hide Run, PermittedThroughout, Next, Permitted;
    assert [] + [a] == [a] && [a] + [b] == [a, b] && [a, b] + [c] == [a, b, c] && [a, b, c] + [d] == [a, b, c, d];
    OneMoreStep(s0, [], a);
    OneMoreStep(s0, [a], b);
    OneMoreStep(s0, [a, b], c);
    OneMoreStep(s0, [a, b, c], d);
    FourSteps();
  }

  lemma FourSteps()
    ensures var a, b, c, d := Call(0, WantIndex), Call(1, WantLock), ReleaseAll(2), Release(0, 0);
            var s0 := Start(1);
            var s1 := Next(s0, a);
            var s2 := Next(s1, b);
            var s3 := Next(s2, c);
            var s4 := Next(s3, d);
            && Permitted(s0, a) && Permitted(s1, b) && Permitted(s2, c) && Permitted(s3, d)
            && 1 in s4.waiting && 1 !in Next(s4, Wake(1)).waiting && !Next(s4, Wake(1)).pool.locked
  {
    assert Upto(1) == [0];
    var s1 := Next(Start(1), Call(0, WantIndex));
    assert s1.held == {(0, 0)} && s1.pool == Pool(false, 1, []) && s1.waiting == map[];
    var s2 := Next(s1, Call(1, WantLock));
    assert s2 == System(Pool(true, 1, []), {(0, 0)}, map[1 := WantLock]);
    var s3 := Next(s2, ReleaseAll(2));
    assert s3 == System(Pool(false, 1, []), {(0, 0)}, map[1 := WantLock]);
    var s4 := Next(s3, Release(0, 0));
    assert s4 == System(Pool(false, 1, [0]), {}, map[1 := WantLock]);
  }

  lemma OneMoreStep(s: System, steps: seq<Step>, step: Step)
    ensures Run(s, steps + [step]) == Next(Run(s, steps), step)
    ensures PermittedThroughout(s, steps + [step]) <==> PermittedThroughout(s, steps) && Permitted(Run(s, steps), step)
  {
    hide Next, Permitted;
    assert (steps + [step])[..|steps|] == steps;
  }

  // ---- What a call comes to ----

  /** A thread that applies gets an index if and only if the flag is not set and one is free, and waits if
      and only if the flag is not set and there are indices but none free. */
  lemma ApplyComesTo(s: System, step: Step)
    requires Safe(s) && Tried(s, step) == Some(WantIndex)
    ensures var s', c := Next(s, step), step.c;
            && (!s.pool.locked && |s.held| < s.pool.total ==>
                  c !in s'.waiting && s'.held == s.held + {(c, s.pool.free[0])} && !Held(s, s.pool.free[0]))
            && (s.pool.locked || |s.held| == s.pool.total ==> s'.held == s.held && s'.pool == s.pool)
            && (c in s'.waiting <==> !s.pool.locked && s.pool.total > 0 && |s.held| == s.pool.total)
  {
    if s.pool.free != [] {
      assert s.pool.free[0] in s.pool.free;
    }
  }

  /** A thread that wants the whole pool waits if and only if some index is held. A rebuilt pool has every
      index free, in order; FlagMoves says what becomes of the flag. */
  lemma WholePoolComesTo(s: System, step: Step)
    requires Safe(s) && Tried(s, step).Some? && !Tried(s, step).value.WantIndex?
    ensures var s', c, request := Next(s, step), step.c, Tried(s, step).value;
            && (c in s'.waiting <==> s.held != {}) && s'.held == s.held
            && (if s.held != {} || request.WantLock? then s'.pool.total == s.pool.total && s'.pool.free == s.pool.free
                else s'.pool.total == request.n && s'.pool.free == seq(request.n, i => i))
  {
    hide Held, Complementary;
  }

  /** An index that its holder releases is the next to be granted; one that nobody holds is ignored. */
  lemma ReleaseComesTo(s: System, c: Client, i: nat)
    requires Safe(s) && c !in s.waiting && MayRelease(s, c, i)
    ensures var s' := Next(s, Release(c, i));
            && s'.held == s.held - {(c, i)} && s'.waiting == s.waiting
            && s'.pool == if (c, i) in s.held then s.pool.(free := [i] + s.pool.free) else s.pool
  {
    ReleaseIsExplained(s, c, i);
  }

  /** No other thread starts or stops waiting; a waiting thread only wakes or, when it applies, times out. */
  lemma OthersWaitOn(s: System, step: Step)
    ensures var s' := Next(s, step);
            && (forall c :: c != step.c ==> (c in s'.waiting <==> c in s.waiting))
            && (forall c :: c in s.waiting && c in s'.waiting ==> s'.waiting[c] == s.waiting[c])
            && (step.c in s.waiting && !step.Wake? && !step.Timeout? ==> s' == s)
            && (step.Timeout? ==>
                  && s'.pool == s.pool && s'.held == s.held
                  && (step.c in s'.waiting <==> step.c in s.waiting && s.waiting[step.c] != WantIndex))
  {
  }

  // ---- The class and the model ----

  predicate SizeFits(request: Request) {
    (request.WantResize? || request.WantLockAndResize?) ==> request.n < ENDING
  }

  predicate SizesFit(s: System, step: Step) {
    (forall c :: c in s.waiting ==> SizeFits(s.waiting[c])) && (step.Call? ==> SizeFits(step.request))
  }

  /** One pass of the operation that a thread has called, on the pool itself. */
  method Pass(p: IndexPool, s: System, c: Client, request: Request)
    requires p.Valid() && p.View() == s.pool && Sound(s.pool) && SizeFits(request)
    modifies p, p.cells
    ensures p.Valid() && p.View() == Attempt(s, c, request).pool
    ensures p.cells == old(p.cells) || p.cells == null || fresh(p.cells)
  {
    DistinctBelow(s.pool.free, s.pool.total);
    match request {
      case WantIndex =>
        var _, _ := p.ApplyPass();
      case WantResize(n) =>
        var free := p.AllFree();
        if free {
          var _ := p.ResizeWithoutLock(p.lockedAll, n);
        }
      case WantLock =>
      case WantLockAndResize(n) =>
        var free := p.AllFree();
        if free {
          var _ := p.ResizeWithoutLock(true, n);
        }
    }
  }

  /** A step on the pool itself: the object goes where the model goes. */
  method Perform(p: IndexPool, s: System, step: Step)
    requires p.Valid() && p.View() == s.pool && Sound(s.pool) && SizesFit(s, step)
    modifies p, p.cells
    ensures p.Valid() && p.View() == Next(s, step).pool
    ensures p.cells == old(p.cells) || p.cells == null || fresh(p.cells)
  {
    match step {
      case Call(c, request) =>
        if c !in s.waiting {
          if request.WantLock? {
            p.lockedAll := true;
          }
          Pass(p, if request.WantLock? then s.(pool := s.pool.(locked := true)) else s, c, request);
        }
      case Wake(c) =>
        if c in s.waiting {
          Pass(p, s.(waiting := s.waiting - {c}), c, s.waiting[c]);
        }
      case Timeout(c) =>
      case Release(c, i) =>
        if c !in s.waiting {
          p.Release(i);
        }
      case ReleaseAll(c) =>
        if c !in s.waiting {
          p.ReleaseAll();
        }
    }
  }

  /** A thread that comes back from lockAll found every index free. */
  lemma LockAllReturnsIdle(n: nat, steps: seq<Step>, c: Client)
    requires PermittedThroughout(Start(n), steps)
    requires var s := Run(Start(n), steps);
             c in s.waiting && s.waiting[c].WantLock? && c !in Next(s, Wake(c)).waiting
    ensures Next(Run(Start(n), steps), Wake(c)).held == {}
  {
    EveryRunIsSafe(n, steps);
  }

  /** One release that is not permitted, and two clients hold the index of a pool of one. */
  lemma ForeignReleaseIsUnsafe()
    ensures var steps := [Call(0, WantIndex), Release(1, 0), Call(1, WantIndex)];
            var s := Run(Start(1), steps);
            (0, 0) in s.held && (1, 0) in s.held && !PermittedThroughout(Start(1), steps)
  {
    assert Upto(1) == [0];
    var steps := [Call(0, WantIndex), Release(1, 0), Call(1, WantIndex)];
    assert steps[..2] == [Call(0, WantIndex), Release(1, 0)];
    assert steps[..2][..1] == [Call(0, WantIndex)] && steps[..2][..1][..0] == [];
    var s0 := Start(1);
    var s1 := Next(s0, steps[0]);
    assert Run(s0, steps[..2][..1][..0]) == s0 && Run(s0, steps[..2][..1]) == s1;
    assert s1.pool.free == [] && s1.held == {(0, 0)} && (0, 0) in s1.held;
    var s2 := Next(s1, steps[1]);
    assert Run(s0, steps[..2]) == s2 && s2.pool.free == [0] && s2.held == {(0, 0)};
    assert Run(s0, steps) == Next(s2, steps[2]);
    assert !Permitted(s1, steps[1]);
    assert !PermittedThroughout(s0, steps[..2]);
  }
}
