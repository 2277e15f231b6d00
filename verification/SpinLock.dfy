/** The re-entrant spin lock, as threads taking atomic steps in any order.

  A compare-and-swap is one step. `++count` and `--count` on the plain counter are two steps each, a
  load and a store, so that what another thread could do in between is part of the model. */
module SpinLock {
  /** marks the lock as free; no thread's id equals it */
  const FREE: nat := 0xFFFF_FFFF_FFFF_FFFF

  /** the counter has 32 bits */
  const WRAP: nat := 0x1_0000_0000

  type Word = n: nat | n < 4294967296

  datatype Option<+T> = None | Some(value: T)

  /** where a thread is in `try_lock` or `unlock`; `seen` is the owner that the first exchange met */
  datatype Pc = Idle | Second(seen: nat) | AddLoad | AddStore(v: nat) | SubStore(v: nat) | Release

  /** `depth` is how often a thread has acquired the lock and not yet released it; it is not part of the lock */
  datatype State = State(lock: nat, count: nat, pc: map<nat, Pc>, depth: map<nat, nat>)

  datatype Action =
    | TryFirst(t: nat)
    | TrySecond(t: nat)
    | LoadAdd(t: nat)
    | StoreAdd(t: nat)
    | LoadSub(t: nat)
    | StoreSub(t: nat)
    | StoreFree(t: nat)

  function PcOf(s: State, t: nat): Pc {
    if t in s.pc then s.pc[t] else Idle
  }

  function DepthOf(s: State, t: nat): nat {
    if t in s.depth then s.depth[t] else 0
  }

  function At(s: State, t: nat, pc: Pc): State {
    s.(pc := s.pc[t := pc])
  }

  const INIT := State(FREE, 0, map[], map[])

  /** a thread takes its own next step; only a holder unlocks */
  predicate Enabled(s: State, a: Action) {
    a.t != FREE &&
    match a
    case TryFirst(t) => PcOf(s, t).Idle?
    case TrySecond(t) => PcOf(s, t).Second?
    case LoadAdd(t) => PcOf(s, t).AddLoad?
    case StoreAdd(t) => PcOf(s, t).AddStore?
    case LoadSub(t) => PcOf(s, t).Idle? && DepthOf(s, t) > 0
    case StoreSub(t) => PcOf(s, t).SubStore? && DepthOf(s, t) > 0
    case StoreFree(t) => PcOf(s, t).Release?
  }

  function Step(s: State, a: Action): State
    requires Enabled(s, a)
  {
    match a
    case TryFirst(t) => if s.lock == FREE then At(s.(lock := t), t, AddLoad) else At(s, t, Second(s.lock))
    case TrySecond(t) => if s.lock == t then At(s, t, AddLoad) else At(s, t, Idle)
    case LoadAdd(t) => At(s, t, AddStore(s.count))
    case StoreAdd(t) => At(s.(count := (PcOf(s, t).v + 1) % WRAP, depth := s.depth[t := DepthOf(s, t) + 1]), t, Idle)
    case LoadSub(t) => At(s, t, SubStore(s.count))
    case StoreSub(t) =>
      var c := (PcOf(s, t).v + WRAP - 1) % WRAP;
      At(s.(count := c, depth := s.depth[t := DepthOf(s, t) - 1]), t, if c == 0 then Release else Idle)
    case StoreFree(t) => At(s.(lock := FREE), t, Idle)
  }

  /** the state after a run, if every step of it was possible */
  function After(run: seq<Action>): Option<State> {
    if run == [] then Some(INIT)
    else
      var s, a := After(run[..|run| - 1]), run[|run| - 1];
      if s.Some? && Enabled(s.value, a) then Some(Step(s.value, a)) else None
  }

  /** the step does not take the counter to zero while acquisitions are left: no unlock at a depth
      above 1 that is one more than a multiple of 2^32 */
  predicate Safe(s: State, a: Action) {
    a.StoreSub? && DepthOf(s, a.t) > 1 ==> (DepthOf(s, a.t) - 1) % WRAP != 0
  }

  predicate Guarded(run: seq<Action>) {
    run != [] ==>
      var s := After(run[..|run| - 1]);
      Guarded(run[..|run| - 1]) && (s.Some? ==> Safe(s.value, run[|run| - 1]))
  }

  // ---- what every step keeps ------------------------------------------------------------------------------

  /** t is between acquiring and releasing the lock, or in the last step of either */
  predicate Inside(s: State, t: nat) {
    DepthOf(s, t) > 0 || PcOf(s, t).AddLoad? || PcOf(s, t).AddStore? || PcOf(s, t).SubStore? || PcOf(s, t).Release?
  }

  /** the counter as its owner left it */
  predicate Counts(s: State, t: nat) {
    var d := DepthOf(s, t);
    s.count == d % WRAP &&
    match PcOf(s, t)
    case Idle => d > 0
    case Second(_) => d > 0
    case AddLoad => true
    case AddStore(v) => v == s.count
    case SubStore(v) => d > 0 && v == s.count
    case Release => d == 0
  }

  /** a thread whose first exchange met its own id still owns the lock */
  predicate Looked(s: State, t: nat) {
    PcOf(s, t).Second? ==> PcOf(s, t).seen != FREE && (PcOf(s, t).seen == t ==> s.lock == t)
  }

  ghost predicate Inv(s: State) {
    && (forall t {:trigger Inside(s, t)} :: Inside(s, t) ==> s.lock == t && t != FREE)
    && (s.lock != FREE ==> Inside(s, s.lock) && Counts(s, s.lock))
    && (s.lock == FREE ==> s.count == 0)
    && forall t {:trigger Looked(s, t)} :: Looked(s, t)
  }

  lemma Others(s: State, a: Action, t: nat)
    requires Enabled(s, a) && t != a.t
    ensures Inside(Step(s, a), t) == Inside(s, t) && PcOf(Step(s, a), t) == PcOf(s, t)
            && DepthOf(Step(s, a), t) == DepthOf(s, t)
  {
  }

  lemma OwnerCounts(s: State, a: Action)
    requires Inv(s) && Enabled(s, a) && Safe(s, a)
    ensures var s' := Step(s, a);
            && (Inside(s', a.t) ==> s'.lock == a.t && Counts(s', a.t))
            && (s'.lock == a.t ==> Inside(s', a.t))
            && (s'.lock == FREE ==> s'.count == 0)
            && Looked(s', a.t)
            && (s'.lock == s.lock || (s.lock == FREE && s'.lock == a.t) || (s.lock == a.t && s'.lock == FREE))
            && (s'.count != s.count ==> s.lock == a.t)
  {
    assert Inside(s, a.t) || !Inside(s, a.t);
    assert Looked(s, a.t);
    if a.StoreSub? {
      PrevCount(DepthOf(s, a.t));
    } else if a.StoreAdd? {
      NextCount(DepthOf(s, a.t));
    }
  }

  lemma NextCount(n: nat)
    ensures (n % WRAP + 1) % WRAP == (n + 1) % WRAP
  {
  }

  lemma PrevCount(n: nat)
    requires n > 0
    ensures (n % WRAP + WRAP - 1) % WRAP == (n - 1) % WRAP
  {
  }

  /** Every safe step keeps the invariant, at any depth; only the owner changes the counter. */
  lemma StepKeeps(s: State, a: Action)
    requires Inv(s) && Enabled(s, a) && Safe(s, a)
    ensures Inv(Step(s, a))
    ensures Step(s, a).count != s.count ==> s.lock == a.t
  {
    var s' := Step(s, a);
    OwnerCounts(s, a);
    forall t ensures (Inside(s', t) ==> s'.lock == t && t != FREE) && Looked(s', t) {
      if t != a.t {
        Others(s, a, t);
        assert Looked(s, t) && (Inside(s, t) || !Inside(s, t));
      }
    }
    if s'.lock != FREE && s'.lock != a.t {
      Others(s, a, s'.lock);
    }
  }

  lemma {:induction false} RunKeeps(run: seq<Action>)
    requires After(run).Some? && Guarded(run)
    ensures Inv(After(run).value)
  {
    if run != [] {
      RunKeeps(run[..|run| - 1]);
      StepKeeps(After(run[..|run| - 1]).value, run[|run| - 1]);
    }
  }

  /** In every interleaving: at most one thread is inside; between its own operations the counter is its
      nesting depth modulo 2^32; the lock is free exactly when nobody is inside. */
  lemma MutualExclusion(run: seq<Action>, t: nat, u: nat)
    requires After(run).Some? && Guarded(run)
    ensures var s := After(run).value;
            && (Inside(s, t) && Inside(s, u) ==> t == u)
            && (DepthOf(s, t) > 0 && PcOf(s, t).Idle? ==> s.lock == t && s.count == DepthOf(s, t) % WRAP)
            && (s.lock == FREE <==> forall w :: !Inside(s, w))
  {
    RunKeeps(run);
    var s := After(run).value;
    assert Inside(s, t) || !Inside(s, t);
    assert s.lock == FREE ==> forall w :: !Inside(s, w);
  }

  /** A failed attempt was right at the moment of its first exchange: another thread had the lock. */
  lemma FailedTry(run: seq<Action>, t: nat)
    requires After(run).Some? && Guarded(run) && PcOf(After(run).value, t).Second? && After(run).value.lock != t
    ensures PcOf(After(run).value, t).seen != t && PcOf(After(run).value, t).seen != FREE
  {
    RunKeeps(run);
    assert Looked(After(run).value, t);
  }

  /** a thread in the middle of an unlock has loaded its depth modulo 2^32 */
  lemma LoadedDepth(s: State, t: nat)
    requires Inv(s) && Enabled(s, StoreSub(t))
    ensures PcOf(s, t).v == DepthOf(s, t) % WRAP
  {
    assert Inside(s, t);
  }

  /** After any guarded run, an unlock sets out to free the lock exactly when it leaves a depth that is
      a multiple of 2^32; the run stays guarded exactly when that depth is zero or the lock is kept. */
  lemma UnlockFrees(run: seq<Action>, t: nat)
    requires After(run).Some? && Guarded(run) && Enabled(After(run).value, StoreSub(t))
    ensures var s, s' := After(run).value, Step(After(run).value, StoreSub(t));
            && DepthOf(s', t) == DepthOf(s, t) - 1
            && (PcOf(s', t).Release? <==> (DepthOf(s, t) - 1) % WRAP == 0)
            && (Safe(s, StoreSub(t)) <==> (PcOf(s', t).Release? ==> DepthOf(s', t) == 0))
  {
    hide After, Guarded, Inv;
    RunKeeps(run);
    LoadedDepth(After(run).value, t);
    PrevCount(DepthOf(After(run).value, t));
  }

  // ---- when the lock is right --------------------------------------------------------------------------------

  /** what a user relies on about one thread: it is inside exactly when it owns the lock, the counter is
      its depth modulo 2^32 between its operations, and it frees the lock only when nothing is left to undo */
  predicate RightFor(s: State, t: nat) {
    && (Inside(s, t) <==> s.lock == t && t != FREE)
    && (DepthOf(s, t) > 0 && PcOf(s, t).Idle? ==> s.count == DepthOf(s, t) % WRAP)
    && (PcOf(s, t).Release? ==> DepthOf(s, t) == 0)
  }

  ghost predicate Right(s: State) {
    forall t {:trigger RightFor(s, t)} :: RightFor(s, t)
  }

  /** the lock is right after every step of the run */
  ghost predicate AlwaysRight(run: seq<Action>) {
    && (After(run).Some? ==> Right(After(run).value))
    && (run != [] ==> AlwaysRight(run[..|run| - 1]))
  }

  lemma InvRight(s: State)
    requires Inv(s)
    ensures Right(s)
  {
    forall t ensures RightFor(s, t) {
      assert Inside(s, t) || !Inside(s, t);
    }
  }

  /** In every interleaving the lock is right at all times if and only if the run is guarded. */
  lemma {:induction false} RightExactly(run: seq<Action>)
    requires After(run).Some?
    ensures AlwaysRight(run) <==> Guarded(run)
  {
    hide Step, Inv, Right, Safe;
    if run == [] {
      RunKeeps(run);
      InvRight(After(run).value);
    } else {
      var init, a := run[..|run| - 1], run[|run| - 1];
      RightExactly(init);
      if Guarded(run) {
        RunKeeps(run);
        InvRight(After(run).value);
      } else if Guarded(init) {
        UnsafeIsWrong(init, a);
      }
    }
  }

  lemma UnsafeIsWrong(run: seq<Action>, a: Action)
    requires After(run).Some? && Guarded(run) && Enabled(After(run).value, a) && !Safe(After(run).value, a)
    ensures !Right(Step(After(run).value, a))
  {
    UnlockFrees(run, a.t);
    assert !RightFor(Step(After(run).value, a), a.t);
  }

  /** no thread ever holds the lock more than n times during the run */
  ghost predicate NeverDeeper(run: seq<Action>, n: nat) {
    && (After(run).Some? ==> forall t :: DepthOf(After(run).value, t) <= n)
    && (run != [] ==> NeverDeeper(run[..|run| - 1], n))
  }

  /** Up to 2^32 nested acquisitions the lock is right, whatever the interleaving. */
  lemma RightUpTo32Bits(run: seq<Action>)
    requires After(run).Some? && NeverDeeper(run, 4294967296)
    ensures AlwaysRight(run)
  {
    NotTooDeep(run);
    RightExactly(run);
  }

  lemma {:induction false} NotTooDeep(run: seq<Action>)
    requires After(run).Some? && NeverDeeper(run, 4294967296)
    ensures Guarded(run)
  {
    if run != [] {
      NotTooDeep(run[..|run| - 1]);
      var d := DepthOf(After(run[..|run| - 1]).value, run[|run| - 1].t);
      assert d <= 4294967296;
    }
  }

  // ---- when the counter wraps ----------------------------------------------------------------------------------

  /** the steps of one acquisition by a thread that finds the lock free, or has it already */
  function AcquireSteps(t: nat, first: bool): seq<Action> {
    if first then [TryFirst(t), LoadAdd(t), StoreAdd(t)] else [TryFirst(t), TrySecond(t), LoadAdd(t), StoreAdd(t)]
  }

  /** one thread acquiring the lock n times */
  function Nest(t: nat, n: nat): seq<Action> {
    if n == 0 then [] else Nest(t, n - 1) + AcquireSteps(t, n == 1)
  }

  lemma {:induction false} AfterAppend(run: seq<Action>, a: Action)
    ensures var s := After(run);
            After(run + [a]) == if s.Some? && Enabled(s.value, a) then Some(Step(s.value, a)) else None
  {
    assert (run + [a])[..|run|] == run;
  }

  /** t holds the lock n times, and every thread is at rest */
  ghost predicate Held(s: State, t: nat, n: nat) {
    && s.count == n % WRAP && DepthOf(s, t) == n && s.lock == (if n == 0 then FREE else t)
    && forall u {:trigger PcOf(s, u)} :: PcOf(s, u) == Idle
  }

  /** the steps of one more acquisition by a thread that has the lock, or finds it free */
  function Acquired(s: State, t: nat): State
    requires t != FREE && PcOf(s, t).Idle? && (s.lock == FREE || s.lock == t)
  {
    var s1 := Step(s, TryFirst(t));
    var s2 := if s.lock == FREE then s1 else Step(s1, TrySecond(t));
    var s3 := Step(s2, LoadAdd(t));
    Step(s3, StoreAdd(t))
  }

  lemma AcquiredHolds(s: State, t: nat, n: nat)
    requires t != FREE && Held(s, t, n)
    ensures PcOf(s, t).Idle? && (s.lock == FREE <==> n == 0) && Held(Acquired(s, t), t, n + 1)
  {
    NextCount(n);
    var s' := Acquired(s, t);
    forall u ensures PcOf(s', u) == Idle {
      assert PcOf(s, u) == Idle;
    }
  }

  /** appending those steps to a run */
  lemma AcquiredRun(run: seq<Action>, t: nat)
    requires t != FREE && After(run).Some?
    requires var s := After(run).value; PcOf(s, t).Idle? && (s.lock == FREE || s.lock == t)
    ensures var s := After(run).value;
            After(run + AcquireSteps(t, s.lock == FREE)) == Some(Acquired(s, t))
  {
    var s := After(run).value;
    AfterAppend(run, TryFirst(t));
    var r1 := run + [TryFirst(t)];
    AfterAppend(r1, TrySecond(t));
    var r2 := if s.lock == FREE then r1 else r1 + [TrySecond(t)];
    AfterAppend(r2, LoadAdd(t));
    AfterAppend(r2 + [LoadAdd(t)], StoreAdd(t));
    assert run + AcquireSteps(t, s.lock == FREE) == r2 + [LoadAdd(t)] + [StoreAdd(t)];
  }

  lemma {:induction false} NestHolds(t: nat, n: nat)
    requires t != FREE
    ensures After(Nest(t, n)).Some? && Held(After(Nest(t, n)).value, t, n)
  {
    hide After, Step, Acquired;
    if n == 0 {
      StartHeld(t);
    } else {
      NestHolds(t, n - 1);
      AcquiredHolds(After(Nest(t, n - 1)).value, t, n - 1);
      AcquiredRun(Nest(t, n - 1), t);
    }
  }

  lemma StartHeld(t: nat)
    ensures After([]).Some? && Held(After([]).value, t, 0)
  {
  }

  /** both threads are inside after the run */
  predicate BothInside(run: seq<Action>, t: nat, u: nat) {
    After(run).Some? && Inside(After(run).value, t) && Inside(After(run).value, u)
  }

  /** Wherever a guarded run comes to an unlock that is not safe, the unlock frees the lock under its
      holder, and any thread at rest can then enter beside it. */
  lemma WrapLetsIn(run: seq<Action>, t: nat, u: nat)
    requires After(run).Some? && Guarded(run)
    requires Enabled(After(run).value, StoreSub(t)) && !Safe(After(run).value, StoreSub(t))
    requires u != t && u != FREE && PcOf(After(run).value, u).Idle?
    ensures BothInside(run + [StoreSub(t)] + [StoreFree(t)] + [TryFirst(u)], t, u)
  {
    hide After, Guarded;
    UnlockFrees(run, t);
    AfterAppend(run, StoreSub(t));
    AfterAppend(run + [StoreSub(t)], StoreFree(t));
    AfterAppend(run + [StoreSub(t)] + [StoreFree(t)], TryFirst(u));
  }

  /** After n acquisitions by one thread, an unlock frees the lock exactly when n - 1 is a multiple of 2^32. */
  lemma UnlockAfter(t: nat, n: nat)
    requires t != FREE && n > 0
    ensures var s := After(Nest(t, n) + [LoadSub(t)] + [StoreSub(t)]);
            s.Some? && DepthOf(s.value, t) == n - 1 && (PcOf(s.value, t).Release? <==> (n - 1) % WRAP == 0)
  {
    hide After, Nest, Guarded;
    var run := Nest(t, n) + [LoadSub(t)];
    NestHolds(t, n);
    NestGuarded(t, n);
    assert PcOf(After(Nest(t, n)).value, t) == Idle;
    AfterAppend(Nest(t, n), LoadSub(t));
    GuardedAppend(Nest(t, n), LoadSub(t));
    UnlockFrees(run, t);
    AfterAppend(run, StoreSub(t));
  }

  lemma {:induction false} NestGuarded(t: nat, n: nat)
    ensures Guarded(Nest(t, n))
  {
    if n > 0 {
      NestGuarded(t, n - 1);
      var r := Nest(t, n - 1);
      GuardedAppend(r, TryFirst(t));
      var r1 := r + [TryFirst(t)];
      GuardedAppend(r1, TrySecond(t));
      var r2 := if n == 1 then r1 else r1 + [TrySecond(t)];
      GuardedAppend(r2, LoadAdd(t));
      GuardedAppend(r2 + [LoadAdd(t)], StoreAdd(t));
      assert Nest(t, n) == r2 + [LoadAdd(t)] + [StoreAdd(t)];
    }
  }

  lemma GuardedAppend(run: seq<Action>, a: Action)
    requires Guarded(run) && (After(run).Some? ==> Safe(After(run).value, a))
    ensures Guarded(run + [a])
  {
    assert (run + [a])[..|run|] == run;
  }

  /** Such a run exists: a thread that has nested to 2^32 + 1 and unlocks once lets another one in. */
  lemma WrapReached(t: nat, u: nat)
    requires t != FREE && u != FREE && t != u
    ensures var run := Nest(t, WRAP + 1) + [LoadSub(t)];
            && After(run).Some? && Guarded(run) && Enabled(After(run).value, StoreSub(t))
            && !Safe(After(run).value, StoreSub(t))
            && BothInside(run + [StoreSub(t)] + [StoreFree(t)] + [TryFirst(u)], t, u)
  {
    hide After, Nest, Guarded, BothInside;
    var n, run := WRAP + 1, Nest(t, WRAP + 1) + [LoadSub(t)];
    NestHolds(t, n);
    NestGuarded(t, n);
    var s := After(Nest(t, n)).value;
    assert PcOf(s, t) == Idle && PcOf(s, u) == Idle;
    AfterAppend(Nest(t, n), LoadSub(t));
    GuardedAppend(Nest(t, n), LoadSub(t));
    WrapLetsIn(run, t, u);
  }

  // ---- the lock object -------------------------------------------------------------------------------------------

  /** the steps of one unlock by a thread that has the lock */
  function Unlocked(s: State, t: nat): State
    requires t != FREE && PcOf(s, t).Idle? && DepthOf(s, t) > 0
  {
    var s2 := Step(Step(s, LoadSub(t)), StoreSub(t));
    if PcOf(s2, t).Release? then Step(s2, StoreFree(t)) else s2
  }

  /** The lock object itself, with one thread's call running undisturbed: what a call does to its two
      fields is what that thread's steps do. */
  class RecursiveSpinLock {
    var owner: nat
    var count: Word

    constructor ()
      ensures owner == INIT.lock && count == INIT.count
      ensures owner == 0xFFFF_FFFF_FFFF_FFFF && count == 0
    {
      owner, count := FREE, 0;
    }

    /** swaps in `desired` if the owner is `expected` */
    method CompareExchange(expected: nat, desired: nat) returns (ok: bool)
      modifies this`owner
      ensures ok == (old(owner) == expected) && owner == if ok then desired else old(owner)
    {
      ok := owner == expected;
      if ok {
        owner := desired;
      }
    }

    method TryLock(id: nat, ghost s: State) returns (ok: bool)
      requires id != FREE && s.lock == owner && s.count == count && PcOf(s, id).Idle?
      modifies this
      ensures ok == (old(owner) == 0xFFFF_FFFF_FFFF_FFFF || old(owner) == id)
      ensures ok ==> owner == id && count == if old(count) == 4294967295 then 0 else old(count) + 1
      ensures if ok then owner == Acquired(s, id).lock && count == Acquired(s, id).count
              else owner == old(owner) && count == old(count)
    {
      ok := CompareExchange(FREE, id);
      if !ok {
        ok := CompareExchange(id, id);
      }
      if ok {
        count := (count + 1) % WRAP;
      }
    }

    method Unlock(ghost id: nat, ghost s: State)
      requires id != FREE && s.lock == owner && s.count == count && PcOf(s, id).Idle? && DepthOf(s, id) > 0
      modifies this
      ensures count == if old(count) == 0 then 4294967295 else old(count) - 1
      ensures owner == if old(count) == 1 then 0xFFFF_FFFF_FFFF_FFFF else old(owner)
      ensures owner == Unlocked(s, id).lock && count == Unlocked(s, id).count
    {
      count := (count + WRAP - 1) % WRAP;
      if count == 0 {
        owner := FREE;
      }
    }
  }
}
