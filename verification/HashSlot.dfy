/** The leaf buckets of the hash map under concurrency: threads that load and compare-and-swap slots.

  A slot holds 0 or the address of a value. Addresses may be used again once their value has been
  deleted, so a slot may return to an address that a slow thread has loaded before. */
module HashSlot {
  /** a thread between its load and its exchange, with the moment of the load */
  datatype Pc = Idle | Inserting(a: nat, start: nat) | Removing(v: nat, start: nat)

  datatype Kind = Insert | Remove | Exists

  /** a call that has returned: what it returned, and the moments at which it started and ended */
  datatype Call = Call(t: nat, kind: Kind, ok: bool, start: nat, end: nat)

  /** One slot: `hist[m]` is what it holds at moment m, every step being one moment. */
  datatype Slot = Slot(hist: seq<nat>, pc: map<nat, Pc>, calls: seq<Call>)

  datatype Action =
    | InsertLoad(t: nat, a: nat)
    | InsertSwap(t: nat)
    | RemoveLoad(t: nat)
    | RemoveSwap(t: nat)
    | ExistsLoad(t: nat)

  const EMPTY := Slot([0], map[], [])

  function PcOf(s: Slot, t: nat): Pc {
    if t in s.pc then s.pc[t] else Idle
  }

  function Now(s: Slot): nat
    requires s.hist != []
  {
    |s.hist| - 1
  }

  function Holds(s: Slot): nat
    requires s.hist != []
  {
    s.hist[|s.hist| - 1]
  }

  /** the slot holds v from the next moment on, and t has come to pc */
  function Next(s: Slot, v: nat, t: nat, pc: Pc): Slot {
    s.(hist := s.hist + [v], pc := s.pc[t := pc])
  }

  /** the same, and t's call returns at that moment */
  function Return(s: Slot, v: nat, t: nat, kind: Kind, ok: bool, start: nat): Slot {
    Next(s, v, t, Idle).(calls := s.calls + [Call(t, kind, ok, start, |s.hist|)])
  }

  /** a thread takes its own next step; a new value's address is not 0 */
  predicate Enabled(s: Slot, a: Action) {
    s.hist != [] &&
    match a
    case InsertLoad(t, p) => PcOf(s, t).Idle? && p != 0
    case InsertSwap(t) => PcOf(s, t).Inserting?
    case RemoveLoad(t) => PcOf(s, t).Idle?
    case RemoveSwap(t) => PcOf(s, t).Removing?
    case ExistsLoad(t) => PcOf(s, t).Idle?
  }

  function Step(s: Slot, a: Action): Slot
    requires Enabled(s, a)
  {
    var v := Holds(s);
    match a
    case InsertLoad(t, p) => if v != 0 then Return(s, v, t, Insert, false, Now(s))
      else Next(s, v, t, Inserting(p, Now(s)))
    case InsertSwap(t) =>
      var pc := PcOf(s, t);
      if v == 0 then Return(s, pc.a, t, Insert, true, pc.start) else Return(s, v, t, Insert, false, pc.start)
    case RemoveLoad(t) => if v == 0 then Return(s, v, t, Remove, false, Now(s)) else Next(s, v, t, Removing(v, Now(s)))
    case RemoveSwap(t) =>
      var pc := PcOf(s, t);
      if v == pc.v then Return(s, 0, t, Remove, true, pc.start) else Return(s, v, t, Remove, false, pc.start)
    case ExistsLoad(t) => Return(s, v, t, Exists, v != 0, Now(s))
  }

  // ---- what every step keeps --------------------------------------------------------------------------------

  /** from one moment to the next a slot stays as it is, or is filled, or is emptied */
  predicate Moves(hist: seq<nat>, m: nat)
    requires m + 1 < |hist|
  {
    hist[m + 1] == hist[m] || hist[m] == 0 || hist[m + 1] == 0
  }

  /** `steps[m]` is the step taken at moment m. A thread in the middle of a call did take the call's first
      step, with the address that it is about to store, or on the address that it is about to remove. */
  predicate Pending(s: Slot, steps: seq<Action>, t: nat)
    requires |s.hist| == |steps| + 1
  {
    match PcOf(s, t)
    case Idle => true
    case Inserting(a, start) => start < |steps| && steps[start] == InsertLoad(t, a) && a != 0 && s.hist[start] == 0
    case Removing(v, start) => start < |steps| && steps[start] == RemoveLoad(t) && v != 0 && s.hist[start] == v
  }

  ghost predicate SomeTime(hist: seq<nat>, start: nat, end: nat, empty: bool) {
    exists m {:trigger hist[m]} :: start <= m <= end && m < |hist| && (hist[m] == 0) == empty
  }

  /** A returned call was right. A successful insert found the slot empty in its last step and left in it the
      address that its first step brought; a successful remove emptied it of what its first step had found; any
      other result was what the slot showed at some moment during the call. */
  ghost predicate Right(hist: seq<nat>, steps: seq<Action>, c: Call) {
    && c.start < c.end < |hist| == |steps| + 1
    && match c.kind
       case Insert =>
         && steps[c.start].InsertLoad? && steps[c.start].t == c.t
         && if c.ok then
              steps[c.end - 1] == InsertSwap(c.t) && hist[c.end - 1] == 0 && hist[c.end] == steps[c.start].a != 0
            else SomeTime(hist, c.start, c.end, false)
       case Remove =>
         && steps[c.start] == RemoveLoad(c.t)
         && if c.ok then
              steps[c.end - 1] == RemoveSwap(c.t) && hist[c.end - 1] == hist[c.start] != 0 && hist[c.end] == 0
            else SomeTime(hist, c.start, c.end, true)
       case Exists =>
         steps[c.start] == ExistsLoad(c.t) && c.end == c.start + 1 && c.ok == (hist[c.start] != 0)
  }

  /** a call returns with this step, on a slot that holds v */
  predicate Returns(a: Action, v: nat) {
    match a
    case InsertLoad(_, _) => v != 0
    case RemoveLoad(_) => v == 0
    case _ => true
  }

  /** One call returns at moment m + 1 exactly when step m is one that ends a call, and the slot changes
      only when the call that returns is a success. */
  ghost predicate Accounted(s: Slot, steps: seq<Action>, m: nat)
    requires m < |steps| && |s.hist| == |steps| + 1
  {
    && (Returns(steps[m], s.hist[m]) <==>
        exists i {:trigger s.calls[i]} :: 0 <= i < |s.calls| && s.calls[i].end == m + 1)
    && (s.hist[m + 1] != s.hist[m] ==> ChangedBy(s, m + 1, if s.hist[m] == 0 then Insert else Remove))
  }

  /** a successful call of this kind returned at moment m */
  ghost predicate ChangedBy(s: Slot, m: nat, kind: Kind) {
    exists i {:trigger s.calls[i]} ::
      0 <= i < |s.calls| && s.calls[i].end == m && s.calls[i].ok && s.calls[i].kind == kind
  }

  /** the calls that changed the slot, in order */
  function Changes(calls: seq<Call>): seq<Kind> {
    if calls == [] then []
    else
      var c := calls[|calls| - 1];
      Changes(calls[..|calls| - 1]) + (if c.ok && c.kind != Exists then [c.kind] else [])
  }

  /** inserts and removes take turns, beginning with an insert */
  predicate Alternate(kinds: seq<Kind>) {
    forall i :: 0 <= i < |kinds| ==> kinds[i] == if i % 2 == 0 then Insert else Remove
  }

  ghost predicate Inv(s: Slot, steps: seq<Action>) {
    && |s.hist| == |steps| + 1
    && (forall m {:trigger Moves(s.hist, m)} :: 0 <= m < |s.hist| - 1 ==> Moves(s.hist, m))
    && (forall t {:trigger Pending(s, steps, t)} :: Pending(s, steps, t))
    && (forall i {:trigger Right(s.hist, steps, s.calls[i])} :: 0 <= i < |s.calls| ==> Right(s.hist, steps, s.calls[i]))
    && (forall m {:trigger Accounted(s, steps, m)} :: 0 <= m < |steps| ==> Accounted(s, steps, m))
    && Alternate(Changes(s.calls))
    && (Holds(s) == 0 <==> |Changes(s.calls)| % 2 == 0)
  }

  /** A slot that held v and later does not has been empty in between. */
  lemma {:induction false} EmptiedBetween(hist: seq<nat>, i: nat, j: nat)
    requires i <= j < |hist| && hist[i] != 0 && hist[j] != hist[i]
    requires forall m {:trigger Moves(hist, m)} :: 0 <= m < |hist| - 1 ==> Moves(hist, m)
    ensures SomeTime(hist, i, j, true)
  {
    if hist[j] != 0 {
      assert Moves(hist, j - 1);
      if hist[j - 1] == 0 {
        assert hist[j - 1] == 0;
      } else {
        EmptiedBetween(hist, i, j - 1);
        var m :| i <= m <= j - 1 && m < |hist| && hist[m] == 0;
      }
    }
  }

  lemma RightLater(hist: seq<nat>, v: nat, steps: seq<Action>, a: Action, c: Call)
    requires Right(hist, steps, c)
    ensures Right(hist + [v], steps + [a], c)
  {
    var h, l := hist + [v], steps + [a];
    assert forall m :: 0 <= m < |hist| ==> h[m] == hist[m];
    assert forall m :: 0 <= m < |steps| ==> l[m] == steps[m];
  }

  lemma MovesLater(hist: seq<nat>, v: nat)
    requires hist != [] && (v == hist[|hist| - 1] || v == 0 || hist[|hist| - 1] == 0)
    requires forall m {:trigger Moves(hist, m)} :: 0 <= m < |hist| - 1 ==> Moves(hist, m)
    ensures forall m {:trigger Moves(hist + [v], m)} :: 0 <= m < |hist + [v]| - 1 ==> Moves(hist + [v], m)
  {
    var h := hist + [v];
    forall m | 0 <= m < |h| - 1 ensures Moves(h, m) {
      if m < |hist| - 1 {
        assert Moves(hist, m);
      }
    }
  }

  lemma OneMoreCall(calls: seq<Call>, c: Call)
    ensures Changes(calls + [c]) == Changes(calls) + (if c.ok && c.kind != Exists then [c.kind] else [])
  {
    assert (calls + [c])[..|calls|] == calls;
  }

  /** what was accounted for stays so: calls are only added, and they end later */
  lemma AccountedLater(s: Slot, s': Slot, steps: seq<Action>, a: Action, m: nat)
    requires m < |steps| && |s.hist| == |steps| + 1 && Accounted(s, steps, m)
    requires s'.hist != [] && s'.hist == s.hist + [Holds(s')] && s.calls <= s'.calls
    requires forall i :: |s.calls| <= i < |s'.calls| ==> s'.calls[i].end == |s.hist|
    ensures Accounted(s', steps + [a], m)
  {
    assert (steps + [a])[m] == steps[m] && s'.hist[m] == s.hist[m] && s'.hist[m + 1] == s.hist[m + 1];
    assert forall i :: 0 <= i < |s.calls| ==> s'.calls[i] == s.calls[i];
    if s.hist[m + 1] != s.hist[m] {
      var kind := if s.hist[m] == 0 then Insert else Remove;
      var i :| 0 <= i < |s.calls| && s.calls[i].end == m + 1 && s.calls[i].ok && s.calls[i].kind == kind;
      assert s'.calls[i] == s.calls[i];
    }
  }

  lemma PendingLater(s: Slot, v: nat, steps: seq<Action>, a: Action, t: nat, pc: Pc, u: nat)
    requires |s.hist| == |steps| + 1 && Pending(s, steps, u) && u != t
    ensures Pending(Next(s, v, t, pc), steps + [a], u)
  {
  }

  /** a step that only moves a thread along */
  lemma MoveKeeps(s: Slot, steps: seq<Action>, a: Action, t: nat, pc: Pc)
    requires Inv(s, steps) && !Returns(a, Holds(s)) && Pending(Next(s, Holds(s), t, pc), steps + [a], t)
    ensures Inv(Next(s, Holds(s), t, pc), steps + [a])
  {
    hide Pending, Right;
    var s', steps' := Next(s, Holds(s), t, pc), steps + [a];
    MovesLater(s.hist, Holds(s));
    forall u ensures Pending(s', steps', u) {
      if u != t {
        assert Pending(s, steps, u);
        PendingLater(s, Holds(s), steps, a, t, pc, u);
      }
    }
    forall i | 0 <= i < |s.calls| ensures Right(s'.hist, steps', s'.calls[i]) {
      assert Right(s.hist, steps, s.calls[i]);
      RightLater(s.hist, Holds(s), steps, a, s.calls[i]);
    }
    forall m | 0 <= m < |steps'| ensures Accounted(s', steps', m) {
      if m < |steps| {
        assert Accounted(s, steps, m);
        AccountedLater(s, s', steps, a, m);
      } else {
        NoneEnds(s, steps);
      }
    }
  }

  /** no call has ended after the last moment */
  lemma NoneEnds(s: Slot, steps: seq<Action>)
    requires Inv(s, steps)
    ensures forall i :: 0 <= i < |s.calls| ==> s.calls[i].end <= |steps|
  {
    forall i | 0 <= i < |s.calls| ensures s.calls[i].end <= |steps| {
      assert Right(s.hist, steps, s.calls[i]);
    }
  }

  /** a step with which a call returns */
  lemma ReturnKeeps(s: Slot, steps: seq<Action>, a: Action, v: nat, t: nat, kind: Kind, ok: bool, start: nat)
    requires Inv(s, steps) && Returns(a, Holds(s))
    requires Right(s.hist + [v], steps + [a], Call(t, kind, ok, start, |s.hist|))
    requires if ok && kind != Exists then (Holds(s) == 0) == (kind == Insert) && (v == 0) == (kind == Remove)
             else v == Holds(s)
    ensures Inv(Return(s, v, t, kind, ok, start), steps + [a])
  {
    hide Right, Alternate, Changes;
    var s', steps' := Return(s, v, t, kind, ok, start), steps + [a];
    var c := Call(t, kind, ok, start, |s.hist|);
    MovesLater(s.hist, v);
    forall u ensures Pending(s', steps', u) {
      assert Pending(s, steps, u);
      if u != t {
        PendingLater(s, v, steps, a, t, Idle, u);
      }
    }
    forall i | 0 <= i < |s'.calls| ensures Right(s'.hist, steps', s'.calls[i]) {
      if i < |s.calls| {
        assert Right(s.hist, steps, s.calls[i]);
        RightLater(s.hist, v, steps, a, s.calls[i]);
      }
    }
    forall m | 0 <= m < |steps'| ensures Accounted(s', steps', m) {
      if m < |steps| {
        assert Accounted(s, steps, m);
        AccountedLater(s, s', steps, a, m);
      } else {
        assert s'.calls[|s.calls|] == c && c.end == m + 1;
      }
    }
    TurnsKept(s, steps, v, c);
  }

  lemma TurnsKept(s: Slot, steps: seq<Action>, v: nat, c: Call)
    requires Inv(s, steps)
    requires if c.ok && c.kind != Exists then (Holds(s) == 0) == (c.kind == Insert) && (v == 0) == (c.kind == Remove)
             else v == Holds(s)
    ensures Alternate(Changes(s.calls + [c])) && (v == 0 <==> |Changes(s.calls + [c])| % 2 == 0)
  {
    hide Pending, Right, Accounted, Moves;
    OneMoreCall(s.calls, c);
  }

  lemma StepKeeps(s: Slot, steps: seq<Action>, a: Action)
    requires Inv(s, steps) && Enabled(s, a)
    ensures Inv(Step(s, a), steps + [a])
  {
    hide Inv;
    InvParts(s, steps, a.t);
    match a
    case InsertLoad(t, p) => InsertLoadKeeps(s, steps, t, p);
    case InsertSwap(t) => InsertSwapKeeps(s, steps, t);
    case RemoveLoad(t) => RemoveLoadKeeps(s, steps, t);
    case RemoveSwap(t) => RemoveSwapKeeps(s, steps, t);
    case ExistsLoad(t) => ExistsLoadKeeps(s, steps, t);
  }

  lemma InvParts(s: Slot, steps: seq<Action>, t: nat)
    requires Inv(s, steps)
    ensures |s.hist| == |steps| + 1 && Pending(s, steps, t)
  {
  }

  lemma InsertLoadKeeps(s: Slot, steps: seq<Action>, t: nat, p: nat)
    requires Inv(s, steps) && Enabled(s, InsertLoad(t, p))
    ensures Inv(Step(s, InsertLoad(t, p)), steps + [InsertLoad(t, p)])
  {
    hide Inv;
    InvParts(s, steps, t);
    var a, v, n := InsertLoad(t, p), Holds(s), |steps|;
    assert (steps + [a])[n] == a && (s.hist + [v])[n] == v;
    if v != 0 {
      ReturnKeeps(s, steps, a, v, t, Insert, false, n);
    } else {
      MoveKeeps(s, steps, a, t, Inserting(p, n));
    }
  }

  lemma InsertSwapKeeps(s: Slot, steps: seq<Action>, t: nat)
    requires Inv(s, steps) && Enabled(s, InsertSwap(t))
    ensures Inv(Step(s, InsertSwap(t)), steps + [InsertSwap(t)])
  {
    hide Inv;
    InvParts(s, steps, t);
    var a, v, n, pc := InsertSwap(t), Holds(s), |steps|, PcOf(s, t);
    var w := if v == 0 then pc.a else v;
    assert (steps + [a])[n] == a && (s.hist + [w])[n] == v && (s.hist + [w])[n + 1] == w;
    ReturnKeeps(s, steps, a, w, t, Insert, v == 0, pc.start);
  }

  lemma RemoveLoadKeeps(s: Slot, steps: seq<Action>, t: nat)
    requires Inv(s, steps) && Enabled(s, RemoveLoad(t))
    ensures Inv(Step(s, RemoveLoad(t)), steps + [RemoveLoad(t)])
  {
    hide Inv;
    InvParts(s, steps, t);
    var a, v, n := RemoveLoad(t), Holds(s), |steps|;
    assert (steps + [a])[n] == a && (s.hist + [v])[n] == v;
    if v == 0 {
      ReturnKeeps(s, steps, a, v, t, Remove, false, n);
    } else {
      MoveKeeps(s, steps, a, t, Removing(v, n));
    }
  }

  lemma RemoveSwapKeeps(s: Slot, steps: seq<Action>, t: nat)
    requires Inv(s, steps) && Enabled(s, RemoveSwap(t))
    ensures Inv(Step(s, RemoveSwap(t)), steps + [RemoveSwap(t)])
  {
    var a, v, n, pc := RemoveSwap(t), Holds(s), |steps|, PcOf(s, t);
    assert Pending(s, steps, t);
    assert (steps + [a])[n] == a;
    if v == pc.v {
      ReturnKeeps(s, steps, a, 0, t, Remove, true, pc.start);
    } else {
      EmptiedBetween(s.hist, pc.start, n);
      var m :| pc.start <= m <= n && m < |s.hist| && s.hist[m] == 0;
      assert (s.hist + [v])[m] == 0;
      ReturnKeeps(s, steps, a, v, t, Remove, false, pc.start);
    }
  }

  lemma ExistsLoadKeeps(s: Slot, steps: seq<Action>, t: nat)
    requires Inv(s, steps) && Enabled(s, ExistsLoad(t))
    ensures Inv(Step(s, ExistsLoad(t)), steps + [ExistsLoad(t)])
  {
    hide Inv;
    InvParts(s, steps, t);
    var a, v, n := ExistsLoad(t), Holds(s), |steps|;
    assert (steps + [a])[n] == a && (s.hist + [v])[n] == v;
    ReturnKeeps(s, steps, a, v, t, Exists, v != 0, n);
  }

  // ---- whole leaf buckets ---------------------------------------------------------------------------------------

  const NIBBLES: nat := 16

  /** one step on the slot that a key leads to */
  datatype Access = Access(key: nat, action: Action)

  /** the sixteen slots after a run, if every step of it was possible */
  function After(run: seq<Access>): (slots: seq<Slot>)
    requires Possible(run)
    ensures |slots| == NIBBLES
    decreases |run|, 1
  {
    if run == [] then seq(NIBBLES, i => EMPTY)
    else
      var x, slots := run[|run| - 1], After(run[..|run| - 1]);
      slots[x.key % NIBBLES := Step(slots[x.key % NIBBLES], x.action)]
  }

  predicate Possible(run: seq<Access>)
    decreases |run|, 0
  {
    run != [] ==>
      var x := run[|run| - 1];
      Possible(run[..|run| - 1]) && Enabled(After(run[..|run| - 1])[x.key % NIBBLES], x.action)
  }

  /** the steps of the run that work on slot i: those whose key has i as its low four bits */
  function StepsOn(run: seq<Access>, i: nat): seq<Action> {
    if run == [] then []
    else
      var x := run[|run| - 1];
      StepsOn(run[..|run| - 1], i) + (if x.key % 16 == i then [x.action] else [])
  }

  lemma {:induction false} RunKeeps(run: seq<Access>, i: nat)
    requires Possible(run) && i < 16
    ensures Inv(After(run)[i], StepsOn(run, i))
  {
    hide Inv, Step, Enabled;
    if run == [] {
      EmptyInv();
    } else {
      RunKeeps(run[..|run| - 1], i);
      var x := run[|run| - 1];
      if i == x.key % 16 {
        StepKeeps(After(run[..|run| - 1])[i], StepsOn(run[..|run| - 1], i), x.action);
      } else {
        assert StepsOn(run, i) == StepsOn(run[..|run| - 1], i);
      }
    }
  }

  lemma EmptyInv()
    ensures Inv(EMPTY, [])
  {
    assert Changes([]) == [];
  }

  /** A step works on the slot that its key's low four bits name, and on no other. */
  lemma OnlyItsSlot(run: seq<Access>, x: Access, i: nat)
    requires Possible(run + [x]) && i < 16
    ensures Possible(run) && Enabled(After(run)[x.key % 16], x.action)
    ensures After(run + [x])[i] == if i == x.key % 16 then Step(After(run)[i], x.action) else After(run)[i]
  {
    assert (run + [x])[..|run|] == run;
  }

  /** In every interleaving, on every slot: successful inserts and removes strictly alternate; each step that
      ends a call returns one; and every call was right about its own address and about a moment of its own. */
  lemma Linearizable(run: seq<Access>, i: nat)
    requires Possible(run) && i < 16
    ensures var s, steps := After(run)[i], StepsOn(run, i);
            && Alternate(Changes(s.calls))
            && |s.hist| == |steps| + 1
            && (forall c :: c in s.calls ==> Right(s.hist, steps, c))
            && forall m :: 0 <= m < |steps| ==> Accounted(s, steps, m)
  {
    RunKeeps(run, i);
    var s, steps := After(run)[i], StepsOn(run, i);
    forall c | c in s.calls ensures Right(s.hist, steps, c) {
      var n :| 0 <= n < |s.calls| && s.calls[n] == c;
    }
  }

  /** What a successful insert brought stays in the slot until a remove succeeds. */
  lemma InsertStays(run: seq<Access>, i: nat, c: Call, m: nat)
    requires Possible(run) && i < 16 && c in After(run)[i].calls && c.kind == Insert && c.ok
    requires c.end <= m < |After(run)[i].hist|
    requires forall r :: r in After(run)[i].calls && r.kind == Remove && r.ok ==> !(c.end < r.end <= m)
    ensures c.start < |StepsOn(run, i)| && StepsOn(run, i)[c.start].InsertLoad?
    ensures After(run)[i].hist[m] == StepsOn(run, i)[c.start].a
  {
    Linearizable(run, i);
    RunKeeps(run, i);
    StaysPut(After(run)[i], StepsOn(run, i), c, m);
  }

  lemma NotRemoved(s: Slot, m: nat)
    requires forall r :: r in s.calls && r.kind == Remove && r.ok ==> r.end != m
    ensures !ChangedBy(s, m, Remove)
  {
    forall i | 0 <= i < |s.calls| ensures !(s.calls[i].end == m && s.calls[i].ok && s.calls[i].kind == Remove) {
      assert s.calls[i] in s.calls;
    }
  }

  lemma {:induction false} StaysPut(s: Slot, steps: seq<Action>, c: Call, m: nat)
    requires Inv(s, steps) && c in s.calls && Right(s.hist, steps, c) && c.kind == Insert && c.ok
    requires c.end <= m < |s.hist|
    requires forall r :: r in s.calls && r.kind == Remove && r.ok ==> !(c.end < r.end <= m)
    ensures s.hist[m] == steps[c.start].a
    decreases m
  {
    hide Pending, Alternate, Changes;
    if m > c.end {
      StaysPut(s, steps, c, m - 1);
      assert Moves(s.hist, m - 1) && Accounted(s, steps, m - 1);
      NotRemoved(s, m);
    }
  }
}
