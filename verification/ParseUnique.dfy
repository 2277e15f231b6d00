/** Derivations conclude one thing, in any grammar, ranked or not. */
module ParseUnique {
  import opened ParseGrammar
  import opened ParsePeg

  /** Two derivations for g at i have the same conclusion. */
  lemma {:induction false} SameEnd(lang: Lang, inp: Input, d: Deriv, e: Deriv, g: Grammar, i: nat)
    requires Derives(lang, inp, d, g, i) && Derives(lang, inp, e, g, i)
    ensures d.end == e.end
    decreases d, 0
  {
    match g
    case And(parts) => SameAll(lang, inp, d.subs, e.subs, parts, i, d.end, e.end);
    case Or(alts) => SameAny(lang, inp, d.subs, e.subs, alts, i, d.end, e.end);
    case Not(parts) =>
      var w, x :| FirstNonWs(inp, i, w) && InTurn(lang, inp, d.subs, parts, w, x)
                  && d.end == if x.Some? then None else Some(i);
      var v, y :| FirstNonWs(inp, i, v) && InTurn(lang, inp, e.subs, parts, v, y)
                  && e.end == if y.Some? then None else Some(i);
      SkipIsFirst(inp, i, w);
      SkipIsFirst(inp, i, v);
      SameAll(lang, inp, d.subs, e.subs, parts, w, x, y);
    case Plus(body) =>
      SameEnd(lang, inp, d.subs[0], e.subs[0], body, i);
      if d.end.Some? {
        SameMany(lang, inp, d.subs[1..], e.subs[1..], body, d.subs[0].end.value, d.end.value, e.end.value);
      }
    case Star(body) => SameMany(lang, inp, d.subs, e.subs, body, i, d.end.value, e.end.value);
    case Opt(body) => SameEnd(lang, inp, d.subs[0], e.subs[0], body, i);
    case Rule(n) =>
      if n in lang.defs {
        SameEnd(lang, inp, d.subs[0], e.subs[0], lang.defs[n], i);
      }
    case _ =>
      var w :| FirstNonWs(inp, i, w) && d.end == TerminalEnd(lang, inp, g, w);
      var v :| FirstNonWs(inp, i, v) && e.end == TerminalEnd(lang, inp, g, v);
      SkipIsFirst(inp, i, w);
      SkipIsFirst(inp, i, v);
  }

  lemma {:induction false} SameAll(lang: Lang, inp: Input, ds: seq<Deriv>, es: seq<Deriv>, parts: seq<Grammar>,
                                   i: nat, end: Option<nat>, end': Option<nat>)
    requires InTurn(lang, inp, ds, parts, i, end) && InTurn(lang, inp, es, parts, i, end')
    ensures end == end'
    decreases ds, 1
  {
    hide Derives;
    if ds != [] && es != [] {
      assert PartTurn(lang, inp, ds, parts, i, 0) && PartTurn(lang, inp, es, parts, i, 0);
      SameEnd(lang, inp, ds[0], es[0], parts[0], i);
      if ds[0].end.Some? {
        InTurnTail(lang, inp, ds, parts, i, end);
        InTurnTail(lang, inp, es, parts, i, end');
        SameAll(lang, inp, ds[1..], es[1..], parts[1..], ds[0].end.value, end, end');
      }
    }
  }

  lemma {:induction false} SameAny(lang: Lang, inp: Input, ds: seq<Deriv>, es: seq<Deriv>, alts: seq<Grammar>,
                                   i: nat, end: Option<nat>, end': Option<nat>)
    requires FirstOf(lang, inp, ds, alts, i, end) && FirstOf(lang, inp, es, alts, i, end')
    ensures end == end'
    decreases ds, 1
  {
    hide Derives;
    if ds != [] && es != [] {
      assert Derives(lang, inp, ds[0], alts[0], i) && Derives(lang, inp, es[0], alts[0], i);
      SameEnd(lang, inp, ds[0], es[0], alts[0], i);
      if ds[0].end.None? {
        FirstOfTail(lang, inp, ds, alts, i, end);
        FirstOfTail(lang, inp, es, alts, i, end');
        SameAny(lang, inp, ds[1..], es[1..], alts[1..], i, end, end');
      }
    }
  }

  lemma {:induction false} SameMany(lang: Lang, inp: Input, ds: seq<Deriv>, es: seq<Deriv>, body: Grammar,
                                    i: nat, end: nat, end': nat)
    requires Repeats(lang, inp, ds, body, i, end) && Repeats(lang, inp, es, body, i, end')
    ensures end == end'
    decreases ds, 1
  {
    hide Derives;
    if ds != [] {
      assert Turn(lang, inp, ds, body, i, 0) && (|ds| > 1 ==> Consumes(ds, i, 0));
    }
    if es != [] {
      assert Turn(lang, inp, es, body, i, 0) && (|es| > 1 ==> Consumes(es, i, 0));
    }
    if ds != [] && es != [] {
      SameEnd(lang, inp, ds[0], es[0], body, i);
      if ds[0].end.Some? && ds[0].end.value != i {
        RepeatsTail(lang, inp, ds, body, i, end);
        RepeatsTail(lang, inp, es, body, i, end');
        SameMany(lang, inp, ds[1..], es[1..], body, ds[0].end.value, end, end');
      }
    }
  }

  /** No rule comes to two outcomes. */
  lemma Deterministic(lang: Lang, inp: Input, g: Grammar, i: nat, end: Option<nat>, end': Option<nat>)
    requires Comes(lang, inp, g, i, end) && Comes(lang, inp, g, i, end')
    ensures end == end'
  {
    var d :| Derives(lang, inp, d, g, i) && d.end == end;
    var e :| Derives(lang, inp, e, g, i) && e.end == end';
    SameEnd(lang, inp, d, e, g, i);
  }
}
