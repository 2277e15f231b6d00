/** What the error log says about a parse. */
module ParseErrors {
  import opened ParseGrammar
  import opened ParseSpec
  import opened ParsePeg

  /** The rules that fail without a word: a choice with no alternatives, and a name that stands for such a rule. */
  ghost predicate Silent(lang: Lang, cert: Cert, g: Grammar, k: nat)
    requires Ranked(lang, cert) && LeftBelow(lang, cert, g, k)
    decreases k
  {
    match g
    case Or(alts) => alts == []
    case Rule(n) => n in lang.defs && Silent(lang, cert, lang.defs[n], cert.rank[n])
    case _ => false
  }

  /** all errors lie between the place where parsing started and the end of the input */
  predicate Between(errors: seq<Error>, i: nat, n: nat) {
    forall j :: 0 <= j < |errors| ==> i <= errors[j].pos <= n
  }

  lemma BetweenBoth(a: seq<Error>, b: seq<Error>, i: nat, j: nat, n: nat)
    requires Between(a, i, n) && Between(b, j, n) && i <= j
    ensures Between(a + b, i, n)
  {
  }

  /** A rule fails without leaving an error behind exactly if it is silent, and no error lies before
      the place where the rule was tried. */
  lemma {:induction false} FailureLogged(lang: Lang, cert: Cert, inp: Input, g: Grammar, i: nat, k: nat)
    requires Ranked(lang, cert) && LeftBelow(lang, cert, g, k) && i <= |inp.text|
    ensures Between(Parse(lang, cert, inp, g, i, k).errors, i, |inp.text|)
    ensures var r := Parse(lang, cert, inp, g, i, k); !r.ok && r.errors == [] <==> Silent(lang, cert, g, k)
    decreases |inp.text| - i, k, g, 0
  {
    hide Nullable, ParseAll, ParseAny, ParseMany, LeftBelowSeq, SkipWs, TerminalEnd, Between;
    var n := |inp.text|;
    OneError(g, i, n);
    match g
    case And(parts) =>
      AllLogged(lang, cert, inp, parts, i, k);
      var r := ParseAll(lang, cert, inp, parts, i, k);
      OneError(g, r.pos, n);
      BetweenBoth(r.errors, [Error(g, r.pos)], i, r.pos, n);
    case Or(alts) =>
      AnyLogged(lang, cert, inp, alts, i, k);
      BetweenBoth(ParseAny(lang, cert, inp, alts, i, k).errors, [Error(g, i)], i, i, n);
    case Not(parts) =>
      var w := SkipWs(inp, i);
      LeftTopSeq(lang, cert, parts);
      AllLogged(lang, cert, inp, parts, w, Bound(cert, k, i, w));
      var r := ParseAll(lang, cert, inp, parts, w, Bound(cert, k, i, w));
      BetweenBoth([], r.errors, i, w, n);
      assert [] + r.errors == r.errors;
      BetweenBoth(r.errors, [Error(g, i)], i, i, n);
    case Plus(body) =>
      FailureLogged(lang, cert, inp, body, i, k);
      var r := Parse(lang, cert, inp, body, i, k);
      BetweenBoth(r.errors, [Error(g, i)], i, i, n);
      if r.ok {
        LeftTop(lang, cert, body);
        ManyLogged(lang, cert, inp, body, r.pos, Bound(cert, k, i, r.pos));
        BetweenBoth(r.errors, ParseMany(lang, cert, inp, body, r.pos, Bound(cert, k, i, r.pos)).errors, i, r.pos, n);
      }
    case Star(body) => ManyLogged(lang, cert, inp, body, i, k);
    case Opt(body) => FailureLogged(lang, cert, inp, body, i, k);
    case Rule(name) =>
      if name in lang.defs {
        FailureLogged(lang, cert, inp, lang.defs[name], i, cert.rank[name]);
      }
    case _ =>
  }

  lemma OneError(g: Grammar, i: nat, n: nat)
    requires i <= n
    ensures Between([Error(g, i)], i, n) && Between([], i, n)
  {
  }

  lemma {:induction false} AllLogged(lang: Lang, cert: Cert, inp: Input, parts: seq<Grammar>, i: nat, k: nat)
    requires Ranked(lang, cert) && LeftBelowSeq(lang, cert, parts, k) && i <= |inp.text|
    ensures Between(ParseAll(lang, cert, inp, parts, i, k).errors, i, |inp.text|)
    decreases |inp.text| - i, k, parts, 0
  {
    if parts != [] {
      FailureLogged(lang, cert, inp, parts[0], i, k);
      var r := Parse(lang, cert, inp, parts[0], i, k);
      if r.ok {
        LeftTopSeq(lang, cert, parts[1..]);
        AllLogged(lang, cert, inp, parts[1..], r.pos, Bound(cert, k, i, r.pos));
        BetweenBoth(r.errors, ParseAll(lang, cert, inp, parts[1..], r.pos, Bound(cert, k, i, r.pos)).errors, i, r.pos,
                    |inp.text|);
      }
    }
  }

  lemma {:induction false} AnyLogged(lang: Lang, cert: Cert, inp: Input, alts: seq<Grammar>, i: nat, k: nat)
    requires Ranked(lang, cert) && i <= |inp.text| && forall j :: 0 <= j < |alts| ==> LeftBelow(lang, cert, alts[j], k)
    ensures Between(ParseAny(lang, cert, inp, alts, i, k).errors, i, |inp.text|)
    ensures alts == [] ==> !ParseAny(lang, cert, inp, alts, i, k).ok
    decreases |inp.text| - i, k, alts, 0
  {
    if alts != [] {
      FailureLogged(lang, cert, inp, alts[0], i, k);
      var r := Parse(lang, cert, inp, alts[0], i, k);
      if !r.ok {
        AnyLogged(lang, cert, inp, alts[1..], i, k);
        BetweenBoth(r.errors, ParseAny(lang, cert, inp, alts[1..], i, k).errors, i, i, |inp.text|);
      }
    }
  }

  lemma {:induction false} ManyLogged(lang: Lang, cert: Cert, inp: Input, body: Grammar, i: nat, k: nat)
    requires Ranked(lang, cert) && LeftBelow(lang, cert, body, k) && i <= |inp.text|
    ensures Between(ParseMany(lang, cert, inp, body, i, k).errors, i, |inp.text|)
    decreases |inp.text| - i, k, body, 1
  {
    hide Nullable, LeftBelow, Silent, Between;
    OneError(body, i, |inp.text|);
    if i < |inp.text| {
      FailureLogged(lang, cert, inp, body, i, k);
      var r := Parse(lang, cert, inp, body, i, k);
      if r.ok && r.pos != i {
        LeftTop(lang, cert, body);
        ManyLogged(lang, cert, inp, body, r.pos, cert.top);
        BetweenBoth(r.errors, ParseMany(lang, cert, inp, body, r.pos, cert.top).errors, i, r.pos, |inp.text|);
      }
    }
  }

  // ---- the log, read off a derivation ---------------------------------------------------------------------------

  /** What a derivation for g at i logs, in order. A sequence that fails adds itself at the place where the failing
      part was tried; a terminal, a choice, a lookahead or a first repetition adds itself at i. */
  function Log(lang: Lang, inp: Input, d: Deriv, g: Grammar, i: nat): seq<Error>
    decreases d, 0
  {
    if i > |inp.text| then []
    else
      match g
      case And(parts) =>
        LogInTurn(lang, inp, d.subs, parts, i)
        + if d.end.None? && d.subs != [] then [Error(g, Cut(d.subs, i, |d.subs| - 1))] else []
      case Or(alts) =>
        LogEach(lang, inp, d.subs, alts, i) + if d.end.None? && alts != [] then [Error(g, i)] else []
      case Not(parts) =>
        LogInTurn(lang, inp, d.subs, parts, SkipWs(inp, i)) + if d.end.None? then [Error(g, i)] else []
      case Plus(body) =>
        if d.subs == [] then []
        else
          Log(lang, inp, d.subs[0], body, i)
          + if d.end.None? then [Error(g, i)] else LogRepeats(lang, inp, d.subs[1..], body, Cut(d.subs, i, 1))
      case Star(body) => LogRepeats(lang, inp, d.subs, body, i)
      case Opt(body) => if d.subs == [] then [] else Log(lang, inp, d.subs[0], body, i)
      case Rule(n) => if n !in lang.defs || d.subs == [] then [] else Log(lang, inp, d.subs[0], lang.defs[n], i)
      case _ => if d.end.None? then [Error(g, i)] else []
  }

  function LogInTurn(lang: Lang, inp: Input, subs: seq<Deriv>, parts: seq<Grammar>, i: nat): seq<Error>
    decreases subs, 1
  {
    if subs == [] || parts == [] then []
    else Log(lang, inp, subs[0], parts[0], i) + LogInTurn(lang, inp, subs[1..], parts[1..], Cut(subs, i, 1))
  }

  function LogEach(lang: Lang, inp: Input, subs: seq<Deriv>, alts: seq<Grammar>, i: nat): seq<Error>
    decreases subs, 1
  {
    if subs == [] || alts == [] then []
    else Log(lang, inp, subs[0], alts[0], i) + LogEach(lang, inp, subs[1..], alts[1..], i)
  }

  function LogRepeats(lang: Lang, inp: Input, subs: seq<Deriv>, body: Grammar, i: nat): seq<Error>
    decreases subs, 1
  {
    if subs == [] then []
    else Log(lang, inp, subs[0], body, i) + LogRepeats(lang, inp, subs[1..], body, Cut(subs, i, 1))
  }

  /** Parsing logs what any derivation for the same rule and place logs. */
  lemma {:induction false} LogIsDerived(lang: Lang, cert: Cert, inp: Input, d: Deriv, g: Grammar, i: nat, k: nat)
    requires Ranked(lang, cert) && LeftBelow(lang, cert, g, k) && Derives(lang, inp, d, g, i)
    ensures i <= |inp.text| && Parse(lang, cert, inp, g, i, k).errors == Log(lang, inp, d, g, i)
    decreases d, 0
  {
    hide Nullable, ParseAll, ParseAny, ParseMany, LeftBelowSeq, SkipWs, TerminalEnd, InTurn, FirstOf, Repeats;
    Complete(lang, cert, inp, d, g, i, k);
    match g
    case And(parts) => LogAll(lang, cert, inp, d.subs, parts, i, d.end, k);
    case Or(alts) => LogAny(lang, cert, inp, d.subs, alts, i, d.end, k);
    case Not(parts) =>
      var w, e :| FirstNonWs(inp, i, w) && InTurn(lang, inp, d.subs, parts, w, e)
                  && d.end == if e.Some? then None else Some(i);
      SkipIsFirst(inp, i, w);
      LeftTopSeq(lang, cert, parts);
      LogAll(lang, cert, inp, d.subs, parts, w, e, Bound(cert, k, i, w));
    case Plus(body) =>
      LogIsDerived(lang, cert, inp, d.subs[0], body, i, k);
      Complete(lang, cert, inp, d.subs[0], body, i, k);
      if d.end.Some? {
        LeftTop(lang, cert, body);
        var j := d.subs[0].end.value;
        LogMany(lang, cert, inp, d.subs[1..], body, j, d.end.value, Bound(cert, k, i, j));
      }
    case Star(body) => LogMany(lang, cert, inp, d.subs, body, i, d.end.value, k);
    case Opt(body) => LogIsDerived(lang, cert, inp, d.subs[0], body, i, k);
    case Rule(n) =>
      if n in lang.defs {
        LogIsDerived(lang, cert, inp, d.subs[0], lang.defs[n], i, cert.rank[n]);
      }
    case _ =>
  }

  lemma {:induction false} LogAll(lang: Lang, cert: Cert, inp: Input, subs: seq<Deriv>, parts: seq<Grammar>, i: nat,
                                  end: Option<nat>, k: nat)
    requires Ranked(lang, cert) && LeftBelowSeq(lang, cert, parts, k) && i <= |inp.text|
    requires InTurn(lang, inp, subs, parts, i, end)
    ensures var r := ParseAll(lang, cert, inp, parts, i, k);
            && r.errors == LogInTurn(lang, inp, subs, parts, i)
            && end == EndOf(r.ok, r.pos)
            && (end.None? ==> subs != [] && r.pos == Cut(subs, i, |subs| - 1))
    decreases subs, 1
  {
    hide Derives, Parse, Nullable, LeftBelow, Log;
    if subs != [] {
      assert PartTurn(lang, inp, subs, parts, i, 0);
      Complete(lang, cert, inp, subs[0], parts[0], i, k);
      LogIsDerived(lang, cert, inp, subs[0], parts[0], i, k);
      if subs[0].end.Some? {
        var j := subs[0].end.value;
        InTurnTail(lang, inp, subs, parts, i, end);
        LeftTopSeq(lang, cert, parts[1..]);
        LogAll(lang, cert, inp, subs[1..], parts[1..], j, end, Bound(cert, k, i, j));
        if end.None? {
          CutTail(subs, i, |subs| - 1);
        }
      }
    }
  }

  lemma {:induction false} LogAny(lang: Lang, cert: Cert, inp: Input, subs: seq<Deriv>, alts: seq<Grammar>, i: nat,
                                  end: Option<nat>, k: nat)
    requires Ranked(lang, cert) && i <= |inp.text| && FirstOf(lang, inp, subs, alts, i, end)
    requires forall j :: 0 <= j < |alts| ==> LeftBelow(lang, cert, alts[j], k)
    ensures ParseAny(lang, cert, inp, alts, i, k).errors == LogEach(lang, inp, subs, alts, i)
    decreases subs, 1
  {
    hide Derives, Parse, Nullable, LeftBelow, Log;
    if subs != [] {
      assert Derives(lang, inp, subs[0], alts[0], i);
      Complete(lang, cert, inp, subs[0], alts[0], i, k);
      LogIsDerived(lang, cert, inp, subs[0], alts[0], i, k);
      if subs[0].end.None? {
        FirstOfTail(lang, inp, subs, alts, i, end);
        LogAny(lang, cert, inp, subs[1..], alts[1..], i, end, k);
      }
    }
  }

  lemma {:induction false} LogMany(lang: Lang, cert: Cert, inp: Input, subs: seq<Deriv>, body: Grammar, i: nat,
                                   end: nat, k: nat)
    requires Ranked(lang, cert) && LeftBelow(lang, cert, body, k) && i <= |inp.text|
    requires Repeats(lang, inp, subs, body, i, end)
    ensures ParseMany(lang, cert, inp, body, i, k).errors == LogRepeats(lang, inp, subs, body, i)
    decreases subs, 1
  {
    hide Derives, Parse, Nullable, LeftBelow, Log;
    if subs != [] {
      assert Turn(lang, inp, subs, body, i, 0) && (|subs| > 1 ==> Consumes(subs, i, 0));
      Complete(lang, cert, inp, subs[0], body, i, k);
      LogIsDerived(lang, cert, inp, subs[0], body, i, k);
      if subs[0].end.Some? && subs[0].end.value != i {
        RepeatsTail(lang, inp, subs, body, i, end);
        LeftTop(lang, cert, body);
        LogMany(lang, cert, inp, subs[1..], body, subs[0].end.value, end, cert.top);
      }
    }
  }

  /** The report of a whole parse: nothing when the start rule comes to the end of the input; the start rule, at
      the place it came to, when it stops short; the log of the derivation when the start rule fails. */
  lemma TopReport(lang: Lang, cert: Cert, inp: Input, start: Grammar, d: Deriv)
    requires Ranked(lang, cert) && Derives(lang, inp, d, start, 0)
    ensures var r := ParseTop(lang, cert, inp, start);
            && r.ok == (d.end == Some(|inp.text|))
            && r.errors == match d.end
                           case None => Log(lang, inp, d, start, 0)
                           case Some(p) => if p == |inp.text| then [] else [Error(start, p)]
  {
    hide Ranked, LeftBelow, Parse, Derives, Log;
    LeftTop(lang, cert, start);
    Complete(lang, cert, inp, d, start, 0, cert.top);
    LogIsDerived(lang, cert, inp, d, start, 0, cert.top);
  }

  /** A whole parse reports errors exactly when it fails, unless the start rule is silent. */
  lemma TopLogged(lang: Lang, cert: Cert, inp: Input, start: Grammar)
    requires Ranked(lang, cert)
    ensures LeftBelow(lang, cert, start, cert.top)
    ensures var r := ParseTop(lang, cert, inp, start);
            (r.ok <==> r.errors == []) <==> !Silent(lang, cert, start, cert.top)
  {
    hide Ranked, LeftBelow, Parse, Silent, Between;
    LeftTop(lang, cert, start);
    FailureLogged(lang, cert, inp, start, 0, cert.top);
  }
}
