/** Left recursion: which grammars no certificate can rank, and what becomes of their rules.

  Some rules always enter another rule before anything else, at the same input position or after
  skipped whitespace. Where such entries go in circles, parsing never comes to an end: there is no
  derivation, neither of a match nor of a failure. */
module ParseLeft {
  import opened ParseGrammar
  import opened ParseSpec
  import opened ParsePeg

  /** a named rule, tried at an input position */
  datatype Entry = Entry(name: nat, at: nat)

  /** the entry that trying g at i makes before it can decide anything */
  function FirstEntry(inp: Input, g: Grammar, i: nat): Option<Entry>
    requires i <= |inp.text|
  {
    match g
    case And(parts) => if parts == [] then None else FirstEntry(inp, parts[0], i)
    case Or(alts) => if alts == [] then None else FirstEntry(inp, alts[0], i)
    case Not(parts) => if parts == [] then None else FirstEntry(inp, parts[0], SkipWs(inp, i))
    case Plus(body) => FirstEntry(inp, body, i)
    case Star(body) => if i == |inp.text| then None else FirstEntry(inp, body, i)
    case Opt(body) => FirstEntry(inp, body, i)
    case Rule(n) => Some(Entry(n, i))
    case _ => None
  }

  /** e's rule is defined, and its definition enters one of the given entries first */
  predicate GoesOn(lang: Lang, inp: Input, circle: set<Entry>, e: Entry) {
    e.name in lang.defs && e.at <= |inp.text| &&
    var next := FirstEntry(inp, lang.defs[e.name], e.at);
    next.Some? && next.value in circle
  }

  /** every entry leads first to an entry of the same set */
  predicate Circular(lang: Lang, inp: Input, circle: set<Entry>) {
    forall e :: e in circle ==> GoesOn(lang, inp, circle, e)
  }

  /** What enters a circle first has no derivation. */
  lemma {:induction false} NoDerivation(lang: Lang, inp: Input, circle: set<Entry>, d: Deriv, g: Grammar, i: nat)
    requires Circular(lang, inp, circle) && i <= |inp.text|
    requires var e := FirstEntry(inp, g, i); e.Some? && e.value in circle
    ensures !Derives(lang, inp, d, g, i)
    decreases d, 0
  {
    match g
    case And(parts) => NoTurn(lang, inp, circle, d.subs, parts, i, d.end);
    case Or(alts) =>
      if d.subs != [] {
        NoDerivation(lang, inp, circle, d.subs[0], alts[0], i);
      }
    case Not(parts) =>
      forall w, e | FirstNonWs(inp, i, w) ensures !InTurn(lang, inp, d.subs, parts, w, e) {
        SkipIsFirst(inp, i, w);
        NoTurn(lang, inp, circle, d.subs, parts, w, e);
      }
    case Plus(body) =>
      if d.subs != [] {
        NoDerivation(lang, inp, circle, d.subs[0], body, i);
      }
    case Star(body) =>
      if d.subs != [] {
        NoDerivation(lang, inp, circle, d.subs[0], body, i);
        assert !Turn(lang, inp, d.subs, body, i, 0);
      }
    case Opt(body) =>
      if d.subs != [] {
        NoDerivation(lang, inp, circle, d.subs[0], body, i);
      }
    case Rule(n) =>
      assert GoesOn(lang, inp, circle, Entry(n, i));
      if d.subs != [] {
        NoDerivation(lang, inp, circle, d.subs[0], lang.defs[n], i);
      }
  }

  lemma {:induction false} NoTurn(lang: Lang, inp: Input, circle: set<Entry>, subs: seq<Deriv>, parts: seq<Grammar>,
                                  i: nat, end: Option<nat>)
    requires Circular(lang, inp, circle) && i <= |inp.text| && parts != []
    requires var e := FirstEntry(inp, parts[0], i); e.Some? && e.value in circle
    ensures !InTurn(lang, inp, subs, parts, i, end)
    decreases subs, 1
  {
    if subs != [] && |subs| <= |parts| {
      NoDerivation(lang, inp, circle, subs[0], parts[0], i);
      assert !PartTurn(lang, inp, subs, parts, i, 0);
    }
  }

  /** A rule on a circle comes to no outcome at all, and no certificate ranks its grammar. */
  lemma LeftRecursive(lang: Lang, inp: Input, circle: set<Entry>, n: nat, i: nat)
    requires Circular(lang, inp, circle) && Entry(n, i) in circle
    ensures i <= |inp.text|
    ensures forall end :: !Comes(lang, inp, Rule(n), i, end)
    ensures forall cert :: !Ranked(lang, cert)
  {
    assert GoesOn(lang, inp, circle, Entry(n, i));
    forall d ensures !Derives(lang, inp, d, Rule(n), i) {
      NoDerivation(lang, inp, circle, d, Rule(n), i);
    }
    forall cert ensures !Ranked(lang, cert) {
      if Ranked(lang, cert) {
        LeftTop(lang, cert, Rule(n));
        var d := Sound(lang, cert, inp, Rule(n), i, cert.top);
        assert false;
      }
    }
  }

  // ---- grammars of each kind ----------------------------------------------------------------------------------

  const EXPRESSION: nat := 0
  const ADD_EXPRESSION: nat := 1

  /** one comparison, its left operand an expression again */
  function Compared(operator: Grammar): Grammar {
    And([Rule(EXPRESSION), operator, Rule(ADD_EXPRESSION)])
  }

  /** the rule for expressions in a test grammar of the library */
  const COMPARISON := Or([
    Compared(Chr('>' as int)), Compared(Chr('<' as int)),
    Compared(Str(['>' as int, '=' as int])), Compared(Str(['<' as int, '=' as int])),
    Compared(Str(['=' as int, '=' as int])), Compared(Str(['<' as int, '>' as int])),
    Rule(ADD_EXPRESSION)])

  /** That rule enters itself first, so parsing it never ends, whatever the input and the other rules. */
  lemma ExpressionNeverEnds(lang: Lang, inp: Input, i: nat)
    requires EXPRESSION in lang.defs && lang.defs[EXPRESSION] == COMPARISON && i <= |inp.text|
    ensures forall end :: !Comes(lang, inp, Rule(EXPRESSION), i, end)
    ensures forall cert :: !Ranked(lang, cert)
  {
    var e := Entry(EXPRESSION, i);
    assert FirstEntry(inp, COMPARISON.alts[0], i) == FirstEntry(inp, Rule(EXPRESSION), i) == Some(e);
    assert GoesOn(lang, inp, {e}, e);
    LeftRecursive(lang, inp, {e}, EXPRESSION, i);
  }

  /** Recursion behind a token is ranked when the token's regular expression matches no empty string. */
  lemma TokenGuarded(lang: Lang)
    requires lang.defs == map[0 := And([Regex(0), Opt(Rule(0))])]
    requires forall rest :: rest != [] ==> lang.regex(0, rest) != Some(0)
    ensures Ranked(lang, Cert(map[0 := 0], 1, {}, {0}))
  {
    var cert, g := Cert(map[0 := 0], 1, {}, {0}), lang.defs[0];
    assert !Nullable(lang, cert, g.parts[0]);
    assert LeftBelowSeq(lang, cert, g.parts, 0);
  }

  /** A certificate is more than parsing needs: this rule enters itself only when 'a' does not match,
      so no certificate ranks it, and yet it matches an "a". */
  lemma CertificateNotNeeded(lang: Lang, ws: set<Ch>)
    requires lang.defs == map[0 := Or([Chr('a' as int), Rule(0)])] && 'a' as int !in ws
    ensures forall cert :: !Ranked(lang, cert)
    ensures Comes(lang, Input(['a' as int], ws, true, false), Rule(0), 0, Some(1))
  {
    var g, inp := lang.defs[0], Input(['a' as int], ws, true, false);
    forall cert ensures !Ranked(lang, cert) {
      assert Ranked(lang, cert) ==> RankedRule(lang, cert, 0) && LeftBelow(lang, cert, g.alts[1], cert.rank[0]);
    }
    assert FirstNonWs(inp, 0, 0);
    assert TerminalAt(lang, inp, g.alts[0], 0, Some(1));
    var token := Deriv(Some(1), []);
    assert Derives(lang, inp, token, g.alts[0], 0);
    var choice := Deriv(Some(1), [token]);
    assert Derives(lang, inp, choice, g, 0);
    assert Derives(lang, inp, Deriv(Some(1), [choice]), Rule(0), 0);
  }
}
