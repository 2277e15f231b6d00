/** Case-insensitive parsing does not see letter case. */
module ParseCase {
  import opened ParseGrammar
  import opened ParseSpec

  predicate IsLetter(c: Ch) {
    SwapCase(c) != c
  }

  /** two inputs for case-insensitive parsing that differ in letter case only; letters are no whitespace */
  ghost predicate SameButCase(a: Input, b: Input) {
    && a.ignoreCase && b.ignoreCase && a.skipWs == b.skipWs && a.ws == b.ws
    && (forall c :: c in a.ws ==> !IsLetter(c))
    && SameText(a.text, b.text)
  }

  predicate RegexFree(g: Grammar) {
    match g
    case Regex(_) => false
    case And(parts) => forall i :: 0 <= i < |parts| ==> RegexFree(parts[i])
    case Or(alts) => forall i :: 0 <= i < |alts| ==> RegexFree(alts[i])
    case Not(parts) => forall i :: 0 <= i < |parts| ==> RegexFree(parts[i])
    case Plus(body) => RegexFree(body)
    case Star(body) => RegexFree(body)
    case Opt(body) => RegexFree(body)
    case _ => true
  }

  ghost predicate AllRegexFree(lang: Lang) {
    forall n :: n in lang.defs ==> RegexFree(lang.defs[n])
  }

  /** equal up to letter case */
  predicate SameText(s: seq<Ch>, t: seq<Ch>) {
    |s| == |t| && forall i :: 0 <= i < |s| ==> ToLower(s[i]) == ToLower(t[i])
  }

  /** the same tree, its texts equal up to letter case */
  predicate Alike(x: Ast, y: Ast)
    decreases x, 1
  {
    x.rule == y.rule && SameText(x.text, y.text) && AllAlike(x.kids, y.kids)
  }

  predicate AllAlike(xs: seq<Ast>, ys: seq<Ast>)
    decreases xs, 0
  {
    |xs| == |ys| && (xs != [] ==> Alike(xs[0], ys[0]) && AllAlike(xs[1..], ys[1..]))
  }

  lemma AlikeCons(x: Ast, xs: seq<Ast>, y: Ast, ys: seq<Ast>)
    requires Alike(x, y) && AllAlike(xs, ys)
    ensures AllAlike([x] + xs, [y] + ys)
  {
    assert ([x] + xs)[1..] == xs && ([y] + ys)[1..] == ys;
  }

  lemma AlikeOne(x: Ast, y: Ast)
    requires Alike(x, y)
    ensures AllAlike([x], [y])
  {
    AlikeCons(x, [], y, []);
    assert [x] + [] == [x] && [y] + [] == [y];
  }

  /** two results that differ in nothing but the case of the texts */
  predicate SameResult(r: Result, q: Result) {
    r.ok == q.ok && r.pos == q.pos && r.errors == q.errors && Alike(r.node, q.node)
  }

  predicate SameResults(r: Results, q: Results) {
    r.ok == q.ok && r.pos == q.pos && r.errors == q.errors && AllAlike(r.nodes, q.nodes)
  }

  lemma LowerPairs(c: Ch, d: Ch)
    requires ToLower(c) == ToLower(d)
    ensures d == c || d == SwapCase(c)
    ensures SwapCase(SwapCase(c)) == c
  {
  }

  lemma SameWs(a: Input, b: Input, i: nat)
    requires SameButCase(a, b) && i < |a.text|
    ensures IsWs(a, a.text[i]) == IsWs(b, b.text[i])
  {
    LowerPairs(a.text[i], b.text[i]);
  }

  lemma {:induction false} SameSkip(a: Input, b: Input, i: nat)
    requires SameButCase(a, b) && i <= |a.text|
    ensures SkipWs(a, i) == SkipWs(b, i)
    decreases |a.text| - i
  {
    if i < |a.text| {
      SameWs(a, b, i);
      SameSkip(a, b, i + 1);
    }
  }

  lemma SameEnd(lang: Lang, a: Input, b: Input, g: Grammar, w: nat)
    requires SameButCase(a, b) && IsTerminal(g) && RegexFree(g) && w <= |a.text|
    ensures TerminalEnd(lang, a, g, w) == TerminalEnd(lang, b, g, w)
  {
    if g.Range? && w < |a.text| {
      LowerPairs(a.text[w], b.text[w]);
    }
  }

  lemma SameTerminal(lang: Lang, a: Input, b: Input, g: Grammar, i: nat)
    requires SameButCase(a, b) && IsTerminal(g) && RegexFree(g) && i <= |a.text|
    ensures SameResult(Terminal(lang, a, g, i), Terminal(lang, b, g, i))
  {
    SameSkip(a, b, i);
    SameEnd(lang, a, b, g, SkipWs(a, i));
  }

  lemma AlikeOver(a: Input, b: Input, g: Grammar, i: nat, j: nat, xs: seq<Ast>, ys: seq<Ast>)
    requires SameButCase(a, b) && i <= j <= |a.text| && AllAlike(xs, ys)
    ensures Alike(Over(a, g, i, j, xs), Over(b, g, i, j, ys))
  {
  }

  /** Two inputs equal up to letter case give the same success, cursor, tree shape and errors. */
  lemma {:induction false} CaseBlind(lang: Lang, cert: Cert, a: Input, b: Input, g: Grammar, i: nat, k: nat)
    requires Ranked(lang, cert) && LeftBelow(lang, cert, g, k) && i <= |a.text|
    requires SameButCase(a, b) && RegexFree(g) && AllRegexFree(lang)
    ensures SameResult(Parse(lang, cert, a, g, i, k), Parse(lang, cert, b, g, i, k))
    decreases |a.text| - i, k, g, 0
  {
    hide Nullable, ParseAll, ParseAny, ParseMany, LeftBelowSeq, Terminal, SkipWs, Over, AllAlike;
    var r, q := Parse(lang, cert, a, g, i, k), Parse(lang, cert, b, g, i, k);
    NoneAlike();
    match g
    case And(parts) =>
      AllBlind(lang, cert, a, b, parts, i, k);
      var x, y := ParseAll(lang, cert, a, parts, i, k), ParseAll(lang, cert, b, parts, i, k);
      AlikeOver(a, b, g, i, x.pos, x.nodes, y.nodes);
    case Or(alts) =>
      AnyBlind(lang, cert, a, b, alts, i, k);
      var x, y := ParseAny(lang, cert, a, alts, i, k), ParseAny(lang, cert, b, alts, i, k);
      AlikeOne(x.node, y.node);
      AlikeOver(a, b, g, i, x.pos, [x.node], [y.node]);
    case Not(parts) =>
      SameSkip(a, b, i);
      LeftTopSeq(lang, cert, parts);
      var w := SkipWs(a, i);
      AllBlind(lang, cert, a, b, parts, w, Bound(cert, k, i, w));
      AlikeOver(a, b, g, i, i, [], []);
    case Plus(body) =>
      CaseBlind(lang, cert, a, b, body, i, k);
      var x, y := Parse(lang, cert, a, body, i, k), Parse(lang, cert, b, body, i, k);
      if x.ok {
        LeftTop(lang, cert, body);
        var k' := Bound(cert, k, i, x.pos);
        ManyBlind(lang, cert, a, b, body, x.pos, k');
        var xs, ys := ParseMany(lang, cert, a, body, x.pos, k'), ParseMany(lang, cert, b, body, x.pos, k');
        AlikeCons(x.node, xs.nodes, y.node, ys.nodes);
        AlikeOver(a, b, g, i, xs.pos, [x.node] + xs.nodes, [y.node] + ys.nodes);
      }
    case Star(body) =>
      ManyBlind(lang, cert, a, b, body, i, k);
      var x, y := ParseMany(lang, cert, a, body, i, k), ParseMany(lang, cert, b, body, i, k);
      AlikeOver(a, b, g, i, x.pos, x.nodes, y.nodes);
    case Opt(body) =>
      CaseBlind(lang, cert, a, b, body, i, k);
      var x, y := Parse(lang, cert, a, body, i, k), Parse(lang, cert, b, body, i, k);
      AlikeOne(x.node, y.node);
      AlikeOver(a, b, g, i, x.pos, if x.ok then [x.node] else [], if x.ok then [y.node] else []);
    case Rule(n) =>
      AlikeOver(a, b, g, i, i, [], []);
      if n in lang.defs {
        CaseBlind(lang, cert, a, b, lang.defs[n], i, cert.rank[n]);
        var x, y := Parse(lang, cert, a, lang.defs[n], i, cert.rank[n]),
          Parse(lang, cert, b, lang.defs[n], i, cert.rank[n]);
        AlikeOne(x.node, y.node);
        AlikeOver(a, b, g, i, x.pos, [x.node], [y.node]);
      }
    case _ => SameTerminal(lang, a, b, g, i);
  }

  lemma NoneAlike()
    ensures AllAlike([], []) && Alike(NONE, NONE)
  {
  }

  lemma {:induction false} AllBlind(lang: Lang, cert: Cert, a: Input, b: Input, parts: seq<Grammar>, i: nat, k: nat)
    requires Ranked(lang, cert) && LeftBelowSeq(lang, cert, parts, k) && i <= |a.text|
    requires SameButCase(a, b) && AllRegexFree(lang) && forall j :: 0 <= j < |parts| ==> RegexFree(parts[j])
    ensures SameResults(ParseAll(lang, cert, a, parts, i, k), ParseAll(lang, cert, b, parts, i, k))
    decreases |a.text| - i, k, parts, 0
  {
    if parts != [] {
      CaseBlind(lang, cert, a, b, parts[0], i, k);
      var x, y := Parse(lang, cert, a, parts[0], i, k), Parse(lang, cert, b, parts[0], i, k);
      if x.ok {
        LeftTopSeq(lang, cert, parts[1..]);
        var k' := Bound(cert, k, i, x.pos);
        AllBlind(lang, cert, a, b, parts[1..], x.pos, k');
        var xs, ys := ParseAll(lang, cert, a, parts[1..], x.pos, k'), ParseAll(lang, cert, b, parts[1..], x.pos, k');
        AlikeCons(x.node, xs.nodes, y.node, ys.nodes);
      }
    }
  }

  lemma {:induction false} AnyBlind(lang: Lang, cert: Cert, a: Input, b: Input, alts: seq<Grammar>, i: nat, k: nat)
    requires Ranked(lang, cert) && i <= |a.text| && forall j :: 0 <= j < |alts| ==> LeftBelow(lang, cert, alts[j], k)
    requires SameButCase(a, b) && AllRegexFree(lang) && forall j :: 0 <= j < |alts| ==> RegexFree(alts[j])
    ensures SameResult(ParseAny(lang, cert, a, alts, i, k), ParseAny(lang, cert, b, alts, i, k))
    decreases |a.text| - i, k, alts, 0
  {
    if alts != [] {
      CaseBlind(lang, cert, a, b, alts[0], i, k);
      if !Parse(lang, cert, a, alts[0], i, k).ok {
        AnyBlind(lang, cert, a, b, alts[1..], i, k);
      }
    }
  }

  lemma {:induction false} ManyBlind(lang: Lang, cert: Cert, a: Input, b: Input, body: Grammar, i: nat, k: nat)
    requires Ranked(lang, cert) && LeftBelow(lang, cert, body, k) && i <= |a.text|
    requires SameButCase(a, b) && RegexFree(body) && AllRegexFree(lang)
    ensures SameResults(ParseMany(lang, cert, a, body, i, k), ParseMany(lang, cert, b, body, i, k))
    decreases |a.text| - i, k, body, 1
  {
    hide LeftBelow, RegexFree, Nullable, SameButCase;
    SameLength(a, b);
    if i < |a.text| {
      CaseBlind(lang, cert, a, b, body, i, k);
      var x, y := Parse(lang, cert, a, body, i, k), Parse(lang, cert, b, body, i, k);
      if x.ok && x.pos != i {
        LeftTop(lang, cert, body);
        ManyBlind(lang, cert, a, b, body, x.pos, cert.top);
        var xs, ys := ParseMany(lang, cert, a, body, x.pos, cert.top), ParseMany(lang, cert, b, body, x.pos, cert.top);
        AlikeCons(x.node, xs.nodes, y.node, ys.nodes);
      }
    }
  }

  lemma SameLength(a: Input, b: Input)
    requires SameButCase(a, b)
    ensures |a.text| == |b.text|
  {
  }

  /** The same for whole parses. */
  lemma TopCaseBlind(lang: Lang, cert: Cert, a: Input, b: Input, start: Grammar)
    requires Ranked(lang, cert) && SameButCase(a, b) && RegexFree(start) && AllRegexFree(lang)
    ensures SameResult(ParseTop(lang, cert, a, start), ParseTop(lang, cert, b, start))
  {
    hide Ranked, LeftBelow, Parse, RegexFree, AllRegexFree, AllAlike;
    LeftTop(lang, cert, start);
    SameLength(a, b);
    CaseBlind(lang, cert, a, b, start, 0, cert.top);
    NoneAlike();
  }
}
