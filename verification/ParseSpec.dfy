/** What parsing computes, as a function: success, cursor, syntax tree and error log.

  Grammars may be recursive through their named rules, but not left-recursive: every rule that can
  be entered before any input is consumed must rank below the rule that enters it. That makes the
  function total, also where a repeated body matches the empty string. */
module ParseSpec {
  import opened ParseGrammar

  // ---- no left recursion ------------------------------------------------------------------------------

  /** ranks for the named rules, all below `top`; the rules that may match the empty string; and
      regular expressions that never do */
  datatype Cert = Cert(rank: map<nat, nat>, top: nat, nullable: set<nat>, solid: set<nat>)

  /** g may match without consuming anything */
  predicate Nullable(lang: Lang, cert: Cert, g: Grammar) {
    match g
    case Str(lit) => lit == []
    case Chr(_) => false
    case Range(_, _) => false
    case Regex(id) => id !in cert.solid
    case And(parts) => forall i :: 0 <= i < |parts| ==> Nullable(lang, cert, parts[i])
    case Or(alts) => exists i :: 0 <= i < |alts| && Nullable(lang, cert, alts[i])
    case Not(_) => true
    case Plus(body) => Nullable(lang, cert, body)
    case Star(_) => true
    case Opt(_) => true
    case Rule(n) => n in lang.defs ==> n in cert.nullable
  }

  /** every rule that g may enter before it has consumed anything ranks below k */
  predicate LeftBelow(lang: Lang, cert: Cert, g: Grammar, k: nat)
    decreases g
  {
    match g
    case And(parts) => LeftBelowSeq(lang, cert, parts, k)
    case Or(alts) => forall i :: 0 <= i < |alts| ==> LeftBelow(lang, cert, alts[i], k)
    case Not(parts) => LeftBelowSeq(lang, cert, parts, k)
    case Plus(body) => LeftBelow(lang, cert, body, k)
    case Star(body) => LeftBelow(lang, cert, body, k)
    case Opt(body) => LeftBelow(lang, cert, body, k)
    case Rule(n) => n in lang.defs ==> n in cert.rank && cert.rank[n] < k
    case _ => true
  }

  predicate LeftBelowSeq(lang: Lang, cert: Cert, parts: seq<Grammar>, k: nat)
    decreases parts
  {
    parts != [] ==>
      && LeftBelow(lang, cert, parts[0], k)
      && (Nullable(lang, cert, parts[0]) ==> LeftBelowSeq(lang, cert, parts[1..], k))
  }

  /** the grammar is not left-recursive, and `cert` shows it */
  ghost predicate Ranked(lang: Lang, cert: Cert) {
    && (forall id, rest :: id in cert.solid && rest != [] ==> lang.regex(id, rest) != Some(0))
    && forall n :: n in lang.defs ==> RankedRule(lang, cert, n)
  }

  predicate RankedRule(lang: Lang, cert: Cert, n: nat)
    requires n in lang.defs
  {
    && n in cert.rank && cert.rank[n] < cert.top
    && LeftBelow(lang, cert, lang.defs[n], cert.rank[n])
    && (Nullable(lang, cert, lang.defs[n]) ==> n in cert.nullable)
  }

  lemma {:induction false} LeftTop(lang: Lang, cert: Cert, g: Grammar)
    requires Ranked(lang, cert)
    ensures LeftBelow(lang, cert, g, cert.top)
    decreases g, 0
  {
    match g
    case And(parts) => LeftTopSeq(lang, cert, parts);
    case Or(alts) =>
      forall i | 0 <= i < |alts| ensures LeftBelow(lang, cert, alts[i], cert.top) {
        LeftTop(lang, cert, alts[i]);
      }
    case Not(parts) => LeftTopSeq(lang, cert, parts);
    case Plus(body) => LeftTop(lang, cert, body);
    case Star(body) => LeftTop(lang, cert, body);
    case Opt(body) => LeftTop(lang, cert, body);
    case _ =>
  }

  lemma {:induction false} LeftTopSeq(lang: Lang, cert: Cert, parts: seq<Grammar>)
    requires Ranked(lang, cert)
    ensures LeftBelowSeq(lang, cert, parts, cert.top)
    decreases parts, 0
  {
    if parts != [] {
      LeftTop(lang, cert, parts[0]);
      LeftTopSeq(lang, cert, parts[1..]);
    }
  }

  // ---- parsing ------------------------------------------------------------------------------------------

  datatype Result = Result(ok: bool, pos: nat, node: Ast, errors: seq<Error>)

  /** a sequence of nodes instead of one; `pos` is the cursor when it stopped */
  datatype Results = Results(ok: bool, pos: nat, nodes: seq<Ast>, errors: seq<Error>)

  const NONE := Node(Or([]), [], [])

  function Failed(i: nat, errors: seq<Error>): Result {
    Result(false, i, NONE, errors)
  }

  /** a node over the input from i to j */
  function Over(inp: Input, g: Grammar, i: nat, j: nat, kids: seq<Ast>): Ast
    requires i <= j <= |inp.text|
  {
    Node(g, inp.text[i..j], kids)
  }

  function Terminal(lang: Lang, inp: Input, g: Grammar, i: nat): Result
    requires IsTerminal(g) && i <= |inp.text|
  {
    var w := SkipWs(inp, i);
    match TerminalEnd(lang, inp, g, w)
    case None => Failed(i, [Error(g, i)])
    case Some(e) => Result(true, e, Over(inp, g, w, e, []), [])
  }

  /** the rank bound for what follows a match from i to j: none once something was consumed */
  function Bound(cert: Cert, k: nat, i: nat, j: nat): nat {
    if j > i then cert.top else k
  }

  function Parse(lang: Lang, cert: Cert, inp: Input, g: Grammar, i: nat, k: nat): (r: Result)
    requires Ranked(lang, cert) && LeftBelow(lang, cert, g, k) && i <= |inp.text|
    ensures if r.ok then i <= r.pos <= |inp.text| else r.pos == i
    ensures r.ok && r.pos == i ==> Nullable(lang, cert, g)
    decreases |inp.text| - i, k, g, 0
  {
    match g
    case And(parts) =>
      var r := ParseAll(lang, cert, inp, parts, i, k);
      if r.ok then Result(true, r.pos, Over(inp, g, i, r.pos, r.nodes), r.errors)
      else Failed(i, r.errors + [Error(g, r.pos)])
    case Or(alts) =>
      var r := ParseAny(lang, cert, inp, alts, i, k);
      if r.ok then Result(true, r.pos, Over(inp, g, i, r.pos, [r.node]), r.errors)
      else if alts == [] then Failed(i, [])
      else Failed(i, r.errors + [Error(g, i)])
    case Not(parts) =>
      var w := SkipWs(inp, i);
      LeftTopSeq(lang, cert, parts);
      var r := ParseAll(lang, cert, inp, parts, w, Bound(cert, k, i, w));
      if r.ok then Failed(i, r.errors + [Error(g, i)])
      else Result(true, i, Over(inp, g, i, i, []), r.errors)
    case Plus(body) =>
      var r := Parse(lang, cert, inp, body, i, k);
      if !r.ok then Failed(i, r.errors + [Error(g, i)])
      else
        LeftTop(lang, cert, body);
        var more := ParseMany(lang, cert, inp, body, r.pos, Bound(cert, k, i, r.pos));
        Result(true, more.pos, Over(inp, g, i, more.pos, [r.node] + more.nodes), r.errors + more.errors)
    case Star(body) =>
      var r := ParseMany(lang, cert, inp, body, i, k);
      Result(true, r.pos, Over(inp, g, i, r.pos, r.nodes), r.errors)
    case Opt(body) =>
      var r := Parse(lang, cert, inp, body, i, k);
      Result(true, r.pos, Over(inp, g, i, r.pos, if r.ok then [r.node] else []), r.errors)
    case Rule(n) =>
      if n !in lang.defs then Result(true, i, Over(inp, g, i, i, []), [])
      else
        var r := Parse(lang, cert, inp, lang.defs[n], i, cert.rank[n]);
        if r.ok then Result(true, r.pos, Over(inp, g, i, r.pos, [r.node]), r.errors) else Failed(i, r.errors)
    case _ => Terminal(lang, inp, g, i)
  }

  /** each part in turn; stops where one fails */
  function ParseAll(lang: Lang, cert: Cert, inp: Input, parts: seq<Grammar>, i: nat, k: nat): (r: Results)
    requires Ranked(lang, cert) && LeftBelowSeq(lang, cert, parts, k) && i <= |inp.text|
    ensures i <= r.pos <= |inp.text|
    ensures r.ok && r.pos == i ==> forall j :: 0 <= j < |parts| ==> Nullable(lang, cert, parts[j])
    decreases |inp.text| - i, k, parts, 0
  {
    if parts == [] then Results(true, i, [], [])
    else
      var r := Parse(lang, cert, inp, parts[0], i, k);
      if !r.ok then Results(false, i, [], r.errors)
      else
        LeftTopSeq(lang, cert, parts[1..]);
        var rest := ParseAll(lang, cert, inp, parts[1..], r.pos, Bound(cert, k, i, r.pos));
        Results(rest.ok, rest.pos, [r.node] + rest.nodes, r.errors + rest.errors)
  }

  /** the first alternative that matches */
  function ParseAny(lang: Lang, cert: Cert, inp: Input, alts: seq<Grammar>, i: nat, k: nat): (r: Result)
    requires Ranked(lang, cert) && i <= |inp.text|
    requires forall j :: 0 <= j < |alts| ==> LeftBelow(lang, cert, alts[j], k)
    ensures if r.ok then i <= r.pos <= |inp.text| else r.pos == i
    ensures r.ok && r.pos == i ==> exists j :: 0 <= j < |alts| && Nullable(lang, cert, alts[j])
    decreases |inp.text| - i, k, alts, 0
  {
    if alts == [] then Failed(i, [])
    else
      var r := Parse(lang, cert, inp, alts[0], i, k);
      if r.ok then r
      else
        var rest := ParseAny(lang, cert, inp, alts[1..], i, k);
        rest.(errors := r.errors + rest.errors)
  }

  /** matches the body for as long as it consumes something; a last, empty match is dropped */
  function ParseMany(lang: Lang, cert: Cert, inp: Input, body: Grammar, i: nat, k: nat): (r: Results)
    requires Ranked(lang, cert) && LeftBelow(lang, cert, body, k) && i <= |inp.text|
    ensures i <= r.pos <= |inp.text|
    decreases |inp.text| - i, k, body, 1
  {
    if i == |inp.text| then Results(true, i, [], [])
    else
      var r := Parse(lang, cert, inp, body, i, k);
      if !r.ok || r.pos == i then Results(true, i, [], r.errors)
      else
        LeftTop(lang, cert, body);
        var rest := ParseMany(lang, cert, inp, body, r.pos, cert.top);
        Results(true, rest.pos, [r.node] + rest.nodes, r.errors + rest.errors)
  }

  /** The whole input must be matched. Errors collected on the way are reported only when the start
      rule fails; stopping short of the end is reported by itself. */
  function ParseTop(lang: Lang, cert: Cert, inp: Input, start: Grammar): Result
    requires Ranked(lang, cert)
  {
    LeftTop(lang, cert, start);
    var r := Parse(lang, cert, inp, start, 0, cert.top);
    if !r.ok then Failed(0, r.errors)
    else if r.pos != |inp.text| then Failed(r.pos, [Error(start, r.pos)])
    else Result(true, r.pos, r.node, [])
  }
}
