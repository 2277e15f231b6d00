/** The parser that builds separate syntax-tree nodes. */
module ParseAst {
  import opened ParseGrammar
  import S = ParseSpec

  class Context {
    const inp: Input
    const lang: Lang
    var errors: seq<Error>

    constructor (lang: Lang, inp: Input)
      ensures this.lang == lang && this.inp == inp && errors == []
    {
      this.lang, this.inp, errors := lang, inp, [];
    }

    method Fail(rule: Grammar, pos: nat)
      modifies this
      ensures errors == old(errors) + [Error(rule, pos)]
    {
      errors := errors + [Error(rule, pos)];
    }

    /** moves a cursor over whitespace */
    method SkipWs(begin: nat) returns (i: nat)
      requires begin <= |inp.text|
      ensures i == ParseGrammar.SkipWs(inp, begin)
    {
      i := begin;
      while i != |inp.text| && IsWs(inp, inp.text[i])
        invariant begin <= i <= |inp.text|
        invariant ParseGrammar.SkipWs(inp, i) == ParseGrammar.SkipWs(inp, begin)
      {
        i := i + 1;
      }
    }

    /** compares the input with a literal, character by character */
    method MatchLiteral(lit: seq<Ch>, begin: nat) returns (end: Option<nat>)
      requires begin <= |inp.text|
      ensures end == TerminalEnd(lang, inp, Str(lit), begin)
    {
      var i := 0;
      while i < |lit|
        invariant 0 <= i <= |lit| && begin + i <= |inp.text|
        invariant forall j :: 0 <= j < i ==> CharMatch(inp.text[begin + j], lit[j], inp.ignoreCase)
      {
        if begin + i == |inp.text| || !CharMatch(inp.text[begin + i], lit[i], inp.ignoreCase) {
          return None;
        }
        i := i + 1;
      }
      end := Some(begin + i);
    }

    /** what a terminal matches from a position on that is not whitespace */
    method MatchTerminal(g: Grammar, begin: nat) returns (end: Option<nat>)
      requires IsTerminal(g) && begin <= |inp.text|
      ensures end == TerminalEnd(lang, inp, g, begin)
    {
      match g {
        case Str(lit) => end := MatchLiteral(lit, begin);
        case Chr(c) =>
          if begin == |inp.text| || !CharMatch(inp.text[begin], c, inp.ignoreCase) {
            return None;
          }
          end := Some(begin + 1);
        case Range(first, last) =>
          if begin == |inp.text| {
            return None;
          }
          var c := inp.text[begin];
          if !InRange(c, first, last) && !(inp.ignoreCase && InRange(SwapCase(c), first, last)) {
            return None;
          }
          end := Some(begin + 1);
        case Regex(id) =>
          if begin == |inp.text| {
            return None;
          }
          var n := RegexLen(lang, id, inp.text[begin..]);
          end := if n.Some? then Some(begin + n.value) else None;
      }
    }
  }

  class AstNode {
    const rule: Grammar
    var text: seq<Ch>
    var children: seq<AstNode>
    ghost var Repr: set<object>

    constructor (rule: Grammar)
      ensures this.rule == rule && text == [] && children == [] && Repr == {this} && HasKids([])
    {
      this.rule, text, children, Repr := rule, [], [], {this};
    }

    /** the objects from here down spell out the tree a */
    ghost predicate Spells(a: Ast)
      reads this, Repr
      decreases a, 1
    {
      rule == a.rule && text == a.text && HasKids(a.kids)
    }

    ghost predicate HasKids(kids: seq<Ast>)
      reads this, Repr
      decreases kids, 0
    {
      && this in Repr && |children| == |kids|
      && forall m {:trigger HasKid(kids, m)} :: 0 <= m < |kids| ==> HasKid(kids, m)
    }

    ghost predicate HasKid(kids: seq<Ast>, m: nat)
      requires m < |children| == |kids|
      reads this, Repr
      decreases kids, 0, 0
    {
      children[m] in Repr && children[m].Repr <= Repr && this !in children[m].Repr && children[m].Spells(kids[m])
    }

    method Adopt(child: AstNode, ghost kids: seq<Ast>, ghost a: Ast)
      requires HasKids(kids) && child.Spells(a) && this !in child.Repr
      modifies this
      ensures HasKids(kids + [a]) && text == old(text) && Repr == old(Repr) + child.Repr
    {
      children := children + [child];
      Repr := Repr + child.Repr;
      ghost var all := kids + [a];
      forall m | 0 <= m < |all| ensures HasKid(all, m) {
        if m < |kids| {
          assert old(HasKid(kids, m));
        }
      }
    }

    method SetText(t: seq<Ch>, ghost kids: seq<Ast>)
      requires HasKids(kids)
      modifies this
      ensures HasKids(kids) && text == t && Repr == old(Repr)
    {
      text := t;
      forall m | 0 <= m < |kids| ensures HasKid(kids, m) {
        assert old(HasKid(kids, m));
      }
    }
  }

  /** what parsing has done agrees with r: its answer, the cursor and the errors logged */
  predicate Agrees(r: S.Result, ok: bool, end: nat, before: seq<Error>, after: seq<Error>) {
    ok == r.ok && end == r.pos && after == before + r.errors
  }

  /** Tries g at the cursor `begin`. On success `out` is the node and `end` the new cursor; on failure
      the cursor is where it was. */
  method Parse(ctx: Context, g: Grammar, begin: nat, ghost cert: S.Cert, ghost k: nat)
    returns (ok: bool, end: nat, out: AstNode?)
    requires S.Ranked(ctx.lang, cert) && S.LeftBelow(ctx.lang, cert, g, k) && begin <= |ctx.inp.text|
    modifies ctx
    ensures Agrees(S.Parse(ctx.lang, cert, ctx.inp, g, begin, k), ok, end, old(ctx.errors), ctx.errors)
    ensures ok ==> out != null && fresh(out.Repr) && out.Spells(S.Parse(ctx.lang, cert, ctx.inp, g, begin, k).node)
    decreases |ctx.inp.text| - begin, k, g, 1
  {
    hide *;
    match g {
      case And(_) => ok, end, out := ParseAnd(ctx, g, begin, cert, k);
      case Or(_) => ok, end, out := ParseOr(ctx, g, begin, cert, k);
      case Not(_) => ok, end, out := ParseNot(ctx, g, begin, cert, k);
      case Plus(_) => ok, end, out := ParsePlus(ctx, g, begin, cert, k);
      case Star(_) => ok, end, out := ParseStar(ctx, g, begin, cert, k);
      case Opt(_) => ok, end, out := ParseOpt(ctx, g, begin, cert, k);
      case Rule(_) => ok, end, out := ParseRule(ctx, g, begin, cert, k);
      case Str(_) => ok, end, out := ParseTerminal(ctx, g, begin, cert, k);
      case Chr(_) => ok, end, out := ParseTerminal(ctx, g, begin, cert, k);
      case Range(_, _) => ok, end, out := ParseTerminal(ctx, g, begin, cert, k);
      case Regex(_) => ok, end, out := ParseTerminal(ctx, g, begin, cert, k);
    }
  }

  method ParseTerminal(ctx: Context, g: Grammar, begin: nat, ghost cert: S.Cert, ghost k: nat)
    returns (ok: bool, end: nat, out: AstNode?)
    requires S.Ranked(ctx.lang, cert) && S.LeftBelow(ctx.lang, cert, g, k) && begin <= |ctx.inp.text|
    requires g.Str? || g.Chr? || g.Range? || g.Regex?
    modifies ctx
    ensures Agrees(S.Parse(ctx.lang, cert, ctx.inp, g, begin, k), ok, end, old(ctx.errors), ctx.errors)
    ensures ok ==> out != null && fresh(out.Repr) && out.Spells(S.Parse(ctx.lang, cert, ctx.inp, g, begin, k).node)
    decreases |ctx.inp.text| - begin, k, g, 0
  {
    hide S.Ranked, S.LeftBelow, S.ParseAll, S.ParseAny, S.ParseMany, SkipWs, TerminalEnd;
    ok, end, out := false, begin, null;
    var start := ctx.SkipWs(begin);
    var e := ctx.MatchTerminal(g, start);
    if e.None? {
      ctx.Fail(g, begin);
      return;
    }
    var node := new AstNode(g);
    node.SetText(ctx.inp.text[start..e.value], []);
    ok, end, out := true, e.value, node;
  }

  method ParseAnd(ctx: Context, g: Grammar, begin: nat, ghost cert: S.Cert, ghost k: nat)
    returns (ok: bool, end: nat, out: AstNode?)
    requires S.Ranked(ctx.lang, cert) && S.LeftBelow(ctx.lang, cert, g, k) && begin <= |ctx.inp.text| && g.And?
    modifies ctx
    ensures Agrees(S.Parse(ctx.lang, cert, ctx.inp, g, begin, k), ok, end, old(ctx.errors), ctx.errors)
    ensures ok ==> out != null && fresh(out.Repr) && out.Spells(S.Parse(ctx.lang, cert, ctx.inp, g, begin, k).node)
    decreases |ctx.inp.text| - begin, k, g, 0
  {
    hide S.Ranked, S.ParseAll, S.LeftBelowSeq, S.Nullable;
    var node := new AstNode(g);
    ok, end := TryAll(ctx, g, g.parts, begin, node, [], cert, k);
    if !ok {
      return false, begin, null;
    }
    ghost var r := S.ParseAll(ctx.lang, cert, ctx.inp, g.parts, begin, k);
    assert [] + r.nodes == r.nodes;
    node.SetText(ctx.inp.text[begin..end], r.nodes);
    out := node;
  }

  /** each part in turn, adopted by `node`; the part that fails is logged where it was tried */
  method TryAll(ctx: Context, g: Grammar, parts: seq<Grammar>, begin: nat, node: AstNode, ghost kids: seq<Ast>,
                ghost cert: S.Cert, ghost k: nat)
    returns (ok: bool, end: nat)
    requires S.Ranked(ctx.lang, cert) && S.LeftBelowSeq(ctx.lang, cert, parts, k) && begin <= |ctx.inp.text|
    requires node.HasKids(kids) && ctx !in node.Repr
    modifies ctx, node
    ensures var r := S.ParseAll(ctx.lang, cert, ctx.inp, parts, begin, k);
            && ok == r.ok && (ok ==> end == r.pos && node.HasKids(kids + r.nodes))
            && ctx.errors == old(ctx.errors) + r.errors + if r.ok then [] else [Error(g, r.pos)]
    ensures fresh(node.Repr - old(node.Repr)) && ctx !in node.Repr
    decreases |ctx.inp.text| - begin, k, parts, 0
  {
    hide S.Ranked, S.LeftBelow, S.Parse, S.Nullable;
    if parts == [] {
      assert kids + [] == kids;
      return true, begin;
    }
    var child;
    ok, end, child := Parse(ctx, parts[0], begin, cert, k);
    if !ok {
      ctx.Fail(g, end);
      return;
    }
    ghost var a := S.Parse(ctx.lang, cert, ctx.inp, parts[0], begin, k).node;
    node.Adopt(child, kids, a);
    S.LeftTopSeq(ctx.lang, cert, parts[1..]);
    ghost var k' := S.Bound(cert, k, begin, end);
    ghost var rest := S.ParseAll(ctx.lang, cert, ctx.inp, parts[1..], end, k');
    assert kids + ([a] + rest.nodes) == (kids + [a]) + rest.nodes;
    ok, end := TryAll(ctx, g, parts[1..], end, node, kids + [a], cert, k');
  }

  method ParseOr(ctx: Context, g: Grammar, begin: nat, ghost cert: S.Cert, ghost k: nat)
    returns (ok: bool, end: nat, out: AstNode?)
    requires S.Ranked(ctx.lang, cert) && S.LeftBelow(ctx.lang, cert, g, k) && begin <= |ctx.inp.text| && g.Or?
    modifies ctx
    ensures Agrees(S.Parse(ctx.lang, cert, ctx.inp, g, begin, k), ok, end, old(ctx.errors), ctx.errors)
    ensures ok ==> out != null && fresh(out.Repr) && out.Spells(S.Parse(ctx.lang, cert, ctx.inp, g, begin, k).node)
    decreases |ctx.inp.text| - begin, k, g, 0
  {
    hide S.Ranked, S.Nullable;
    var child;
    ok, end, child := TryAny(ctx, g, g.alts, begin, g.alts == [], cert, k);
    if !ok {
      return false, begin, null;
    }
    var node := new AstNode(g);
    ghost var a := S.ParseAny(ctx.lang, cert, ctx.inp, g.alts, begin, k).node;
    node.Adopt(child, [], a);
    assert [] + [a] == [a];
    node.SetText(ctx.inp.text[begin..end], [a]);
    out := node;
  }

  /** The first alternative that matches. When the last one fails too, that is logged; `none` says that
      there were none at all. */
  method TryAny(ctx: Context, g: Grammar, alts: seq<Grammar>, begin: nat, none: bool, ghost cert: S.Cert, ghost k: nat)
    returns (ok: bool, end: nat, out: AstNode?)
    requires S.Ranked(ctx.lang, cert) && begin <= |ctx.inp.text| && (none ==> alts == [])
    requires forall j :: 0 <= j < |alts| ==> S.LeftBelow(ctx.lang, cert, alts[j], k)
    modifies ctx
    ensures var r := S.ParseAny(ctx.lang, cert, ctx.inp, alts, begin, k);
            && ok == r.ok && end == r.pos
            && ctx.errors == old(ctx.errors) + r.errors + (if r.ok || none then [] else [Error(g, begin)])
            && (ok ==> out != null && fresh(out.Repr) && out.Spells(r.node))
    decreases |ctx.inp.text| - begin, k, alts, 0
  {
    hide S.Ranked, S.LeftBelow, S.Parse, S.Nullable;
    if alts == [] {
      if !none {
        ctx.Fail(g, begin);
      }
      return false, begin, null;
    }
    ok, end, out := Parse(ctx, alts[0], begin, cert, k);
    if !ok {
      ok, end, out := TryAny(ctx, g, alts[1..], begin, false, cert, k);
    }
  }

  method ParseNot(ctx: Context, g: Grammar, begin: nat, ghost cert: S.Cert, ghost k: nat)
    returns (ok: bool, end: nat, out: AstNode?)
    requires S.Ranked(ctx.lang, cert) && S.LeftBelow(ctx.lang, cert, g, k) && begin <= |ctx.inp.text| && g.Not?
    modifies ctx
    ensures Agrees(S.Parse(ctx.lang, cert, ctx.inp, g, begin, k), ok, end, old(ctx.errors), ctx.errors)
    ensures ok ==> out != null && fresh(out.Repr) && out.Spells(S.Parse(ctx.lang, cert, ctx.inp, g, begin, k).node)
    decreases |ctx.inp.text| - begin, k, g, 0
  {
    hide S.Ranked, S.ParseAll, S.LeftBelowSeq, S.Nullable, SkipWs;
    ok, end, out := false, begin, null;
    var start := ctx.SkipWs(begin);
    S.LeftTopSeq(ctx.lang, cert, g.parts);
    var matched := TrySeq(ctx, g.parts, start, cert, S.Bound(cert, k, begin, start));
    if matched {
      ctx.Fail(g, begin);
      return;
    }
    var node := new AstNode(g);
    assert ctx.inp.text[begin..begin] == [];
    ok, out := true, node;
  }

  /** whether the parts match in turn; nothing is kept of them */
  method TrySeq(ctx: Context, parts: seq<Grammar>, begin: nat, ghost cert: S.Cert, ghost k: nat) returns (ok: bool)
    requires S.Ranked(ctx.lang, cert) && S.LeftBelowSeq(ctx.lang, cert, parts, k) && begin <= |ctx.inp.text|
    modifies ctx
    ensures var r := S.ParseAll(ctx.lang, cert, ctx.inp, parts, begin, k);
            ok == r.ok && ctx.errors == old(ctx.errors) + r.errors
    decreases |ctx.inp.text| - begin, k, parts, 0
  {
    hide S.Ranked, S.LeftBelow, S.Parse, S.Nullable;
    if parts == [] {
      return true;
    }
    var end, child;
    ok, end, child := Parse(ctx, parts[0], begin, cert, k);
    if ok {
      S.LeftTopSeq(ctx.lang, cert, parts[1..]);
      ok := TrySeq(ctx, parts[1..], end, cert, S.Bound(cert, k, begin, end));
    }
  }

  /** a repetition that needs one match, in terms of its first match and the rest */
  lemma PlusUnfolds(lang: Lang, cert: S.Cert, inp: Input, g: Grammar, i: nat, k: nat, before: seq<Error>)
    requires S.Ranked(lang, cert) && S.LeftBelow(lang, cert, g, k) && g.Plus? && i <= |inp.text|
    ensures S.LeftBelow(lang, cert, g.body, k) && S.LeftBelow(lang, cert, g.body, cert.top)
    ensures var first, r := S.Parse(lang, cert, inp, g.body, i, k), S.Parse(lang, cert, inp, g, i, k);
            if !first.ok then
              r == S.Failed(i, first.errors + [Error(g, i)])
                && before + first.errors + [Error(g, i)] == before + r.errors
            else
              i <= first.pos <= |inp.text| && S.LeftBelow(lang, cert, g.body, S.Bound(cert, k, i, first.pos))
              && var more := S.ParseMany(lang, cert, inp, g.body, first.pos, S.Bound(cert, k, i, first.pos));
                 && r == S.Result(true, more.pos, S.Over(inp, g, i, more.pos, [first.node] + more.nodes),
                                  first.errors + more.errors)
                 && before + first.errors + more.errors == before + r.errors
  {
    hide S.Ranked, S.ParseMany, S.Nullable;
    S.LeftTop(lang, cert, g.body);
  }

  method ParsePlus(ctx: Context, g: Grammar, begin: nat, ghost cert: S.Cert, ghost k: nat)
    returns (ok: bool, end: nat, out: AstNode?)
    requires S.Ranked(ctx.lang, cert) && S.LeftBelow(ctx.lang, cert, g, k) && begin <= |ctx.inp.text| && g.Plus?
    modifies ctx
    ensures Agrees(S.Parse(ctx.lang, cert, ctx.inp, g, begin, k), ok, end, old(ctx.errors), ctx.errors)
    ensures ok ==> out != null && fresh(out.Repr) && out.Spells(S.Parse(ctx.lang, cert, ctx.inp, g, begin, k).node)
    decreases |ctx.inp.text| - begin, k, g, 0
  {
    hide S.Ranked, S.Parse, S.ParseMany, S.LeftBelow, S.Nullable, AstNode.HasKid;
    PlusUnfolds(ctx.lang, cert, ctx.inp, g, begin, k, ctx.errors);
    var node := new AstNode(g);
    var child;
    ok, end, child := Parse(ctx, g.body, begin, cert, k);
    if !ok {
      ctx.Fail(g, begin);
      return false, begin, null;
    }
    ghost var a := S.Parse(ctx.lang, cert, ctx.inp, g.body, begin, k).node;
    node.Adopt(child, [], a);
    assert [] + [a] == [a];
    ghost var k', mid := S.Bound(cert, k, begin, end), end;
    end := TryMany(ctx, g.body, end, node, [a], cert, k');
    ghost var r := S.ParseMany(ctx.lang, cert, ctx.inp, g.body, mid, k');
    node.SetText(ctx.inp.text[begin..end], [a] + r.nodes);
    out := node;
  }

  method ParseStar(ctx: Context, g: Grammar, begin: nat, ghost cert: S.Cert, ghost k: nat)
    returns (ok: bool, end: nat, out: AstNode?)
    requires S.Ranked(ctx.lang, cert) && S.LeftBelow(ctx.lang, cert, g, k) && begin <= |ctx.inp.text| && g.Star?
    modifies ctx
    ensures Agrees(S.Parse(ctx.lang, cert, ctx.inp, g, begin, k), ok, end, old(ctx.errors), ctx.errors)
    ensures ok ==> out != null && fresh(out.Repr) && out.Spells(S.Parse(ctx.lang, cert, ctx.inp, g, begin, k).node)
    decreases |ctx.inp.text| - begin, k, g, 0
  {
    hide S.Ranked, S.ParseMany, S.Nullable, SkipWs;
    var node := new AstNode(g);
    end := TryMany(ctx, g.body, begin, node, [], cert, k);
    ghost var r := S.ParseMany(ctx.lang, cert, ctx.inp, g.body, begin, k);
    assert [] + r.nodes == r.nodes;
    node.SetText(ctx.inp.text[begin..end], r.nodes);
    ok, out := true, node;
  }

  /** matches the body again and again, until the end of the input, a failure, or a match of nothing */
  method TryMany(ctx: Context, body: Grammar, begin: nat, node: AstNode, ghost kids: seq<Ast>, ghost cert: S.Cert,
                 ghost k: nat)
    returns (end: nat)
    requires S.Ranked(ctx.lang, cert) && S.LeftBelow(ctx.lang, cert, body, k) && begin <= |ctx.inp.text|
    requires node.HasKids(kids) && ctx !in node.Repr
    modifies ctx, node
    ensures var r := S.ParseMany(ctx.lang, cert, ctx.inp, body, begin, k);
            end == r.pos && node.HasKids(kids + r.nodes) && ctx.errors == old(ctx.errors) + r.errors
    ensures fresh(node.Repr - old(node.Repr)) && ctx !in node.Repr
    decreases |ctx.inp.text| - begin, k, body, 3
  {
    hide *;
    end := begin;
    ghost var r0 := S.ParseMany(ctx.lang, cert, ctx.inp, body, begin, k);
    ghost var all, log, k' := kids, ctx.errors, k;
    NothingYet(all, log, r0);
    while end != |ctx.inp.text|
      invariant begin <= end <= |ctx.inp.text| && S.LeftBelow(ctx.lang, cert, body, k')
      invariant end == begin ==> k' == k
      invariant SoFar(kids, old(ctx.errors), r0, all, log, S.ParseMany(ctx.lang, cert, ctx.inp, body, end, k'))
      invariant node.HasKids(all) && ctx.errors == log
      invariant fresh(node.Repr - old(node.Repr)) && ctx !in node.Repr
      decreases |ctx.inp.text| - end
    {
      ghost var back := end;
      var more;
      more, end := TryOnce(ctx, body, end, node, all, cert, k');
      OneTurn(ctx.lang, cert, ctx.inp, body, back, k', kids, old(ctx.errors), r0, all, log);
      ghost var r := S.Parse(ctx.lang, cert, ctx.inp, body, back, k');
      log := log + r.errors;
      if !more {
        return;
      }
      all, k' := all + [r.node], cert.top;
    }
    NoTurn(ctx.lang, cert, ctx.inp, body, k', kids, old(ctx.errors), r0, all, log);
  }

  /** a repetition that ends in r0: the nodes and errors so far, and what is still to come */
  predicate SoFar(kids: seq<Ast>, before: seq<Error>, r0: S.Results, all: seq<Ast>, log: seq<Error>, rest: S.Results) {
    r0.pos == rest.pos && kids + r0.nodes == all + rest.nodes && before + r0.errors == log + rest.errors
  }

  lemma NothingYet(kids: seq<Ast>, before: seq<Error>, r0: S.Results)
    ensures SoFar(kids, before, r0, kids, before, r0)
  {
  }

  lemma NoTurn(lang: Lang, cert: S.Cert, inp: Input, body: Grammar, k: nat, kids: seq<Ast>, before: seq<Error>,
               r0: S.Results, all: seq<Ast>, log: seq<Error>)
    requires S.Ranked(lang, cert) && S.LeftBelow(lang, cert, body, k)
    requires SoFar(kids, before, r0, all, log, S.ParseMany(lang, cert, inp, body, |inp.text|, k))
    ensures r0.pos == |inp.text| && kids + r0.nodes == all && before + r0.errors == log
  {
    assert all + [] == all && log + [] == log;
  }

  lemma OneTurn(lang: Lang, cert: S.Cert, inp: Input, body: Grammar, i: nat, k: nat, kids: seq<Ast>,
                before: seq<Error>, r0: S.Results, all: seq<Ast>, log: seq<Error>)
    requires S.Ranked(lang, cert) && S.LeftBelow(lang, cert, body, k) && i < |inp.text|
    requires SoFar(kids, before, r0, all, log, S.ParseMany(lang, cert, inp, body, i, k))
    ensures S.LeftBelow(lang, cert, body, cert.top)
    ensures var r := S.Parse(lang, cert, inp, body, i, k);
            if r.ok && r.pos != i then
              SoFar(kids, before, r0, all + [r.node], log + r.errors,
                    S.ParseMany(lang, cert, inp, body, r.pos, cert.top))
            else
              r0.pos == i && kids + r0.nodes == all && before + r0.errors == log + r.errors
  {
    hide S.Ranked, S.LeftBelow, S.Parse, S.Nullable;
    S.LeftTop(lang, cert, body);
    var r := S.Parse(lang, cert, inp, body, i, k);
    if r.ok && r.pos != i {
      var rest := S.ParseMany(lang, cert, inp, body, r.pos, cert.top);
      assert all + ([r.node] + rest.nodes) == (all + [r.node]) + rest.nodes;
      assert log + (r.errors + rest.errors) == (log + r.errors) + rest.errors;
    } else {
      assert all + [] == all;
    }
  }

  /** one turn of a repetition: a match of nothing is not kept */
  method TryOnce(ctx: Context, body: Grammar, begin: nat, node: AstNode, ghost kids: seq<Ast>, ghost cert: S.Cert,
                 ghost k: nat)
    returns (more: bool, end: nat)
    requires S.Ranked(ctx.lang, cert) && S.LeftBelow(ctx.lang, cert, body, k) && begin <= |ctx.inp.text|
    requires node.HasKids(kids) && ctx !in node.Repr
    modifies ctx, node
    ensures var r := S.Parse(ctx.lang, cert, ctx.inp, body, begin, k);
            && more == (r.ok && r.pos != begin) && end == (if more then r.pos else begin)
            && node.HasKids(if more then kids + [r.node] else kids) && ctx.errors == old(ctx.errors) + r.errors
    ensures fresh(node.Repr - old(node.Repr)) && ctx !in node.Repr
    decreases |ctx.inp.text| - begin, k, body, 2
  {
    hide S.Ranked, S.LeftBelow, S.Parse, S.Nullable, AstNode.HasKid;
    var ok, child;
    ok, end, child := Parse(ctx, body, begin, cert, k);
    AgreesMeans(S.Parse(ctx.lang, cert, ctx.inp, body, begin, k), ok, end, old(ctx.errors), ctx.errors);
    if !ok {
      return false, begin;
    }
    if end == begin {
      return false, end;
    }
    node.Adopt(child, kids, S.Parse(ctx.lang, cert, ctx.inp, body, begin, k).node);
    more := true;
  }

  lemma AgreesMeans(r: S.Result, ok: bool, end: nat, before: seq<Error>, after: seq<Error>)
    requires Agrees(r, ok, end, before, after)
    ensures ok == r.ok && end == r.pos && after == before + r.errors
  {
  }

  method ParseOpt(ctx: Context, g: Grammar, begin: nat, ghost cert: S.Cert, ghost k: nat)
    returns (ok: bool, end: nat, out: AstNode?)
    requires S.Ranked(ctx.lang, cert) && S.LeftBelow(ctx.lang, cert, g, k) && begin <= |ctx.inp.text| && g.Opt?
    modifies ctx
    ensures Agrees(S.Parse(ctx.lang, cert, ctx.inp, g, begin, k), ok, end, old(ctx.errors), ctx.errors)
    ensures ok ==> out != null && fresh(out.Repr) && out.Spells(S.Parse(ctx.lang, cert, ctx.inp, g, begin, k).node)
    decreases |ctx.inp.text| - begin, k, g, 0
  {
    hide S.Ranked, S.Nullable, S.ParseAll, S.ParseAny, S.ParseMany;
    var node := new AstNode(g);
    var child;
    ok, end, child := Parse(ctx, g.body, begin, cert, k);
    ghost var kids: seq<Ast> := [];
    if ok {
      ghost var a := S.Parse(ctx.lang, cert, ctx.inp, g.body, begin, k).node;
      node.Adopt(child, [], a);
      assert [] + [a] == [a];
      kids := [a];
    }
    node.SetText(ctx.inp.text[begin..end], kids);
    ok, out := true, node;
  }

  /** A named rule wraps what its definition matches; a bare rule matches nothing, successfully. */
  method ParseRule(ctx: Context, g: Grammar, begin: nat, ghost cert: S.Cert, ghost k: nat)
    returns (ok: bool, end: nat, out: AstNode?)
    requires S.Ranked(ctx.lang, cert) && S.LeftBelow(ctx.lang, cert, g, k) && begin <= |ctx.inp.text| && g.Rule?
    modifies ctx
    ensures Agrees(S.Parse(ctx.lang, cert, ctx.inp, g, begin, k), ok, end, old(ctx.errors), ctx.errors)
    ensures ok ==> out != null && fresh(out.Repr) && out.Spells(S.Parse(ctx.lang, cert, ctx.inp, g, begin, k).node)
    decreases |ctx.inp.text| - begin, k, g, 0
  {
    hide S.Nullable, S.ParseAll, S.ParseAny, S.ParseMany;
    var node := new AstNode(g);
    ok, end, out := true, begin, node;
    if g.name in ctx.lang.defs {
      var impl := ctx.lang.defs[g.name];
      var child;
      ok, end, child := Parse(ctx, impl, begin, cert, cert.rank[g.name]);
      if !ok {
        return false, begin, null;
      }
      ghost var a := S.Parse(ctx.lang, cert, ctx.inp, impl, begin, cert.rank[g.name]).node;
      node.Adopt(child, [], a);
      assert [] + [a] == [a];
      node.SetText(ctx.inp.text[begin..end], [a]);
    }
  }

  /** Parses a whole input. */
  method ParseTop(lang: Lang, inp: Input, start: Grammar, ghost cert: S.Cert)
    returns (ok: bool, ast: AstNode?, errors: seq<Error>)
    requires S.Ranked(lang, cert)
    ensures var r := S.ParseTop(lang, cert, inp, start);
            ok == r.ok && errors == r.errors && (ok ==> ast != null && fresh(ast.Repr) && ast.Spells(r.node))
  {
    hide S.Ranked, S.Parse, S.LeftBelow;
    S.LeftTop(lang, cert, start);
    var ctx := new Context(lang, inp);
    var end;
    ok, end, ast := Parse(ctx, start, 0, cert, cert.top);
    errors := [];
    if !ok {
      errors := ctx.errors;
    } else if end != |inp.text| {
      ok, ast, errors := false, null, [Error(start, end)];
    }
  }
}
