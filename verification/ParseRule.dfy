/** The parser whose rule objects become the nodes of the tree. */
module ParseRule {
  import opened ParseGrammar
  import opened ParseAst
  import S = ParseSpec

  /** the input and how to read it, and the errors so far */
  class Context {
    const inp: Input
    const lang: Lang
    var errors: seq<Error>

    constructor (lang: Lang, inp: Input)
      ensures this.lang == lang && this.inp == inp && errors == []
    {
      this.lang, this.inp, errors := lang, inp, [];
    }

    method Fail(rule: Grammar, pos: nat)
      modifies this
      ensures errors == old(errors) + [Error(rule, pos)]
    {
      errors := errors + [Error(rule, pos)];
    }

    /** the next position from `begin` on that is not whitespace */
    method SkipBlanks(begin: nat) returns (i: nat)
      requires begin <= |inp.text|
      ensures i == SkipWs(inp, begin)
    {
      i := begin;
      while i < |inp.text| && inp.skipWs && inp.text[i] in inp.ws
        invariant begin <= i <= |inp.text|
        invariant SkipWs(inp, i) == SkipWs(inp, begin)
      {
        i := i + 1;
      }
    }
  }

  class RuleNode {
    const grammar: Grammar
    var children: seq<RuleNode>
    var spanAt: nat
    var spanLen: nat
    var matched: seq<Ch>
    ghost var Repr: set<object>

    constructor (grammar: Grammar)
      ensures this.grammar == grammar && Blank()
    {
      this.grammar, children, spanAt, spanLen, matched, Repr := grammar, [], 0, 0, [], {this};
    }

    /** as it is made, before it has parsed anything */
    ghost predicate Blank()
      reads this
    {
      children == [] && Repr == {this}
    }

    /** A terminal shows what it matched, any other rule the span it recorded. */
    function Text(inp: Input): seq<Ch>
      reads this
    {
      if IsTerminal(grammar) then matched
      else if 0 < spanLen && spanAt + spanLen <= |inp.text| then inp.text[spanAt..spanAt + spanLen]
      else []
    }

    /** the objects from here down spell out the tree a */
    ghost predicate Spells(inp: Input, a: Ast)
      reads this, Repr
      decreases a, 1
    {
      grammar == a.rule && Text(inp) == a.text && HasKids(inp, a.kids)
    }

    ghost predicate HasKids(inp: Input, kids: seq<Ast>)
      reads this, Repr
      decreases kids, 0
    {
      && this in Repr && |children| == |kids|
      && forall m {:trigger HasKid(inp, kids, m)} :: 0 <= m < |kids| ==> HasKid(inp, kids, m)
    }

    ghost predicate HasKid(inp: Input, kids: seq<Ast>, m: nat)
      requires m < |children| == |kids|
      reads this, Repr
      decreases kids, 0, 0
    {
      children[m] in Repr && children[m].Repr <= Repr && this !in children[m].Repr && children[m].Spells(inp, kids[m])
    }

    method Clear()
      modifies this
      ensures Blank() && matched == old(matched)
    {
      children, Repr := [], {this};
    }

    method AddChild(child: RuleNode, ghost inp: Input, ghost kids: seq<Ast>, ghost a: Ast)
      requires HasKids(inp, kids) && child.Spells(inp, a) && this !in child.Repr
      modifies this
      ensures HasKids(inp, kids + [a]) && Repr == old(Repr) + child.Repr
    {
      children := children + [child];
      Repr := Repr + child.Repr;
      ghost var all := kids + [a];
      forall m | 0 <= m < |all| ensures HasKid(inp, all, m) {
        if m < |kids| {
          assert old(HasKid(inp, kids, m));
        }
      }
    }

    method RecordSpan(begin: nat, end: nat, ghost inp: Input, ghost kids: seq<Ast>)
      requires HasKids(inp, kids) && begin <= end <= |inp.text| && !IsTerminal(grammar)
      modifies this
      ensures HasKids(inp, kids) && Repr == old(Repr) && Spells(inp, S.Over(inp, grammar, begin, end, kids))
    {
      spanLen := end - begin;
      spanAt := if spanLen > 0 then begin else 0;
      forall m | 0 <= m < |kids| ensures HasKid(inp, kids, m) {
        assert old(HasKid(inp, kids, m));
      }
    }

    /** Tries this rule at the cursor `begin`. On success this object is the node and `end` the new
        cursor; on failure the cursor is where it was. */
    method Parse(ctx: Context, begin: nat, ghost cert: S.Cert, ghost k: nat) returns (ok: bool, end: nat)
      requires S.Ranked(ctx.lang, cert) && S.LeftBelow(ctx.lang, cert, grammar, k) && begin <= |ctx.inp.text|
      requires Blank()
      modifies this, ctx
      ensures Agrees(S.Parse(ctx.lang, cert, ctx.inp, grammar, begin, k), ok, end, old(ctx.errors), ctx.errors)
      ensures fresh(Repr - {this}) && ctx !in Repr
      ensures ok ==> Spells(ctx.inp, S.Parse(ctx.lang, cert, ctx.inp, grammar, begin, k).node)
      decreases |ctx.inp.text| - begin, k, grammar, 1
    {
      hide *;
      match grammar {
        case And(_) => ok, end := ParseAnd(ctx, begin, cert, k);
        case Or(_) => ok, end := ParseOr(ctx, begin, cert, k);
        case Not(_) => ok, end := ParseNot(ctx, begin, cert, k);
        case Plus(_) => ok, end := ParsePlus(ctx, begin, cert, k);
        case Star(_) => ok, end := ParseStar(ctx, begin, cert, k);
        case Opt(_) => ok, end := ParseOpt(ctx, begin, cert, k);
        case Rule(_) => ok, end := ParseNamed(ctx, begin, cert, k);
        case Str(_) => ok, end := ParseTerminal(ctx, begin, cert, k);
        case Chr(_) => ok, end := ParseTerminal(ctx, begin, cert, k);
        case Range(_, _) => ok, end := ParseTerminal(ctx, begin, cert, k);
        case Regex(_) => ok, end := ParseTerminal(ctx, begin, cert, k);
      }
    }

    method ParseTerminal(ctx: Context, begin: nat, ghost cert: S.Cert, ghost k: nat) returns (ok: bool, end: nat)
      requires grammar.Str? || grammar.Chr? || grammar.Range? || grammar.Regex?
      requires S.Ranked(ctx.lang, cert) && S.LeftBelow(ctx.lang, cert, grammar, k) && begin <= |ctx.inp.text|
      requires Blank()
      modifies this, ctx
      ensures Agrees(S.Parse(ctx.lang, cert, ctx.inp, grammar, begin, k), ok, end, old(ctx.errors), ctx.errors)
      ensures fresh(Repr - {this}) && ctx !in Repr
      ensures ok ==> Spells(ctx.inp, S.Parse(ctx.lang, cert, ctx.inp, grammar, begin, k).node)
      decreases |ctx.inp.text| - begin, k, grammar, 0
    {
      hide S.Ranked, S.LeftBelow, S.ParseAll, S.ParseAny, S.ParseMany, SkipWs, TerminalEnd;
      match grammar {
        case Str(_) => ok, end := ParseLiteral(ctx, begin);
        case Chr(_) => ok, end := ParseCharacter(ctx, begin);
        case Range(_, _) => ok, end := ParseRange(ctx, begin);
        case Regex(_) => ok, end := ParseRegex(ctx, begin);
      }
    }

    /** the terminals record what they matched, which need not be how the grammar spells it */
    method ParseLiteral(ctx: Context, begin: nat) returns (ok: bool, end: nat)
      requires grammar.Str? && begin <= |ctx.inp.text| && Blank()
      modifies this, ctx
      ensures Agrees(S.Terminal(ctx.lang, ctx.inp, grammar, begin), ok, end, old(ctx.errors), ctx.errors)
      ensures Blank() && (ok ==> matched == S.Terminal(ctx.lang, ctx.inp, grammar, begin).node.text)
    {
      hide SkipWs;
      var start := ctx.SkipBlanks(begin);
      var lit := grammar.lit;
      end := start;
      for i := 0 to |lit|
        invariant end == start + i <= |ctx.inp.text|
        invariant forall j :: 0 <= j < i ==> CharMatch(ctx.inp.text[start + j], lit[j], ctx.inp.ignoreCase)
        invariant Blank() && ctx.errors == old(ctx.errors)
      {
        if end == |ctx.inp.text| || !CharMatch(ctx.inp.text[end], lit[i], ctx.inp.ignoreCase) {
          assert !LitAt(ctx.inp, lit, start);
          ctx.Fail(grammar, begin);
          return false, begin;
        }
        end := end + 1;
      }
      matched := ctx.inp.text[start..end];
      ok := true;
    }

    method ParseCharacter(ctx: Context, begin: nat) returns (ok: bool, end: nat)
      requires grammar.Chr? && begin <= |ctx.inp.text| && Blank()
      modifies this, ctx
      ensures Agrees(S.Terminal(ctx.lang, ctx.inp, grammar, begin), ok, end, old(ctx.errors), ctx.errors)
      ensures Blank() && (ok ==> matched == S.Terminal(ctx.lang, ctx.inp, grammar, begin).node.text)
    {
      hide SkipWs;
      end := ctx.SkipBlanks(begin);
      if end == |ctx.inp.text| || !CharMatch(ctx.inp.text[end], grammar.c, ctx.inp.ignoreCase) {
        ctx.Fail(grammar, begin);
        return false, begin;
      }
      matched := [ctx.inp.text[end]];
      assert matched == ctx.inp.text[end..end + 1];
      ok, end := true, end + 1;
    }

    method ParseRange(ctx: Context, begin: nat) returns (ok: bool, end: nat)
      requires grammar.Range? && begin <= |ctx.inp.text| && Blank()
      modifies this, ctx
      ensures Agrees(S.Terminal(ctx.lang, ctx.inp, grammar, begin), ok, end, old(ctx.errors), ctx.errors)
      ensures Blank() && (ok ==> matched == S.Terminal(ctx.lang, ctx.inp, grammar, begin).node.text)
    {
      hide SkipWs;
      end := ctx.SkipBlanks(begin);
      if end == |ctx.inp.text| {
        ctx.Fail(grammar, begin);
        return false, begin;
      }
      var c := ctx.inp.text[end];
      var found := InRange(c, grammar.first, grammar.last);
      if !found && !(ctx.inp.ignoreCase && InRange(SwapCase(c), grammar.first, grammar.last)) {
        ctx.Fail(grammar, begin);
        return false, begin;
      }
      matched := [c];
      assert matched == ctx.inp.text[end..end + 1];
      ok, end := true, end + 1;
    }

    method ParseRegex(ctx: Context, begin: nat) returns (ok: bool, end: nat)
      requires grammar.Regex? && begin <= |ctx.inp.text| && Blank()
      modifies this, ctx
      ensures Agrees(S.Terminal(ctx.lang, ctx.inp, grammar, begin), ok, end, old(ctx.errors), ctx.errors)
      ensures Blank() && (ok ==> matched == S.Terminal(ctx.lang, ctx.inp, grammar, begin).node.text)
    {
      hide SkipWs;
      end := ctx.SkipBlanks(begin);
      if end == |ctx.inp.text| {
        ctx.Fail(grammar, begin);
        return false, begin;
      }
      var rest := ctx.inp.text[end..];
      var n := RegexLen(ctx.lang, grammar.id, rest);
      if n.None? {
        ctx.Fail(grammar, begin);
        return false, begin;
      }
      matched := rest[..n.value];
      assert matched == ctx.inp.text[end..end + n.value];
      ok, end := true, end + n.value;
    }

    method ParseAnd(ctx: Context, begin: nat, ghost cert: S.Cert, ghost k: nat) returns (ok: bool, end: nat)
      requires grammar.And?
      requires S.Ranked(ctx.lang, cert) && S.LeftBelow(ctx.lang, cert, grammar, k) && begin <= |ctx.inp.text|
      requires Blank()
      modifies this, ctx
      ensures Agrees(S.Parse(ctx.lang, cert, ctx.inp, grammar, begin, k), ok, end, old(ctx.errors), ctx.errors)
      ensures fresh(Repr - {this}) && ctx !in Repr
      ensures ok ==> Spells(ctx.inp, S.Parse(ctx.lang, cert, ctx.inp, grammar, begin, k).node)
      decreases |ctx.inp.text| - begin, k, grammar, 0
    {
      hide S.Ranked, S.ParseAll, S.LeftBelowSeq, S.Nullable, HasKid;
      Clear();
      ok, end := TryAll(ctx, grammar.parts, begin, [], cert, k);
      if !ok {
        Clear();
        return false, begin;
      }
      ghost var r := S.ParseAll(ctx.lang, cert, ctx.inp, grammar.parts, begin, k);
      assert [] + r.nodes == r.nodes;
      RecordSpan(begin, end, ctx.inp, r.nodes);
    }

    /** makes a rule object for each part in turn and adopts it; the part that fails is logged where it was tried */
    method TryAll(ctx: Context, parts: seq<Grammar>, begin: nat, ghost kids: seq<Ast>, ghost cert: S.Cert, ghost k: nat)
      returns (ok: bool, end: nat)
      requires S.Ranked(ctx.lang, cert) && S.LeftBelowSeq(ctx.lang, cert, parts, k) && begin <= |ctx.inp.text|
      requires HasKids(ctx.inp, kids) && ctx !in Repr
      modifies this, ctx
      ensures var r := S.ParseAll(ctx.lang, cert, ctx.inp, parts, begin, k);
              && ok == r.ok && (ok ==> end == r.pos && HasKids(ctx.inp, kids + r.nodes))
              && ctx.errors == old(ctx.errors) + r.errors + (if r.ok then [] else [Error(grammar, r.pos)])
      ensures fresh(Repr - old(Repr)) && ctx !in Repr
      decreases |ctx.inp.text| - begin, k, parts, 0
    {
      hide S.Ranked, S.LeftBelow, S.Parse, S.Nullable, HasKid;
      if parts == [] {
        assert kids + [] == kids;
        return true, begin;
      }
      var child := new RuleNode(parts[0]);
      ok, end := child.Parse(ctx, begin, cert, k);
      if !ok {
        ctx.Fail(grammar, end);
        return;
      }
      ghost var a := S.Parse(ctx.lang, cert, ctx.inp, parts[0], begin, k).node;
      AddChild(child, ctx.inp, kids, a);
      S.LeftTopSeq(ctx.lang, cert, parts[1..]);
      ghost var k' := S.Bound(cert, k, begin, end);
      ghost var rest := S.ParseAll(ctx.lang, cert, ctx.inp, parts[1..], end, k');
      assert kids + ([a] + rest.nodes) == (kids + [a]) + rest.nodes;
      ok, end := TryAll(ctx, parts[1..], end, kids + [a], cert, k');
    }

    method ParseOr(ctx: Context, begin: nat, ghost cert: S.Cert, ghost k: nat) returns (ok: bool, end: nat)
      requires grammar.Or?
      requires S.Ranked(ctx.lang, cert) && S.LeftBelow(ctx.lang, cert, grammar, k) && begin <= |ctx.inp.text|
      requires Blank()
      modifies this, ctx
      ensures Agrees(S.Parse(ctx.lang, cert, ctx.inp, grammar, begin, k), ok, end, old(ctx.errors), ctx.errors)
      ensures fresh(Repr - {this}) && ctx !in Repr
      ensures ok ==> Spells(ctx.inp, S.Parse(ctx.lang, cert, ctx.inp, grammar, begin, k).node)
      decreases |ctx.inp.text| - begin, k, grammar, 0
    {
      hide S.Ranked, S.Nullable, HasKid;
      Clear();
      var child;
      ok, end, child := TryAny(ctx, grammar.alts, begin, grammar.alts == [], cert, k);
      if !ok {
        return false, begin;
      }
      ghost var a := S.ParseAny(ctx.lang, cert, ctx.inp, grammar.alts, begin, k).node;
      AddChild(child, ctx.inp, [], a);
      assert [] + [a] == [a];
      RecordSpan(begin, end, ctx.inp, [a]);
    }

    /** The first alternative that matches. When the last one fails too, that is logged; `none` says
        that there were none at all. */
    method TryAny(ctx: Context, alts: seq<Grammar>, begin: nat, none: bool, ghost cert: S.Cert, ghost k: nat)
      returns (ok: bool, end: nat, out: RuleNode?)
      requires S.Ranked(ctx.lang, cert) && begin <= |ctx.inp.text| && (none ==> alts == [])
      requires forall j :: 0 <= j < |alts| ==> S.LeftBelow(ctx.lang, cert, alts[j], k)
      modifies ctx
      ensures var r := S.ParseAny(ctx.lang, cert, ctx.inp, alts, begin, k);
              && ok == r.ok && end == r.pos
              && ctx.errors == old(ctx.errors) + r.errors + (if r.ok || none then [] else [Error(grammar, begin)])
              && (ok ==> out != null && fresh(out.Repr) && out.Spells(ctx.inp, r.node))
      decreases |ctx.inp.text| - begin, k, alts, 0
    {
      hide S.Ranked, S.LeftBelow, S.Parse, S.Nullable, HasKid;
      if alts == [] {
        if !none {
          ctx.Fail(grammar, begin);
        }
        return false, begin, null;
      }
      var child := new RuleNode(alts[0]);
      ok, end := child.Parse(ctx, begin, cert, k);
      out := child;
      if !ok {
        ok, end, out := TryAny(ctx, alts[1..], begin, false, cert, k);
      }
    }

    method ParseNot(ctx: Context, begin: nat, ghost cert: S.Cert, ghost k: nat) returns (ok: bool, end: nat)
      requires grammar.Not?
      requires S.Ranked(ctx.lang, cert) && S.LeftBelow(ctx.lang, cert, grammar, k) && begin <= |ctx.inp.text|
      requires Blank()
      modifies this, ctx
      ensures Agrees(S.Parse(ctx.lang, cert, ctx.inp, grammar, begin, k), ok, end, old(ctx.errors), ctx.errors)
      ensures fresh(Repr - {this}) && ctx !in Repr
      ensures ok ==> Spells(ctx.inp, S.Parse(ctx.lang, cert, ctx.inp, grammar, begin, k).node)
      decreases |ctx.inp.text| - begin, k, grammar, 0
    {
      hide S.Ranked, S.ParseAll, S.LeftBelowSeq, S.Nullable, SkipWs, HasKid;
      end := begin;
      var start := ctx.SkipBlanks(begin);
      S.LeftTopSeq(ctx.lang, cert, grammar.parts);
      var matched := TrySeq(ctx, grammar.parts, start, cert, S.Bound(cert, k, begin, start));
      if matched {
        ctx.Fail(grammar, begin);
        return false, begin;
      }
      Clear();
      RecordSpan(begin, begin, ctx.inp, []);
      ok := true;
    }

    /** whether the parts match in turn; nothing is kept of them */
    method TrySeq(ctx: Context, parts: seq<Grammar>, begin: nat, ghost cert: S.Cert, ghost k: nat) returns (ok: bool)
      requires S.Ranked(ctx.lang, cert) && S.LeftBelowSeq(ctx.lang, cert, parts, k) && begin <= |ctx.inp.text|
      modifies ctx
      ensures var r := S.ParseAll(ctx.lang, cert, ctx.inp, parts, begin, k);
              ok == r.ok && ctx.errors == old(ctx.errors) + r.errors
      decreases |ctx.inp.text| - begin, k, parts, 0
    {
      hide S.Ranked, S.LeftBelow, S.Parse, S.Nullable;
      if parts == [] {
        return true;
      }
      var child := new RuleNode(parts[0]);
      var end;
      ok, end := child.Parse(ctx, begin, cert, k);
      if ok {
        S.LeftTopSeq(ctx.lang, cert, parts[1..]);
        ok := TrySeq(ctx, parts[1..], end, cert, S.Bound(cert, k, begin, end));
      }
    }

    method ParsePlus(ctx: Context, begin: nat, ghost cert: S.Cert, ghost k: nat) returns (ok: bool, end: nat)
      requires grammar.Plus?
      requires S.Ranked(ctx.lang, cert) && S.LeftBelow(ctx.lang, cert, grammar, k) && begin <= |ctx.inp.text|
      requires Blank()
      modifies this, ctx
      ensures Agrees(S.Parse(ctx.lang, cert, ctx.inp, grammar, begin, k), ok, end, old(ctx.errors), ctx.errors)
      ensures fresh(Repr - {this}) && ctx !in Repr
      ensures ok ==> Spells(ctx.inp, S.Parse(ctx.lang, cert, ctx.inp, grammar, begin, k).node)
      decreases |ctx.inp.text| - begin, k, grammar, 0
    {
      hide S.Ranked, S.Parse, S.ParseMany, S.LeftBelow, S.Nullable, HasKid;
      PlusUnfolds(ctx.lang, cert, ctx.inp, grammar, begin, k, ctx.errors);
      Clear();
      var first := new RuleNode(grammar.body);
      ok, end := first.Parse(ctx, begin, cert, k);
      if !ok {
        ctx.Fail(grammar, begin);
        return false, begin;
      }
      ghost var a := S.Parse(ctx.lang, cert, ctx.inp, grammar.body, begin, k).node;
      AddChild(first, ctx.inp, [], a);
      assert [] + [a] == [a];
      ghost var k', mid := S.Bound(cert, k, begin, end), end;
      end := TryMany(ctx, grammar.body, end, [a], cert, k');
      ghost var r := S.ParseMany(ctx.lang, cert, ctx.inp, grammar.body, mid, k');
      RecordSpan(begin, end, ctx.inp, [a] + r.nodes);
    }

    method ParseStar(ctx: Context, begin: nat, ghost cert: S.Cert, ghost k: nat) returns (ok: bool, end: nat)
      requires grammar.Star?
      requires S.Ranked(ctx.lang, cert) && S.LeftBelow(ctx.lang, cert, grammar, k) && begin <= |ctx.inp.text|
      requires Blank()
      modifies this, ctx
      ensures Agrees(S.Parse(ctx.lang, cert, ctx.inp, grammar, begin, k), ok, end, old(ctx.errors), ctx.errors)
      ensures fresh(Repr - {this}) && ctx !in Repr
      ensures ok ==> Spells(ctx.inp, S.Parse(ctx.lang, cert, ctx.inp, grammar, begin, k).node)
      decreases |ctx.inp.text| - begin, k, grammar, 0
    {
      hide S.Ranked, S.ParseMany, S.Nullable, SkipWs, HasKid;
      Clear();
      end := TryMany(ctx, grammar.body, begin, [], cert, k);
      ghost var r := S.ParseMany(ctx.lang, cert, ctx.inp, grammar.body, begin, k);
      assert [] + r.nodes == r.nodes;
      RecordSpan(begin, end, ctx.inp, r.nodes);
      ok := true;
    }

    /** matches the body again and again, until the end of the input, a failure, or a match of nothing */
    method TryMany(ctx: Context, body: Grammar, begin: nat, ghost kids: seq<Ast>, ghost cert: S.Cert, ghost k: nat)
      returns (end: nat)
      requires S.Ranked(ctx.lang, cert) && S.LeftBelow(ctx.lang, cert, body, k) && begin <= |ctx.inp.text|
      requires HasKids(ctx.inp, kids) && ctx !in Repr
      modifies this, ctx
      ensures var r := S.ParseMany(ctx.lang, cert, ctx.inp, body, begin, k);
              end == r.pos && HasKids(ctx.inp, kids + r.nodes) && ctx.errors == old(ctx.errors) + r.errors
      ensures fresh(Repr - old(Repr)) && ctx !in Repr
      decreases |ctx.inp.text| - begin, k, body, 3
    {
      hide *;
      end := begin;
      ghost var r0 := S.ParseMany(ctx.lang, cert, ctx.inp, body, begin, k);
      ghost var all, log, k' := kids, ctx.errors, k;
      NothingYet(all, log, r0);
      while end != |ctx.inp.text|
        invariant begin <= end <= |ctx.inp.text| && S.LeftBelow(ctx.lang, cert, body, k')
        invariant end == begin ==> k' == k
        invariant SoFar(kids, old(ctx.errors), r0, all, log, S.ParseMany(ctx.lang, cert, ctx.inp, body, end, k'))
        invariant HasKids(ctx.inp, all) && ctx.errors == log
        invariant fresh(Repr - old(Repr)) && ctx !in Repr
        decreases |ctx.inp.text| - end
      {
        ghost var back := end;
        var more;
        more, end := TryOnce(ctx, body, end, all, cert, k');
        OneTurn(ctx.lang, cert, ctx.inp, body, back, k', kids, old(ctx.errors), r0, all, log);
        ghost var r := S.Parse(ctx.lang, cert, ctx.inp, body, back, k');
        log := log + r.errors;
        if !more {
          return;
        }
        all, k' := all + [r.node], cert.top;
      }
      NoTurn(ctx.lang, cert, ctx.inp, body, k', kids, old(ctx.errors), r0, all, log);
    }

    /** one turn of a repetition: a match of nothing is not kept */
    method TryOnce(ctx: Context, body: Grammar, begin: nat, ghost kids: seq<Ast>, ghost cert: S.Cert, ghost k: nat)
      returns (more: bool, end: nat)
      requires S.Ranked(ctx.lang, cert) && S.LeftBelow(ctx.lang, cert, body, k) && begin <= |ctx.inp.text|
      requires HasKids(ctx.inp, kids) && ctx !in Repr
      modifies this, ctx
      ensures var r := S.Parse(ctx.lang, cert, ctx.inp, body, begin, k);
              && more == (r.ok && r.pos != begin) && end == (if more then r.pos else begin)
              && HasKids(ctx.inp, if more then kids + [r.node] else kids) && ctx.errors == old(ctx.errors) + r.errors
      ensures fresh(Repr - old(Repr)) && ctx !in Repr
      decreases |ctx.inp.text| - begin, k, body, 2
    {
      hide S.Ranked, S.LeftBelow, S.Parse, S.Nullable, HasKid;
      var child := new RuleNode(body);
      var ok;
      ok, end := child.Parse(ctx, begin, cert, k);
      if !ok {
        return false, begin;
      }
      if end == begin {
        return false, end;
      }
      AddChild(child, ctx.inp, kids, S.Parse(ctx.lang, cert, ctx.inp, body, begin, k).node);
      more := true;
    }

    method ParseOpt(ctx: Context, begin: nat, ghost cert: S.Cert, ghost k: nat) returns (ok: bool, end: nat)
      requires grammar.Opt?
      requires S.Ranked(ctx.lang, cert) && S.LeftBelow(ctx.lang, cert, grammar, k) && begin <= |ctx.inp.text|
      requires Blank()
      modifies this, ctx
      ensures Agrees(S.Parse(ctx.lang, cert, ctx.inp, grammar, begin, k), ok, end, old(ctx.errors), ctx.errors)
      ensures fresh(Repr - {this}) && ctx !in Repr
      ensures ok ==> Spells(ctx.inp, S.Parse(ctx.lang, cert, ctx.inp, grammar, begin, k).node)
      decreases |ctx.inp.text| - begin, k, grammar, 0
    {
      hide S.Ranked, S.Nullable, S.ParseAll, S.ParseAny, S.ParseMany, HasKid;
      Clear();
      var child := new RuleNode(grammar.body);
      ok, end := child.Parse(ctx, begin, cert, k);
      ghost var kids: seq<Ast> := [];
      if ok {
        ghost var a := S.Parse(ctx.lang, cert, ctx.inp, grammar.body, begin, k).node;
        AddChild(child, ctx.inp, [], a);
        assert [] + [a] == [a];
        kids := [a];
      }
      RecordSpan(begin, end, ctx.inp, kids);
      ok := true;
    }

    /** A named rule wraps what its definition matches; a bare rule matches nothing, successfully. */
    method ParseNamed(ctx: Context, begin: nat, ghost cert: S.Cert, ghost k: nat) returns (ok: bool, end: nat)
      requires grammar.Rule?
      requires S.Ranked(ctx.lang, cert) && S.LeftBelow(ctx.lang, cert, grammar, k) && begin <= |ctx.inp.text|
      requires Blank()
      modifies this, ctx
      ensures Agrees(S.Parse(ctx.lang, cert, ctx.inp, grammar, begin, k), ok, end, old(ctx.errors), ctx.errors)
      ensures fresh(Repr - {this}) && ctx !in Repr
      ensures ok ==> Spells(ctx.inp, S.Parse(ctx.lang, cert, ctx.inp, grammar, begin, k).node)
      decreases |ctx.inp.text| - begin, k, grammar, 0
    {
      hide S.Nullable, S.ParseAll, S.ParseAny, S.ParseMany, HasKid;
      Clear();
      if grammar.name !in ctx.lang.defs {
        RecordSpan(begin, begin, ctx.inp, []);
        return true, begin;
      }
      var impl := ctx.lang.defs[grammar.name];
      var child := new RuleNode(impl);
      ok, end := child.Parse(ctx, begin, cert, cert.rank[grammar.name]);
      if !ok {
        return false, begin;
      }
      ghost var a := S.Parse(ctx.lang, cert, ctx.inp, impl, begin, cert.rank[grammar.name]).node;
      AddChild(child, ctx.inp, [], a);
      assert [] + [a] == [a];
      RecordSpan(begin, end, ctx.inp, [a]);
    }
  }

  /** Parses a whole input. */
  method ParseTop(lang: Lang, inp: Input, start: Grammar, ghost cert: S.Cert)
    returns (ok: bool, ast: RuleNode?, errors: seq<Error>)
    requires S.Ranked(lang, cert)
    ensures var r := S.ParseTop(lang, cert, inp, start);
            ok == r.ok && errors == r.errors && (ok ==> ast != null && fresh(ast.Repr) && ast.Spells(inp, r.node))
  {
    hide S.Ranked, S.Parse, S.LeftBelow;
    S.LeftTop(lang, cert, start);
    var ctx := new Context(lang, inp);
    var rule := new RuleNode(start);
    var end;
    ok, end := rule.Parse(ctx, 0, cert, cert.top);
    ast, errors := null, [];
    if !ok {
      errors := ctx.errors;
    } else if end != |inp.text| {
      ok, errors := false, [Error(start, end)];
    } else {
      ast := rule;
    }
  }

  /** The two libraries agree: on success, on the tree with every rule and text in it, and on the errors in order. */
  method ParseBoth(lang: Lang, inp: Input, start: Grammar, ghost cert: S.Cert)
    returns (ok: bool, nodes: AstNode?, rules: RuleNode?, errors: seq<Error>, ghost tree: Ast)
    requires S.Ranked(lang, cert)
    ensures ok ==> nodes != null && rules != null && nodes.Spells(tree) && rules.Spells(inp, tree)
    ensures tree == S.ParseTop(lang, cert, inp, start).node
    ensures ok == S.ParseTop(lang, cert, inp, start).ok && errors == S.ParseTop(lang, cert, inp, start).errors
  {
    hide *;
    tree := S.ParseTop(lang, cert, inp, start).node;
    ok, nodes, errors := ParseAst.ParseTop(lang, inp, start, cert);
    var ok', errors';
    ok', rules, errors' := ParseTop(lang, inp, start, cert);
    assert ok' == ok && errors' == errors;
  }
}
