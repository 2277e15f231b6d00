/** The syntax tree accounts for the input, character by character, and is the only tree that does. */
module ParseText {
  import opened ParseGrammar
  import opened ParseSpec
  import opened ParsePeg
  import ParseUnique

  predicate AllWs(inp: Input, s: seq<Ch>) {
    forall j :: 0 <= j < |s| ==> IsWs(inp, s[j])
  }

  // ---- which trees stand for a stretch of the input -----------------------------------------------------------

  /** the rule is an alternative, and no alternative before it matches */
  ghost predicate FirstMatch(lang: Lang, inp: Input, alts: seq<Grammar>, rule: Grammar, i: nat) {
    exists m {:trigger alts[m]} ::
      0 <= m < |alts| && alts[m] == rule && forall l :: 0 <= l < m ==> Comes(lang, inp, alts[l], i, None)
  }

  /** a repetition goes no further than j */
  ghost predicate Stops(lang: Lang, inp: Input, body: Grammar, j: nat) {
    j == |inp.text| || Comes(lang, inp, body, j, None) || Comes(lang, inp, body, j, Some(j))
  }

  /** Node a accounts for the input from i to j: its rule comes from i to j. A terminal's text is what follows
      the whitespace; any other node's text is the whole stretch, and its children account for it. */
  ghost predicate Accounts(lang: Lang, inp: Input, a: Ast, i: nat, j: nat)
    decreases a, 1
  {
    && i <= j <= |inp.text| && Comes(lang, inp, a.rule, i, Some(j))
    && (if IsTerminal(a.rule) then SkipWs(inp, i) <= j && a.text == inp.text[SkipWs(inp, i)..j]
        else a.text == inp.text[i..j])
    && Fits(lang, inp, a.rule, a.kids, i, j)
  }

  /** the children of a node: one for each part in turn; the first alternative that matches; every match of a
      repeated body up to where it goes no further; an optional body's match exactly if there is one */
  ghost predicate Fits(lang: Lang, inp: Input, g: Grammar, kids: seq<Ast>, i: nat, j: nat)
    decreases kids, 1
  {
    match g
    case And(parts) => InOrder(lang, inp, parts, kids, i, j)
    case Or(alts) => |kids| == 1 && FirstMatch(lang, inp, alts, kids[0].rule, i) && Accounts(lang, inp, kids[0], i, j)
    case Plus(body) =>
      && kids != [] && kids[0].rule == body
      && exists m: nat :: Accounts(lang, inp, kids[0], i, m) && Runs(lang, inp, body, kids[1..], m, j)
    case Star(body) => Runs(lang, inp, body, kids, i, j)
    case Opt(body) =>
      if kids == [] then i == j && Comes(lang, inp, body, i, None)
      else |kids| == 1 && kids[0].rule == body && Accounts(lang, inp, kids[0], i, j)
    case Rule(n) =>
      if n !in lang.defs then kids == [] && i == j
      else |kids| == 1 && kids[0].rule == lang.defs[n] && Accounts(lang, inp, kids[0], i, j)
    case Not(_) => kids == [] && i == j
    case _ => kids == []
  }

  ghost predicate InOrder(lang: Lang, inp: Input, parts: seq<Grammar>, kids: seq<Ast>, i: nat, j: nat)
    decreases kids, 0
  {
    if parts == [] || kids == [] then parts == [] && kids == [] && i == j
    else
      && kids[0].rule == parts[0]
      && exists m: nat :: Accounts(lang, inp, kids[0], i, m) && InOrder(lang, inp, parts[1..], kids[1..], m, j)
  }

  ghost predicate Runs(lang: Lang, inp: Input, body: Grammar, kids: seq<Ast>, i: nat, j: nat)
    decreases kids, 0
  {
    if kids == [] then i == j && Stops(lang, inp, body, j)
    else
      && i < |inp.text| && kids[0].rule == body
      && exists m: nat :: m != i && Accounts(lang, inp, kids[0], i, m) && Runs(lang, inp, body, kids[1..], m, j)
  }

  // ---- the tree that parsing builds is one ---------------------------------------------------------------------

  lemma ParseComes(lang: Lang, cert: Cert, inp: Input, g: Grammar, i: nat, k: nat)
    requires Ranked(lang, cert) && LeftBelow(lang, cert, g, k) && i <= |inp.text|
    ensures var r := Parse(lang, cert, inp, g, i, k); Comes(lang, inp, g, i, if r.ok then Some(r.pos) else None)
  {
    hide *;
    var r := Parse(lang, cert, inp, g, i, k);
    EndIs(r.ok, r.pos);
    SoundAndComplete(lang, cert, inp, g, i, k, if r.ok then Some(r.pos) else None);
  }

  lemma EndIs(ok: bool, pos: nat)
    ensures EndOf(ok, pos) == if ok then Some(pos) else None
  {
  }

  lemma InOrderCons(lang: Lang, inp: Input, a: Ast, parts: seq<Grammar>, kids: seq<Ast>, i: nat, m: nat, j: nat)
    requires parts != [] && a.rule == parts[0]
    requires Accounts(lang, inp, a, i, m) && InOrder(lang, inp, parts[1..], kids, m, j)
    ensures InOrder(lang, inp, parts, [a] + kids, i, j)
  {
    hide Accounts;
    assert ([a] + kids)[1..] == kids && ([a] + kids)[0] == a;
  }

  lemma RunsCons(lang: Lang, inp: Input, a: Ast, body: Grammar, kids: seq<Ast>, i: nat, m: nat, j: nat)
    requires a.rule == body && i < |inp.text| && m != i
    requires Accounts(lang, inp, a, i, m) && Runs(lang, inp, body, kids, m, j)
    ensures Runs(lang, inp, body, [a] + kids, i, j)
  {
    hide Accounts;
    assert ([a] + kids)[1..] == kids && ([a] + kids)[0] == a;
  }

  lemma RunsPlus(lang: Lang, inp: Input, a: Ast, body: Grammar, kids: seq<Ast>, i: nat, m: nat, j: nat)
    requires a.rule == body && Accounts(lang, inp, a, i, m) && Runs(lang, inp, body, kids, m, j)
    ensures Fits(lang, inp, Plus(body), [a] + kids, i, j)
  {
    hide Accounts, Runs;
    assert ([a] + kids)[1..] == kids && ([a] + kids)[0] == a;
  }

  lemma LaterMatch(lang: Lang, inp: Input, alts: seq<Grammar>, rule: Grammar, i: nat)
    requires alts != [] && Comes(lang, inp, alts[0], i, None) && FirstMatch(lang, inp, alts[1..], rule, i)
    ensures FirstMatch(lang, inp, alts, rule, i)
  {
    hide Comes;
    var rest := alts[1..];
    var m :| 0 <= m < |rest| && rest[m] == rule && forall l :: 0 <= l < m ==> Comes(lang, inp, rest[l], i, None);
    assert alts[m + 1] == rule;
    forall l | 0 <= l < m + 1 ensures Comes(lang, inp, alts[l], i, None) {
      if l > 0 {
        assert alts[l] == rest[l - 1];
      }
    }
  }

  lemma TerminalText(lang: Lang, inp: Input, g: Grammar, i: nat)
    requires IsTerminal(g) && i <= |inp.text|
    ensures var r := Terminal(lang, inp, g, i);
            r.ok ==> r.node.rule == g && r.node.kids == [] && SkipWs(inp, i) <= r.pos <= |inp.text|
                     && r.node.text == inp.text[SkipWs(inp, i)..r.pos]
  {
  }

  /** A successful parse returns a tree for the rule it was asked for, and the tree accounts for what it consumed. */
  lemma {:induction false} ParseAccounts(lang: Lang, cert: Cert, inp: Input, g: Grammar, i: nat, k: nat)
    requires Ranked(lang, cert) && LeftBelow(lang, cert, g, k) && i <= |inp.text|
    ensures var r := Parse(lang, cert, inp, g, i, k);
            r.ok ==> r.node.rule == g && Accounts(lang, inp, r.node, i, r.pos)
    decreases |inp.text| - i, k, g, 0
  {
    hide Nullable, ParseAll, ParseAny, ParseMany, LeftBelowSeq, SkipWs, Terminal, TerminalEnd, Comes, InOrder, Runs,
         FirstMatch;
    ParseComes(lang, cert, inp, g, i, k);
    match g
    case And(parts) => AllAccount(lang, cert, inp, parts, i, k);
    case Or(alts) => AnyAccounts(lang, cert, inp, alts, i, k);
    case Not(parts) =>
    case Plus(body) =>
      ParseAccounts(lang, cert, inp, body, i, k);
      var first := Parse(lang, cert, inp, body, i, k);
      if first.ok {
        LeftTop(lang, cert, body);
        var k' := Bound(cert, k, i, first.pos);
        ManyAccount(lang, cert, inp, body, first.pos, k');
        var more := ParseMany(lang, cert, inp, body, first.pos, k');
        RunsPlus(lang, inp, first.node, body, more.nodes, i, first.pos, more.pos);
      }
    case Star(body) => ManyAccount(lang, cert, inp, body, i, k);
    case Opt(body) =>
      ParseAccounts(lang, cert, inp, body, i, k);
      ParseComes(lang, cert, inp, body, i, k);
    case Rule(n) =>
      if n in lang.defs {
        ParseAccounts(lang, cert, inp, lang.defs[n], i, cert.rank[n]);
      }
    case _ => TerminalText(lang, inp, g, i);
  }

  lemma {:induction false} AllAccount(lang: Lang, cert: Cert, inp: Input, parts: seq<Grammar>, i: nat, k: nat)
    requires Ranked(lang, cert) && LeftBelowSeq(lang, cert, parts, k) && i <= |inp.text|
    ensures var r := ParseAll(lang, cert, inp, parts, i, k);
            r.ok ==> InOrder(lang, inp, parts, r.nodes, i, r.pos)
    decreases |inp.text| - i, k, parts, 0
  {
    hide Parse, Nullable, Accounts, LeftBelow;
    if parts != [] {
      ParseAccounts(lang, cert, inp, parts[0], i, k);
      var first := Parse(lang, cert, inp, parts[0], i, k);
      if first.ok {
        LeftTopSeq(lang, cert, parts[1..]);
        var k' := Bound(cert, k, i, first.pos);
        AllAccount(lang, cert, inp, parts[1..], first.pos, k');
        var rest := ParseAll(lang, cert, inp, parts[1..], first.pos, k');
        if rest.ok {
          InOrderCons(lang, inp, first.node, parts, rest.nodes, i, first.pos, rest.pos);
        }
      }
    }
  }

  lemma {:induction false} AnyAccounts(lang: Lang, cert: Cert, inp: Input, alts: seq<Grammar>, i: nat, k: nat)
    requires Ranked(lang, cert) && i <= |inp.text|
    requires forall j :: 0 <= j < |alts| ==> LeftBelow(lang, cert, alts[j], k)
    ensures var r := ParseAny(lang, cert, inp, alts, i, k);
            r.ok ==> FirstMatch(lang, inp, alts, r.node.rule, i) && Accounts(lang, inp, r.node, i, r.pos)
    decreases |inp.text| - i, k, alts, 0
  {
    hide Parse, Nullable, Accounts, LeftBelow, Comes;
    if alts != [] {
      ParseAccounts(lang, cert, inp, alts[0], i, k);
      ParseComes(lang, cert, inp, alts[0], i, k);
      if Parse(lang, cert, inp, alts[0], i, k).ok {
        assert alts[0] == Parse(lang, cert, inp, alts[0], i, k).node.rule;
      } else {
        AnyAccounts(lang, cert, inp, alts[1..], i, k);
        if ParseAny(lang, cert, inp, alts[1..], i, k).ok {
          LaterMatch(lang, inp, alts, ParseAny(lang, cert, inp, alts[1..], i, k).node.rule, i);
        }
      }
    }
  }

  lemma {:induction false} ManyAccount(lang: Lang, cert: Cert, inp: Input, body: Grammar, i: nat, k: nat)
    requires Ranked(lang, cert) && LeftBelow(lang, cert, body, k) && i <= |inp.text|
    ensures var r := ParseMany(lang, cert, inp, body, i, k); Runs(lang, inp, body, r.nodes, i, r.pos)
    decreases |inp.text| - i, k, body, 1
  {
    hide Parse, Nullable, Accounts, LeftBelow, Comes;
    if i < |inp.text| {
      ParseAccounts(lang, cert, inp, body, i, k);
      ParseComes(lang, cert, inp, body, i, k);
      var first := Parse(lang, cert, inp, body, i, k);
      if first.ok && first.pos != i {
        LeftTop(lang, cert, body);
        ManyAccount(lang, cert, inp, body, first.pos, cert.top);
        var rest := ParseMany(lang, cert, inp, body, first.pos, cert.top);
        RunsCons(lang, inp, first.node, body, rest.nodes, i, first.pos, rest.pos);
      }
    }
  }

  // ---- and it is the only one -----------------------------------------------------------------------------------

  lemma AccountsComes(lang: Lang, inp: Input, a: Ast, i: nat, j: nat)
    requires Accounts(lang, inp, a, i, j)
    ensures i <= j <= |inp.text| && Comes(lang, inp, a.rule, i, Some(j)) && Fits(lang, inp, a.rule, a.kids, i, j)
    ensures IsTerminal(a.rule) ==> SkipWs(inp, i) <= j && a.text == inp.text[SkipWs(inp, i)..j]
    ensures !IsTerminal(a.rule) ==> a.text == inp.text[i..j]
  {
  }

  /** Two trees for one rule that account for the input from one position on are the same tree. */
  lemma {:induction false} OnlyTree(lang: Lang, inp: Input, a: Ast, b: Ast, i: nat, j: nat, j': nat)
    requires Accounts(lang, inp, a, i, j) && Accounts(lang, inp, b, i, j') && a.rule == b.rule
    ensures a == b && j == j'
    decreases a, 1
  {
    hide Accounts, Comes, Fits;
    AccountsComes(lang, inp, a, i, j);
    AccountsComes(lang, inp, b, i, j');
    ParseUnique.Deterministic(lang, inp, a.rule, i, Some(j), Some(j'));
    OnlyKids(lang, inp, a.rule, a.kids, b.kids, i, j);
  }

  lemma {:induction false} OnlyKids(lang: Lang, inp: Input, g: Grammar, ks: seq<Ast>, ls: seq<Ast>, i: nat, j: nat)
    requires Fits(lang, inp, g, ks, i, j) && Fits(lang, inp, g, ls, i, j)
    ensures ks == ls
    decreases ks, 1
  {
    hide Accounts, Comes, InOrder, Runs, FirstMatch;
    match g
    case And(parts) => OnlyInOrder(lang, inp, parts, ks, ls, i, j);
    case Or(alts) =>
      AccountsComes(lang, inp, ks[0], i, j);
      AccountsComes(lang, inp, ls[0], i, j);
      OneFirst(lang, inp, alts, ks[0].rule, ls[0].rule, i, j);
      OnlyTree(lang, inp, ks[0], ls[0], i, j, j);
    case Plus(body) =>
      var m: nat :| Accounts(lang, inp, ks[0], i, m) && Runs(lang, inp, body, ks[1..], m, j);
      var n: nat :| Accounts(lang, inp, ls[0], i, n) && Runs(lang, inp, body, ls[1..], n, j);
      OnlyTree(lang, inp, ks[0], ls[0], i, m, n);
      OnlyRun(lang, inp, body, ks[1..], ls[1..], m, j);
      assert ks == [ks[0]] + ks[1..] && ls == [ls[0]] + ls[1..];
    case Star(body) => OnlyRun(lang, inp, body, ks, ls, i, j);
    case Opt(body) =>
      OptSame(lang, inp, body, ks, ls, i, j);
      if ks != [] {
        OnlyTree(lang, inp, ks[0], ls[0], i, j, j);
      }
    case Rule(n) =>
      if n in lang.defs {
        OnlyTree(lang, inp, ks[0], ls[0], i, j, j);
      }
    case _ =>
  }

  lemma OptSame(lang: Lang, inp: Input, body: Grammar, ks: seq<Ast>, ls: seq<Ast>, i: nat, j: nat)
    requires Fits(lang, inp, Opt(body), ks, i, j) && Fits(lang, inp, Opt(body), ls, i, j)
    ensures ks == [] <==> ls == []
  {
    hide Comes, Accounts;
    if ks == [] && ls != [] {
      AccountsComes(lang, inp, ls[0], i, j);
      ParseUnique.Deterministic(lang, inp, body, i, None, Some(j));
    } else if ls == [] && ks != [] {
      AccountsComes(lang, inp, ks[0], i, j);
      ParseUnique.Deterministic(lang, inp, body, i, None, Some(j));
    }
  }

  lemma OneFirst(lang: Lang, inp: Input, alts: seq<Grammar>, a: Grammar, b: Grammar, i: nat, j: nat)
    requires FirstMatch(lang, inp, alts, a, i) && Comes(lang, inp, a, i, Some(j))
    requires FirstMatch(lang, inp, alts, b, i) && Comes(lang, inp, b, i, Some(j))
    ensures a == b
  {
    hide Comes;
    var m :| 0 <= m < |alts| && alts[m] == a && forall l :: 0 <= l < m ==> Comes(lang, inp, alts[l], i, None);
    var n :| 0 <= n < |alts| && alts[n] == b && forall l :: 0 <= l < n ==> Comes(lang, inp, alts[l], i, None);
    if m < n {
      ParseUnique.Deterministic(lang, inp, a, i, None, Some(j));
    } else if n < m {
      ParseUnique.Deterministic(lang, inp, b, i, None, Some(j));
    }
  }

  lemma {:induction false} OnlyInOrder(lang: Lang, inp: Input, parts: seq<Grammar>, ks: seq<Ast>, ls: seq<Ast>,
                                       i: nat, j: nat)
    requires InOrder(lang, inp, parts, ks, i, j) && InOrder(lang, inp, parts, ls, i, j)
    ensures ks == ls
    decreases ks, 0
  {
    hide Accounts;
    if parts != [] {
      var m: nat :| Accounts(lang, inp, ks[0], i, m) && InOrder(lang, inp, parts[1..], ks[1..], m, j);
      var n: nat :| Accounts(lang, inp, ls[0], i, n) && InOrder(lang, inp, parts[1..], ls[1..], n, j);
      OnlyTree(lang, inp, ks[0], ls[0], i, m, n);
      OnlyInOrder(lang, inp, parts[1..], ks[1..], ls[1..], m, j);
      assert ks == [ks[0]] + ks[1..] && ls == [ls[0]] + ls[1..];
    }
  }

  lemma {:induction false} OnlyRun(lang: Lang, inp: Input, body: Grammar, ks: seq<Ast>, ls: seq<Ast>, i: nat, j: nat)
    requires Runs(lang, inp, body, ks, i, j) && Runs(lang, inp, body, ls, i, j)
    ensures ks == ls
    decreases ks, 0
  {
    hide Accounts, Stops;
    if ks == [] || ls == [] {
      if ks != [] {
        NoneMore(lang, inp, body, ks, i, j);
      }
      if ls != [] {
        NoneMore(lang, inp, body, ls, i, j);
      }
    } else {
      var m: nat :| m != i && Accounts(lang, inp, ks[0], i, m) && Runs(lang, inp, body, ks[1..], m, j);
      var n: nat :| n != i && Accounts(lang, inp, ls[0], i, n) && Runs(lang, inp, body, ls[1..], n, j);
      OnlyTree(lang, inp, ks[0], ls[0], i, m, n);
      OnlyRun(lang, inp, body, ks[1..], ls[1..], m, j);
      assert ks == [ks[0]] + ks[1..] && ls == [ls[0]] + ls[1..];
    }
  }

  /** where a repetition stops it has no further match */
  lemma NoneMore(lang: Lang, inp: Input, body: Grammar, ks: seq<Ast>, i: nat, j: nat)
    requires Runs(lang, inp, body, ks, i, j) && ks != []
    ensures !Stops(lang, inp, body, i)
  {
    hide Accounts, Comes;
    var m: nat :| m != i && Accounts(lang, inp, ks[0], i, m) && Runs(lang, inp, body, ks[1..], m, j);
    AccountsComes(lang, inp, ks[0], i, m);
    if Comes(lang, inp, body, i, None) {
      ParseUnique.Deterministic(lang, inp, body, i, None, Some(m));
    }
    if Comes(lang, inp, body, i, Some(i)) {
      ParseUnique.Deterministic(lang, inp, body, i, Some(i), Some(m));
    }
  }

  /** The tree that parsing returns is the one tree for its rule that accounts for the input from there on;
      parsing fails exactly if there is none. */
  lemma TheTree(lang: Lang, cert: Cert, inp: Input, g: Grammar, i: nat, k: nat, a: Ast, j: nat)
    requires Ranked(lang, cert) && LeftBelow(lang, cert, g, k) && i <= |inp.text|
    ensures var r := Parse(lang, cert, inp, g, i, k);
            a.rule == g && Accounts(lang, inp, a, i, j) <==> r.ok && a == r.node && j == r.pos
  {
    hide *;
    var r := Parse(lang, cert, inp, g, i, k);
    ParseAccounts(lang, cert, inp, g, i, k);
    ParseComes(lang, cert, inp, g, i, k);
    if a.rule == g && Accounts(lang, inp, a, i, j) {
      AccountsComes(lang, inp, a, i, j);
      ParseUnique.Deterministic(lang, inp, g, i, Some(j), if r.ok then Some(r.pos) else None);
      OnlyTree(lang, inp, a, r.node, i, j, r.pos);
    }
  }

  // ---- the terminals, in order --------------------------------------------------------------------------

  /** the texts of the terminals of a tree, from left to right */
  function Leaves(a: Ast): seq<seq<Ch>>
    decreases a, 1
  {
    if IsTerminal(a.rule) then [a.text] else LeavesOf(a.kids)
  }

  function LeavesOf(kids: seq<Ast>): seq<seq<Ch>>
    decreases kids, 0
  {
    if kids == [] then [] else Leaves(kids[0]) + LeavesOf(kids[1..])
  }

  /** s is made of the given texts in order, each with nothing but whitespace before it */
  ghost predicate Woven(inp: Input, s: seq<Ch>, texts: seq<seq<Ch>>)
    decreases |texts|
  {
    if texts == [] then s == []
    else exists n :: 0 <= n <= |s| && Starts(inp, s, n, texts[0]) && Woven(inp, s[n + |texts[0]|..], texts[1..])
  }

  ghost predicate Starts(inp: Input, s: seq<Ch>, n: nat, t: seq<Ch>) {
    n + |t| <= |s| && AllWs(inp, s[..n]) && s[n..n + |t|] == t
  }

  lemma Tails(a: seq<Ch>, m: nat, b: seq<Ch>)
    requires m <= |a|
    ensures (a + b)[m..] == a[m..] + b
  {
  }

  lemma TailOf(ts: seq<seq<Ch>>, us: seq<seq<Ch>>)
    requires ts != []
    ensures (ts + us)[1..] == ts[1..] + us && (ts + us)[0] == ts[0]
  {
  }

  lemma StartsCat(inp: Input, a: seq<Ch>, n: nat, t: seq<Ch>, b: seq<Ch>)
    requires Starts(inp, a, n, t)
    ensures Starts(inp, a + b, n, t) && n + |t| <= |a|
  {
    assert (a + b)[..n] == a[..n] && (a + b)[n..n + |t|] == a[n..n + |t|];
  }

  lemma {:induction false} WovenCat(inp: Input, a: seq<Ch>, ts: seq<seq<Ch>>, b: seq<Ch>, us: seq<seq<Ch>>)
    requires Woven(inp, a, ts) && Woven(inp, b, us)
    ensures Woven(inp, a + b, ts + us)
    decreases |ts|
  {
    hide AllWs, IsWs;
    if ts == [] {
      assert a + b == b && ts + us == us;
    } else {
      var n :| 0 <= n <= |a| && Starts(inp, a, n, ts[0]) && Woven(inp, a[n + |ts[0]|..], ts[1..]);
      var m := n + |ts[0]|;
      StartsCat(inp, a, n, ts[0], b);
      WovenCat(inp, a[m..], ts[1..], b, us);
      Tails(a, m, b);
      TailOf(ts, us);
      StartsCat(inp, a, n, ts[0], b);
    }
  }

  lemma WovenOne(inp: Input, s: seq<Ch>, w: nat)
    requires w <= |s| && AllWs(inp, s[..w])
    ensures Woven(inp, s, [s[w..]])
  {
    var ts := [s[w..]];
    assert Starts(inp, s, w, ts[0]);
    assert s[w + |ts[0]|..] == [] && ts[1..] == [];
  }

  /** the children's stretches follow each other */
  ghost predicate Chained(lang: Lang, inp: Input, kids: seq<Ast>, i: nat, j: nat) {
    if kids == [] then i == j
    else exists m: nat :: Accounts(lang, inp, kids[0], i, m) && Chained(lang, inp, kids[1..], m, j)
  }

  lemma {:induction false} InOrderChained(lang: Lang, inp: Input, parts: seq<Grammar>, kids: seq<Ast>, i: nat, j: nat)
    requires InOrder(lang, inp, parts, kids, i, j)
    ensures Chained(lang, inp, kids, i, j)
  {
    hide Accounts;
    if kids != [] {
      var m: nat :| Accounts(lang, inp, kids[0], i, m) && InOrder(lang, inp, parts[1..], kids[1..], m, j);
      InOrderChained(lang, inp, parts[1..], kids[1..], m, j);
    }
  }

  lemma {:induction false} RunsChained(lang: Lang, inp: Input, body: Grammar, kids: seq<Ast>, i: nat, j: nat)
    requires Runs(lang, inp, body, kids, i, j)
    ensures Chained(lang, inp, kids, i, j)
  {
    hide Accounts, Stops;
    if kids != [] {
      var m: nat :| m != i && Accounts(lang, inp, kids[0], i, m) && Runs(lang, inp, body, kids[1..], m, j);
      RunsChained(lang, inp, body, kids[1..], m, j);
    }
  }

  lemma OneChained(lang: Lang, inp: Input, kids: seq<Ast>, i: nat, j: nat)
    requires |kids| == 1 && Accounts(lang, inp, kids[0], i, j)
    ensures Chained(lang, inp, kids, i, j)
  {
    hide Accounts;
    assert Chained(lang, inp, kids[1..], j, j);
  }

  lemma FitsChained(lang: Lang, inp: Input, g: Grammar, kids: seq<Ast>, i: nat, j: nat)
    requires Fits(lang, inp, g, kids, i, j) && !IsTerminal(g)
    ensures Chained(lang, inp, kids, i, j)
  {
    hide Accounts, InOrder, Runs, FirstMatch, Comes;
    match g
    case And(parts) => InOrderChained(lang, inp, parts, kids, i, j);
    case Plus(body) =>
      var m: nat :| Accounts(lang, inp, kids[0], i, m) && Runs(lang, inp, body, kids[1..], m, j);
      RunsChained(lang, inp, body, kids[1..], m, j);
    case Star(body) => RunsChained(lang, inp, body, kids, i, j);
    case _ =>
      if kids != [] {
        OneChained(lang, inp, kids, i, j);
      }
  }

  /** What a tree accounts for is its terminals' texts in order, with only skipped whitespace between them. */
  lemma {:induction false} TreeWeaves(lang: Lang, inp: Input, a: Ast, i: nat, j: nat)
    requires Accounts(lang, inp, a, i, j)
    ensures Woven(inp, inp.text[i..j], Leaves(a))
    decreases a, 1
  {
    hide Woven, Accounts, Fits, Comes;
    AccountsComes(lang, inp, a, i, j);
    if IsTerminal(a.rule) {
      SkippedIsWs(inp, i);
      LeafWeaves(inp, i, SkipWs(inp, i), j);
    } else {
      FitsChained(lang, inp, a.rule, a.kids, i, j);
      KidsWeave(lang, inp, a.kids, i, j);
    }
  }

  lemma LeafWeaves(inp: Input, i: nat, w: nat, j: nat)
    requires i <= w <= j <= |inp.text| && AllWs(inp, inp.text[i..w])
    ensures Woven(inp, inp.text[i..j], [inp.text[w..j]])
  {
    hide Woven, AllWs;
    var s := inp.text[i..j];
    assert s[..w - i] == inp.text[i..w] && s[w - i..] == inp.text[w..j];
    WovenOne(inp, s, w - i);
  }

  lemma WovenNone(inp: Input, i: nat)
    requires i <= |inp.text|
    ensures Woven(inp, inp.text[i..i], [])
  {
  }

  lemma {:induction false} KidsWeave(lang: Lang, inp: Input, kids: seq<Ast>, i: nat, j: nat)
    requires Chained(lang, inp, kids, i, j) && i <= j <= |inp.text|
    ensures Woven(inp, inp.text[i..j], LeavesOf(kids))
    decreases kids, 0
  {
    hide Woven, Leaves, Accounts;
    if kids == [] {
      WovenNone(inp, i);
    } else {
      var m: nat :| Accounts(lang, inp, kids[0], i, m) && Chained(lang, inp, kids[1..], m, j);
      AccountsComes(lang, inp, kids[0], i, m);
      KidsReach(lang, inp, kids[1..], m, j);
      TreeWeaves(lang, inp, kids[0], i, m);
      KidsWeave(lang, inp, kids[1..], m, j);
      assert inp.text[i..j] == inp.text[i..m] + inp.text[m..j];
      WovenCat(inp, inp.text[i..m], Leaves(kids[0]), inp.text[m..j], LeavesOf(kids[1..]));
    }
  }

  lemma SkippedIsWs(inp: Input, i: nat)
    requires i <= |inp.text|
    ensures AllWs(inp, inp.text[i..SkipWs(inp, i)])
  {
    var w := SkipWs(inp, i);
    forall j | 0 <= j < w - i ensures IsWs(inp, inp.text[i..w][j]) {
      assert IsWs(inp, inp.text[i + j]);
    }
  }

  lemma {:induction false} KidsReach(lang: Lang, inp: Input, kids: seq<Ast>, i: nat, j: nat)
    requires Chained(lang, inp, kids, i, j)
    ensures i <= j
  {
    if kids != [] {
      var m: nat :| Accounts(lang, inp, kids[0], i, m) && Chained(lang, inp, kids[1..], m, j);
      KidsReach(lang, inp, kids[1..], m, j);
    }
  }

  /** A whole parse returns the one tree of the start rule that accounts for the whole input, and fails exactly
      if there is none; the input is that tree's terminals in order, with only whitespace between them. */
  lemma TopAccounts(lang: Lang, cert: Cert, inp: Input, start: Grammar, a: Ast)
    requires Ranked(lang, cert)
    ensures var r := ParseTop(lang, cert, inp, start);
            && (a.rule == start && Accounts(lang, inp, a, 0, |inp.text|) <==> r.ok && a == r.node)
            && (r.ok ==> Woven(inp, inp.text, Leaves(r.node)))
  {
    hide Ranked, LeftBelow, Parse, Accounts, Woven, Leaves;
    LeftTop(lang, cert, start);
    TheTree(lang, cert, inp, start, 0, cert.top, a, |inp.text|);
    var r := ParseTop(lang, cert, inp, start);
    if r.ok {
      TheTree(lang, cert, inp, start, 0, cert.top, r.node, |inp.text|);
      TreeWeaves(lang, inp, r.node, 0, |inp.text|);
      assert inp.text[0..|inp.text|] == inp.text;
    }
  }
}
