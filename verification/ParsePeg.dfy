/** A declarative reading of the grammar language, by derivations, and its agreement with parsing.

  `Derives` says when a derivation shows that g, tried at i, fails or matches up to some position.
  It needs no ranks and follows no order of evaluation: choices are witnessed by their first
  matching alternative, sequences and repetitions by cut points. */
module ParsePeg {
  import opened ParseGrammar
  import opened ParseSpec

  /** `end` is the conclusion: no match, or a match up to that position */
  datatype Deriv = Deriv(end: Option<nat>, subs: seq<Deriv>)

  /** where the derivation number m of a sequence starts: the end of the one before */
  function Cut(subs: seq<Deriv>, i: nat, m: nat): nat
    requires m <= |subs|
  {
    if m > 0 && subs[m - 1].end.Some? then subs[m - 1].end.value else i
  }

  /** the first position from i on that is not whitespace */
  predicate FirstNonWs(inp: Input, i: nat, w: nat) {
    && i <= w <= |inp.text|
    && (forall j :: i <= j < w ==> IsWs(inp, inp.text[j]))
    && (w < |inp.text| ==> !IsWs(inp, inp.text[w]))
  }

  ghost predicate TerminalAt(lang: Lang, inp: Input, g: Grammar, i: nat, end: Option<nat>)
    requires IsTerminal(g)
  {
    exists w :: FirstNonWs(inp, i, w) && end == TerminalEnd(lang, inp, g, w)
  }

  /** all parts match one after the other, from i on, up to `end`; or one of them fails after those
      before it have matched */
  ghost predicate InTurn(lang: Lang, inp: Input, subs: seq<Deriv>, parts: seq<Grammar>, i: nat, end: Option<nat>)
    decreases subs, 1
  {
    && |subs| <= |parts|
    && (forall m {:trigger PartTurn(lang, inp, subs, parts, i, m)} :: 0 <= m < |subs| ==>
        PartTurn(lang, inp, subs, parts, i, m))
    && (forall m :: 0 <= m < |subs| - 1 ==> subs[m].end.Some?)
    && (if end.Some? then |subs| == |parts| && (subs != [] ==> subs[|subs| - 1].end.Some?)
        && end.value == Cut(subs, i, |subs|)
        else subs != [] && subs[|subs| - 1].end.None?)
  }

  ghost predicate PartTurn(lang: Lang, inp: Input, subs: seq<Deriv>, parts: seq<Grammar>, i: nat, m: nat)
    requires m < |subs| <= |parts|
    decreases subs, 0
  {
    Derives(lang, inp, subs[m], parts[m], Cut(subs, i, m))
  }

  /** an alternative matches and all before it fail; or all fail */
  ghost predicate FirstOf(lang: Lang, inp: Input, subs: seq<Deriv>, alts: seq<Grammar>, i: nat, end: Option<nat>)
    decreases subs, 1
  {
    && |subs| <= |alts|
    && (forall m :: 0 <= m < |subs| ==> Derives(lang, inp, subs[m], alts[m], i))
    && (forall m :: 0 <= m < |subs| - 1 ==> subs[m].end.None?)
    && (if end.Some? then subs != [] && subs[|subs| - 1].end == end
        else |subs| == |alts| && (subs != [] ==> subs[|subs| - 1].end.None?))
  }

  /** matches that each consume something, up to the end of the input, or to where the body fails or
      matches the empty string */
  ghost predicate Repeats(lang: Lang, inp: Input, subs: seq<Deriv>, body: Grammar, i: nat, end: nat)
    decreases subs, 1
  {
    && (forall m {:trigger Turn(lang, inp, subs, body, i, m)} :: 0 <= m < |subs| ==> Turn(lang, inp, subs, body, i, m))
    && (forall m {:trigger Consumes(subs, i, m)} :: 0 <= m < |subs| - 1 ==> Consumes(subs, i, m))
    && end == Stop(subs, i)
    && (subs == [] || Consumes(subs, i, |subs| - 1) ==> end == |inp.text|)
  }

  ghost predicate Turn(lang: Lang, inp: Input, subs: seq<Deriv>, body: Grammar, i: nat, m: nat)
    requires m < |subs|
    decreases subs, 0
  {
    Cut(subs, i, m) < |inp.text| && Derives(lang, inp, subs[m], body, Cut(subs, i, m))
  }

  predicate Consumes(subs: seq<Deriv>, i: nat, m: nat)
    requires m < |subs|
  {
    subs[m].end.Some? && subs[m].end.value != Cut(subs, i, m)
  }

  /** where a repetition comes to a stop */
  function Stop(subs: seq<Deriv>, i: nat): nat {
    if subs == [] then i
    else if subs[|subs| - 1].end.Some? then subs[|subs| - 1].end.value
    else Cut(subs, i, |subs| - 1)
  }

  ghost predicate Derives(lang: Lang, inp: Input, d: Deriv, g: Grammar, i: nat)
    decreases d, 0
  {
    i <= |inp.text| &&
    match g
    case And(parts) => InTurn(lang, inp, d.subs, parts, i, d.end)
    case Or(alts) => FirstOf(lang, inp, d.subs, alts, i, d.end)
    case Not(parts) =>
      exists w, e :: FirstNonWs(inp, i, w) && InTurn(lang, inp, d.subs, parts, w, e) && d.end == if e.Some? then None
        else Some(i)
    case Plus(body) =>
      && d.subs != [] && Derives(lang, inp, d.subs[0], body, i)
      && (if d.subs[0].end.None? then d.end.None?
          else d.end.Some? && Repeats(lang, inp, d.subs[1..], body, d.subs[0].end.value, d.end.value))
    case Star(body) => d.end.Some? && Repeats(lang, inp, d.subs, body, i, d.end.value)
    case Opt(body) =>
      d.subs != [] && Derives(lang, inp, d.subs[0], body, i) && d.end == if d.subs[0].end.Some? then d.subs[0].end
        else Some(i)
    case Rule(n) =>
      if n in lang.defs then d.subs != [] && Derives(lang, inp, d.subs[0], lang.defs[n], i) && d.end == d.subs[0].end
      else d.end == Some(i)
    case _ => TerminalAt(lang, inp, g, i, d.end)
  }

  // ---- parsing is sound: what it finds can be derived ------------------------------------------------------

  function EndOf(ok: bool, pos: nat): Option<nat> {
    if ok then Some(pos) else None
  }

  lemma SkipIsFirst(inp: Input, i: nat, w: nat)
    requires i <= |inp.text|
    ensures FirstNonWs(inp, i, w) <==> w == SkipWs(inp, i)
  {
  }

  lemma CutTail(subs: seq<Deriv>, i: nat, m: nat)
    requires subs != [] && subs[0].end.Some? && m < |subs|
    requires forall j :: 0 <= j < m ==> subs[j].end.Some?
    ensures Cut(subs, i, m + 1) == (if subs[m].end.Some? then Cut(subs[1..], subs[0].end.value, m) else i)
    ensures m > 0 ==> Cut(subs, i, m) == Cut(subs[1..], subs[0].end.value, m - 1)
  {
  }

  lemma LastCut(ds: seq<Deriv>, i: nat, subs: seq<Deriv>)
    requires ds != [] && ds[0].end.Some? && subs == ds[1..] && ds[|ds| - 1].end.Some?
    ensures Cut(ds, i, |ds|) == Cut(subs, ds[0].end.value, |subs|)
  {
  }

  lemma InTurnCons(lang: Lang, inp: Input, d: Deriv, subs: seq<Deriv>, parts: seq<Grammar>, i: nat, end: Option<nat>)
    requires parts != [] && Derives(lang, inp, d, parts[0], i) && d.end.Some?
    requires InTurn(lang, inp, subs, parts[1..], d.end.value, end)
    ensures InTurn(lang, inp, [d] + subs, parts, i, end)
  {
    var ds := [d] + subs;
    assert ds[1..] == subs;
    forall m | 0 <= m < |ds| ensures PartTurn(lang, inp, ds, parts, i, m) {
      if m > 0 {
        CutTail(ds, i, m);
        assert PartTurn(lang, inp, subs, parts[1..], d.end.value, m - 1);
      }
    }
    assert forall m :: 0 < m < |ds| ==> ds[m] == subs[m - 1];
    if end.Some? {
      LastCut(ds, i, subs);
    }
  }

  lemma InTurnFails(lang: Lang, inp: Input, d: Deriv, parts: seq<Grammar>, i: nat)
    requires parts != [] && Derives(lang, inp, d, parts[0], i) && d.end.None?
    ensures InTurn(lang, inp, [d], parts, i, None)
  {
    assert PartTurn(lang, inp, [d], parts, i, 0);
  }

  lemma FirstOfCons(lang: Lang, inp: Input, d: Deriv, subs: seq<Deriv>, alts: seq<Grammar>, i: nat, end: Option<nat>)
    requires alts != [] && Derives(lang, inp, d, alts[0], i) && d.end.None?
    requires FirstOf(lang, inp, subs, alts[1..], i, end)
    ensures FirstOf(lang, inp, [d] + subs, alts, i, end)
  {
    hide Derives;
    var ds := [d] + subs;
    forall m | 0 <= m < |ds| ensures Derives(lang, inp, ds[m], alts[m], i) {
      if m > 0 {
        assert ds[m] == subs[m - 1] && alts[m] == alts[1..][m - 1];
      }
    }
    assert forall m :: 0 < m < |ds| ==> ds[m] == subs[m - 1];
  }

  lemma TurnShifts(lang: Lang, inp: Input, ds: seq<Deriv>, body: Grammar, i: nat, m: nat, subs: seq<Deriv>)
    requires 0 < m < |ds| && ds[0].end.Some? && subs == ds[1..]
    requires forall j {:trigger Consumes(subs, ds[0].end.value, j)} :: 0 <= j < |subs| - 1 ==>
             Consumes(subs, ds[0].end.value, j)
    ensures Turn(lang, inp, ds, body, i, m) == Turn(lang, inp, subs, body, ds[0].end.value, m - 1)
    ensures Consumes(ds, i, m) == Consumes(subs, ds[0].end.value, m - 1)
  {
    assert m > 1 ==> Consumes(subs, ds[0].end.value, m - 2);
    assert ds[m - 1].end.Some? && ds[m] == subs[m - 1];
    assert Cut(ds, i, m) == Cut(subs, ds[0].end.value, m - 1);
  }

  lemma StopShifts(ds: seq<Deriv>, i: nat, subs: seq<Deriv>)
    requires ds != [] && ds[0].end.Some? && subs == ds[1..]
    requires forall j {:trigger Consumes(subs, ds[0].end.value, j)} :: 0 <= j < |subs| - 1 ==>
             Consumes(subs, ds[0].end.value, j)
    ensures Stop(ds, i) == Stop(subs, ds[0].end.value)
  {
    var n := |subs|;
    if n > 0 {
      assert ds[n] == subs[n - 1];
      assert n > 1 ==> Consumes(subs, ds[0].end.value, n - 2);
      assert ds[n - 1].end.Some?;
      assert Cut(ds, i, n) == Cut(subs, ds[0].end.value, n - 1);
    }
  }

  lemma RepeatsCons(lang: Lang, inp: Input, d: Deriv, subs: seq<Deriv>, body: Grammar, i: nat, end: nat)
    requires i < |inp.text| && Derives(lang, inp, d, body, i) && d.end.Some? && d.end.value != i
    requires Repeats(lang, inp, subs, body, d.end.value, end)
    ensures Repeats(lang, inp, [d] + subs, body, i, end)
  {
    var ds := [d] + subs;
    assert ds[1..] == subs;
    forall m | 0 <= m < |ds| ensures Turn(lang, inp, ds, body, i, m)
      && (m > 0 ==> Consumes(ds, i, m) == Consumes(subs, d.end.value, m - 1)) {
      if m > 0 {
        TurnShifts(lang, inp, ds, body, i, m, subs);
      }
    }
    forall m | 0 <= m < |ds| - 1 ensures Consumes(ds, i, m) {
      assert m > 0 ==> Consumes(subs, d.end.value, m - 1);
    }
    StopShifts(ds, i, subs);
  }

  lemma RepeatsLast(lang: Lang, inp: Input, d: Deriv, body: Grammar, i: nat)
    requires i < |inp.text| && Derives(lang, inp, d, body, i) && (d.end.Some? ==> d.end.value == i)
    ensures Repeats(lang, inp, [d], body, i, i)
  {
    assert Turn(lang, inp, [d], body, i, 0);
  }

  /** Parsing g at i has a derivation. */
  lemma {:induction false} Sound(lang: Lang, cert: Cert, inp: Input, g: Grammar, i: nat, k: nat) returns (d: Deriv)
    requires Ranked(lang, cert) && LeftBelow(lang, cert, g, k) && i <= |inp.text|
    ensures Derives(lang, inp, d, g, i)
    ensures var r := Parse(lang, cert, inp, g, i, k); d.end == EndOf(r.ok, r.pos)
    decreases |inp.text| - i, k, g, 0
  {
    var r := Parse(lang, cert, inp, g, i, k);
    var end, subs := EndOf(r.ok, r.pos), [];
    match g {
      case And(parts) => subs := SoundAll(lang, cert, inp, parts, i, k);
      case Or(alts) => subs := SoundAny(lang, cert, inp, alts, i, k);
      case Not(parts) =>
        var w := SkipWs(inp, i);
        LeftTopSeq(lang, cert, parts);
        subs := SoundAll(lang, cert, inp, parts, w, Bound(cert, k, i, w));
        SkipIsFirst(inp, i, w);
      case Plus(body) =>
        var first := Sound(lang, cert, inp, body, i, k);
        subs := [first];
        if first.end.Some? {
          LeftTop(lang, cert, body);
          var more := SoundMany(lang, cert, inp, body, first.end.value, Bound(cert, k, i, first.end.value));
          subs := [first] + more;
          assert subs[1..] == more;
        }
      case Star(body) => subs := SoundMany(lang, cert, inp, body, i, k);
      case Opt(body) =>
        var first := Sound(lang, cert, inp, body, i, k);
        subs := [first];
      case Rule(n) =>
        if n in lang.defs {
          var first := Sound(lang, cert, inp, lang.defs[n], i, cert.rank[n]);
          subs := [first];
        }
      case _ => SkipIsFirst(inp, i, SkipWs(inp, i));
    }
    d := Deriv(end, subs);
  }

  lemma {:induction false} SoundAll(lang: Lang, cert: Cert, inp: Input, parts: seq<Grammar>, i: nat, k: nat)
    returns (subs: seq<Deriv>)
    requires Ranked(lang, cert) && LeftBelowSeq(lang, cert, parts, k) && i <= |inp.text|
    ensures var r := ParseAll(lang, cert, inp, parts, i, k); InTurn(lang, inp, subs, parts, i, EndOf(r.ok, r.pos))
    decreases |inp.text| - i, k, parts, 0
  {
    subs := [];
    if parts != [] {
      var d := Sound(lang, cert, inp, parts[0], i, k);
      if d.end.Some? {
        LeftTopSeq(lang, cert, parts[1..]);
        var rest := SoundAll(lang, cert, inp, parts[1..], d.end.value, Bound(cert, k, i, d.end.value));
        var r := ParseAll(lang, cert, inp, parts, i, k);
        InTurnCons(lang, inp, d, rest, parts, i, EndOf(r.ok, r.pos));
        subs := [d] + rest;
      } else {
        InTurnFails(lang, inp, d, parts, i);
        subs := [d];
      }
    }
  }

  lemma {:induction false} SoundAny(lang: Lang, cert: Cert, inp: Input, alts: seq<Grammar>, i: nat, k: nat)
    returns (subs: seq<Deriv>)
    requires Ranked(lang, cert) && i <= |inp.text|
    requires forall j :: 0 <= j < |alts| ==> LeftBelow(lang, cert, alts[j], k)
    ensures var r := ParseAny(lang, cert, inp, alts, i, k); FirstOf(lang, inp, subs, alts, i, EndOf(r.ok, r.pos))
    decreases |inp.text| - i, k, alts, 0
  {
    subs := [];
    if alts != [] {
      var d := Sound(lang, cert, inp, alts[0], i, k);
      if d.end.Some? {
        subs := [d];
      } else {
        var rest := SoundAny(lang, cert, inp, alts[1..], i, k);
        var r := ParseAny(lang, cert, inp, alts, i, k);
        FirstOfCons(lang, inp, d, rest, alts, i, EndOf(r.ok, r.pos));
        subs := [d] + rest;
      }
    }
  }

  lemma {:induction false} SoundMany(lang: Lang, cert: Cert, inp: Input, body: Grammar, i: nat, k: nat)
    returns (subs: seq<Deriv>)
    requires Ranked(lang, cert) && LeftBelow(lang, cert, body, k) && i <= |inp.text|
    ensures Repeats(lang, inp, subs, body, i, ParseMany(lang, cert, inp, body, i, k).pos)
    decreases |inp.text| - i, k, body, 1
  {
    hide Derives, TerminalAt, LeftBelow;
    subs := [];
    if i < |inp.text| {
      var d := Sound(lang, cert, inp, body, i, k);
      if d.end.Some? && d.end.value != i {
        LeftTop(lang, cert, body);
        var rest := SoundMany(lang, cert, inp, body, d.end.value, cert.top);
        RepeatsCons(lang, inp, d, rest, body, i, ParseMany(lang, cert, inp, body, i, k).pos);
        subs := [d] + rest;
      } else {
        subs := [d];
        RepeatsLast(lang, inp, d, body, i);
      }
    }
  }

  // ---- parsing is complete: what can be derived is what it finds --------------------------------------------

  lemma InTurnTail(lang: Lang, inp: Input, subs: seq<Deriv>, parts: seq<Grammar>, i: nat, end: Option<nat>)
    requires InTurn(lang, inp, subs, parts, i, end) && subs != [] && subs[0].end.Some?
    ensures InTurn(lang, inp, subs[1..], parts[1..], subs[0].end.value, end)
  {
    var ds, i' := subs[1..], subs[0].end.value;
    forall m | 0 <= m < |ds| ensures PartTurn(lang, inp, ds, parts[1..], i', m) {
      CutTail(subs, i, m + 1);
      assert PartTurn(lang, inp, subs, parts, i, m + 1);
    }
    assert forall m :: 0 <= m < |ds| ==> ds[m] == subs[m + 1];
    if end.Some? {
      LastCut(subs, i, ds);
    }
  }

  lemma FirstOfTail(lang: Lang, inp: Input, subs: seq<Deriv>, alts: seq<Grammar>, i: nat, end: Option<nat>)
    requires FirstOf(lang, inp, subs, alts, i, end) && subs != [] && subs[0].end.None?
    ensures FirstOf(lang, inp, subs[1..], alts[1..], i, end)
  {
    var ds := subs[1..];
    forall m | 0 <= m < |ds| ensures Derives(lang, inp, ds[m], alts[1..][m], i) {
      assert Derives(lang, inp, subs[m + 1], alts[m + 1], i);
    }
  }

  lemma RepeatsTail(lang: Lang, inp: Input, subs: seq<Deriv>, body: Grammar, i: nat, end: nat)
    requires Repeats(lang, inp, subs, body, i, end) && subs != [] && subs[0].end.Some? && subs[0].end.value != i
    ensures Repeats(lang, inp, subs[1..], body, subs[0].end.value, end)
  {
    var ds, i' := subs[1..], subs[0].end.value;
    forall m | 0 <= m < |ds| - 1 ensures Consumes(ds, i', m) {
      assert Consumes(subs, i, m) && Consumes(subs, i, m + 1);
      assert Cut(subs, i, m + 1) == Cut(ds, i', m);
    }
    forall m | 0 <= m < |ds| ensures Turn(lang, inp, ds, body, i', m)
      && Consumes(ds, i', m) == Consumes(subs, i, m + 1) {
      TurnShifts(lang, inp, subs, body, i, m + 1, ds);
      assert Turn(lang, inp, subs, body, i, m + 1);
    }
    StopShifts(subs, i, ds);
  }

  /** A derivation for g at i concludes what parsing finds. */
  lemma {:induction false} Complete(lang: Lang, cert: Cert, inp: Input, d: Deriv, g: Grammar, i: nat, k: nat)
    requires Ranked(lang, cert) && LeftBelow(lang, cert, g, k) && Derives(lang, inp, d, g, i)
    ensures var r := Parse(lang, cert, inp, g, i, k); d.end == EndOf(r.ok, r.pos)
    decreases d, 0
  {
    match g
    case And(parts) => CompleteAll(lang, cert, inp, d.subs, parts, i, d.end, k);
    case Or(alts) => CompleteAny(lang, cert, inp, d.subs, alts, i, d.end, k);
    case Not(parts) =>
      var w, e :| FirstNonWs(inp, i, w) && InTurn(lang, inp, d.subs, parts, w, e) && d.end == if e.Some? then None
        else Some(i);
      SkipIsFirst(inp, i, w);
      LeftTopSeq(lang, cert, parts);
      CompleteAll(lang, cert, inp, d.subs, parts, w, e, Bound(cert, k, i, w));
    case Plus(body) =>
      Complete(lang, cert, inp, d.subs[0], body, i, k);
      if d.end.Some? {
        LeftTop(lang, cert, body);
        var j := d.subs[0].end.value;
        CompleteMany(lang, cert, inp, d.subs[1..], body, j, d.end.value, Bound(cert, k, i, j));
      }
    case Star(body) => CompleteMany(lang, cert, inp, d.subs, body, i, d.end.value, k);
    case Opt(body) => Complete(lang, cert, inp, d.subs[0], body, i, k);
    case Rule(n) =>
      if n in lang.defs {
        Complete(lang, cert, inp, d.subs[0], lang.defs[n], i, cert.rank[n]);
      }
    case _ =>
      var w :| FirstNonWs(inp, i, w) && d.end == TerminalEnd(lang, inp, g, w);
      SkipIsFirst(inp, i, w);
  }

  lemma {:induction false} CompleteAll(lang: Lang, cert: Cert, inp: Input, subs: seq<Deriv>, parts: seq<Grammar>,
                                       i: nat, end: Option<nat>, k: nat)
    requires Ranked(lang, cert) && LeftBelowSeq(lang, cert, parts, k) && i <= |inp.text|
             && InTurn(lang, inp, subs, parts, i, end)
    ensures var r := ParseAll(lang, cert, inp, parts, i, k); end == EndOf(r.ok, r.pos)
    decreases subs, 1
  {
    if subs != [] {
      assert PartTurn(lang, inp, subs, parts, i, 0);
      Complete(lang, cert, inp, subs[0], parts[0], i, k);
      if subs[0].end.Some? {
        var j := subs[0].end.value;
        InTurnTail(lang, inp, subs, parts, i, end);
        LeftTopSeq(lang, cert, parts[1..]);
        CompleteAll(lang, cert, inp, subs[1..], parts[1..], j, end, Bound(cert, k, i, j));
      }
    }
  }

  lemma {:induction false} CompleteAny(lang: Lang, cert: Cert, inp: Input, subs: seq<Deriv>, alts: seq<Grammar>,
                                       i: nat, end: Option<nat>, k: nat)
    requires Ranked(lang, cert) && i <= |inp.text| && FirstOf(lang, inp, subs, alts, i, end)
    requires forall j :: 0 <= j < |alts| ==> LeftBelow(lang, cert, alts[j], k)
    ensures var r := ParseAny(lang, cert, inp, alts, i, k); end == EndOf(r.ok, r.pos)
    decreases subs, 1
  {
    if subs != [] {
      Complete(lang, cert, inp, subs[0], alts[0], i, k);
      if subs[0].end.None? {
        FirstOfTail(lang, inp, subs, alts, i, end);
        CompleteAny(lang, cert, inp, subs[1..], alts[1..], i, end, k);
      }
    }
  }

  lemma {:induction false} CompleteMany(lang: Lang, cert: Cert, inp: Input, subs: seq<Deriv>, body: Grammar, i: nat,
                                        end: nat, k: nat)
    requires Ranked(lang, cert) && LeftBelow(lang, cert, body, k) && i <= |inp.text|
             && Repeats(lang, inp, subs, body, i, end)
    ensures end == ParseMany(lang, cert, inp, body, i, k).pos
    decreases subs, 1
  {
    if subs != [] {
      assert Turn(lang, inp, subs, body, i, 0) && (|subs| > 1 ==> Consumes(subs, i, 0));
      Complete(lang, cert, inp, subs[0], body, i, k);
      if subs[0].end.Some? && subs[0].end.value != i {
        RepeatsTail(lang, inp, subs, body, i, end);
        LeftTop(lang, cert, body);
        CompleteMany(lang, cert, inp, subs[1..], body, subs[0].end.value, end, cert.top);
      }
    }
  }

  // ---- the theorem -------------------------------------------------------------------------------------------

  /** g, tried at i, comes to `end` by some derivation */
  ghost predicate Comes(lang: Lang, inp: Input, g: Grammar, i: nat, end: Option<nat>) {
    exists d :: Derives(lang, inp, d, g, i) && d.end == end
  }

  /** Parsing agrees exactly with the derivations; in particular these conclude one thing only. */
  lemma SoundAndComplete(lang: Lang, cert: Cert, inp: Input, g: Grammar, i: nat, k: nat, end: Option<nat>)
    requires Ranked(lang, cert) && LeftBelow(lang, cert, g, k) && i <= |inp.text|
    ensures var r := Parse(lang, cert, inp, g, i, k);
            Comes(lang, inp, g, i, end) <==> end == EndOf(r.ok, r.pos)
  {
    var d := Sound(lang, cert, inp, g, i, k);
    if Comes(lang, inp, g, i, end) {
      var e :| Derives(lang, inp, e, g, i) && e.end == end;
      Complete(lang, cert, inp, e, g, i, k);
    }
  }

  /** A whole parse succeeds exactly when the start rule comes to the end of the input. */
  lemma TopLevel(lang: Lang, cert: Cert, inp: Input, start: Grammar)
    requires Ranked(lang, cert)
    ensures ParseTop(lang, cert, inp, start).ok <==> Comes(lang, inp, start, 0, Some(|inp.text|))
  {
    LeftTop(lang, cert, start);
    SoundAndComplete(lang, cert, inp, start, 0, cert.top, Some(|inp.text|));
  }
}
