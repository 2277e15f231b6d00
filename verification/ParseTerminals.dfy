/** What each kind of terminal comes to, character by character. */
module ParseTerminals {
  import opened ParseGrammar
  import opened ParsePeg

  /** everything from i to w is whitespace, and w is not, or is the end */
  predicate SkipsTo(inp: Input, i: nat, w: nat) {
    && i <= w <= |inp.text|
    && (forall j :: i <= j < w ==> inp.skipWs && inp.text[j] in inp.ws)
    && (w < |inp.text| && inp.skipWs ==> inp.text[w] !in inp.ws)
  }

  /** the same character, or the same letter of the English alphabet in the other case */
  predicate SameLetter(a: Ch, b: Ch) {
    a == b || (65 <= a <= 90 && b == a + 32) || (65 <= b <= 90 && a == b + 32)
  }

  /** c lies between the two ends, either way round, ends included */
  predicate Between(c: Ch, a: Ch, b: Ch) {
    a <= c <= b || b <= c <= a
  }

  ghost predicate InEitherCase(c: Ch, a: Ch, b: Ch, ignoreCase: bool) {
    Between(c, a, b) || (ignoreCase && exists d :: Between(d, a, b) && SameLetter(d, c))
  }

  lemma OneEnd(lang: Lang, inp: Input, g: Grammar, i: nat, w: nat, end: Option<nat>)
    requires SkipsTo(inp, i, w) && IsTerminal(g)
    ensures Comes(lang, inp, g, i, end) <==> end == TerminalEnd(lang, inp, g, w)
  {
    hide TerminalEnd;
    assert FirstNonWs(inp, i, w);
    SkipIsFirst(inp, i, w);
    if end == TerminalEnd(lang, inp, g, w) {
      assert TerminalAt(lang, inp, g, i, end);
      assert Derives(lang, inp, Deriv(end, []), g, i);
    }
    if Comes(lang, inp, g, i, end) {
      var d :| Derives(lang, inp, d, g, i) && d.end == end;
      var v :| FirstNonWs(inp, i, v) && end == TerminalEnd(lang, inp, g, v);
      SkipIsFirst(inp, i, v);
    }
  }

  /** A literal comes to its end if the input has its characters there, and else to no match. */
  lemma LiteralComes(lang: Lang, inp: Input, lit: seq<Ch>, i: nat, w: nat, end: Option<nat>)
    requires SkipsTo(inp, i, w) && !inp.ignoreCase
    ensures Comes(lang, inp, Str(lit), i, end) <==>
            end == if w + |lit| <= |inp.text| && inp.text[w..w + |lit|] == lit then Some(w + |lit|) else None
  {
    OneEnd(lang, inp, Str(lit), i, w, end);
    if w + |lit| <= |inp.text| {
      var s := inp.text[w..w + |lit|];
      assert forall j :: 0 <= j < |lit| ==> s[j] == inp.text[w + j];
    }
  }

  /** When case is ignored, the characters need to be equal up to case only. */
  lemma LiteralComesAnyCase(lang: Lang, inp: Input, lit: seq<Ch>, i: nat, w: nat, end: Option<nat>)
    requires SkipsTo(inp, i, w) && inp.ignoreCase
    ensures Comes(lang, inp, Str(lit), i, end) <==>
            end == if w + |lit| <= |inp.text| && (forall j :: 0 <= j < |lit| ==> SameLetter(inp.text[w + j], lit[j]))
                   then Some(w + |lit|) else None
  {
    OneEnd(lang, inp, Str(lit), i, w, end);
  }

  /** A character comes one further if it is the one at the first position that is not whitespace. */
  lemma CharacterComes(lang: Lang, inp: Input, c: Ch, i: nat, w: nat, end: Option<nat>)
    requires SkipsTo(inp, i, w)
    ensures Comes(lang, inp, Chr(c), i, end) <==>
            end == if w < |inp.text| && (inp.text[w] == c || (inp.ignoreCase && SameLetter(inp.text[w], c)))
                   then Some(w + 1) else None
  {
    OneEnd(lang, inp, Chr(c), i, w, end);
  }

  /** A range comes one further if the character there lies in it, or, when case is ignored, its other case does. */
  lemma RangeComes(lang: Lang, inp: Input, a: Ch, b: Ch, i: nat, w: nat, end: Option<nat>)
    requires SkipsTo(inp, i, w)
    ensures Comes(lang, inp, Range(a, b), i, end) <==>
            end == if w < |inp.text| && InEitherCase(inp.text[w], a, b, inp.ignoreCase) then Some(w + 1) else None
  {
    OneEnd(lang, inp, Range(a, b), i, w, end);
    if w < |inp.text| {
      assert SameLetter(SwapCase(inp.text[w]), inp.text[w]);
      assert forall d :: SameLetter(d, inp.text[w]) ==> d == inp.text[w] || d == SwapCase(inp.text[w]);
    }
  }

  /** A regular expression comes to the end of what it matches of the rest of the input, and never at the end
      of the input. */
  lemma RegexComes(lang: Lang, inp: Input, id: nat, i: nat, w: nat, end: Option<nat>)
    requires SkipsTo(inp, i, w)
    ensures w == |inp.text| ==> (Comes(lang, inp, Regex(id), i, end) <==> end == None)
    ensures w < |inp.text| ==>
              (Comes(lang, inp, Regex(id), i, end) <==>
               match lang.regex(id, inp.text[w..])
               case Some(n) => end == if w + n <= |inp.text| then Some(w + n) else None
               case None => end == None)
  {
    OneEnd(lang, inp, Regex(id), i, w, end);
  }
}
