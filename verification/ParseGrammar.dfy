/** The grammar language that both parser libraries implement, and what its terminals match. */
module ParseGrammar {
  datatype Option<+T> = None | Some(value: T)

  /** a character by its code; only comparison and the distance between letter cases matter */
  type Ch = int

  datatype Grammar =
    | Str(lit: seq<Ch>)
    | Chr(c: Ch)
    | Range(first: Ch, last: Ch)
    | Regex(id: nat)
    | And(parts: seq<Grammar>)
    | Or(alts: seq<Grammar>)
    | Not(parts: seq<Grammar>)
    | Plus(body: Grammar)
    | Star(body: Grammar)
    | Opt(body: Grammar)
    | Rule(name: nat)

  /** What the named rules stand for; a name without a definition is a bare rule, which matches
      nothing. `regex` tells how much of the rest of the input a regular expression matches. */
  datatype Lang = Lang(defs: map<nat, Grammar>, regex: (nat, seq<Ch>) -> Option<nat>)

  /** what is parsed, and how the parser is set up */
  datatype Input = Input(text: seq<Ch>, ws: set<Ch>, skipWs: bool, ignoreCase: bool)

  /** a node of the syntax tree */
  datatype Ast = Node(rule: Grammar, text: seq<Ch>, kids: seq<Ast>)

  /** which rule failed, and where */
  datatype Error = Error(rule: Grammar, pos: nat)

  predicate IsTerminal(g: Grammar) {
    g.Str? || g.Chr? || g.Range? || g.Regex?
  }

  // ---- characters ---------------------------------------------------------------------------------

  function ToLower(c: Ch): Ch {
    if 'A' as int <= c <= 'Z' as int then c - 'A' as int + 'a' as int else c
  }

  function SwapCase(c: Ch): Ch {
    if 'A' as int <= c <= 'Z' as int then c - 'A' as int + 'a' as int
    else if 'a' as int <= c <= 'z' as int then c - 'a' as int + 'A' as int
    else c
  }

  predicate CharMatch(a: Ch, b: Ch, ignoreCase: bool) {
    if ignoreCase then ToLower(a) == ToLower(b) else a == b
  }

  /** a range may be written either way round */
  predicate InRange(c: Ch, first: Ch, last: Ch) {
    if first <= last then first <= c <= last else last <= c <= first
  }

  predicate RangeMatch(c: Ch, first: Ch, last: Ch, ignoreCase: bool) {
    InRange(c, first, last) || (ignoreCase && InRange(SwapCase(c), first, last))
  }

  predicate IsWs(inp: Input, c: Ch) {
    inp.skipWs && c in inp.ws
  }

  // ---- terminals ------------------------------------------------------------------------------------

  /** the first position from i on that is not whitespace */
  function SkipWs(inp: Input, i: nat): (w: nat)
    requires i <= |inp.text|
    ensures i <= w <= |inp.text|
    ensures forall j :: i <= j < w ==> IsWs(inp, inp.text[j])
    ensures w < |inp.text| ==> !IsWs(inp, inp.text[w])
    decreases |inp.text| - i
  {
    if i < |inp.text| && IsWs(inp, inp.text[i]) then SkipWs(inp, i + 1) else i
  }

  predicate LitAt(inp: Input, lit: seq<Ch>, w: nat) {
    w + |lit| <= |inp.text| && forall j :: 0 <= j < |lit| ==> CharMatch(inp.text[w + j], lit[j], inp.ignoreCase)
  }

  /** how much of a non-empty rest a regular expression matches */
  function RegexLen(lang: Lang, id: nat, rest: seq<Ch>): (n: Option<nat>)
    ensures n.Some? ==> n.value <= |rest|
  {
    var n := lang.regex(id, rest);
    if n.Some? && n.value <= |rest| then n else None
  }

  /** where a terminal's match that starts at w, after any whitespace, ends */
  function TerminalEnd(lang: Lang, inp: Input, g: Grammar, w: nat): (e: Option<nat>)
    requires IsTerminal(g) && w <= |inp.text|
    ensures e.Some? ==> w <= e.value <= |inp.text|
    ensures e.Some? && (g.Chr? || g.Range?) ==> e.value == w + 1
  {
    match g
    case Str(lit) => if LitAt(inp, lit, w) then Some(w + |lit|) else None
    case Chr(c) => if w < |inp.text| && CharMatch(inp.text[w], c, inp.ignoreCase) then Some(w + 1) else None
    case Range(first, last) => if w < |inp.text|
      && RangeMatch(inp.text[w], first, last, inp.ignoreCase) then Some(w + 1) else None
    case Regex(id) =>
      if w == |inp.text| then None
      else
        var n := RegexLen(lang, id, inp.text[w..]);
        if n.Some? then Some(w + n.value) else None
  }
}
