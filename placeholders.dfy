/**
 * `fill_placeholders`: every placeholder token of a normalised statement (`N` for a
 * number, `S` after a quote for a string) is replaced by a value chosen from the
 * context the single substitution pattern captured around it, unless an override
 * for its (row, column) exists. Columns count the matches of one statement from 0.
 */
module Placeholders {
  import opened Wrappers
  import opened Text
  import opened Settings

  /** Which alternative of the pattern matched, with the text it captured around the token. */
  datatype Shape =
    | Keyword(word: string, space: string)    // `LIMIT` or `OFFSET` in any case, whitespace, N
    | CmpPrefix(op: string, space: string)    // `<`, `<=`, `>` or `>=`, optional whitespace, N
    | CmpPostfix(space: string, op: string)   // N, optional whitespace, a comparison
    | Bare                                    // N with no recognised context
    | LikeQuote(word: string, space: string)  // `LIKE` in any case, optional whitespace, a quote, S
    | Quote                                   // a quote, S

  /** One match: its shape and the token itself, as written (either case). */
  datatype Match = Match(shape: Shape, holder: char)

  /** The `prefix_sp` capture: what the match keeps before the token. */
  function PrefixSp(m: Match): string {
    match m.shape
    case Keyword(w, sp) => w + sp
    case CmpPrefix(op, sp) => op + sp
    case LikeQuote(w, sp) => w + sp + "'"
    case Quote => "'"
    case _ => ""
  }

  /** The `postfix_sp` capture: what the match keeps after the token. */
  function PostfixSp(m: Match): string {
    match m.shape
    case CmpPostfix(sp, op) => sp + op
    case _ => ""
  }

  /** The `prefix` capture, nil when the alternative has none. */
  function Prefix(m: Match): Option<string> {
    match m.shape
    case Keyword(w, _) => Some(w)
    case CmpPrefix(op, _) => Some(op)
    case LikeQuote(w, _) => Some(w)
    case _ => None
  }

  /** The `postfix` capture, nil when the alternative has none. */
  function Postfix(m: Match): Option<string> {
    match m.shape
    case CmpPostfix(_, op) => Some(op)
    case _ => None
  }

  /** The whole matched text. */
  function Matched(m: Match): string {
    PrefixSp(m) + [m.holder] + PostfixSp(m)
  }

  predicate SpaceOnly(s: string) {
    forall k :: 0 <= k < |s| ==> IsSpace(s[k])
  }

  predicate Comparison(op: string) {
    op == "<" || op == "<=" || op == ">" || op == ">="
  }

  /** What each alternative of the pattern can capture. */
  predicate WellFormed(m: Match) {
    match m.shape
    case Keyword(w, sp) =>
      (SameLetters(w, "LIMIT") || SameLetters(w, "OFFSET")) && sp != "" && SpaceOnly(sp) && Upper(m.holder) == 'N'
    case CmpPrefix(op, sp) => Comparison(op) && SpaceOnly(sp) && Upper(m.holder) == 'N'
    case CmpPostfix(sp, op) => Comparison(op) && SpaceOnly(sp) && Upper(m.holder) == 'N'
    case Bare => Upper(m.holder) == 'N'
    case LikeQuote(w, sp) => SameLetters(w, "LIKE") && SpaceOnly(sp) && Upper(m.holder) == 'S'
    case Quote => Upper(m.holder) == 'S'
  }

  /** `\bKW` at p, in any case. */
  predicate KeywordAt(s: string, p: nat, kw: string) {
    p + |kw| <= |s| && Boundary(s, p) && SameLetters(s[p..p + |kw|], kw)
  }

  /** `\bH\b` at i, in any case. */
  predicate HolderAt(s: string, i: nat, h: char) {
    i < |s| && Upper(s[i]) == h && Boundary(s, i) && Boundary(s, i + 1)
  }

  /** The length of `[<>]=?` at i, 0 when there is none. */
  function OpLen(s: string, i: nat): (n: nat)
    requires i <= |s|
    ensures i + n <= |s|
    ensures n > 0 ==> Comparison(s[i..i + n])
  {
    if i < |s| && (s[i] == '<' || s[i] == '>') then
      if i + 1 < |s| && s[i + 1] == '=' then
        assert s[i..i + 2] == [s[i], '='];
        2
      else
        assert s[i..i + 1] == [s[i]];
        1
    else 0
  }

  /** m is a well-formed match of the text at p. */
  predicate Found(s: string, p: nat, m: Match) {
    WellFormed(m) && p + |Matched(m)| <= |s| && s[p..p + |Matched(m)|] == Matched(m)
    && HolderAt(s, p + |PrefixSp(m)|, Upper(m.holder))
  }

  /** The whitespace run at i is whitespace only. */
  lemma RunSpaceOnly(s: string, i: nat)
    requires i <= |s|
    ensures SpaceOnly(s[i..i + Run(s, i, Space)])
  {
    RunSpans(s, i, Space);
  }

  /** A match that ends with its token is found where its prefix text and the token stand. */
  lemma FoundAtToken(s: string, p: nat, m: Match)
    requires WellFormed(m) && PostfixSp(m) == ""
    requires p + |PrefixSp(m)| < |s| && s[p..p + |PrefixSp(m)|] == PrefixSp(m)
    requires HolderAt(s, p + |PrefixSp(m)|, Upper(m.holder)) && s[p + |PrefixSp(m)|] == m.holder
    ensures Found(s, p, m)
  {
    var h := p + |PrefixSp(m)|;
    assert s[p..h + 1] == s[p..h] + [s[h]];
  }

  /** `KW\s+\bN\b` at p, where the keyword of length k has already been recognised. */
  function KeywordPrefixedAt(s: string, p: nat, k: nat): Option<Match>
    requires p + k <= |s|
  {
    var w := Run(s, p + k, Space);
    var h := p + k + w;
    if w > 0 && HolderAt(s, h, 'N') then Some(Match(Keyword(s[p..p + k], s[p + k..h]), s[h])) else None
  }

  /** `[<>]=?\s*\bN\b` at p. */
  function OpPrefixedAt(s: string, p: nat): Option<Match>
    requires p <= |s|
  {
    var o := OpLen(s, p);
    var w := Run(s, p + o, Space);
    var h := p + o + w;
    if o > 0 && HolderAt(s, h, 'N') then Some(Match(CmpPrefix(s[p..p + o], s[p + o..h]), s[h])) else None
  }

  /** First alternative: `\bLIMIT\s+` or `\bOFFSET\s+` or `[<>]=?\s*`, then `\bN\b`. */
  function PrefixedAt(s: string, p: nat): Option<Match>
    requires p <= |s|
  {
    if KeywordAt(s, p, "LIMIT") then KeywordPrefixedAt(s, p, 5)
    else if KeywordAt(s, p, "OFFSET") then KeywordPrefixedAt(s, p, 6)
    else OpPrefixedAt(s, p)
  }

  /** `\s*[<>]=?` after the token at p. */
  function PostfixedAt(s: string, p: nat): Option<Match>
    requires p < |s|
  {
    var w := Run(s, p + 1, Space);
    var o := OpLen(s, p + 1 + w);
    if o > 0 then Some(Match(CmpPostfix(s[p + 1..p + 1 + w], s[p + 1 + w..p + 1 + w + o]), s[p])) else None
  }

  /** Second alternative: `\bN\b`, then optionally `\s*[<>]=?`. */
  function HolderFirstAt(s: string, p: nat): Option<Match>
    requires p <= |s|
  {
    if HolderAt(s, p, 'N') then
      var post := PostfixedAt(s, p);
      if post.Some? then post else Some(Match(Bare, s[p]))
    else None
  }

  /** Third alternative: optionally `\bLIKE\s*`, then a quote, then `\bS\b`. */
  function QuotedAt(s: string, p: nat): Option<Match>
    requires p <= |s|
  {
    if KeywordAt(s, p, "LIKE") then
      var q := p + 4 + Run(s, p + 4, Space);
      if q < |s| && s[q] == '\'' && HolderAt(s, q + 1, 'S') then
        Some(Match(LikeQuote(s[p..p + 4], s[p + 4..q]), s[q + 1]))
      else None
    else if p < |s| && s[p] == '\'' && HolderAt(s, p + 1, 'S') then Some(Match(Quote, s[p + 1]))
    else None
  }

  /** The pattern at p: its three alternatives are tried in order and the first that matches wins. */
  function MatchAt(s: string, p: nat): Option<Match>
    requires p <= |s|
  {
    var a := PrefixedAt(s, p);
    if a.Some? then a
    else
      var b := HolderFirstAt(s, p);
      if b.Some? then b else QuotedAt(s, p)
  }

  /** A match of `\bLIMIT\s+\bN\b` or `\bOFFSET\s+\bN\b` is a keyword match of exactly the text there. */
  lemma KeywordPrefixedFound(s: string, p: nat, k: nat)
    requires p + k <= |s| && (SameLetters(s[p..p + k], "LIMIT") || SameLetters(s[p..p + k], "OFFSET"))
    ensures var r := KeywordPrefixedAt(s, p, k); r.Some? ==> Found(s, p, r.value) && r.value.shape.Keyword?
  {
    var h := p + k + Run(s, p + k, Space);
    var r := KeywordPrefixedAt(s, p, k);
    if r.Some? {
      assert r.value == Match(Keyword(s[p..p + k], s[p + k..h]), s[h]);
      KeywordFound(s, p, k, h);
    }
  }

  /** The keyword, the whitespace after it and a token `N` on a word boundary make a keyword match. */
  lemma KeywordFound(s: string, p: nat, k: nat, h: nat)
    requires p + k <= |s| && (SameLetters(s[p..p + k], "LIMIT") || SameLetters(s[p..p + k], "OFFSET"))
    requires h == p + k + Run(s, p + k, Space) && h > p + k && HolderAt(s, h, 'N')
    ensures Found(s, p, Match(Keyword(s[p..p + k], s[p + k..h]), s[h]))
  {
    RunSpaceOnly(s, p + k);
    assert s[p..h] == s[p..p + k] + s[p + k..h];
    FoundAtToken(s, p, Match(Keyword(s[p..p + k], s[p + k..h]), s[h]));
  }

  /** A match of `[<>]=?\s*\bN\b` is a prefix-comparison match of exactly the text there. */
  lemma OpPrefixedFound(s: string, p: nat)
    requires p <= |s|
    ensures var r := OpPrefixedAt(s, p); r.Some? ==> Found(s, p, r.value) && r.value.shape.CmpPrefix?
  {
    var o := OpLen(s, p);
    var h := p + o + Run(s, p + o, Space);
    var r := OpPrefixedAt(s, p);
    if r.Some? {
      assert r.value == Match(CmpPrefix(s[p..p + o], s[p + o..h]), s[h]);
      OpFound(s, p, o, h);
    }
  }

  /** A comparison operator, optional whitespace and a token `N` on a word boundary make a prefix-comparison match. */
  lemma OpFound(s: string, p: nat, o: nat, h: nat)
    requires p <= |s| && o == OpLen(s, p) && o > 0
    requires h == p + o + Run(s, p + o, Space) && HolderAt(s, h, 'N')
    ensures Found(s, p, Match(CmpPrefix(s[p..p + o], s[p + o..h]), s[h]))
  {
    RunSpaceOnly(s, p + o);
    assert s[p..h] == s[p..p + o] + s[p + o..h];
    FoundAtToken(s, p, Match(CmpPrefix(s[p..p + o], s[p + o..h]), s[h]));
  }

  /** The first alternative yields only keyword or prefix-comparison matches of exactly the text there. */
  lemma PrefixedFound(s: string, p: nat)
    requires p <= |s|
    ensures var r := PrefixedAt(s, p);
      r.Some? ==> Found(s, p, r.value) && (r.value.shape.Keyword? || r.value.shape.CmpPrefix?)
  {
    if KeywordAt(s, p, "LIMIT") {
      KeywordPrefixedFound(s, p, 5);
    } else if KeywordAt(s, p, "OFFSET") {
      KeywordPrefixedFound(s, p, 6);
    } else {
      OpPrefixedFound(s, p);
    }
  }

  /** A match that starts with its token is found where the token and its postfix text stand. */
  lemma FoundFromToken(s: string, p: nat, m: Match)
    requires WellFormed(m) && PrefixSp(m) == ""
    requires HolderAt(s, p, Upper(m.holder)) && s[p] == m.holder
    requires p + 1 + |PostfixSp(m)| <= |s| && s[p + 1..p + 1 + |PostfixSp(m)|] == PostfixSp(m)
    ensures Found(s, p, m)
  {
    var e := p + 1 + |PostfixSp(m)|;
    assert s[p..e] == [s[p]] + s[p + 1..e];
  }

  /** `\s*[<>]=?` after the token yields a postfix-comparison match of exactly the text there. */
  lemma PostfixedFound(s: string, p: nat)
    requires HolderAt(s, p, 'N')
    ensures var r := PostfixedAt(s, p); r.Some? ==> Found(s, p, r.value) && r.value.shape.CmpPostfix?
  {
    var w := Run(s, p + 1, Space);
    var e := p + 1 + w + OpLen(s, p + 1 + w);
    var r := PostfixedAt(s, p);
    if r.Some? {
      var m := Match(CmpPostfix(s[p + 1..p + 1 + w], s[p + 1 + w..e]), s[p]);
      assert r.value == m;
      assert WellFormed(m) by { RunSpaceOnly(s, p + 1); }
      assert s[p + 1..e] == PostfixSp(m) by { Adjacent(s, p + 1, p + 1 + w, e); }
      FoundFromToken(s, p, m);
    }
  }

  /** The second alternative yields a postfix-comparison or a bare match of exactly the text there. */
  lemma HolderFirstFound(s: string, p: nat)
    requires p <= |s|
    ensures var r := HolderFirstAt(s, p);
      r.Some? ==> Found(s, p, r.value) && (r.value.shape.CmpPostfix? || r.value.shape.Bare?)
  {
    if HolderAt(s, p, 'N') {
      PostfixedFound(s, p);
      if PostfixedAt(s, p).None? {
        FoundFromToken(s, p, Match(Bare, s[p]));
      }
    }
  }

  /** The third alternative yields a `LIKE`-quote or a quote match of exactly the text there. */
  lemma QuotedFound(s: string, p: nat)
    requires p <= |s|
    ensures var r := QuotedAt(s, p);
      r.Some? ==> Found(s, p, r.value) && (r.value.shape.LikeQuote? || r.value.shape.Quote?)
  {
    var r := QuotedAt(s, p);
    if r.Some? {
      if KeywordAt(s, p, "LIKE") {
        var q := p + 4 + Run(s, p + 4, Space);
        assert r.value == Match(LikeQuote(s[p..p + 4], s[p + 4..q]), s[q + 1]);
        LikeFound(s, p, q);
      } else {
        assert r.value == Match(Quote, s[p + 1]);
        assert s[p..p + 1] == "'";
        FoundAtToken(s, p, r.value);
      }
    }
  }

  /** `LIKE`, optional whitespace, a quote and a token `S` on a word boundary make a `LIKE`-quote match. */
  lemma LikeFound(s: string, p: nat, q: nat)
    requires KeywordAt(s, p, "LIKE") && q == p + 4 + Run(s, p + 4, Space)
    requires q < |s| && s[q] == '\'' && HolderAt(s, q + 1, 'S')
    ensures Found(s, p, Match(LikeQuote(s[p..p + 4], s[p + 4..q]), s[q + 1]))
  {
    RunSpaceOnly(s, p + 4);
    assert s[p..q + 1] == s[p..p + 4] + s[p + 4..q] + "'";
    FoundAtToken(s, p, Match(LikeQuote(s[p..p + 4], s[p + 4..q]), s[q + 1]));
  }

  /** Whatever the alternatives find at p is a well-formed match of the text there. */
  lemma MatchAtFound(s: string, p: nat)
    requires p <= |s|
    ensures MatchAt(s, p).Some? ==> Found(s, p, MatchAt(s, p).value)
  {
    PrefixedFound(s, p);
    HolderFirstFound(s, p);
    QuotedFound(s, p);
  }

  // ------------------------------------------------------------ completeness of the scanner

  /** A keyword recognised at p has the keyword's letters there. */
  lemma KeywordLetter(s: string, p: nat, kw: string, i: nat)
    requires i < |kw|
    ensures KeywordAt(s, p, kw) ==> p + i < |s| && Upper(s[p + i]) == kw[i]
  {
    if KeywordAt(s, p, kw) {
      SameLettersAt(s[p..p + |kw|], kw, i);
      assert s[p..p + |kw|][i] == s[p + i];
    }
  }

  /** Whitespace followed by something else is exactly the greedy whitespace run. */
  lemma SpaceRun(s: string, i: nat, sp: string)
    requires i + |sp| <= |s| && s[i..i + |sp|] == sp && SpaceOnly(sp)
    requires i + |sp| < |s| ==> !IsSpace(s[i + |sp|])
    ensures Run(s, i, Space) == |sp|
  {
    forall k | i <= k < i + |sp| ensures InClass(s[k], Space) {
      assert s[k] == s[i..i + |sp|][k - i];
    }
    RunIs(s, i, |sp|, Space);
  }

  /** Whitespace before a token letter is exactly the greedy whitespace run. */
  lemma SpaceBeforeHolder(s: string, i: nat, sp: string, h: char)
    requires i + |sp| <= |s| && s[i..i + |sp|] == sp && SpaceOnly(sp)
    requires HolderAt(s, i + |sp|, h) && 'A' <= h <= 'Z'
    ensures Run(s, i, Space) == |sp|
  {
    UpperLetter(s[i + |sp|]);
    SpaceRun(s, i, sp);
  }

  /** Text spelled as three parts from p has each part at its place. */
  lemma Spelled(s: string, p: nat, a: string, b: string, c: string)
    requires p + |a| + |b| + |c| <= |s| && s[p..p + |a| + |b| + |c|] == a + b + c
    ensures s[p..p + |a|] == a
    ensures s[p + |a|..p + |a| + |b|] == b
    ensures s[p + |a| + |b|..p + |a| + |b| + |c|] == c
  {
    var e := p + |a| + |b| + |c|;
    assert s[p..p + |a|] == s[p..e][..|a|] == (a + b + c)[..|a|];
    assert s[p + |a|..p + |a| + |b|] == s[p..e][|a|..|a| + |b|];
    assert (a + b + c)[|a|..|a| + |b|] == b;
    assert s[p + |a| + |b|..e] == s[p..e][|a| + |b|..] == (a + b + c)[|a| + |b|..];
  }

  /** A character of a stretch of the text. */
  lemma SliceChar(s: string, i: nat, j: nat, x: string, k: nat)
    requires i <= j <= |s| && s[i..j] == x && k < |x|
    ensures s[i + k] == x[k]
  {
    assert s[i..j][k] == s[i + k];
  }

  /** The first alternative fails where neither a keyword nor a comparison operator starts. */
  lemma NoPrefixAt(s: string, p: nat)
    requires p < |s| && s[p] != '<' && s[p] != '>'
    requires !KeywordAt(s, p, "LIMIT") && !KeywordAt(s, p, "OFFSET")
    ensures PrefixedAt(s, p) == None
  {
  }

  /** A keyword match is exactly what the first alternative finds, whether its keyword is `LIMIT` or `OFFSET`. */
  lemma KeywordComplete(s: string, p: nat, m: Match)
    requires Found(s, p, m) && m.shape.Keyword? && Boundary(s, p)
    ensures PrefixedAt(s, p) == Some(m)
  {
    var w, sp, h := m.shape.word, m.shape.space, m.holder;
    assert Matched(m) == w + sp + [h];
    Spelled(s, p, w, sp, [h]);
    SliceChar(s, p + |w| + |sp|, p + |w| + |sp| + 1, [h], 0);
    KeywordText(s, p, w, sp);
    KeywordChosen(s, p, w);
  }

  /** The text of a keyword match: after the keyword, whitespace and the token on a word boundary. */
  lemma KeywordText(s: string, p: nat, w: string, sp: string)
    requires p + |w| + |sp| <= |s| && s[p..p + |w|] == w && s[p + |w|..p + |w| + |sp|] == sp
    requires sp != "" && SpaceOnly(sp) && HolderAt(s, p + |w| + |sp|, 'N')
    ensures KeywordPrefixedAt(s, p, |w|) == Some(Match(Keyword(w, sp), s[p + |w| + |sp|]))
  {
    SpaceBeforeHolder(s, p + |w|, sp, 'N');
  }

  /** Where `LIMIT` or `OFFSET` is spelled after `\b`, the first alternative takes that keyword. */
  lemma KeywordChosen(s: string, p: nat, w: string)
    requires SameLetters(w, "LIMIT") || SameLetters(w, "OFFSET")
    requires p + |w| <= |s| && s[p..p + |w|] == w && Boundary(s, p)
    ensures PrefixedAt(s, p) == KeywordPrefixedAt(s, p, |w|)
  {
    if SameLetters(w, "LIMIT") {
      LimitSpelled(s, p, w);
    } else {
      OffsetSpelled(s, p, w);
    }
  }

  /** `LIMIT` spelled after `\b` is the keyword recognised there. */
  lemma LimitSpelled(s: string, p: nat, w: string)
    requires p + |w| <= |s| && s[p..p + |w|] == w && Boundary(s, p) && SameLetters(w, "LIMIT")
    ensures |w| == 5 && KeywordAt(s, p, "LIMIT")
  {
    SameLettersAt(w, "LIMIT", 0);
  }

  /** `OFFSET` spelled after `\b` is the keyword recognised there, and `LIMIT` is not. */
  lemma OffsetSpelled(s: string, p: nat, w: string)
    requires p + |w| <= |s| && s[p..p + |w|] == w && Boundary(s, p) && SameLetters(w, "OFFSET")
    ensures |w| == 6 && KeywordAt(s, p, "OFFSET") && !KeywordAt(s, p, "LIMIT")
  {
    SameLettersAt(w, "OFFSET", 0);
    SliceChar(s, p, p + |w|, w, 0);
    KeywordLetter(s, p, "LIMIT", 0);
  }

  /** A comparison operator not followed by `=` is exactly the greedy `[<>]=?`. */
  lemma OpAt(s: string, i: nat, op: string)
    requires Comparison(op) && i + |op| <= |s| && s[i..i + |op|] == op
    requires |op| == 1 && i + 1 < |s| ==> s[i + 1] != '='
    ensures OpLen(s, i) == |op|
  {
    SliceChar(s, i, i + |op|, op, 0);
    if |op| == 2 {
      SliceChar(s, i, i + |op|, op, 1);
    }
  }

  /** The text of a prefix-comparison match: the operator, whitespace, and the token on a word boundary. */
  lemma CmpPrefixText(s: string, p: nat, op: string, sp: string)
    requires Comparison(op) && SpaceOnly(sp)
    requires p + |op| + |sp| <= |s| && s[p..p + |op|] == op && s[p + |op|..p + |op| + |sp|] == sp
    requires HolderAt(s, p + |op| + |sp|, 'N')
    ensures OpPrefixedAt(s, p) == Some(Match(CmpPrefix(op, sp), s[p + |op| + |sp|]))
  {
    var k := |op|;
    if |sp| > 0 {
      SliceChar(s, p + k, p + k + |sp|, sp, 0);
    } else {
      UpperLetter(s[p + k]);
    }
    OpAt(s, p, op);
    SpaceBeforeHolder(s, p + k, sp, 'N');
  }

  /** Where `<` or `>` stands, the first alternative can only be a prefix comparison. */
  lemma OpChosen(s: string, p: nat)
    requires p < |s| && (s[p] == '<' || s[p] == '>')
    ensures PrefixedAt(s, p) == OpPrefixedAt(s, p)
  {
    KeywordLetter(s, p, "LIMIT", 0);
    KeywordLetter(s, p, "OFFSET", 0);
  }

  /** A prefix-comparison match is exactly what the first alternative finds: `[<>]=?` is greedy, and after a lone `<` or `>` comes whitespace or the token, never `=`. */
  lemma CmpPrefixComplete(s: string, p: nat, m: Match)
    requires Found(s, p, m) && m.shape.CmpPrefix?
    ensures PrefixedAt(s, p) == Some(m)
  {
    var op, sp, h := m.shape.op, m.shape.space, m.holder;
    assert Matched(m) == op + sp + [h];
    Spelled(s, p, op, sp, [h]);
    SliceChar(s, p, p + |op|, op, 0);
    SliceChar(s, p + |op| + |sp|, p + |op| + |sp| + 1, [h], 0);
    CmpPrefixText(s, p, op, sp);
    OpChosen(s, p);
  }

  /**
   * A match that starts with its token is found by the second alternative: with the same
   * whitespace and an operator that the greedy `[<>]=?` may extend when a comparison
   * follows, as a bare token exactly when none does.
   */
  lemma HolderFirstComplete(s: string, p: nat, m: Match)
    requires Found(s, p, m) && (m.shape.CmpPostfix? || m.shape.Bare?)
    ensures PrefixedAt(s, p) == None
    ensures var r := HolderFirstAt(s, p);
      && r.Some? && r.value.holder == m.holder
      && (r.value.shape.Bare? <==> OpLen(s, p + 1 + Run(s, p + 1, Space)) == 0)
      && (r.value.shape.Bare? || r.value.shape.CmpPostfix?)
      && (m.shape.CmpPostfix? ==>
            r.value.shape.CmpPostfix? && r.value.shape.space == m.shape.space && m.shape.op <= r.value.shape.op)
  {
    assert Matched(m) == [m.holder] + PostfixSp(m) + "";
    Spelled(s, p, [m.holder], PostfixSp(m), "");
    SliceChar(s, p, p + 1, [m.holder], 0);
    HolderNotPrefixed(s, p);
    HolderFirstShape(s, p);
    if m.shape.CmpPostfix? {
      var sp, op := m.shape.space, m.shape.op;
      assert PostfixSp(m) == sp + op;
      Spelled(s, p + 1, sp, op, "");
      PostfixAt(s, p, sp, op);
    }
  }

  /** Where the token `N` stands, the first alternative fails. */
  lemma HolderNotPrefixed(s: string, p: nat)
    requires HolderAt(s, p, 'N')
    ensures PrefixedAt(s, p) == None
  {
    UpperLetter(s[p]);
    KeywordLetter(s, p, "LIMIT", 0);
    KeywordLetter(s, p, "OFFSET", 0);
    NoPrefixAt(s, p);
  }

  /** The second alternative at the token `N`: a postfix comparison when one follows, else the bare token. */
  lemma HolderFirstShape(s: string, p: nat)
    requires HolderAt(s, p, 'N')
    ensures var r := HolderFirstAt(s, p);
      && r.Some? && r.value.holder == s[p]
      && (r.value.shape.Bare? <==> OpLen(s, p + 1 + Run(s, p + 1, Space)) == 0)
      && (r.value.shape.Bare? || r.value.shape.CmpPostfix?)
      && (PostfixedAt(s, p).Some? ==> r == PostfixedAt(s, p))
  {
  }

  /** After the token, whitespace and a comparison are found again, the operator perhaps extended. */
  lemma PostfixAt(s: string, p: nat, sp: string, op: string)
    requires p + 1 + |sp| + |op| <= |s| && SpaceOnly(sp) && Comparison(op)
    requires s[p + 1..p + 1 + |sp|] == sp && s[p + 1 + |sp|..p + 1 + |sp| + |op|] == op
    ensures var r := PostfixedAt(s, p);
      r.Some? && r.value.shape.CmpPostfix? && r.value.shape.space == sp && op <= r.value.shape.op
  {
    var q := p + 1 + |sp|;
    SliceChar(s, q, q + |op|, op, 0);
    SpaceRun(s, p + 1, sp);
    var o := OpLen(s, q);
    if |op| == 2 {
      SliceChar(s, q, q + |op|, op, 1);
    }
    assert o >= |op|;
    assert s[q..q + |op|] == s[q..q + o][..|op|];
  }

  /** The text of a `LIKE` match after `\b`: the keyword, whitespace, a quote and the token on a word boundary. */
  lemma LikeText(s: string, p: nat, w: string, sp: string)
    requires p + |w| + |sp| < |s| && s[p..p + |w|] == w && s[p + |w|..p + |w| + |sp|] == sp
    requires |w| == 4 && KeywordAt(s, p, "LIKE") && SpaceOnly(sp)
    requires s[p + |w| + |sp|] == '\'' && HolderAt(s, p + |w| + |sp| + 1, 'S')
    ensures QuotedAt(s, p) == Some(Match(LikeQuote(w, sp), s[p + |w| + |sp| + 1]))
  {
    SpaceRun(s, p + 4, sp);
  }

  /** `LIKE` spelled after `\b` is the keyword recognised there. */
  lemma LikeSpelled(s: string, p: nat, w: string)
    requires p + |w| <= |s| && s[p..p + |w|] == w && Boundary(s, p) && SameLetters(w, "LIKE")
    ensures |w| == 4 && KeywordAt(s, p, "LIKE")
  {
    SameLettersAt(w, "LIKE", 0);
  }

  /** Where `LIKE` is spelled, neither of the first two alternatives matches. */
  lemma LikeNotEarlier(s: string, p: nat, w: string)
    requires SameLetters(w, "LIKE") && p + |w| <= |s| && s[p..p + |w|] == w
    ensures PrefixedAt(s, p) == None && HolderFirstAt(s, p) == None
  {
    SameLettersAt(w, "LIKE", 0);
    SameLettersAt(w, "LIKE", 2);
    SliceChar(s, p, p + |w|, w, 0);
    SliceChar(s, p, p + |w|, w, 2);
    KeywordLetter(s, p, "LIMIT", 2);
    KeywordLetter(s, p, "OFFSET", 0);
    NoPrefixAt(s, p);
  }

  /** Where a quote stands, no alternative but the bare quoted one can match. */
  lemma QuoteNotEarlier(s: string, p: nat)
    requires p < |s| && s[p] == '\''
    ensures PrefixedAt(s, p) == None && HolderFirstAt(s, p) == None && !KeywordAt(s, p, "LIKE")
  {
    KeywordLetter(s, p, "LIMIT", 0);
    KeywordLetter(s, p, "OFFSET", 0);
    KeywordLetter(s, p, "LIKE", 0);
    NoPrefixAt(s, p);
  }

  /** A `LIKE` match is exactly what the third alternative finds, the first two failing. */
  lemma LikeComplete(s: string, p: nat, m: Match)
    requires Found(s, p, m) && m.shape.LikeQuote? && Boundary(s, p)
    ensures PrefixedAt(s, p) == None && HolderFirstAt(s, p) == None
    ensures QuotedAt(s, p) == Some(m)
  {
    var w, sp, h := m.shape.word, m.shape.space, m.holder;
    var q := p + |w| + |sp|;
    assert Matched(m) == w + sp + ("'" + [h]);
    Spelled(s, p, w, sp, "'" + [h]);
    SliceChar(s, q, q + 2, "'" + [h], 0);
    SliceChar(s, q, q + 2, "'" + [h], 1);
    LikeNotEarlier(s, p, w);
    LikeSpelled(s, p, w);
    LikeText(s, p, w, sp);
  }

  /** A bare quoted match is exactly what the third alternative finds, the first two failing. */
  lemma QuoteComplete(s: string, p: nat, m: Match)
    requires Found(s, p, m) && m.shape.Quote?
    ensures PrefixedAt(s, p) == None && HolderFirstAt(s, p) == None
    ensures QuotedAt(s, p) == Some(m)
  {
    assert Matched(m) == "'" + [m.holder] + "";
    Spelled(s, p, "'", [m.holder], "");
    SliceChar(s, p, p + 1, "'", 0);
    SliceChar(s, p + 1, p + 2, [m.holder], 0);
    QuoteNotEarlier(s, p);
  }

  /**
   * Completeness of the scanner: wherever a well-formed match stands (a keyword one after
   * `\b`), the pattern matches at p. Matches that start before their token are found
   * exactly; one that starts with its token is found with the same token and whitespace,
   * its comparison extended by the greedy operator, or bare.
   */
  lemma MatchAtComplete(s: string, p: nat, m: Match)
    requires Found(s, p, m) && ((m.shape.Keyword? || m.shape.LikeQuote?) ==> Boundary(s, p))
    ensures var r := MatchAt(s, p);
      && r.Some? && r.value.holder == m.holder
      && (m.shape.Keyword? || m.shape.CmpPrefix? || m.shape.LikeQuote? || m.shape.Quote? ==> r == Some(m))
      && (m.shape.CmpPostfix? ==>
            r.value.shape.CmpPostfix? && r.value.shape.space == m.shape.space && m.shape.op <= r.value.shape.op)
      && (m.shape.Bare? ==> r.value.shape.Bare? || r.value.shape.CmpPostfix?)
  {
    match m.shape
    case Keyword(_, _) => KeywordComplete(s, p, m);
    case CmpPrefix(_, _) => CmpPrefixComplete(s, p, m);
    case CmpPostfix(_, _) => HolderFirstComplete(s, p, m);
    case Bare => HolderFirstComplete(s, p, m);
    case LikeQuote(_, _) => LikeComplete(s, p, m);
    case Quote => QuoteComplete(s, p, m);
  }

  /** A statement cut into the characters `gsub` copies and the matches it replaces. */
  datatype Piece = Literal(c: char) | Placeholder(m: Match)

  /** The matches among the pieces, in order: the j-th is the one of column j. */
  function Matches(ps: seq<Piece>): seq<Match> {
    if ps == [] then []
    else (if ps[0].Placeholder? then [ps[0].m] else []) + Matches(ps[1..])
  }

  /** The pieces put back together, the j-th match's token replaced by vals[j]. */
  function Weave(ps: seq<Piece>, vals: seq<string>): string
    requires |vals| == |Matches(ps)|
  {
    if ps == [] then ""
    else
      match ps[0]
      case Literal(c) => [c] + Weave(ps[1..], vals)
      case Placeholder(m) => PrefixSp(m) + vals[0] + PostfixSp(m) + Weave(ps[1..], vals[1..])
  }

  /** Each match's own token, as written. */
  function Tokens(ms: seq<Match>): (ts: seq<string>)
    ensures |ts| == |ms| && forall j :: 0 <= j < |ms| ==> ts[j] == [ms[j].holder]
  {
    seq(|ms|, j requires 0 <= j < |ms| => [ms[j].holder])
  }

  /** Weaving a literal first copies its character. */
  lemma WeaveLiteral(ps: seq<Piece>, vals: seq<string>)
    requires ps != [] && ps[0].Literal? && |vals| == |Matches(ps)|
    ensures Matches(ps) == Matches(ps[1..])
    ensures Weave(ps, vals) == [ps[0].c] + Weave(ps[1..], vals)
  {
  }

  /** Weaving a match first puts its prefix, the first value and its postfix. */
  lemma WeavePlaceholder(ps: seq<Piece>, vals: seq<string>)
    requires ps != [] && ps[0].Placeholder? && |vals| == |Matches(ps)|
    ensures Matches(ps) == [ps[0].m] + Matches(ps[1..])
    ensures Weave(ps, vals) == PrefixSp(ps[0].m) + vals[0] + PostfixSp(ps[0].m) + Weave(ps[1..], vals[1..])
  {
  }

  /** Restoring tokens piece by piece: a literal gives back its character. */
  lemma RestoreLiteral(c: char, rest: seq<Piece>)
    ensures Weave([Literal(c)] + rest, Tokens(Matches([Literal(c)] + rest)))
         == [c] + Weave(rest, Tokens(Matches(rest)))
  {
    var ps := [Literal(c)] + rest;
    assert ps[1..] == rest;
    WeaveLiteral(ps, Tokens(Matches(ps)));
  }

  /** Restoring tokens piece by piece: a match gives back its matched text. */
  lemma RestorePlaceholder(m: Match, rest: seq<Piece>)
    ensures Weave([Placeholder(m)] + rest, Tokens(Matches([Placeholder(m)] + rest)))
         == Matched(m) + Weave(rest, Tokens(Matches(rest)))
  {
    var ps := [Placeholder(m)] + rest;
    assert ps[1..] == rest;
    var ts := Tokens(Matches(ps));
    WeavePlaceholder(ps, ts);
    assert ts[1..] == Tokens(Matches(rest));
  }

  /** A character copied in front of a scan that restores s[p + 1..] restores s[p..]. */
  lemma RestoreCopied(s: string, p: nat, rest: seq<Piece>)
    requires p < |s| && Weave(rest, Tokens(Matches(rest))) == s[p + 1..]
    ensures Weave([Literal(s[p])] + rest, Tokens(Matches([Literal(s[p])] + rest))) == s[p..]
  {
    RestoreLiteral(s[p], rest);
    assert s[p..] == [s[p]] + s[p + 1..];
  }

  /** A match found at p in front of a scan that restores the text after it restores s[p..]. */
  lemma RestoreFound(s: string, p: nat, m: Match, rest: seq<Piece>)
    requires Found(s, p, m)
    requires Weave(rest, Tokens(Matches(rest))) == s[p + |Matched(m)|..]
    ensures Weave([Placeholder(m)] + rest, Tokens(Matches([Placeholder(m)] + rest))) == s[p..]
  {
    var q := p + |Matched(m)|;
    RestorePlaceholder(m, rest);
    assert s[p..] == s[p..q] + s[q..];
  }

  /** The piece `gsub`'s scan takes at p and where it goes on: the match found there, else the character. */
  function Next(s: string, p: nat): (r: (Piece, nat))
    requires p < |s|
    ensures p < r.1 <= |s|
  {
    match MatchAt(s, p)
    case None => (Literal(s[p]), p + 1)
    case Some(m) =>
      MatchAtFound(s, p);
      (Placeholder(m), p + |Matched(m)|)
  }

  /** `gsub`'s scan from p: the leftmost match, then the scan after it; where nothing matches, one character is copied. */
  function Scan(s: string, p: nat): seq<Piece>
    requires p <= |s|
    decreases |s| - p
  {
    if p == |s| then []
    else
      var (piece, q) := Next(s, p);
      [piece] + Scan(s, q)
  }

  /**
   * Putting every match's own token back in place of its value gives the statement back:
   * only the tokens are replaced.
   */
  lemma {:induction false} ScanRestores(s: string, p: nat)
    requires p <= |s|
    ensures Weave(Scan(s, p), Tokens(Matches(Scan(s, p)))) == s[p..]
    decreases |s| - p
  {
    if p < |s| {
      var (piece, q) := Next(s, p);
      assert Scan(s, p) == [piece] + Scan(s, q);
      ScanRestores(s, q);
      var r := MatchAt(s, p);
      if r.None? {
        assert piece == Literal(s[p]) && q == p + 1;
        RestoreCopied(s, p, Scan(s, q));
      } else {
        assert piece == Placeholder(r.value) && q == p + |Matched(r.value)|;
        MatchAtFound(s, p);
        RestoreFound(s, p, r.value, Scan(s, q));
      }
    }
  }

  /** Why a placeholder could not be filled: `case ... in` found no pattern (`NoMatchingPatternError`). */
  datatype FillError = NoMatchingPattern(prefix: Option<string>, postfix: Option<string>, holder: char)

  /** The `case [prefix, postfix] in ...` chain; its patterns compare the captured text exactly. */
  function Dispatch(conf: Config, m: Match): Result<string, FillError>
    reads conf
  {
    var pre, post := Prefix(m), Postfix(m);
    if pre == Some("LIMIT") then Ok(IntToString(conf.Limit()))
    else if pre == Some("OFFSET") then Ok(IntToString(conf.Offset()))
    else if pre == Some("LIKE") then Ok(conf.Like())
    else if pre == Some("<") || pre == Some("<=") || post == Some(">") || post == Some(">=") then
      Ok(IntToString(conf.UpperBound()))
    else if pre == Some(">") || pre == Some(">=") || post == Some("<") || post == Some("<=") then
      Ok(IntToString(conf.LowerBound()))
    else if pre == None && post == None && m.holder == 'N' then Ok(IntToString(conf.vNum))
    else if pre == None && post == None && m.holder == 'S' then Ok(conf.vStr)
    else Err(NoMatchingPattern(pre, post, m.holder))
  }

  /**
   * The value each kind of match gets: a keyword written in upper case, a comparison on either
   * side, or an unadorned upper-case token. A keyword or token in any other case has no pattern.
   */
  lemma DispatchByShape(conf: Config, m: Match)
    requires WellFormed(m)
    ensures m.shape.Keyword? ==>
      Dispatch(conf, m) == (if m.shape.word == "LIMIT" then Ok(IntToString(conf.Limit()))
                            else if m.shape.word == "OFFSET" then Ok(IntToString(conf.Offset()))
                            else Err(NoMatchingPattern(Some(m.shape.word), None, m.holder)))
    ensures m.shape.CmpPrefix? ==>
      Dispatch(conf, m) == Ok(IntToString(if m.shape.op[0] == '<' then conf.UpperBound() else conf.LowerBound()))
    ensures m.shape.CmpPostfix? ==>
      Dispatch(conf, m) == Ok(IntToString(if m.shape.op[0] == '>' then conf.UpperBound() else conf.LowerBound()))
    ensures m.shape.LikeQuote? ==>
      Dispatch(conf, m) == (if m.shape.word == "LIKE" then Ok(conf.Like())
                            else Err(NoMatchingPattern(Some(m.shape.word), None, m.holder)))
    ensures m.shape.Bare? ==>
      Dispatch(conf, m) == (if m.holder == 'N' then Ok(IntToString(conf.vNum)) else Err(NoMatchingPattern(None, None, m.holder)))
    ensures m.shape.Quote? ==>
      Dispatch(conf, m) == (if m.holder == 'S' then Ok(conf.vStr) else Err(NoMatchingPattern(None, None, m.holder)))
  {
  }

  /** One match's replacement: the override for (row, col) if there is one, else the dispatch. */
  function Fill(conf: Config, row: nat, col: nat, m: Match): Result<string, FillError>
    reads conf
  {
    match conf.Special(row, col)
    case Some(v) => Ok(v)
    case None => Dispatch(conf, m)
  }

  /** An override applies to any kind of match, including those no pattern covers. */
  lemma OverrideWins(conf: Config, row: nat, col: nat, m: Match)
    requires conf.Special(row, col).Some?
    ensures Fill(conf, row, col, m) == Ok(conf.Special(row, col).value)
  {
  }

  /** The block run on the matches in order, the first starting at column col; the first error propagates. */
  function FillAll(conf: Config, row: nat, ms: seq<Match>, col: nat): (r: Result<seq<string>, FillError>)
    reads conf
    ensures r.Ok? <==> forall j :: 0 <= j < |ms| ==> Fill(conf, row, col + j, ms[j]).Ok?
    ensures r.Ok? ==> |r.value| == |ms| && forall j :: 0 <= j < |ms| ==> Fill(conf, row, col + j, ms[j]) == Ok(r.value[j])
    ensures r.Err? ==> exists j :: 0 <= j < |ms| && Fill(conf, row, col + j, ms[j]) == Err(r.error)
                                   && forall i :: 0 <= i < j ==> Fill(conf, row, col + i, ms[i]).Ok?
    decreases |ms|
  {
    if ms == [] then Ok([])
    else
      match Fill(conf, row, col, ms[0])
      case Err(e) => Err(e)
      case Ok(v) =>
        match FillAll(conf, row, ms[1..], col + 1)
        case Err(e) => Err(e)
        case Ok(vs) => Ok([v] + vs)
  }

  /** `fill_placeholders` as a value: the statement with each match replaced, or the first error. */
  function Substitute(conf: Config, s: string, row: nat): Result<string, FillError>
    reads conf
  {
    var ps := Scan(s, 0);
    match FillAll(conf, row, Matches(ps), 0)
    case Ok(vals) => Ok(Weave(ps, vals))
    case Err(e) => Err(e)
  }

  lemma {:induction false} MatchesAppend(a: seq<Piece>, b: seq<Piece>)
    ensures Matches(a + b) == Matches(a) + Matches(b)
  {
    if a != [] {
      var h := if a[0].Placeholder? then [a[0].m] else [];
      TailAppend(a, b);
      MatchesAppend(a[1..], b);
      Assoc(h, Matches(a[1..]), Matches(b));
    } else {
      assert a + b == b;
    }
  }

  lemma {:induction false} WeaveAppend(a: seq<Piece>, b: seq<Piece>, va: seq<string>, vb: seq<string>)
    requires |va| == |Matches(a)| && |vb| == |Matches(b)|
    ensures |va + vb| == |Matches(a + b)|
    ensures Weave(a + b, va + vb) == Weave(a, va) + Weave(b, vb)
    decreases |a|
  {
    MatchesAppend(a, b);
    if a == [] {
      assert a + b == b && va + vb == vb;
    } else if a[0].Literal? {
      MatchesAppend(a[1..], b);
      WeaveAppend(a[1..], b, va, vb);
      WeaveAppendLiteral(a, b, va, vb);
    } else {
      MatchesAppend(a[1..], b);
      WeaveAppend(a[1..], b, va[1..], vb);
      WeaveAppendPlaceholder(a, b, va, vb);
    }
  }

  /** The step of WeaveAppend at a leading literal. */
  lemma WeaveAppendLiteral(a: seq<Piece>, b: seq<Piece>, va: seq<string>, vb: seq<string>)
    requires a != [] && a[0].Literal? && |vb| == |Matches(b)|
    requires |va| == |Matches(a)| == |Matches(a[1..])| && |va + vb| == |Matches(a + b)| == |Matches(a[1..] + b)|
    requires Weave(a[1..] + b, va + vb) == Weave(a[1..], va) + Weave(b, vb)
    ensures Weave(a + b, va + vb) == Weave(a, va) + Weave(b, vb)
  {
    var c, x, y := [a[0].c], Weave(a[1..], va), Weave(b, vb);
    assert Weave(a + b, va + vb) == c + Weave(a[1..] + b, va + vb) by {
      TailAppend(a, b);
      WeaveLiteral(a + b, va + vb);
    }
    assert Weave(a, va) == c + x by { WeaveLiteral(a, va); }
    Assoc(c, x, y);
  }

  /** The step of WeaveAppend at a leading match. */
  lemma WeaveAppendPlaceholder(a: seq<Piece>, b: seq<Piece>, va: seq<string>, vb: seq<string>)
    requires a != [] && a[0].Placeholder? && |vb| == |Matches(b)|
    requires |va| == |Matches(a)| == |Matches(a[1..])| + 1 && |va + vb| == |Matches(a + b)| == |Matches(a[1..] + b)| + 1
    requires Weave(a[1..] + b, va[1..] + vb) == Weave(a[1..], va[1..]) + Weave(b, vb)
    ensures Weave(a + b, va + vb) == Weave(a, va) + Weave(b, vb)
  {
    var m := a[0].m;
    var c, x, y := PrefixSp(m) + va[0] + PostfixSp(m), Weave(a[1..], va[1..]), Weave(b, vb);
    assert Weave(a + b, va + vb) == c + Weave(a[1..] + b, va[1..] + vb) by {
      TailAppend(a, b);
      TailAppend(va, vb);
      WeavePlaceholder(a + b, va + vb);
    }
    assert Weave(a, va) == c + x by { WeavePlaceholder(a, va); }
    Assoc(c, x, y);
  }

  /** A match filled after all earlier ones were adds its value at the end. */
  lemma {:induction false} FillAllSnoc(conf: Config, row: nat, ms: seq<Match>, col: nat, vs: seq<string>, m: Match, v: string)
    requires FillAll(conf, row, ms, col) == Ok(vs)
    requires Fill(conf, row, col + |ms|, m) == Ok(v)
    ensures FillAll(conf, row, ms + [m], col) == Ok(vs + [v])
    decreases |ms|
  {
    if ms == [] {
      assert ms + [m] == [m] && vs == [] && vs + [v] == [v] + [];
      assert FillAll(conf, row, [m][1..], col + 1) == Ok([]);
    } else {
      var w := Fill(conf, row, col, ms[0]).value;
      var ws := FillAll(conf, row, ms[1..], col + 1).value;
      assert vs == [w] + ws;
      assert [w] + ws == vs && ([w] + ws)[1..] == ws;
      TailAppend(ms, [m]);
      FillAllSnoc(conf, row, ms[1..], col + 1, ws, m, v);
      Assoc([w], ws, [v]);
    }
  }

  /** The first match that cannot be filled decides the error, whatever follows it. */
  lemma FillAllFirstError(conf: Config, row: nat, ms: seq<Match>, m: Match, rest: seq<Match>)
    requires FillAll(conf, row, ms, 0).Ok?
    requires Fill(conf, row, |ms|, m).Err?
    ensures FillAll(conf, row, ms + [m] + rest, 0) == Err(Fill(conf, row, |ms|, m).error)
  {
    var all := ms + [m] + rest;
    assert all[|ms|] == m;
    assert forall i :: 0 <= i < |ms| ==> all[i] == ms[i];
  }

  /** The head and the tail of a concatenation whose first part is not empty. */
  lemma TailAppend<T>(a: seq<T>, b: seq<T>)
    requires a != []
    ensures (a + b)[0] == a[0] && (a + b)[1..] == a[1..] + b
  {
  }

  /** Appending a literal to the pieces done so far adds its character and no match. */
  lemma AppendLiteral(done: seq<Piece>, c: char, vals: seq<string>)
    requires |vals| == |Matches(done)|
    ensures Matches(done + [Literal(c)]) == Matches(done)
    ensures Weave(done + [Literal(c)], vals) == Weave(done, vals) + [c]
  {
    MatchesAppend(done, [Literal(c)]);
    WeaveAppend(done, [Literal(c)], vals, []);
    assert vals + [] == vals;
  }

  /** Appending a match to the pieces done so far adds it with its value. */
  lemma AppendPlaceholder(done: seq<Piece>, m: Match, vals: seq<string>, v: string)
    requires |vals| == |Matches(done)|
    ensures Matches(done + [Placeholder(m)]) == Matches(done) + [m]
    ensures Weave(done + [Placeholder(m)], vals + [v]) == Weave(done, vals) + (PrefixSp(m) + v + PostfixSp(m))
  {
    MatchesAppend(done, [Placeholder(m)]);
    WeaveAppend(done, [Placeholder(m)], vals, [v]);
  }

  /** `Substitute` fails exactly as the filling of the scan's matches does. */
  lemma SubstituteErr(conf: Config, stmt: string, row: nat, e: FillError)
    requires FillAll(conf, row, Matches(Scan(stmt, 0)), 0) == Err(e)
    ensures Substitute(conf, stmt, row) == Err(e)
  {
  }

  /** The first match that cannot be filled ends the scan with its error. */
  lemma ErrorStep(conf: Config, row: nat, all: seq<Piece>, done: seq<Piece>, m: Match, rest: seq<Piece>)
    requires all == (done + [Placeholder(m)]) + rest
    requires FillAll(conf, row, Matches(done), 0).Ok?
    requires Fill(conf, row, |Matches(done)|, m).Err?
    ensures FillAll(conf, row, Matches(all), 0) == Err(Fill(conf, row, |Matches(done)|, m).error)
  {
    assert Matches([Placeholder(m)]) == [m];
    MatchesAppend(done, [Placeholder(m)]);
    MatchesAppend(done + [Placeholder(m)], rest);
    FillAllFirstError(conf, row, Matches(done), m, Matches(rest));
  }

  /** `Substitute` succeeds with the weave of the scan when all its matches are filled. */
  lemma SubstituteOk(conf: Config, stmt: string, row: nat, vals: seq<string>)
    requires FillAll(conf, row, Matches(Scan(stmt, 0)), 0) == Ok(vals)
    ensures |vals| == |Matches(Scan(stmt, 0))|
    ensures Substitute(conf, stmt, row) == Ok(Weave(Scan(stmt, 0), vals))
  {
  }

  /**
   * The state of the `gsub` loop at p: the pieces scanned so far, the values of their
   * matches (all filled) and the text built from them.
   */
  predicate Progress(conf: Config, row: nat, stmt: string, p: nat, done: seq<Piece>, vals: seq<string>, out: string)
    reads conf
  {
    && p <= |stmt| && Scan(stmt, 0) == done + Scan(stmt, p)
    && |vals| == |Matches(done)| && FillAll(conf, row, Matches(done), 0) == Ok(vals)
    && out == Weave(done, vals)
  }

  /** Copying a character where nothing matches keeps the loop's state. */
  lemma LiteralStep(conf: Config, row: nat, stmt: string, p: nat, q: nat, c: char,
                    done: seq<Piece>, vals: seq<string>, out: string)
    requires Progress(conf, row, stmt, p, done, vals, out)
    requires p < |stmt| && Next(stmt, p) == (Literal(c), q)
    ensures Progress(conf, row, stmt, q, done + [Literal(c)], vals, out + [c])
  {
    assert Scan(stmt, p) == [Literal(c)] + Scan(stmt, q);
    Assoc(done, [Literal(c)], Scan(stmt, q));
    AppendLiteral(done, c, vals);
  }

  /** Replacing a match by the value filled for it at the next column keeps the loop's state. */
  lemma PlaceholderStep(conf: Config, row: nat, stmt: string, p: nat, q: nat, m: Match, v: string,
                        done: seq<Piece>, vals: seq<string>, out: string)
    requires Progress(conf, row, stmt, p, done, vals, out)
    requires p < |stmt| && Next(stmt, p) == (Placeholder(m), q)
    requires Fill(conf, row, |vals|, m) == Ok(v)
    ensures Progress(conf, row, stmt, q, done + [Placeholder(m)], vals + [v], out + (PrefixSp(m) + v + PostfixSp(m)))
  {
    var done', vals' := done + [Placeholder(m)], vals + [v];
    assert Scan(stmt, 0) == done' + Scan(stmt, q) by {
      assert Scan(stmt, p) == [Placeholder(m)] + Scan(stmt, q);
      Assoc(done, [Placeholder(m)], Scan(stmt, q));
    }
    assert Matches(done') == Matches(done) + [m] by {
      AppendPlaceholder(done, m, vals, v);
    }
    assert FillAll(conf, row, Matches(done'), 0) == Ok(vals') by {
      FillAllSnoc(conf, row, Matches(done), 0, vals, m, v);
    }
    AppendPlaceholder(done, m, vals, v);
  }

  /** A match that cannot be filled at the next column makes the whole substitution fail with its error. */
  lemma FailStep(conf: Config, row: nat, stmt: string, p: nat, q: nat, m: Match,
                 done: seq<Piece>, vals: seq<string>, out: string)
    requires Progress(conf, row, stmt, p, done, vals, out)
    requires p < |stmt| && Next(stmt, p) == (Placeholder(m), q)
    requires Fill(conf, row, |vals|, m).Err?
    ensures Substitute(conf, stmt, row) == Err(Fill(conf, row, |vals|, m).error)
  {
    assert Scan(stmt, p) == [Placeholder(m)] + Scan(stmt, q);
    Assoc(done, [Placeholder(m)], Scan(stmt, q));
    ErrorStep(conf, row, Scan(stmt, 0), done, m, Scan(stmt, q));
    SubstituteErr(conf, stmt, row, Fill(conf, row, |vals|, m).error);
  }

  /** At the end of the statement the text built is the substitution's result. */
  lemma DoneStep(conf: Config, row: nat, stmt: string, done: seq<Piece>, vals: seq<string>, out: string)
    requires Progress(conf, row, stmt, |stmt|, done, vals, out)
    ensures Substitute(conf, stmt, row) == Ok(out)
  {
    assert Scan(stmt, |stmt|) == [];
    assert done == Scan(stmt, 0);
    SubstituteOk(conf, stmt, row, vals);
  }

  /** The `gsub` loop: matches replaced left to right, the column counting from 0 per statement. */
  method FillPlaceholders(conf: Config, stmt: string, row: nat) returns (r: Result<string, FillError>)
    ensures r == Substitute(conf, stmt, row)
  {
    var out := "";
    var p := 0;
    var col := 0;
    ghost var done: seq<Piece> := [];
    ghost var vals: seq<string> := [];
    while p < |stmt|
      invariant Progress(conf, row, stmt, p, done, vals, out) && col == |vals|
      decreases |stmt| - p
    {
      var (piece, q) := Next(stmt, p);
      match piece
      case Literal(c) =>
        LiteralStep(conf, row, stmt, p, q, c, done, vals, out);
        out, done, p := out + [c], done + [Literal(c)], q;
      case Placeholder(m) =>
        var f := Fill(conf, row, col, m);
        if f.Err? {
          FailStep(conf, row, stmt, p, q, m, done, vals, out);
          return Err(f.error);
        }
        PlaceholderStep(conf, row, stmt, p, q, m, f.value, done, vals, out);
        out, done, vals := out + (PrefixSp(m) + f.value + PostfixSp(m)), done + [Placeholder(m)], vals + [f.value];
        col, p := col + 1, q;
    }
    DoneStep(conf, row, stmt, done, vals, out);
    r := Ok(out);
  }
}
