/**
 * The parts of Ruby's String behaviour that setsumei relies on: the character
 * classes of its regular expressions, `split`/`join`, `lines`/`chomp`,
 * whitespace collapsing, `ljust`/`rstrip`, `Integer#to_s` and literal
 * `gsub`/`sub`. Character classes and case folding are the ASCII ones.
 */
module Text {

  // ------------------------------------------------------------ characters

  /** `\s` of Ruby regular expressions, and what `String#split` with no argument splits on. */
  predicate IsSpace(c: char) {
    c == ' ' || c == '\t' || c == '\n' || c == '\U{B}' || c == '\U{C}' || c == '\r'
  }

  /** `\S` */
  predicate NotSpace(c: char) { !IsSpace(c) }

  /** A literal space: the only separator the highlighting pattern accepts. */
  predicate IsBlank(c: char) { c == ' ' }

  /** `\w`: an ASCII letter, digit or underscore. */
  predicate IsWord(c: char) {
    ('a' <= c <= 'z') || ('A' <= c <= 'Z') || ('0' <= c <= '9') || c == '_'
  }

  /** `\d` */
  predicate IsDigit(c: char) { '0' <= c <= '9' }

  /** What `String#rstrip` removes: whitespace and NUL. */
  predicate IsStrippable(c: char) { c == '\0' || IsSpace(c) }

  /** ASCII upper-casing: how the `i` flag compares letters. */
  function Upper(c: char): char {
    if 'a' <= c <= 'z' then (c as int - 32) as char else c
  }

  /** A character that upper-cases to a capital letter is a letter itself: no whitespace, quote or operator. */
  lemma UpperLetter(c: char)
    requires 'A' <= Upper(c) <= 'Z'
    ensures IsWord(c) && !IsSpace(c) && c != '\'' && c != '<' && c != '>' && c != '='
  {
  }

  /** `\b` at position i of s. */
  predicate Boundary(s: string, i: nat)
    requires i <= |s|
  {
    (i > 0 && IsWord(s[i - 1])) != (i < |s| && IsWord(s[i]))
  }

  /** s spells kw (given in upper case), ignoring ASCII case. */
  predicate SameLetters(s: string, kw: string)
    decreases |s|
  {
    |s| == |kw| && (s == "" || (Upper(s[0]) == kw[0] && SameLetters(s[1..], kw[1..])))
  }

  /** Each letter of s is the keyword's, up to case. */
  lemma {:induction false} SameLettersAt(s: string, kw: string, i: nat)
    requires SameLetters(s, kw) && i < |s|
    ensures |s| == |kw| && Upper(s[i]) == kw[i]
    decreases i
  {
    if i > 0 {
      SameLettersAt(s[1..], kw[1..], i - 1);
    }
  }

  /** The character classes the core's patterns repeat greedily. */
  datatype CharClass = Space | NonSpace | Blank | Word | Digit

  predicate InClass(c: char, cl: CharClass) {
    match cl
    case Space => IsSpace(c)
    case NonSpace => NotSpace(c)
    case Blank => IsBlank(c)
    case Word => IsWord(c)
    case Digit => IsDigit(c)
  }

  /** Length of the longest run of characters of class cl that starts at i: a greedy `cl*`. */
  function Run(s: string, i: nat, cl: CharClass): (n: nat)
    requires i <= |s|
    ensures i + n <= |s|
    decreases |s| - i
  {
    if i < |s| && InClass(s[i], cl) then 1 + Run(s, i + 1, cl) else 0
  }

  /** The run is greedy: every character in it is of the class, and the one after it is not. */
  lemma {:induction false} RunSpans(s: string, i: nat, cl: CharClass)
    requires i <= |s|
    ensures forall k :: i <= k < i + Run(s, i, cl) ==> InClass(s[k], cl)
    ensures i + Run(s, i, cl) < |s| ==> !InClass(s[i + Run(s, i, cl)], cl)
    decreases |s| - i
  {
    if i < |s| && InClass(s[i], cl) {
      RunSpans(s, i + 1, cl);
    }
  }

  /** A run is exactly as long as the stretch of characters of the class. */
  lemma {:induction false} RunIs(s: string, i: nat, n: nat, cl: CharClass)
    requires i + n <= |s|
    requires forall k :: i <= k < i + n ==> InClass(s[k], cl)
    requires i + n < |s| ==> !InClass(s[i + n], cl)
    ensures Run(s, i, cl) == n
    decreases n
  {
    if n > 0 {
      RunIs(s, i + 1, n - 1, cl);
    }
  }

  // ------------------------------------------------------------ join and split

  /** A text is its prefix followed by the rest. */
  lemma Halves(s: string, n: nat)
    requires n <= |s|
    ensures s[..n] + s[n..] == s
  {
  }

  /** Two adjacent stretches of a text make the stretch they span. */
  lemma Adjacent(s: string, i: nat, j: nat, k: nat)
    requires i <= j <= k <= |s|
    ensures s[i..j] + s[j..k] == s[i..k]
  {
  }

  /** A non-empty sequence is its head followed by its tail. */
  lemma HeadTail<T>(xs: seq<T>)
    requires xs != []
    ensures [xs[0]] + xs[1..] == xs
  {
  }

  /** Indexing past the first part of a concatenation indexes the second. */
  lemma IndexRight<T>(a: seq<T>, b: seq<T>, i: nat)
    requires i < |b|
    ensures (a + b)[|a| + i] == b[i]
  {
  }

  lemma Assoc<T>(a: seq<T>, b: seq<T>, c: seq<T>)
    ensures a + (b + c) == (a + b) + c
  {
  }

  /** `Array#join(sep)` */
  function Join(xs: seq<string>, sep: string): string
    decreases |xs|
  {
    if |xs| == 0 then "" else if |xs| == 1 then xs[0] else xs[0] + sep + Join(xs[1..], sep)
  }

  lemma JoinCons(x: string, xs: seq<string>, sep: string)
    ensures Join([x] + xs, sep) == if xs == [] then x else x + sep + Join(xs, sep)
  {
    assert ([x] + xs)[1..] == xs;
  }

  lemma {:induction false} JoinSnoc(xs: seq<string>, y: string, sep: string)
    requires xs != []
    ensures Join(xs + [y], sep) == Join(xs, sep) + sep + y
    decreases |xs|
  {
    if |xs| == 1 {
      assert (xs + [y])[1..] == [y];
    } else {
      assert (xs + [y])[1..] == xs[1..] + [y];
      JoinSnoc(xs[1..], y, sep);
    }
  }

  /** Every piece of s between occurrences of sep, found left to right; no piece is dropped. */
  function SplitAll(s: string, sep: string): (r: seq<string>)
    requires |sep| > 0
    ensures |r| > 0
    decreases |s|
  {
    if |s| < |sep| then [s]
    else if s[..|sep|] == sep then [""] + SplitAll(s[|sep|..], sep)
    else var rest := SplitAll(s[1..], sep); [[s[0]] + rest[0]] + rest[1..]
  }

  /** Joining the pieces back with the separator gives the original text. */
  lemma {:induction false} JoinSplitAll(s: string, sep: string)
    requires |sep| > 0
    ensures Join(SplitAll(s, sep), sep) == s
    decreases |s|
  {
    if |s| < |sep| {
    } else if s[..|sep|] == sep {
      JoinSplitAll(s[|sep|..], sep);
      JoinSplitAtSep(s, sep);
    } else {
      JoinSplitAll(s[1..], sep);
      JoinSplitAtChar(s, sep);
    }
  }

  /** The split of a text that starts with the separator starts with an empty piece. */
  lemma JoinSplitAtSep(s: string, sep: string)
    requires 0 < |sep| <= |s| && s[..|sep|] == sep
    requires Join(SplitAll(s[|sep|..], sep), sep) == s[|sep|..]
    ensures Join(SplitAll(s, sep), sep) == s
  {
    var t := s[|sep|..];
    var rest := SplitAll(t, sep);
    assert SplitAll(s, sep) == [""] + rest;
    JoinCons("", rest, sep);
    assert "" + sep + t == sep + t;
    Halves(s, |sep|);
  }

  /** Otherwise the first character joins the first piece of the rest. */
  lemma JoinSplitAtChar(s: string, sep: string)
    requires 0 < |sep| <= |s| && s[..|sep|] != sep
    requires Join(SplitAll(s[1..], sep), sep) == s[1..]
    ensures Join(SplitAll(s, sep), sep) == s
  {
    var rest := SplitAll(s[1..], sep);
    assert SplitAll(s, sep) == [[s[0]] + rest[0]] + rest[1..];
    JoinPrepend(s[0], rest, sep);
    assert s == [s[0]] + s[1..];
  }

  lemma JoinPrepend(c: char, xs: seq<string>, sep: string)
    requires |xs| > 0
    ensures Join([[c] + xs[0]] + xs[1..], sep) == [c] + Join(xs, sep)
  {
    JoinCons([c] + xs[0], xs[1..], sep);
    JoinCons(xs[0], xs[1..], sep);
    assert xs == [xs[0]] + xs[1..];
  }

  /** No occurrence of sep in t starts before position n. */
  predicate SepFree(t: string, sep: string, n: nat) {
    forall j :: 0 <= j < n ==> !OccursAt(t, j, sep, false, false)
  }

  lemma PrefixOfAppend(a: string, b: string, n: nat)
    requires n <= |a|
    ensures (a + b)[..n] == a[..n]
  {
  }

  lemma SepFreeCons(c: char, t: string, sep: string, n: nat)
    requires SepFree(t, sep, n)
    requires |sep| <= 1 + |t| ==> ([c] + t)[..|sep|] != sep
    ensures SepFree([c] + t, sep, n + 1)
  {
    forall j | 0 <= j < n + 1
      ensures !OccursAt([c] + t, j, sep, false, false)
    {
      if j == 0 && |sep| <= 1 + |t| {
        assert ([c] + t)[0..|sep|] == ([c] + t)[..|sep|];
      } else if j + |sep| <= 1 + |t| {
        assert ([c] + t)[j..j + |sep|] == t[j - 1..j - 1 + |sep|];
        assert !OccursAt(t, j - 1, sep, false, false);
      }
    }
  }

  /** No occurrence of sep starts inside a piece, not even one that runs into the separator after it; the last piece holds none at all. */
  predicate PiecesSepFree(r: seq<string>, sep: string) {
    && (forall k :: 0 <= k < |r| - 1 ==> SepFree(r[k] + sep, sep, |r[k]|))
    && (|r| > 0 ==> SepFree(r[|r| - 1], sep, |r[|r| - 1]|))
  }

  /** A piece followed by the separator can be put in front. */
  lemma PiecesCons(x: string, rest: seq<string>, sep: string)
    requires |rest| > 0 && PiecesSepFree(rest, sep) && SepFree(x + sep, sep, |x|)
    ensures PiecesSepFree([x] + rest, sep)
  {
    assert forall k :: 1 <= k < |rest| + 1 ==> ([x] + rest)[k] == rest[k - 1];
  }

  /** The first piece can be replaced by one that is as free of the separator. */
  lemma PiecesReplaceFirst(x: string, rest: seq<string>, sep: string)
    requires |rest| > 0 && PiecesSepFree(rest, sep)
    requires |rest| == 1 ==> SepFree(x, sep, |x|)
    requires |rest| > 1 ==> SepFree(x + sep, sep, |x|)
    ensures PiecesSepFree([x] + rest[1..], sep)
  {
    assert forall k :: 1 <= k < |rest| ==> ([x] + rest[1..])[k] == rest[k];
  }

  /** When s does not start with sep, its first character extends the first piece of the rest without starting an occurrence. */
  lemma SplitAllHead(s: string, sep: string, rest: seq<string>)
    requires 0 < |sep| <= |s| && s[..|sep|] != sep
    requires |rest| > 0 && Join(rest, sep) == s[1..] && PiecesSepFree(rest, sep)
    ensures |rest| == 1 ==> SepFree([s[0]] + rest[0], sep, 1 + |rest[0]|)
    ensures |rest| > 1 ==> SepFree([s[0]] + rest[0] + sep, sep, 1 + |rest[0]|)
  {
    assert s == [s[0]] + s[1..];
    if |rest| == 1 {
      SepFreeCons(s[0], rest[0], sep, |rest[0]|);
    } else {
      JoinCons(rest[0], rest[1..], sep);
      assert rest == [rest[0]] + rest[1..];
      SplitAllHeadMore(s, sep, rest[0], Join(rest[1..], sep));
    }
  }

  lemma SplitAllHeadMore(s: string, sep: string, y: string, z: string)
    requires 0 < |sep| <= |s| && s[..|sep|] != sep
    requires s[1..] == y + sep + z && SepFree(y + sep, sep, |y|)
    ensures SepFree([s[0]] + y + sep, sep, 1 + |y|)
  {
    var x := [s[0]] + y;
    assert s == [s[0]] + s[1..];
    assert s == (x + sep) + z;
    PrefixOfAppend(x + sep, z, |sep|);
    assert [s[0]] + (y + sep) == x + sep;
    SepFreeCons(s[0], y + sep, sep, |y|);
  }

  /** The split is the leftmost one: it never passes over an occurrence of the separator. */
  lemma {:induction false} SplitAllPieces(s: string, sep: string)
    requires |sep| > 0
    ensures PiecesSepFree(SplitAll(s, sep), sep)
    decreases |s|
  {
    if |s| < |sep| {
      assert SplitAll(s, sep) == [s];
    } else if s[..|sep|] == sep {
      SplitAllPieces(s[|sep|..], sep);
      assert SepFree("" + sep, sep, 0);
      PiecesCons("", SplitAll(s[|sep|..], sep), sep);
    } else {
      var rest := SplitAll(s[1..], sep);
      SplitAllPieces(s[1..], sep);
      JoinSplitAll(s[1..], sep);
      SplitAllHead(s, sep, rest);
      PiecesReplaceFirst([s[0]] + rest[0], rest, sep);
    }
  }

  predicate Excludes(x: string, c: char) {
    forall i :: 0 <= i < |x| ==> x[i] != c
  }

  lemma ExcludesAppend(x: string, y: string, c: char)
    ensures Excludes(x + y, c) <==> Excludes(x, c) && Excludes(y, c)
  {
    assert forall i :: 0 <= i < |x| ==> (x + y)[i] == x[i];
    assert forall i :: 0 <= i < |y| ==> (x + y)[|x| + i] == y[i];
  }

  /** A joined text is free of c exactly when its pieces are, given a separator free of it. */
  lemma {:induction false} JoinExcludes(xs: seq<string>, sep: string, c: char)
    requires Excludes(sep, c)
    ensures Excludes(Join(xs, sep), c) <==> forall k :: 0 <= k < |xs| ==> Excludes(xs[k], c)
    decreases |xs|
  {
    if |xs| > 1 {
      JoinExcludes(xs[1..], sep, c);
      ExcludesAppend(xs[0], sep, c);
      ExcludesAppend(xs[0] + sep, Join(xs[1..], sep), c);
      assert forall k :: 1 <= k < |xs| ==> xs[k] == xs[1..][k - 1];
    }
  }

  /** A piece of a split on a single character does not hold that character. */
  lemma PieceExcludes(r: seq<string>, k: nat, c: char)
    requires k < |r| && PiecesSepFree(r, [c])
    ensures Excludes(r[k], c)
  {
    forall i | 0 <= i < |r[k]| ensures r[k][i] != c {
      if k < |r| - 1 {
        assert !OccursAt(r[k] + [c], i, [c], false, false);
        assert (r[k] + [c])[i..i + 1] == [r[k][i]];
      } else {
        assert !OccursAt(r[k], i, [c], false, false);
        assert r[k][i..i + 1] == [r[k][i]];
      }
    }
  }

  lemma {:induction false} SplitAllNoSep(x: string, c: char)
    requires Excludes(x, c)
    ensures SplitAll(x, [c]) == [x]
    decreases |x|
  {
    if x != "" {
      SplitAllNoSep(x[1..], c);
      assert [x[0]] + x[1..] == x;
    }
  }

  lemma {:induction false} SplitAllFirstSep(x: string, t: string, c: char)
    requires Excludes(x, c)
    ensures SplitAll(x + [c] + t, [c]) == [x] + SplitAll(t, [c])
    decreases |x|
  {
    var s := x + [c] + t;
    if x == "" {
      assert s[..1] == [c] && s[1..] == t;
    } else {
      assert s[0] == x[0] && x[0] != c;
      assert s[..1] != [c];
      assert s[1..] == x[1..] + [c] + t;
      SplitAllFirstSep(x[1..], t, c);
      var rest := SplitAll(s[1..], [c]);
      assert rest[0] == x[1..] && rest[1..] == SplitAll(t, [c]);
      assert [x[0]] + x[1..] == x;
    }
  }

  /** Splitting on a character undoes joining pieces that do not contain it. */
  lemma {:induction false} SplitAllJoin(xs: seq<string>, c: char)
    requires |xs| > 0
    requires forall k :: 0 <= k < |xs| ==> Excludes(xs[k], c)
    ensures SplitAll(Join(xs, [c]), [c]) == xs
    decreases |xs|
  {
    if |xs| == 1 {
      SplitAllNoSep(xs[0], c);
    } else {
      SplitAllJoin(xs[1..], c);
      SplitAllFirstSep(xs[0], Join(xs[1..], [c]), c);
      assert [xs[0]] + xs[1..] == xs;
    }
  }

  /** What `String#split(sep)` keeps of the pieces: trailing empty strings are removed. */
  function DropTrailingEmpty(xs: seq<string>): (r: seq<string>)
    ensures |r| <= |xs| && r == xs[..|r|]
    ensures r == [] || r[|r| - 1] != ""
    ensures forall k :: |r| <= k < |xs| ==> xs[k] == ""
    decreases |xs|
  {
    if |xs| > 0 && xs[|xs| - 1] == "" then DropTrailingEmpty(xs[..|xs| - 1]) else xs
  }

  /** `String#split(sep)` for a non-empty string separator. */
  function Split(s: string, sep: string): seq<string>
    requires |sep| > 0
  {
    DropTrailingEmpty(SplitAll(s, sep))
  }

  // ------------------------------------------------------------ lines

  /** `String#lines`: each line keeps its "\n"; only the last may lack one. */
  function Lines(s: string): (ls: seq<string>)
    ensures |ls| == 0 <==> s == ""
    ensures forall k :: 0 <= k < |ls| ==> ls[k] != ""
    decreases |s|
  {
    if s == "" then []
    else if s[0] == '\n' then ["\n"] + Lines(s[1..])
    else
      var rest := Lines(s[1..]);
      if rest == [] then [[s[0]]] else [[s[0]] + rest[0]] + rest[1..]
  }

  /** The lines put together again are the text. */
  lemma {:induction false} JoinLines(s: string)
    ensures Join(Lines(s), "") == s
    decreases |s|
  {
    if s == "" {
    } else if s[0] == '\n' {
      JoinLines(s[1..]);
      JoinCons("\n", Lines(s[1..]), "");
      assert s == "\n" + s[1..];
    } else {
      var rest := Lines(s[1..]);
      JoinLines(s[1..]);
      if rest != [] {
        JoinCons([s[0]] + rest[0], rest[1..], "");
        JoinCons(rest[0], rest[1..], "");
        assert rest == [rest[0]] + rest[1..];
      }
      assert s == [s[0]] + s[1..];
    }
  }

  lemma {:induction false} LinesNoNewline(x: string)
    requires x != "" && Excludes(x, '\n')
    ensures Lines(x) == [x]
    decreases |x|
  {
    assert x[0] != '\n';
    assert [x[0]] + x[1..] == x;
    if |x| > 1 {
      LinesNoNewline(x[1..]);
      assert Lines(x) == [[x[0]] + x[1..]];
    } else {
      assert x[1..] == "" && Lines(x[1..]) == [];
      assert [x[0]] == x;
    }
  }

  lemma {:induction false} LinesFirstNewline(x: string, t: string)
    requires Excludes(x, '\n')
    ensures Lines(x + "\n" + t) == [x + "\n"] + Lines(t)
    decreases |x|
  {
    var s := x + "\n" + t;
    if x == "" {
      assert s[0] == '\n' && s[1..] == t;
      assert x + "\n" == "\n";
      assert Lines(s) == ["\n"] + Lines(t);
    } else {
      assert s[0] == x[0] && x[0] != '\n';
      assert s[1..] == x[1..] + "\n" + t;
      LinesFirstNewline(x[1..], t);
      assert [x[0]] + (x[1..] + "\n") == x + "\n";
    }
  }

  /** The lines of non-empty, newline-free pieces joined by "\n" are those pieces, terminated. */
  lemma {:induction false} LinesOfJoin(xs: seq<string>)
    requires |xs| > 0
    requires forall k :: 0 <= k < |xs| ==> xs[k] != "" && Excludes(xs[k], '\n')
    ensures Lines(Join(xs, "\n")) == seq(|xs|, k requires 0 <= k < |xs| => if k < |xs| - 1 then xs[k] + "\n" else xs[k])
    decreases |xs|
  {
    var want := seq(|xs|, k requires 0 <= k < |xs| => if k < |xs| - 1 then xs[k] + "\n" else xs[k]);
    if |xs| == 1 {
      LinesNoNewline(xs[0]);
    } else {
      LinesOfJoin(xs[1..]);
      LinesFirstNewline(xs[0], Join(xs[1..], "\n"));
      assert want == [xs[0] + "\n"] + Lines(Join(xs[1..], "\n"));
    }
  }

  /** A line as `lines(chomp: true)` yields it: without its "\n", and without a "\r" right before it. */
  function ChompLine(l: string): string {
    if |l| > 0 && l[|l| - 1] == '\n' then
      var b := l[..|l| - 1];
      if |b| > 0 && b[|b| - 1] == '\r' then b[..|b| - 1] else b
    else l
  }

  /** `String#chomp`: drops one trailing "\r\n", "\n" or "\r". */
  function Chomp(l: string): string {
    if |l| >= 2 && l[|l| - 2] == '\r' && l[|l| - 1] == '\n' then l[..|l| - 2]
    else if |l| >= 1 && (l[|l| - 1] == '\n' || l[|l| - 1] == '\r') then l[..|l| - 1]
    else l
  }

  /** `chomp` keeps a prefix and drops one line terminator: "\r\n" as a whole, else one "\n" or "\r", else nothing. */
  lemma ChompParts(l: string)
    ensures var c := Chomp(l);
      && |c| <= |l| && c == l[..|c|]
      && (l[|c|..] == "" || l[|c|..] == "\n" || l[|c|..] == "\r" || l[|c|..] == "\r\n")
      && (l[|c|..] == "" <==> |l| == 0 || (l[|l| - 1] != '\n' && l[|l| - 1] != '\r'))
      && (l[|c|..] == "\n" ==> |c| == 0 || c[|c| - 1] != '\r')
  {
    var c := Chomp(l);
    if |l| >= 2 && l[|l| - 2] == '\r' && l[|l| - 1] == '\n' {
      assert l[|c|..] == [l[|l| - 2], l[|l| - 1]];
    } else if |l| >= 1 && (l[|l| - 1] == '\n' || l[|l| - 1] == '\r') {
      assert l[|c|..] == [l[|l| - 1]];
    }
  }

  // ------------------------------------------------------------ whitespace runs

  predicate SpaceFree(w: string) {
    forall i :: 0 <= i < |w| ==> !IsSpace(w[i])
  }

  /** `String#split` with no argument: the maximal runs of non-whitespace, left to right. */
  function Words(s: string): (ws: seq<string>)
    ensures forall k :: 0 <= k < |ws| ==> ws[k] != "" && SpaceFree(ws[k])
    decreases |s|
  {
    if s == "" then []
    else if IsSpace(s[0]) then Words(s[1..])
    else
      var n := Run(s, 0, NonSpace);
      RunSpans(s, 0, NonSpace);
      [s[..n]] + Words(s[n..])
  }

  /** `.split.join ' '`: whitespace runs become one space, leading and trailing ones go. */
  function Collapse(s: string): string {
    Join(Words(s), " ")
  }

  /** A word followed by whitespace (or by nothing) is the first word. */
  lemma WordsCons(w: string, t: string)
    requires w != "" && SpaceFree(w)
    requires t == "" || IsSpace(t[0])
    ensures Words(w + t) == [w] + Words(t)
  {
    var s := w + t;
    var n := Run(s, 0, NonSpace);
    assert forall k :: 0 <= k < |w| ==> s[k] == w[k] && NotSpace(s[k]);
    assert |w| < |s| ==> s[|w|] == t[0] && !NotSpace(s[|w|]);
    RunIs(s, 0, |w|, NonSpace);
    assert s[..n] == w && s[n..] == t;
  }

  lemma WordsSpaceCons(c: char, t: string)
    requires IsSpace(c)
    ensures Words([c] + t) == Words(t)
  {
    assert ([c] + t)[1..] == t;
  }

  /** Collapsed text splits back into the same words: collapsing loses only whitespace. */
  lemma {:induction false} WordsOfJoin(ws: seq<string>)
    requires forall k :: 0 <= k < |ws| ==> ws[k] != "" && SpaceFree(ws[k])
    ensures Words(Join(ws, " ")) == ws
    decreases |ws|
  {
    if |ws| == 0 {
    } else if |ws| == 1 {
      WordsCons(ws[0], "");
      assert ws[0] + "" == ws[0];
    } else {
      WordsOfJoin(ws[1..]);
      assert ws[0] + " " + Join(ws[1..], " ") == ws[0] + (" " + Join(ws[1..], " "));
      WordsCons(ws[0], " " + Join(ws[1..], " "));
      WordsSpaceCons(' ', Join(ws[1..], " "));
      assert [ws[0]] + ws[1..] == ws;
    }
  }

  /** Collapsing whitespace keeps the words: `split.join ' '` changes only the spacing. */
  lemma CollapseWords(s: string)
    ensures Words(Collapse(s)) == Words(s)
  {
    WordsOfJoin(Words(s));
  }

  /** Single spaces only between words, none at either end, no other whitespace. */
  predicate Collapsed(r: string) {
    && (forall i :: 0 <= i < |r| && IsSpace(r[i]) ==> r[i] == ' ' && 0 < i < |r| - 1 && r[i + 1] != ' ')
  }

  lemma {:induction false} JoinWordsCollapsed(ws: seq<string>)
    requires forall k :: 0 <= k < |ws| ==> ws[k] != "" && SpaceFree(ws[k])
    ensures Collapsed(Join(ws, " "))
    ensures ws != [] ==> Join(ws, " ") != "" && !IsSpace(Join(ws, " ")[0])
    decreases |ws|
  {
    if |ws| > 1 {
      JoinWordsCollapsed(ws[1..]);
      var j := Join(ws[1..], " ");
      var r := ws[0] + " " + j;
      forall i | 0 <= i < |r| && IsSpace(r[i])
        ensures r[i] == ' ' && 0 < i < |r| - 1 && r[i + 1] != ' '
      {
        if i > |ws[0]| {
          assert r[i] == j[i - |ws[0]| - 1];
        }
      }
    }
  }

  /** The collapsed form of text ending in a non-space character ends in that character. */
  lemma {:induction false} CollapseLast(s: string)
    requires s != "" && !IsSpace(s[|s| - 1])
    ensures Words(s) != []
    ensures Collapse(s) != "" && Collapse(s)[|Collapse(s)| - 1] == s[|s| - 1]
    decreases |s|
  {
    if IsSpace(s[0]) {
      CollapseLast(s[1..]);
    } else {
      var n := Run(s, 0, NonSpace);
      var rest := Words(s[n..]);
      if n < |s| {
        CollapseLast(s[n..]);
        JoinCons(s[..n], rest, " ");
      }
    }
  }

  /** Collapsed text holds no whitespace but single spaces, so in particular no "\n". */
  lemma CollapsedExcludesNewline(r: string)
    requires Collapsed(r)
    ensures Excludes(r, '\n')
  {
    forall i | 0 <= i < |r| ensures r[i] != '\n' {
      if r[i] == '\n' {
        assert IsSpace(r[i]);
      }
    }
  }

  // ------------------------------------------------------------ padding

  /** `String#rstrip`: drops trailing whitespace and NUL characters. */
  function Rstrip(s: string): (r: string)
    ensures |r| <= |s| && r == s[..|r|]
    ensures r == "" || !IsStrippable(r[|r| - 1])
    ensures forall k :: |r| <= k < |s| ==> IsStrippable(s[k])
    decreases |s|
  {
    if |s| > 0 && IsStrippable(s[|s| - 1]) then Rstrip(s[..|s| - 1]) else s
  }

  /** Appending only strippable characters does not change what `rstrip` keeps. */
  lemma {:induction false} RstripAppend(a: string, b: string)
    requires forall k :: 0 <= k < |b| ==> IsStrippable(b[k])
    ensures Rstrip(a + b) == Rstrip(a)
    decreases |b|
  {
    if b != [] {
      var b' := b[..|b| - 1];
      assert (a + b)[..|a + b| - 1] == a + b';
      RstripAppend(a, b');
    } else {
      assert a + b == a;
    }
  }

  /** `String#ljust(w)`: pads with spaces on the right up to width w. */
  function Ljust(s: string, w: int): (r: string)
    ensures |r| == if |s| >= w then |s| else w
    ensures r[..|s|] == s
    ensures forall k :: |s| <= k < |r| ==> r[k] == ' '
  {
    if |s| >= w then s else s + seq(w - |s|, _ => ' ')
  }

  // ------------------------------------------------------------ numbers

  function DigitChar(d: nat): char
    requires d < 10
  {
    ('0' as int + d) as char
  }

  function DigitValue(c: char): nat
    requires IsDigit(c)
  {
    c as int - '0' as int
  }

  predicate AllDigits(s: string) {
    forall k :: 0 <= k < |s| ==> IsDigit(s[k])
  }

  /** `String#to_i` on a run of decimal digits. */
  function DigitsValue(s: string): nat
    requires AllDigits(s)
    decreases |s|
  {
    if s == "" then 0 else DigitsValue(s[..|s| - 1]) * 10 + DigitValue(s[|s| - 1])
  }

  function NatToString(n: nat): (r: string)
    ensures r != "" && AllDigits(r)
    decreases n
  {
    if n < 10 then [DigitChar(n)] else NatToString(n / 10) + [DigitChar(n % 10)]
  }

  /** `Integer#to_s`: decimal, with a leading "-" for negative numbers. */
  function IntToString(n: int): string {
    if n < 0 then "-" + NatToString(-n) else NatToString(n)
  }

  /** NatToString writes n in decimal with no leading zero. */
  lemma {:induction false} NatToStringDecimal(n: nat)
    ensures DigitsValue(NatToString(n)) == n
    ensures NatToString(n)[0] == '0' ==> n == 0
    decreases n
  {
    if n >= 10 {
      NatToStringDecimal(n / 10);
      var r := NatToString(n / 10) + [DigitChar(n % 10)];
      assert r[..|r| - 1] == NatToString(n / 10);
    }
  }

  /** IntToString writes n in decimal: an optional "-", then |n| without leading zeros. */
  lemma IntToStringDecimal(n: int)
    ensures var r := IntToString(n);
      if n < 0 then r[0] == '-' && AllDigits(r[1..]) && DigitsValue(r[1..]) == -n && r[1] != '0'
      else AllDigits(r) && DigitsValue(r) == n && (r[0] == '0' ==> r == "0")
  {
    if n < 0 {
      NatToStringDecimal(-n);
      assert IntToString(n)[1..] == NatToString(-n);
    } else {
      NatToStringDecimal(n);
    }
  }

  // ------------------------------------------------------------ literal gsub and sub

  /** pat occurs at p, with `\b` before it if before holds and `\b` after it if after holds. */
  predicate OccursAt(s: string, p: nat, pat: string, before: bool, after: bool) {
    && p + |pat| <= |s|
    && s[p..p + |pat|] == pat
    && (before ==> Boundary(s, p))
    && (after ==> Boundary(s, p + |pat|))
  }

  /** `gsub` of a literal, optionally `\b`-anchored, pattern: the scan from position p on. */
  function GsubFrom(s: string, p: nat, pat: string, rep: string, before: bool, after: bool): string
    requires p <= |s| && |pat| > 0
    decreases |s| - p
  {
    if p == |s| then ""
    else if OccursAt(s, p, pat, before, after) then rep + GsubFrom(s, p + |pat|, pat, rep, before, after)
    else [s[p]] + GsubFrom(s, p + 1, pat, rep, before, after)
  }

  function Gsub(s: string, pat: string, rep: string, before: bool, after: bool): string
    requires |pat| > 0
  {
    GsubFrom(s, 0, pat, rep, before, after)
  }

  /** A replacement as long as its pattern keeps the length of the text and every character the pattern lacks in its place. */
  lemma {:induction false} GsubFromKeepsOthers(s: string, p: nat, pat: string, rep: string, before: bool, after: bool)
    requires p <= |s| && |pat| > 0 && |rep| == |pat|
    ensures |GsubFrom(s, p, pat, rep, before, after)| == |s| - p
    ensures forall i :: 0 <= i < |s| - p && Excludes(pat, s[p + i]) ==> GsubFrom(s, p, pat, rep, before, after)[i] == s[p + i]
    decreases |s| - p
  {
    if p < |s| {
      var r := GsubFrom(s, p, pat, rep, before, after);
      if OccursAt(s, p, pat, before, after) {
        var q := p + |pat|;
        GsubFromKeepsOthers(s, q, pat, rep, before, after);
        var t := GsubFrom(s, q, pat, rep, before, after);
        forall j | p <= j < q ensures !Excludes(pat, s[j]) {
          assert s[p..q][j - p] == s[j];
        }
        forall i | |pat| <= i < |s| - p && Excludes(pat, s[p + i]) ensures r[i] == s[p + i] {
          assert r[i] == t[i - |pat|] && s[p + i] == s[q + (i - |pat|)];
        }
      } else {
        GsubFromKeepsOthers(s, p + 1, pat, rep, before, after);
        var t := GsubFrom(s, p + 1, pat, rep, before, after);
        forall i | 0 <= i < |s| - p && Excludes(pat, s[p + i]) ensures r[i] == s[p + i] {
          if i > 0 {
            assert r[i] == t[i - 1] && s[p + i] == s[(p + 1) + (i - 1)];
          }
        }
      }
    }
  }

  /** A replacement as long as its pattern keeps the length of the text and where its newlines are. */
  lemma {:induction false} GsubFromKeepsLayout(s: string, p: nat, pat: string, rep: string, before: bool, after: bool)
    requires p <= |s| && |pat| > 0 && |rep| == |pat|
    requires Excludes(pat, '\n') && Excludes(rep, '\n')
    ensures |GsubFrom(s, p, pat, rep, before, after)| == |s| - p
    ensures forall i :: 0 <= i < |s| - p ==> (GsubFrom(s, p, pat, rep, before, after)[i] == '\n' <==> s[p + i] == '\n')
    decreases |s| - p
  {
    if p < |s| {
      var r := GsubFrom(s, p, pat, rep, before, after);
      if OccursAt(s, p, pat, before, after) {
        var q := p + |pat|;
        GsubFromKeepsLayout(s, q, pat, rep, before, after);
        var t := GsubFrom(s, q, pat, rep, before, after);
        forall i | 0 <= i < |s| - p ensures r[i] == '\n' <==> s[p + i] == '\n' {
          if i < |pat| {
            assert r[i] == rep[i] && s[p + i] == pat[i];
          } else {
            assert r[i] == t[i - |pat|];
          }
        }
      } else {
        GsubFromKeepsLayout(s, p + 1, pat, rep, before, after);
      }
    }
  }

  /** `gsub` changes nothing when the pattern does not occur. */
  lemma {:induction false} GsubFromNoOccurrence(s: string, p: nat, pat: string, rep: string, before: bool, after: bool)
    requires p <= |s| && |pat| > 0
    requires forall q :: p <= q < |s| ==> !OccursAt(s, q, pat, before, after)
    ensures GsubFrom(s, p, pat, rep, before, after) == s[p..]
    decreases |s| - p
  {
    if p < |s| {
      GsubFromNoOccurrence(s, p + 1, pat, rep, before, after);
      assert s[p..] == [s[p]] + s[p + 1..];
    }
  }

  /** `gsub` brings in no character that is neither in the scanned text nor in the replacement. */
  lemma {:induction false} GsubFromExcludes(s: string, p: nat, pat: string, rep: string, before: bool, after: bool, c: char)
    requires p <= |s| && |pat| > 0
    requires forall i :: p <= i < |s| ==> s[i] != c
    requires Excludes(rep, c)
    ensures Excludes(GsubFrom(s, p, pat, rep, before, after), c)
    decreases |s| - p
  {
    if p < |s| {
      if OccursAt(s, p, pat, before, after) {
        GsubFromExcludes(s, p + |pat|, pat, rep, before, after, c);
      } else {
        GsubFromExcludes(s, p + 1, pat, rep, before, after, c);
      }
    }
  }

  /** Replacing every single character c by text without c leaves no c behind. */
  lemma {:induction false} GsubFromRemoves(s: string, p: nat, c: char, rep: string)
    requires p <= |s| && Excludes(rep, c)
    ensures Excludes(GsubFrom(s, p, [c], rep, false, false), c)
    decreases |s| - p
  {
    if p < |s| {
      if OccursAt(s, p, [c], false, false) {
        GsubFromRemoves(s, p + 1, c, rep);
      } else {
        assert s[p..p + 1] == [s[p]];
        GsubFromRemoves(s, p + 1, c, rep);
      }
    }
  }

  /** While the output shows no first character of the replacement, the scan has only copied. */
  lemma {:induction false} GsubFromCopied(s: string, p: nat, k: nat, pat: string, rep: string, before: bool, after: bool)
    requires p <= |s| && |pat| > 0 && |rep| > 0
    requires k <= |GsubFrom(s, p, pat, rep, before, after)|
    requires forall i :: 0 <= i < k ==> GsubFrom(s, p, pat, rep, before, after)[i] != rep[0]
    ensures p + k <= |s|
    ensures GsubFrom(s, p, pat, rep, before, after) == s[p..p + k] + GsubFrom(s, p + k, pat, rep, before, after)
    decreases k
  {
    if k > 0 {
      var o := GsubFrom(s, p, pat, rep, before, after);
      var o' := GsubFrom(s, p + 1, pat, rep, before, after);
      GsubFromFirstCopied(s, p, pat, rep, before, after);
      assert forall i :: 0 <= i < k - 1 ==> o'[i] == o[i + 1];
      GsubFromCopied(s, p + 1, k - 1, pat, rep, before, after);
      SliceCons(s, p, k, GsubFrom(s, p + k, pat, rep, before, after));
    }
  }

  /** A scan whose output does not start with the replacement copied the character at p. */
  lemma GsubFromFirstCopied(s: string, p: nat, pat: string, rep: string, before: bool, after: bool)
    requires p <= |s| && |pat| > 0 && |rep| > 0
    requires |GsubFrom(s, p, pat, rep, before, after)| > 0 && GsubFrom(s, p, pat, rep, before, after)[0] != rep[0]
    ensures p < |s| && GsubFrom(s, p, pat, rep, before, after) == [s[p]] + GsubFrom(s, p + 1, pat, rep, before, after)
  {
  }

  /** A stretch of s followed by x is its first character followed by the rest and x. */
  lemma SliceCons(s: string, p: nat, k: nat, x: string)
    requires 0 < k && p + k <= |s|
    ensures s[p..p + k] + x == [s[p]] + (s[p + 1..p + k] + x)
  {
    assert s[p..p + k] == [s[p]] + s[p + 1..p + k];
    Assoc([s[p]], s[p + 1..p + k], x);
  }

  /** Past its first character, an occurrence in x + y is one in y. */
  lemma OccursShift(x: string, y: string, i: nat, pat: string, before: bool, after: bool)
    requires i >= 1 || (|x| > 0 && !IsWord(x[|x| - 1]))
    ensures OccursAt(x + y, |x| + i, pat, before, after) == OccursAt(y, i, pat, before, after)
  {
    if |x| + i + |pat| <= |x + y| {
      assert (x + y)[|x| + i..|x| + i + |pat|] == y[i..i + |pat|];
    }
    if i <= |y| {
      if i > 0 {
        assert (x + y)[|x| + i - 1] == y[i - 1];
      }
      if i < |y| {
        assert (x + y)[|x| + i] == y[i];
      }
      if 0 < |pat| && i + |pat| <= |y| {
        assert (x + y)[|x| + i + |pat| - 1] == y[i + |pat| - 1];
        if i + |pat| < |y| {
          assert (x + y)[|x| + i + |pat|] == y[i + |pat|];
        }
      }
    }
  }

  /**
   * How the character c that the output so far ends with stands to the text before p: they
   * are alike as word characters, or c ends a replacement whose pattern ended in a word
   * character followed, by `\b`, by a non-word character or the end.
   */
  predicate GsubContext(s: string, p: nat, c: char, after: bool)
    requires p <= |s|
  {
    if p == 0 then !IsWord(c)
    else IsWord(c) == IsWord(s[p - 1]) || (!IsWord(c) && after && (p == |s| || !IsWord(s[p])))
  }

  /** A replacement that shares no character with its pattern, and whose last character does not glue onto what follows. */
  predicate CleanReplacement(pat: string, rep: string, before: bool, after: bool) {
    && |pat| > 0 && |rep| > 0
    && (forall i :: 0 <= i < |rep| ==> Excludes(pat, rep[i]))
    && (IsWord(rep[|rep| - 1]) == IsWord(pat[|pat| - 1]) || (!IsWord(rep[|rep| - 1]) && after))
    && (after ==> before)
  }

  /** No occurrence of pat in t starts after its first character. */
  ghost predicate NoneAfter(t: string, pat: string, before: bool, after: bool) {
    forall q :: q >= 1 ==> !OccursAt(t, q, pat, before, after)
  }

  /** A replacement that shares no character with the pattern starts none of its occurrences. */
  lemma NoneAfterRep(c: char, rep: string, o': string, pat: string, before: bool, after: bool)
    requires |pat| > 0 && |rep| > 0 && forall i :: 0 <= i < |rep| ==> Excludes(pat, rep[i])
    requires NoneAfter([rep[|rep| - 1]] + o', pat, before, after)
    ensures NoneAfter([c] + (rep + o'), pat, before, after)
  {
    var t := [c] + (rep + o');
    var x := [c] + rep[..|rep| - 1];
    var y := [rep[|rep| - 1]] + o';
    assert t == x + y;
    forall q | q >= 1 ensures !OccursAt(t, q, pat, before, after) {
      if q <= |rep| && q + |pat| <= |t| {
        assert t[q] == rep[q - 1] && t[q..q + |pat|][0] == t[q];
        assert Excludes(pat, rep[q - 1]);
      } else if q > |rep| {
        OccursShift(x, y, q - |rep|, pat, before, after);
      }
    }
  }

  lemma NoneAfterCopy(c: char, d: char, o': string, pat: string, before: bool, after: bool)
    requires NoneAfter([d] + o', pat, before, after)
    requires !OccursAt([c] + ([d] + o'), 1, pat, before, after)
    ensures NoneAfter([c] + ([d] + o'), pat, before, after)
  {
    forall q | q >= 2 ensures !OccursAt([c] + ([d] + o'), q, pat, before, after) {
      OccursShift([c], [d] + o', q - 1, pat, before, after);
    }
  }

  /** The step of the scan from p: no occurrence of the pattern is left after the context character. */
  lemma {:induction false} GsubFromNoneLeft(s: string, p: nat, c: char, pat: string, rep: string, before: bool, after: bool)
    requires p <= |s| && CleanReplacement(pat, rep, before, after) && GsubContext(s, p, c, after)
    ensures NoneAfter([c] + GsubFrom(s, p, pat, rep, before, after), pat, before, after)
    decreases |s| - p
  {
    if p < |s| {
      var n := |pat|;
      var o := GsubFrom(s, p, pat, rep, before, after);
      if OccursAt(s, p, pat, before, after) {
        var o' := GsubFrom(s, p + n, pat, rep, before, after);
        assert o == rep + o';
        assert GsubContext(s, p + n, rep[|rep| - 1], after) by {
          assert s[p + n - 1] == pat[n - 1];
        }
        GsubFromNoneLeft(s, p + n, rep[|rep| - 1], pat, rep, before, after);
        NoneAfterRep(c, rep, o', pat, before, after);
      } else {
        var o' := GsubFrom(s, p + 1, pat, rep, before, after);
        assert o == [s[p]] + o';
        GsubFromNoneLeft(s, p + 1, s[p], pat, rep, before, after);
        GsubFromNoneLeftHere(s, p, c, pat, rep, before, after);
        NoneAfterCopy(c, s[p], o', pat, before, after);
      }
    }
  }

  /** The first character of the scan's output from q. */
  lemma GsubFromHead(s: string, q: nat, pat: string, rep: string, before: bool, after: bool)
    requires q <= |s| && |pat| > 0 && |rep| > 0
    ensures q == |s| ==> GsubFrom(s, q, pat, rep, before, after) == ""
    ensures q < |s| ==>
      |GsubFrom(s, q, pat, rep, before, after)| > 0 &&
      GsubFrom(s, q, pat, rep, before, after)[0] == if OccursAt(s, q, pat, before, after) then rep[0] else s[q]
  {
  }

  /** Where the scan copied s[p], the pattern does not start right after the context character. */
  lemma GsubFromNoneLeftHere(s: string, p: nat, c: char, pat: string, rep: string, before: bool, after: bool)
    requires p < |s| && CleanReplacement(pat, rep, before, after) && GsubContext(s, p, c, after)
    requires !OccursAt(s, p, pat, before, after)
    ensures !OccursAt([c] + GsubFrom(s, p, pat, rep, before, after), 1, pat, before, after)
  {
    var n := |pat|;
    var o := GsubFrom(s, p, pat, rep, before, after);
    var t := [c] + o;
    if |o| < n {
    } else if exists i :: 0 <= i < n && o[i] == rep[0] {
      var i :| 0 <= i < n && o[i] == rep[0];
      assert Excludes(pat, rep[0]);
      ReplacementBlocks(c, o, pat, rep[0], i, before, after);
    } else {
      GsubFromNoneLeftCopied(s, p, c, pat, rep, before, after);
    }
  }

  /** A character the pattern lacks, among the |pat| characters after c, blocks an occurrence there. */
  lemma ReplacementBlocks(c: char, o: string, pat: string, r: char, i: nat, before: bool, after: bool)
    requires i < |pat| <= |o| && o[i] == r && Excludes(pat, r)
    ensures !OccursAt([c] + o, 1, pat, before, after)
  {
    assert ([c] + o)[1..1 + |pat|][i] == o[i];
  }

  lemma GsubFromNoneLeftCopied(s: string, p: nat, c: char, pat: string, rep: string, before: bool, after: bool)
    requires p < |s| && CleanReplacement(pat, rep, before, after) && GsubContext(s, p, c, after)
    requires !OccursAt(s, p, pat, before, after)
    requires |pat| <= |GsubFrom(s, p, pat, rep, before, after)|
    requires forall i :: 0 <= i < |pat| ==> GsubFrom(s, p, pat, rep, before, after)[i] != rep[0]
    ensures !OccursAt([c] + GsubFrom(s, p, pat, rep, before, after), 1, pat, before, after)
  {
    CopiedPrefix(s, p, pat, rep, before, after);
    CopiedOccurrence(s, p, c, pat, rep, before, after,
      GsubFrom(s, p, pat, rep, before, after), GsubFrom(s, p + |pat|, pat, rep, before, after));
  }

  /** Where the scan's first |pat| characters hold no replacement, they are copied from s and the scan goes on after them. */
  lemma CopiedPrefix(s: string, p: nat, pat: string, rep: string, before: bool, after: bool)
    requires p <= |s| && |pat| > 0 && |rep| > 0
    requires |pat| <= |GsubFrom(s, p, pat, rep, before, after)|
    requires forall i :: 0 <= i < |pat| ==> GsubFrom(s, p, pat, rep, before, after)[i] != rep[0]
    ensures p + |pat| <= |s|
    ensures var o' := GsubFrom(s, p + |pat|, pat, rep, before, after);
      && GsubFrom(s, p, pat, rep, before, after) == s[p..p + |pat|] + o'
      && (p + |pat| == |s| ==> o' == "")
      && (p + |pat| < |s| ==>
            |o'| > 0 && o'[0] == if OccursAt(s, p + |pat|, pat, before, after) then rep[0] else s[p + |pat|])
  {
    GsubFromCopied(s, p, |pat|, pat, rep, before, after);
    GsubFromHead(s, p + |pat|, pat, rep, before, after);
  }

  /** Text copied from p, followed by what the scan makes of the rest, holds the pattern right after c only where s does. */
  lemma CopiedOccurrence(s: string, p: nat, c: char, pat: string, rep: string, before: bool, after: bool, o: string, o': string)
    requires p + |pat| <= |s| && CleanReplacement(pat, rep, before, after) && GsubContext(s, p, c, after)
    requires o == s[p..p + |pat|] + o'
    requires p + |pat| == |s| ==> o' == ""
    requires p + |pat| < |s| ==>
      |o'| > 0 && o'[0] == if OccursAt(s, p + |pat|, pat, before, after) then rep[0] else s[p + |pat|]
    ensures OccursAt([c] + o, 1, pat, before, after) ==> OccursAt(s, p, pat, before, after)
  {
    var n := |pat|;
    var t := [c] + o;
    if OccursAt(t, 1, pat, before, after) {
      assert s[p..p + n] == t[1..1 + n];
      assert t[1] == s[p] && t[n] == s[p + n - 1];
      if p + n < |s| {
        assert t[1 + n] == o'[0];
      }
    }
  }

  /** A clean `gsub` leaves no occurrence of its pattern in its output. */
  lemma GsubNoneLeft(s: string, pat: string, rep: string, before: bool, after: bool)
    requires CleanReplacement(pat, rep, before, after)
    ensures forall q :: !OccursAt(Gsub(s, pat, rep, before, after), q, pat, before, after)
  {
    GsubFromNoneLeft(s, 0, ' ', pat, rep, before, after);
    assert NoneAfter([' '] + Gsub(s, pat, rep, before, after), pat, before, after);
    forall q ensures !OccursAt(Gsub(s, pat, rep, before, after), q, pat, before, after) {
      OccursShift([' '], Gsub(s, pat, rep, before, after), q, pat, before, after);
    }
  }

  /** `sub` of a literal, optionally `\b`-anchored, pattern: only the first occurrence at or after p. */
  function SubFrom(s: string, p: nat, pat: string, rep: string, before: bool, after: bool): (r: string)
    requires p <= |s| && |pat| > 0
    ensures (forall q :: p <= q < |s| ==> !OccursAt(s, q, pat, before, after)) ==> r == s
    ensures forall q :: p <= q < |s| && OccursAt(s, q, pat, before, after) && (forall q' :: p <= q' < q ==> !OccursAt(s, q', pat, before, after))
              ==> r == s[..q] + rep + s[q + |pat|..]
    decreases |s| - p
  {
    if p == |s| then s
    else if OccursAt(s, p, pat, before, after) then s[..p] + rep + s[p + |pat|..]
    else SubFrom(s, p + 1, pat, rep, before, after)
  }

  function Sub(s: string, pat: string, rep: string, before: bool, after: bool): string
    requires |pat| > 0
  {
    SubFrom(s, 0, pat, rep, before, after)
  }
}
