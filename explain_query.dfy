/**
 * The query-building part of `generate_explain_query`: the log text (read from standard
 * input or the named files) is cut into entries at every "\n\n"; each non-blank entry is
 * a `Count` header line followed by the statement's lines, whose placeholders are filled
 * with the entry's index as row; each statement becomes one `EXPLAIN ...;` line.
 */
module ExplainQuery {
  import opened Wrappers
  import opened Text
  import opened Settings
  import opened Placeholders

  datatype QueryError =
    | InvalidHeader(entry: string)   // `[:invalid_header, /^Count/, entry]`
    | EmptyLog                       // `[:empty_log, statements]`
    | Unfilled(cause: FillError)     // the `NoMatchingPatternError` of `fill_placeholders`

  /** `split("\n\n")`: the entries, trailing empty ones dropped, blank ones kept. */
  function Entries(input: string): seq<string> {
    Split(input, "\n\n")
  }

  /** `entry !~ /\S/`: nothing but whitespace. */
  predicate Blank(e: string) {
    forall k :: 0 <= k < |e| ==> IsSpace(e[k])
  }

  predicate StartsWith(s: string, pre: string) {
    |pre| <= |s| && s[..|pre|] == pre
  }

  /** `grep_v ''`: the lines that are not exactly empty, in order. */
  function DropEmpty(xs: seq<string>): (r: seq<string>)
    ensures forall k :: 0 <= k < |r| ==> r[k] != ""
    ensures r == [] <==> forall k :: 0 <= k < |xs| ==> xs[k] == ""
    ensures r != [] ==> exists i :: 0 <= i < |xs| && xs[i] == r[0] && forall j :: 0 <= j < i ==> xs[j] == ""
    ensures (forall k :: 0 <= k < |xs| ==> xs[k] != "") ==> r == xs
    decreases |xs|
  {
    if xs == [] then []
    else
      var rest := DropEmpty(xs[1..]);
      assert forall k :: 1 <= k < |xs| ==> xs[k] == xs[1..][k - 1];
      if xs[0] == "" then rest
      else
        assert [xs[0]] + xs[1..] == xs;
        [xs[0]] + rest
  }

  /** A single line is kept exactly when it is not empty. */
  lemma DropEmptyOne(x: string)
    ensures DropEmpty([x]) == if x == "" then [] else [x]
  {
    assert [x][1..] == [];
  }

  /** Filtering distributes over concatenation: together with DropEmptyOne this fixes DropEmpty on every input. */
  lemma {:induction false} DropEmptyAppend(xs: seq<string>, ys: seq<string>)
    ensures DropEmpty(xs + ys) == DropEmpty(xs) + DropEmpty(ys)
    decreases |xs|
  {
    if xs == [] {
      assert xs + ys == ys;
    } else {
      assert (xs + ys)[0] == xs[0];
      assert (xs + ys)[1..] == xs[1..] + ys;
      DropEmptyAppend(xs[1..], ys);
      if xs[0] != "" {
        assert [xs[0]] + (DropEmpty(xs[1..]) + DropEmpty(ys)) == ([xs[0]] + DropEmpty(xs[1..])) + DropEmpty(ys);
      }
    }
  }

  /** `entry.lines(chomp: true).grep_v ''`. */
  function ContentLines(e: string): seq<string> {
    var ls := Lines(e);
    DropEmpty(seq(|ls|, k requires 0 <= k < |ls| => ChompLine(ls[k])))
  }

  /**
   * The block of `map.with_index` for one entry: nil for a blank entry; otherwise the
   * statement lines after the header joined with "" and filled for this row.
   */
  function EntryStatement(conf: Config, entry: string, row: nat): Result<Option<string>, QueryError>
    reads conf
  {
    if Blank(entry) then Ok(None)
    else
      var ls := ContentLines(entry);
      if ls == [] || !StartsWith(ls[0], "Count") then Err(InvalidHeader(entry))
      else
        match Substitute(conf, Join(ls[1..], ""), row)
        case Ok(t) => Ok(Some(t))
        case Err(e) => Err(Unfilled(e))
  }

  /** The block's result for every entry, its index in the split being its row. */
  function EntryResults(conf: Config, entries: seq<string>): (rs: seq<Result<Option<string>, QueryError>>)
    reads conf
    ensures |rs| == |entries| && forall k :: 0 <= k < |entries| ==> rs[k] == EntryStatement(conf, entries[k], k)
  {
    seq(|entries|, k reads conf requires 0 <= k < |entries| => EntryStatement(conf, entries[k], k))
  }

  /** The `map.with_index` over the entries: the first error propagates. */
  function Statements(conf: Config, entries: seq<string>): Result<seq<Option<string>>, QueryError>
    reads conf
  {
    Collect(EntryResults(conf, entries))
  }

  /** `"EXPLAIN #{stmt};".split.join ' '`; nil interpolates as nothing. */
  function ExplainLine(o: Option<string>): string {
    Collapse("EXPLAIN " + (match o case Some(t) => t case None => "") + ";")
  }

  function ExplainLines(os: seq<Option<string>>): (ls: seq<string>)
    ensures |ls| == |os| && forall k :: 0 <= k < |os| ==> ls[k] == ExplainLine(os[k])
  {
    seq(|os|, k requires 0 <= k < |os| => ExplainLine(os[k]))
  }

  /** The query `generate_explain_query` returns for the given log text, or the error it raises. */
  function GenerateExplainQuery(conf: Config, input: string): Result<string, QueryError>
    reads conf
  {
    match Statements(conf, Entries(input))
    case Err(e) => Err(e)
    case Ok(os) => if os == [] then Err(EmptyLog) else Ok(Join(ExplainLines(os), "\n"))
  }

  /** What one `puts` of a string prints: a "\n" is added unless it ends with one. */
  function PutsLine(l: string): string {
    if |l| > 0 && l[|l| - 1] == '\n' then l else l + "\n"
  }

  /** `puts query.lines.map.with_index { "[#{_2}] #{_1}" }` and then `puts`. */
  function EchoText(query: string): string {
    var ls := Lines(query);
    var out := seq(|ls|, k requires 0 <= k < |ls| => PutsLine("[" + NatToString(k) + "] " + ls[k]));
    (if out == [] then "\n" else Join(out, "")) + "\n"
  }

  /** The queries are echoed to standard output only when `output_queries?` is set. */
  function Echo(conf: Config, query: string): string
    reads conf
  {
    if conf.outputQueries then EchoText(query) else ""
  }

  /**
   * Every query line starts with `EXPLAIN ` and ends with `;`, holds single spaces between
   * words and none at either end, and so no "\n"; a blank entry's line is `EXPLAIN ;`.
   */
  lemma ExplainLineShape(o: Option<string>)
    ensures var l := ExplainLine(o);
      && StartsWith(l, "EXPLAIN ") && l[|l| - 1] == ';'
      && Collapsed(l) && Excludes(l, '\n')
    ensures o.None? ==> ExplainLine(o) == "EXPLAIN ;"
  {
    var t := " " + (match o case Some(x) => x case None => "") + ";";
    var s := "EXPLAIN " + (match o case Some(x) => x case None => "") + ";";
    assert s == "EXPLAIN" + t;
    WordsCons("EXPLAIN", t);
    CollapseLast(t);
    JoinCons("EXPLAIN", Words(t), " ");
    CollapseLast(s);
    JoinWordsCollapsed(Words(s));
    CollapsedExcludesNewline(ExplainLine(o));
    if o.None? {
      EmptyExplainLine();
    }
  }

  /** A query line has the words of `EXPLAIN `, the statement and `;`, for all its respacing. */
  lemma ExplainLineWords(o: Option<string>)
    ensures Words(ExplainLine(o)) == Words("EXPLAIN " + (match o case Some(t) => t case None => "") + ";")
  {
    CollapseWords("EXPLAIN " + (match o case Some(t) => t case None => "") + ";");
  }

  lemma EmptyExplainLine()
    ensures ExplainLine(None) == "EXPLAIN ;"
  {
    var t := " " + ";";
    assert "EXPLAIN " + "" + ";" == "EXPLAIN" + t;
    WordsCons("EXPLAIN", t);
    WordsSpaceCons(' ', ";");
    assert ";" + "" == ";";
    WordsCons(";", "");
    assert Words("") == [];
    assert Words(t) == [";"];
    JoinCons("EXPLAIN", [";"], " ");
  }

  /** An entry holding only whitespace yields nil, whatever follows in the log. */
  lemma BlankEntry(conf: Config, entry: string, row: nat)
    requires Blank(entry)
    ensures EntryStatement(conf, entry, row) == Ok(None)
    ensures ExplainLine(None) == "EXPLAIN ;"
  {
    ExplainLineShape(None);
  }

  /**
   * The query has one line per entry, in order, the k-th built from the k-th entry with
   * row k; and the query is never empty.
   */
  lemma {:induction false} QueryShape(conf: Config, input: string)
    requires GenerateExplainQuery(conf, input).Ok?
    ensures var es := Entries(input);
      && Statements(conf, es).Ok?
      && var os := Statements(conf, es).value;
      && var q := GenerateExplainQuery(conf, input).value;
      && es != [] && q != ""
      && SplitAll(q, "\n") == ExplainLines(os)
      && forall k :: 0 <= k < |es| ==> EntryStatement(conf, es[k], k) == Ok(os[k])
  {
    var es := Entries(input);
    var os := Statements(conf, es).value;
    var ls := ExplainLines(os);
    forall k | 0 <= k < |ls| ensures Excludes(ls[k], '\n') {
      ExplainLineShape(os[k]);
    }
    SplitAllJoin(ls, '\n');
    JoinCons(ls[0], ls[1..], "\n");
    assert [ls[0]] + ls[1..] == ls;
    ExplainLineShape(os[0]);
  }

  /** No entry's block raises `empty_log`: only the check after the map does. */
  lemma EntryErrors(conf: Config, entry: string, row: nat)
    ensures EntryStatement(conf, entry, row) != Err(EmptyLog)
  {
  }

  /** `empty_log` is raised exactly when splitting the log yields no entries. */
  lemma EmptyLogIff(conf: Config, input: string)
    ensures GenerateExplainQuery(conf, input) == Err(EmptyLog) <==> Entries(input) == []
  {
    var es := Entries(input);
    var rs := EntryResults(conf, es);
    var r := Collect(rs);
    if r.Err? {
      var k :| 0 <= k < |rs| && rs[k] == Err(r.error);
      EntryErrors(conf, es[k], k);
    }
  }

  /** The first entry whose block raises decides the error of the whole map. */
  lemma StatementsFirstError(conf: Config, es: seq<string>, k: nat, e: QueryError)
    requires k < |es| && EntryStatement(conf, es[k], k) == Err(e)
    requires forall i :: 0 <= i < k ==> EntryStatement(conf, es[i], i).Ok?
    ensures Statements(conf, es) == Err(e)
  {
    CollectFirstError(EntryResults(conf, es), k);
  }

  /**
   * A non-blank entry whose first non-empty line does not start with `Count` aborts the
   * whole run with `invalid_header`, unless an earlier entry already failed.
   */
  lemma InvalidHeaderAborts(conf: Config, input: string, k: nat)
    requires k < |Entries(input)|
    requires var e := Entries(input)[k];
      !Blank(e) && (ContentLines(e) == [] || !StartsWith(ContentLines(e)[0], "Count"))
    requires forall i :: 0 <= i < k ==> EntryStatement(conf, Entries(input)[i], i).Ok?
    ensures GenerateExplainQuery(conf, input) == Err(InvalidHeader(Entries(input)[k]))
  {
    StatementsFirstError(conf, Entries(input), k, InvalidHeader(Entries(input)[k]));
  }

  /** The echo prints `[k] ` before the k-th query line, one per line, then an empty line. */
  lemma {:induction false} EchoLines(ls: seq<string>)
    requires |ls| > 0 && forall k :: 0 <= k < |ls| ==> ls[k] != "" && Excludes(ls[k], '\n')
    ensures EchoText(Join(ls, "\n"))
         == Join(seq(|ls|, k requires 0 <= k < |ls| => "[" + NatToString(k) + "] " + ls[k] + "\n"), "") + "\n"
  {
    LinesOfJoin(ls);
    var lines := Lines(Join(ls, "\n"));
    var out := seq(|lines|, k requires 0 <= k < |lines| => PutsLine("[" + NatToString(k) + "] " + lines[k]));
    var want := seq(|ls|, k requires 0 <= k < |ls| => "[" + NatToString(k) + "] " + ls[k] + "\n");
    forall k | 0 <= k < |ls| ensures out[k] == want[k] {
      var pre := "[" + NatToString(k) + "] ";
      if k < |ls| - 1 {
        assert lines[k] == ls[k] + "\n";
        assert pre + lines[k] == pre + ls[k] + "\n";
      } else {
        assert lines[k] == ls[k];
        var l := pre + ls[k];
        assert l[|l| - 1] == ls[k][|ls[k]| - 1];
      }
    }
    assert out == want;
  }
}
