/**
 * `format_response`: the tab-separated result of the `EXPLAIN` statements becomes one
 * aligned table. Only the first `id ...` header line is kept, every other line is
 * labelled `[i]` with the number of the statement it belongs to, columns are padded to
 * their widest cell, and sentinels are replaced by plain text or by escape sequences.
 */
module Formatter {
  import opened Wrappers
  import opened Text
  import opened Settings

  // ------------------------------------------------------------ rows

  /** `l =~ /^id\b/`. */
  predicate IsHeader(l: string) {
    |l| >= 2 && l[0] == 'i' && l[1] == 'd' && Boundary(l, 2)
  }

  /** The compact header: `id` becomes `#` and four column names their abbreviations. */
  function Abbreviate(l: string): string
    requires IsHeader(l)
  {
    var a := "#" + l[2..];
    var b := Sub(a, "select_type", "sel.", true, true);
    var c := Sub(b, "partitions", "p.", true, true);
    var d := Sub(c, "key_len", "k.", true, true);
    Sub(d, "filtered", "f.", true, true)
  }

  /** `l.chomp.split("\t")`. */
  function Cells(l: string): seq<string> {
    Split(Chomp(l), "\t")
  }

  /** The kept header: an empty label cell, then the header's cells. */
  function HeaderRow(l: string, compact: bool): seq<string>
    requires IsHeader(l)
  {
    [""] + Cells(if compact then Abbreviate(l) else l)
  }

  /** The compact data line: whole-word `NULL`, `Using ` after a boundary, and a whole `.00` become sentinels. */
  function Compactify(l: string): string {
    var a := Gsub(l, "NULL", "\0\0", true, true);
    var b := Gsub(a, "Using ", "\U{1}", true, false);
    Gsub(b, ".00", "\U{2}", true, true)
  }

  /** Each replacement of the compact form leaves no occurrence of its own pattern in the text it produces. */
  lemma CompactifyRemoves(l: string)
    ensures var a := Gsub(l, "NULL", "\0\0", true, true);
      forall q :: !OccursAt(a, q, "NULL", true, true)
    ensures var b := Gsub(Gsub(l, "NULL", "\0\0", true, true), "Using ", "\U{1}", true, false);
      forall q :: !OccursAt(b, q, "Using ", true, false)
    ensures forall q :: !OccursAt(Compactify(l), q, ".00", true, true)
  {
    var a := Gsub(l, "NULL", "\0\0", true, true);
    var b := Gsub(a, "Using ", "\U{1}", true, false);
    assert CleanReplacement("NULL", "\0\0", true, true);
    assert CleanReplacement("Using ", "\U{1}", true, false);
    assert CleanReplacement(".00", "\U{2}", true, true);
    GsubNoneLeft(l, "NULL", "\0\0", true, true);
    GsubNoneLeft(a, "Using ", "\U{1}", true, false);
    GsubNoneLeft(b, ".00", "\U{2}", true, true);
  }

  /** A data line: the label `[i]`, then its cells. */
  function DataRow(l: string, i: int, compact: bool): seq<string> {
    ["[" + IntToString(i) + "]"] + Cells(if compact then Compactify(l) else l)
  }

  /** How many of the first k lines are headers. */
  function HeadersBefore(ls: seq<string>, k: nat): nat
    requires k <= |ls|
  {
    if k == 0 then 0 else HeadersBefore(ls, k - 1) + (if IsHeader(ls[k - 1]) then 1 else 0)
  }

  /**
   * The block of `res.lines.map` for line k, the counter `i` standing at the number of
   * headers before it minus one: a header yields a row only while it is the first one.
   */
  function LineRow(ls: seq<string>, k: nat, compact: bool): Option<seq<string>>
    requires k < |ls|
  {
    var i := HeadersBefore(ls, k) - 1;
    if IsHeader(ls[k]) then (if i + 1 == 0 then Some(HeaderRow(ls[k], compact)) else None)
    else Some(DataRow(ls[k], i, compact))
  }

  /**
   * The table of `format_response` built from the first k lines: `map` yields a row or nil
   * per line and `compact` drops the nils, so one row per line that is not a repeated header.
   */
  function TableUpTo(ls: seq<string>, k: nat, compact: bool): (t: seq<seq<string>>)
    requires k <= |ls|
    ensures |t| <= k
  {
    if k == 0 then []
    else
      var o := LineRow(ls, k - 1, compact);
      TableUpTo(ls, k - 1, compact) + (if o.Some? then [o.value] else [])
  }

  function Table(ls: seq<string>, compact: bool): seq<seq<string>> {
    TableUpTo(ls, |ls|, compact)
  }

  /** The block of `res.lines.map` for line k: it moves the counter on at a header and yields the row or nil. */
  method LineStep(ls: seq<string>, k: nat, i: int, compact: bool) returns (row: Option<seq<string>>, i': int)
    requires k < |ls| && i == HeadersBefore(ls, k) - 1
    ensures row == LineRow(ls, k, compact)
    ensures TableUpTo(ls, k + 1, compact) == TableUpTo(ls, k, compact) + (if row.Some? then [row.value] else [])
    ensures i' == HeadersBefore(ls, k + 1) - 1
  {
    var l := ls[k];
    i' := i;
    if IsHeader(l) {
      i' := i + 1;
      row := if i' == 0 then Some(HeaderRow(l, compact)) else None;
    } else {
      row := Some(DataRow(l, i, compact));
    }
  }

  /** The `map` over the lines with its counter `i`, then `compact`. */
  method BuildTable(ls: seq<string>, compact: bool) returns (table: seq<seq<string>>)
    ensures table == Table(ls, compact)
  {
    var i := -1;
    table := [];
    var k := 0;
    while k < |ls|
      invariant k <= |ls|
      invariant i == HeadersBefore(ls, k) - 1
      invariant table == TableUpTo(ls, k, compact)
    {
      var row;
      row, i := LineStep(ls, k, i, compact);
      if row.Some? {
        table := table + [row.value];
      }
      k := k + 1;
    }
  }

  /** No header before line k exactly when the count of headers before it is zero. */
  lemma {:induction false} HeadersBeforeZero(ls: seq<string>, k: nat)
    requires k <= |ls|
    ensures HeadersBefore(ls, k) == 0 <==> forall j :: 0 <= j < k ==> !IsHeader(ls[j])
  {
    if k > 0 {
      HeadersBeforeZero(ls, k - 1);
    }
  }

  /** A header line yields a row, with an empty label cell, exactly when no header came before it. */
  lemma FirstHeaderOnly(ls: seq<string>, k: nat, compact: bool)
    requires k < |ls| && IsHeader(ls[k])
    ensures LineRow(ls, k, compact).Some? <==> forall j :: 0 <= j < k ==> !IsHeader(ls[j])
    ensures LineRow(ls, k, compact).Some? ==> LineRow(ls, k, compact).value[0] == ""
  {
    HeadersBeforeZero(ls, k);
  }

  /** Every other line yields a row labelled with the number of headers before it minus one. */
  lemma DataLabel(ls: seq<string>, k: nat, compact: bool)
    requires k < |ls| && !IsHeader(ls[k])
    ensures LineRow(ls, k, compact).Some?
    ensures LineRow(ls, k, compact).value[0] == "[" + IntToString(HeadersBefore(ls, k) - 1) + "]"
  {
  }

  /** Lines before any header are labelled `[-1]`. */
  lemma LabelBeforeHeaders(ls: seq<string>, k: nat, compact: bool)
    requires k < |ls| && !IsHeader(ls[k])
    requires forall j :: 0 <= j < k ==> !IsHeader(ls[j])
    ensures LineRow(ls, k, compact) == Some(DataRow(ls[k], -1, compact))
    ensures DataRow(ls[k], -1, compact)[0] == "[-1]"
  {
    HeadersBeforeZero(ls, k);
    assert NatToString(1) == "1";
  }

  /** The table is empty exactly when there are no lines, and no row is empty. */
  lemma {:induction false} TableShape(ls: seq<string>, k: nat, compact: bool)
    requires k <= |ls|
    ensures TableUpTo(ls, k, compact) == [] <==> k == 0
    ensures forall r :: 0 <= r < |TableUpTo(ls, k, compact)| ==> |TableUpTo(ls, k, compact)[r]| >= 1
  {
    if k > 0 {
      TableShape(ls, k - 1, compact);
      LineRowShape(ls, k - 1, compact);
    }
  }

  /** A line's row is never empty, and the first line always yields one. */
  lemma LineRowShape(ls: seq<string>, k: nat, compact: bool)
    requires k < |ls|
    ensures LineRow(ls, k, compact).Some? ==> |LineRow(ls, k, compact).value| >= 1
    ensures k == 0 ==> LineRow(ls, k, compact).Some?
  {
    if k == 0 {
      assert HeadersBefore(ls, 0) == 0;
    }
  }

  // ------------------------------------------------------------ columns

  /** `map(&:size).max`: the length of the longest row. */
  function MaxLen(t: seq<seq<string>>): (n: nat)
    ensures forall r :: 0 <= r < |t| ==> |t[r]| <= n
    ensures t != [] ==> exists r :: 0 <= r < |t| && |t[r]| == n
    decreases |t|
  {
    if t == [] then 0
    else
      var m := MaxLen(t[1..]);
      assert forall r :: 1 <= r < |t| ==> t[r] == t[1..][r - 1];
      if |t[0]| >= m then |t[0]| else m
  }

  /** `Array.new(nil)` raises when the table has no rows. */
  datatype FormatError = NoRows

  /** Cell i of row j, or nil where the row is shorter: `e[i]`. */
  function CellAt(row: seq<string>, i: nat): Option<string> {
    if i < |row| then Some(row[i]) else None
  }

  /** `Array#soft_transpose`: one column per position of the longest row, holding every row's cell there. */
  function SoftTranspose(t: seq<seq<string>>): (r: Result<seq<seq<Option<string>>>, FormatError>)
    ensures r.Err? <==> t == []
    ensures r.Ok? ==> |r.value| == MaxLen(t)
    ensures r.Ok? ==> forall i :: 0 <= i < |r.value| ==> |r.value[i]| == |t|
    ensures r.Ok? ==> forall i, j :: 0 <= i < |r.value| && 0 <= j < |t| ==> r.value[i][j] == CellAt(t[j], i)
  {
    if t == [] then Err(NoRows)
    else Ok(seq(MaxLen(t), i requires 0 <= i => seq(|t|, j requires 0 <= j < |t| => CellAt(t[j], i))))
  }

  /** `Array#compact`: the values, nils dropped, in order. */
  function Somes<T>(xs: seq<Option<T>>): (r: seq<T>)
    ensures |r| <= |xs|
    decreases |xs|
  {
    if xs == [] then []
    else (if xs[0].Some? then [xs[0].value] else []) + Somes(xs[1..])
  }

  /** Present values followed only by nils: `compact` keeps exactly the present prefix. */
  lemma {:induction false} SomesPrefix<T>(xs: seq<Option<T>>, n: nat)
    requires n <= |xs|
    requires forall i :: 0 <= i < n ==> xs[i].Some?
    requires forall i :: n <= i < |xs| ==> xs[i].None?
    ensures Somes(xs) == seq(n, i requires 0 <= i < n => xs[i].value)
    decreases |xs|
  {
    if xs != [] {
      if n == 0 {
        SomesPrefix(xs[1..], 0);
      } else {
        SomesPrefix(xs[1..], n - 1);
      }
    }
  }

  /** The row made of column after column at position j, nils dropped. */
  function RowOf(cols: seq<seq<Option<string>>>, j: nat): seq<string>
    requires forall i :: 0 <= i < |cols| ==> j < |cols[i]|
  {
    Somes(seq(|cols|, i requires 0 <= i < |cols| => cols[i][j]))
  }

  /** Reading the soft transpose back row by row, dropping its nils, gives the table again. */
  lemma SoftTransposeRoundTrip(t: seq<seq<string>>, j: nat)
    requires t != [] && j < |t|
    ensures forall i :: 0 <= i < |SoftTranspose(t).value| ==> j < |SoftTranspose(t).value[i]|
    ensures RowOf(SoftTranspose(t).value, j) == t[j]
  {
    var cols := SoftTranspose(t).value;
    var xs := seq(|cols|, i requires 0 <= i < |cols| => cols[i][j]);
    SomesPrefix(xs, |t[j]|);
  }

  /** `col.compact.map(&:size).max`: the length of the longest cell present in the column. */
  function ColumnWidth(col: seq<Option<string>>): (w: nat)
    ensures forall j :: 0 <= j < |col| && col[j].Some? ==> |col[j].value| <= w
    ensures (exists j :: 0 <= j < |col| && col[j].Some?) ==> exists j :: 0 <= j < |col| && col[j].Some? && |col[j].value| == w
    ensures (forall j :: 0 <= j < |col| ==> col[j].None?) ==> w == 0
    decreases |col|
  {
    if col == [] then 0
    else
      var m := ColumnWidth(col[1..]);
      assert forall j :: 1 <= j < |col| ==> col[j] == col[1..][j - 1];
      assert forall j :: 0 <= j < |col| - 1 ==> col[1..][j] == col[j + 1];
      if col[0].Some? && |col[0].value| >= m then |col[0].value| else m
  }

  function Widths(cols: seq<seq<Option<string>>>): (sizes: seq<nat>)
    ensures |sizes| == |cols| && forall i :: 0 <= i < |cols| ==> sizes[i] == ColumnWidth(cols[i])
  {
    seq(|cols|, i requires 0 <= i < |cols| => ColumnWidth(cols[i]))
  }

  /** No cell is wider than its column. */
  lemma CellFits(t: seq<seq<string>>, r: nat, i: nat)
    requires t != [] && r < |t| && i < |t[r]|
    ensures i < |Widths(SoftTranspose(t).value)| && |t[r][i]| <= Widths(SoftTranspose(t).value)[i]
  {
    var col := SoftTranspose(t).value[i];
    assert col[r] == CellAt(t[r], i);
  }

  /**
   * Some cell of every column is exactly as wide as the column (so no column is all nil,
   * and `max` never yields nil).
   */
  lemma WidthAttained(t: seq<seq<string>>, i: nat)
    requires t != [] && i < MaxLen(t)
    ensures exists r :: 0 <= r < |t| && i < |t[r]| && |t[r][i]| == Widths(SoftTranspose(t).value)[i]
  {
    var col := SoftTranspose(t).value[i];
    var r0 :| 0 <= r0 < |t| && |t[r0]| == MaxLen(t);
    assert col[r0].Some?;
    var r :| 0 <= r < |col| && col[r].Some? && |col[r].value| == ColumnWidth(col);
    assert col[r] == CellAt(t[r], i);
  }

  // ------------------------------------------------------------ alignment

  /** `row.zip(sizes).map { |c, s| c.ljust s }`. */
  function PaddedCells(row: seq<string>, sizes: seq<nat>): (ps: seq<string>)
    requires |row| <= |sizes|
    ensures |ps| == |row| && forall j :: 0 <= j < |row| ==> ps[j] == Ljust(row[j], sizes[j])
  {
    seq(|row|, j requires 0 <= j < |row| => Ljust(row[j], sizes[j]))
  }

  /** The padded cells joined with single spaces, before `rstrip`. */
  function Padded(row: seq<string>, sizes: seq<nat>): string
    requires |row| <= |sizes|
  {
    Join(PaddedCells(row, sizes), " ")
  }

  /** One line of the aligned table. */
  function AlignRow(row: seq<string>, sizes: seq<nat>): (l: string)
    requires |row| <= |sizes|
    ensures |l| <= |Padded(row, sizes)| && l == Padded(row, sizes)[..|l|]
    ensures forall k :: |l| <= k < |Padded(row, sizes)| ==> IsStrippable(Padded(row, sizes)[k])
  {
    Rstrip(Padded(row, sizes))
  }

  /** Where cell j starts in a padded row: the widths of the cells before it, each with its space. */
  function Offset(sizes: seq<nat>, j: nat): nat
    requires j <= |sizes|
  {
    if j == 0 then 0 else Offset(sizes, j - 1) + sizes[j - 1] + 1
  }

  lemma {:induction false} OffsetShift(sizes: seq<nat>, j: nat)
    requires 1 <= j <= |sizes|
    ensures Offset(sizes, j) == sizes[0] + 1 + Offset(sizes[1..], j - 1)
  {
    if j > 1 {
      OffsetShift(sizes, j - 1);
    }
  }

  /** Pieces of the given widths joined with spaces: piece j sits at Offset(sizes, j). */
  lemma {:induction false} JoinAt(xs: seq<string>, sizes: seq<nat>, j: nat)
    requires |xs| <= |sizes| && j < |xs|
    requires forall k :: 0 <= k < |xs| ==> |xs[k]| == sizes[k]
    ensures Offset(sizes, j) + sizes[j] <= |Join(xs, " ")|
    ensures Join(xs, " ")[Offset(sizes, j)..Offset(sizes, j) + sizes[j]] == xs[j]
    decreases |xs|
  {
    JoinCons(xs[0], xs[1..], " ");
    assert [xs[0]] + xs[1..] == xs;
    if j > 0 {
      JoinAt(xs[1..], sizes[1..], j - 1);
      OffsetShift(sizes, j);
      JoinAtShift(xs[0], Join(xs[1..], " "), Offset(sizes[1..], j - 1), xs[j]);
    }
  }

  /** A stretch of the rest of a join sits one piece and one space further on in the join. */
  lemma JoinAtShift(x: string, rest: string, o: nat, w: string)
    requires o + |w| <= |rest| && rest[o..o + |w|] == w
    ensures |x| + 1 + o + |w| <= |x + " " + rest|
    ensures (x + " " + rest)[|x| + 1 + o..|x| + 1 + o + |w|] == w
  {
    Shifted(x + " ", rest, o, o + |w|);
  }

  /** Between piece j and piece j + 1 the join puts its space. */
  lemma {:induction false} JoinSpaceAt(xs: seq<string>, sizes: seq<nat>, j: nat)
    requires |xs| <= |sizes| && j + 1 < |xs|
    requires forall k :: 0 <= k < |xs| ==> |xs[k]| == sizes[k]
    ensures Offset(sizes, j) + sizes[j] < |Join(xs, " ")|
    ensures Join(xs, " ")[Offset(sizes, j) + sizes[j]] == ' '
    decreases |xs|
  {
    var pre, rest := xs[0] + " ", Join(xs[1..], " ");
    JoinCons(xs[0], xs[1..], " ");
    HeadTail(xs);
    assert Join(xs, " ") == pre + rest;
    if j == 0 {
      assert pre[|xs[0]|] == ' ';
    } else {
      JoinSpaceAt(xs[1..], sizes[1..], j - 1);
      OffsetShift(sizes, j);
      IndexRight(pre, rest, Offset(sizes[1..], j - 1) + sizes[j]);
    }
  }

  lemma Shifted(a: string, b: string, i: nat, k: nat)
    requires i <= k <= |b|
    ensures (a + b)[|a| + i..|a| + k] == b[i..k]
  {
  }

  /** Text x sits at offset o of line p, followed by spaces up to width w. */
  predicate PaddedAt(p: string, o: nat, x: string, w: nat) {
    |x| <= w && o + w <= |p| && p[o..o + |x|] == x && forall k :: o + |x| <= k < o + w ==> p[k] == ' '
  }

  /**
   * Cells that fit their widths are aligned: cell j of any row starts at Offset(sizes, j)
   * and is padded with spaces to its column's width, then a space separates it from the next.
   */
  lemma Aligned(row: seq<string>, sizes: seq<nat>, j: nat)
    requires |row| <= |sizes| && j < |row|
    requires forall k :: 0 <= k < |row| ==> |row[k]| <= sizes[k]
    ensures PaddedAt(Padded(row, sizes), Offset(sizes, j), row[j], sizes[j])
    ensures j + 1 < |row| ==>
      Offset(sizes, j) + sizes[j] < |Padded(row, sizes)| && Padded(row, sizes)[Offset(sizes, j) + sizes[j]] == ' '
  {
    var ps, p, o := PaddedCells(row, sizes), Padded(row, sizes), Offset(sizes, j);
    assert PaddedAt(p, o, row[j], sizes[j]) by {
      JoinAt(ps, sizes, j);
      LjustAt(p, o, row[j], sizes[j]);
    }
    if j + 1 < |row| {
      JoinSpaceAt(ps, sizes, j);
    }
  }

  /**
   * In the table as built, every present cell fits its column's width, so cell j of row r
   * starts at the same offset Offset(sizes, j) in every row that has a cell j.
   */
  lemma TableAligned(t: seq<seq<string>>, sizes: seq<nat>, r: nat, j: nat)
    requires t != [] && sizes == Widths(SoftTranspose(t).value)
    requires r < |t| && j < |t[r]|
    ensures |t[r]| <= |sizes|
    ensures PaddedAt(Padded(t[r], sizes), Offset(sizes, j), t[r][j], sizes[j])
  {
    var row := t[r];
    assert |row| <= |sizes| && forall k :: 0 <= k < |row| ==> |row[k]| <= sizes[k] by {
      RowFits(t, r, sizes);
    }
    Aligned(row, sizes, j);
  }

  lemma RowFits(t: seq<seq<string>>, r: nat, sizes: seq<nat>)
    requires t != [] && r < |t| && sizes == Widths(SoftTranspose(t).value)
    ensures |t[r]| <= |sizes| && forall k :: 0 <= k < |t[r]| ==> |t[r][k]| <= sizes[k]
  {
    forall k | 0 <= k < |t[r]| ensures |t[r][k]| <= sizes[k] {
      CellFits(t, r, k);
    }
  }

  /** A cell padded with Ljust and found at offset o of a line sits there, padded. */
  lemma LjustAt(p: string, o: nat, c: string, w: nat)
    requires |c| <= w && o + w <= |p| && p[o..o + w] == Ljust(c, w)
    ensures PaddedAt(p, o, c, w)
  {
    SliceOf(p, o, Ljust(c, w), |c|);
  }

  lemma SliceOf(p: string, o: nat, x: string, n: nat)
    requires o + |x| <= |p| && p[o..o + |x|] == x && n <= |x|
    ensures p[o..o + n] == x[..n]
    ensures forall k :: o <= k < o + |x| ==> p[k] == x[k - o]
  {
    assert forall k :: o <= k < o + |x| ==> p[o..o + |x|][k - o] == p[k];
  }

  /**
   * `rstrip` also removes NUL characters, so a NULL that compact mode turned into the
   * sentinel "\0\0" in a row's last cell disappears with the padding before the stages
   * could render it as `--`.
   */
  lemma TrailingNullDropped(row: seq<string>, sizes: seq<nat>)
    requires row != [] && |row| < |sizes|
    ensures AlignRow(row + ["\0\0"], sizes) == AlignRow(row, sizes)
  {
    var x := Ljust("\0\0", sizes[|row|]);
    assert PaddedCells(row + ["\0\0"], sizes) == PaddedCells(row, sizes) + [x];
    JoinSnoc(PaddedCells(row, sizes), x, " ");
    assert Padded(row + ["\0\0"], sizes) == Padded(row, sizes) + (" " + x);
    assert forall k :: 0 <= k < |x| ==> (" " + x)[k + 1] == x[k];
    RstripAppend(Padded(row, sizes), " " + x);
  }

  // ------------------------------------------------------------ output stages

  /** The key printed above a compact table; its sentinels are replaced like the table's. */
  const Legend: string :=
    "#: id, sel.: select_type, p.: partitions, k.: key_len, f.: filtered; " +
    "\0\0: NULL, \U{1}: Using, \U{2}: .00\n\n"

  const Red: string := "\U{1B}[1;31m"
  const Gray: string := "\U{1B}[90m"
  const Cyan: string := "\U{1B}[36m"
  const Reset: string := "\U{1B}[0m"

  /** Without color the sentinels become `--`, `U` and `/`. */
  function PlainStage(u: string): string {
    var a := Gsub(u, "\0\0", "--", false, false);
    var b := Gsub(a, "\U{1}", "U", false, false);
    Gsub(b, "\U{2}", "/", false, false)
  }

  /**
   * The plain stage keeps the length, every newline, and every character other than NUL and
   * the sentinels in its place, so the alignment survives it.
   */
  lemma PlainKeepsLayout(u: string)
    ensures |PlainStage(u)| == |u|
    ensures forall i :: 0 <= i < |u| ==> (PlainStage(u)[i] == '\n' <==> u[i] == '\n')
    ensures forall i :: 0 <= i < |u| && u[i] != '\0' && u[i] != '\U{1}' && u[i] != '\U{2}' ==> PlainStage(u)[i] == u[i]
  {
    var a := Gsub(u, "\0\0", "--", false, false);
    var b := Gsub(a, "\U{1}", "U", false, false);
    GsubFromKeepsLayout(u, 0, "\0\0", "--", false, false);
    GsubFromKeepsLayout(a, 0, "\U{1}", "U", false, false);
    GsubFromKeepsLayout(b, 0, "\U{2}", "/", false, false);
    PlainKeepsOthers(u);
  }

  /** Each replacement of the plain stage keeps every character other than its own pattern's. */
  lemma PlainKeepsOthers(u: string)
    ensures |PlainStage(u)| == |u|
    ensures forall i :: 0 <= i < |u| && u[i] != '\0' && u[i] != '\U{1}' && u[i] != '\U{2}' ==> PlainStage(u)[i] == u[i]
  {
    var a := Gsub(u, "\0\0", "--", false, false);
    var b := Gsub(a, "\U{1}", "U", false, false);
    GsubFromKeepsOthers(u, 0, "\0\0", "--", false, false);
    GsubFromKeepsOthers(a, 0, "\U{1}", "U", false, false);
    GsubFromKeepsOthers(b, 0, "\U{2}", "/", false, false);
    forall i | 0 <= i < |u| && u[i] != '\0' && u[i] != '\U{1}' && u[i] != '\U{2}' ensures PlainStage(u)[i] == u[i] {
      assert Excludes("\0\0", u[i]);
      assert Excludes("\U{1}", u[i]) && Excludes("\U{2}", u[i]);
    }
  }

  /** No `\1` or `\2` sentinel is left in the plain output. */
  lemma PlainDropsSentinels(u: string)
    ensures Excludes(PlainStage(u), '\U{1}') && Excludes(PlainStage(u), '\U{2}')
  {
    var a := Gsub(u, "\0\0", "--", false, false);
    var b := Gsub(a, "\U{1}", "U", false, false);
    assert "\U{1}" == ['\U{1}'] && "\U{2}" == ['\U{2}'];
    GsubFromRemoves(a, 0, '\U{1}', "U");
    GsubFromExcludes(b, 0, "\U{2}", "/", false, false, '\U{1}');
    GsubFromRemoves(b, 0, '\U{2}', "/");
  }

  /** `(\S++ ++){n}` from i: the position after n fields, each followed by literal spaces. */
  function SkipFields(l: string, i: nat, n: nat): (r: Option<nat>)
    requires i <= |l|
    ensures r.Some? ==> i + 2 * n <= r.value <= |l|
    decreases n
  {
    if n == 0 then Some(i)
    else
      var f := Run(l, i, NonSpace);
      var b := Run(l, i + f, Blank);
      if f == 0 || b == 0 then None else SkipFields(l, i + f + b, n - 1)
  }

  /**
   * The match of the key highlight can start at k, inside the seventh field [q, e): a word
   * starts there after `\b`, and after the field and its spaces the eighth field starts with
   * the same word, followed by `\b`.
   */
  predicate Qualifies(l: string, q: nat, e: nat, k: nat)
    requires q <= e <= |l|
  {
    && q <= k < e && IsWord(l[k]) && Boundary(l, k)
    && var w := Run(l, k, Word);
    && var g := e + Run(l, e, Blank);
    && g > e && g + w <= |l| && l[g..g + w] == l[k..k + w] && Boundary(l, g + w)
  }

  /** No start in [a, j) qualifies. */
  predicate NoneQualifies(l: string, q: nat, e: nat, a: nat, j: nat)
    requires q <= e <= |l| && a <= j
    decreases j - a
  {
    a == j || (!Qualifies(l, q, e, j - 1) && NoneQualifies(l, q, e, a, j - 1))
  }

  lemma {:induction false} NoneQualifiesAll(l: string, q: nat, e: nat, a: nat, j: nat)
    requires q <= e <= |l| && a <= j && NoneQualifies(l, q, e, a, j)
    ensures forall k :: a <= k < j ==> !Qualifies(l, q, e, k)
    decreases j - a
  {
    if a < j {
      NoneQualifiesAll(l, q, e, a, j - 1);
    }
  }

  /** The backtracking of `\S*`: the last qualifying start below j, scanning down to q. */
  function LastQualifying(l: string, q: nat, e: nat, j: nat): (r: Option<nat>)
    requires q <= j <= e <= |l|
    ensures r.Some? ==> q <= r.value < j && Qualifies(l, q, e, r.value) && NoneQualifies(l, q, e, r.value + 1, j)
    ensures r.None? ==> NoneQualifies(l, q, e, q, j)
    decreases j - q
  {
    if j == q then None
    else if Qualifies(l, q, e, j - 1) then Some(j - 1)
    else LastQualifying(l, q, e, j - 1)
  }

  /** LastQualifying finds the rightmost qualifying start below j, and none when there is none. */
  lemma LastQualifyingRightmost(l: string, q: nat, e: nat, j: nat)
    requires q <= j <= e <= |l|
    ensures match LastQualifying(l, q, e, j)
      case Some(k) => q <= k < j && Qualifies(l, q, e, k) && forall k' :: k < k' < j ==> !Qualifies(l, q, e, k')
      case None => forall k :: q <= k < j ==> !Qualifies(l, q, e, k)
  {
    match LastQualifying(l, q, e, j)
    case Some(k) => NoneQualifiesAll(l, q, e, k + 1, j);
    case None => NoneQualifiesAll(l, q, e, q, j);
  }

  /** The seventh field of a line that has six spaced fields before it. */
  function Field7(l: string): Option<(nat, nat)> {
    match SkipFields(l, 0, 6)
    case None => None
    case Some(q) => Some((q, q + Run(l, q, NonSpace)))
  }

  /** k is where the key highlight matches: the rightmost qualifying start in the seventh field. */
  predicate HighlightAt(l: string, k: nat) {
    && Field7(l).Some?
    && var (q, e) := Field7(l).value;
    && e <= |l| && Qualifies(l, q, e, k) && forall k' :: k < k' < e ==> !Qualifies(l, q, e, k')
  }

  /** The word at k wrapped in cyan. */
  function Wrap(l: string, k: nat): string
    requires k <= |l|
  {
    var w := Run(l, k, Word);
    l[..k] + Cyan + l[k..k + w] + Reset + l[k + w..]
  }

  /**
   * `gsub(/^(\S++ ++){6}\S*\b\K(\w++)\b(?=\S*+ ++\2\b)/, ...)` on one line: the rightmost word
   * of the seventh field that also starts the eighth is wrapped in cyan; without one the line
   * is unchanged. (`^` allows at most one match per line.)
   */
  function HighlightLine(l: string): (r: string)
    ensures forall k :: HighlightAt(l, k) ==> r == Wrap(l, k)
    ensures (forall k :: !HighlightAt(l, k)) ==> r == l
  {
    match Field7(l)
    case None => l
    case Some((q, e)) =>
      LastQualifyingRightmost(l, q, e, e);
      match LastQualifying(l, q, e, e)
      case None => l
      case Some(k) =>
        assert HighlightAt(l, k);
        assert forall k' :: HighlightAt(l, k') ==> k' == k;
        Wrap(l, k)
  }

  function HighlightLines(ls: seq<string>): (hs: seq<string>)
    ensures |hs| == |ls| && forall k :: 0 <= k < |ls| ==> hs[k] == HighlightLine(ls[k])
  {
    seq(|ls|, k requires 0 <= k < |ls| => HighlightLine(ls[k]))
  }

  /** With color, first the default ban `\bfilesort\b` in bold red and the sentinels as gray `--`, cyan `U` and gray `/`. */
  function ColorMarks(u: string): string {
    var a := Gsub(u, "filesort", Red + "filesort" + Reset, true, true);
    var b := Gsub(a, "\0\0", Gray + "--" + Reset, false, false);
    var c := Gsub(b, "\U{1}", Cyan + "U" + Reset, false, false);
    Gsub(c, "\U{2}", Gray + "/" + Reset, false, false)
  }

  /** Then the key highlight on every line. */
  function ColorStage(u: string): string {
    Join(HighlightLines(SplitAll(ColorMarks(u), "\n")), "\n")
  }

  /** No `\1` or `\2` sentinel is left after the color marks. */
  lemma ColorMarksDropSentinels(u: string)
    ensures Excludes(ColorMarks(u), '\U{1}') && Excludes(ColorMarks(u), '\U{2}')
  {
    var a := Gsub(u, "filesort", Red + "filesort" + Reset, true, true);
    var b := Gsub(a, "\0\0", Gray + "--" + Reset, false, false);
    var c := Gsub(b, "\U{1}", Cyan + "U" + Reset, false, false);
    assert "\U{1}" == ['\U{1}'] && "\U{2}" == ['\U{2}'];
    GsubFromRemoves(b, 0, '\U{1}', Cyan + "U" + Reset);
    GsubFromExcludes(c, 0, "\U{2}", Gray + "/" + Reset, false, false, '\U{1}');
    GsubFromRemoves(c, 0, '\U{2}', Gray + "/" + Reset);
  }

  /** Wrapping a word in cyan brings in no character that the line and the color codes lack. */
  lemma WrapExcludes(l: string, k: nat, ch: char)
    requires k <= |l| && Excludes(l, ch) && Excludes(Cyan, ch) && Excludes(Reset, ch)
    ensures Excludes(Wrap(l, k), ch)
  {
    var w := Run(l, k, Word);
    ExcludesAppend(l[..k], Cyan, ch);
    ExcludesAppend(l[..k] + Cyan, l[k..k + w], ch);
    ExcludesAppend(l[..k] + Cyan + l[k..k + w], Reset, ch);
    ExcludesAppend(l[..k] + Cyan + l[k..k + w] + Reset, l[k + w..], ch);
  }

  lemma HighlightLineExcludes(l: string, ch: char)
    requires Excludes(l, ch) && Excludes(Cyan, ch) && Excludes(Reset, ch)
    ensures Excludes(HighlightLine(l), ch)
  {
    match Field7(l)
    case None =>
    case Some((q, e)) =>
      match LastQualifying(l, q, e, e)
      case None =>
      case Some(k) => WrapExcludes(l, k, ch);
  }

  /** The highlight keeps every line free of the characters that its input line and the color codes are free of. */
  lemma HighlightLinesExclude(d: string, ch: char)
    requires Excludes(d, ch) && ch != '\n' && Excludes(Cyan, ch) && Excludes(Reset, ch)
    ensures Excludes(Join(HighlightLines(SplitAll(d, "\n")), "\n"), ch)
  {
    var ls := SplitAll(d, "\n");
    JoinSplitAll(d, "\n");
    JoinExcludes(ls, "\n", ch);
    forall k | 0 <= k < |ls| ensures Excludes(HighlightLines(ls)[k], ch) {
      HighlightLineExcludes(ls[k], ch);
    }
    JoinExcludes(HighlightLines(ls), "\n", ch);
  }

  /** The color codes of the highlight hold neither sentinel nor a newline. */
  lemma CodesExclude(ch: char)
    requires ch == '\U{1}' || ch == '\U{2}' || ch == '\n'
    ensures Excludes(Cyan, ch) && Excludes(Reset, ch)
  {
  }

  /** No `\1` or `\2` sentinel is left in the colored output. */
  lemma ColorDropsSentinels(u: string)
    ensures Excludes(ColorStage(u), '\U{1}') && Excludes(ColorStage(u), '\U{2}')
  {
    var d := ColorMarks(u);
    ColorMarksDropSentinels(u);
    CodesExclude('\U{1}');
    CodesExclude('\U{2}');
    HighlightLinesExclude(d, '\U{1}');
    HighlightLinesExclude(d, '\U{2}');
  }

  /** The lines of the colored output are the lines of the marked text, each run through the key highlight. */
  lemma ColorStageLines(u: string)
    ensures SplitAll(ColorStage(u), "\n") == HighlightLines(SplitAll(ColorMarks(u), "\n"))
  {
    var ls := SplitAll(ColorMarks(u), "\n");
    SplitAllPieces(ColorMarks(u), "\n");
    forall k | 0 <= k < |ls| ensures Excludes(HighlightLines(ls)[k], '\n') {
      PieceExcludes(ls, k, '\n');
      CodesExclude('\n');
      HighlightLineExcludes(ls[k], '\n');
    }
    assert "\n" == ['\n'];
    SplitAllJoin(HighlightLines(ls), '\n');
  }

  /** The table's lines before the stages: the aligned rows, with the legend first in compact mode. */
  function Uncolored(table: seq<seq<string>>, sizes: seq<nat>, compact: bool): string
    requires forall r :: 0 <= r < |table| ==> |table[r]| <= |sizes|
  {
    var body := Join(seq(|table|, r requires 0 <= r < |table| => AlignRow(table[r], sizes)), "\n");
    if compact then Legend + body else body
  }

  /** `format_response`: the aligned tables as text, or the error raised for an empty result. */
  function FormatResponse(conf: Config, tty: bool, res: string): (r: Result<string, FormatError>)
    reads conf
    ensures r.Err? <==> res == ""
  {
    var ls := Lines(res);
    var table := Table(ls, conf.compact);
    TableShape(ls, |ls|, conf.compact);
    match SoftTranspose(table)
    case Err(e) => Err(e)
    case Ok(cols) =>
      var u := Uncolored(table, Widths(cols), conf.compact);
      Ok(if conf.ColorEnabled(tty) then ColorStage(u) else PlainStage(u))
  }
}
