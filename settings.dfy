/**
 * `Config`: the replacement values for placeholders with their fallbacks,
 * the formatting switches, and the overrides keyed by (row, column).
 */
module Settings {
  import opened Wrappers
  import opened Text

  datatype ColorMode = Always | Auto | Never

  /** The color settings `color=` accepts (`COLORS`), looked up by symbol name. */
  function ColorModeNamed(name: string): Option<ColorMode> {
    if name == "always" then Some(Always)
    else if name == "auto" then Some(Auto)
    else if name == "never" then Some(Never)
    else None
  }

  class Config {
    // The writers (`v_num=`, `v_limit=`, ... `compact=`) assign these fields directly.
    var vNum: int
    var vLimit: Option<int>
    var vOffset: Option<int>
    var vStr: string
    var vLike: Option<string>
    var vUpperBound: Option<int>
    var vLowerBound: Option<int>
    var outputQueries: bool
    var compact: bool
    var color: ColorMode
    var specials: map<(int, int), string>

    constructor ()
      ensures vNum == 1 && vStr == "a%a"
      ensures vLimit == None && vOffset == None && vLike == None
      ensures vUpperBound == None && vLowerBound == None
      ensures !outputQueries && !compact && color == Auto && specials == map[]
      ensures Limit() == 1 && Offset() == 1 && Like() == "a%a"
      ensures UpperBound() == 501 && LowerBound() == 1
      ensures forall tty :: ColorEnabled(tty) == tty
    {
      vNum := 1;
      vLimit := None;
      vOffset := None;
      vStr := "a%a";
      vLike := None;
      vUpperBound := None;
      vLowerBound := None;
      outputQueries := false;
      compact := false;
      color := Auto;
      specials := map[];
    }

    function Limit(): int
      reads this
    {
      match vLimit case Some(n) => n case None => vNum
    }

    function Offset(): int
      reads this
    {
      match vOffset case Some(n) => n case None => vNum
    }

    function Like(): string
      reads this
    {
      match vLike case Some(s) => s case None => vStr
    }

    function UpperBound(): int
      reads this
    {
      match vUpperBound case Some(n) => n case None => vNum + 500
    }

    function LowerBound(): int
      reads this
    {
      match vLowerBound case Some(n) => n case None => vNum
    }

    /** `color?`, with whether standard output is a terminal passed in. */
    predicate ColorEnabled(tty: bool)
      reads this
    {
      color == Always || (color == Auto && tty)
    }

    /** `color=`: accepts only always, auto and never; anything else raises and changes nothing. */
    method SetColor(name: string) returns (ok: bool)
      modifies this`color
      ensures ok <==> name == "always" || name == "auto" || name == "never"
      ensures ok ==> Some(color) == ColorModeNamed(name)
      ensures !ok ==> color == old(color)
    {
      var mode := ColorModeNamed(name);
      ok := mode.Some?;
      if ok {
        color := mode.value;
      }
    }

    /** `special(r, c)`: the override for the c-th placeholder of row r, or nil. */
    function Special(r: int, c: int): Option<string>
      reads this
    {
      if (r, c) in specials then Some(specials[(r, c)]) else None
    }

    /** `add_special(r, c, v)`: a later value for the same key replaces the earlier one. */
    method AddSpecial(r: int, c: int, v: string)
      modifies this`specials
      ensures specials == old(specials)[(r, c) := v]
      ensures Special(r, c) == Some(v)
      ensures forall r', c' :: (r', c') != (r, c) ==> Special(r', c') == old(Special(r', c'))
    {
      specials := specials[(r, c) := v];
    }
  }

  /** Each getter returns its own value once set, and falls back on `num` or `str` while it was never set. */
  lemma Fallbacks(conf: Config)
    ensures conf.vLimit == None ==> conf.Limit() == conf.vNum
    ensures conf.vOffset == None ==> conf.Offset() == conf.vNum
    ensures conf.vLike == None ==> conf.Like() == conf.vStr
    ensures conf.vUpperBound == None ==> conf.UpperBound() == conf.vNum + 500
    ensures conf.vLowerBound == None ==> conf.LowerBound() == conf.vNum
    ensures conf.vLimit.Some? ==> conf.Limit() == conf.vLimit.value
    ensures conf.vOffset.Some? ==> conf.Offset() == conf.vOffset.value
    ensures conf.vLike.Some? ==> conf.Like() == conf.vLike.value
    ensures conf.vUpperBound.Some? ==> conf.UpperBound() == conf.vUpperBound.value
    ensures conf.vLowerBound.Some? ==> conf.LowerBound() == conf.vLowerBound.value
  {
  }

  /** `\s*(\d+)\s*` from i: the number's value and the position after the whitespace that follows it. */
  function NumberField(s: string, i: nat): (r: Option<(nat, nat)>)
    requires i <= |s|
    ensures r.Some? ==> i < r.value.1 <= |s|
  {
    var a := i + Run(s, i, Space);
    var d := Run(s, a, Digit);
    if d == 0 then None
    else
      RunSpans(s, a, Digit);
      assert forall k :: a <= k < a + d ==> s[a..a + d][k - a] == s[k];
      Some((DigitsValue(s[a..a + d]), a + d + Run(s, a + d, Space)))
  }

  /**
   * The argument of `--add-special`, `ROW,COL,VAL`, as `\A\s*(\d+)\s*,\s*(\d+)\s*,(.+)\z` reads
   * it: two decimal numbers, each optionally surrounded by whitespace and followed by a comma,
   * then everything after the second comma, which must be non-empty and free of "\n".
   */
  function ParseSpecial(s: string): (r: Option<(nat, nat, string)>)
    ensures r.Some? ==> r.value.2 != "" && Excludes(r.value.2, '\n')
  {
    match NumberField(s, 0)
    case None => None
    case Some((row, b)) =>
      if b >= |s| || s[b] != ',' then None
      else match ColumnAndValue(s, b + 1)
        case None => None
        case Some((col, v)) => Some((row, col, v))
  }

  /** `\s*(\d+)\s*,(.+)\z` from i: the column and the value after the first comma. */
  function ColumnAndValue(s: string, i: nat): (r: Option<(nat, string)>)
    requires i <= |s|
    ensures r.Some? ==> r.value.1 != "" && Excludes(r.value.1, '\n')
  {
    match NumberField(s, i)
    case None => None
    case Some((col, f)) =>
      if f >= |s| || s[f] != ',' then None
      else
        var v := s[f + 1..];
        if v == "" || !Excludes(v, '\n') then None else Some((col, v))
  }

  /** A run of d digits, not preceded by whitespace and followed by a comma, is a field. */
  lemma NumberFieldAt(s: string, i: nat, d: nat)
    requires 0 < d && i + d < |s| && AllDigits(s[i..i + d]) && s[i + d] == ','
    ensures NumberField(s, i) == Some((DigitsValue(s[i..i + d]), i + d))
  {
    assert forall k :: i <= k < i + d ==> s[k] == s[i..i + d][k - i];
    RunIs(s, i, 0, Space);
    RunIs(s, i, d, Digit);
    RunIs(s, i + d, 0, Space);
  }

  /** A number written in decimal and followed by a comma is read back as that number. */
  lemma NumberFieldOf(s: string, i: nat, n: nat)
    requires i + |NatToString(n)| < |s| && s[i..i + |NatToString(n)|] == NatToString(n)
    requires s[i + |NatToString(n)|] == ','
    ensures NumberField(s, i) == Some((n, i + |NatToString(n)|))
  {
    NatToStringDecimal(n);
    NumberFieldAt(s, i, |NatToString(n)|);
  }

  /** Writing a row, a column and a value the way the option expects them reads them back. */
  lemma ParseSpecialRoundTrip(row: nat, col: nat, v: string)
    requires v != "" && Excludes(v, '\n')
    ensures ParseSpecial(NatToString(row) + "," + NatToString(col) + "," + v) == Some((row, col, v))
  {
    var rs, cs := NatToString(row), NatToString(col);
    Layout(rs, cs, v);
    ParseFields(rs + "," + cs + "," + v, row, col, v, |rs|, |rs| + 1 + |cs|);
  }

  /** A text laid out as `ROW,COL,VAL`, the commas at b and f, parses to its three fields. */
  lemma ParseFields(s: string, row: nat, col: nat, v: string, b: nat, f: nat)
    requires v != "" && Excludes(v, '\n')
    requires b == |NatToString(row)| && f == b + 1 + |NatToString(col)| && f < |s|
    requires s[..b] == NatToString(row) && s[b] == ','
    requires s[b + 1..f] == NatToString(col) && s[f] == ','
    requires s[f + 1..] == v
    ensures ParseSpecial(s) == Some((row, col, v))
  {
    NumberFieldOf(s, 0, row);
    NumberFieldOf(s, b + 1, col);
    ParseSpecialOf(s, row, col, v, b, f);
  }

  /** Where the pieces of `ROW,COL,VAL` stand. */
  lemma Layout(rs: string, cs: string, v: string)
    ensures var s, b, f := rs + "," + cs + "," + v, |rs|, |rs| + 1 + |cs|;
      && f < |s|
      && s[..b] == rs && s[b] == ','
      && s[b + 1..f] == cs && s[f] == ','
      && s[f + 1..] == v
  {
    var s, b, f := rs + "," + cs + "," + v, |rs|, |rs| + 1 + |cs|;
    assert forall k :: 0 <= k < |rs| ==> s[..b][k] == rs[k];
    assert forall k :: 0 <= k < |cs| ==> s[b + 1..f][k] == cs[k];
    assert forall k :: 0 <= k < |v| ==> s[f + 1..][k] == v[k];
  }

  /** The three fields found one after the other make the parse. */
  lemma ParseSpecialOf(s: string, row: nat, col: nat, v: string, b: nat, f: nat)
    requires NumberField(s, 0) == Some((row, b)) && b < |s| && s[b] == ','
    requires b + 1 <= |s| && NumberField(s, b + 1) == Some((col, f)) && f < |s| && s[f] == ','
    requires s[f + 1..] == v && v != "" && Excludes(v, '\n')
    ensures ParseSpecial(s) == Some((row, col, v))
  {
    assert ColumnAndValue(s, b + 1) == Some((col, v));
  }
}
