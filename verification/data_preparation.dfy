/** Loading and shaping of the cube: label normalisation, the year and
    indicator conversions, the choice of file, the long-to-wide pivot, the
    removal of rows without year or city, and the metadata lists.

    Library calls the model cannot see are parameters:
    `decompose` is Unicode NFKD normalisation (`str.normalize("NFKD")`),
    `parse` is `pd.to_numeric` on one string (`None` where it cannot parse),
    `show` is the text pandas prints for a number (`astype("string")`, an
    f-string). A disk is a map from path to the table stored there: a path
    exists exactly when it is a key. */
module DataPreparation {
  import opened Wrappers
  import opened Ordering
  import opened Sequences
  import opened Tables
  import opened Grouping
  import opened AnalysisEngine

  /** The four label dimensions normalised and made categorical. */
  const LabelCols: seq<string> := ["cidade_nome", "sexo", "faixa_etaria", "faixa_escolaridade"]

  // ---------------------------------------------------------------- labels

  predicate IsAscii(c: char) {
    c < 128 as char
  }

  /** Python's `str.isspace` on an ASCII character. */
  predicate IsSpace(c: char) {
    (9 as char <= c <= 13 as char) || (28 as char <= c <= 32 as char)
  }

  predicate IsUpper(c: char) {
    'A' <= c <= 'Z'
  }

  predicate AllAscii(s: string) {
    forall i :: 0 <= i < |s| ==> IsAscii(s[i])
  }

  /** The shape every normalised label has: ASCII only, no upper-case
      letter, and no whitespace at either end. */
  ghost predicate IsNormal(s: string) {
    && (forall i :: 0 <= i < |s| ==> IsAscii(s[i]) && !IsUpper(s[i]))
    && (|s| > 0 ==> !IsSpace(s[0]) && !IsSpace(s[|s| - 1]))
  }

  /** `encode("ascii", "ignore").decode("utf-8")`: every non-ASCII character
      is dropped. */
  function AsciiOnly(s: string): (r: string)
    ensures AllAscii(r)
    ensures AllAscii(s) ==> r == s
  {
    var r := Filter(s, IsAscii);
    assert forall i :: 0 <= i < |r| ==> r[i] in r;
    if AllAscii(s) then
      FilterKeepsAll(s, IsAscii);
      r
    else r
  }

  function StripLeft(s: string): (r: string)
    ensures |r| <= |s|
    ensures |r| > 0 ==> !IsSpace(r[0])
  {
    if |s| > 0 && IsSpace(s[0]) then StripLeft(s[1..]) else s
  }

  function StripRight(s: string): (r: string)
    ensures |r| <= |s|
    ensures |r| > 0 ==> !IsSpace(r[|r| - 1])
  {
    if |s| > 0 && IsSpace(s[|s| - 1]) then StripRight(s[..|s| - 1]) else s
  }

  /** `StripLeft` keeps a suffix. */
  lemma {:induction false} StripLeftSuffix(s: string)
    ensures StripLeft(s) == s[|s| - |StripLeft(s)|..]
    decreases |s|
  {
    if |s| > 0 && IsSpace(s[0]) {
      StripLeftSuffix(s[1..]);
      assert s[1..][|s| - 1 - |StripLeft(s)|..] == s[|s| - |StripLeft(s)|..];
    }
  }

  /** `StripRight` keeps a prefix. */
  lemma {:induction false} StripRightPrefix(s: string)
    ensures StripRight(s) == s[..|StripRight(s)|]
    decreases |s|
  {
    if |s| > 0 && IsSpace(s[|s| - 1]) {
      StripRightPrefix(s[..|s| - 1]);
      assert s[..|s| - 1][..|StripRight(s)|] == s[..|StripRight(s)|];
    }
  }

  /** Everything `StripLeft` removes is whitespace. */
  lemma {:induction false} StripLeftSpaces(s: string)
    ensures forall i :: 0 <= i < |s| - |StripLeft(s)| ==> IsSpace(s[i])
    decreases |s|
  {
    if |s| > 0 && IsSpace(s[0]) {
      StripLeftSpaces(s[1..]);
      forall i | 1 <= i < |s| - |StripLeft(s)| ensures IsSpace(s[i]) {
        assert s[i] == s[1..][i - 1];
      }
    }
  }

  /** Everything `StripRight` removes is whitespace. */
  lemma {:induction false} StripRightSpaces(s: string)
    ensures forall i :: |StripRight(s)| <= i < |s| ==> IsSpace(s[i])
    decreases |s|
  {
    if |s| > 0 && IsSpace(s[|s| - 1]) {
      StripRightSpaces(s[..|s| - 1]);
      forall i | |StripRight(s)| <= i < |s| - 1 ensures IsSpace(s[i]) {
        assert s[i] == s[..|s| - 1][i];
      }
    }
  }

  /** Python's `str.strip()`: whitespace removed from both ends. */
  function Strip(s: string): (r: string)
    ensures |r| > 0 ==> !IsSpace(r[0]) && !IsSpace(r[|r| - 1])
    ensures |s| > 0 && !IsSpace(s[0]) && !IsSpace(s[|s| - 1]) ==> r == s
  {
    StripRightPrefix(StripLeft(s));
    StripRight(StripLeft(s))
  }

  /** What strip keeps is one stretch of the input; everything before and
      after it is whitespace. */
  lemma StripKeepsMiddle(s: string)
    ensures var i := |s| - |StripLeft(s)|;
            0 <= i && i + |Strip(s)| <= |s| && s[i..i + |Strip(s)|] == Strip(s)
    ensures forall j :: 0 <= j < |s| - |StripLeft(s)| ==> IsSpace(s[j])
    ensures forall j :: |s| - |StripLeft(s)| + |Strip(s)| <= j < |s| ==> IsSpace(s[j])
  {
    StripStretch(s);
    StripLeftSpaces(s);
    StripTrailing(s);
  }

  lemma StripStretch(s: string)
    ensures var i := |s| - |StripLeft(s)|;
            0 <= i && i + |Strip(s)| <= |s| && s[i..i + |Strip(s)|] == Strip(s)
  {
    var l := StripLeft(s);
    StripLeftSuffix(s);
    StripRightPrefix(l);
    SliceOfParts(s, l, StripRight(l));
  }

  lemma StripTrailing(s: string)
    ensures forall j :: |s| - |StripLeft(s)| + |Strip(s)| <= j < |s| ==> IsSpace(s[j])
  {
    var l := StripLeft(s);
    StripLeftSuffix(s);
    StripRightSpaces(l);
    TrailOfParts(s, l, StripRight(l));
  }

  /** A prefix of a suffix is one stretch of the whole. */
  lemma SliceOfParts<T>(s: seq<T>, l: seq<T>, r: seq<T>)
    requires |l| <= |s| && l == s[|s| - |l|..]
    requires |r| <= |l| && r == l[..|r|]
    ensures var i := |s| - |l|;
            i + |r| <= |s| && s[i..i + |r|] == r
  {
  }

  /** What follows that stretch in the whole is what follows it in the suffix. */
  lemma TrailOfParts(s: string, l: string, r: string)
    requires |l| <= |s| && l == s[|s| - |l|..]
    requires |r| <= |l|
    requires forall j :: |r| <= j < |l| ==> IsSpace(l[j])
    ensures forall j :: |s| - |l| + |r| <= j < |s| ==> IsSpace(s[j])
  {
    var i := |s| - |l|;
    forall j | i + |r| <= j < |s| ensures IsSpace(s[j]) {
      assert s[j] == l[j - i];
    }
  }

  function LowerChar(c: char): (d: char)
    ensures !IsUpper(d)
    ensures IsAscii(c) ==> IsAscii(d)
    ensures IsSpace(d) <==> IsSpace(c)
  {
    if IsUpper(c) then (c as int + 32) as char else c
  }

  /** Python's `str.lower()` on ASCII text: `A`-`Z` become `a`-`z`. */
  function Lower(s: string): (r: string)
    ensures |r| == |s|
    ensures forall i :: 0 <= i < |s| ==> r[i] == LowerChar(s[i])
  {
    seq(|s|, i requires 0 <= i < |s| => LowerChar(s[i]))
  }

  /** `_norm_str` on one value: NFKD, drop non-ASCII, strip, lower-case. */
  function NormStr(s: string, decompose: string -> string): (r: string)
    ensures IsNormal(r)
    ensures LowerStretchOf(AsciiOnly(decompose(s)), r)
  {
    var a := AsciiOnly(decompose(s));
    LowerStripNormal(a);
    LowerStripStretch(a);
    Lower(Strip(a))
  }

  /** `r` is the lower-casing of one stretch of `a` that has only whitespace
      before and after it. */
  ghost predicate LowerStretchOf(a: string, r: string) {
    var i := |a| - |StripLeft(a)|;
    && 0 <= i && i + |r| <= |a| && r == Lower(a[i..i + |r|])
    && (forall j :: 0 <= j < i ==> IsSpace(a[j]))
    && (forall j :: i + |r| <= j < |a| ==> IsSpace(a[j]))
  }

  /** Lower-casing after strip is lower-casing the stretch strip keeps. */
  lemma LowerStripStretch(a: string)
    ensures LowerStretchOf(a, Lower(Strip(a)))
  {
    StripKeepsMiddle(a);
  }

  /** Stripping and lower-casing ASCII text gives a normalised label. */
  lemma LowerStripNormal(a: string)
    requires AllAscii(a)
    ensures IsNormal(Lower(Strip(a)))
  {
    StripKeepsAscii(a);
    LowerNormal(Strip(a));
  }

  lemma StripKeepsAscii(a: string)
    requires AllAscii(a)
    ensures AllAscii(Strip(a))
  {
    var l := StripLeft(a);
    StripLeftSuffix(a);
    StripRightPrefix(l);
    SliceKeepsAscii(a, |a| - |l|, |a|);
    assert l == a[|a| - |l|..|a|];
    var r := StripRight(l);
    SliceKeepsAscii(l, 0, |r|);
    assert r == l[0..|r|];
  }

  lemma SliceKeepsAscii(s: string, i: nat, j: nat)
    requires AllAscii(s) && i <= j <= |s|
    ensures AllAscii(s[i..j])
  {
    forall k | 0 <= k < j - i ensures IsAscii(s[i..j][k]) {
      assert s[i..j][k] == s[i + k];
    }
  }

  lemma LowerNormal(t: string)
    requires AllAscii(t)
    requires |t| > 0 ==> !IsSpace(t[0]) && !IsSpace(t[|t| - 1])
    ensures IsNormal(Lower(t))
  {
  }

  /** Normalising a normalised label changes nothing, for any decomposition
      that leaves ASCII text alone (as NFKD does). */
  lemma NormStrIdempotent(s: string, decompose: string -> string)
    requires forall t :: AllAscii(t) ==> decompose(t) == t
    ensures NormStr(NormStr(s, decompose), decompose) == NormStr(s, decompose)
  {
    var r := NormStr(s, decompose);
    assert AllAscii(r);
    assert Strip(r) == r;
    assert Lower(r) == r;
  }

  /** `_norm_str` on one cell: nulls stay null, numbers are printed first. */
  function NormCell(c: Cell, decompose: string -> string, show: real -> string): (r: Cell)
    ensures r.Null? <==> c.Null?
    ensures r.Text? ==> IsNormal(r.s)
    ensures !r.Num?
  {
    match c
    case Null => Null
    case Num(v) => Text(NormStr(show(v), decompose))
    case Text(s) => Text(NormStr(s, decompose))
  }

  // --------------------------------------------------------------- numbers

  /** `pd.to_numeric(errors="coerce")` on one cell: text that does not parse
      becomes null instead of raising. */
  function ToNumber(c: Cell, parse: string -> Option<real>): (r: Cell)
    ensures !r.Text?
    ensures c.Num? ==> r == c
    ensures c.Null? ==> r == Null
    ensures c.Text? ==> (r == Null <==> parse(c.s).None?)
    ensures c.Text? && parse(c.s).Some? ==> r == Num(parse(c.s).value)
  {
    match c
    case Null => Null
    case Num(_) => c
    case Text(s) => if parse(s).Some? then Num(parse(s).value) else Null
  }

  const Int16Min: int := -32768
  const Int16Max: int := 32767

  /** A number nullable `Int16` holds exactly. */
  predicate IsInt16(v: real) {
    v == v.Floor as real && Int16Min <= v.Floor <= Int16Max
  }

  /** `_to_int16` on one cell: coerce to a number, then cast to `Int16`,
      which refuses a fractional or out-of-range number. */
  function ToInt16(c: Cell, parse: string -> Option<real>): (r: Res<Cell>)
    ensures r.Success? ==> r.value.Null? || (r.value.Num? && IsInt16(r.value.n))
    ensures r.Failure? <==> ToNumber(c, parse).Num? && !IsInt16(ToNumber(c, parse).n)
    ensures r.Failure? ==> r.error == NotInt16("ano")
    ensures r.Success? ==> r.value == ToNumber(c, parse)
  {
    var n := ToNumber(c, parse);
    if n.Num? && !IsInt16(n.n) then Failure(NotInt16("ano")) else Success(n)
  }

  // ------------------------------------------------------------ downcasts

  /** The label columns of the table. */
  function LabelKeys(columns: seq<string>): set<string> {
    set l | l in LabelCols && l in columns
  }

  /** `_norm_str` applied to every label column the table has. */
  function NormLabels(x: Row, columns: seq<string>, decompose: string -> string, show: real -> string): (r: Row)
    ensures forall c :: Get(r, c) == if c in LabelCols && c in columns then NormCell(Get(x, c), decompose, show) else Get(x, c)
  {
    map c | c in x.Keys + LabelKeys(columns) ::
      if c in LabelCols && c in columns then NormCell(Get(x, c), decompose, show) else x[c]
  }

  /** `_downcast_dims` on one row. */
  function DowncastRow(x: Row, columns: seq<string>, parse: string -> Option<real>,
                       decompose: string -> string, show: real -> string): (r: Res<Row>)
    ensures r.Failure? <==>
              "ano" in columns && ToNumber(Get(x, "ano"), parse).Num? && !IsInt16(ToNumber(Get(x, "ano"), parse).n)
    ensures r.Failure? ==> r.error == NotInt16("ano")
    ensures r.Success? ==> forall c :: c !in DimCols || c !in columns ==> Get(r.value, c) == Get(x, c)
    ensures r.Success? && "ano" in columns ==>
              && Get(r.value, "ano") == ToNumber(Get(x, "ano"), parse)
              && (Get(r.value, "ano").Null? || IsInt16(Get(r.value, "ano").n))
    ensures r.Success? ==> forall c :: c in LabelCols && c in columns ==>
              Get(r.value, c) == NormCell(Get(x, c), decompose, show)
  {
    YearIsNotALabel();
    if "ano" in columns then
      var a :- ToInt16(Get(x, "ano"), parse);
      Success(NormLabels(x["ano" := a], columns, decompose, show))
    else
      Success(NormLabels(x, columns, decompose, show))
  }

  /** The year column is not one of the label columns. */
  lemma YearIsNotALabel()
    ensures "ano" !in LabelCols
    ensures forall c :: c in LabelCols ==> c in DimCols
  {
    assert "ano"[0] == 'a';
  }

  function DowncastRows(rows: seq<Row>, columns: seq<string>, parse: string -> Option<real>,
                        decompose: string -> string, show: real -> string): (r: Res<seq<Row>>)
    ensures r.Failure? <==> exists i :: 0 <= i < |rows| && DowncastRow(rows[i], columns, parse, decompose, show).Failure?
    ensures r.Failure? ==> r.error == NotInt16("ano")
    ensures r.Success? ==> |r.value| == |rows|
    ensures r.Success? ==> forall i :: 0 <= i < |rows| ==>
              r.value[i] == DowncastRow(rows[i], columns, parse, decompose, show).value
  {
    if |rows| == 0 then Success([])
    else
      var x :- DowncastRow(rows[0], columns, parse, decompose, show);
      var rest :- DowncastRows(rows[1..], columns, parse, decompose, show);
      assert forall i :: 1 <= i < |rows| ==> rows[i] == rows[1..][i - 1];
      Success([x] + rest)
  }

  /** `_downcast_dims`: the year column cast to `Int16`, the four label
      columns normalised; every other cell, the columns and the row order
      stay as they were. A year that is a fractional or out-of-range number
      makes the cast raise. */
  function DowncastDims(t: Table, parse: string -> Option<real>,
                        decompose: string -> string, show: real -> string): (r: Res<Table>)
    ensures r.Failure? <==>
              && "ano" in t.columns
              && exists i :: 0 <= i < |t.rows| && ToNumber(Get(t.rows[i], "ano"), parse).Num?
                                              && !IsInt16(ToNumber(Get(t.rows[i], "ano"), parse).n)
    ensures r.Failure? ==> r.error == NotInt16("ano")
    ensures r.Success? ==> r.value.columns == t.columns && |r.value.rows| == |t.rows|
    ensures r.Success? ==> forall i, c :: 0 <= i < |t.rows| && (c !in DimCols || c !in t.columns) ==>
              Get(r.value.rows[i], c) == Get(t.rows[i], c)
    ensures r.Success? && "ano" in t.columns ==> forall i :: 0 <= i < |t.rows| ==>
              Get(r.value.rows[i], "ano") == ToNumber(Get(t.rows[i], "ano"), parse)
              && (Get(r.value.rows[i], "ano").Null? || IsInt16(Get(r.value.rows[i], "ano").n))
    ensures r.Success? ==> forall i, c :: 0 <= i < |t.rows| && c in LabelCols && c in t.columns ==>
              Get(r.value.rows[i], c) == NormCell(Get(t.rows[i], c), decompose, show)
  {
    var rows :- DowncastRows(t.rows, t.columns, parse, decompose, show);
    Success(Table(t.columns, rows))
  }

  lemma NormCellIdempotent(c: Cell, decompose: string -> string, show: real -> string)
    requires forall s :: AllAscii(s) ==> decompose(s) == s
    ensures NormCell(NormCell(c, decompose, show), decompose, show) == NormCell(c, decompose, show)
  {
    match c
    case Null =>
    case Num(v) => NormStrIdempotent(show(v), decompose);
    case Text(s) => NormStrIdempotent(s, decompose);
  }

  /** The labels of a downcast row are already normalised. */
  lemma LabelsSettled(x: Row, columns: seq<string>, parse: string -> Option<real>,
                      decompose: string -> string, show: real -> string)
    requires forall s :: AllAscii(s) ==> decompose(s) == s
    requires DowncastRow(x, columns, parse, decompose, show).Success?
    ensures var y := DowncastRow(x, columns, parse, decompose, show).value;
            && LabelKeys(columns) <= y.Keys
            && forall c :: c in LabelCols && c in columns ==> NormCell(Get(y, c), decompose, show) == Get(y, c)
  {
    var y := DowncastRow(x, columns, parse, decompose, show).value;
    forall c | c in LabelCols && c in columns
      ensures NormCell(Get(y, c), decompose, show) == Get(y, c)
    {
      var v := if "ano" in columns then Get(x["ano" := ToInt16(Get(x, "ano"), parse).value], c) else Get(x, c);
      NormCellIdempotent(v, decompose, show);
    }
  }

  /** Normalising labels that are already normalised changes nothing. */
  lemma NormLabelsFixed(y: Row, columns: seq<string>, decompose: string -> string, show: real -> string)
    requires LabelKeys(columns) <= y.Keys
    requires forall c :: c in LabelCols && c in columns ==> NormCell(Get(y, c), decompose, show) == Get(y, c)
    ensures NormLabels(y, columns, decompose, show) == y
  {
    var z := NormLabels(y, columns, decompose, show);
    assert forall c :: Get(z, c) == Get(y, c);
    assert z.Keys == y.Keys;
  }

  lemma DowncastRowIdempotent(x: Row, columns: seq<string>, parse: string -> Option<real>,
                              decompose: string -> string, show: real -> string)
    requires forall s :: AllAscii(s) ==> decompose(s) == s
    requires DowncastRow(x, columns, parse, decompose, show).Success?
    ensures DowncastRow(DowncastRow(x, columns, parse, decompose, show).value, columns, parse, decompose, show)
            == DowncastRow(x, columns, parse, decompose, show)
  {
    var y := DowncastRow(x, columns, parse, decompose, show).value;
    LabelsSettled(x, columns, parse, decompose, show);
    NormLabelsFixed(y, columns, decompose, show);
    if "ano" in columns {
      var a := ToInt16(Get(x, "ano"), parse).value;
      assert Get(y, "ano") == a;
      assert ToInt16(a, parse) == Success(a);
      assert y["ano" := a] == y;
    }
  }

  /** Casting the dimensions of a cast cube changes nothing. */
  lemma DowncastDimsIdempotent(t: Table, parse: string -> Option<real>,
                               decompose: string -> string, show: real -> string)
    requires forall s :: AllAscii(s) ==> decompose(s) == s
    requires DowncastDims(t, parse, decompose, show).Success?
    ensures DowncastDims(DowncastDims(t, parse, decompose, show).value, parse, decompose, show)
            == DowncastDims(t, parse, decompose, show)
  {
    var once := DowncastDims(t, parse, decompose, show).value;
    forall i | 0 <= i < |once.rows|
      ensures DowncastRow(once.rows[i], t.columns, parse, decompose, show) == Success(once.rows[i])
    {
      DowncastRowIdempotent(t.rows[i], t.columns, parse, decompose, show);
    }
    var twice := DowncastDims(once, parse, decompose, show);
    assert twice.value.rows == once.rows;
  }

  /** `startswith("prev_")`: the prevalence columns. */
  predicate IsIndicator(c: string) {
    |c| >= 5 && c[..5] == "prev_"
  }

  /** `_downcast_indicators` on one row. */
  function NumericIndicators(x: Row, columns: seq<string>, parse: string -> Option<real>): (r: Row)
    ensures forall c :: Get(r, c) == if IsIndicator(c) && c in columns then ToNumber(Get(x, c), parse) else Get(x, c)
  {
    map c | c in x.Keys :: if IsIndicator(c) && c in columns then ToNumber(x[c], parse) else x[c]
  }

  /** `_downcast_indicators`: every `prev_` column coerced to numbers (text
      that does not parse becomes null); every other column untouched. */
  function DowncastIndicators(t: Table, parse: string -> Option<real>): (r: Table)
    ensures r.columns == t.columns && |r.rows| == |t.rows|
    ensures forall i, c :: 0 <= i < |t.rows| && !(IsIndicator(c) && c in t.columns) ==>
              Get(r.rows[i], c) == Get(t.rows[i], c)
    ensures forall i, c :: 0 <= i < |t.rows| && IsIndicator(c) && c in t.columns ==>
              Get(r.rows[i], c) == ToNumber(Get(t.rows[i], c), parse)
  {
    Table(t.columns, seq(|t.rows|, i requires 0 <= i < |t.rows| => NumericIndicators(t.rows[i], t.columns, parse)))
  }

  /** Coercing twice is coercing once. */
  lemma DowncastIndicatorsIdempotent(t: Table, parse: string -> Option<real>)
    ensures DowncastIndicators(DowncastIndicators(t, parse), parse) == DowncastIndicators(t, parse)
  {
    var once := DowncastIndicators(t, parse);
    var twice := DowncastIndicators(once, parse);
    forall i | 0 <= i < |once.rows| ensures twice.rows[i] == once.rows[i] {
      assert forall c :: Get(twice.rows[i], c) == Get(once.rows[i], c);
      assert twice.rows[i].Keys == once.rows[i].Keys;
    }
  }

  // ----------------------------------------------------------------- files

  const WideFirst: seq<string> := ["outputs/cubo_vigitel_wide.parquet", "outputs/cubo_vigitel_wide.csv"]
  const LongFallback: seq<string> := ["outputs/cubo_vigitel_long.parquet", "outputs/cubo_vigitel_long.csv"]

  /** `_find_file`: the first path of the list that exists. */
  function FindFile(paths: seq<string>, disk: map<string, Table>): (r: Option<string>)
    ensures r.None? <==> forall p :: p in paths ==> p !in disk
    ensures r.Some? ==> exists i :: 0 <= i < |paths| && paths[i] == r.value && r.value in disk
                                   && forall j :: 0 <= j < i ==> paths[j] !in disk
  {
    if |paths| == 0 then None
    else if paths[0] in disk then
      Some(paths[0])
    else
      var r := FindFile(paths[1..], disk);
      assert forall p :: p in paths ==> p == paths[0] || p in paths[1..];
      if r.Some? then
        var i :| 0 <= i < |paths[1..]| && paths[1..][i] == r.value && r.value in disk
                 && forall j :: 0 <= j < i ==> paths[1..][j] !in disk;
        assert paths[i + 1] == r.value;
        assert forall j :: 1 <= j < i + 1 ==> paths[j] == paths[1..][j - 1];
        r
      else r
  }

  /** The columns the long cube is read with. */
  const LongCols: seq<string> := DimCols + ["indicador", "prevalencia"]

  /** The row restricted to the given columns. */
  function Project(x: Row, cols: seq<string>): (r: Row)
    ensures forall c :: Get(r, c) == if c in cols then Get(x, c) else Null
  {
    map c | c in x.Keys && c in cols :: x[c]
  }

  /** Reading the long cube: the parquet file with exactly the long columns
      (a missing one raises), the csv file with those of them it has, in
      file order. */
  function ReadLong(path: string, file: Table): (r: Res<Table>)
    ensures r.Failure? <==> path == LongFallback[0] && exists c :: c in LongCols && c !in file.columns
    ensures r.Failure? ==> r.error.KeyError? && r.error.column in LongCols && r.error.column !in file.columns
    ensures r.Success? ==> |r.value.rows| == |file.rows|
    ensures r.Success? ==> forall c :: c in r.value.columns <==> c in LongCols && c in file.columns
    ensures r.Success? ==> forall i, c :: 0 <= i < |file.rows| ==>
              Get(r.value.rows[i], c) == if c in r.value.columns then Get(file.rows[i], c) else Null
  {
    var cols := if path == LongFallback[0] then LongCols else Filter(file.columns, (c: string) => c in LongCols);
    if path == LongFallback[0] && MissingColumn(file.columns, LongCols).Some? then
      Failure(KeyError(MissingColumn(file.columns, LongCols).value))
    else
      Success(Table(cols, seq(|file.rows|, i requires 0 <= i < |file.rows| => Project(file.rows[i], cols))))
  }
  // ----------------------------------------------------------------- pivot

  /** The dimension columns the long table has, in canonical order. */
  function PresentDims(columns: seq<string>): (r: seq<string>)
    ensures forall c :: c in r <==> c in DimCols && c in columns
    ensures Distinct(r)
    ensures "indicador" !in r && "prevalencia" !in r
  {
    var r := Filter(DimCols, (c: string) => c in columns);
    DimColsDistinct();
    SubseqDistinct(r, DimCols);
    LongFieldsAreNotDims();
    r
  }

  /** The dimension columns have five different lengths. */
  lemma DimColsDistinct()
    ensures Distinct(DimCols)
  {
    assert |DimCols[0]| == 3 && |DimCols[1]| == 11 && |DimCols[2]| == 4;
    assert |DimCols[3]| == 12 && |DimCols[4]| == 18;
  }

  /** The two long-format fields are not dimension columns. */
  lemma LongFieldsAreNotDims()
    ensures "indicador" !in DimCols && "prevalencia" !in DimCols
  {
    assert "indicador"[0] == 'i' && "prevalencia"[0] == 'p';
  }

  /** The text `f"{c}"` gives for an indicator cell. */
  function Label(c: Cell, show: real -> string): string {
    match c
    case Null => ""
    case Num(v) => show(v)
    case Text(s) => s
  }

  /** The wide column of indicator `name`: `prev_<name>`, unless the name is
      itself a dimension column of the pivot. */
  function WideName(base: seq<string>, name: string): string {
    if name in base then name else "prev_" + name
  }

  lemma DimsAreNotIndicators(base: seq<string>, name: string)
    requires forall c :: c in base ==> c in DimCols
    ensures "prev_" + name !in base
  {
    var w := "prev_" + name;
    assert w[0] == 'p';
  }

  /** Distinct indicator names give distinct wide columns. */
  lemma WideNameInjective(base: seq<string>, m: string, n: string)
    requires forall c :: c in base ==> c in DimCols
    requires WideName(base, m) == WideName(base, n)
    ensures m == n
  {
    DimsAreNotIndicators(base, m);
    DimsAreNotIndicators(base, n);
    if m !in base && n !in base {
      assert ("prev_" + m)[5..] == m && ("prev_" + n)[5..] == n;
    }
  }

  /** A long row that feeds the wide cell of (`combo`, `name`): numeric
      prevalence, an indicator printed as `name`, and non-null dimension
      cells equal to `combo`. */
  ghost predicate InPivot(y: Row, base: seq<string>, show: real -> string, combo: seq<Cell>, name: string) {
    && Get(y, "prevalencia").Num?
    && Get(y, "indicador") != Null
    && Label(Get(y, "indicador"), show) == name
    && (forall c :: c in base ==> Get(y, c) != Null)
    && KeyOf(y, base) == combo
  }

  /** Reference definition of a wide cell: the prevalence values of the long
      rows that feed it, in row order. */
  ghost function PivotValues(rows: seq<Row>, base: seq<string>, show: real -> string, combo: seq<Cell>, name: string): seq<real> {
    if |rows| == 0 then []
    else
      (if InPivot(rows[0], base, show, combo, name) then [Get(rows[0], "prevalencia").n] else [])
      + PivotValues(rows[1..], base, show, combo, name)
  }

  /** `pivot_table`'s mean: NaN (null) for a cell no row feeds. */
  ghost function PivotCell(vs: seq<real>): Cell {
    if |vs| > 0 then Num(Mean(vs)) else Null
  }

  /** A dimension combination with at least one value in the wide table. */
  ghost predicate Observed(rows: seq<Row>, base: seq<string>, show: real -> string, combo: seq<Cell>) {
    exists name :: |PivotValues(rows, base, show, combo, name)| > 0
  }

  /** An indicator with at least one value in the wide table. */
  ghost predicate Measured(rows: seq<Row>, base: seq<string>, show: real -> string, name: string) {
    exists combo :: |PivotValues(rows, base, show, combo, name)| > 0
  }

  /** The indicator cell replaced by its printed name, so that groups form
      per column name. */
  function Relabel(y: Row, show: real -> string): (r: Row)
    ensures forall c :: c != "indicador" ==> Get(r, c) == Get(y, c)
    ensures Get(y, "indicador") != Null ==> Get(r, "indicador") == Text(Label(Get(y, "indicador"), show))
    ensures Get(y, "indicador") == Null ==> Get(r, "indicador") == Null
  {
    if Get(y, "indicador") != Null then y["indicador" := Text(Label(Get(y, "indicador"), show))] else y
  }

  function RelabelAll(rows: seq<Row>, show: real -> string): (r: seq<Row>)
    ensures |r| == |rows|
    ensures forall i :: 0 <= i < |rows| ==> r[i] == Relabel(rows[i], show)
  {
    seq(|rows|, i requires 0 <= i < |rows| => Relabel(rows[i], show))
  }

  /** Relabelling leaves the prevalence of every row as it was. */
  lemma RelabelKeepsValues(rows: seq<Row>, show: real -> string)
    ensures (exists x :: x in RelabelAll(rows, show) && Get(x, "prevalencia").Text?)
            <==> (exists y :: y in rows && Get(y, "prevalencia").Text?)
  {
    var named := RelabelAll(rows, show);
    if y :| y in rows && Get(y, "prevalencia").Text? {
      var i :| 0 <= i < |rows| && rows[i] == y;
      assert named[i] in named;
    }
    if x :| x in named && Get(x, "prevalencia").Text? {
      var i :| 0 <= i < |named| && named[i] == x;
      assert rows[i] in rows;
    }
  }

  /** The group key of a relabelled row: its dimensions, then its name. */
  lemma RelabelKey(y: Row, base: seq<string>, show: real -> string)
    requires "indicador" !in base && "prevalencia" !in base
    ensures KeyOf(Relabel(y, show), base + ["indicador"]) == KeyOf(y, base) + [Get(Relabel(y, show), "indicador")]
    ensures Contributes(Relabel(y, show), base + ["indicador"], "prevalencia") <==>
              && Get(y, "prevalencia").Num?
              && Get(y, "indicador") != Null
              && (forall c :: c in base ==> Get(y, c) != Null)
  {
    var k := base + ["indicador"];
    assert forall c :: c in k <==> c in base || c == "indicador";
    var lhs := KeyOf(Relabel(y, show), k);
    var rhs := KeyOf(y, base) + [Get(Relabel(y, show), "indicador")];
    assert |lhs| == |rhs|;
    forall i | 0 <= i < |lhs| ensures lhs[i] == rhs[i] {
      if i < |base| {
        assert k[i] == base[i] && base[i] in base;
      }
    }
  }

  lemma RelabelFeeds(y: Row, base: seq<string>, show: real -> string, combo: seq<Cell>, name: string)
    requires "indicador" !in base && "prevalencia" !in base
    requires |combo| == |base|
    ensures (Contributes(Relabel(y, show), base + ["indicador"], "prevalencia")
             && KeyOf(Relabel(y, show), base + ["indicador"]) == combo + [Text(name)])
            <==> InPivot(y, base, show, combo, name)
  {
    RelabelKey(y, base, show);
    var k := KeyOf(y, base);
    var a := Get(Relabel(y, show), "indicador");
    assert k + [a] == combo + [Text(name)] <==> k == combo && a == Text(name) by {
      if k + [a] == combo + [Text(name)] {
        assert (k + [a])[..|base|] == k && (combo + [Text(name)])[..|base|] == combo;
        assert (k + [a])[|base|] == a;
      }
    }
  }

  /** Grouping the relabelled rows by dimensions and name gathers exactly
      the values that feed each wide cell. */
  lemma {:induction false} RelabelGroups(rows: seq<Row>, base: seq<string>, show: real -> string, combo: seq<Cell>, name: string)
    requires "indicador" !in base && "prevalencia" !in base
    requires |combo| == |base|
    ensures GroupValues(RelabelAll(rows, show), base + ["indicador"], "prevalencia", combo + [Text(name)])
            == PivotValues(rows, base, show, combo, name)
  {
    if |rows| > 0 {
      assert RelabelAll(rows, show)[1..] == RelabelAll(rows[1..], show);
      RelabelGroups(rows[1..], base, show, combo, name);
      RelabelFeeds(rows[0], base, show, combo, name);
    }
  }

  /** Every group of the relabelled rows has the key of a wide cell. */
  lemma RelabelGroupShape(rows: seq<Row>, base: seq<string>, show: real -> string, k: seq<Cell>)
    requires "indicador" !in base && "prevalencia" !in base
    requires |GroupValues(RelabelAll(rows, show), base + ["indicador"], "prevalencia", k)| > 0
    ensures |k| == |base| + 1 && k[|base|].Text? && k == k[..|base|] + [Text(k[|base|].s)]
  {
    var named := RelabelAll(rows, show);
    GroupValuesWitness(named, base + ["indicador"], "prevalencia", k);
    var y' :| y' in named && Contributes(y', base + ["indicador"], "prevalencia") && KeyOf(y', base + ["indicador"]) == k;
    var i :| 0 <= i < |named| && named[i] == y';
    RelabelKey(rows[i], base, show);
  }

  /** The value for key `k` in the group means, or null. */
  function CellFor(groups: seq<Entry>, k: seq<Cell>): (c: Cell)
    ensures c.Num? <==> k in Keys(groups)
    ensures c.Num? ==> Entry(k, c.n) in groups
    ensures !c.Text?
  {
    if |groups| == 0 then Null
    else if groups[0].key == k then Num(groups[0].value)
    else
      assert Keys(groups) == [groups[0].key] + Keys(groups[1..]);
      CellFor(groups[1..], k)
  }

  /** Python's `f"prev_{c}"`-or-keep renaming of the pivoted columns. */
  function WideNames(base: seq<string>, names: seq<string>): (r: seq<string>)
    ensures |r| == |names|
    ensures forall j :: 0 <= j < |names| ==> r[j] == WideName(base, names[j])
  {
    seq(|names|, j requires 0 <= j < |names| => WideName(base, names[j]))
  }

  /** Writes `cells` under `names` in order: the last write of a name wins. */
  function Assign(m: Row, names: seq<string>, cells: seq<Cell>): (r: Row)
    requires |names| == |cells|
    ensures forall c :: c !in names ==> Get(r, c) == Get(m, c)
    ensures forall j :: 0 <= j < |names| && names[j] !in names[j + 1..] ==> Get(r, names[j]) == cells[j]
    decreases |names|
  {
    if |names| == 0 then m
    else
      var r := Assign(m[names[0] := cells[0]], names[1..], cells[1..]);
      assert forall c :: c in names <==> c == names[0] || c in names[1..];
      assert forall j :: 1 <= j < |names| ==> names[j] == names[1..][j - 1] && names[j + 1..] == names[1..][j..];
      r
  }

  /** The columns in front of the indicators: the dimensions, or the column
      `reset_index` names `index` (renamed `prev_index`) when there are none
      and `pivot_table` transposes its result. */
  function Lead(base: seq<string>): seq<string> {
    if |base| > 0 then base else ["prev_index"]
  }

  function LeadCells(base: seq<string>, combo: seq<Cell>): seq<Cell> {
    if |base| > 0 then combo else [Text("prevalencia")]
  }

  /** The wide row of one dimension combination. */
  function WideRow(base: seq<string>, combo: seq<Cell>, names: seq<string>, groups: seq<Entry>): Row
    requires |combo| == |base|
  {
    Assign(Assign(map[], WideNames(base, names), IndicatorCells(groups, combo, names)), Lead(base), LeadCells(base, combo))
  }

  /** The indicator cells of one dimension combination, one per name. */
  function IndicatorCells(groups: seq<Entry>, combo: seq<Cell>, names: seq<string>): (r: seq<Cell>)
    ensures |r| == |names|
    ensures forall j :: 0 <= j < |names| ==> r[j] == CellFor(groups, combo + [Text(names[j])])
  {
    seq(|names|, j requires 0 <= j < |names| => CellFor(groups, combo + [Text(names[j])]))
  }
  /** The first `n` cells of a key. */
  function Prefix(k: seq<Cell>, n: nat): seq<Cell> {
    if n <= |k| then k[..n] else k
  }

  /** The name at position `n` of a key. */
  function NameAt(k: seq<Cell>, n: nat): string {
    if n < |k| && k[n].Text? then k[n].s else ""
  }

  /** The distinct dimension combinations of the groups, ascending. */
  function Combos(groups: seq<Entry>, n: nat): (r: seq<seq<Cell>>)
    ensures StrictlySorted(r, KeyLt)
    ensures forall c :: c in r <==> exists i :: 0 <= i < |groups| && Prefix(groups[i].key, n) == c
  {
    KeyLtIsStrictTotal();
    var ks := seq(|groups|, i requires 0 <= i < |groups| => Prefix(groups[i].key, n));
    assert forall c :: c in ks ==> exists i :: 0 <= i < |groups| && ks[i] == c;
    assert forall i :: 0 <= i < |groups| ==> ks[i] in ks && ks[i] == Prefix(groups[i].key, n);
    SortDistinct(ks, KeyLt)
  }

  /** The distinct indicator names of the groups, ascending. */
  function Names(groups: seq<Entry>, n: nat): (r: seq<string>)
    ensures StrictlySorted(r, StrLt)
    ensures forall m :: m in r <==> exists i :: 0 <= i < |groups| && NameAt(groups[i].key, n) == m
  {
    StrLtIsStrictTotal();
    var ns := seq(|groups|, i requires 0 <= i < |groups| => NameAt(groups[i].key, n));
    assert forall m :: m in ns ==> exists i :: 0 <= i < |groups| && ns[i] == m;
    assert forall i :: 0 <= i < |groups| ==> ns[i] in ns && ns[i] == NameAt(groups[i].key, n);
    SortDistinct(ns, StrLt)
  }

  /** What the group means of the relabelled long rows are. */
  ghost predicate PivotGroups(groups: seq<Entry>, rows: seq<Row>, base: seq<string>, show: real -> string) {
    var named := RelabelAll(rows, show);
    && (forall k :: k in Keys(groups) <==> |GroupValues(named, base + ["indicador"], "prevalencia", k)| > 0)
    && (forall e :: e in groups ==>
          |GroupValues(named, base + ["indicador"], "prevalencia", e.key)| > 0
          && e.value == Mean(GroupValues(named, base + ["indicador"], "prevalencia", e.key)))
  }

  lemma PivotValuesWitness(rows: seq<Row>, base: seq<string>, show: real -> string, combo: seq<Cell>, name: string)
    requires |PivotValues(rows, base, show, combo, name)| > 0
    ensures |combo| == |base|
  {
    if !InPivot(rows[0], base, show, combo, name) {
      PivotValuesWitness(rows[1..], base, show, combo, name);
    }
  }

  /** The cell looked up for a combination and a name is the mean of the
      values that feed it. */
  lemma PivotCellValue(groups: seq<Entry>, rows: seq<Row>, base: seq<string>, show: real -> string, combo: seq<Cell>, name: string)
    requires "indicador" !in base && "prevalencia" !in base
    requires PivotGroups(groups, rows, base, show)
    requires |combo| == |base|
    ensures CellFor(groups, combo + [Text(name)]) == PivotCell(PivotValues(rows, base, show, combo, name))
  {
    RelabelGroups(rows, base, show, combo, name);
  }

  /** A combination of the groups is observed. */
  lemma ComboObserved(groups: seq<Entry>, rows: seq<Row>, base: seq<string>, show: real -> string, combo: seq<Cell>)
    requires "indicador" !in base && "prevalencia" !in base
    requires PivotGroups(groups, rows, base, show)
    requires combo in Combos(groups, |base|)
    ensures Observed(rows, base, show, combo) && |combo| == |base|
  {
    var i :| 0 <= i < |groups| && Prefix(groups[i].key, |base|) == combo;
    var name := NameAt(groups[i].key, |base|);
    assert groups[i] in groups;
    RelabelGroupShape(rows, base, show, groups[i].key);
    assert groups[i].key == combo + [Text(name)];
    RelabelGroups(rows, base, show, combo, name);
    assert |PivotValues(rows, base, show, combo, name)| > 0;
  }

  /** An observed combination is a combination of the groups. */
  lemma ObservedCombo(groups: seq<Entry>, rows: seq<Row>, base: seq<string>, show: real -> string, combo: seq<Cell>, name: string)
    requires "indicador" !in base && "prevalencia" !in base
    requires PivotGroups(groups, rows, base, show)
    requires |PivotValues(rows, base, show, combo, name)| > 0
    ensures combo in Combos(groups, |base|) && name in Names(groups, |base|)
  {
    PivotValuesWitness(rows, base, show, combo, name);
    RelabelGroups(rows, base, show, combo, name);
    var k := combo + [Text(name)];
    assert k in Keys(groups);
    var i :| 0 <= i < |groups| && Keys(groups)[i] == k;
    assert groups[i].key == k;
    assert k[..|base|] == combo;
    assert Prefix(groups[i].key, |base|) == combo;
    assert NameAt(groups[i].key, |base|) == name;
  }

  /** A name of the groups is measured. */
  lemma NameMeasured(groups: seq<Entry>, rows: seq<Row>, base: seq<string>, show: real -> string, name: string)
    requires "indicador" !in base && "prevalencia" !in base
    requires PivotGroups(groups, rows, base, show)
    requires name in Names(groups, |base|)
    ensures Measured(rows, base, show, name)
  {
    var i :| 0 <= i < |groups| && NameAt(groups[i].key, |base|) == name;
    var combo := Prefix(groups[i].key, |base|);
    assert groups[i] in groups;
    RelabelGroupShape(rows, base, show, groups[i].key);
    assert groups[i].key == combo + [Text(name)];
    RelabelGroups(rows, base, show, combo, name);
    assert |PivotValues(rows, base, show, combo, name)| > 0;
  }

  /** The combinations of the groups are the observed ones, and their names
      the measured indicators. */
  lemma PivotAxes(groups: seq<Entry>, rows: seq<Row>, base: seq<string>, show: real -> string)
    requires "indicador" !in base && "prevalencia" !in base
    requires PivotGroups(groups, rows, base, show)
    ensures forall combo :: combo in Combos(groups, |base|) ==> |combo| == |base|
    ensures forall combo :: combo in Combos(groups, |base|) <==> Observed(rows, base, show, combo)
    ensures forall name :: name in Names(groups, |base|) <==> Measured(rows, base, show, name)
  {
    forall combo | combo in Combos(groups, |base|)
      ensures Observed(rows, base, show, combo) && |combo| == |base|
    {
      ComboObserved(groups, rows, base, show, combo);
    }
    forall combo | Observed(rows, base, show, combo)
      ensures combo in Combos(groups, |base|)
    {
      var name :| |PivotValues(rows, base, show, combo, name)| > 0;
      ObservedCombo(groups, rows, base, show, combo, name);
    }
    forall name | name in Names(groups, |base|)
      ensures Measured(rows, base, show, name)
    {
      NameMeasured(groups, rows, base, show, name);
    }
    forall name | Measured(rows, base, show, name)
      ensures name in Names(groups, |base|)
    {
      var combo :| |PivotValues(rows, base, show, combo, name)| > 0;
      ObservedCombo(groups, rows, base, show, combo, name);
    }
  }

  /** The keys of the rows: `[x[c] for c in base]` per row. */
  function RowKeys(rows: seq<Row>, base: seq<string>): (r: seq<seq<Cell>>)
    ensures |r| == |rows|
    ensures forall i :: 0 <= i < |rows| ==> r[i] == KeyOf(rows[i], base)
  {
    seq(|rows|, i requires 0 <= i < |rows| => KeyOf(rows[i], base))
  }

  /** `pivot_table(...).reset_index()` with the columns renamed. */
  function Pivot(base: seq<string>, groups: seq<Entry>): Table
    requires forall combo :: combo in Combos(groups, |base|) ==> |combo| == |base|
  {
    var combos := Combos(groups, |base|);
    var names := Names(groups, |base|);
    var rows :=
      if |base| > 0 then seq(|combos|, i requires 0 <= i < |combos| => WideRow(base, combos[i], names, groups))
      else [WideRow(base, [], names, groups)];
    Table(Lead(base) + WideNames(base, names), rows)
  }

  /** A wide row carries its combination in the dimension columns. */
  lemma WideRowKey(base: seq<string>, combo: seq<Cell>, names: seq<string>, groups: seq<Entry>)
    requires Distinct(base) && |base| > 0
    requires |combo| == |base|
    ensures KeyOf(WideRow(base, combo, names, groups), base) == combo
  {
    forall j | 0 <= j < |base| ensures base[j] !in base[j + 1..] {
      var rest := base[j + 1..];
      assert forall k :: 0 <= k < |rest| ==> rest[k] == base[j + 1 + k];
    }
  }
  /** Sorted names are free of repeats. */
  lemma NamesDistinct(names: seq<string>)
    requires StrictlySorted(names, StrLt)
    ensures Distinct(names)
  {
    StrLtIsStrictTotal();
  }

  /** An indicator column is never a lead column. */
  lemma NotLead(base: seq<string>, n: string)
    requires forall c :: c in base ==> c in DimCols
    requires |base| > 0 || n != "index"
    ensures "prev_" + n !in Lead(base)
  {
    var w := "prev_" + n;
    if |base| > 0 {
      DimsAreNotIndicators(base, n);
    } else {
      assert w[5..] == n && "prev_index"[5..] == "index";
    }
  }

  /** Where the column of an indicator name sits among the wide names. */
  lemma WideNamePosition(base: seq<string>, names: seq<string>, n: string)
    requires forall c :: c in base ==> c in DimCols
    requires Distinct(names) && n !in base
    ensures n !in names ==> "prev_" + n !in WideNames(base, names)
    ensures n in names ==>
              exists j :: (&& 0 <= j < |names| && names[j] == n
                           && WideNames(base, names)[j] == "prev_" + n
                           && "prev_" + n !in WideNames(base, names)[j + 1..])
  {
    var wn := WideNames(base, names);
    var w := "prev_" + n;
    assert WideName(base, n) == w;
    forall k | 0 <= k < |names| && wn[k] == w ensures names[k] == n {
      WideNameInjective(base, names[k], n);
    }
    if n in names {
      var j :| 0 <= j < |names| && names[j] == n;
      var rest := wn[j + 1..];
      assert forall k :: 0 <= k < |rest| ==> rest[k] == wn[j + 1 + k];
      assert w !in rest;
    }
  }

  /** The column of a listed name holds its looked-up cell; an unlisted
      name has no column. */
  lemma WideRowIndicator(base: seq<string>, combo: seq<Cell>, names: seq<string>, groups: seq<Entry>, n: string)
    requires forall c :: c in base ==> c in DimCols
    requires |combo| == |base| && Distinct(names)
    requires n !in base && (|base| > 0 || n != "index")
    ensures n in names ==> Get(WideRow(base, combo, names, groups), "prev_" + n) == CellFor(groups, combo + [Text(n)])
    ensures n !in names ==> Get(WideRow(base, combo, names, groups), "prev_" + n) == Null
  {
    var wn := WideNames(base, names);
    var cells := IndicatorCells(groups, combo, names);
    var inner := Assign(map[], wn, cells);
    NotLead(base, n);
    assert Get(WideRow(base, combo, names, groups), "prev_" + n) == Get(inner, "prev_" + n);
    WideNamePosition(base, names, n);
  }

  /** The indicator cell of a wide row is the mean of the values that feed it,
      and null where none does. */
  lemma WideRowCell(groups: seq<Entry>, rows: seq<Row>, base: seq<string>, show: real -> string, combo: seq<Cell>, n: string)
    requires forall c :: c in base ==> c in DimCols
    requires "indicador" !in base && "prevalencia" !in base
    requires PivotGroups(groups, rows, base, show)
    requires |combo| == |base|
    requires n !in base && (|base| > 0 || n != "index")
    ensures Get(WideRow(base, combo, Names(groups, |base|), groups), "prev_" + n)
            == PivotCell(PivotValues(rows, base, show, combo, n))
  {
    var names := Names(groups, |base|);
    NamesDistinct(names);
    WideRowIndicator(base, combo, names, groups, n);
    if n in names {
      PivotCellValue(groups, rows, base, show, combo, n);
    } else if |PivotValues(rows, base, show, combo, n)| > 0 {
      ObservedCombo(groups, rows, base, show, combo, n);
    }
  }
  /** What the wide table built from long rows holds: the lead columns, one
      column per measured indicator, one row per observed combination in
      ascending order, and in each indicator cell the mean of the values that
      feed it. */
  ghost predicate WideOf(w: Table, rows: seq<Row>, base: seq<string>, show: real -> string) {
    && WideColumns(w, rows, base, show)
    && WideRowKeys(w, rows, base, show)
    && WideSingleRow(w, base)
    && WideCells(w, rows, base, show)
  }

  /** The lead columns first, then one column per measured indicator, and
      nothing else: the renamed indicator names in ascending order. */
  ghost predicate WideColumns(w: Table, rows: seq<Row>, base: seq<string>, show: real -> string) {
    var lead := Lead(base);
    && |lead| <= |w.columns| && w.columns[..|lead|] == lead
    && (forall n :: Measured(rows, base, show, n) <==> WideName(base, n) in w.columns[|lead|..])
    && exists names :: && w.columns[|lead|..] == WideNames(base, names)
                       && StrictlySorted(names, StrLt)
                       && (forall n :: n in names <==> Measured(rows, base, show, n))
  }

  /** With dimensions, one row per observed combination, in ascending order. */
  ghost predicate WideRowKeys(w: Table, rows: seq<Row>, base: seq<string>, show: real -> string) {
    |base| > 0 ==>
      && StrictlySorted(RowKeys(w.rows, base), KeyLt)
      && (forall combo :: combo in RowKeys(w.rows, base) <==> Observed(rows, base, show, combo))
  }

  /** Without dimensions, the single transposed row. */
  ghost predicate WideSingleRow(w: Table, base: seq<string>) {
    |base| == 0 ==> |w.rows| == 1 && Get(w.rows[0], "prev_index") == Text("prevalencia")
  }

  /** Each indicator cell is the mean of the values that feed it. */
  ghost predicate WideCells(w: Table, rows: seq<Row>, base: seq<string>, show: real -> string) {
    forall x, n :: x in w.rows && n !in base && (|base| > 0 || n != "index") ==>
      Get(x, "prev_" + n) == PivotCell(PivotValues(rows, base, show, KeyOf(x, base), n))
  }

  lemma PivotColumns(groups: seq<Entry>, rows: seq<Row>, base: seq<string>, show: real -> string)
    requires forall c :: c in base ==> c in DimCols
    requires "indicador" !in base && "prevalencia" !in base
    requires PivotGroups(groups, rows, base, show)
    ensures forall combo :: combo in Combos(groups, |base|) ==> |combo| == |base|
    ensures WideColumns(Pivot(base, groups), rows, base, show)
  {
    PivotAxes(groups, rows, base, show);
    var names := Names(groups, |base|);
    var w := Pivot(base, groups);
    assert w.columns[|Lead(base)|..] == WideNames(base, names);
    assert StrictlySorted(names, StrLt);
    forall n ensures Measured(rows, base, show, n) <==> WideName(base, n) in WideNames(base, names) {
      if WideName(base, n) in WideNames(base, names) {
        var j :| 0 <= j < |names| && WideNames(base, names)[j] == WideName(base, n);
        WideNameInjective(base, names[j], n);
      }
      if Measured(rows, base, show, n) {
        var j :| 0 <= j < |names| && names[j] == n;
        assert WideNames(base, names)[j] == WideName(base, n);
      }
    }
  }

  lemma PivotRows(groups: seq<Entry>, rows: seq<Row>, base: seq<string>, show: real -> string)
    requires forall c :: c in base ==> c in DimCols
    requires Distinct(base) && |base| > 0
    requires "indicador" !in base && "prevalencia" !in base
    requires PivotGroups(groups, rows, base, show)
    ensures forall combo :: combo in Combos(groups, |base|) ==> |combo| == |base|
    ensures RowKeys(Pivot(base, groups).rows, base) == Combos(groups, |base|)
    ensures WideCells(Pivot(base, groups), rows, base, show)
  {
    PivotAxes(groups, rows, base, show);
    PivotRowKeys(groups, base);
    var combos := Combos(groups, |base|);
    var names := Names(groups, |base|);
    var w := Pivot(base, groups);
    forall x, n | x in w.rows && n !in base
      ensures Get(x, "prev_" + n) == PivotCell(PivotValues(rows, base, show, KeyOf(x, base), n))
    {
      var i :| 0 <= i < |w.rows| && w.rows[i] == x;
      assert x == WideRow(base, combos[i], names, groups) && KeyOf(x, base) == combos[i];
      WideRowCell(groups, rows, base, show, combos[i], n);
    }
  }

  /** With dimensions, the wide rows are the combinations in order. */
  lemma PivotRowKeys(groups: seq<Entry>, base: seq<string>)
    requires Distinct(base) && |base| > 0
    requires forall combo :: combo in Combos(groups, |base|) ==> |combo| == |base|
    ensures var combos := Combos(groups, |base|);
            && |Pivot(base, groups).rows| == |combos|
            && (forall i :: 0 <= i < |combos| ==>
                  Pivot(base, groups).rows[i] == WideRow(base, combos[i], Names(groups, |base|), groups))
            && RowKeys(Pivot(base, groups).rows, base) == combos
  {
    var combos := Combos(groups, |base|);
    var names := Names(groups, |base|);
    var w := Pivot(base, groups);
    forall i | 0 <= i < |combos| ensures KeyOf(w.rows[i], base) == combos[i] {
      assert combos[i] in combos;
      WideRowKey(base, combos[i], names, groups);
    }
  }


  lemma PivotNoBase(groups: seq<Entry>, rows: seq<Row>, show: real -> string)
    requires PivotGroups(groups, rows, [], show)
    ensures forall combo :: combo in Combos(groups, 0) ==> |combo| == 0
    ensures WideSingleRow(Pivot([], groups), [])
    ensures WideCells(Pivot([], groups), rows, [], show)
  {
    PivotAxes(groups, rows, [], show);
    var x := WideRow([], [], Names(groups, 0), groups);
    PivotNoBaseRow(groups);
    forall n | n != "index"
      ensures Get(x, "prev_" + n) == PivotCell(PivotValues(rows, [], show, [], n))
    {
      WideRowCell(groups, rows, [], show, [], n);
    }
    assert KeyOf(x, []) == [];
  }

  /** Without dimensions the single row is labelled `prevalencia`. */
  lemma PivotNoBaseRow(groups: seq<Entry>)
    requires forall combo :: combo in Combos(groups, 0) ==> |combo| == 0
    ensures Pivot([], groups).rows == [WideRow([], [], Names(groups, 0), groups)]
    ensures WideSingleRow(Pivot([], groups), [])
  {
  }


  /** The pivot of the group means is the wide table of the long rows. */
  lemma PivotIsWide(groups: seq<Entry>, rows: seq<Row>, base: seq<string>, show: real -> string)
    requires forall c :: c in base ==> c in DimCols
    requires Distinct(base)
    requires "indicador" !in base && "prevalencia" !in base
    requires PivotGroups(groups, rows, base, show)
    ensures forall combo :: combo in Combos(groups, |base|) ==> |combo| == |base|
    ensures WideOf(Pivot(base, groups), rows, base, show)
  {
    if |base| > 0 {
      PivotIsWideOnDims(groups, rows, base, show);
    } else {
      PivotIsWideWithoutDims(groups, rows, show);
    }
  }

  lemma PivotIsWideOnDims(groups: seq<Entry>, rows: seq<Row>, base: seq<string>, show: real -> string)
    requires forall c :: c in base ==> c in DimCols
    requires Distinct(base) && |base| > 0
    requires "indicador" !in base && "prevalencia" !in base
    requires PivotGroups(groups, rows, base, show)
    ensures forall combo :: combo in Combos(groups, |base|) ==> |combo| == |base|
    ensures WideOf(Pivot(base, groups), rows, base, show)
  {
    PivotAxes(groups, rows, base, show);
    PivotColumns(groups, rows, base, show);
    PivotRows(groups, rows, base, show);
  }

  lemma PivotIsWideWithoutDims(groups: seq<Entry>, rows: seq<Row>, show: real -> string)
    requires PivotGroups(groups, rows, [], show)
    ensures forall combo :: combo in Combos(groups, 0) ==> |combo| == 0
    ensures WideOf(Pivot([], groups), rows, [], show)
  {
    PivotAxes(groups, rows, [], show);
    PivotColumns(groups, rows, [], show);
    PivotNoBase(groups, rows, show);
  }

  /** A wide column is a dimension or an indicator. */
  lemma PivotColumnKinds(base: seq<string>, groups: seq<Entry>)
    requires forall c :: c in base ==> c in DimCols
    requires forall combo :: combo in Combos(groups, |base|) ==> |combo| == |base|
    ensures forall c :: c in Pivot(base, groups).columns ==> c in DimCols || IsIndicator(c)
  {
    var names := Names(groups, |base|);
    assert Pivot(base, groups).columns == Lead(base) + WideNames(base, names);
    WideColumnKinds(base, names);
  }

  lemma WideColumnKinds(base: seq<string>, names: seq<string>)
    requires forall c :: c in base ==> c in DimCols
    ensures forall c :: c in Lead(base) + WideNames(base, names) ==> c in DimCols || IsIndicator(c)
  {
    var wide := WideNames(base, names);
    IndexColumnIsIndicator();
    forall c | c in Lead(base) + wide ensures c in DimCols || IsIndicator(c) {
      if c in wide {
        var j :| 0 <= j < |wide| && wide[j] == c;
        if names[j] !in base {
          TaggedIsIndicator(names[j]);
        }
      }
    }
  }

  lemma IndexColumnIsIndicator()
    ensures IsIndicator("prev_index")
  {
    assert "prev_index" == "prev_" + "index";
    TaggedIsIndicator("index");
  }

  lemma TaggedIsIndicator(name: string)
    ensures IsIndicator("prev_" + name)
  {
    assert ("prev_" + name)[..5] == "prev_";
  }

  /** `_wide_from_long`: the long rows pivoted to one row per combination of
      the dimension columns present and one column per indicator, holding
      the mean prevalence. */
  function WideFromLong(long: Table, show: real -> string): (r: Res<Table>)
    ensures r.Failure? <==>
              || "indicador" !in long.columns || "prevalencia" !in long.columns
              || exists y :: y in long.rows && Get(y, "prevalencia").Text?
    ensures r.Failure? ==>
              r.error == if "indicador" !in long.columns then KeyError("indicador")
                         else if "prevalencia" !in long.columns then KeyError("prevalencia")
                         else NotNumeric("prevalencia")
    ensures r.Success? ==> WideOf(r.value, long.rows, PresentDims(long.columns), show)
    ensures r.Success? ==> forall c :: c in r.value.columns ==> c in DimCols || IsIndicator(c)
  {
    var base := PresentDims(long.columns);
    if "indicador" !in long.columns then Failure(KeyError("indicador"))
    else if "prevalencia" !in long.columns then Failure(KeyError("prevalencia"))
    else
      var named := RelabelAll(long.rows, show);
      RelabelKeepsValues(long.rows, show);
      var groups :- GroupedMean(named, base + ["indicador"], "prevalencia");
      PivotIsWide(groups, long.rows, base, show);
      PivotColumnKinds(base, groups);
      Success(Pivot(base, groups))
  }
  // ------------------------------------------------------------- metadata

  /** The lists the dashboard builds its controls from. */
  datatype Meta = Meta(
    indicators: seq<string>,
    anos: seq<int>,
    cidades: seq<string>,
    sexos: seq<string>,
    faixaEtaria: seq<string>,
    faixaEscolaridade: seq<string>)

  /** A row kept by `dropna` over the year and city columns the table has. */
  predicate Complete(columns: seq<string>, x: Row) {
    && ("ano" in columns ==> Get(x, "ano") != Null)
    && ("cidade_nome" in columns ==> Get(x, "cidade_nome") != Null)
  }

  /** `dropna(subset=[ano, cidade_nome])`: the rows with both, in order. */
  function DropIncomplete(t: Table): (r: Table)
    ensures r.columns == t.columns
    ensures IsSubseq(r.rows, t.rows)
    ensures forall x :: x in r.rows <==> x in t.rows && Complete(t.columns, x)
    ensures forall x :: multiset(r.rows)[x] == if Complete(t.columns, x) then multiset(t.rows)[x] else 0
  {
    FilterCounts(t.rows, (x: Row) => Complete(t.columns, x));
    Table(t.columns, Filter(t.rows, (x: Row) => Complete(t.columns, x)))
  }

  /** The strings held in a column, row by row. */
  function TextValues(rows: seq<Row>, col: string): (r: seq<string>)
    ensures forall v :: v in r <==> exists x :: x in rows && Get(x, col) == Text(v)
  {
    if |rows| == 0 then []
    else
      var rest := TextValues(rows[1..], col);
      assert forall x :: x in rows <==> x == rows[0] || x in rows[1..];
      if Get(rows[0], col).Text? then [Get(rows[0], col).s] + rest else rest
  }

  /** The categories of a normalised label column: its distinct strings in
      ascending order; none when the table lacks the column. */
  function Categories(t: Table, col: string): (r: seq<string>)
    ensures StrictlySorted(r, StrLt)
    ensures col !in t.columns ==> r == []
    ensures col in t.columns ==> forall v :: v in r <==> exists x :: x in t.rows && Get(x, col) == Text(v)
  {
    StrLtIsStrictTotal();
    if col in t.columns then SortDistinct(TextValues(t.rows, col), StrLt) else []
  }

  /** The whole-number years of the rows, row by row. `int(a)` truncates
      toward zero; the years reaching here are whole `Int16` numbers, for
      which truncation and `Floor` agree. */
  function YearValues(rows: seq<Row>): (r: seq<int>)
    ensures forall a :: a in r <==> exists x :: x in rows && Get(x, "ano").Num? && Get(x, "ano").n.Floor == a
  {
    if |rows| == 0 then []
    else
      var rest := YearValues(rows[1..]);
      assert forall x :: x in rows <==> x == rows[0] || x in rows[1..];
      if Get(rows[0], "ano").Num? then [Get(rows[0], "ano").n.Floor] + rest else rest
  }

  /** The indicator columns in ascending order. */
  function SortedIndicators(columns: seq<string>): (r: seq<string>)
    ensures Sorted(r, StrLt)
    ensures multiset(r) == multiset(Filter(columns, IsIndicator))
    ensures forall c :: c in r <==> c in columns && IsIndicator(c)
  {
    StrLtIsStrictTotal();
    var r := Sort(Filter(columns, IsIndicator), StrLt);
    assert forall c :: c in r <==> c in multiset(r);
    r
  }

  /** The last step of `load_cubo`: rows without a year or a city dropped,
      then the metadata. The indicator list and the years come from the kept
      rows; the label lists are the categories, which the dropped rows still
      contribute to. Reading the year or the city column raises when the
      table lacks it. */
  function Finalize(t: Table): (r: Res<(Table, Meta)>)
    ensures r.Failure? <==> "ano" !in t.columns || "cidade_nome" !in t.columns
    ensures r.Failure? ==> r.error == if "ano" !in t.columns then KeyError("ano") else KeyError("cidade_nome")
    ensures r.Success? ==> r.value.0 == DropIncomplete(t)
    ensures r.Success? ==> forall x :: x in r.value.0.rows ==> Get(x, "ano") != Null && Get(x, "cidade_nome") != Null
    ensures r.Success? ==> var meta := r.value.1;
              && Sorted(meta.indicators, StrLt)
              && multiset(meta.indicators) == multiset(Filter(t.columns, IsIndicator))
              && StrictlySorted(meta.anos, IntLt)
              && (forall a :: a in meta.anos <==>
                    exists x :: x in r.value.0.rows && Get(x, "ano").Num? && Get(x, "ano").n.Floor == a)
              && meta.cidades == Categories(t, "cidade_nome")
              && meta.sexos == Categories(t, "sexo")
              && meta.faixaEtaria == Categories(t, "faixa_etaria")
              && meta.faixaEscolaridade == Categories(t, "faixa_escolaridade")
  {
    if "ano" !in t.columns then Failure(KeyError("ano"))
    else if "cidade_nome" !in t.columns then Failure(KeyError("cidade_nome"))
    else
      var kept := DropIncomplete(t);
      IntLtIsStrictTotal();
      var meta := Meta(
        SortedIndicators(t.columns),
        SortDistinct(YearValues(kept.rows), IntLt),
        Categories(t, "cidade_nome"),
        Categories(t, "sexo"),
        Categories(t, "faixa_etaria"),
        Categories(t, "faixa_escolaridade"));
      Success((kept, meta))
  }
  // ------------------------------------------------------------ load_cubo

  /** What every cube `load_cubo` returns satisfies: each row has a
      whole-number `Int16` year and a normalised city; no indicator cell
      holds text; the metadata lists are sorted, the years and indicators
      are exactly those of the table, and every label listed is
      normalised. */
  ghost predicate Prepared(df: Table, meta: Meta) {
    && "ano" in df.columns && "cidade_nome" in df.columns
    && (forall x :: x in df.rows ==>
          && Get(x, "ano").Num? && IsInt16(Get(x, "ano").n)
          && Get(x, "cidade_nome").Text? && IsNormal(Get(x, "cidade_nome").s))
    && (forall x, c :: x in df.rows && c in df.columns && IsIndicator(c) ==> !Get(x, c).Text?)
    && Sorted(meta.indicators, StrLt)
    && (forall c :: c in meta.indicators <==> c in df.columns && IsIndicator(c))
    && StrictlySorted(meta.anos, IntLt)
    && (forall a :: a in meta.anos <==> exists x :: x in df.rows && Get(x, "ano") == Num(a as real))
    && StrictlySorted(meta.cidades, StrLt)
    && (forall x :: x in df.rows ==> Get(x, "cidade_nome").s in meta.cidades)
    && (forall v :: v in meta.cidades + meta.sexos + meta.faixaEtaria + meta.faixaEscolaridade ==> IsNormal(v))
  }

  /** What both downcasts leave in a table: years that are null or
      `Int16`, labels that are null or normalised, no text in an indicator. */
  ghost predicate Coerced(d: Table) {
    && (forall x :: x in d.rows && "ano" in d.columns ==>
          Get(x, "ano").Null? || (Get(x, "ano").Num? && IsInt16(Get(x, "ano").n)))
    && (forall x, c :: x in d.rows && c in LabelCols && c in d.columns ==>
          Get(x, c).Null? || (Get(x, c).Text? && IsNormal(Get(x, c).s)))
    && (forall x, c :: x in d.rows && c in d.columns && IsIndicator(c) ==> !Get(x, c).Text?)
  }

  lemma LabelsAreNotIndicators()
    ensures forall c :: c in LabelCols ==> !IsIndicator(c)
    ensures !IsIndicator("ano")
  {
    assert "cidade_nome"[..5][0] == 'c' && "sexo"[0] == 's';
    assert "faixa_etaria"[..5][0] == 'f' && "faixa_escolaridade"[..5][0] == 'f';
  }

  /** Both downcasts leave a coerced table. */
  lemma DowncastsCoerce(t: Table, parse: string -> Option<real>, decompose: string -> string, show: real -> string)
    requires DowncastDims(t, parse, decompose, show).Success?
    ensures Coerced(DowncastIndicators(DowncastDims(t, parse, decompose, show).value, parse))
  {
    var d := DowncastIndicators(DowncastDims(t, parse, decompose, show).value, parse);
    LabelsAreNotIndicators();
    forall x | x in d.rows
      ensures "ano" in d.columns ==> Get(x, "ano").Null? || (Get(x, "ano").Num? && IsInt16(Get(x, "ano").n))
      ensures forall c :: c in LabelCols && c in d.columns ==>
                Get(x, c).Null? || (Get(x, c).Text? && IsNormal(Get(x, c).s))
    {
      var i :| 0 <= i < |d.rows| && d.rows[i] == x;
    }
  }

  /** The years of the kept rows, as the metadata lists them. */
  lemma FinalizeYears(d: Table)
    requires Coerced(d) && Finalize(d).Success?
    ensures var r := Finalize(d).value;
            forall a :: a in r.1.anos <==> exists x :: x in r.0.rows && Get(x, "ano") == Num(a as real)
  {
    var r := Finalize(d).value;
    forall a | a in r.1.anos
      ensures exists x :: x in r.0.rows && Get(x, "ano") == Num(a as real)
    {
      var x :| x in r.0.rows && Get(x, "ano").Num? && Get(x, "ano").n.Floor == a;
    }
    forall a | exists x :: x in r.0.rows && Get(x, "ano") == Num(a as real)
      ensures a in r.1.anos
    {
      var x :| x in r.0.rows && Get(x, "ano") == Num(a as real);
      assert Get(x, "ano").n.Floor == a;
    }
  }

  /** The label lists hold normalised strings only. */
  lemma FinalizeLabels(d: Table)
    requires Coerced(d) && Finalize(d).Success?
    ensures var m := Finalize(d).value.1;
            forall v :: v in m.cidades + m.sexos + m.faixaEtaria + m.faixaEscolaridade ==> IsNormal(v)
  {
    var m := Finalize(d).value.1;
    CategoriesNormal(d, "cidade_nome");
    CategoriesNormal(d, "sexo");
    CategoriesNormal(d, "faixa_etaria");
    CategoriesNormal(d, "faixa_escolaridade");
    assert forall v :: v in m.cidades + m.sexos + m.faixaEtaria + m.faixaEscolaridade ==>
             v in m.cidades || v in m.sexos || v in m.faixaEtaria || v in m.faixaEscolaridade;
  }

  /** The categories of a coerced label column are normalised strings. */
  lemma CategoriesNormal(d: Table, col: string)
    requires Coerced(d) && col in LabelCols
    ensures forall v :: v in Categories(d, col) ==> IsNormal(v)
  {
    forall v | v in Categories(d, col) ensures IsNormal(v) {
      var x :| x in d.rows && Get(x, col) == Text(v);
    }
  }

  /** The last step turns a coerced table into a prepared cube. */
  lemma FinalizePrepared(d: Table)
    requires Coerced(d) && Finalize(d).Success?
    ensures Prepared(Finalize(d).value.0, Finalize(d).value.1)
  {
    var r := Finalize(d).value;
    assert forall x :: x in r.0.rows ==> x in d.rows;
    FinalizeYears(d);
    FinalizeLabels(d);
  }
  /** Both downcasts and the last step, on the table read or pivoted. */
  function Prepare(t: Table, parse: string -> Option<real>, decompose: string -> string, show: real -> string): (r: Res<(Table, Meta)>)
    ensures r.Failure? <==>
              || DowncastDims(t, parse, decompose, show).Failure?
              || "ano" !in t.columns || "cidade_nome" !in t.columns
    ensures r.Failure? ==> r.error in {NotInt16("ano"), KeyError("ano"), KeyError("cidade_nome")}
    ensures r.Success? ==> Prepared(r.value.0, r.value.1)
    ensures r.Success? ==> r.value.0.columns == t.columns
    ensures r.Success? ==> forall i :: 0 <= i < |t.rows| ==>
              && CoerceRow(t.rows[i], t.columns, parse, decompose, show).Success?
              && (CoerceRow(t.rows[i], t.columns, parse, decompose, show).value in r.value.0.rows
                  <== !ToNumber(Get(t.rows[i], "ano"), parse).Null? && !Get(t.rows[i], "cidade_nome").Null?)
    ensures r.Success? ==> forall x :: x in r.value.0.rows ==>
              exists i :: && 0 <= i < |t.rows| && CoerceRow(t.rows[i], t.columns, parse, decompose, show) == Success(x)
                          && !ToNumber(Get(t.rows[i], "ano"), parse).Null? && !Get(t.rows[i], "cidade_nome").Null?
    ensures r.Success? ==>
              && (forall i :: 0 <= i < |t.rows| ==> CoerceRow(t.rows[i], t.columns, parse, decompose, show).Success?)
              && IsSubseq(r.value.0.rows, CoercedRows(t, parse, decompose, show))
              && forall x :: multiset(r.value.0.rows)[x] ==
                   if Complete(t.columns, x) then multiset(CoercedRows(t, parse, decompose, show))[x] else 0
    ensures r.Success? ==> DowncastDims(t, parse, decompose, show).Success?
    ensures r.Success? ==>
              var c := DowncastIndicators(DowncastDims(t, parse, decompose, show).value, parse);
              var meta := r.value.1;
              && Sorted(meta.indicators, StrLt)
              && multiset(meta.indicators) == multiset(Filter(t.columns, IsIndicator))
              && meta.cidades == Categories(c, "cidade_nome")
              && meta.sexos == Categories(c, "sexo")
              && meta.faixaEtaria == Categories(c, "faixa_etaria")
              && meta.faixaEscolaridade == Categories(c, "faixa_escolaridade")
  {
    var d :- DowncastDims(t, parse, decompose, show);
    var c := DowncastIndicators(d, parse);
    DowncastsCoerce(t, parse, decompose, show);
    var r := Finalize(c);
    if r.Success? then
      FinalizePrepared(c);
      CoercedRowsKept(t, parse, decompose, show);
      CoercedTableRows(t, parse, decompose, show);
      r
    else r
  }

  /** One row of a file as `load_cubo` leaves it: dimensions cast, then
      indicators coerced to numbers. */
  function CoerceRow(x: Row, columns: seq<string>, parse: string -> Option<real>,
                     decompose: string -> string, show: real -> string): Res<Row>
  {
    var y :- DowncastRow(x, columns, parse, decompose, show);
    Success(NumericIndicators(y, columns, parse))
  }

  /** Every row of the file, coerced, in the file's order. */
  function CoercedRows(t: Table, parse: string -> Option<real>, decompose: string -> string, show: real -> string): (r: seq<Row>)
    requires forall i :: 0 <= i < |t.rows| ==> CoerceRow(t.rows[i], t.columns, parse, decompose, show).Success?
    ensures |r| == |t.rows|
  {
    seq(|t.rows|, i requires 0 <= i < |t.rows| => CoerceRow(t.rows[i], t.columns, parse, decompose, show).value)
  }

  /** The coerced table holds exactly the coerced rows of the file. */
  lemma CoercedTableRows(t: Table, parse: string -> Option<real>, decompose: string -> string, show: real -> string)
    requires DowncastDims(t, parse, decompose, show).Success?
    requires "ano" in t.columns && "cidade_nome" in t.columns
    ensures forall i :: 0 <= i < |t.rows| ==> CoerceRow(t.rows[i], t.columns, parse, decompose, show).Success?
    ensures DowncastIndicators(DowncastDims(t, parse, decompose, show).value, parse).rows
            == CoercedRows(t, parse, decompose, show)
  {
    var c := DowncastIndicators(DowncastDims(t, parse, decompose, show).value, parse);
    forall i | 0 <= i < |t.rows|
      ensures CoerceRow(t.rows[i], t.columns, parse, decompose, show) == Success(c.rows[i])
    {
      CoerceRowAt(t, i, parse, decompose, show);
    }
  }

  /** The rows `dropna` keeps of the coerced table: a row of the file
      survives exactly when its year, read as a number, and its city are
      present, and every kept row is a row of the file, coerced. */
  lemma CoercedRowsKept(t: Table, parse: string -> Option<real>, decompose: string -> string, show: real -> string)
    requires DowncastDims(t, parse, decompose, show).Success?
    requires "ano" in t.columns && "cidade_nome" in t.columns
    ensures var df := DropIncomplete(DowncastIndicators(DowncastDims(t, parse, decompose, show).value, parse));
            forall i :: 0 <= i < |t.rows| ==>
              && CoerceRow(t.rows[i], t.columns, parse, decompose, show).Success?
              && (CoerceRow(t.rows[i], t.columns, parse, decompose, show).value in df.rows
                  <== !ToNumber(Get(t.rows[i], "ano"), parse).Null? && !Get(t.rows[i], "cidade_nome").Null?)
    ensures var df := DropIncomplete(DowncastIndicators(DowncastDims(t, parse, decompose, show).value, parse));
            forall x :: x in df.rows ==>
              exists i :: && 0 <= i < |t.rows| && CoerceRow(t.rows[i], t.columns, parse, decompose, show) == Success(x)
                          && !ToNumber(Get(t.rows[i], "ano"), parse).Null? && !Get(t.rows[i], "cidade_nome").Null?
  {
    var c := DowncastIndicators(DowncastDims(t, parse, decompose, show).value, parse);
    var df := DropIncomplete(c);
    forall i | 0 <= i < |t.rows|
      ensures CoerceRow(t.rows[i], t.columns, parse, decompose, show).Success?
      ensures !ToNumber(Get(t.rows[i], "ano"), parse).Null? && !Get(t.rows[i], "cidade_nome").Null? ==>
                CoerceRow(t.rows[i], t.columns, parse, decompose, show).value in df.rows
    {
      CoerceRowAt(t, i, parse, decompose, show);
      assert c.rows[i] in c.rows;
    }
    forall x | x in df.rows
      ensures exists i :: && 0 <= i < |t.rows| && CoerceRow(t.rows[i], t.columns, parse, decompose, show) == Success(x)
                          && !ToNumber(Get(t.rows[i], "ano"), parse).Null? && !Get(t.rows[i], "cidade_nome").Null?
    {
      var i :| 0 <= i < |c.rows| && c.rows[i] == x;
      CoerceRowAt(t, i, parse, decompose, show);
    }
  }

  /** Row `i` of the coerced table is `CoerceRow` of row `i` of the file,
      and it is complete when its year and city are present in the file. */
  lemma CoerceRowAt(t: Table, i: int, parse: string -> Option<real>, decompose: string -> string, show: real -> string)
    requires DowncastDims(t, parse, decompose, show).Success?
    requires "ano" in t.columns && "cidade_nome" in t.columns
    requires 0 <= i < |t.rows|
    ensures var c := DowncastIndicators(DowncastDims(t, parse, decompose, show).value, parse);
            && CoerceRow(t.rows[i], t.columns, parse, decompose, show) == Success(c.rows[i])
            && (Complete(c.columns, c.rows[i]) <==>
                  !ToNumber(Get(t.rows[i], "ano"), parse).Null? && !Get(t.rows[i], "cidade_nome").Null?)
  {
    var d := DowncastDims(t, parse, decompose, show).value;
    var c := DowncastIndicators(d, parse);
    LabelsAreNotIndicators();
    assert d.rows[i] == DowncastRow(t.rows[i], t.columns, parse, decompose, show).value;
    assert c.rows[i] == NumericIndicators(d.rows[i], t.columns, parse);
  }

  /** `load_cubo`: the first wide file that exists, downcast; failing that,
      the first long file, downcast, pivoted to wide and downcast again;
      either way rows without a year or a city are dropped and the metadata
      built. Only when none of the four files exists is the cube not found. */
  function LoadCubo(disk: map<string, Table>, parse: string -> Option<real>,
                    decompose: string -> string, show: real -> string): (r: Res<(Table, Meta)>)
    ensures (r.Failure? && r.error == FileNotFound) <==> forall p :: p in WideFirst + LongFallback ==> p !in disk
    ensures r.Success? ==> Prepared(r.value.0, r.value.1)
    ensures r.Success? && FindFile(WideFirst, disk).None? ==>
              forall c :: c in r.value.0.columns ==> c in DimCols || IsIndicator(c)
    ensures FindFile(WideFirst, disk).Some? ==>
              r == Prepare(disk[FindFile(WideFirst, disk).value], parse, decompose, show)
    ensures FindFile(WideFirst, disk).None? && FindFile(LongFallback, disk).Some? ==>
              var f := FindFile(LongFallback, disk).value;
              r == LoadLong(f, disk[f], parse, decompose, show)
  {
    NoCubeFile(disk);
    match FindFile(WideFirst, disk)
    case Some(f) => Prepare(disk[f], parse, decompose, show)
    case None =>
      match FindFile(LongFallback, disk)
      case None => Failure(FileNotFound)
      case Some(f) => LoadLong(f, disk[f], parse, decompose, show)
  }

  /** None of the four cube files exists exactly when neither list finds one. */
  lemma NoCubeFile(disk: map<string, Table>)
    ensures (FindFile(WideFirst, disk).None? && FindFile(LongFallback, disk).None?)
            <==> forall p :: p in WideFirst + LongFallback ==> p !in disk
  {
  }

  /** The long-file branch of `load_cubo`: read, cast the dimensions, pivot,
      then prepare. Its failures are the errors of those steps. */
  function LoadLong(path: string, file: Table, parse: string -> Option<real>,
                    decompose: string -> string, show: real -> string): (r: Res<(Table, Meta)>)
    ensures r.Failure? ==> r.error != FileNotFound
    ensures r.Success? ==> Prepared(r.value.0, r.value.1)
    ensures r.Success? ==> forall c :: c in r.value.0.columns ==> c in DimCols || IsIndicator(c)
    ensures r.Success? ==>
              && ReadLong(path, file).Success?
              && DowncastDims(ReadLong(path, file).value, parse, decompose, show).Success?
              && var dims := DowncastDims(ReadLong(path, file).value, parse, decompose, show).value;
                 exists wide :: WideOf(wide, dims.rows, PresentDims(dims.columns), show)
                                && r == Prepare(wide, parse, decompose, show)
  {
    var long :- ReadLong(path, file);
    var dims :- DowncastDims(long, parse, decompose, show);
    var wide :- WideFromLong(dims, show);
    Prepare(wide, parse, decompose, show)
  }

  /** `_find_file` looks only at whether the listed paths exist. */
  lemma {:induction false} FindFileLocal(paths: seq<string>, d1: map<string, Table>, d2: map<string, Table>)
    requires forall p :: p in paths ==> (p in d1 <==> p in d2)
    ensures FindFile(paths, d1) == FindFile(paths, d2)
  {
    if |paths| > 0 && paths[0] !in d1 {
      FindFileLocal(paths[1..], d1, d2);
    }
  }

  /** Once a wide file exists, the long files do not matter: two disks that
      agree on the wide files load the same cube. */
  lemma LoadCuboPrefersWide(d1: map<string, Table>, d2: map<string, Table>, parse: string -> Option<real>,
                            decompose: string -> string, show: real -> string)
    requires exists p :: p in WideFirst && p in d1
    requires forall p :: p in WideFirst ==> (p in d1 <==> p in d2) && (p in d1 ==> d1[p] == d2[p])
    ensures LoadCubo(d1, parse, decompose, show) == LoadCubo(d2, parse, decompose, show)
  {
    FindFileLocal(WideFirst, d1, d2);
  }
}
