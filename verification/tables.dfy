/** The cube as a table of named columns. A row maps column names to cells;
    a cell is a null (NaN/NA/None), a number, or a string. */
module Tables {
  import opened Wrappers
  import opened Ordering

  datatype Cell = Null | Num(n: real) | Text(s: string)

  type Row = map<string, Cell>

  /** `columns` lists the frame's columns in order; each row holds the cells. */
  datatype Table = Table(columns: seq<string>, rows: seq<Row>)

  /** What the Python code raises, one constructor per failure. */
  datatype Error =
    | KeyError(column: string)        // df[c] or df[[..c..]] on a missing column
    | InvalidDimension(dim: string)   // barras_categoria's ValueError
    | NotNumeric(column: string)      // mean/astype over a column holding text
    | NotInt16(column: string)        // astype("Int16") of a fractional or out-of-range number
    | NoYear                          // int() of the max of a year column without a value
    | NoIndicators                    // INDICATORS[0] on an empty list
    | FileNotFound                    // neither the wide nor the long cube exists

  type Res<T> = Result<T, Error>

  /** The five dimension columns of the cube, in their canonical order. */
  const DimCols: seq<string> := ["ano", "cidade_nome", "sexo", "faixa_etaria", "faixa_escolaridade"]

  /** The cell of `col` in `x`; a column the row lacks reads as null. */
  function Get(x: Row, col: string): Cell {
    if col in x then x[col] else Null
  }

  /** `[x[c] for c in cols]`: the group key of a row. */
  function KeyOf(x: Row, cols: seq<string>): (k: seq<Cell>)
    ensures |k| == |cols|
    ensures forall i :: 0 <= i < |cols| ==> k[i] == Get(x, cols[i])
  {
    seq(|cols|, i requires 0 <= i < |cols| => Get(x, cols[i]))
  }

  /** A year filter value as the cell it is compared with. */
  function YearCells(anos: seq<int>): (r: seq<Cell>)
    ensures |r| == |anos|
    ensures forall i :: 0 <= i < |anos| ==> r[i] == Num(anos[i] as real)
    ensures forall a :: a in anos ==> Num(a as real) in r
    ensures forall c :: c in r ==> c.Num? && c.n == c.n.Floor as real && c.n.Floor in anos
  {
    seq(|anos|, i requires 0 <= i < |anos| => Num(anos[i] as real))
  }

  /** A label filter value as the cell it is compared with. */
  function LabelCells(labels: seq<string>): (r: seq<Cell>)
    ensures |r| == |labels|
    ensures forall i :: 0 <= i < |labels| ==> r[i] == Text(labels[i])
    ensures forall l :: l in labels ==> Text(l) in r
    ensures forall c :: c in r ==> c.Text? && c.s in labels
  {
    seq(|labels|, i requires 0 <= i < |labels| => Text(labels[i]))
  }

  /** The first of `wanted` that is not a column: what `df[wanted]` raises on. */
  function MissingColumn(columns: seq<string>, wanted: seq<string>): (r: Option<string>)
    ensures r.None? <==> forall c :: c in wanted ==> c in columns
    ensures r.Some? ==> r.value in wanted && r.value !in columns
  {
    if |wanted| == 0 then None
    else if wanted[0] !in columns then Some(wanted[0])
    else
      assert forall c :: c in wanted ==> c == wanted[0] || c in wanted[1..];
      MissingColumn(columns, wanted[1..])
  }

  /** Order of group keys: nulls, then numbers, then strings; numbers by value
      and strings as Python compares them. Pandas sorts group keys this way
      within one column (a key column never mixes numbers and strings). */
  function KindRank(c: Cell): int {
    match c
    case Null => 0
    case Num(_) => 1
    case Text(_) => 2
  }

  predicate CellLt(a: Cell, b: Cell) {
    if KindRank(a) != KindRank(b) then KindRank(a) < KindRank(b)
    else if a.Num? && b.Num? then a.n < b.n
    else if a.Text? && b.Text? then StrLt(a.s, b.s)
    else false
  }

  /** Tuple order of multi-column group keys. */
  predicate KeyLt(a: seq<Cell>, b: seq<Cell>) {
    LexLt(a, b, CellLt)
  }

  lemma CellLtIsStrictTotal()
    ensures StrictTotalOrder(CellLt)
  {
    StrLtIsStrictTotal();
  }

  lemma KeyLtIsStrictTotal()
    ensures StrictTotalOrder(KeyLt)
  {
    CellLtIsStrictTotal();
    forall a: seq<Cell> {
      LexIrreflexive(a, CellLt);
    }
    forall a: seq<Cell>, b: seq<Cell>, c: seq<Cell> | KeyLt(a, b) && KeyLt(b, c) {
      LexTransitive(a, b, c, CellLt);
    }
    forall a: seq<Cell>, b: seq<Cell> | a != b {
      LexTrichotomy(a, b, CellLt);
    }
  }
}
