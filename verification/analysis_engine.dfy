/** The query helpers the charts call: conjunctive row filtering, group means
    for the time series and the categorical bars, the top-k city ranking, and
    the latest-year and most-frequent-cities selectors. Every function is pure:
    it returns a new result and leaves the cube untouched. */
module AnalysisEngine {
  import opened Wrappers
  import opened Ordering
  import opened Sequences
  import opened Tables
  import opened Grouping

  /** The keyword filters of `_apply_filters`; `None` is the default. */
  datatype Filters = Filters(
    anos: Option<seq<int>>,
    cidades: Option<seq<string>>,
    sexos: Option<seq<string>>,
    faixaEtaria: Option<seq<string>>,
    faixaEscolaridade: Option<seq<string>>)

  /** Python's `if f:`: a filter restricts only when it is a non-empty list. */
  predicate Active<T>(f: Option<seq<T>>) {
    f.Some? && |f.value| > 0
  }

  /** A label filter restricts only when it is active and its column exists. */
  predicate LabelAdmits(columns: seq<string>, col: string, f: Option<seq<string>>, x: Row) {
    Active(f) && col in columns ==> Get(x, col) in LabelCells(f.value)
  }

  /** The conjunction of the five `isin` masks. The year mask has no
      column-existence guard. */
  predicate Admits(columns: seq<string>, fs: Filters, x: Row) {
    && (Active(fs.anos) ==> Get(x, "ano") in YearCells(fs.anos.value))
    && LabelAdmits(columns, "cidade_nome", fs.cidades, x)
    && LabelAdmits(columns, "sexo", fs.sexos, x)
    && LabelAdmits(columns, "faixa_etaria", fs.faixaEtaria, x)
    && LabelAdmits(columns, "faixa_escolaridade", fs.faixaEscolaridade, x)
  }

  function Selector(columns: seq<string>, fs: Filters): Row -> bool {
    (x: Row) => Admits(columns, fs, x)
  }

  /** `_apply_filters`: the rows every active filter admits, in their original
      order, under the same columns. A year filter on a cube without an `ano`
      column raises KeyError. */
  function ApplyFilters(t: Table, fs: Filters): (r: Res<Table>)
    ensures r.Failure? <==> Active(fs.anos) && "ano" !in t.columns
    ensures r.Failure? ==> r.error == KeyError("ano")
    ensures r.Success? ==> r.value.columns == t.columns && IsSubseq(r.value.rows, t.rows)
    ensures r.Success? ==> forall x :: x in r.value.rows ==> Admits(t.columns, fs, x)
    ensures r.Success? ==> forall x :: x in t.rows && Admits(t.columns, fs, x) ==> x in r.value.rows
    ensures r.Success? ==> forall x :: multiset(r.value.rows)[x] == if Admits(t.columns, fs, x) then multiset(t.rows)[x] else 0
  {
    if Active(fs.anos) && "ano" !in t.columns then Failure(KeyError("ano"))
    else
      FilterCounts(t.rows, Selector(t.columns, fs));
      Success(Table(t.columns, Filter(t.rows, Selector(t.columns, fs))))
  }

  /** With every filter empty or `None`, the input comes back unchanged. */
  lemma ApplyFiltersNoRestriction(t: Table, fs: Filters)
    requires !Active(fs.anos) && !Active(fs.cidades) && !Active(fs.sexos)
    requires !Active(fs.faixaEtaria) && !Active(fs.faixaEscolaridade)
    ensures ApplyFilters(t, fs) == Success(t)
  {
    FilterKeepsAll(t.rows, Selector(t.columns, fs));
  }

  /** Filtering twice with the same filters is filtering once. */
  lemma ApplyFiltersIdempotent(t: Table, fs: Filters)
    requires ApplyFilters(t, fs).Success?
    ensures ApplyFilters(ApplyFilters(t, fs).value, fs) == ApplyFilters(t, fs)
  {
    var once := ApplyFilters(t, fs).value;
    FilterKeepsAll(once.rows, Selector(once.columns, fs));
  }

  /** A row takes part in a group mean: its indicator is a number (pandas
      drops NaN before averaging) and no key cell is null (groupby drops
      null keys). */
  predicate Contributes(x: Row, keyCols: seq<string>, ind: string) {
    Get(x, ind).Num? && forall c :: c in keyCols ==> Get(x, c) != Null
  }

  /** Reference definition of a group: the indicator values of the rows
      that contribute under key `k`, in row order. */
  ghost function GroupValues(rows: seq<Row>, keyCols: seq<string>, ind: string, k: seq<Cell>): seq<real> {
    if |rows| == 0 then []
    else
      (if Contributes(rows[0], keyCols, ind) && KeyOf(rows[0], keyCols) == k
       then [Get(rows[0], ind).n] else [])
      + GroupValues(rows[1..], keyCols, ind, k)
  }

  lemma {:induction false} GroupValuesWitness(rows: seq<Row>, keyCols: seq<string>, ind: string, k: seq<Cell>)
    requires |GroupValues(rows, keyCols, ind, k)| > 0
    ensures exists x :: x in rows && Contributes(x, keyCols, ind) && KeyOf(x, keyCols) == k
  {
    if !(Contributes(rows[0], keyCols, ind) && KeyOf(rows[0], keyCols) == k) {
      GroupValuesWitness(rows[1..], keyCols, ind, k);
      var x :| x in rows[1..] && Contributes(x, keyCols, ind) && KeyOf(x, keyCols) == k;
      assert x in rows;
    } else {
      assert rows[0] in rows;
    }
  }

  /** Removing rows outside a group leaves the group's values as they were. */
  lemma {:induction false} GroupValuesUnderFilter(rows: seq<Row>, p: Row -> bool, keyCols: seq<string>, ind: string, k: seq<Cell>)
    requires forall x :: x in rows && Contributes(x, keyCols, ind) && KeyOf(x, keyCols) == k ==> p(x)
    ensures GroupValues(Filter(rows, p), keyCols, ind, k) == GroupValues(rows, keyCols, ind, k)
  {
    if |rows| > 0 {
      assert forall x :: x in rows[1..] ==> x in rows;
      GroupValuesUnderFilter(rows[1..], p, keyCols, ind, k);
      assert rows[0] in rows;
      if p(rows[0]) {
        var f := [rows[0]] + Filter(rows[1..], p);
        assert f[0] == rows[0] && f[1..] == Filter(rows[1..], p);
      }
    }
  }

  /** One observation per contributing row: its key and indicator value. */
  function Observations(rows: seq<Row>, keyCols: seq<string>, ind: string): (obs: seq<Entry>)
    ensures |obs| <= |rows|
  {
    if |rows| == 0 then []
    else
      var rest := Observations(rows[1..], keyCols, ind);
      if Contributes(rows[0], keyCols, ind) then
        [Entry(KeyOf(rows[0], keyCols), Get(rows[0], ind).n)] + rest
      else rest
  }

  lemma {:induction false} ObservationsMatchGroups(rows: seq<Row>, keyCols: seq<string>, ind: string, k: seq<Cell>)
    ensures ValuesWithKey(Observations(rows, keyCols, ind), k) == GroupValues(rows, keyCols, ind, k)
  {
    if |rows| > 0 {
      ObservationsMatchGroups(rows[1..], keyCols, ind, k);
      if Contributes(rows[0], keyCols, ind) {
        var obs := Observations(rows, keyCols, ind);
        assert obs[1..] == Observations(rows[1..], keyCols, ind);
      }
    }
  }

  /** A key is observed exactly when its group has a value. */
  lemma ObservedKeys(obs: seq<Entry>, k: seq<Cell>)
    ensures k in Keys(obs) <==> |ValuesWithKey(obs, k)| > 0
  {
    if k in Keys(obs) {
      KeyHasValues(obs, k);
    }
    if |ValuesWithKey(obs, k)| > 0 {
      var v := ValuesWithKey(obs, k)[0];
      assert v in ValuesWithKey(obs, k);
      var i :| 0 <= i < |obs| && obs[i] == Entry(k, v);
      assert Keys(obs)[i] == k;
    }
  }

  /** The group means of the contributing rows are the means of the reference
      groups, one per key that has a value. */
  lemma GroupsOfRows(rows: seq<Row>, keyCols: seq<string>, ind: string)
    ensures var g := GroupMean(Observations(rows, keyCols, ind));
      && |g| <= |rows|
      && (forall k :: k in Keys(g) <==> |GroupValues(rows, keyCols, ind, k)| > 0)
      && (forall e :: e in g ==>
            |GroupValues(rows, keyCols, ind, e.key)| > 0
            && e.value == Mean(GroupValues(rows, keyCols, ind, e.key)))
  {
    var obs := Observations(rows, keyCols, ind);
    forall k ensures ValuesWithKey(obs, k) == GroupValues(rows, keyCols, ind, k)
                     && (k in Keys(obs) <==> |ValuesWithKey(obs, k)| > 0) {
      ObservationsMatchGroups(rows, keyCols, ind, k);
      ObservedKeys(obs, k);
    }
  }

  /** `dropna(subset=[ind])`, then `groupby(keyCols, sort=True)[ind].mean()`:
      one entry per key that has a numeric value, in ascending key order,
      holding the mean of that key's values. Rows whose indicator is null
      never contribute, so nothing left after `dropna` gives no groups; text
      in the indicator column cannot be averaged. */
  function GroupedMean(rows: seq<Row>, keyCols: seq<string>, ind: string): (r: Res<seq<Entry>>)
    ensures r.Failure? <==> exists x :: x in rows && Get(x, ind).Text?
    ensures r.Failure? ==> r.error == NotNumeric(ind)
    ensures r.Success? ==> KeysAscending(r.value) && |r.value| <= |rows|
    ensures r.Success? ==> forall k :: k in Keys(r.value) <==> |GroupValues(rows, keyCols, ind, k)| > 0
    ensures r.Success? ==> forall e :: e in r.value ==>
              |GroupValues(rows, keyCols, ind, e.key)| > 0
              && e.value == Mean(GroupValues(rows, keyCols, ind, e.key))
  {
    if exists x :: x in rows && Get(x, ind).Text? then Failure(NotNumeric(ind))
    else
      GroupsOfRows(rows, keyCols, ind);
      Success(GroupMean(Observations(rows, keyCols, ind)))
  }

  /** Every mean returned lies between the smallest and the largest value of
      its group. */
  lemma GroupedMeanWithinRange(rows: seq<Row>, keyCols: seq<string>, ind: string)
    requires GroupedMean(rows, keyCols, ind).Success?
    ensures forall e :: e in GroupedMean(rows, keyCols, ind).value ==>
              MinOf(GroupValues(rows, keyCols, ind, e.key)) <= e.value <= MaxOf(GroupValues(rows, keyCols, ind, e.key))
  {
    forall e | e in GroupedMean(rows, keyCols, ind).value
      ensures MinOf(GroupValues(rows, keyCols, ind, e.key)) <= e.value <= MaxOf(GroupValues(rows, keyCols, ind, e.key))
    {
      MeanBetweenMinAndMax(GroupValues(rows, keyCols, ind, e.key));
    }
  }
  /** The filters `series_evolucao` passes on: the given years and cities. */
  function SeriesFilters(cidades: seq<string>, anos: Option<seq<int>>): Filters {
    Filters(anos, Some(cidades), None, None, None)
  }

  const SeriesKey: seq<string> := ["ano", "cidade_nome"]

  /** A (year, city) key the series filters select. */
  ghost predicate Chosen(k: seq<Cell>, cidades: seq<string>, anos: Option<seq<int>>) {
    && |k| == 2
    && (Active(anos) ==> k[0] in YearCells(anos.value))
    && (|cidades| > 0 ==> k[1] in LabelCells(cidades))
  }

  /** Selecting rows by year and city keeps every row of a chosen
      (year, city) group. */
  lemma SeriesGroupKept(t: Table, ind: string, cidades: seq<string>, anos: Option<seq<int>>, k: seq<Cell>)
    requires Chosen(k, cidades, anos)
    ensures GroupValues(Filter(t.rows, Selector(t.columns, SeriesFilters(cidades, anos))), SeriesKey, ind, k)
            == GroupValues(t.rows, SeriesKey, ind, k)
  {
    var fs := SeriesFilters(cidades, anos);
    forall x | x in t.rows && Contributes(x, SeriesKey, ind) && KeyOf(x, SeriesKey) == k
      ensures Selector(t.columns, fs)(x)
    {
      assert Get(x, "ano") == k[0] && Get(x, "cidade_nome") == k[1];
    }
    GroupValuesUnderFilter(t.rows, Selector(t.columns, fs), SeriesKey, ind, k);
  }

  /** A group left after selection by year and city is a chosen one. */
  lemma SeriesGroupChosen(t: Table, ind: string, cidades: seq<string>, anos: Option<seq<int>>, k: seq<Cell>)
    requires "cidade_nome" in t.columns
    requires |GroupValues(Filter(t.rows, Selector(t.columns, SeriesFilters(cidades, anos))), SeriesKey, ind, k)| > 0
    ensures Chosen(k, cidades, anos)
  {
    var rows := Filter(t.rows, Selector(t.columns, SeriesFilters(cidades, anos)));
    GroupValuesWitness(rows, SeriesKey, ind, k);
    var y :| y in rows && Contributes(y, SeriesKey, ind) && KeyOf(y, SeriesKey) == k;
    assert Admits(t.columns, SeriesFilters(cidades, anos), y);
    assert Get(y, "ano") == k[0] && Get(y, "cidade_nome") == k[1];
  }

  /** The (year, city) groups left after selection are the chosen groups of
      the whole cube, with the same values. */
  lemma SeriesGroups(t: Table, ind: string, cidades: seq<string>, anos: Option<seq<int>>)
    requires "cidade_nome" in t.columns
    ensures var rows := Filter(t.rows, Selector(t.columns, SeriesFilters(cidades, anos)));
      forall k :: && (|GroupValues(rows, SeriesKey, ind, k)| > 0 ==> Chosen(k, cidades, anos))
                  && (Chosen(k, cidades, anos) ==> GroupValues(rows, SeriesKey, ind, k) == GroupValues(t.rows, SeriesKey, ind, k))
  {
    var rows := Filter(t.rows, Selector(t.columns, SeriesFilters(cidades, anos)));
    forall k
      ensures && (|GroupValues(rows, SeriesKey, ind, k)| > 0 ==> Chosen(k, cidades, anos))
              && (Chosen(k, cidades, anos) ==> GroupValues(rows, SeriesKey, ind, k) == GroupValues(t.rows, SeriesKey, ind, k))
    {
      if |GroupValues(rows, SeriesKey, ind, k)| > 0 {
        SeriesGroupChosen(t, ind, cidades, anos, k);
      }
      if Chosen(k, cidades, anos) {
        SeriesGroupKept(t, ind, cidades, anos, k);
      }
    }
  }

  /** `series_evolucao`: the mean of the indicator per (year, city), over the
      chosen years (all when `anos` is empty or `None`) and the chosen cities
      (all when `cidades` is empty). Each mean is over every row of the cube
      with that year and city. */
  function SeriesEvolucao(t: Table, ind: string, cidades: seq<string>, anos: Option<seq<int>>): (r: Res<seq<Entry>>)
    ensures r.Failure? ==> r.error.KeyError? || r.error == NotNumeric(ind)
    ensures r.Failure? && r.error.KeyError? ==> r.error.column in ["ano", "cidade_nome", ind] && r.error.column !in t.columns
    ensures (exists c :: c in ["ano", "cidade_nome", ind] && c !in t.columns) ==> r.Failure? && r.error.KeyError?
    ensures r.Failure? && r.error.NotNumeric? ==> exists x :: x in t.rows && Get(x, ind).Text?
    ensures r.Failure? && r.error.NotNumeric? <==>
              && (forall c :: c in ["ano", "cidade_nome", ind] ==> c in t.columns)
              && exists x :: x in Filter(t.rows, Selector(t.columns, SeriesFilters(cidades, anos))) && Get(x, ind).Text?
    ensures (&& (forall c :: c in ["ano", "cidade_nome", ind] ==> c in t.columns)
             && (forall x :: x in t.rows ==> !Get(x, ind).Text?))
            ==> r.Success?
    ensures r.Success? ==> KeysAscending(r.value)
    ensures r.Success? ==> forall e :: e in r.value ==>
              && Chosen(e.key, cidades, anos)
              && |GroupValues(t.rows, SeriesKey, ind, e.key)| > 0
              && e.value == Mean(GroupValues(t.rows, SeriesKey, ind, e.key))
    ensures r.Success? ==>
              forall k :: (Chosen(k, cidades, anos) && |GroupValues(t.rows, SeriesKey, ind, k)| > 0) ==> k in Keys(r.value)
  {
    var f :- ApplyFilters(t, SeriesFilters(cidades, anos));
    assert f.columns == t.columns;
    match MissingColumn(f.columns, ["ano", "cidade_nome", ind])
    case Some(c) => Failure(KeyError(c))
    case None =>
      SeriesNumbers(t, ind, cidades, anos);
      SeriesMeans(t, ind, cidades, anos);
      GroupedMean(f.rows, SeriesKey, ind)
  }

  /** Once the columns are there, the series meets text exactly when a
      row its filters select holds text in the indicator. */
  lemma SeriesNumbers(t: Table, ind: string, cidades: seq<string>, anos: Option<seq<int>>)
    requires forall c :: c in ["ano", "cidade_nome", ind] ==> c in t.columns
    ensures ApplyFilters(t, SeriesFilters(cidades, anos)).Success?
    ensures var rows := ApplyFilters(t, SeriesFilters(cidades, anos)).value.rows;
            GroupedMean(rows, SeriesKey, ind).Failure? <==>
              exists x :: x in Filter(t.rows, Selector(t.columns, SeriesFilters(cidades, anos))) && Get(x, ind).Text?
  {
  }

  /** On success, the means of the selected rows are the chosen groups of
      the whole cube, each with the mean of all its values. */
  lemma SeriesMeans(t: Table, ind: string, cidades: seq<string>, anos: Option<seq<int>>)
    requires forall c :: c in ["ano", "cidade_nome", ind] ==> c in t.columns
    ensures ApplyFilters(t, SeriesFilters(cidades, anos)).Success?
    ensures var g := GroupedMean(ApplyFilters(t, SeriesFilters(cidades, anos)).value.rows, SeriesKey, ind);
            g.Success? ==>
              && KeysAscending(g.value)
              && (forall e :: e in g.value ==>
                    && Chosen(e.key, cidades, anos)
                    && |GroupValues(t.rows, SeriesKey, ind, e.key)| > 0
                    && e.value == Mean(GroupValues(t.rows, SeriesKey, ind, e.key)))
              && (forall k :: (Chosen(k, cidades, anos) && |GroupValues(t.rows, SeriesKey, ind, k)| > 0) ==> k in Keys(g.value))
  {
    SeriesGroups(t, ind, cidades, anos);
  }

  /** The filters `barras_categoria` passes on: one year and one city. */
  function YearCity(ano: int, cidade: string): Filters {
    Filters(Some([ano]), Some([cidade]), None, None, None)
  }

  /** `barras_categoria`: the mean of the indicator per category of `dim`,
      over the rows of one year and one city. `dim` must be one of the five
      dimension columns. */
  function BarrasCategoria(t: Table, ind: string, dim: string, ano: int, cidade: string): (r: Res<seq<Entry>>)
    ensures r.Failure? && r.error.InvalidDimension? <==> dim !in DimCols
    ensures r.Failure? && r.error.KeyError? ==> r.error.column in ["ano", dim, ind] && r.error.column !in t.columns
    ensures dim in DimCols && (exists c :: c in ["ano", dim, ind] && c !in t.columns) ==> r.Failure? && r.error.KeyError?
    ensures r.Failure? && r.error.NotNumeric? ==> exists x :: x in t.rows && Get(x, ind).Text?
    ensures r.Failure? && r.error.NotNumeric? <==>
              && dim in DimCols && (forall c :: c in ["ano", dim, ind] ==> c in t.columns)
              && exists x :: x in Filter(t.rows, Selector(t.columns, YearCity(ano, cidade))) && Get(x, ind).Text?
    ensures (&& dim in DimCols
             && (forall c :: c in ["ano", dim, ind] ==> c in t.columns)
             && (forall x :: x in t.rows ==> !Get(x, ind).Text?))
            ==> r.Success?
    ensures r.Success? ==> KeysAscending(r.value)
    ensures r.Success? ==>
              var rows := Filter(t.rows, Selector(t.columns, YearCity(ano, cidade)));
              && (forall k :: k in Keys(r.value) <==> |GroupValues(rows, [dim], ind, k)| > 0)
              && (forall e :: e in r.value ==>
                    |GroupValues(rows, [dim], ind, e.key)| > 0 && e.value == Mean(GroupValues(rows, [dim], ind, e.key)))
  {
    if dim !in DimCols then Failure(InvalidDimension(dim))
    else
      var f :- ApplyFilters(t, YearCity(ano, cidade));
      match MissingColumn(f.columns, [dim, ind])
      case Some(c) => Failure(KeyError(c))
      case None =>
        GroupedMean(f.rows, [dim], ind)
  }

  /** The filters `ranking_capitais` passes on: one year. */
  function YearOnly(ano: int): Filters {
    Filters(Some([ano]), None, None, None, None)
  }

  /** The first step of `ranking_capitais`: the mean of the indicator per
      city over the rows of one year, in city order. */
  function CityMeans(t: Table, ind: string, ano: int): (r: Res<seq<Entry>>)
    ensures r.Failure? && r.error.KeyError? ==> r.error.column in ["ano", "cidade_nome", ind] && r.error.column !in t.columns
    ensures (exists c :: c in ["ano", "cidade_nome", ind] && c !in t.columns) ==> r.Failure? && r.error.KeyError?
    ensures r.Failure? ==> r.error.KeyError? || r.error == NotNumeric(ind)
    ensures r.Failure? && r.error.NotNumeric? ==> exists x :: x in t.rows && Get(x, ind).Text?
    ensures r.Failure? && r.error.NotNumeric? <==>
              && (forall c :: c in ["ano", "cidade_nome", ind] ==> c in t.columns)
              && exists x :: x in Filter(t.rows, Selector(t.columns, YearOnly(ano))) && Get(x, ind).Text?
    ensures (&& (forall c :: c in ["ano", "cidade_nome", ind] ==> c in t.columns)
             && (forall x :: x in t.rows ==> !Get(x, ind).Text?))
            ==> r.Success?
    ensures r.Success? ==> KeysAscending(r.value)
    ensures r.Success? ==>
              var rows := Filter(t.rows, Selector(t.columns, YearOnly(ano)));
              && (forall k :: k in Keys(r.value) <==> |GroupValues(rows, ["cidade_nome"], ind, k)| > 0)
              && (forall e :: e in r.value ==>
                    |GroupValues(rows, ["cidade_nome"], ind, e.key)| > 0
                    && e.value == Mean(GroupValues(rows, ["cidade_nome"], ind, e.key)))
  {
    var f :- ApplyFilters(t, YearOnly(ano));
    match MissingColumn(f.columns, ["cidade_nome", ind])
    case Some(c) => Failure(KeyError(c))
    case None =>
      GroupedMean(f.rows, ["cidade_nome"], ind)
  }

  /** A descending ranking of key-ascending groups cut to `topK`: sorted,
      ties in key order, keys distinct, and holding the largest values. */
  lemma RankingFacts(all: seq<Entry>, topK: int)
    requires KeysAscending(all)
    ensures var top := Head(SortDesc(all), topK);
      && NonIncreasing(top)
      && TiesInKeyOrder(top)
      && (forall i, j :: 0 <= i < j < |top| ==> top[i].key != top[j].key)
      && (forall e :: e in top ==> e in all)
      && (forall e, g :: e in top && g in all && g !in top ==> g.value <= e.value)
  {
    var sorted := SortDesc(all);
    var top := Head(sorted, topK);
    PrefixHoldsLargest(sorted, topK);
    PrefixKeepsRanking(sorted, topK);
    assert forall e :: e in top ==> e in all by {
      forall e | e in top ensures e in all {
        assert e in sorted;
        assert e in multiset(all);
      }
    }
    assert forall g :: g in all ==> g in sorted by {
      forall g | g in all ensures g in sorted {
        assert g in multiset(sorted);
      }
    }
    TiesMakeKeysDistinct(top, all);
  }

  /** `ranking_capitais`: the per-city means of one year, largest first,
      cut to `topK` with Python slice semantics. The sort is stable, so
      cities with equal means stay in city order. */
  function RankingCapitais(t: Table, ind: string, ano: int, topK: int): (r: Res<seq<Entry>>)
    ensures r.Failure? <==> CityMeans(t, ind, ano).Failure?
    ensures r.Failure? ==> r.error == CityMeans(t, ind, ano).error
    ensures r.Success? ==>
              var all := CityMeans(t, ind, ano).value;
              && NonIncreasing(r.value)
              && TiesInKeyOrder(r.value)
              && (forall i, j :: 0 <= i < j < |r.value| ==> r.value[i].key != r.value[j].key)
              && (forall e :: e in r.value ==> e in all)
              && (forall e, g :: e in r.value && g in all && g !in r.value ==> g.value <= e.value)
              && (forall e, g :: e in r.value && g in all && g !in r.value && g.value == e.value ==> KeyLt(e.key, g.key))
              && (topK >= 0 ==> |r.value| == if topK < |all| then topK else |all|)
              && (topK < 0 ==> |r.value| == if |all| + topK > 0 then |all| + topK else 0)
  {
    var all :- CityMeans(t, ind, ano);
    RankingFacts(all, topK);
    RankingTies(all, topK);
    Success(Head(SortDesc(all), topK))
  }

  /** The stable sort decides the cut among equal values: an entry left out
      with the same value as a kept one has a larger key. */
  lemma RankingTies(all: seq<Entry>, topK: int)
    requires KeysAscending(all)
    ensures var top := Head(SortDesc(all), topK);
      forall e, g :: e in top && g in all && g !in top && g.value == e.value ==> KeyLt(e.key, g.key)
  {
    var sorted := SortDesc(all);
    var top := Head(sorted, topK);
    forall e, g | e in top && g in all && g !in top && g.value == e.value
      ensures KeyLt(e.key, g.key)
    {
      assert g in multiset(sorted);
      var i :| 0 <= i < |top| && top[i] == e;
      var j :| 0 <= j < |sorted| && sorted[j] == g;
      assert forall k :: 0 <= k < |top| ==> top[k] == sorted[k];
      assert j >= |top|;
      assert sorted[i] == e;
    }
  }

  /** Python's `int()` of a float: truncation toward zero. */
  function Trunc(v: real): int {
    if v >= 0.0 then v.Floor else -((-v).Floor)
  }

  lemma TruncMonotone(a: real, b: real)
    requires a <= b
    ensures Trunc(a) <= Trunc(b)
  {
    if a < 0.0 && b >= 0.0 {
      assert (-a).Floor >= 0;
    }
  }

  /** The numbers held in `col`, in row order; nulls and text are skipped. */
  function ColumnNumbers(rows: seq<Row>, col: string): (vs: seq<real>)
    ensures forall v :: v in vs ==> exists x :: x in rows && Get(x, col) == Num(v)
    ensures forall x :: x in rows && Get(x, col).Num? ==> Get(x, col).n in vs
  {
    if |rows| == 0 then []
    else
      var rest := ColumnNumbers(rows[1..], col);
      assert forall x :: x in rows ==> x == rows[0] || x in rows[1..];
      assert forall x :: x in rows[1..] ==> x in rows;
      if Get(rows[0], col).Num? then [Get(rows[0], col).n] + rest else rest
  }

  /** `ultimo_ano_disponivel`: `int(df["ano"].max())`, the latest year of the
      cube. A cube without a year column raises KeyError; one whose years are
      all null has no maximum to convert. */
  function UltimoAnoDisponivel(t: Table): (r: Res<int>)
    ensures r.Failure? <==>
              || "ano" !in t.columns
              || (exists x :: x in t.rows && Get(x, "ano").Text?)
              || (forall x :: x in t.rows ==> !Get(x, "ano").Num?)
    ensures "ano" !in t.columns ==> r == Failure(KeyError("ano"))
    ensures r.Success? ==> forall x :: x in t.rows && Get(x, "ano").Num? ==> Trunc(Get(x, "ano").n) <= r.value
    ensures r.Success? ==> exists x :: x in t.rows && Get(x, "ano").Num? && Trunc(Get(x, "ano").n) == r.value
  {
    if "ano" !in t.columns then Failure(KeyError("ano"))
    else if exists x :: x in t.rows && Get(x, "ano").Text? then Failure(NotNumeric("ano"))
    else
      var ys := ColumnNumbers(t.rows, "ano");
      if |ys| == 0 then
        assert forall x :: x in t.rows ==> !Get(x, "ano").Num?;
        Failure(NoYear)
      else
        var m := MaxOf(ys);
        assert forall x :: x in t.rows && Get(x, "ano").Num? ==> Trunc(Get(x, "ano").n) <= Trunc(m) by {
          forall x | x in t.rows && Get(x, "ano").Num? ensures Trunc(Get(x, "ano").n) <= Trunc(m) {
            TruncMonotone(Get(x, "ano").n, m);
          }
        }
        Success(Trunc(m))
  }

  /** How many rows hold `c` in `col`. */
  function Count(rows: seq<Row>, col: string, c: Cell): (n: nat)
    ensures n <= |rows|
    ensures n > 0 <==> exists x :: x in rows && Get(x, col) == c
  {
    if |rows| == 0 then 0
    else
      assert forall x :: x in rows ==> x == rows[0] || x in rows[1..];
      assert forall x :: x in rows[1..] ==> x in rows;
      (if Get(rows[0], col) == c then 1 else 0) + Count(rows[1..], col, c)
  }

  /** The non-null cells of `col`, in row order, repeats included. */
  function ColumnCells(rows: seq<Row>, col: string): (cs: seq<Cell>)
    ensures forall c :: c in cs <==> c != Null && exists x :: x in rows && Get(x, col) == c
  {
    if |rows| == 0 then []
    else
      var rest := ColumnCells(rows[1..], col);
      assert forall x :: x in rows ==> x == rows[0] || x in rows[1..];
      assert forall x :: x in rows[1..] ==> x in rows;
      if Get(rows[0], col) != Null then [Get(rows[0], col)] + rest else rest
  }

  /** One entry per city with the number of rows that name it. */
  function CityCounts(rows: seq<Row>, cities: seq<Cell>): (r: seq<Entry>)
    ensures |r| == |cities|
    ensures forall i :: 0 <= i < |cities| ==> r[i] == Entry([cities[i]], Count(rows, "cidade_nome", cities[i]) as real)
  {
    seq(|cities|, i requires 0 <= i < |cities| => Entry([cities[i]], Count(rows, "cidade_nome", cities[i]) as real))
  }

  /** The distinct non-null cities of the rows, in ascending order. */
  function CitiesOf(rows: seq<Row>): (cs: seq<Cell>)
    ensures StrictlySorted(cs, CellLt)
    ensures forall c :: c in cs <==> c != Null && exists x :: x in rows && Get(x, "cidade_nome") == c
  {
    CellLtIsStrictTotal();
    SortDistinct(ColumnCells(rows, "cidade_nome"), CellLt)
  }

  /** Every city with its count, largest count first. */
  function RankedCounts(rows: seq<Row>): seq<Entry> {
    SortDesc(CityCounts(rows, CitiesOf(rows)))
  }

  /** The first key cell of each entry. */
  function FirstCells(s: seq<Entry>): (r: seq<Cell>)
    ensures |r| == |s|
    ensures forall i :: 0 <= i < |s| && |s[i].key| > 0 ==> r[i] == s[i].key[0]
  {
    seq(|s|, i requires 0 <= i < |s| => if |s[i].key| > 0 then s[i].key[0] else Null)
  }

  /** `value_counts().head(n).index`: cities by descending row count. */
  function TopCities(rows: seq<Row>, n: int): seq<Cell> {
    FirstCells(Head(RankedCounts(rows), n))
  }

  lemma CityCountsAscending(rows: seq<Row>, cities: seq<Cell>)
    requires StrictlySorted(cities, CellLt)
    ensures KeysAscending(CityCounts(rows, cities))
  {
    CellLtIsStrictTotal();
    var r := CityCounts(rows, cities);
    forall i, j | 0 <= i < j < |r| ensures KeyLt(r[i].key, r[j].key) {
      assert r[i].key == [cities[i]] && r[j].key == [cities[j]];
      assert cities[i] != cities[j];
    }
  }

  /** The ranked counts hold exactly one entry per city, carrying its count,
      sorted by count with ties in city order. */
  lemma RankedCountsShape(rows: seq<Row>)
    ensures var ranked := RankedCounts(rows);
      && NonIncreasing(ranked)
      && (forall i, j :: 0 <= i < j < |ranked| ==> ranked[i].key != ranked[j].key)
      && (forall e :: e in ranked ==>
            |e.key| == 1 && e.key[0] in CitiesOf(rows) && e.value == Count(rows, "cidade_nome", e.key[0]) as real)
      && (forall c :: c in CitiesOf(rows) ==> Entry([c], Count(rows, "cidade_nome", c) as real) in ranked)
  {
    var cities := CitiesOf(rows);
    var counts := CityCounts(rows, cities);
    CityCountsAscending(rows, cities);
    RankingFacts(counts, |counts|);
    RankedEntries(rows);
  }

  /** Every ranked entry is one city with its count, and every city is ranked. */
  lemma RankedEntries(rows: seq<Row>)
    ensures forall e :: e in RankedCounts(rows) ==>
              |e.key| == 1 && e.key[0] in CitiesOf(rows) && e.value == Count(rows, "cidade_nome", e.key[0]) as real
    ensures forall c :: c in CitiesOf(rows) ==> Entry([c], Count(rows, "cidade_nome", c) as real) in RankedCounts(rows)
  {
    var cities := CitiesOf(rows);
    var counts := CityCounts(rows, cities);
    var ranked := RankedCounts(rows);
    assert multiset(ranked) == multiset(counts);
    forall e | e in ranked
      ensures |e.key| == 1 && e.key[0] in cities && e.value == Count(rows, "cidade_nome", e.key[0]) as real
    {
      assert e in multiset(counts);
      var k :| 0 <= k < |counts| && counts[k] == e;
      assert e.key == [cities[k]];
    }
    forall c | c in cities ensures Entry([c], Count(rows, "cidade_nome", c) as real) in ranked {
      var k :| 0 <= k < |cities| && cities[k] == c;
      assert counts[k] in multiset(ranked);
    }
  }

  /** Each listed city sits in the ranking with its count. */
  lemma TopCitiesShape(rows: seq<Row>, n: int)
    ensures var top := Head(RankedCounts(rows), n);
      var r := TopCities(rows, n);
      && |r| == |top|
      && (forall i :: 0 <= i < |top| ==> top[i] == RankedCounts(rows)[i])
      && (forall i :: 0 <= i < |top| ==>
            top[i] == Entry([r[i]], Count(rows, "cidade_nome", r[i]) as real) && r[i] in CitiesOf(rows))
  {
    var ranked := RankedCounts(rows);
    var top := Head(ranked, n);
    var r := FirstCells(top);
    RankedEntries(rows);
    forall i | 0 <= i < |top|
      ensures top[i] == Entry([r[i]], Count(rows, "cidade_nome", r[i]) as real) && r[i] in CitiesOf(rows)
    {
      assert top[i] == ranked[i];
      assert ranked[i] in ranked;
    }
  }

  /** The listed cities are distinct, present, and in non-increasing count order. */
  lemma TopCitiesOrdered(rows: seq<Row>, n: int)
    ensures var r := TopCities(rows, n);
      && (n >= 0 ==> |r| <= n)
      && (forall i, j :: 0 <= i < j < |r| ==> r[i] != r[j])
      && (forall c :: c in r ==> c != Null && Count(rows, "cidade_nome", c) > 0)
      && (forall i, j :: 0 <= i < j < |r| ==> Count(rows, "cidade_nome", r[i]) >= Count(rows, "cidade_nome", r[j]))
  {
    RankedCountsShape(rows);
    TopCitiesShape(rows, n);
  }

  /** No city left out has a larger count than a listed one. */
  lemma TopCitiesLargest(rows: seq<Row>, n: int)
    ensures var r := TopCities(rows, n);
      forall c, d :: c in r && d != Null && d !in r ==> Count(rows, "cidade_nome", d) <= Count(rows, "cidade_nome", c)
  {
    var r := TopCities(rows, n);
    forall c, d | c in r && d != Null && d !in r
      ensures Count(rows, "cidade_nome", d) <= Count(rows, "cidade_nome", c)
    {
      TopCityBeats(rows, n, c, d);
    }
  }

  lemma TopCityBeats(rows: seq<Row>, n: int, c: Cell, d: Cell)
    requires c in TopCities(rows, n) && d != Null && d !in TopCities(rows, n)
    ensures Count(rows, "cidade_nome", d) <= Count(rows, "cidade_nome", c)
  {
    if Count(rows, "cidade_nome", d) > 0 {
      var ranked := RankedCounts(rows);
      var top := Head(ranked, n);
      var r := TopCities(rows, n);
      var e := Entry([d], Count(rows, "cidade_nome", d) as real);
      RankedEntries(rows);
      assert e in ranked;
      TopCitiesShape(rows, n);
      var i :| 0 <= i < |r| && r[i] == c;
      assert e !in top by {
        forall j | 0 <= j < |top| ensures top[j] != e {
          assert top[j].key == [r[j]];
        }
      }
      PrefixHoldsLargest(ranked, n);
      assert top[i] in top;
    }
  }

  /** Fewer than `n` cities listed means every city is listed. */
  /** `head(n)` of the counts, as a Python slice: `n` cities at most, or
      all but the last `-n` for a negative `n`. */
  lemma TopCitiesCount(rows: seq<Row>, n: int)
    ensures var k := |CitiesOf(rows)|;
            |TopCities(rows, n)| == if n >= 0 then (if n < k then n else k) else (if k + n > 0 then k + n else 0)
  {
    var counts := CityCounts(rows, CitiesOf(rows));
    assert multiset(RankedCounts(rows)) == multiset(counts);
    assert |RankedCounts(rows)| == |multiset(counts)| == |counts|;
  }

  lemma TopCitiesAll(rows: seq<Row>, n: int)
    ensures var r := TopCities(rows, n);
      0 <= n && |r| < n ==> forall x :: x in rows && Get(x, "cidade_nome") != Null ==> Get(x, "cidade_nome") in r
  {
    var ranked := RankedCounts(rows);
    var r := TopCities(rows, n);
    if 0 <= n && |r| < n {
      RankedCountsShape(rows);
      TopCitiesShape(rows, n);
      forall x | x in rows && Get(x, "cidade_nome") != Null
        ensures Get(x, "cidade_nome") in r
      {
        var d := Get(x, "cidade_nome");
        var e := Entry([d], Count(rows, "cidade_nome", d) as real);
        assert e in ranked;
        var j :| 0 <= j < |ranked| && ranked[j] == e;
        assert r[j] == d;
      }
    }
  }

  /** `primeiras_cidades`: the `n` most frequent cities of the cube, most
      frequent first; none when the cube has no city column. Among cities
      with equal counts the order is not fixed here, as `value_counts` does
      not fix it either. */
  function PrimeirasCidades(t: Table, n: int): (r: seq<Cell>)
    ensures "cidade_nome" !in t.columns ==> r == []
    ensures n >= 0 ==> |r| <= n
    ensures forall i, j :: 0 <= i < j < |r| ==> r[i] != r[j]
    ensures forall c :: c in r ==> c != Null && Count(t.rows, "cidade_nome", c) > 0
    ensures forall i, j :: 0 <= i < j < |r| ==>
              Count(t.rows, "cidade_nome", r[i]) >= Count(t.rows, "cidade_nome", r[j])
    ensures forall c, d :: c in r && d != Null && d !in r ==>
              Count(t.rows, "cidade_nome", d) <= Count(t.rows, "cidade_nome", c)
    ensures "cidade_nome" in t.columns && 0 <= n && |r| < n ==>
              forall x :: x in t.rows && Get(x, "cidade_nome") != Null ==> Get(x, "cidade_nome") in r
    ensures "cidade_nome" in t.columns ==>
              var k := |CitiesOf(t.rows)|;
              |r| == if n >= 0 then (if n < k then n else k) else (if k + n > 0 then k + n else 0)
  {
    if "cidade_nome" !in t.columns then []
    else
      TopCitiesCount(t.rows, n);
      TopCitiesOrdered(t.rows, n);
      TopCitiesLargest(t.rows, n);
      TopCitiesAll(t.rows, n);
      TopCities(t.rows, n)
  }
}
