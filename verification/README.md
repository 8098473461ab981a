# Vigitel dashboard: cube queries and cube shaping

A Dafny model of the tabular core of the Vigitel prevalence dashboard. The
dashboard reads an aggregated cube. The cube is a table with one row per
combination of the dimensions `ano`, `cidade_nome`, `sexo`, `faixa_etaria` and
`faixa_escolaridade`, and one `prev_*` column per prevalence indicator. The
model covers three pieces:

- the query helpers that feed the charts (`analysis_engine.py`):
  - row filtering;
  - the year × city time series;
  - the per-category bars;
  - the top-k city ranking;
  - the latest year;
  - the most frequent cities.
- the loading and shaping of the cube (`data_preparation.py`):
  - label normalisation;
  - the `Int16` year cast;
  - the choice of file;
  - the long-to-wide pivot;
  - the `prev_*` coercion;
  - the removal of rows without a year or a city;
  - the metadata lists.
- the label and default helpers of the app (`app.py`):
  - indicator titles and definitions;
  - the default indicator and year.

A table is `Table(columns, rows)`. Each row maps column names to cells, and a
cell is `Null`, `Num(real)` or `Text(string)`. A column missing from a row reads
as `Null`. What pandas raises becomes a `Failure` of a `Result`:

- a missing column gives `KeyError`;
- an invalid bar dimension gives `InvalidDimension`;
- text averaged as a number gives `NotNumeric`;
- a year that does not fit `Int16` gives `NotInt16`;
- `int()` of a missing maximum gives `NoYear`;
- reading the first of no indicators gives `NoIndicators`;
- no cube file gives `FileNotFound`.

Library calls the model cannot see are parameters:

- `decompose` is Unicode NFKD normalisation.
- `parse` is `pd.to_numeric` on one string.
- `show` is the text pandas prints for a number.
- A disk is a map from path to the stored table. A path exists exactly when it is a key.

Modules follow the program:

- `Tables` holds cells, rows and key order.
- `Grouping` holds group means and the stable descending sort.
- `AnalysisEngine` covers `analysis_engine.py`.
- `DataPreparation` covers `data_preparation.py`.
- `App` covers `app.py`.
- `Ordering`, `Sequences` and `Wrappers` are general helpers.

Behaviour of the code worth knowing:

- An empty `cidades` list applies no city restriction: the `if cidades` test in `analysis_engine.py:22` skips the filter, so `series_evolucao` then returns every city.
- A missing required column is a `KeyError`, and the model fails with `KeyError`.
- `_to_int16` raises when a year is fractional or out of the `Int16` range, because `astype("Int16")` refuses it. Only text that does not parse becomes null.

## Model

| member | source | states |
|---|---|---|
| AnalysisEngine.ApplyFilters | analysis_engine.py:13-30 | Fails with `KeyError("ano")` exactly when a non-empty year list meets a table without `ano`. Otherwise the columns are kept and the rows are an order-preserving subsequence of the input. A row is kept if and only if it passes every active filter. A label filter is skipped when its column is absent. Each passing row appears as many times as in the input, and each failing row not at all. |
| AnalysisEngine.ApplyFiltersNoRestriction | analysis_engine.py:19-30 | With every filter `None` or empty, the table comes back unchanged. |
| AnalysisEngine.ApplyFiltersIdempotent | analysis_engine.py:19-30 | Applying the same filters twice gives what applying them once gives. |
| AnalysisEngine.GroupedMean | analysis_engine.py:38-40 | Fails if and only if the indicator column holds text. Otherwise the keys are ascending and distinct. A key is present exactly when some row with non-null key cells has a number for it. Each value is the arithmetic mean of that group's numbers. |
| AnalysisEngine.GroupedMeanWithinRange | analysis_engine.py:38-40 | Every group mean lies between the group's smallest and largest value. |
| AnalysisEngine.SeriesEvolucao | analysis_engine.py:32-41 | A missing `ano`, `cidade_nome` or indicator column gives `KeyError`, and a `KeyError` only comes from such a column. With the columns present, the call fails with `NotNumeric` exactly when a row the filters select holds text in the indicator. With the columns present and no text, the call succeeds. Entries are ascending by (year, city) and come one per pair that the city and year filters select and that has a number. Each value is the mean of all numbers of that pair in the table. |
| AnalysisEngine.BarrasCategoria | analysis_engine.py:43-53 | Fails with `InvalidDimension` if and only if `dim` is not one of the five dimensions. For a valid `dim`, a missing column among `ano`, `dim` and the indicator gives `KeyError`, and a `KeyError` names one of them. With a valid `dim` and the columns present, `NotNumeric` comes exactly when a row of that year and city holds text in the indicator. On success there is one entry per value of `dim` seen among the rows of that year and city. The entries are ascending, and each is the mean of its group among exactly those rows. |
| AnalysisEngine.CityMeans | analysis_engine.py:57-61 | The per-city means of one year. The errors are as for the series: a missing `ano`, `cidade_nome` or indicator column gives `KeyError`; with the columns present, `NotNumeric` comes exactly when a row of that year holds text in the indicator. Keys are ascending and range over exactly the cities with a number in that year. Each value is the mean of its group among that year's rows. |
| AnalysisEngine.RankingCapitais | analysis_engine.py:55-63 | Fails exactly when the city means fail. Otherwise the result is at most `top_k` entries, or `len + top_k` entries for a negative `top_k`, as a Python slice gives. The values are non-increasing, and equal values keep ascending city order. When a tie straddles the cut, the listed cities come before the left-out ones in city order. Cities are distinct, and each is a group of the year. No city left out has a larger mean than one listed. |
| AnalysisEngine.RankingTies | analysis_engine.py:62-63 | In the stably sorted means, a city kept by `head` precedes in city order every left-out city with the same mean. |
| AnalysisEngine.UltimoAnoDisponivel | analysis_engine.py:65-66 | Fails (`KeyError("ano")`) without a year column, and fails when the years hold text or no number. Otherwise the result is the truncated maximum: no year exceeds it, and some year attains it. |
| AnalysisEngine.PrimeirasCidades | analysis_engine.py:68-73 | Returns `[]` without a city column. Otherwise it returns at most `n` distinct non-null cities that occur, in non-increasing order of frequency. No city left out is more frequent than one listed. Fewer than `n` means every city is listed. With a city column, the length is that of the Python slice `head(n)` over the `k` distinct non-null cities: `min(n, k)` for `n >= 0`, and `max(0, k + n)` for a negative `n`. |
| Grouping.SortDesc | analysis_engine.py:62 | A permutation of its input with non-increasing values. On ascending distinct keys, equal values keep key order, as the stable mergesort does. |
| Grouping.PrefixHoldsLargest | analysis_engine.py:62-63 | In a non-increasing list, every element outside `head(n)` is at most every element in it. |
| DataPreparation.Strip | data_preparation.py:37 | The result has no whitespace at either end, and a string without whitespace at its ends is unchanged. |
| DataPreparation.StripKeepsMiddle | data_preparation.py:37 | The stripped string is one contiguous stretch of the input, and everything before and after that stretch is whitespace. |
| DataPreparation.NormStr | data_preparation.py:34-37 | The result is ASCII only, has no upper-case letter, and has no leading or trailing whitespace. It is the lower-cased stretch of the decomposed ASCII text left after removing the whitespace at both ends, and only whitespace lies outside that stretch. |
| DataPreparation.NormStrIdempotent | data_preparation.py:34-37 | Normalising a normalised label changes nothing when decomposition leaves ASCII text alone. |
| DataPreparation.ToNumber | data_preparation.py:39-40 | `to_numeric(errors="coerce")`: a number stays, null stays null, text that parses becomes exactly the parsed number, and text that does not parse becomes null. Never text. |
| DataPreparation.ToInt16 | data_preparation.py:39-40 | A successful cast holds null or a whole number within the `Int16` range. Fails with `NotInt16` if and only if the coerced value is a number outside `Int16` or fractional. Otherwise the result is the coerced value: null, or an `Int16` whole number. |
| DataPreparation.DowncastRow | data_preparation.py:42-48 | On one row: fails exactly when the table has `ano` and the row's coerced year is a number outside `Int16` or fractional. Otherwise the year becomes the coerced number, each label column present holds its normalised label, and every other cell is unchanged. |
| DataPreparation.DowncastDims | data_preparation.py:42-48 | Fails exactly when the table has `ano` and some row's year does not fit `Int16`. Otherwise columns and row count are kept. The year is the coerced number. The four label columns present hold the normalised label. Every other cell is unchanged. |
| DataPreparation.DowncastDimsIdempotent | data_preparation.py:42-48 | A second downcast of a downcast table changes nothing when decomposition leaves ASCII text alone. |
| DataPreparation.DowncastIndicators | data_preparation.py:68-73 | Only `prev_*` columns change. Columns and row count are kept. Each `prev_*` cell becomes `to_numeric(errors="coerce")` of the original cell. |
| DataPreparation.DowncastIndicatorsIdempotent | data_preparation.py:68-73 | Coercing twice is coercing once. |
| DataPreparation.FindFile | data_preparation.py:50-54 | `None` exactly when no listed path exists. Otherwise the result is the earliest existing path in list order. |
| DataPreparation.ReadLong | data_preparation.py:94-98 | The parquet file fails with a `KeyError` for a missing long column. Otherwise the result keeps exactly the long columns the file has, with the same rows and cells. |
| DataPreparation.PresentDims | data_preparation.py:58 | The dimension columns the table has, in canonical order, without repeats, and neither `indicador` nor `prevalencia`. |
| DataPreparation.WideNameInjective | data_preparation.py:65 | Two indicator names never map to the same wide column. |
| DataPreparation.RelabelGroups | data_preparation.py:59-64 | After indicators are replaced by their printed names, the group of (combination, name) holds exactly the prevalence numbers of the long rows with that combination and indicator name. |
| DataPreparation.WideFromLong | data_preparation.py:56-66 | Missing `indicador` or `prevalencia` gives `KeyError`. Text prevalence gives `NotNumeric`. Otherwise the lead columns are the present dimensions, or `prev_index` when there are none. After the lead columns come exactly the `prev_<name>` columns of the measured indicators, in ascending name order, and nothing else. There is one row per observed dimension combination in ascending order. Each indicator cell is the mean of the matching prevalence numbers, or null when none match. Every column is a dimension or an indicator. |
| DataPreparation.PivotIsWide | data_preparation.py:59-65 | The pivot of the group means satisfies every clause of the wide-table description above. |
| DataPreparation.DropIncomplete | data_preparation.py:106 | The columns are kept. The rows are the subsequence of rows with a year and a city, for those of the two columns the table has. Each complete row keeps its multiplicity, and incomplete rows are gone. |
| DataPreparation.SortedIndicators | data_preparation.py:109-110 | The `prev_*` column names, with multiplicity, in ascending order. |
| DataPreparation.Categories | data_preparation.py:112-115 | Strictly ascending. It holds exactly the strings found in the column, or nothing when the column is absent. |
| DataPreparation.Finalize | data_preparation.py:105-123 | Missing `ano` gives `KeyError("ano")`, and then a missing `cidade_nome` gives `KeyError("cidade_nome")`. Otherwise rows without year or city are dropped. The indicators are sorted. The years are strictly ascending and are exactly the whole years of the kept rows. The label lists are the categories of the table before the drop. |
| DataPreparation.FinalizePrepared | data_preparation.py:105-115 | After both downcasts, every kept row has an `Int16` year and a normalised city. No indicator holds text. The year list is exactly the years present. Every city of the table is listed, and every listed label is normalised. |
| DataPreparation.Prepare | data_preparation.py:83-125 | Both downcasts, then `dropna` and the metadata. Fails only with `NotInt16` or a `KeyError` for the year or the city, and otherwise yields a prepared cube with the table's columns. A row of the file is kept exactly when its year read as a number and its city are present, and every kept row is a row of the file with its dimensions cast and its indicators coerced. The kept rows are the file's coerced rows in their order, each complete one as often as in the file. The indicator list is the file's `prev_*` columns in ascending order. The city, sex, age-band and schooling lists are the categories of the corresponding coerced columns, taken before rows are dropped. |
| DataPreparation.LoadCubo | data_preparation.py:75-125 | `FileNotFound` exactly when none of the four cube files exists. Every successful load is a prepared cube. When a wide file exists, the result is the preparation of the first one. Otherwise, when a long file exists, it is the long-file branch on the first one. A cube built from the long file has only dimension and indicator columns. |
| DataPreparation.LoadLong | data_preparation.py:94-103 | The long-file branch never reports a missing cube file. A successful load is a prepared cube whose columns are all dimension or indicator columns. It is the preparation of a table that is the wide form of the read and downcast long rows, in the sense of `WideOf`. |
| DataPreparation.LoadCuboPrefersWide | data_preparation.py:77-84 | Once a wide file exists, two disks that agree on the wide files load the same cube, whatever the long files hold. |
| Ordering.SortDistinct | data_preparation.py:111 | `sorted(set(...))`: strictly ascending, with the same members as the input. |
| Ordering.Sort | data_preparation.py:109-110 | `list.sort()`: a permutation of the input in ascending order. |
| App.RemoveTag | app.py:75 | `replace("prev_", "")`: no longer than the input, and an order-preserving subsequence of it. A string without the tag is unchanged. A string holding the tag loses at least the tag's length. |
| App.RemoveTagSplit | app.py:75 | Every occurrence goes, not just a leading one: the text before the first tag is kept, the tag is removed, and removal continues on the rest. With the tag-free case this fixes the result on every string. |
| App.RemoveLeadingTag | app.py:75 | Removing the tag from the tag followed by a tag-free name gives back the name. |
| App.Underscores | app.py:75 | Same length. Each `_` becomes a space, and every other character is kept. |
| App.Title | app.py:75 | Same length and the same characters up to case. A letter is upper case exactly when it starts a word. |
| App.TitleIdempotent | app.py:75 | Title-casing twice is title-casing once. |
| App.IndTitle | app.py:71-75 | A known indicator gets its table title. Any other gets a string with no underscore. It is as long as the name with the tags removed, and agrees with it up to case and `_`→space. A letter in it is upper case exactly when it starts a word. |
| App.IndDef | app.py:77-78 | A known indicator gets its table definition, and any other gets the fixed sentence. The fixed sentence comes back exactly for unknown indicators. |
| App.DefaultInd | app.py:80 | Fails (`NoIndicators`) if and only if the list is empty. Otherwise the result is the first of `prev_ativo_lazer_unif` and `prev_inativo` to occur, or the first indicator when neither occurs. |
| App.DefaultIndPrefersLeisure | app.py:80 | On the sorted metadata list holding both preferred indicators, the default is `prev_ativo_lazer_unif`. |
| App.DefaultYear | app.py:81 | `None` exactly for an empty list. Otherwise the last year. |
| App.DefaultYearIsLatest | app.py:81 | On the strictly ascending metadata years, the default year is the largest. |

## Left out

- File reading (`read_parquet`, `read_csv`, `Path.exists`) is a map from path to table. Parquet and csv wide files are read alike.
- Memory-saving types are not modelled:
  - `float32` rounding of indicators;
  - the `Int16` storage width (only its range check is modelled);
  - the `category` dtype (only its sorted category list is modelled).
- Unicode NFKD decomposition (`str.normalize("NFKD")`) is the `decompose` parameter, and the printing of numbers is the `show` parameter.
- The Dash layout, callbacks, Plotly figures, `pct_axis` and `theme.py` are presentation only.
- The weighted estimator, standard errors, confidence intervals and the age, schooling and BMI derivations are not in the modelled files.
- GroupedMean: models groups as observed keys only. Pandas' `observed=False` on categorical keys would also emit empty categories with a NaN mean.
- GroupedMean: any text in the indicator column of the rows it is given is an error, even in a row whose key holds a null, which pandas' `groupby` would drop before the mean. Pandas raises only if such text reaches the mean.
- SeriesEvolucao: the `KeyError` names some missing required column, not necessarily the one pandas reports first. The same holds for BarrasCategoria and CityMeans.
- PrimeirasCidades: lists only cities that occur in the rows it is given. In the source the city column is categorical (data_preparation.py:47), and `value_counts` on a categorical column also counts categories with no rows, at zero. A city whose every row lacked a year is dropped by `load_cubo` but stays a category, so with fewer than `n` cities present the source can pad the list with such zero-count cities. The table here carries no category list, so this is not modelled.
- PrimeirasCidades: equally frequent cities come out in ascending city order. `value_counts` leaves that order unspecified, so the contract promises no tie order.
- UltimoAnoDisponivel: text in the year column is an error; pandas would compare it. After loading, the year column holds no text.
- WideFromLong: indicators are grouped by their printed name. Pandas would keep a number and a string that print alike as two same-named columns.
- WideFromLong: when an indicator's printed name equals a present dimension, the dimension cell takes that column; pandas would yield two same-named columns.
- Title: only ASCII letters count as cased. Python's `str.title` also cases accented and other non-ASCII letters.
- ReadLong: the csv path keeps the long columns in file order. The second read of the header is not modelled separately.
