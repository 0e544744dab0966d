# Dengue geographic profiling — verified model of the analysis core

The application takes a table of dengue case locations (`latitude`,
`longitude`), fits a Gaussian kernel density estimate over them, samples the
density on a 100 × 100 grid laid over the cases' bounding box widened by
0.005 degrees, reports the five highest-density grid points as probable
sources ("focos"), resolves each to an address with a reverse-geocoding
service, and shows a ranking table and a map centred on the mean of the cases.

This project models the discrete logic around the numeric and network calls:

- `Intake` (intake.dfy): the required-column check, `dropna` on the two
  coordinate columns, and the two-point minimum. A stop becomes a `Halt`
  value carrying the message the page shows.
- `GridSampler` (grid.dfy): the widened bounding box and the `mgrid`
  lattice flattened row-major. Everything is exact over Dafny `real`.
- `Peaks` (peaks.dfy): `argsort(dens)[-5:][::-1]`, the best-first
  selection of the five highest scores.
- `Kde` (kde.dfy): `calculate_kde`. The fitted and exponentiated density is
  a parameter of type `Fit`.
- `Geocode` (geocode.dfy): the `reverse_geocode` loop. The service is a
  parameter of type `Geolocator` that answers each request with `Found`,
  `NotFound` or `Failed`.
- `Ranking` (ranking.dfy): the ranking-table loop and the map centre.
- `Pipeline` (pipeline.dfy): the analysis from the uploaded table to the
  report.
- `Points` (points.dfy) and `Wrappers` (wrappers.dfy) hold the coordinate
  type, per-axis min, max and mean, `Option`, `Result` and `Min`.

`reverse_geocode` and the ranking table append to lists inside `for` loops,
so they are methods with loops. The rest of the code is single numpy or
pandas expressions, so it is modelled as functions and lemmas.

Three points of the code's behaviour the model keeps:

- The ranking table zips hotspots with addresses, so it has
  `min(|peaks|, |addresses|)` rows. It does not fail on a length mismatch.
- A hotspot is a coordinate only. `calculate_kde` returns no density score
  with it.
- `[-5:]` keeps the whole sequence when it is shorter than five, so `TopK`
  returns `min(k, n)` indices. The grid always has 10,000 points, so
  `calculate_kde` always returns five.

## Model

| member | source | states |
|---|---|---|
| `Intake.Prepare` | app.py:37-48 | Analysis stops exactly when `latitude` or `longitude` is missing from the columns, or when fewer than 2 rows remain after cleaning. A missing column gives the column error; otherwise a shortage gives the too-few-points warning. On success the cleaned points are returned. |
| `Intake.MissingColumnsMessageNamesBoth` | app.py:37-39 | The column error reads "O arquivo CSV deve conter as colunas: latitude, longitude", naming both required columns. |
| `Intake.DropNaKeepsCompleteRowsInOrder` | app.py:43-44 | Cleaning keeps a row if and only if both of its coordinates are present. The kept rows' positions strictly increase, and the k-th cleaned point is the coordinate pair of the k-th complete row. |
| `Points.MinOf` | app.py:76-77 | The column minimum is one of the column's values and is no larger than any of them. |
| `Points.MaxOf` | app.py:76-77 | The column maximum is one of the column's values and is no smaller than any of them. |
| `GridSampler.ExpandedBox` | app.py:76-77 | Each bound lies exactly 0.005 beyond the most extreme case on its side: the bound ± margin is a case's coordinate and no case lies beyond it. Every case lies strictly inside the box, and each axis has positive extent. |
| `GridSampler.LinspaceEndpoints` | app.py:80 | `lo:hi:100j` starts at `lo` and ends exactly at `hi`. |
| `GridSampler.LinspaceAt` | app.py:80 | Value k is `lo + k·(hi−lo)/(n−1)`, and it lies in `[lo, hi]` when `lo ≤ hi`. |
| `GridSampler.LinspaceIncreasing` | app.py:80 | When `lo < hi`, the lattice values strictly increase. |
| `GridSampler.GridCell` | app.py:80-81 | The flattened grid has 10,000 points. Flat index `i·100+j` is `(latMin + i·(latMax−latMin)/99, lonMin + j·(lonMax−lonMin)/99)`. |
| `GridSampler.GridCorners` | app.py:80-81 | Point 0 is `(latMin, lonMin)` and point 9999 is `(latMax, lonMax)`. |
| `GridSampler.GridWithinBox` | app.py:80-81 | Every grid point lies within the box the grid was laid over. |
| `GridSampler.GridInjective` | app.py:80-81 | Over a box of positive extent, the 10,000 grid points are pairwise distinct. |
| `GridSampler.CasesInsideGrid` | app.py:76-81 | Every case lies strictly between the first and the last grid point on both axes. |
| `Peaks.ArgMaxOutside` | app.py:88 | Returns an index not yet taken whose score is at least that of every other untaken index. Returns none only when every index is taken. |
| `Peaks.Select` | app.py:88 | Picks k indices: distinct, in range, in non-increasing score order, and no index left out scores above any picked one. |
| `Peaks.TopK` | app.py:88 | `argsort(dens)[-k:][::-1]` returns `min(k, n)` indices satisfying `IsTopK`. `IsTopK` is the set of answers `argsort` can give under any tie order. |
| `Peaks.ScoreAtLeast` | app.py:88 | Place by place, a ranked selection scores no lower than any other ranked selection of the same length. |
| `Peaks.TopKScoresUnique` | app.py:88 | Any two valid top-k answers have the same score at every place. Only the order of tied cells can differ. |
| `Kde.PeakIndices` | app.py:76-88 | For any density model, the selection has exactly five indices, each below 10,000. |
| `Kde.CalculateKde` | app.py:70-91 | Returns five hotspots and hands the input coordinates back unchanged. |
| `Kde.PeaksAreBestGridPoints` | app.py:76-89 | The hotspots are five distinct grid points inside the widened box, in non-increasing density. No grid point left out has a higher density than any hotspot. |
| `Geocode.FailureTextsDistinct` | app.py:109-111 | An error entry starts with "Erro na geocodificação: " and a not-found entry does not. The error reason can be recovered from its entry, so different reasons give different entries. |
| `Geocode.ResolveAligned` | app.py:104-113 | There is one address per hotspot, in hotspot order. Entry i is decided by request i alone: the address if found, "Endereço não encontrado" if there is no location, the error text if the request raised. |
| `Geocode.FailureConfined` | app.py:105-112 | Changing the answer to request i changes address i only. |
| `Geocode.ReverseGeocode` | app.py:101-113 | The loop returns exactly the specified address list: one entry per hotspot, index-aligned with the hotspots. |
| `Ranking.BuildRanking` | app.py:119-126 | The table has `min(|peaks|, |addresses|)` rows. The row ranked r (from 1) carries hotspot r−1's latitude and longitude and address r−1. |
| `Points.MeanBetween` | app.py:136 | The mean of values that all lie in `[lo, hi]` lies in `[lo, hi]`. |
| `Points.MeanWithinRange` | app.py:136 | A column's mean lies between its minimum and its maximum. |
| `Ranking.MapCentre` | app.py:136 | The map centre, the mean latitude and mean longitude of the cases, lies within the cases' range on each axis. |
| `Pipeline.Analyse` | app.py:37-136 | Stops with the column or too-few-points error exactly when `Prepare` fails, and then returns only that `Halt`, with no report. Otherwise it reports the cleaned cases and the five `calculate_kde` hotspots. Each hotspot gets its own request's address in the same order. The table has five rows aligned with both, and the centre is `MapCentre` of the cleaned cases. |

## Left out

- Page layout, file uploader, slider, tables, spinners and `st.stop` (app.py:10-28, 50-67, 128) are user-interface plumbing. A stop is the `Halt` result instead.
- `st.cache_data` memoization (app.py:69, 100) is not modelled: the model covers one run without caching. A cached `reverse_geocode` replays the answers of an earlier run for the same hotspots, error entries from a transient failure included, and sends no new request; the model does not capture that replay.
- CSV parsing with pandas (app.py:33) is I/O. The table is given as its column names plus, per row, the two coordinate cells as optional reals. Non-numeric cells, which pandas would not turn into numbers, are not modelled. Infinite cells (`inf`, `-inf`) are not modelled either: in the code they pass `dropna` and the two-point check, then `kde.fit` raises and the run ends in the top-level error handler.
- The kernel density fit, `score_samples` and `np.exp` (app.py:72-73, 84-85) are floating-point numerics in a foreign library. They are the `Fit` parameter, so no property of the Gaussian kernel (non-negativity, the cluster-versus-outlier ordering) is modelled. The bandwidth reaches the model only through that parameter, and the slider range 0.0005–0.01 is not checked.
- Nominatim, its user agent and the 10-second timeout (app.py:103, 108) are network I/O. They are the `Geolocator` parameter. Rate limits and the cost of a timeout are not modelled.
- Floating-point rounding is not modelled; all arithmetic is exact over `real`. Numpy's last `mgrid` value may differ from `hi` in the last bit, while `LinspaceEndpoints` proves it equal.
- `TopK` breaks ties by preferring the higher index, as a stable `argsort` reversed would. Numpy's default quicksort may order equal scores differently. Every property stated in `IsTopK` and `TopKScoresUnique` holds for any tie order.
- The folium map, its case and hotspot markers and the `:.6f` formatting (app.py:123-124, 137-157) are rendering. The table keeps the coordinates as reals.
- The top-level `except` handler (app.py:159-161) only reports unexpected errors. None of the modelled steps raises on inputs that pass `Prepare`.
