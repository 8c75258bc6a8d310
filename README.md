# Real-estate investment dashboard: listing metrics and filters

A Dafny model of the data logic of a Streamlit dashboard for short-term-rental
investment in Spanish cities (mainly Valencia). The dashboard loads three
tables: rental listings, housing sale prices per square metre, and crime
statistics. It then does three things.

- **Derived investment metrics.** The mean sale price per m² (or 2000 when the
  sale-price table has no `precio` column) times an average unit of 70 m² gives
  one estimated property value for the whole city. Every listing gets its annual
  income (`price × days_rented`), gross ROI, net income (income − 3000) and net
  ROI against that value.
- **Sidebar filters.** Listings are narrowed to the selected city (compared
  case-insensitively). The sorted, distinct, non-missing neighbourhoods of what
  remains are offered as choices, with all of them selected by default. Listings
  are then narrowed to the selected neighbourhoods (compared case-sensitively).
  An empty result at either step stops the page with a warning. Without a `city`
  column the city step is skipped.
- **View aggregations.** The amenity count (commas + 1); active listings (more
  than 30 days rented); the top 15 neighbourhoods by number of listings; crime
  rows without the synthetic `Total` rows; and a (category, year) heatmap of
  incident sums, with 0 for absent pairs.

Files:

- `wrappers.dfy`: `Option`, used for NaN cells.
- `listings.dfy`: the row types of the three tables.
- `text.dfy`: ASCII lower-casing, Python's string order, and insertion into a sorted list of distinct strings.
- `metrics.dfy`: the reference price, the estimated property value and the five derived columns.
- `filters.dfy`: row masks, the neighbourhood list and the two-step filter with its stop outcomes.
- `views.dfy`: the amenity count, active listings, the competition ranking and the crime heatmap.
- `dashboard.dfy`: `ListingFrame`, the working table that the page changes in place. Its methods assign the derived columns row by row and rebind the table to the filtered rows.

Numbers are Dafny `real`. A NaN cell is `None`. A division by a zero property
value is also `None`, because it has no finite value.

## Model

| member | source | states |
|---|---|---|
| `Text.ToLowerIdempotent` | streamlit_app/app.py:57 | lower-casing an already lower-cased city name changes nothing |
| `Text.LexLessTotal` | streamlit_app/app.py:61 | Python's string order puts any two different neighbourhood names one before the other |
| `Text.InsertSpec` | streamlit_app/app.py:61 | adding a name to a strictly sorted list keeps it strictly sorted, and the list afterwards holds exactly the old names plus the new one |
| `Text.StrictlySortedUnique` | streamlit_app/app.py:61 | two strictly sorted lists with the same names are equal, so `sorted(unique(...))` has only one possible value |
| `InvestmentMetrics.PresentPrices` | streamlit_app/app.py:40 | the values averaged are the non-missing `precio` cells, each value as many times as it occurs in the table; their number and total are the number and total of the present cells |
| `InvestmentMetrics.MeanBounds` | streamlit_app/app.py:40 | the mean exists exactly when some value is present, and it lies between any lower and upper bound of the values |
| `InvestmentMetrics.EstimatedValueSource` | streamlit_app/app.py:39-45 | without a `precio` column the estimated value is 2000 × 70 = 140000; with one, it is defined exactly when some `precio` is present, it then equals 70 × (total of the present `precio` cells / their number), and it lies between 70 × the smallest and 70 × the largest `precio` |
| `InvestmentMetrics.WithMetricsAt` | streamlit_app/app.py:44-49 | the metrics step keeps the row count, the row order and every original cell, adds the derived columns, and gives every row the same estimated property value |
| `InvestmentMetrics.WithMetricsPointwise` | streamlit_app/app.py:44-49 | any table that augments each row of the input in place is the metrics step's result |
| `InvestmentMetrics.NetRoiBreakEven` | streamlit_app/app.py:44-49 | against a positive property value, net ROI is always below gross ROI, and it is non-negative exactly when the annual income is at least the 3000 operating cost |
| `InvestmentMetrics.NetRoiIdentity` | streamlit_app/app.py:44-49 | gross ROI is defined exactly when price, days rented and a non-zero estimated value are all present; net ROI is defined for the same rows and equals gross ROI − 3000 / value × 100 |
| `InvestmentMetrics.RoiRecoversIncome` | streamlit_app/app.py:44-46 | ROI × value / 100 gives back the annual income |
| `InvestmentMetrics.WorkedExampleValue` | streamlit_app/app.py:39-45 | `precio` values 2000, missing and 3000 average to 2500, which gives an estimated value of 175000 |
| `InvestmentMetrics.WorkedExampleMetrics` | streamlit_app/app.py:44-49 | a price of 50 for 100 days against 175000 gives income 5000, net income 2000, ROI 20/7 % and net ROI 8/7 % |
| `Filters.Where` | streamlit_app/app.py:57 | a mask keeps exactly the rows that pass it, and never returns more rows than it is given |
| `Filters.WhereIsSubsequence` | streamlit_app/app.py:57 | a mask keeps the input order: its result is a subsequence of the input |
| `Filters.WhereMultiplicity` | streamlit_app/app.py:57 | a mask keeps every copy of a passing row and no copy of a failing one |
| `Filters.WhereKeepsAll` | streamlit_app/app.py:57 | a mask returns its input unchanged exactly when every row passes it |
| `Filters.WhereIdempotent` | streamlit_app/app.py:63 | applying a mask twice gives the same rows as applying it once |
| `Filters.CityMatchIgnoresCase` | streamlit_app/app.py:57 | a city name and its lower-cased form select the same rows |
| `Filters.CaseAsymmetry` | streamlit_app/app.py:57-63 | a row always matches its own city in lower case, but it never matches the lower-cased form of its neighbourhood when that name has an upper-case letter |
| `Filters.UniverseSpec` | streamlit_app/app.py:61 | the neighbourhood list is strictly sorted (so it has no duplicates) and holds exactly the non-missing neighbourhoods of its rows |
| `Filters.UniverseIsSortedUnique` | streamlit_app/app.py:61 | any strictly sorted list of exactly those neighbourhoods is the neighbourhood list |
| `Filters.FilterStops` | streamlit_app/app.py:55-75 | the city stop happens exactly when there is a city column and no row matches the city, and no neighbourhood list exists then; otherwise the offered list is the picker's options; a table is shown exactly when some city row has a selected neighbourhood, and it is never empty |
| `Filters.FilterExact` | streamlit_app/app.py:55-75 | a shown table holds every copy of each input row that passes the city step (when there is one) and the neighbourhood step, and nothing else; it is in input order and never longer than the input |
| `Filters.UniverseFromCityRows` | streamlit_app/app.py:61-70 | the offered neighbourhoods are strictly sorted and come from the rows of the selected city only, or from all rows when there is no city column |
| `Filters.DefaultSelection` | streamlit_app/app.py:61-63 | with every offered neighbourhood selected, the neighbourhood step drops exactly the rows whose neighbourhood is missing, and a table is shown exactly when some city row has a neighbourhood |
| `Filters.FilterIdempotent` | streamlit_app/app.py:57-72 | filtering a shown table again with the same city and selection gives the same rows |
| `Filters.NoMadridExample` | streamlit_app/app.py:55-60 | a table whose only row is in Valencia, filtered on "madrid", stops at the city step |
| `Filters.FilterWithMetrics` | streamlit_app/app.py:36-75 | filtering after the metrics step ends the same way as filtering the raw table, with the same neighbourhood list; a shown table is the raw result with the derived columns added |
| `Views.AmenityCountOfJoin` | streamlit_app/app.py:262 | for one or more comma-free amenity names joined by commas, commas + 1 equals the number of names |
| `Views.ActiveListings` | streamlit_app/app.py:191 | the active listings are exactly the rows whose days rented is present and above 30, and there are no more of them than rows |
| `Views.SortByCountSpec` | streamlit_app/app.py:175 | sorting the groups keeps every group and the number of groups, keeps names distinct, and puts counts in non-increasing order |
| `Views.RankingSpec` | streamlit_app/app.py:174-175 | the ranked groups have one entry per non-missing neighbourhood, each with that neighbourhood's count of listings with an id, highest first |
| `Views.TopCompetitionShape` | streamlit_app/app.py:174-175 | the ranking has min(15, number of neighbourhoods) entries, distinct names and non-increasing counts, and each count is the count of listings with an id in that neighbourhood |
| `Views.TopCompetitionCutoff` | streamlit_app/app.py:174-175 | a neighbourhood missing from the ranking means the ranking is full (15 entries) and that neighbourhood has no more listings than the 15th |
| `Views.TopActiveCompetition` | streamlit_app/app.py:191-193 | the active ranking has min(15, number of neighbourhoods with active listings) entries, distinct names, each a neighbourhood of the active listings, counts of active listings with an id in non-increasing order, and each count is at most that neighbourhood's count of all listings |
| `Views.ExcludeTotal` | streamlit_app/app.py:477 | the kept crime rows are exactly the rows not labelled `Total` |
| `Views.HeatmapCell` | streamlit_app/app.py:495-500 | each heatmap cell is the sum of incidents for that category and year, and 0 when the pair does not occur |
| `Views.HeatmapKeys` | streamlit_app/app.py:495-499 | the pivot has an entry exactly for the (category, year) pairs that occur |
| `Views.CrimeHeatmapCell` | streamlit_app/app.py:477-500 | in the crime heatmap a real category's cell sums its incidents in that year; the `Total` rows never appear |
| `Dashboard.ListingFrame.AddMetrics` | streamlit_app/app.py:37-49 | assigning the derived columns in place leaves the table equal to the metrics step applied to its old rows |
| `Dashboard.ListingFrame.AddAmenityCounts` | streamlit_app/app.py:261-262 | assigning `n_amenities` in place changes only that cell of each row: commas + 1, or missing when the amenities text is missing |
| `Dashboard.ListingFrame.ApplyFilter` | streamlit_app/app.py:55-75 | the outcome is the filter's outcome on the old table; on a shown table the working table is rebound to the filtered rows; on a neighbourhood stop without a `city` column it is rebound to the empty result (line 72 rebinds before the check at 73-75); on any other stop it is unchanged |
| `Dashboard.ListingFrame.Prepare` | streamlit_app/app.py:36-75 | metrics followed by filtering ends the same way as filtering the raw table; on a shown table the working table is the shown raw rows with the derived columns added, on a neighbourhood stop without a `city` column it is empty; on any other stop it is the whole table with the derived columns added; the `city` column flag is unchanged |

## Left out

- Loading the three CSV files, the one-hour `st.cache_data` memoisation and the error display on a failed load (streamlit_app/app.py:21-33, 76-78): these are file I/O and a time-based cache inside the UI library. The model starts from the loaded tables.
- Widgets and `st.stop()` (streamlit_app/app.py:51-56, 62, 71). The selectbox limits the city to four names, and the multiselect limits the selection to the offered neighbourhoods. The model accepts any city string and any selection, and a stop is an outcome value.
- The `astype(float)` cast of `price` (streamlit_app/app.py:37-38): values are already `real`, so the cast is the identity. A non-numeric price, which would raise, is not modelled.
- Missing `price` or `days_rented` columns: the guard at line 37 protects only the cast, and line 44 would then raise `KeyError`. The model assumes both columns exist. A missing `neighbourhood` column, which would also raise, is not modelled either.
- Floating point: rounding, infinities and NaN propagation. NaN is `None`, and a division by a zero property value is `None` rather than ±inf.
- `Filters.CityMatchIgnoresCase`: Python's `str.lower` is full Unicode lower-casing; the model lower-cases ASCII letters only. The four selectable city names are ASCII.
- `Views.TopCompetitionShape`: pandas' default `sort_values` is not stable, so the order of equal counts is not fixed. The model sorts stably, but no contract promises any order among equal counts.
- Columns read through pandas' `.str` accessor: `city` at streamlit_app/app.py:57 and `amenities` at line 262. When such a column holds no string at all (every cell empty in the CSV), pandas reads it as floats and `.str` raises `AttributeError`, which ends the page. The model assumes each of these columns holds at least one string. On an all-missing `city` it reports `NoCityData` instead; on an all-missing `amenities` it sets every amenity count to missing.
- The view-side guards on optional columns (`days_rented` at line 190, `amenities` at line 261, an empty or missing crime table at line 476): the model assumes the column is there when a view runs.
- Crime rows always have a category, a year and a whole-number incident count. In the source a row with a missing category passes the `Total` exclusion at line 477 and is then dropped by `pivot_table`; a row with a missing year is dropped too. Neither case is modelled. Pivot rows and columns for pairs that never occur are not materialised; `Views.Cell` reads them as 0, as `fillna(0)` does inside the pivot.
- Mean-based rankings (mean `precio`, mean ROI, mean price, mean amenities per neighbourhood), review sums, histograms, box plots, KDE plots, scatter plots, the map, the conclusions text and the CSV export (streamlit_app/app.py:80-569 apart from lines 174-175, 191-193, 262, 477 and 495-500): this is presentation over floating-point means.
- Listing columns that no modelled rule reads (bedrooms, bathrooms, reviews, coordinates) are not part of `Listing`.
