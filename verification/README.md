# Customer address heatmap: a Dafny model of its data pipeline

The repository turns a table of customer addresses into per-pincode figures
for a map. Four pipelines make up its core. This project models each of them
in Dafny and proves what they compute.

- **Dashboard aggregation** (`app.py`):
  - Pincodes are coerced to numbers, and rows whose pincode does not parse are dropped.
  - The rows are left-joined to the coordinate cache by pincode. The city falls back to the row's own city when the cache has none. Rows without coordinates are dropped.
  - The rows are optionally filtered to one registration year.
  - Per pincode, the model computes:
    - the customer count;
    - the median latitude and longitude;
    - the most frequent city and state;
    - the share of all rows, in percent.
  - The summaries are sorted by count, largest first.
  - Two threshold scales give a marker colour: one by percentage, one by count.
  - Modules: `Dashboard`, `Aggregation`, `MarkerTiers`.
- **Coordinate cache builder** (`fetch_coordinates.py`):
  - A mode is chosen against an existing cache: use it as is, append new pincodes, or refetch everything.
  - The builder collects the distinct pincodes still to look up, in ascending order.
  - It asks for confirmation, then looks each pincode up once. It keeps the first candidate of every successful lookup, with its city and state read from the candidate's address components.
  - It writes the new cache table.
  - Modules: `Geocoder`, `Reconciler`.
- **Address file merge** (`merge_addresses.py`):
  - Each listed file is cleaned the same way, and the rows kept and dropped are counted.
  - The merge aborts if any file is missing.
  - Otherwise the kept rows are concatenated in file order.
  - Module: `AddressMerge`.
- **Legacy heatmap aggregation** (`create_heatmap.py`):
  - The address table is cleaned. So is a reference table that may list a pincode several times.
  - The two are left-joined; a row can be multiplied.
  - Rows without coordinates are dropped.
  - Rows are counted per (latitude, longitude) pair.
  - The ten largest (city, pincode, latitude, longitude) groups are selected.
  - Module: `Heatmap`.

Shared pieces:

- `Seqs` holds the table operations the pipelines use:
  - coerce-and-drop;
  - grouping and group sizes;
  - sorted distinct keys;
  - sorting by descending count;
  - summing;
  - concatenating tables;
  - a left join with multiplicity.
- `Records` holds the address and cache rows.

Tables are sequences of rows. Parsed cells that can fail are `Option`s. The geocoding provider is an oracle, a function from pincode to response. The prompt answers, file presence and file contents are parameters.

Some points differ from what a reader might expect of such a tool:

- The summary sort is pandas' default quicksort (app.py:105), which is not stable and fixes no order among equal counts. The model's own sort is a stable insertion sort over pincodes listed in ascending order, so its ties come out in ascending pincode order. No contract promises that order: only non-increasing counts and a permutation are stated.
- A refetch writes only the lookups that succeeded. A pincode whose lookup fails again is dropped from the cache rather than kept.
- Lookups are not retried, and failures are not classified. An exception and an empty result both mean "no row".
- The state label has no fallback. Only the city falls back to the row's own value.
- The cache is written in one overwrite, with no atomic swap.

## Model

| member | source | states |
|---|---|---|
| Seqs.FilterMapMembership | app.py:25-26 | A value survives coerce-and-drop exactly when some input row converts to it. |
| Seqs.FilterMapLength | app.py:25-26 | The rows kept number exactly the rows whose conversion succeeds. |
| Seqs.FilterMapAllSome | create_heatmap.py:54 | When every row converts, nothing is dropped, and each output row is its input row's conversion. |
| Seqs.SortedUnique | fetch_coordinates.py:84 | `sorted(unique(...))` is strictly ascending and holds exactly the values of its input. |
| Seqs.GroupsPartition | app.py:89 | Over duplicate-free group keys that cover every row, the group sizes add up to the number of rows. No row is lost or counted twice. |
| Seqs.GroupMultiset | app.py:84 | A group holds every row with its key, as often as the table does, and no other row. |
| Seqs.GroupConcat | app.py:84 | Grouping two tables and concatenating equals grouping their concatenation, so kept rows keep their order. |
| Seqs.SortDesc | app.py:105 | The sort by descending count gives non-increasing counts and is a permutation of its input. |
| Seqs.Lookup | app.py:33-38 | A cache match is a cache row with that pincode. No match means no row has that pincode. |
| Seqs.LeftJoinUniqueKeys | app.py:33-38 | With one cache row per pincode, a left row yields exactly one joined row. It carries the looked-up row, or null. |
| Seqs.LeftJoinLength | create_heatmap.py:42-47 | The joined table's length is the sum, over left rows, of each row's match count, counting 1 for a row without matches. |
| Seqs.LeftJoinBlocks | create_heatmap.py:42-47 | The joined table is each left row's block, in left order. A block pairs the row with each of its matches in right-table order, or once with null when it has none. |
| Records.CleanPinsMembership | app.py:25-26 | A row survives pincode cleaning exactly when its pincode parsed, and it survives unchanged. |
| Records.CleanPinsConcat | merge_addresses.py:20-39 | Cleaning two tables and concatenating equals cleaning their concatenation. Order is kept. |
| Records.CleanPins | app.py:25-26 | Pincode coercion and the drop of unparsed rows. It keeps no more rows than it is given. CleanPinsMembership and CleanPinsConcat state which rows it keeps and in what order. |
| Dashboard.LoadDataWithUniqueKeys | app.py:16-53 | With one cache row per pincode, load_data keeps a raw row exactly when its pincode parses and the cache row for it has both coordinates. The rows keep input order, are not duplicated, and take the cache city, else the row's city. |
| Dashboard.LoadData | app.py:16-53 | load_data on a raw address table and the cache. LoadDataWithUniqueKeys states what it keeps. |
| Dashboard.FillCity | app.py:48 | The cache city, else the row's own. LoadDataWithUniqueKeys states it for every kept row. |
| Dashboard.FilterYear | app.py:83-86 | 'All Years' keeps every row, undated ones included. A year keeps every row of that year, as often as the view holds it, and no other row. |
| Dashboard.FilterYearConcat | app.py:83-86 | Filtering two views and concatenating equals filtering their concatenation, so the kept rows keep their order. |
| Dashboard.YearOfResolved | app.py:16-86 | Filtering the per-row resolved view to a year equals resolving only that year's raw rows. |
| Dashboard.YearViewWithUniqueKeys | app.py:16-86 | With one cache row per pincode, a year's view keeps, in order, exactly the raw rows of that year that load_data keeps, and has that many rows. |
| Aggregation.SortRealsSorted | app.py:93-94 | The sorted coordinate column is non-decreasing. |
| Aggregation.SortRealsPermutation | app.py:93-94 | The sorted coordinate column is a permutation of the column. |
| Aggregation.MedianWithinRange | app.py:93-94 | The median lies between the smallest and largest value of the group. |
| Aggregation.MedianOfConstant | app.py:93-94 | A group whose rows share one coordinate has that coordinate as its median. |
| Aggregation.Median | app.py:93-94 | The median of a group's coordinates, averaging the two middle values for an even count. MedianWithinRange and MedianOfConstant state its bounds. |
| Seqs.StrLtIsStrictOrder | app.py:95-96 | The string order used to pick among tied modes is a strict total order. |
| Aggregation.NonNullMembership | app.py:95-96 | The non-null values of a column are exactly the values present in it. |
| Aggregation.MostFrequent | app.py:95-96 | The chosen value has maximal frequency, and it is the first such value in key order. |
| Aggregation.MostFrequentLeastOfTies | app.py:95-96 | Among ascending candidates, any other value as frequent as the chosen one comes after it in key order. |
| Aggregation.ModeIsMostFrequent | app.py:95-96 | An all-null group gives null. Otherwise the mode is a present value of maximal frequency and the least of the tied values. |
| Aggregation.ModeOfPresent | app.py:95-96 | With some non-null value present, the mode is present, maximal in frequency, and least among ties. |
| Aggregation.Mode | app.py:95-96 | The least most frequent non-null value, else the first value. ModeIsMostFrequent and ModeOfPresent state its contract. |
| Aggregation.SummarizeRows | app.py:89-100 | Every summary row belongs to a pincode of the view and is that pincode's summary. |
| Aggregation.SummarizeOnePerPincode | app.py:89-100 | The summary holds each pincode of the view exactly once, and no other pincode. |
| Aggregation.GroupOfPin | app.py:89 | A pincode of the view has a non-empty group made of exactly its rows. |
| Aggregation.SummarizeRowContents | app.py:89-100 | A summary row's count is the size of its pincode's group, at least 1. Its coordinates are the group medians, within the group's range. Its city and state are the group modes. |
| Aggregation.SummariesCountTotal | app.py:89 | The counts of the summaries of some pincodes add up to the sizes of their groups. |
| Aggregation.SummarizeTotal | app.py:89-103 | The customer counts add up to the number of rows in the view. |
| Aggregation.TotalPercentageOfShares | app.py:103-104 | Percentages computed as count over total times 100 add up to the summed counts over the total, times 100. |
| Aggregation.ShareBounds | app.py:104 | A share of a positive part of a total lies in (0, 100]. |
| Aggregation.SummarizeEmpty | app.py:89-105 | An empty view has an empty summary. |
| Aggregation.SummaryShare | app.py:103-104 | Each percentage is the row's count over the view's row count, times 100, and lies in (0, 100]. |
| Aggregation.PercentagesAddUp | app.py:103-104 | Percentages over counts that sum to the total add up to 100. |
| Aggregation.SummarizePercentages | app.py:103-104 | An empty view gives no summaries. Each percentage is count/total*100, in (0, 100]. A non-empty view's percentages add up to exactly 100. |
| Aggregation.SummarizeOrdered | app.py:105 | Summary rows are ordered by non-increasing customer count. |
| Aggregation.Summarize | app.py:88-105 | The per-pincode summary. SummarizeRows, SummarizeOnePerPincode, SummarizeRowContents, SummarizeTotal, SummarizePercentages and SummarizeOrdered state its contract. |
| Aggregation.DashboardCountsResolvedRows | app.py:16-105 | With unique cache keys and 'All Years', the counts add up to the number of input rows that parse and resolve in the cache to coordinates. |
| Aggregation.DashboardCountsInYear | app.py:16-105 | With unique cache keys and a selected year, the counts add up to the number of input rows of that year that parse and resolve in the cache to coordinates. |
| Aggregation.DashboardSummary | app.py:16-105 | load_data, the year filter and the summary composed. DashboardCountsResolvedRows and DashboardCountsInYear state its totals. |
| MarkerTiers.PercentageColorIsTable | app.py:228-235 | The percentage colours are the table 10/5/1, read with "at least", with light blue below it. |
| MarkerTiers.CountColorIsTable | app.py:240-247 | The count colours are the table 1000/500/100, read with "more than", with light blue below it. |
| MarkerTiers.PercentageColorMonotone | app.py:228-235 | A larger percentage never gets a cooler colour. |
| MarkerTiers.CountColorMonotone | app.py:240-247 | A larger count never gets a cooler colour. |
| MarkerTiers.TierBoundaries | app.py:228-247 | Exactly 10, 5 or 1 percent already takes the warmer colour. Exactly 1000, 500 or 100 customers does not. |
| MarkerTiers.PercentageColor | app.py:228-235 | The percentage colour chain. PercentageColorIsTable, PercentageColorMonotone and TierBoundaries state it. |
| MarkerTiers.CountColor | app.py:240-247 | The count colour chain. CountColorIsTable, CountColorMonotone and TierBoundaries state it. |
| Geocoder.LastMatchIndex | fetch_coordinates.py:29-35 | The label comes from the last matching component: that component matches, and none after it does. With no match the label is null. |
| Geocoder.LastMatchSpec | fetch_coordinates.py:29-35 | The label is null exactly when no component matches. Otherwise it is a matching component's name, and no later component matches. |
| Geocoder.ExtractLocality | fetch_coordinates.py:29-35 | The component walk leaves the city as the last locality component. It leaves the state as the last component tagged as a level-1 area and not as a locality. |
| Geocoder.GetCoordinates | fetch_coordinates.py:18-50 | A lookup returns the row that the oracle's response for this pincode resolves to. |
| Geocoder.ResolveOutcome | fetch_coordinates.py:20-50 | A lookup fails, without raising, exactly on an exception or an empty result. A success carries the asked pincode and the first candidate's two coordinates. |
| Geocoder.ResolveUsesFirstCandidate | fetch_coordinates.py:24-26 | Responses that agree on the first candidate give the same row. |
| Geocoder.ResolveLabels | fetch_coordinates.py:25-42 | A success's city or state is null exactly when no component of the first candidate qualifies. |
| Geocoder.Resolve | fetch_coordinates.py:20-50 | The cache row a response yields. ResolveOutcome, ResolveUsesFirstCandidate and ResolveLabels state it, and GetCoordinates is proved equal to it. |
| Reconciler.SelectMode | fetch_coordinates.py:58-75 | "Use" exactly for an existing cache and answer U. "Append" exactly for an existing cache and answer A. Everything else refetches. |
| Reconciler.ObservedPincodesMembership | fetch_coordinates.py:79-81 | A pincode is observed exactly when some address row's pincode parses to it. |
| Reconciler.Without | fetch_coordinates.py:88 | Filtering out cached pincodes keeps exactly the others and keeps them ascending. |
| Reconciler.ToFetch | fetch_coordinates.py:84-88 | The pincodes to fetch are strictly ascending: exactly the observed pincodes outside the skip set. |
| Reconciler.FetchAll | fetch_coordinates.py:106-113 | The fetch loop collects exactly the successful lookups, in fetch order. |
| Reconciler.SuccessesMembership | fetch_coordinates.py:108-113 | A row is fetched exactly when its pincode was to be fetched and that pincode's lookup gave this row. |
| Reconciler.SuccessesAscending | fetch_coordinates.py:108-113 | The fetched rows have strictly ascending pincodes. |
| Reconciler.Successes | fetch_coordinates.py:106-113 | The fetched rows in lookup order. There are no more of them than lookups. SuccessesMembership and SuccessesAscending state which rows they are and their order. |
| Reconciler.Reconcile | fetch_coordinates.py:52-131 | A run writes the outcome of its mode, its to-fetch list, its confirmation and its lookups. |
| Reconciler.WrittenTable | fetch_coordinates.py:120-126 | Append mode writes the old cache unchanged, then the new rows. Refetch, or no cache file, writes only the new rows. |
| Reconciler.FetchedPincodes | fetch_coordinates.py:107-114 | A pincode is among the fetched rows exactly when it was looked up and its lookup succeeded. |
| Reconciler.WrittenPincodes | fetch_coordinates.py:120-129 | The written pincodes are the cached ones in append mode, plus every observed, unskipped pincode whose lookup succeeded. |
| Reconciler.WrittenKeysUnique | fetch_coordinates.py:121-124 | The written table has one row per pincode. An append run needs the old cache to have one row per pincode; a refetch writes fresh rows alone and so repairs a cache with repeated pincodes. |
| Reconciler.AppendWithNothingNew | fetch_coordinates.py:67-93 | Appending when every observed pincode is cached writes nothing. |
| Reconciler.AppendAfterCompleteRun | fetch_coordinates.py:52-131 | After a run in which every lookup it made succeeded, an append run writes nothing. Pincodes the run skipped as cached need not resolve. |
| Reconciler.MergeCache | fetch_coordinates.py:120-126 | The old cache followed by the new rows when the skip set is non-empty, else the new rows. WrittenTable states it by mode. |
| Reconciler.Outcome | fetch_coordinates.py:52-131 | What a run writes. WrittenTable, WrittenPincodes, WrittenKeysUnique, AppendWithNothingNew and AppendAfterCompleteRun state it. |
| AddressMerge.StatsOf | merge_addresses.py:19-30 | The loaded figure is the number of rows whose pincode parsed, and the dropped figure is the rest. The unique figure is the number of distinct parsed pincodes. |
| AddressMerge.PinSetOfCleaned | merge_addresses.py:30 | The distinct pincodes of a cleaned file are exactly the pincodes that parsed in it. |
| AddressMerge.FirstMissing | merge_addresses.py:14-35 | Every file before the first missing one is present, and that one is absent. |
| AddressMerge.MergeAddressFiles | merge_addresses.py:4-55 | The merge succeeds exactly when every file exists, and then writes the cleaned files concatenated. A missing file writes nothing. Figures are reported for every file loaded. |
| AddressMerge.CombinedIsCleanedConcat | merge_addresses.py:20-39 | The combined table equals the cleaning of all raw rows concatenated. |
| AddressMerge.CombinedLength | merge_addresses.py:39-46 | The combined table has as many rows as the files kept in total. |
| AddressMerge.PinSetSize | merge_addresses.py:47 | A table has no more distinct pincodes than rows. |
| AddressMerge.CombinedPincodes | merge_addresses.py:30-47 | The combined distinct pincodes are the union of the files' own, and there are no more of them than combined rows. |
| Heatmap.CleanReferenceMembership | create_heatmap.py:28-36 | A reference row is kept exactly when its pincode, latitude and longitude all parsed. |
| Heatmap.CleanReference | create_heatmap.py:28-36 | Reference coercion and the drop of rows missing a pincode or a coordinate. It keeps no more rows than it is given. CleanReferenceMembership states which rows it keeps. |
| Heatmap.Mapped | create_heatmap.py:27-54 | The cleaned, joined rows with coordinates. MappedMembership, MappedConcat, MappedOne and MappedRows state it. |
| Heatmap.MappedOne | create_heatmap.py:42-54 | One address row's mapped rows are its pincode and city with the coordinates of each matching reference row, in reference order. Without a match it has none. |
| Heatmap.MappedConcat | create_heatmap.py:27-54 | Mapping two address tables and concatenating equals mapping their concatenation, so the mapped rows follow the address rows' order. |
| Heatmap.OneMembership | create_heatmap.py:42-54 | A row is among one address row's mapped rows exactly when some reference row with its pincode gives its coordinates. |
| Heatmap.JoinedMembership | create_heatmap.py:42-54 | Over cleaned tables, a mapped row is exactly a matching pair: an address row and a reference row with its pincode. It carries the address's pincode and city and the reference row's coordinates. |
| Heatmap.MappedMembership | create_heatmap.py:27-54 | From raw tables, the rows with coordinates are exactly the matching pairs of a cleaned address row and a cleaned reference row. |
| Heatmap.MappedLocations | create_heatmap.py:27-59 | A location of the count table is exactly the coordinate pair of a cleaned reference row whose pincode some cleaned address row carries. |
| Heatmap.MappedCount | create_heatmap.py:42-54 | Over cleaned tables, the number of rows with coordinates is the sum, over address rows, of each row's matching reference rows. |
| Heatmap.MappedRows | create_heatmap.py:27-54 | From raw tables, the number of rows with coordinates is the sum, over cleaned address rows, of their cleaned reference matches. |
| Heatmap.Locations | create_heatmap.py:59 | The location keys are strictly ascending and exactly the coordinate pairs present. |
| Heatmap.LocationCountsRows | create_heatmap.py:59 | There is one count row per distinct pair. Its count is the number of rows at that pair, and at least 1. |
| Heatmap.LocationCountsTotal | create_heatmap.py:59-61 | The location counts add up to the number of rows with coordinates. |
| Heatmap.LocationCounts | create_heatmap.py:59 | Rows per coordinate pair. Locations, LocationCountsRows, LocationCountsTotal and MappedLocations state it. |
| Heatmap.PlaceGroupsSpec | create_heatmap.py:113 | Groups have distinct keys and cover exactly the rows that have a city. Each group's count is the number of rows with its key, at least 1, and the counts add up to the number of such rows. |
| Heatmap.PlaceGroups | create_heatmap.py:113 | Rows per (city, pincode, latitude, longitude) key. PlaceGroupsSpec states it. |
| Heatmap.HeadOfSorted | create_heatmap.py:113 | The first n of a descending sort are non-increasing and a sub-multiset of the input, so no row is repeated. None left out is larger than one kept. |
| Heatmap.TopLocationsSpec | create_heatmap.py:113 | The top list has min(10, number of groups) groups, largest first. They are a sub-multiset of the groups, so no group appears twice. No group left out is larger than one kept. |
| Heatmap.TopLocations | create_heatmap.py:113 | The ten largest groups. TopLocationsSpec states it. |

## Left out

- Page setup, sidebar widgets, metrics and memoisation of the dashboard (app.py:8-15, 56-80, 107-116, 323-337): user interface.
- The year options list (app.py:66-67): user interface. The selection is the `selected` parameter of `Dashboard.FilterYear`.
- Maps, markers, popups, the heat layer, map centres and printed statistics (app.py:118-311, create_heatmap.py:63-110): rendering.
- The cluster-icon scripts (app.py:140-198) are JavaScript embedded in strings. Their thresholds are not the marker tiers modelled here.
- Percentage display strings (app.py:209, 318): number formatting.
- Reading and writing files, and file-existence tests. Tables, and the presence of a file, are parameters. A table the model writes is a return value.
- The maps client, its API key, and the query string it is sent. A lookup is the `geocode` oracle. A response without the expected fields raises inside the same `try` in the source, so it counts as `Raised`.
- Pauses between lookups, prompts and all printing. The prompt answers are taken after trimming and case normalisation.
- Date parsing, including its two-digit-year pivot. A row's year is an input, or None when the date did not parse.
- Floating point. Coordinates, medians and percentages are exact reals, so the model states that percentages add up to exactly 100 where the source is within rounding of it.
- Non-integral numeric pincodes. Coercion is modelled as giving a whole number or nothing.
- Address columns other than pincode, city and year. They travel through the joins unchanged and no modelled figure reads them.
- A null pincode in a stored cache table. Cache rows always carry a pincode.
- Aggregation.Summarize: does not fix the order among pincodes with equal counts, because pandas' default quicksort is not stable. Only non-increasing counts and a permutation are promised.
- Heatmap.TopLocations: does not fix which of several equally large groups fill the last places of the top ten, for the same reason. It promises that no group left out is larger than one kept.
- AddressMerge.MergeAddressFiles: takes the list of files as a parameter instead of the two fixed names. An empty list is a model-only input: the source always lists two files, and concatenating no tables would raise there, while the model writes an empty table. The printed sample rows and column list are not modelled.
