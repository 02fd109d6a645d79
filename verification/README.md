# Indian state finances: the table-cleaning core in Dafny

This project models the data logic of the Indian state finances dashboard.
That logic is a small pipeline. It turns wide, comma-formatted government
finance tables into long records of (state, year, value), plus a component or
an expenditure type where the table has one. It then derives percentage
shares from those records. Values are Dafny `real`s. A missing value is
`None` of an `Option<real>`. Every exception the Python code can raise on bad
input is a `Failure` of a `Result`.

The modules follow the program:

| module | models |
|---|---|
| `Wrappers` | `Option` and `Result` |
| `Text` | ASCII `strip`, `lower`, comma removal, substring search, Python string order |
| `Numeric` | the numeric cleaning of cells: a decimal parser for a stated grammar, the paired-table cell cleaner, `load_finances` coercion |
| `Sorting` | a stable sort by a total preorder (multi-column `sort_values`, `sorted`) |
| `Reshape` | `DataFrame.melt` with one identifier column (column-major stacking) |
| `Matching` | `str.extract` of a fixed-width pattern (leftmost match) |
| `Palette` | `get_distinct_colors`: order-preserving de-duplication and cyclic selection |
| `Registry` | the 28-state registry, initials and colour maps |
| `RevexCapex` | the revenue/capital expenditure page: total-row filter, header-row drop, pairwise renaming, cell cleaning, melt, year/type extraction, start year, sort |
| `Shares` | `create_percentage_share` and the tab views that use it, with the tab-3 state ordering |
| `RevenueComponents` | the revenue-components page: year categories, component catalogue, unguarded percent, latest-year headline, "Total"-free raw view |
| `Receipts` | `load_finances` and the revenue-receipts page: state filter, melt, integer year, initials |

The numeric grammar is `sign? digits ('.' digits)?`, with at least one digit
on one side of the point. A string in this grammar becomes a number.
Everything else becomes missing. This is the part of `pd.to_numeric(...,
errors='coerce')` that the tables use.

Three facts about the code shape the model:
- No code strips currency glyphs, so a cell such as `₹1,234` cleans to
  missing.
- Only `-`, `–` and the empty string are mapped to missing explicitly.
  "nan" and "None" become missing because they do not parse
  (`Numeric.MissingTokensAreMissing`).
- The paired page keeps the `dddd-dd` label as `Year` and adds the integer
  `Year_Start`.

## Model

| member | source | states |
|---|---|---|
| RevexCapex.DropMissingStates | pages/3_State_Revex_Capex.py:11 | a row survives exactly when its `States` cell is present; surviving rows keep their cells |
| RevexCapex.DropMissingStatesAppend | pages/3_State_Revex_Capex.py:11 | the surviving rows keep their order and multiplicity: one more row adds exactly its own survivor, at the end |
| RevexCapex.DropGrandTotals | pages/3_State_Revex_Capex.py:13 | a row survives exactly when its stripped, lower-cased state is not "total", "all states", "india total" or "grand total" |
| RevexCapex.DropGrandTotalsAppend | pages/3_State_Revex_Capex.py:13 | the kept rows keep their order and multiplicity: one more row is appended exactly when it is not a grand total |
| RevexCapex.GrandTotalExample | pages/3_State_Revex_Capex.py:13 | " Grand TOTAL " is recognised as a total row and "Goa" is not |
| Text.Strip | pages/3_State_Revex_Capex.py:13 | the result is the input with its leading and trailing whitespace (the ASCII whitespace and separator characters) cut off, and it neither starts nor ends with whitespace |
| Text.Lower | pages/3_State_Revex_Capex.py:13 | same length; each character is lower-cased in place |
| RevexCapex.RenameColumns | pages/3_State_Revex_Capex.py:20-24 | succeeds exactly when the value columns come in whole pairs; column c is named after the first label of its pair plus `_REx` (even c) or `_CEx` (odd c); otherwise the pandas length mismatch with n+1 expected and n+2 given |
| RevexCapex.RenameIgnoresSecondLabels | pages/3_State_Revex_Capex.py:20-24 | the second label of each pair never influences the new names |
| RevexCapex.RenameExample | pages/3_State_Revex_Capex.py:20-24 | four columns labelled 2012-13, 2012-13, 2013-14, 2013-14 become 2012-13_REx, 2012-13_CEx, 2013-14_REx, 2013-14_CEx |
| Text.RemoveCharAppend | pages/3_State_Revex_Capex.py:31 | removing commas from a concatenation removes them from each part independently |
| Text.RemoveCharAbsent | pages/3_State_Revex_Capex.py:31 | text without commas is left unchanged by comma removal |
| Numeric.CleanPairedCell | pages/3_State_Revex_Capex.py:27-35 | a placeholder ("-", "–", "") cleans to missing; any number produced comes from a numeral after comma removal and stripping |
| Numeric.PlaceholderMapRedundant | pages/3_State_Revex_Capex.py:33-35 | cleaning equals parsing the stripped, comma-free text: the placeholder map never changes the result |
| Numeric.MissingTokensAreMissing | pages/3_State_Revex_Capex.py:27-35 | an empty CSV cell, the placeholders, "nan" and "None" all clean to missing, never to an error |
| Numeric.CleanPairedExample | pages/3_State_Revex_Capex.py:27-35 | "12,345.50" cleans to 12345.5 |
| Numeric.CleanGroupedAmount | pages/3_State_Revex_Capex.py:27-35 | any digits grouped with thousands commas, a point and fraction digits clean to the value of the ungrouped numeral |
| Numeric.CleanGroupedWhole | pages/3_State_Revex_Capex.py:27-35 | round trip: every natural number printed with thousands commas cleans back to itself, in the paired table and in `load_finances` |
| Numeric.ParseDecimal | pages/3_State_Revex_Capex.py:35 | a number is produced exactly when the text is a numeral of the grammar |
| Numeric.ParseShowNat | pages/3_State_Revex_Capex.py:35 | round trip: parsing the decimal digits of a natural number gives that number |
| Numeric.ParseFixedPoint | pages/3_State_Revex_Capex.py:35 | "d.f" parses to the whole part plus the fraction |
| Numeric.ParseNegative | pages/3_State_Revex_Capex.py:35 | a leading minus parses exactly when the rest does, and negates the value |
| Numeric.ParsePositive | pages/3_State_Revex_Capex.py:35 | a leading plus sign changes nothing |
| Numeric.ParseFraction | pages/3_State_Revex_Capex.py:35 | a numeral with no whole digits, such as ".5", parses to its fraction |
| Numeric.UngroupThousands | pages/3_State_Revex_Capex.py:31 | removing the commas from thousands-grouped digits gives back the digits |
| Reshape.Melt | pages/3_State_Revex_Capex.py:38 | exactly one record per (row, value column); the record of row i and column c sits at c·rows + i and carries that row's id, that column's name and that cell |
| Reshape.MeltOrigin | pages/3_State_Revex_Capex.py:38 | every melted record comes from one (row, column) pair at its position |
| Matching.Extract | pages/3_State_Revex_Capex.py:39-40 | the extracted text has the pattern's width and matches it, and it is the window of the leftmost match; nothing is extracted exactly when no window matches |
| Matching.FirstMatch | pages/3_State_Revex_Capex.py:39-40 | the match found is the leftmost one |
| Matching.ExtractAppend | pages/3_State_Revex_Capex.py:39-40 | when no match straddles the join, extracting from a + b gives a's match if a has one, otherwise b's |
| RevexCapex.YearOfRenamed | pages/3_State_Revex_Capex.py:23-39 | the `_REx`/`_CEx` suffix never changes the extracted `dddd-dd` year |
| RevexCapex.TypeOfRenamed | pages/3_State_Revex_Capex.py:23-40 | when the label names no type, the extracted type is REx for the first and CEx for the second column of a pair |
| RevexCapex.RenamedHasType | pages/3_State_Revex_Capex.py:23-40 | every renamed column yields a type |
| RevexCapex.YearStart | pages/3_State_Revex_Capex.py:44 | the start year is a four-digit number, between 0 and 9999 |
| RevexCapex.ToRecords | pages/3_State_Revex_Capex.py:39-44 | succeeds exactly when every melted label has a year; record k is built from melted cell k; a failure names a label without a year |
| Reshape.FirstRejected | pages/3_State_Revex_Capex.py:44 | the conversion stops at the first record it rejects: nothing is rejected exactly when every record is accepted, and every record before the reported one is accepted |
| Receipts.ToReceipts | pages/1_State_Revenue_Receipts.py:18 | succeeds exactly when every melted label is one whose first four characters (all of it when shorter) are decimal digits; receipt k is built from melted cell k; a failure names a label that is not |
| Receipts.ReceiptsLong | pages/1_State_Revenue_Receipts.py:14-18 | on success there is one receipt per (selected state, column); a failure names a column label that is not one whose first four characters (all of it when shorter) are decimal digits |
| Receipts.MeltedHeadings | pages/1_State_Revenue_Receipts.py:17 | melting gives one record per (selected state, column), and every record's `Year` is one of the column labels |
| RevexCapex.ToRecord | pages/3_State_Revex_Capex.py:39-44 | the record keeps the state and value; its year is a `dddd-dd` token whose first four digits are the start year |
| RevexCapex.CleanRevexCapex | pages/3_State_Revex_Capex.py:16-47 | every failure of the earlier steps is passed on; on success the result is sorted by (Year_Start, States) and is a permutation of the melted records |
| RevexCapex.RecordLeIsTotalPreorder | pages/3_State_Revex_Capex.py:47 | the (Year_Start, States) order is total and transitive |
| Sorting.SortBy | pages/3_State_Revex_Capex.py:47 | the output is sorted, has the input's length and is a permutation of the input |
| Sorting.SortByStable | pages/3_State_Revex_Capex.py:47 | elements that sort level keep their input order |
| RevexCapex.CleanRevexCapexStable | pages/3_State_Revex_Capex.py:47 | records with equal (Year_Start, States) keep their melted order, so a pair's REx record stays ahead of its CEx record |
| Text.LexLeTotal | pages/3_State_Revex_Capex.py:47 | any two strings are comparable |
| Text.LexLeTransitive | pages/3_State_Revex_Capex.py:47 | string order is transitive |
| Text.LexLeAntisymmetric | pages/3_State_Revex_Capex.py:47 | strings ordered both ways are equal |
| RevexCapex.CleanRevexCapexErrors | pages/3_State_Revex_Capex.py:16-44 | the failure is NoSubHeaderRow exactly when no row survives the filters; LengthMismatch exactly when the value columns are not in pairs; otherwise success exactly when there is no data row or every pair label has a year |
| RevexCapex.CleanRevexCapexSize | pages/3_State_Revex_Capex.py:38 | the output has (value columns) × (surviving rows − 1) records |
| RevexCapex.CleanRevexCapexRecords | pages/3_State_Revex_Capex.py:11-47 | every output record names a present state that is not a total, has a `dddd-dd` year whose first four digits are its start year, and has a type |
| RevexCapex.UnsortedRecord | pages/3_State_Revex_Capex.py:17-44 | the record of data row i and column c carries that row's state, the cleaned cell, the year of the pair's first label, and the suffix type when the label names none |
| RevexCapex.Unsorted | pages/3_State_Revex_Capex.py:16-44 | no row left for `iloc[0]` fails with the sub-header error; an odd number of value columns fails with the length mismatch; on success there is one record per (data row, value column); a year failure names a renamed column that contains no year |
| RevexCapex.MeltedBodyHeadings | pages/3_State_Revex_Capex.py:24-38 | melting gives one entry per (data row, value column), and every entry's `Year_Type` is a renamed column, the first label of its pair with the `_REx` or `_CEx` suffix |
| RevexCapex.FindYear | pages/3_State_Revex_Capex.py:39 | nothing is found exactly when no seven-character window reads `dddd-dd`; otherwise the result is such a window and no such window starts further left |
| RevexCapex.FindType | pages/3_State_Revex_Capex.py:40 | nothing is found exactly when neither `REx` nor `CEx` occurs; otherwise the type is the one spelled by the leftmost occurrence |
| Shares.GuardedShare | utils/revex_capex_dashboard.py:26 | a non-positive group sum gives 0; otherwise a share exists exactly when the value does, and it is the value's percentage of the sum |
| Shares.PercentageShare | utils/revex_capex_dashboard.py:22-27 | one share per input row, in row order; each is the guarded share of its value in its own group's sum |
| Shares.ShareTotal | utils/revex_capex_dashboard.py:24-27 | in every group with a positive sum the shares add up to exactly 100 |
| Shares.ShareGuard | utils/revex_capex_dashboard.py:26 | every row of a group whose sum is not positive gets share 0 |
| Shares.GroupSumFilter | utils/revex_capex_dashboard.py:25 | a group's sum depends only on the rows of that group |
| Shares.FilterConcat | utils/revex_capex_dashboard.py:225 | boolean-mask selection distributes over concatenation, so kept rows stay in order with their multiplicity |
| Shares.Tab1SharesLocal | utils/revex_capex_dashboard.py:104-105 | narrowing to the selected states leaves every (state, year) share as it is in the full table |
| Shares.Tab3SharesLocal | utils/revex_capex_dashboard.py:225-226 | grouping one year's rows by state gives each row its full-table (state, year) share |
| Shares.Tab3Frame | utils/revex_capex_dashboard.py:225-226 | each tab-3 row carries its (state, year) share from the full table |
| Shares.ComponentRanking | utils/revex_capex_dashboard.py:230-234 | the chosen component's rows, sorted by share descending with missing shares last; a permutation of those rows |
| Shares.StateOrder | utils/revex_capex_dashboard.py:230-235 | the categories are the ranked rows' states; duplicate states raise |
| Shares.Tab3Order | utils/revex_capex_dashboard.py:228-238 | the choice "None" sorts the rows by (state, component) and is a permutation of them; any other choice fails exactly when the categories fail, and otherwise is a permutation of the rows whose state was re-coded by the categorical (missing when not a category), sorted by (category code, component) with missing states last |
| Shares.Tab3OrderStable | utils/revex_capex_dashboard.py:235-238 | rows that sort level, whether by (state, component) or by (category code, component), keep their frame order |
| Shares.Tab3MissingStates | utils/revex_capex_dashboard.py:235 | every row is still in the output; its state is missing exactly when the state is not one of the categories |
| Shares.HigherShareRanksFirst | utils/revex_capex_dashboard.py:229-235 | a state with a higher share of the component gets an earlier category than a state with a lower or missing share |
| Shares.Tab3HigherShareFirst | utils/revex_capex_dashboard.py:229-236 | every row of the higher-share state precedes every row of the lower-share state |
| Shares.RankLeIsTotalPreorder | utils/revex_capex_dashboard.py:236 | the (category code, component) order, missing codes last, is a total preorder |
| Shares.StateComponentLeIsTotalPreorder | utils/revex_capex_dashboard.py:238 | the (state, component) order, missing states last, is a total preorder |
| RevenueComponents.YearPrefix | pages/2_State_Revenue_Components.py:26 | the part before the first '-', containing no '-' |
| RevenueComponents.YearCategories | pages/2_State_Revenue_Components.py:23-27 | fails on a year whose prefix is not an integer, naming it; otherwise the distinct years exactly, without duplicates, ascending by start year |
| RevenueComponents.YearCategoriesStable | pages/2_State_Revenue_Components.py:26 | years with the same start year keep their first-appearance order |
| RevenueComponents.YearPrefixExample | pages/2_State_Revenue_Components.py:26 | "2012-13" has start year 2012 |
| RevenueComponents.KeepCatalogued | pages/2_State_Revenue_Components.py:30-38 | a row is kept exactly when its component is one of the six catalogue names |
| RevenueComponents.KeepCataloguedAppend | pages/2_State_Revenue_Components.py:38 | catalogued rows keep their order and multiplicity: one more row is appended exactly when its component is catalogued |
| RevenueComponents.ComponentCode | pages/2_State_Revenue_Components.py:39 | a component has a code exactly when it is in the catalogue, and the code is its catalogue position |
| RevenueComponents.CataloguedAreOrdered | pages/2_State_Revenue_Components.py:38-39 | after the filter any two components are comparable in catalogue order |
| RevenueComponents.CatalogueIsNotAlphabetical | pages/2_State_Revenue_Components.py:30-39 | "Share in Union Taxes" precedes "Grants in Aid - CSS" in catalogue order but follows it alphabetically |
| RevenueComponents.PercentVersusGuardedShare | pages/2_State_Revenue_Components.py:42 | the page's percent equals the dashboard's guarded share on positive-sum groups; on a zero-sum group it gives no number where the guard gives 0; on a negative-sum group it still divides |
| RevenueComponents.UnguardedPercentTotal | pages/2_State_Revenue_Components.py:42 | on a (state, year) group with a positive sum the percentages add up to 100 |
| RevenueComponents.LoadData | pages/2_State_Revenue_Components.py:19-44 | fails exactly when the year categories fail; the rows are the catalogued rows, in order; the percentages are the line-42 percentages of those rows |
| RevenueComponents.UnguardedPercent | pages/2_State_Revenue_Components.py:42 | one entry per row, a number exactly when the row's value is present and its (state, year) sum is not zero |
| RevenueComponents.UnguardedPercentScales | pages/2_State_Revenue_Components.py:42 | each number times its (state, year) sum is 100 times the row's value |
| RevenueComponents.TruncateTowardZero | pages/2_State_Revenue_Components.py:76 | `int()` of a real: the integer part, toward zero, within one of the value |
| RevenueComponents.Headline | pages/2_State_Revenue_Components.py:75-76 | no categories raise; otherwise the last category with the truncated sum of that year's values |
| RevenueComponents.HeadlineIsLatest | pages/2_State_Revenue_Components.py:75 | the headline year has the largest start year of all categories |
| RevenueComponents.RawView | pages/2_State_Revenue_Components.py:187-191 | a row is shown exactly when it is of the chosen year and neither its component nor its state contains "total" in any letter case |
| RevenueComponents.RawViewAppend | pages/2_State_Revenue_Components.py:187-191 | the view keeps its rows in order and with their multiplicity: one more row is appended exactly when it is shown |
| Numeric.CoerceCell | utils/data_loader.py:6 | an empty cell stays missing; a cell becomes a number exactly when it is a numeral once its commas are removed |
| Numeric.CoerceExample | utils/data_loader.py:6 | "1,234" becomes 1234 |
| Numeric.MissingTokensAreMissingCoerced | utils/data_loader.py:6 | placeholders, "nan" and "None" coerce to missing |
| Receipts.LoadFinances | utils/data_loader.py:3-7 | column labels and row count unchanged; each row is coerced on its own |
| Receipts.LoadFinancesCoerces | utils/data_loader.py:5-6 | the first column is untouched, an empty cell stays missing, and a cell becomes a number exactly when it is a numeral once its commas are removed |
| Receipts.SelectStates | pages/1_State_Revenue_Receipts.py:14 | a row survives exactly when its state is present and selected |
| Receipts.SelectStatesAppend | pages/1_State_Revenue_Receipts.py:14 | the selected rows keep their order and multiplicity: one more row is appended exactly when its state is present and selected |
| Receipts.ReceiptsLongErrors | pages/1_State_Revenue_Receipts.py:17-18 | the integer conversion fails exactly when some state is kept and some column label is not one whose first four characters (all of it when shorter) are decimal digits |
| Receipts.ReceiptAt | pages/1_State_Revenue_Receipts.py:17-19 | when every year label is one whose first four characters (all of it when shorter) are decimal digits, the conversion succeeds, with one receipt per (kept state, year column), column by column, with the coerced value, the first four digits of the label as the year, and the registry initials |
| Receipts.ReceiptsSelected | pages/1_State_Revenue_Receipts.py:14-19 | every receipt's state is selected, and it has initials exactly when it is one of the 28 registry states |
| Receipts.YearExample | pages/1_State_Revenue_Receipts.py:18 | "2012-13" gives year 2012 |
| Receipts.FirstFour | pages/1_State_Revenue_Receipts.py:18 | at most four characters, a prefix of the label |
| Palette.Unique | utils/utils.py:24-29 | no duplicates, and exactly the input's elements |
| Palette.UniqueSnoc | utils/utils.py:26-29 | one loop step: a colour already seen leaves the result unchanged, a new one is appended at the end |
| Palette.UniqueInOrder | utils/utils.py:24-29 | the kept colours appear in the order of their first occurrence in the input |
| Palette.Distinct | utils/utils.py:24-29 | the loop computes the order-preserving de-duplication: no duplicates, the same colours as the input, in first-occurrence order |
| Palette.Cycle | utils/utils.py:32 | fails exactly when colours are requested from an empty palette; otherwise exactly n colours, the i-th being distinct[i mod size] |
| Palette.CycleInPalette | utils/utils.py:32 | every chosen colour comes from the palette |
| Palette.CycleCovers | utils/utils.py:32 | asking for at least the palette size uses every palette colour |
| Palette.GetDistinctColors | utils/utils.py:12-32 | the de-duplicated palette cycled to n colours: all from the palette, starting with its first colour, with no colour repeated while n does not exceed the number of distinct colours; failure exactly on an empty palette with n > 0 |
| Palette.CycleNoRepeat | utils/utils.py:32 | up to the palette size, cycling a duplicate-free palette repeats no colour |
| Registry.RegistryShape | utils/constants.py:3-13 | 28 states and 28 initials, each list free of duplicates |
| Registry.ZipMapLookup | utils/constants.py:16 | `dict(zip(keys, values))` maps each of distinct keys to the value at its index |
| Registry.ZipMapInjective | utils/constants.py:16 | for distinct keys and distinct values, `dict(zip(keys, values))` is defined exactly on the keys and maps different keys to different values |
| Registry.ZipMap | utils/constants.py:16 | every key of `dict(zip(keys, values))` is one of the keys given |
| Registry.ZipMapDomain | utils/constants.py:16 | `dict(zip(keys, values))` is defined exactly on the keys that have a partner, the first min(len(keys), len(values)) of them |
| Registry.ZipMapLast | utils/constants.py:16 | a later key overrides an earlier one: a key whose last paired occurrence is at index i maps to the i-th value |
| Registry.StateToInitialAligned | utils/constants.py:16 | state i maps to initials i; the keys are exactly the 28 states; the map is injective |
| Registry.StateColors | utils/constants.py:19-20 | succeeds exactly when the colour list is non-empty; its keys are registry states |
| Registry.StateColorsAligned | utils/constants.py:20 | state i gets colour i mod the colour count |
| Registry.InitialOf | pages/1_State_Revenue_Receipts.py:19 | initials exist exactly for registry states, and they are the aligned ones |

## Left out

- All Streamlit and Plotly work is not modelled: page setup, tabs, widgets, figures and metrics. The selections a widget makes (states, year, sort component) are parameters.
- `pd.read_csv`, `download_cleaned_data`, the download buttons and `@st.cache_data` are not modelled. They are file I/O, serialisation and memoisation. Tables come in as values.
- The concrete Plotly palettes are foreign data. The palette is a parameter.
- `load_and_clean_data` and `load_state_revenue_components` are not part of this model, because their source is not among the modelled files. Their long-form output is the input of `Shares` and `RevenueComponents`.
- `streamlit_app.py` and pages 4, 5 and 6 only call the dashboard function, so they are not modelled.
- The page-2 average own-tax share (line 77) is not modelled. It is a display metric.
- Numeric.ParseDecimal: accepts only `sign? digits ('.' digits)?`. It does not model whitespace, exponents, "inf", underscores or the other inputs `pd.to_numeric` also accepts.
- Values are exact reals. IEEE rounding is not modelled, so the shares sum to exactly 100 here.
- Text.Strip: strips the ASCII whitespace and separator characters only (not, for example, U+0085 or U+00A0). Text.Lower lower-cases ASCII letters only. Python's versions are Unicode-aware.
- RevexCapex.FindYear: accepts ASCII digits only. The regular expression's `\d` and `astype(int)` also accept other Unicode decimal digits, so a label such as `२०१२-१३` has a year in pandas and none here.
- RevenueComponents.ValidYear: `int()` also accepts a sign, surrounding whitespace, underscores and Unicode decimal digits other than ASCII (`२०१२-१३`, for example). Those labels are treated as invalid here.
- Receipts.YearReadable: same restriction for `astype(int)` on the first four characters: a sign, whitespace, underscores and non-ASCII Unicode decimal digits (`२०१२`, for example) are rejected here but accepted by pandas.
- RevenueComponents.UnguardedPercent: a zero-sum division gives `None` here. pandas gives inf or NaN.
- Shares.ComponentRanking: pandas sorts one column with an unstable quicksort, so the order of tied shares is unspecified. The model breaks ties stably. Every property stated is about the share order, which does not depend on the tie order.
- RevexCapex.RenameColumns: renaming to names that contain duplicates is not treated specially. With the `States` column assumed first, the model reads it as the identifier column.
- Palette.Cycle: periodicity (`r[i] == r[i + size]`) is not stated as its own lemma. It follows from the per-index formula, which is stated.
