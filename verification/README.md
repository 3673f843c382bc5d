# RecentSponsorBlocks: the visible-rows pipeline in Dafny

RecentSponsorBlocks shows two browser tables built from static JSON files.

- **The record table** (`script.js`) shows sponsor-segment submissions. `getFilteredSortedRows` drops rows without sponsors. When the checkbox is on, it keeps only English rows. When either date input holds a value, it keeps only rows inside the window those inputs name. It then sorts a copy with the active header's comparator. `renderTable` draws the first `displayedCount` rows. `loadMore` grows that cutoff by 50, up to the total. The download button exports every filtered row.
- **The cluster table** (`clusters.js`) shows sponsor clusters. `loadClusters` unwraps the JSON envelope. `renderFiltered` and the download handler repeat the same language filter, date filter and three-key comparator. `setSort` cycles the sort state.

The model has one module per concern:

| module | file | what it holds |
|---|---|---|
| `Wrappers` | wrappers.dfy | `Option`, for absent or null JSON fields |
| `Seqs` | seqs.dfy | `Array.prototype.filter` as `Filter`, with its membership, multiplicity and composition lemmas |
| `Sorting` | sorting.dfy | `Array.prototype.sort` as a stable insertion sort: `Sort` on sequences, proved a permutation, ordered and stable; and `SortInPlace` on an array, proved equal to it |
| `Text` | text.dfy | JavaScript string primitives the code relies on: `\s`, `toLowerCase`, `<` on strings, `split`, `parseInt(…, 10)`, `String(n)`, `padStart(2, '0')` |
| `Calendar` | calendar.dfy | ECMAScript day arithmetic (`DayFromYear`, `MakeDay`), leap years and next-day rollover |
| `DateInput` | dateinput.dfy | `formatLocalDate`, `parseDateStart` and `parseDateEndExclusive` (identical in both files), and the per-row window test |
| `Records` | records.dfy | the record table's pure part: normalisation, filter chain, comparator, sort toggle, cutoff arithmetic, preview and export |
| `RecordPage` | recordpage.dfy | the record table's module-level state as class `RecordTable`, with its handlers as methods |
| `Clusters` | clusters.dfy | the cluster table's pure part: envelope, filters, `setSort`, header map, comparator and export |
| `ClusterPage` | clusterpage.dfy | the cluster table's state as class `ClusterTable`, with its handlers as methods |

Timestamps are `Option<int>` milliseconds. A calendar day maps to a day number as ECMAScript's `MakeDay` does, and local midnight is that number times 86400000. `loadMore` is split into `BeginLoad` and `CompleteLoad`. `BeginLoad` is the synchronous guard that captures `total`. `CompleteLoad` is the timer callback that applies it.

The cluster table's code sorts by, and shows, the stored `count`. It never drops clusters with no links, and it does not filter individual links by their own timestamps.

## Model

| member | source | states |
|---|---|---|
| Seqs.Filter | script.js:94 | the filtered list is no longer than the input and holds only elements that pass the test |
| Seqs.FilterMembers | script.js:93-102 | an element is in the filtered list iff it is in the input and passes; a passing element keeps its multiplicity, a failing one has none |
| Seqs.FilterFilter | script.js:94-98 | two successive filters equal one filter by the conjunction of their tests |
| Seqs.Map | script.js:290 | `rows.map(f)` has one element per input element, the `i`-th being `f` of the `i`-th input; both downloads (script.js:290-297, clusters.js:185) are this map over their projection |
| Sorting.Sort | script.js:133 | the specification of `rows.sort`: a stable insertion sort with the same length as its input |
| Sorting.SortPermutes | script.js:133 | sorting yields a permutation of the input (equal multisets) |
| Sorting.SortSorted | script.js:133 | under a total-preorder comparator the result is ordered: no later element compares before an earlier one |
| Sorting.SortStable | script.js:133 | elements the comparator ties with any given key keep their relative input order (a stable sort, as ES2019 requires) |
| Sorting.SortOfSorted | script.js:133 | an already ordered list is returned unchanged, so sorting twice changes nothing |
| Sorting.SortAllTied | script.js:151 | a comparator that ties every pair leaves the list in its original order |
| Sorting.NegatedTotal | script.js:137 | negating a total-preorder comparator, as the `asc` multiplier does, gives a total preorder again |
| Sorting.FlipReverses | script.js:133 | when `x` compares strictly before `y`, every `x` precedes every `y` in the sort, and follows every `y` in the sort by the negated comparator |
| Sorting.InsertAt | script.js:133 | one insertion step on the array: the prefix up to `i` becomes the sorted insertion of `a[i]`, and the rest of the array is untouched |
| Sorting.SortInPlace | script.js:133 | sorting the array in place leaves exactly `Sort` of its old contents |
| Text.LowerChar | script.js:82 | an ASCII capital becomes the letter 32 code units later, which is its lowercase letter; every other character stays |
| Text.Lower | script.js:82 | lowercasing keeps the length, maps each character by `LowerChar` and leaves no upper-case letter |
| Text.LowerIsEn | script.js:99-100 | a language lowercases to "en" exactly when it is two letters, `e` or `E` then `n` or `N` |
| Text.LowerIdempotent | script.js:99 | lowercasing an already lowercased language again changes nothing |
| Text.LexLessTotal | script.js:142-143 | for the string order `<`, two strings are equal iff neither is less, and never both are less |
| Text.LexLessTransitive | script.js:142-143 | the string order `<` is transitive |
| Text.LexLess | script.js:142-143 | JavaScript's `<` on strings, code unit by code unit with a proper prefix first; specified by `LexLessTotal`, `LexLessTransitive` and `LexLessIrreflexive` |
| Text.LexLessIrreflexive | script.js:142-143 | no string is less than itself |
| Text.LexCompare | clusters.js:92 | the comparison standing in for `localeCompare` yields -1, 0 or 1; specified by `LexCompareSpec` and `LexCompareTransitive` |
| Text.LexCompareSpec | clusters.js:92 | the string comparison is 0 exactly for equal strings and antisymmetric |
| Text.LexCompareTransitive | clusters.js:92 | the string comparison is transitive on "not after" |
| Text.Split | script.js:112 | `split('-')` yields at least one field; specified by `SplitHead`, `SplitNoSeparator` and `SplitThree` |
| Text.SplitNoSeparator | script.js:112 | a string without the separator splits into itself alone |
| Text.SplitHead | script.js:112 | `split('-')` of a separator-free field, a dash and a rest is that field followed by the split of the rest |
| Text.ParseInt | script.js:113 | `parseInt(s, 10)` is NaN exactly when `s` does not start with a digit, and otherwise a non-negative number |
| Text.NatToString | script.js:279 | `String(n)` for a natural is a non-empty run of digits, one digit exactly below 10, with no leading `0` for a positive number; `ParseNatToString` states its round trip |
| Text.NatToStringLength | script.js:279 | `String(n)` has two characters for 10..99, three for 100..999 and four for 1000..9999 |
| Text.PaddedTwoDigits | script.js:279-280 | `String(n).padStart(2, '0')` for `n` below 100 is exactly two digits |
| Text.ParseNatToString | script.js:279 | `parseInt(String(n))` is `n` |
| Text.ParsePadded | script.js:279-280 | `parseInt` of `String(n).padStart(2, '0')` is `n` |
| Text.PadStart2 | script.js:279 | `padStart(2, '0')` yields at least two characters, ends with the original string, and every character before it is `0` |
| Calendar.FullYear | script.js:114 | the year `new Date(y, …)` uses is never in 0 to 99 and is either `y` or `y + 1900` |
| Calendar.FullYearFixed | script.js:114 | years from 100 on are taken as written, and the mapping changes nothing on its own results |
| Calendar.NextDay | script.js:120 | the day after a valid date is a valid date |
| Calendar.DayFromYear | script.js:114 | the day number of 1 January of a year, counted year by year from 1970; `DayFromYearIsClosedForm` ties it to ECMAScript's formula |
| Calendar.MakeDay | script.js:114 | ECMAScript's `MakeDay` for `new Date(y, m, d)`: month overflow carried into the year; `MakeDayInYear` and `MakeDayNextDay` specify it |
| Calendar.MakeDayInYear | script.js:114 | for a month index 0 to 11, `MakeDay` is the first day of the year plus the days before that month plus the date minus one |
| Calendar.DayFromYearIsClosedForm | script.js:114 | the year-by-year count of days since 1970 equals ECMAScript's closed formula `DayFromYear` |
| Calendar.NewYearDays | script.js:120 | 1 January of the next year is the day after 31 December |
| Calendar.MakeDayNextDay | script.js:120 | `new Date(y, m - 1, d + 1)` lands on the next calendar day across month and year ends, which is one day number later |
| DateInput.PlusCompose | script.js:113 | NaN absorbs additions, adding 0 changes nothing, and successive additions add up |
| DateInput.LocalMidnight | script.js:114 | `new Date(y, m, d, 0, 0, 0, 0)` is a valid date exactly when none of its arguments is NaN |
| DateInput.ParseDateStart | script.js:110-115 | the start bound is `null` exactly for the empty string |
| DateInput.ParseDateEndExclusive | script.js:116-121 | the end bound is `null` exactly for the empty string |
| DateInput.EndIsStartPlusOneDay | script.js:108-121 | both bounds are null together and invalid together; when valid, the end bound is the start bound plus one day |
| DateInput.SplitThree | script.js:112 | three dash-free fields joined by dashes split back into those three fields |
| DateInput.NamesFromParts | script.js:112-113 | a value that splits into three fields which parse to a date's year, month and day names that date |
| DateInput.FormatLocalDate | script.js:277-281 | `YYYY-MM-DD` with month and day padded to two digits; `FormatShape` states the shape and `FormatParseRoundTrip` that it parses back |
| DateInput.FormatShape | script.js:277-281 | for a four-digit year the result is ten characters, dashes at positions 4 and 7, digits everywhere else |
| DateInput.FormatParseRoundTrip | script.js:277-281 | the zero-padded `YYYY-MM-DD` that `formatLocalDate` writes splits and parses back to the same year, month and day |
| DateInput.StartOfNamedDay | script.js:110-115 | the start bound of a value naming a date is midnight of `MakeDay(year, month - 1, day)` |
| DateInput.EndOfNamedDay | script.js:116-121 | the end bound of a value naming a date is midnight of `MakeDay(year, month - 1, day + 1)` |
| DateInput.NamedDayBounds | script.js:108-121 | for a valid date the start bound is that day's midnight and the end bound is the next day's midnight, exactly one day later |
| DateInput.EndIsNextDayStart | script.js:108-121 | the exclusive end bound of a day equals the start bound of the following calendar day, across month and year ends |
| DateInput.InWindow | script.js:124-130 | the per-row test: a missing or zero time fails, as does one before a valid start or at or after a valid end; `InWindowOfDays` and `NarrowerWindow` specify it |
| DateInput.InWindowOfDays | script.js:122-130 | with both inputs naming days, a non-zero time passes iff it lies from the start day's midnight up to, not including, the midnight after the end day |
| DateInput.EndDayInclusive | script.js:127-128 | the last millisecond of the end day passes whenever the start bound lets it, and the first millisecond of the next day does not |
| DateInput.NarrowerWindow | script.js:124-130 | a time inside a window is inside every wider window, one whose each bound is unset, the same, or a time no stricter |
| DateInput.FillingInNarrows | script.js:107-130 | filling in an empty date input yields a window the old one contains |
| Records.Normalize | script.js:76-83 | a loaded row's language holds no upper-case letter |
| Records.NormalizeAll | script.js:76-83 | loading maps item `i` to row `i`, normalised, and to nothing else |
| Records.LoadedRows | script.js:76-83 | loaded row `i` has sponsors exactly when item `i` has a non-empty `sponsors` array, and is English exactly when item `i`'s language lowercases to "en" |
| Records.NormalizedLanguage | script.js:82 | a loaded row is English iff the item's language, lowercased, is "en"; it has sponsors iff the item's `sponsors` is a non-empty array |
| Records.FilteredRows | script.js:93-131 | the filter chain never yields more rows than `data` |
| Records.FilteredRowsKeep | script.js:93-131 | the filter chain equals one filter by `Keep`: sponsors, then English when checked, then the window when a bound is set |
| Records.FilteredRowsMembers | script.js:93-102 | every returned row has sponsors, is English when the checkbox is on and is in the window when a bound is set; every row of `data` that passes comes out as often as it occurs |
| Records.FilteredRowsInDays | script.js:105-131 | with both inputs naming days, a row survives iff it has sponsors, is English when required, and has a non-zero timestamp from the start day's midnight to before the midnight after the end day |
| Records.NoBoundNoDateFilter | script.js:107 | with both date inputs empty the date filter changes nothing |
| Records.NarrowerWindowFewerRows | script.js:107-130 | narrowing the window, by filling in an empty input or moving either bound inwards, never lets more rows through |
| Records.Toggle | script.js:62 | the sort state after a header click; specified by `ToggleTwice` |
| Records.ToggleTwice | script.js:62 | a click selects its key; on the active key it flips `asc`, and a second click restores the state; another key starts ascending |
| Records.CompareRecords | script.js:133-152 | the comparator of `rows.sort`; specified by `CompareRecordsSign`, `FlipNegates` and `RecordOrderTotal` |
| Records.CompareRecordsSign | script.js:133-152 | a negative comparison puts the earlier time, the smaller lowercased video id or the fewer sponsors first (the reverse when descending); any other key ties every pair |
| Records.FlipNegates | script.js:137 | flipping `asc` negates every comparison |
| Records.FlipReversesRows | script.js:133-152 | clicking the active header again reverses every strictly ordered pair of rows in the result of `getFilteredSortedRows` |
| Records.RecordOrderTotal | script.js:133-152 | for every key and direction the comparator is antisymmetric in sign and transitive, a total preorder |
| Records.FilteredSortedRows | script.js:92-155 | the result of `getFilteredSortedRows`: the filter chain, sorted when a key is set; the key `""` stands for a missing or empty `data-key`, which the falsy test at script.js:133 treats as no sort; specified by `FilteredSortedRowsSpec` and `FilteredSortedRowsStable` |
| Records.FilteredSortedRowsSpec | script.js:92-155 | the result is a permutation of the kept rows of `data`, contains exactly the rows `Keep` accepts, is no longer than `data`, and is ordered by the comparator when a key is set |
| Records.FilteredSortedRowsStable | script.js:132-153 | rows the comparator ties keep the order the filter chain gave them |
| Records.SortedByTime | script.js:134-138 | the `timeSubmitted` sort orders by time, a missing time as 0, ascending or descending by `asc` |
| Records.SortedByVideo | script.js:139-145 | the `video` sort orders by lowercased video id, ascending or descending by `asc` |
| Records.SortedBySponsorCount | script.js:146-150 | the `sponsorCount` sort orders by the number of sponsors, ascending or descending by `asc` |
| Records.OtherKeyKeepsOrder | script.js:151 | any other key leaves the rows in their original order |
| Records.Take | script.js:159 | the visible rows are the first `min(displayedCount, total)` rows |
| Records.NextCount | script.js:247 | a load never shrinks the cutoff; below the total it becomes exactly `min(cutoff + 50, total)`, so it grows but not past the total; at or above the total it stays |
| Records.LoadsReachTotal | script.js:241-251 | repeated loads reach the total after ceil((total - displayed) / 50) steps, and a further load then changes nothing |
| Records.LoadsBounded | script.js:241-251 | any number of loads keeps the cutoff between where it started and the total |
| Records.LoadExtendsVisible | script.js:247 | a load only appends rows below those already visible |
| Records.TrailingWordCut | script.js:208 | where `replace(/\s+\S*$/, '')` cuts the first 120 characters, never past their end; specified by `TrailingWordCutSpec` |
| Records.TrailingWordCutSpec | script.js:208 | the cut of `replace(/\s+\S*$/, '')` keeps everything when there is no whitespace; otherwise it starts a whitespace run not preceded by whitespace and followed only by the last word |
| Records.Preview | script.js:208 | the description button text; specified by `PreviewSpec` |
| Records.PreviewSpec | script.js:208 | text of at most 120 characters is shown unchanged; longer text becomes a prefix of its first 120 characters, cut before the last whitespace run, followed by '…' |
| Records.ExportOf | script.js:290-297 | one exported object, every field copied; `ExportRoundTrip` states that it reads back as its row |
| Records.ExportRoundTrip | script.js:289-297 | every exported object reads back as its row, in the same order |
| RecordPage.RecordTable.constructor | script.js:4-10 | the initial state: no data, sorted by `timeSubmitted` descending, cutoff 50, no pending load, date inputs holding the formatted start day and today |
| RecordPage.RecordTable.GetFilteredSortedRows | script.js:92-155 | the step-by-step filters and the in-place sort of the copy return exactly `FilteredSortedRows` of the state |
| RecordPage.RecordTable.ClickHeader | script.js:60-67 | the sort state becomes `Toggle(old, key)`, the cutoff resets to 50, nothing else changes |
| RecordPage.RecordTable.LoadData | script.js:75-89 | on a usable array `data` becomes the normalised items and the cutoff resets to 50; on a response whose handling throws (`None`) the `.catch` leaves every field as it was; nothing else changes |
| RecordPage.RecordTable.SetEnglishOnly | script.js:272 | the checkbox state is stored, the cutoff resets to 50, nothing else changes |
| RecordPage.RecordTable.SetStart | script.js:283 | the start value is stored, the cutoff resets to 50, nothing else changes |
| RecordPage.RecordTable.SetEnd | script.js:284 | the end value is stored, the cutoff resets to 50, nothing else changes |
| RecordPage.RecordTable.BeginLoad | script.js:241-245 | a load starts iff none is pending and the cutoff is below the total; then the guard is set and the total captured, otherwise nothing changes |
| RecordPage.RecordTable.CompleteLoad | script.js:246-250 | the cutoff becomes `min(cutoff + 50, captured total)`, strictly larger and at most that total, and the guard is cleared |
| RecordPage.RecordTable.LoadMore | script.js:241-251 | without a pending load the cutoff takes one `NextCount` step towards the number of filtered rows, and the captured total is the number of filtered rows when a load ran; with one pending the guard, the cutoff and the captured total are unchanged |
| RecordPage.RecordTable.Render | script.js:157-159 | the rows drawn are the visible rows, and the status count of visible rows never exceeds the filtered total |
| RecordPage.RecordTable.Export | script.js:288-297 | the download holds one object per filtered and sorted row, in order, whatever the cutoff |
| Clusters.ClusterRows | clusters.js:67-69 | only an array yields rows |
| Clusters.Envelope | clusters.js:43-49 | the envelope choice of `loadClusters`; specified by `EnvelopeRows` and `EnvelopeArrayFixed` |
| Clusters.EnvelopeRows | clusters.js:43-49 | a top-level array is used as is; otherwise `.clusters` when truthy, then `.results` when truthy, then the whole object, which renders nothing; `null` stores nothing |
| Clusters.EnvelopeArrayFixed | clusters.js:44 | unwrapping an unwrapped array again changes nothing |
| Clusters.OrElse | clusters.js:72 | the JavaScript `or` of two string fields yields one of its two operands |
| Clusters.LanguageFallback | clusters.js:71-73 | a non-empty `language` alone decides the English test; only when it is empty does `rep`, and then `representative`, stand in |
| Clusters.FilteredClusters | clusters.js:70-85 | the language filter, then the date filter; specified by `FilteredClustersKeep`, `FilteredClustersMembers` and `FilteredClustersInDays` |
| Clusters.FilteredClustersKeep | clusters.js:70-85 | the two filters equal one filter by `KeepCluster` |
| Clusters.FilteredClustersMembers | clusters.js:70-85 | a cluster survives iff it is in the input and passes both filters, unchanged and as often as it occurs; with a bound set none lacks a non-zero `latestTimeSubmitted` |
| Clusters.NoFilterKeepsAll | clusters.js:75-77 | with the checkbox off and no bound, every cluster is kept in place |
| Clusters.FilteredClustersInDays | clusters.js:74-85 | with both inputs naming days, a cluster survives iff it is English when required and its latest submission is non-zero and from the start day's midnight to before the midnight after the end day |
| Clusters.NextSort | clusters.js:13-19 | the state `setSort` leaves; specified by `NextSortSpec` |
| Clusters.NextSortSpec | clusters.js:13-19 | `setSort` selects the key; the same key flips the direction and a second click restores it; a new key starts descending for `count` and ascending otherwise |
| Clusters.HeaderKey | clusters.js:146 | header 0 is `domain`, 1 is `count`, any other is `links`; `OneIndicator` states that the first three are distinct |
| Clusters.Indicator | clusters.js:26-31 | the sort class a header gets; specified by `OneIndicator` |
| Clusters.OneIndicator | clusters.js:26-31 | headers 0, 1 and 2 map to distinct keys, exactly the header mapped to the active key shows an indicator, and it shows the current direction |
| Clusters.ClusterOrderTotal | clusters.js:90-99 | for every key and direction the comparator is a total preorder |
| Clusters.CompareClusters | clusters.js:90-99 | the comparator of `rows.sort`; specified by `CompareClustersSign`, `FlipNegatesCluster` and `ClusterOrderTotal` |
| Clusters.CompareClustersSign | clusters.js:90-99 | a negative comparison puts the smaller count, the earlier domain key or the fewer links first (the reverse when descending) |
| Clusters.FlipNegatesCluster | clusters.js:89 | flipping the direction negates every comparison |
| Clusters.FlipReversesClusters | clusters.js:89-99 | flipping the direction reverses every strictly ordered pair of derived clusters |
| Clusters.NarrowerWindowFewerClusters | clusters.js:70-85 | narrowing the window, by filling in an empty input or moving either bound inwards, never lets more clusters through |
| Clusters.DerivedRows | clusters.js:69-99 | the rows both handlers derive, filtered then sorted; specified by `DerivedRowsSpec` |
| Clusters.DerivedRowsSpec | clusters.js:67-99 | the derived rows are a permutation of the kept clusters, no more than were loaded, and ordered by the comparator |
| Clusters.SortedByCount | clusters.js:91 | the `count` sort orders by the stored count, a missing one as 0 |
| Clusters.SortedByDomain | clusters.js:92 | the `domain` sort orders by `domain`, falling back to `rep` when it is missing or empty |
| Clusters.SortedByLinks | clusters.js:93-97 | the `links` sort orders by the number of links in `unique_links`, else `uniqueLinks`, else none |
| Clusters.ExportOf | clusters.js:185 | one downloaded object; specified by `ExportMatchesCells` |
| Clusters.ExportMatchesCells | clusters.js:104-109 | an exported object carries what its row shows: the name falls back from `representative` to `rep` to `domain`, the links from `unique_links` to `uniqueLinks` to `[]`, and the count is the stored one |
| ClusterPage.ClusterTable.constructor | clusters.js:8-11 | the initial state: no clusters, sorted by `count` descending, date inputs holding the formatted start day and today |
| ClusterPage.ClusterTable.SetSort | clusters.js:13-22 | the sort state becomes `NextSort(old, key)`, nothing else changes |
| ClusterPage.ClusterTable.ClickHeader | clusters.js:145-148 | a click on header `idx` applies `setSort` to the key that index maps to |
| ClusterPage.ClusterTable.LoadClusters | clusters.js:42-51 | `clustersData` becomes what the envelope yields, or stays as it was for `null` |
| ClusterPage.ClusterTable.DeriveRows | clusters.js:69-99 | the step-by-step filters and the in-place sort return exactly `DerivedRows` of the state |
| ClusterPage.ClusterTable.RenderFiltered | clusters.js:67-131 | the rows drawn are the view of the state; the shown count X never exceeds the loaded count Y of "Showing X/Y" |
| ClusterPage.ClusterTable.Download | clusters.js:152-185 | the export exists exactly when the view does, and holds the projection of every rendered row, in the same order |

## Left out

- Rendering: DOM construction, `innerHTML`, table cells, link anchors, the description modal, `toLocaleString`, and the header sort classes of the record table. These are rendering only; the state they display is modelled.
- I/O: `fetch`, `r.json()`, the error and status strings, and `JSON.stringify`. The fetched JSON is a parameter (`LoadData`, `LoadClusters`). For `LoadData` it is `None` when handling it throws: a failed fetch, a top-level value that is not an array, or a `null` element; an element's field of an unexpected type is not modelled.
- The `Blob`/object-URL/anchor download. The export is modelled as the list of projected objects.
- Timing: the 50 ms `setTimeout`, the `requestAnimationFrame` throttle and the scroll-geometry test. `LoadMore` models a timer that fires before any other event; `BeginLoad` and `CompleteLoad` model the two halves separately.
- Renders interleaved between `BeginLoad` and `CompleteLoad` are not modelled.
- The clock: `Date.now()` and `new Date()` are replaced by the two days the constructors receive. `toISOString` in the download file name is not modelled.
- Time zones and daylight saving time: local midnight is the day number times 86400000, as in UTC.
- Timestamp parsing: `timeSubmitted` and `latestTimeSubmitted` arrive already parsed as milliseconds. `new Date(isoString)` and the Invalid Date of a malformed timestamp are not modelled. A timestamp of 0 counts as missing, as `!r.timeSubmitted` does for the number 0.
- The JavaScript `Date` range limit of ±8.64e15 ms is not modelled; integers are unbounded.
- Text.LexCompare: it stands in for `localeCompare` with code-unit order, because locale collation is library behaviour.
- Text.Lower: it lowercases ASCII letters only, not the full Unicode `toLowerCase`.
- Strings are sequences of characters, not UTF-16 code units.
- Text.ParseInt: it does not model `parseInt`'s skipping of leading whitespace or its sign; a date input value never has either.
- Non-string field types: a field is either absent/null or of the type the code expects.
- ClusterPage.ClusterTable: the checkbox and date inputs are plain fields, since their handlers only re-render.
- Clusters.CompareClusters: the comparator's `return 0` for an unknown key is not modelled, because the three keys are the only ones `setSort` can receive.
- Calendar.DayFromYear: written as a year-by-year count and proved equal to ECMAScript's closed formula. Round-trip lemmas require years of at least 100, because `new Date` reads years 0 to 99 as 1900 to 1999.
