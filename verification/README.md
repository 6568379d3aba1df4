# Personal file cloud: the file catalog of `CloudStorageApp`

This project models the in-memory file catalog of the `CloudStorageApp` browser
application (`app.js`) and proves properties of the model. It covers:

- the list of file records;
- the classifier that turns a file name into a type;
- the size labels ("2.3 MB") and how the statistics read them back;
- the upload size check against the "max file size" setting;
- uploading, sharing and deleting records;
- the search/filter view;
- the storage statistics and chart counts recomputed from the list.

The modules follow the structure of the application:

| file | module | what it holds |
|---|---|---|
| `strings.dfy` | `Strings` | The runtime string operations the catalog relies on: `toLowerCase` (ASCII letters), `includes`, and the global `parseInt`. |
| `classifier.dfy` | `Classifier` | `getFileType`: the extension (the text after the last '.'), lower-cased and looked up in the extension table. |
| `sizes.dfy` | `Sizes` | `formatFileSize` and its unit index, the unit multiplier `updateStorageStats` uses to read a label back, and `validateFile`. |
| `catalog.dfy` | `Catalog` | The `FileRecord` datatype, `Array.prototype.filter` as `Keep`, `find` by id, the share toggle, removal by id, and the search/filter view. |
| `stats.dfy` | `Stats` | The five chart buckets, the per-bucket counts and sizes, the total, and the `forEach` loop of `updateStorageStats` as the method `Tally`. |
| `app.dfy` | `App` | The class `CloudStorageApp`. Its fields are the file list, the filter, the search query, the selected file, the size setting, the header total, the used share and the chart data. Its methods are the operations that change them. |

A size label is `SizeLabel(tenths, unit)`: "2.3 MB" is `SizeLabel(23, "MB")`.
A label stands for a whole number of tenths of a byte, so the model keeps
totals in tenths of a byte.

`Valid()` is the class invariant. It says two things:

- the header total, the used share and the chart data are those computed from
  the current list;
- the search query is lower-case.

Uploading, toggling, deleting and editing the search box all preserve it.
Toggling does not recompute the statistics, and it does not need to:
`StatsSeeOnlySizesAndTypes` shows they do not depend on the shared flag.

A unit other than KB, MB or GB leaves the number unscaled (`UnitMultiplier`),
as `updateStorageStats` does (app.js:559-561).

A label's number is `(bytes / 1024^i).toFixed(1)`. Dividing by a power of two
is exact in binary floating point, so the only rounding is that of `toFixed`:
to the nearest tenth, halves up (`RoundTenths`). The header total goes through
the same `formatFileSize`, so files and the total share one formatter,
`FormatTenthBytes`, applied to an amount in tenths of a byte.

## Model

| member | source | states |
|---|---|---|
| Strings.LowerPointwise | app.js:318 | `toLowerCase` maps each character on its own: every position of the result is the lower-case form of the same position of the input. |
| Strings.LowerSpec | app.js:318 | `Lower` (`toLowerCase`) turns each upper-case ASCII letter into its lower-case partner, keeps every other character in place, and so leaves no upper-case letter and lower-case text unchanged. |
| Strings.ContainsIff | app.js:339 | `Contains` (`includes`) holds exactly when the query occurs at some position of the text; the empty query occurs everywhere. |
| Strings.TrimStart | app.js:290 | `parseInt` skips only a run of leading white space: the rest is a suffix of the input and does not start with white space. |
| Strings.ParseIntOfNumeral | app.js:290 | `ParseInt` reads back the number of a numeral followed by any suffix that does not carry on the numeral, such as " MB" or "MB". |
| Classifier.ExtensionIsLastSegment | app.js:318 | `Extension` (`split('.').pop()`) is a suffix of the name without a '.', and is either the whole name or preceded by a '.'. |
| Classifier.ExtensionWithoutDot | app.js:318 | A name without a '.' is its own extension. |
| Classifier.ExtensionAfterLastDot | app.js:318 | Everything up to the last '.' is ignored. |
| Classifier.ExtensionOfLower | app.js:318 | Taking the extension and lower-casing commute. |
| Classifier.SegmentIsExtension | app.js:318 | A name ends in a '.'-free segment, as the whole name or after a '.', exactly when that segment is its extension. |
| Classifier.GetFileTypeBySuffix | app.js:317-327 | `GetFileType` gives a lower-cased name ending in a table key, as the whole name or after a '.', that key's type; it gives 'other' exactly when no table key ends the lower-cased name in that way. |
| Classifier.ClassifyIgnoresCase | app.js:317-327 | The type of a name does not depend on letter case. |
| Classifier.ClassifyKnownExtension | app.js:317-327 | A name ending in ".ext", where ext is a table key, gets that key's type whatever precedes it. |
| Classifier.ClassifyUpperCaseJpg | app.js:317-327 | Any name ending in ".JPG" is an image. |
| Classifier.ClassifyLastDot | app.js:317-327 | Any name ending in ".pdf" is a pdf, "x.y.pdf" included. |
| Classifier.ClassifyNoDot | app.js:317-327 | A name without a '.' is looked up whole ("noext" is 'other'). |
| Classifier.AsWrittenAgreesOffInheritedKeys | app.js:326 | `GetFileTypeAsWritten`, the lookup as written, agrees with `GetFileType` except on "constructor" and "__proto__", where it yields an inherited object member instead of a type. |
| Classifier.ConstructorExtensionCounterexample | app.js:317-327 | Any name ending in ".constructor" is classified as the inherited `constructor` member by the written lookup, and as 'other' by the intended one. |
| Sizes.Pow1024 | app.js:331-334 | Every power of 1024 is at least 1. |
| Sizes.UnitIndex | app.js:333 | The unit index of a positive byte count is the power of 1024 it lies in: 1024^i <= bytes < 1024^(i+1). |
| Sizes.UnitIndexUnique | app.js:333 | That index is the only one with this property. |
| Sizes.RoundTenthsBounds | app.js:334 | `RoundTenths` (`toFixed(1)` of the quotient) is within half a unit of its last digit of the exact quotient. |
| Sizes.FormatFileSizeUnit | app.js:329-334 | Below 1024^4 bytes `FormatFileSize` uses the unit of that index, and its number is at least 1.0 and at most 1024 (1048575 bytes are "1024 KB"). |
| Sizes.UnitMultiplierInvertsTable | app.js:555-561 | `UnitMultiplier` reads the k-th unit of the table back as 1024^k, and any other unit as 1. |
| Sizes.FormatParseRoundTrip | app.js:329-334 | Reading a file's label back gives its size to within half a unit of the last digit, above or below, and so to within 5% of the size. |
| Sizes.FormatTenthBytesRoundTrip | app.js:553-575 | From one byte on, `FormatTenthBytes` read back gives the total to within half a unit of the last digit, and that unit is at most a tenth of the total. |
| Sizes.AsWrittenAgreesBelowTebibyte | app.js:329-334 | Below 1024^4 bytes `FormatFileSizeAsWritten`, with the unbounded index, agrees with `FormatFileSize`. |
| Sizes.AsWrittenLosesScale | app.js:329-334 | From 1024^4 bytes on, the written label's unit is "undefined", and it reads back as at most 1.05 times the size divided by 1024^4. |
| Sizes.TebibyteCounterexample | app.js:334 | 1024^4 bytes are labelled "1 undefined" and read back as one byte. |
| Sizes.ValidateFileAgainstSetting | app.js:289-297 | With the setting stored as "<n> MB", `ValidateFile` admits a file exactly when it has at most n * 1024 * 1024 bytes. |
| Sizes.DefaultLimit | app.js:289-297 | The default "100 MB" admits a file exactly when it has at most 100 MiB. |
| Sizes.LimitEdgeCases | app.js:289-297 | An empty setting (" MB") makes `parseInt` NaN, so every file is admitted; "-1 MB" refuses every file, even an empty one. |
| Catalog.Keep | app.js:338 | `filter` never lengthens the list. |
| Catalog.KeepCounts | app.js:338 | `filter` keeps every occurrence of an element that passes the test and no occurrence of one that fails it. |
| Catalog.KeepSelects | app.js:338 | `filter` keeps exactly the elements that pass the test, each as often as the list holds it, in their original order, and keeps everything when all pass. |
| Catalog.KeepSnoc | app.js:338 | Filtering a list with one more element at its end filters that element on its own. |
| Catalog.FindIndex | app.js:483-484 | `find` stops at the first record with the id, and finds none only when no record has it. |
| Catalog.Find | app.js:519 | The record found is the first in the list with the id; nothing is found exactly when no record has the id. |
| Catalog.ToggleShared | app.js:482-486 | `toggleShare` keeps the length and every field but the shared flag, and flips the flag of exactly the first record with the id. |
| Catalog.ToggleSharedTwice | app.js:482-486 | Toggling the same id twice restores the list. |
| Catalog.ToggleAbsentId | app.js:483-484 | Toggling an id no record has leaves the list unchanged. |
| Catalog.RemoveIdSpec | app.js:526 | `RemoveId` keeps the other records in order, each as often as the list holds it, drops every record with the id, and afterwards no record with the id is found. |
| Catalog.RemoveUndoesAdd | app.js:523-526 | Deleting the id of a record just uploaded (`NewRecord` in front of the list), when no older record shares it, gives back the list from before the upload. |
| Catalog.FilterFilesSpec | app.js:337-342 | `FilterFiles` keeps the list's order and holds exactly the records (`Matches`) whose lower-cased name contains the query and whose type equals the filter, unless the filter is "all", each as often as the list holds it. |
| Catalog.FilterFilesSnoc | app.js:338-342 | A record appended to the list appears at the end of the view exactly when it matches. |
| Catalog.FilterShowsEverything | app.js:337-342 | With the empty query and the filter "all" the view is the whole list, in order. |
| Stats.AddSpec | app.js:571-572 | Counting a file raises its own bucket and the sum, and leaves the other buckets alone. |
| Stats.CountsSumToLength | app.js:625-633 | `CountsOf` puts every file in exactly one bucket (`BucketOf`, the `typeKey`), so the counts add up to the number of files (all zero for an empty list). |
| Stats.SizesSumToTotal | app.js:553-573 | The bucket sizes `SizesOf` add up to the total `TotalTenthBytes`. |
| Stats.StatsOfPrepend | app.js:553-573 | An upload adds one to its own bucket's count and its label's size to the total. |
| Stats.StatsSeeOnlySizesAndTypes | app.js:553-573 | The statistics depend only on the sizes and types of the files, not on their shared flags, names or ids. |
| Stats.EmptySearchMatchesType | app.js:339-340 | With the empty search a record passes the type filter of `t` exactly when it has type `t`. |
| Stats.SegmentMatchesTypeFilter | app.js:625-633 | The chart's count for images, text or audio equals the number of files the view shows for that type filter and an empty search. |
| Stats.ChartData | app.js:635-641 | The chart gets five counts, in legend order, that add up to the bucket counts' sum. |
| Stats.UsedFraction | app.js:576 | The used share is never negative, and is at most 1 exactly when the total is within the 15 GiB quota. |
| Stats.Tally | app.js:553-573 | The `forEach` loop computes `TotalTenthBytes`, the labels read back and added up, with `CountsOf` and `SizesOf`, the count and size of every bucket. |
| App.SampleTotal | app.js:45-86 | The sample files add up to 8703692.8 bytes. |
| App.SampleTotalLabel | app.js:575 | That total is shown as "8.3 MB". |
| App.SampleUsedFraction | app.js:576 | That total is under a thousandth of the quota. |
| App.InitialStatsCounterexample | app.js:9-13 | The fixed header total and used share the constructor sets ("8.8 MB", 0.058) do not describe the sample files the page shows. |
| App.CloudStorageApp.constructor | app.js:3-35 | Construction loads the sample files, sets the filter to "all", an empty query, no selection and the "100 MB" limit, and establishes the invariant. |
| App.CloudStorageApp.UpdateChart | app.js:622-641 | The chart data are the bucket counts of the current list. |
| App.CloudStorageApp.UpdateStorageStats | app.js:542-578 | Afterwards the header total, the used share and the chart describe the current list. |
| App.CloudStorageApp.AddFile | app.js:300-313 | `NewRecord`, unshared, classified by its name and labelled with its size, is put in front of the old list, and the invariant is kept. |
| App.CloudStorageApp.UploadFile | app.js:257-272 | A file is added exactly when `validateFile` admits it under the current setting; a refused file changes nothing. |
| App.CloudStorageApp.ToggleShare | app.js:482-486 | The list becomes `ToggleShared` of the old one, and the invariant is kept without recomputing the statistics. |
| App.CloudStorageApp.SelectForDelete | app.js:518-519 | The selection becomes the first record with the id, or none. |
| App.CloudStorageApp.ConfirmDeleteFile | app.js:523-531 | Without a selection nothing changes. Otherwise every record with the selected id is removed, the selection is cleared and the invariant is kept. |
| App.CloudStorageApp.SetSearchQuery | app.js:129-131 | The query is stored lower-cased, which keeps the invariant. |
| App.CloudStorageApp.SetFilter | app.js:134-136 | The filter becomes the chosen value. |
| App.CloudStorageApp.FilteredFiles | app.js:337-342 | The view of the current list keeps its order and holds exactly the records matching the current query and filter, each as often as the list holds it. |

## Left out

- The DOM, rendering, modals, the view toggle and the settings form (`bindEvents` apart from the search and filter handlers, `bindModalEvents`, `renderFiles`, `updateStorageDisplay`, `openSettingsModal`, `saveSettings`). They are presentation. Only the form's storage format "<n> MB" is used, to state what `validateFile` admits.
- `previewFile` and `shareFile`. They are modal handlers. `previewFile` sets the selected file and `shareFile` sets the shared flag, and neither is modelled.
- Chart.js. The chart is the field `chartData`. The check in `updateChart` for a missing chart is left out, because the chart exists once the page has loaded.
- The upload progress timer and its `Math.random`, the sync status timer, notifications, the clipboard, downloads, `URL.createObjectURL` and `Intl.DateTimeFormat`. These are timers, randomness and browser I/O.
- The ids from `Date.now()`. The id is a parameter of `AddFile`, and its uniqueness is not claimed.
- The upload date and the preview payload of a record. Nothing in the catalog reads them.
- `handleFileUpload` over a list of files: `UploadFile` models one file of it. The progress timer that delays `addFile` is left out, so uploads happen in the order they are called.
- The per-bucket breakdown `typeBreakdown`. `updateStorageStats` builds it and then discards it; `Tally` computes it, and the class does not store it.
- Sizes.FormatTenthBytes: amounts are exact. Floating-point error is not modelled in three places: `parseFloat("2.3") * 1048576` and the summed total, a tie at exactly half a tenth, and the quotient of logarithms in the unit index at an exact power of 1024. A total below one byte keeps the behaviour of the code as written: a negative index and the unit "undefined". The labels the application creates never add up to such a total.
- Sizes.FormatTenthBytes: the unit index is kept within the table, as the corrected half of the app.js:332-334 finding. A total of 1024^4 bytes or more is shown in GB, where the code as written shows the unit "undefined" (`FormatFileSizeAsWritten`).
- App.CloudStorageApp.AddFile: the record is built with the corrected helpers. A file of 1024^4 bytes or more gets a GB label, where the code labels it "undefined". A name ending in ".constructor" or ".__proto__" gets the type 'other', where the code stores an inherited object member (`GetFileTypeAsWritten`). In the code such a record is therefore hidden by the filter "other", while `FilteredFiles` shows it.
- App.CloudStorageApp.UpdateStorageStats: the header total is formatted with the unit index kept within the table. A total of 1024^4 bytes or more shows in GB, not as "undefined".
- Strings.Lower: only ASCII letters are lower-cased. Unicode case mapping is not modelled.
- Strings.ParseInt: numbers are unbounded integers. The loss of precision of very large numbers in `parseInt` is not modelled.
- App.CloudStorageApp.selectedFile: the selection holds a copy of the record, not the shared object. A toggle between selecting and confirming therefore does not show in it. Only its id is used on deletion, so deletion is unaffected.
- The `fileTypeBreakdown` sizes and `totalAvailable` fixed in the constructor. Nothing recomputes or compares them.

## Findings

| source | as written | input that shows it | evidently intended | confidence | as-written member | corrected member |
|---|---|---|---|---|---|---|
| app.js:326 | `typeMap[extension] \|\| 'other'` also finds the members every object inherits; "constructor" and "__proto__" survive `toLowerCase` and are truthy | a file named "report.constructor" gets the `Object` function as its type | only the table's own entries count, anything else is 'other' | not executed; follows from object property lookup | Classifier.ConstructorExtensionCounterexample | Classifier.GetFileTypeBySuffix |
| app.js:332-334 | the unit index is not bounded by the four units, so `sizes[4]` is `undefined` | a file of 1024^4 bytes is labelled "1 undefined" and counted as 1 byte in the total | sizes beyond the table stay in GB, so the label reads back to the size | not executed; such files are rare in a browser upload | Sizes.TebibyteCounterexample | Sizes.FormatParseRoundTrip |
| app.js:9-13 | the initial `totalUsed` and `usedPercentage` are fixed values, and `init` does not call `updateStorageStats` | page load with the sample files: the header shows "8.8 MB" (the 0.5 KB file counted as 0.5 MB), but the files add up to "8.3 MB" | the statistics describe the files on screen from the start | not executed; visible until the first upload or deletion | App.InitialStatsCounterexample | App.CloudStorageApp.constructor |
