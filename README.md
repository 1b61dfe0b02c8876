# Related Articles tab: author index, ranking and highlighting

This project models the sequential logic inside JabRef's Related Articles tab
(`RelatedArticlesTab.java`). It also proves properties of that model. The tab
shows recommended articles for the selected entry in three places: a table, a
bubble chart of rank against author, and a word cloud. Three pieces of logic
lie under the JavaFX wiring:

- **Author index** (`author_index.dfy`, module `AuthorIndex`). A single pass
  over the recommendation list does two things. It gives each distinct raw
  author string a serial number 1, 2, 3, … in order of first appearance. It
  also counts how many entries carry each serial number. An entry with no
  author field counts under the author string "".
  - The method `PopulateAuthorAndFrequencyMaps` is the loop.
  - It is proved against the specification functions `SerialMap` and
    `FrequencyMap`. These are defined from the sequence of distinct authors
    (`Distinct`) and from per-author occurrence counts (`Count`).
  - `ChartSeries` is the per-entry loop that plots one bubble for each
    recommendation, as (rank, serial number, frequency).
- **Y-axis labels** (`axis_labels.dfy`, module `AxisLabels`). The chart's
  y axis plots serial numbers, and its tick-label converter goes both ways:
  - `TickLabel` (specified by `ToLabel`) searches the authors map for an
    entry with the given value;
  - `FromString` looks an author string up.

  The hash map's iteration order is a parameter `order`.
- **Ranking** (`ranking.dfy`, module `Ranking`).
  - Each table row is a `Recommendation` object. Its serial number `sno` is
    fixed; its display rank `rno` is mutable.
  - The `RecommendationTable` constructor numbers the rows 1..n in list
    order.
  - The ▲ and ▼ buttons are the methods `Up` and `Down`. They rotate the rows
    left or right by one and renumber every `rno` to its new position.
- **Highlighting** (`highlight.dfy`, module `Highlight`). The lowest-ranked
  rows are shaded. With `min = min(3, size)`, a row is shaded when
  `size - rno < min`.

`entries.dfy` (module `Entries`) holds the part of a bibliography entry that
is read: title, author and year, each possibly missing.

## Model

| member | source | states |
|---|---|---|
| Entries.AuthorOf | RelatedArticlesTab.java:219 | The author string of an entry: its author field, or "" when the field is missing. |
| AuthorIndex.PopulateAuthorAndFrequencyMaps | RelatedArticlesTab.java:316-333 | The loop builds exactly the authors map `SerialMap` (first-appearance serial numbers) and the frequency map `FrequencyMap` (serial number to occurrence count) of the list's author strings, a missing author read as "". |
| AuthorIndex.SerialsAreOneToK | RelatedArticlesTab.java:318-327 | The authors map has one key per distinct author string and no others. Its values are exactly 1..k, where k is the number of distinct authors. No two authors share a number. |
| AuthorIndex.SerialsFollowFirstAppearance | RelatedArticlesTab.java:322-326 | Serial numbers follow first appearance: `a` gets a smaller number than `b` iff `a` first occurs earlier in the list. |
| AuthorIndex.FrequencyIsCount | RelatedArticlesTab.java:321-331 | For every author in the list, the frequency stored under its serial number is the number of entries with that author string, and it is at least 1. |
| AuthorIndex.FrequencyKeys | RelatedArticlesTab.java:325-331 | The frequency map's keys are exactly 1..`authorsMap.size()`. |
| AuthorIndex.FrequenciesSumToLength | RelatedArticlesTab.java:321-331 | The frequencies of serials 1..k sum to the length of the list. |
| AuthorIndex.CountPositive | RelatedArticlesTab.java:322-330 | An author string occurs in the list iff its count is positive. |
| AuthorIndex.DistinctMembers | RelatedArticlesTab.java:322-327 | The distinct-author sequence that the serial numbers enumerate holds exactly the author strings of the list. |
| AuthorIndex.DistinctNoDuplicates | RelatedArticlesTab.java:322-327 | The distinct-author sequence has no repeated author, so `containsKey` assigns each author one number. |
| AuthorIndex.PopulateStep | RelatedArticlesTab.java:322-330 | One iteration on both maps. A known author keeps the authors map and the count of distinct authors, and increments its frequency. A new author gets serial number k+1 and frequency 1. |
| AuthorIndex.SerialStep | RelatedArticlesTab.java:322-330 | One step of the loop on the authors map: a known author leaves it unchanged, and a new author is added with the next number. |
| AuthorIndex.FrequencyStepKnown | RelatedArticlesTab.java:328-330 | One loop step for a known author increments the frequency under its serial number and changes nothing else. |
| AuthorIndex.FrequencyStepNew | RelatedArticlesTab.java:324-326 | One loop step for a new author adds frequency 1 under the new serial number and changes nothing else. |
| AuthorIndex.EveryEntryIsMapped | RelatedArticlesTab.java:240 | Every entry's author string is a key of the authors map, and its number is a key of the frequency map, so the chart's two `get` calls never miss. |
| AuthorIndex.SerialsOfEntries | RelatedArticlesTab.java:240 | Per entry: the serial number lies in 1..k, and two entries get the same serial number iff their author strings are equal. |
| AuthorIndex.ChartSeries | RelatedArticlesTab.java:215-241 | One bubble per entry in list order. The bubble holds rank i+1 on the x axis. On the y axis it holds the entry's author's number in the authors map `SerialMap`, which lies in 1..k. Its frequency equals the author's occurrence count. Two bubbles share a y value iff their authors are equal. |
| AxisLabels.FromString | RelatedArticlesTab.java:522-524 | The converter's `fromString`: the number under the string in the authors map, or none (Java's `null`) for a string that is not a key. |
| AxisLabels.TickLabel | RelatedArticlesTab.java:512-519 | The `toString` loop returns the first key in iteration order whose value is the tick, else "". The result matches `ToLabel`, and a non-empty result is a key with that value. |
| AxisLabels.LabelOfValue | RelatedArticlesTab.java:512-519 | In an injective map, the label of a key's value is that key, whatever the iteration order. |
| AxisLabels.LabelOfUnassigned | RelatedArticlesTab.java:512-519 | A tick value that no entry holds is labelled "". |
| AxisLabels.LabelIndependentOfOrder | RelatedArticlesTab.java:512-519 | For an injective map, the label does not depend on the hash map's iteration order. |
| AxisLabels.AxisRoundTrip | RelatedArticlesTab.java:510-525 | On the authors map built from a list, `toString(fromString(a)) == a` for every author `a`. `fromString(toString(n)) == n` for every serial 1..k. Any other tick value is labelled "". |
| Ranking.Recommendation.constructor | RelatedArticlesTab.java:343-349 | A row stores its rank, serial number, title, authors and year as given. |
| Ranking.Recommendation.SetRno | RelatedArticlesTab.java:371-374 | Sets the display rank. |
| Ranking.RecommendationTable.constructor | RelatedArticlesTab.java:215-239 | One fresh row per entry, in list order, with `sno == rno == i+1` and the entry's title, author and "(year)" (missing fields as ""). The table is valid: rows are distinct, each `rno` is its position, and the serials are a permutation of 1..n. |
| Ranking.RecommendationTable.Up | RelatedArticlesTab.java:569-581 | Works from the rows in any order, whatever their ranks, as long as they are the table's own rows. Fails without change on an empty table (the `get(0)` throws). Otherwise the rows become the old rows rotated left by one, and every `rno` equals its new 1-based position. |
| Ranking.RecommendationTable.Down | RelatedArticlesTab.java:583-597 | Works from the rows in any order, whatever their ranks, as long as they are the table's own rows. Fails without change on an empty table (the `get(-1)` throws). Otherwise the rows become the old rows rotated right by one: the old last row comes first with `rno` 1. Every `rno` equals its new position. |
| Ranking.RecommendationTable.LastRowsHighlighted | RelatedArticlesTab.java:435-441 | When each row's rank is its position, the shaded rows are exactly the last min(3, size) positions. This holds after construction and after every ▲ or ▼, whatever the order before it. |
| Ranking.RotationsAreInverse | RelatedArticlesTab.java:571-596 | ▼ undoes ▲ and ▲ undoes ▼: the two rotations are inverse. |
| Ranking.RotationPermutes | RelatedArticlesTab.java:571-596 | Each rotation is a permutation of the rows. |
| Ranking.RotationKeepsRows | RelatedArticlesTab.java:571-596 | Rotating keeps the rows distinct and keeps the multiset of serial numbers. |
| Ranking.RotateLeftAt | RelatedArticlesTab.java:571-579 | After ▲, position i holds the row that was at position i+1 (mod n). |
| Ranking.RotateRightAt | RelatedArticlesTab.java:588-596 | After ▼, position i holds the row that was at position i-1 (mod n). |
| Highlight.MinHighlighted | RelatedArticlesTab.java:435 | The number of shaded rows is the minimum of 3 and the table size: at most both, and equal to one of them. |
| Highlight.IsLowerOrderRow | RelatedArticlesTab.java:441 | The shading test: a row of rank `rno` is shaded when `size - rno < min`. |
| Ranking.RecommendationTable.RowHighlighted | RelatedArticlesTab.java:438-442 | The row listener: the row at a position is shaded by the test applied to that row's current `rno`. |
| Highlight.LowerOrderRowsAreLast | RelatedArticlesTab.java:435-441 | For ranks 1..size, a row is shaded iff `rno > size - min(3, size)`. |
| Highlight.HighlightedCount | RelatedArticlesTab.java:435-441 | Among ranks 1..k, the shaded ranks are exactly those above `size - min(3, size)`, counted exactly. |
| Highlight.HighlightedTotal | RelatedArticlesTab.java:435-441 | Exactly min(3, size) of the ranks 1..size are shaded. |

## Left out

- JavaFX widget construction: panes, table columns, cell factories, tooltips, styles and grid percentages. This is layout with no logic to state. The table's cells are modelled as the strings they display.
- The background fetch of recommendations and the recommendation service call. These are asynchronous I/O through code that is not part of this model. The recommendation list is a parameter.
- `SearchPapersByAuthor`. It builds search URLs and scrapes the fetched HTML, so its behaviour depends entirely on the network.
- The word cloud. It is produced by an external library as an image.
- The bubble chart objects and the bubble radius `frequency * 0.2`, which is floating point. `ChartSeries` keeps the integer frequency that the radius scales.
- The consent dialog, preference writes, browser opening and error dialogs. These are desktop side effects with no logic beyond them.
- AxisLabels.TickLabel: takes the tick as an integer. The chart's `Number.intValue()` truncation of fractional tick values is not modelled.
- AuthorIndex.PopulateAuthorAndFrequencyMaps: returns the two maps instead of filling maps passed in. The only caller passes freshly created empty maps, so the result is the same. Filling maps that already hold entries is not modelled.
- Ranking.RecommendationTable.Up: the runtime exception on an empty table is modelled as the result `ok == false` with nothing changed.
- Ranking.RecommendationTable.Down: the runtime exception on an empty table is modelled as the result `ok == false` with nothing changed.
- Sorting the table by a column header is not modelled. It reorders the rows in place and leaves every `rno` alone, so afterwards ranks need not equal positions. `Up` and `Down` therefore accept the rows in any order.
- Hash map iteration order is not modelled. It appears as the parameter `order`, and `LabelIndependentOfOrder` shows the label does not depend on it.
