# Sports-club registration dashboard (csv-load/script.js), modelled in Dafny

`csv-load/script.js` is a browser dashboard for youth sports club
registrations. It reads a CSV file with one line per club (registration
group, club name, sport, frequency, facility and four member counts:
elementary boys and girls, middle-school boys and girls). It then:

- aggregates the clubs into one `RegistrationGroupStats` object per
  registration name, kept in the `aggregatedData` dictionary in order of
  first appearance;
- shows four summary cards: the number of groups, the total members, the
  number of sports and the mean group size;
- draws three charts: the ten largest groups, the ten sports with the most
  members, and the fifteen largest groups again as a line chart;
- lists the groups in a paged table, with a search box, a page-size
  selector and previous/next buttons.

The model follows the script's own structure:

| file | module | what it holds |
|---|---|---|
| `text.dfy` | `Text` | the JavaScript string operations the loader uses: `split` on one character, `join`, `trim`, ASCII `toLowerCase`, `includes`, and `parseFloat(x) \|\| 0` on integers |
| `ordered_map.dfy` | `OrderedMaps` | a plain object used as a dictionary, with the insertion order that `Object.keys`, `Object.values` and `Object.entries` follow |
| `groups.dfy` | `Groups` | the `RegistrationGroupStats` class with its fields and `addMembers`, and `GroupStats`, the value such an object holds at a given moment |
| `csv.dfy` | `Csv` | `parseCSV` as a function: text to non-blank lines, lines to records, records folded into groups |
| `ranking.dfy` | `Ranking` | `sort((a, b) => key(b) - key(a)).slice(0, n)`, a stable descending sort followed by a slice |
| `search.dfy` | `Search` | the search filter |
| `paging.dfy` | `Paging` | the table page, the page counter, and the two buttons |
| `charts.dfy` | `Charts` | the summary cards and the three charts, including the nested per-sport loops |
| `dashboard.dfy` | `Dashboard` | the global page state as a class, with the load, search, page-size and paging handlers as methods, and the loop of `parseCSV` that fills the group objects in place |

`parseCSV`'s loop works on `RegistrationGroupStats` objects, which it creates
and mutates in place (`EnsureGroup`, `AbsorbRecord`, `AbsorbInto`, `LoadRow`,
`LoadRows`). Each step is proved against the functional aggregation
`Csv.Aggregate`. Nothing changes a group object after that loop, so the
`Dashboard` class keeps the values of the groups once they are built.

## Model

| member | source | states |
|---|---|---|
| Groups.NewGroup | csv-load/script.js:11-19 | a new group has total 0 and no clubs, and its total is the sum of its counters |
| Groups.GroupStats.AddMembers | csv-load/script.js:22-28 | the total grows by exactly the four counts added; the name and the club list are unchanged; a group whose total is the sum of its counters stays so |
| Groups.GroupStats.GenderBreakdown | csv-load/script.js:31-36 | boys plus girls is the group total |
| Groups.GroupStats.GenerationBreakdown | csv-load/script.js:39-44 | elementary plus middle school is the group total |
| Groups.RegistrationGroupStats.constructor | csv-load/script.js:11-19 | the new object holds the empty group of that name |
| Groups.RegistrationGroupStats.AddMembers | csv-load/script.js:22-28 | the object's new value is its old value with the four counts added, and it stays consistent |
| Groups.RegistrationGroupStats.GenderBreakdown | csv-load/script.js:31-36 | boys plus girls is the object's total |
| Groups.RegistrationGroupStats.GenerationBreakdown | csv-load/script.js:39-44 | elementary plus middle school is the object's total |
| Groups.RegistrationGroupStats.DistributionData | csv-load/script.js:47-58 | both breakdowns in the result add up to the result's total |
| Text.TrimStart | csv-load/script.js:89-97 | the result is a suffix of the input; what was cut is all white space; it does not start with white space |
| Text.TrimEnd | csv-load/script.js:89-93 | the result is a prefix of the input; what was cut is all white space; it does not end with white space |
| Text.Trim | csv-load/script.js:89-93 | the result neither starts nor ends with white space |
| Text.TrimMiddle | csv-load/script.js:89-93 | the result is a middle part of the input, and what is cut at either end is all white space |
| Text.TrimPadded | csv-load/script.js:89-93 | a trimmed text with white space added at either end trims back to itself |
| Text.BlankIffAllWhitespace | csv-load/script.js:79 | a line is dropped by the `trim()` filter exactly when it is all white space |
| Text.Split | csv-load/script.js:86 | there is one more piece than separators, and no piece holds the separator |
| Text.JoinSplit | csv-load/script.js:79 | joining the pieces of a split with the separator gives the text back |
| Text.Join | csv-load/script.js:383 | the joined text starts with the first piece |
| Text.SplitJoin | csv-load/script.js:383 | splitting pieces that were joined with a separator they do not contain gives the pieces back |
| Text.ToLower | csv-load/script.js:410-416 | the same length, each character lower-cased in place |
| Text.ToLowerIdempotent | csv-load/script.js:410 | lower-casing twice is lower-casing once |
| Text.ContainsIffOccurs | csv-load/script.js:416-417 | `includes` holds exactly when the term occurs at some offset |
| Text.Contains | csv-load/script.js:416-417 | every string includes the empty term, and an included term is no longer than the string |
| Text.ParseNum | csv-load/script.js:94-97 | blank text or text starting with neither a digit nor a sign reads as 0, and only a leading minus gives a negative number |
| Text.ParseDecimal | csv-load/script.js:94-97 | the decimal rendering of a count reads back as that count |
| Text.ParseDigits | csv-load/script.js:94-97 | a run of digits reads as the number those digits spell |
| Text.ParseNumDecimal | csv-load/script.js:94-97 | a decimal number after any white space and before a non-digit reads back as itself |
| Text.ParseNumNegativeDecimal | csv-load/script.js:94-97 | the same with a minus sign reads back as the negated number |
| OrderedMaps.OrderedMap.Put | csv-load/script.js:116 | the map gets the new value; a new key goes to the end of the key order and a known key keeps its place; each key stays listed once |
| OrderedMaps.OrderedMap.Values | csv-load/script.js:369 | one value per key, in key order |
| OrderedMaps.OrderedMap.Entries | csv-load/script.js:242 | one key-value pair per key, in key order |
| OrderedMaps.PutNewValues | csv-load/script.js:424 | setting a new key appends its value to `Object.values` |
| OrderedMaps.PutOldValues | csv-load/script.js:424 | setting a known key replaces its value in place in `Object.values` |
| OrderedMaps.Empty | csv-load/script.js:83 | `{}` has no keys and no values |
| Csv.NonBlankLines | csv-load/script.js:79 | no more lines than newlines plus one; each kept line is non-blank and holds no newline |
| Csv.DropBlank | csv-load/script.js:79 | keeps only lines that are not blank, and every such line occurs in the result |
| Csv.DropBlankAppend | csv-load/script.js:79 | the filter keeps the lines of two blocks in order: those of the first block, then those of the second |
| Csv.DropBlankOne | csv-load/script.js:79 | one line is kept exactly when it is not blank; with DropBlankAppend this fixes the order and the multiplicity of the kept lines |
| Csv.NonBlankLinesJoin | csv-load/script.js:79 | a text written one line per element gives back exactly the non-blank elements, in order and with their repetitions |
| Csv.NonBlankLinesOne | csv-load/script.js:79 | a text without a newline gives itself as the one line, or nothing when it is blank |
| Csv.ParseRow | csv-load/script.js:86-98 | a line gives a record exactly when it has at least 8 commas; the record's text fields are trimmed and comma-free and its total is the sum of its four counts |
| Csv.RecordOf | csv-load/script.js:88-98 | the record of a line's fields is well formed (trimmed comma-free text, a total that is the sum of the four counts), and its text fields are the first five fields trimmed |
| Csv.ParseRowPadded | csv-load/script.js:86-93 | white space around a text field is dropped: a field written as padding, a trimmed text and padding reads back as that text |
| Csv.ParseRowRoundTrip | csv-load/script.js:86-98 | a line written from five trimmed, comma-free text fields and four decimal counts reads back as exactly that record, its total the sum of the counts |
| Csv.ParseRecords | csv-load/script.js:85-121 | never more records than lines |
| Csv.ParseRecordsWellFormed | csv-load/script.js:88-112 | every record the loop keeps is well formed |
| Csv.ParseText | csv-load/script.js:79-80 | the load fails on `lines[0]` exactly when the text is all white space |
| Csv.NoLinesIffWhitespace | csv-load/script.js:79 | no non-blank line exactly when the text is all white space |
| Csv.ParseRecordsAppend | csv-load/script.js:85-121 | the records of two blocks of lines are the records of the first followed by those of the second |
| Csv.ParseRecordsPrefix | csv-load/script.js:85-121 | one more line adds at most its own record at the end |
| Csv.ParseRecordsMembers | csv-load/script.js:86-112 | every record comes from a line, and every line with enough fields gives its record |
| Csv.LeadingBlankLine | csv-load/script.js:79 | a blank first line changes nothing |
| Csv.HeaderIgnored | csv-load/script.js:80-85 | the records do not depend on the header line |
| Csv.Absorb | csv-load/script.js:118-119 | the group keeps its name, gains the club at the end of its list, and its total grows by the record's total |
| Csv.Names | csv-load/script.js:115-117 | exactly the registration names of the records |
| Csv.FirstSeen | csv-load/script.js:115-117 | each name once, and exactly the names of the records |
| Csv.Aggregate | csv-load/script.js:114-120 | one group per name, in order of first appearance |
| Csv.BuildContents | csv-load/script.js:114-120 | a group holds its name, the clubs of its records in order, and the sum of each count over its records |
| Csv.BuildTotal | csv-load/script.js:118 | a group's total is the sum of its records' totals |
| Csv.GroupContents | csv-load/script.js:114-120 | each group of the aggregation holds exactly its own records |
| Csv.GroupForSnoc | csv-load/script.js:118-119 | one more record changes only the group of its own name |
| Csv.FirstSeenSnoc | csv-load/script.js:115-117 | a new name goes to the end of the key order; a known name changes nothing |
| Csv.AggregateSnocNew | csv-load/script.js:115-119 | a record with a new name appends a group that has absorbed it |
| Csv.AggregateSnocOld | csv-load/script.js:118-119 | a record with a known name updates its group in place |
| Csv.SumTotals | csv-load/script.js:161 | the sum of non-negative totals is non-negative, and one group's sum is its own total |
| Csv.Conservation | csv-load/script.js:161 | the group totals add up to the record totals |
| Csv.GroupCount | csv-load/script.js:157 | the number of groups is the number of distinct registration names |
| Csv.NamesBound | csv-load/script.js:115-117 | there are never more names than records |
| Ranking.SortDesc | csv-load/script.js:185-186 | the sort keeps the length |
| Ranking.SortDescPermutes | csv-load/script.js:185-186 | the sort is a permutation of its input |
| Ranking.SortDescSorted | csv-load/script.js:185-186 | the sort puts the largest keys first |
| Ranking.SortDescStable | csv-load/script.js:185-186 | items with the same key keep their input order |
| Ranking.TopN | csv-load/script.js:185-187 | keeps `n` items, or all of them when there are fewer |
| Ranking.TopNDrawn | csv-load/script.js:185-187 | at most `n` items, all taken from the input |
| Ranking.TopNSorted | csv-load/script.js:185-187 | the kept items run from the largest key down |
| Ranking.TopNStable | csv-load/script.js:185-187 | for each key, the kept items are the first ones of that key in input order |
| Ranking.TopNLeftOut | csv-load/script.js:185-187 | an item left out ranks no higher than any item kept |
| Search.ClubMatches | csv-load/script.js:416-418 | the empty term matches a club list exactly when it is not empty |
| Search.Matches | csv-load/script.js:413-418 | the empty term matches every group; a matching term is no longer than the name unless the group has clubs |
| Search.Filter | csv-load/script.js:414-419 | keeps exactly the matching groups and never grows |
| Search.SearchGroups | csv-load/script.js:410-419 | a group is kept exactly when the lower-cased term occurs in its lower-cased name or in one of its lower-cased club names |
| Search.FilterDistinct | csv-load/script.js:414-425 | groups with distinct names keep distinct names after the filter |
| Search.FilterAppend | csv-load/script.js:414-419 | the filter keeps the relative order of the groups it keeps |
| Search.SearchEmptyTerm | csv-load/script.js:410-419 | the empty term keeps every group |
| Search.SearchCaseInsensitive | csv-load/script.js:410 | the search ignores ASCII case in the term |
| Search.SearchTwice | csv-load/script.js:427-429 | searches compound: two in a row give the same groups whichever term comes first, and repeating a search changes nothing |
| Paging.Slice | csv-load/script.js:372 | `slice` cuts both ends down to the length and gives the items from `start` on |
| Paging.PageRows | csv-load/script.js:370-372 | a page holds at most `size` items, those from `(page - 1) * size` on |
| Paging.TotalPages | csv-load/script.js:400 | the fewest pages of `size` items that hold all items |
| Paging.TotalPagesMonotone | csv-load/script.js:400 | more items never need fewer pages |
| Paging.PagesCover | csv-load/script.js:370-372 | the pages read in order give every item once, in order |
| Paging.PageNonEmpty | csv-load/script.js:370-400 | a page has rows exactly when it is one of the first `totalPages` |
| Paging.Pagination | csv-load/script.js:399-406 | the counter shows the current page and enough pages for all items |
| Paging.NextDisabledIffLastPage | csv-load/script.js:405 | on a page with rows, "next" is disabled exactly when the following page is empty |
| Paging.EmptyTableNextEnabled | csv-load/script.js:400-405 | an empty table has 0 pages and leaves "next" enabled on page 1 |
| Paging.PrevPageOf | csv-load/script.js:449-450 | "previous" never goes below page 1 and never moves forward |
| Paging.NextPageOf | csv-load/script.js:456-458 | "next" stays or moves forward one page, and it moves exactly when the page is below the page count of the loaded records (`filteredData`) |
| Paging.NextStopsAtRecordPages | csv-load/script.js:456-458 | on or past that page count "next" stays put; with 30 records at 25 a page it stops on page 2 |
| Paging.PrevMovesIffEnabled | csv-load/script.js:404-450 | "previous" moves exactly when its button is enabled |
| Paging.NextReachesEveryPage | csv-load/script.js:456-458 | with no more groups than records, "next" reaches every page of the table |
| Paging.NextPassesTable | csv-load/script.js:456-458 | after a search leaves no group, "next" still moves to an empty page 2 |
| Paging.RowOf | csv-load/script.js:377-391 | a row's school-level sums and its four counters add up to its total |
| Paging.RowClubs | csv-load/script.js:383 | the club column lists the clubs in order |
| Paging.Table | csv-load/script.js:367-396 | one row per item of the current page, in order, and the pagination of all groups |
| Charts.Sports | csv-load/script.js:165 | exactly the sports of the records |
| Charts.Mean | csv-load/script.js:169 | the mean times the group count is the total members, and the mean is 0 when there is no group |
| Charts.SummaryCards | csv-load/script.js:155-173 | the group count; the total members as the sum of the group totals; the number of distinct sports of the records; the mean of the total over the group count |
| Charts.SportsBound | csv-load/script.js:165-166 | no more sports than records, and at least one when there is a record |
| Charts.SummaryAfterLoad | csv-load/script.js:155-173 | after a load the cards count the distinct names, add up every record's members, and count the distinct sport types of the records, which lie between 1 and the number of records |
| Charts.TopGroupsChart | csv-load/script.js:185-190 | as many labels as values, at most `n` of them |
| Charts.Top10Chart | csv-load/script.js:183-190 | at most ten bars |
| Charts.DistributionChart | csv-load/script.js:293-300 | at most fifteen points |
| Charts.TopGroupsChartProperties | csv-load/script.js:185-190 | as many bars as allowed; largest first; each bar is a group of the input; a group not shown is no larger than any group shown |
| Charts.TopGroupsChartStable | csv-load/script.js:185-187 | among groups of equal size, the chart shows the first ones in input order |
| Charts.GroupContributions | csv-load/script.js:231-239 | one contribution per record of the group, in record order, each with that record's sport and the group's whole total |
| Charts.Contributions | csv-load/script.js:229-240 | every contribution carries the total of one of the groups |
| Charts.TallyOf | csv-load/script.js:233-237 | a sport counts no more contributions than there are, and a sport with no contribution has total 0 |
| Charts.SportOrder | csv-load/script.js:233-234 | each sport once, exactly the sports that got a contribution |
| Charts.SportTallies | csv-load/script.js:229-240 | the per-sport object after all contributions |
| Charts.DescribesUnique | csv-load/script.js:229-240 | the contributions fix the per-sport object completely |
| Charts.Bump | csv-load/script.js:233-237 | one update keeps the object consistent |
| Charts.BumpDescribes | csv-load/script.js:233-237 | one update of the object is one more contribution |
| Charts.MembersBySport | csv-load/script.js:229-240 | the nested loops build the object that describes all contributions |
| Charts.AddGroup | csv-load/script.js:231-239 | the inner loop adds one group's contributions |
| Charts.ContributionsTally | csv-load/script.js:229-240 | for groups with distinct names, each sport counts the records of those groups and adds each record's whole group total |
| Charts.PerSportAfterLoad | csv-load/script.js:229-240 | after a load, a sport's count is its number of records and its total adds the group total once per record |
| Charts.SportKeysAfterLoad | csv-load/script.js:233-234 | after a load, the per-sport object has exactly the sports the summary card counts |
| Charts.PerSportDoubleCount | csv-load/script.js:236 | two soccer clubs of one 7-member group chart soccer with 14 members |
| Charts.SportChart | csv-load/script.js:242-248 | labels, totals and counts line up, at most ten of each |
| Charts.SportChartRanked | csv-load/script.js:242-248 | as many sports as allowed, the largest total first |
| Charts.SportChartStable | csv-load/script.js:242-245 | the chart's labels are the sports of the top entries, and among sports with equal totals the chart shows the first ones in key order |
| Charts.SportChartBars | csv-load/script.js:242-248 | each bar carries its own sport's tally |
| Charts.SportChartLeftOut | csv-load/script.js:242-248 | a sport not shown has no larger total than any sport shown |
| Charts.ChartsFor | csv-load/script.js:176-180 | the three charts stay within their bar counts |
| Charts.RenderCharts | csv-load/script.js:176-180 | the loops draw the charts the specification functions describe |
| Dashboard.HoldsAggregate | csv-load/script.js:114-120 | group objects that match the records hold the aggregation of those records |
| Dashboard.EnsureGroup | csv-load/script.js:115-117 | a new name gets a new empty object at the end of the dictionary; every other object is untouched |
| Dashboard.AbsorbRecord | csv-load/script.js:118-119 | the object's new value is its old value with the record absorbed |
| Dashboard.AbsorbInto | csv-load/script.js:118-119 | after absorbing, the objects hold the aggregation with the record included |
| Dashboard.LoadRow | csv-load/script.js:86-120 | one loop pass adds the line's record, if any, and keeps the objects in step with the records |
| Dashboard.LoadRows | csv-load/script.js:85-121 | the loop yields the parsed records, and its new objects hold their aggregation, one per distinct name |
| Dashboard.Reindex | csv-load/script.js:422-425 | the new dictionary holds the groups under their own names, in the order given |
| Dashboard.Dashboard.Groups | csv-load/script.js:369 | one group per dictionary key; in a consistent state no more groups than the filtered list, each with a total that is the sum of its counters |
| Dashboard.Dashboard.constructor | csv-load/script.js:2-6 | nothing loaded, page 1, 25 rows per page |
| Dashboard.Dashboard.UpdateTable | csv-load/script.js:367-396 | the table shows the current page of the groups; nothing else changes |
| Dashboard.Dashboard.UpdateDashboard | csv-load/script.js:137-152 | cards, charts and table show the current state; nothing else changes |
| Dashboard.Dashboard.Publish | csv-load/script.js:123-133 | the new records and groups replace the old ones; the dashboard is rendered only when there is a record |
| Dashboard.Dashboard.ParseCsv | csv-load/script.js:78-134 | all-white-space text changes nothing; otherwise the records are those of the text, the groups are their aggregation, and the screen is rendered when there is a record |
| Dashboard.Dashboard.Search | csv-load/script.js:409-436 | the groups become the search result of the current groups, page 1 is shown, and nothing else changes |
| Dashboard.Dashboard.SetItemsPerPage | csv-load/script.js:439-445 | the new size, page 1, and the table redrawn |
| Dashboard.Dashboard.PrevPage | csv-load/script.js:448-453 | back one page unless on page 1, redrawn only when it moves |
| Dashboard.Dashboard.NextPage | csv-load/script.js:455-461 | forward while below the page count of the records; it always reaches the table's last page |

## Left out

- The DOM, `FileReader` and Chart.js are not modelled. A chart is the labels and values handed to the library. The card and status texts are the numbers they show.
- Numbers are integers. `parseFloat` fractions, exponents and `Infinity` are not modelled, and neither is floating-point rounding in the sums or the mean. The mean is an exact `real`.
- `toFixed(1)` and `toLocaleString` formatting are not modelled.
- `toLowerCase` folds ASCII letters only. `trim` knows the ASCII white space, U+00A0, U+FEFF, U+2028 and U+2029, but not the other Unicode space separators.
- Registration names and sport names that look like array indices (`"12"`) would be listed first by `Object.keys` and `Object.entries`. Names of `Object.prototype` properties (`"toString"`) would make the existence checks succeed for a missing entry: line 115 for a group, line 233 for a sport of `membersBySport`. The model assumes neither kind of name occurs. This covers Csv.Aggregate, Charts.SportTallies, Charts.SportChart and Charts.SportKeysAfterLoad, whose sport keys are the `sportType` keys of `membersBySport` (script.js lines 233-236 and 242).
- Dashboard.Dashboard.SetItemsPerPage: `parseInt` of the selector's value is not modelled. The method takes the size as a positive number, which is what the selector offers.
- Paging.Slice: only non-negative `slice` arguments are modelled, which is all that page numbers of at least 1 produce.
- Dashboard.Dashboard.ParseCsv: the loop builds the records and the groups in local variables and assigns them after the loop. The script resets the globals first and pushes into them. Nothing reads them in between, so the outcome is the same.
- Dashboard.Reindex: requires distinct names. Its only caller passes the values of a dictionary, whose names are always distinct.
- After a load, the dashboard keeps the groups' values, not the objects. Nothing mutates a group after `parseCSV`'s loop, so no aliasing between `aggregatedData` and the search result can be observed.
- The search box is not cleared on a new load, and a search does not redraw the cards or the charts; the script does neither.
- The script itself differs from a natural reading of its behaviour in three places, and the model follows the script:
  - An empty table has 0 pages, not 1.
  - A new load does not reset the current page.
  - A search filters the result of the previous search, not the loaded data.
