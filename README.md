# Weekly blog-monitoring report: a verified model of its data handling

`blog_bot.py` builds a weekly report on blog posts about a set of brand
keywords. It pages through a date-sorted blog search for each keyword and
keeps the posts of the last seven days, each tagged with the brand side it
belongs to (`자사` for the own brand, `경쟁사` for the competitor). It
drops repeated URLs and then builds the following:

- a count per side;
- a count per side and keyword;
- a date × keyword matrix;
- side-by-side word-frequency tables.

The script also sends each side's titles to a language model to be grouped
into issue types. It cleans the model's answer, repairs the column names of
the resulting table and renders the issues as a bullet list, largest count
first.

This project models that data-handling half in Dafny. The search service, the
POS tagger and the JSON parser are function parameters. Dates are day
numbers.

| file | module | what it holds |
|---|---|---|
| `wrappers.dfy` | `Wrappers` | `Option` and `Result` |
| `counting.dfy` | `Counting` | grouping and counting (`Filter`, `Sizes`, `Count`, first occurrences), the stable descending sort |
| `text.dfy` | `Text` | Python's `strip`, `find`/`rfind`, negative-index slicing, `lower`, code-point string order, decimal printing |
| `collector.dfy` | `Collector` | the collection loop (lines 32-59) as methods, proved equal to recursive specification functions |
| `aggregate.dfy` | `Aggregate` | URL de-duplication and the three summary tables (lines 61-87) |
| `wordfreq.dfy` | `WordFreq` | the token filter, the `Counter` class updated in a loop, `most_common`, padding and the side-by-side table (lines 91-109) |
| `cluster.dfy` | `Cluster` | the cleanup of the model's answer, the column repair and `make_bullet` (lines 140-171) |

Behaviours kept as the code has them:

- **The collector's loop exits.** An item older than the window forces the
  cursor to 1001; the `start >= 1000` test then ends the keyword. A response
  without `items` or a page with `display < 100` (a missing `display` counts
  as 0) also ends it. Otherwise the cursor runs 1, 101, …, 901; the step from
  901 to 1001 fails the `while start <= 1000` guard, so a keyword makes at
  most 10 requests.
- **Title tags.** `re.sub('<.*?>', '', …)` removes each `<` up to the first
  following `>` on the same line. An unclosed `<` stays.
- **An empty collection.** `drop_duplicates('URL')` on an empty frame raises
  `KeyError`. `DetailTable` returns `Failure` for it.
- **Keyword order.** Keywords outside the configured order drop out of the
  per-keyword table, and only non-empty groups appear.
- **Fence stripping.** The regex runs with `re.I|re.M`: a fence with an
  optional `json` tag is removed at the start of any line. This includes the
  `ſ` that Python's case-insensitive matching treats as `s`. A bare fence is
  removed at the end of any line.
- **The bracket slice.** With no `[` the slice starts at index `-1`, so an
  answer that ends in `]` becomes `"]"` (`BracketSpanOtherwise`).
- **Column lower-casing.** Numbered columns (records that are arrays) make
  `c.lower()` raise `AttributeError`.
- **Numeric columns.** A column whose name is repeated is not numeric,
  because `df[c]` is then a frame. `rename` renames every column that has the
  old name.
- **The label column.** Inserting `구분` raises `ValueError` when a `구분`
  column survives the renames.
- **Bullets.** They come out in descending count order. The source's
  `sort_values('count', ascending=False)` promises no order among equal
  counts; the model keeps them in table order, which is one of the orders the
  source can produce.

## Model

| member | source | states |
|---|---|---|
| Collector.Collect | blog_bot.py:32-59 | the nested keyword/page loop produces exactly the rows and the request sequence of `CollectAll` |
| Collector.ScanKeywordPages | blog_bot.py:34-59 | one keyword's loop appends exactly `ScanKeyword`'s rows and issues the requests at cursors 1, 101, … in order |
| Collector.ScanPage | blog_bot.py:43-55 | one page appends the rows `ScanItems` keeps and forces the cursor to 1001 exactly when an item older than the window is met |
| Collector.CursorBound | blog_bot.py:35-36 | the k-th cursor is at most 1000 exactly when k < 10 |
| Collector.CursorShape | blog_bot.py:35-59 | every cursor used is 1 mod 100 and lies between 1 and 901 |
| Collector.StripQuotesOfQuoted | blog_bot.py:34 | `strip('"')` removes exactly the surrounding quotes of a quoted keyword |
| Collector.TrimLeftQuote | blog_bot.py:34 | proof step: `strip('"')` removes exactly one leading quote from a word not starting with a quote |
| Collector.TrimRightQuote | blog_bot.py:34 | proof step: `strip('"')` removes exactly one trailing quote from a word not ending with a quote |
| Collector.KeywordOrderOfQuoted | blog_bot.py:28 | the keyword order of quoted words is the words themselves |
| Collector.KeywordOrder | blog_bot.py:28 | `kw_order`: each keyword with `strip('"')` applied; its meaning is stated by `KeywordOrderOfQuoted` and `KeywordOrderOfConfiguration` |
| Collector.KeywordsAreQuoted | blog_bot.py:23-28 | the configured keywords are the words of the configured order, each in double quotes |
| Collector.ConfiguredOrderUnquoted | blog_bot.py:23-28 | no word of the configured order is empty or begins or ends with a quote |
| Collector.KeywordOrderOfConfiguration | blog_bot.py:23-28 | the configured keywords give the order 이즐 교통카드, ezl, 이즐, 캐시비, 이동의즐거움, 티머니 |
| Collector.ConfigurationIsConsistent | blog_bot.py:23-28 | every configured keyword has a category in `mapping`, and the stripped keywords are distinct |
| Collector.OrderMapped | blog_bot.py:28-50 | a keyword has a category in `mapping` whenever its entry of `kw_order` has one |
| Collector.ConfiguredOrderMapped | blog_bot.py:24-28 | every keyword of the configured order has a category |
| Collector.ConfiguredOrderDistinct | blog_bot.py:28 | the configured order has no repeats |
| Collector.Closer | blog_bot.py:53 | the lazy `.*?` closes a tag at the first `>` before any line break, and there is none when no such `>` exists |
| Collector.StripTags | blog_bot.py:53 | removing tags never lengthens a title; `StripTagsKeepsPlainPrefix`, `StripTagsDropsTag` and `StripTagsAroundTag` state what is kept |
| Collector.StripTagsKeepsPlainPrefix | blog_bot.py:53 | text before the first `<` is kept unchanged in front of what the rest becomes |
| Collector.CloserOfTag | blog_bot.py:53 | a `>` after a run with no `>` and no line break is where the lazy `.*?` closes the tag |
| Collector.StripTagsDropsTag | blog_bot.py:53 | a whole tag `<…>` is removed and the text after it is stripped in turn |
| Collector.StripTagsAroundTag | blog_bot.py:53 | plain text, a tag, then more text: the plain text survives, the tag is gone, and the rest is stripped |
| Collector.UnclosedStaysUnclosed | blog_bot.py:53 | text with no `>` before its first line break keeps that property when its tags are removed |
| Collector.StripTagsRemovesAll | blog_bot.py:53 | no closed `<…>` tag is left in a stripped title |
| Collector.StripTagsKeepsPlainText | blog_bot.py:53 | a title without tags is left unchanged |
| Collector.StripTagsIdempotent | blog_bot.py:53 | stripping tags twice is stripping them once |
| Collector.ScanItems | blog_bot.py:43-55 | a page yields at most one row per item |
| Collector.MakeRow | blog_bot.py:49-55 | the detail row of a kept post: the keyword's category, the stripped keyword, the post date, the title with tags removed and the link; `ScanItemsRows` states what every such row satisfies |
| Collector.FirstOld | blog_bot.py:44-46 | the position of the first item older than start_date, with every earlier item inside the window's lower bound |
| Collector.ScanItemsIsPrefixFilter | blog_bot.py:43-55 | a page keeps exactly the items before the first old one that are not newer than end_date, and reports whether an old item was met |
| Collector.ScanItemsRows | blog_bot.py:44-55 | every row of a page has the keyword, its category, a date in [start_date, end_date] and a title free of tags |
| Collector.ScanItemsFrom | blog_bot.py:43-55 | proof step: an item inside the window's lower bound contributes its row (none when newer than end_date) ahead of the rows of the items after it |
| Collector.ScanKeyword | blog_bot.py:36-59 | a keyword issues between 1 and 10 requests |
| Collector.ScanKeywordRequests | blog_bot.py:36-59 | the keyword continues past every page but the last, and stops at the last one unless the cursor cap stops it first |
| Collector.ScanKeywordStep | blog_bot.py:36-59 | proof step: a keyword's remaining pages are: nothing more when the response has no items; otherwise this page's rows followed by the next cursor's pages when the loop goes on, or this page's rows alone |
| Collector.FetchPage | blog_bot.py:37-59 | one pass requests the page at the current cursor, appends the page's rows, and either ends the keyword with all its remaining rows or moves the cursor on by 100 with the rest still to come |
| Collector.ScanKeywordRows | blog_bot.py:43-55 | every row of a keyword carries the stripped keyword, its category, an in-window date and a tag-free title |
| Collector.RequestLog | blog_bot.py:37-40 | the n requests of a keyword use the cursors 1, 101, … in order |
| Collector.RequestLogSnoc | blog_bot.py:37-59 | proof step: one more request adds the request at the next cursor at the end of the log |
| Collector.CollectAll | blog_bot.py:33-59 | the whole run issues at most 10 requests per keyword |
| Collector.CollectedRowsWellFormed | blog_bot.py:44-54 | every collected row is well formed: configured keyword, `mapping` category, date in the window, no tags in the title |
| Collector.CollectedRequests | blog_bot.py:36-40 | every request uses a configured query and a cursor 1, 101, …, 901 |
| Counting.Filter | blog_bot.py:67-68 | a group holds only members of the input with that key |
| Counting.FilterConcat | blog_bot.py:67-68 | grouping distributes over concatenation |
| Counting.FilterPair | blog_bot.py:82 | grouping by date and then by keyword is grouping by the (date, keyword) pair |
| Counting.SizesAt | blog_bot.py:67-68 | the i-th group size is the number of elements with the i-th key |
| Counting.Sizes | blog_bot.py:67-68 | there is one group size per key |
| Counting.CountConcat | blog_bot.py:96 | the occurrences in a concatenation are those of both parts |
| Counting.Partition | blog_bot.py:67-68 | when every key lies in a repeat-free key list, the group sizes add up to the input length |
| Counting.CountPositive | blog_bot.py:96 | a word's count is positive exactly when it was seen |
| Counting.FirstOccurrences | blog_bot.py:96 | the key order of a `Counter`: no element twice, and exactly the elements of the input |
| Counting.FirstOccurrencesOrdered | blog_bot.py:96 | the keys come in order of first sight: an earlier key was first seen earlier in the input |
| Counting.IndexOfPrefix | blog_bot.py:96 | proof step: the first sight of an element is unchanged by appending |
| Counting.AppendOne | blog_bot.py:96 | seeing one more word appends it to the key order only if new, and raises its count by one |
| Counting.IndexOf | blog_bot.py:74-75 | the position of the first occurrence of an element, or the length when there is none |
| Counting.SortDescSpec | blog_bot.py:99-100 | the descending sort is ordered, a permutation, and keeps equal keys in input order |
| Counting.SortDesc | blog_bot.py:99-100 | the stable descending sort keeps the length; `SortDescSpec` states that it is ordered, a permutation and stable |
| Counting.InsertDescPermutes | blog_bot.py:170 | inserting adds exactly the new element to the multiset |
| Counting.InsertDescSorted | blog_bot.py:170 | inserting into a descending list keeps it descending |
| Counting.InsertDescMembers | blog_bot.py:170 | proof step: inserting brings in no element besides the new one |
| Counting.InsertDescStable | blog_bot.py:170 | inserting puts an element after all earlier elements with the same key |
| Text.TrimLeft | blog_bot.py:140 | the dropped leading characters all satisfy the predicate and the first kept one does not |
| Text.TrimLeftSuffix | blog_bot.py:140 | what `lstrip` keeps is the rest of the text after the dropped characters |
| Text.TrimRight | blog_bot.py:140 | the dropped trailing characters all satisfy the predicate and the last kept one does not |
| Text.TrimRightPrefix | blog_bot.py:140 | what `rstrip` keeps is the start of the text before the dropped characters |
| Text.Strip | blog_bot.py:140-141 | `str.strip()`: both ends trimmed of white space; `TrimLeftSuffix` and `TrimRightPrefix` state what stays |
| Text.StripQuotes | blog_bot.py:28-34 | `str.strip('"')`; `StripQuotesOfQuoted` states that it unquotes a quoted keyword |
| Text.Find | blog_bot.py:142 | `find` returns the first index of the character, or -1 exactly when it is absent |
| Text.RFind | blog_bot.py:142 | `rfind` returns the last index of the character, or -1 exactly when it is absent |
| Text.PySliceWithin | blog_bot.py:142 | a slice whose bounds lie inside the text is the plain sub-sequence |
| Text.PySlice | blog_bot.py:142 | a Python slice with negative and out-of-range bounds is never longer than the text; `PySliceWithin` gives in-range bounds |
| Text.Lower | blog_bot.py:145 | lower-casing maps each character and keeps the length |
| Text.LowerIdempotent | blog_bot.py:145 | lower-casing twice is lower-casing once, and no upper-case letter is left |
| Text.LexIrreflexive | blog_bot.py:70 | no category sorts before itself |
| Text.LexTransitive | blog_bot.py:70 | the string order used by `sort_values` is transitive |
| Text.LexTotal | blog_bot.py:70 | any two different strings are ordered one way or the other |
| Text.DigitsRoundTrip | blog_bot.py:169 | a printed count reads back as the same number |
| Text.Digits | blog_bot.py:169 | a printed count is a non-empty run of decimal digits |
| Aggregate.DropDuplicateUrls | blog_bot.py:61-63 | de-duplication keeps every URL, keeps only input rows and leaves the URLs pairwise distinct |
| Aggregate.DropDuplicateUrlsKeepsFirsts | blog_bot.py:61-63 | the surviving rows are exactly the first occurrences of their URLs, in collection order |
| Aggregate.DetailTable | blog_bot.py:61-63 | the detail table fails (KeyError) exactly on an empty collection, and is otherwise the first occurrence of each URL in order |
| Aggregate.InsertAscendingSpec | blog_bot.py:67-70 | inserting a category keeps the list ascending and adds exactly that category |
| Aggregate.CategoriesSpec | blog_bot.py:67-70 | the group keys are ascending and are exactly the categories present |
| Aggregate.Categories | blog_bot.py:67-70 | the sorted group keys of `groupby('구분')`; `CategoriesSpec` states that they are ascending and exactly the categories present |
| Aggregate.AscendingDistinct | blog_bot.py:67-70 | ascending group keys have no repeats |
| Aggregate.CountEachAt | blog_bot.py:67-69 | each category line counts the rows of that category |
| Aggregate.CountEach | blog_bot.py:67-69 | one count line per category |
| Aggregate.CountEachTotal | blog_bot.py:67-69 | the category lines add up to the group sizes |
| Aggregate.SummaryByCategoryOrder | blog_bot.py:67-70 | the per-category table lists each present category once, in ascending order |
| Aggregate.SummaryByCategory | blog_bot.py:67-70 | `summary_df`; its meaning is stated by `SummaryByCategoryOrder`, `SummaryByCategoryCounts` and `SummaryByCategoryTotal` |
| Aggregate.SummaryByCategoryCounts | blog_bot.py:67-69 | each count is the number of rows of its category, and is positive |
| Aggregate.SummaryByCategoryTotal | blog_bot.py:67-69 | the per-category counts add up to the number of rows |
| Aggregate.KeywordGroupsLines | blog_bot.py:73-79 | each line of a category holds a keyword of the order with its positive (category, keyword) count |
| Aggregate.KeywordGroupsOrdered | blog_bot.py:73-79 | within a category the keywords follow the configured order |
| Aggregate.KeywordGroupsOrderedCons | blog_bot.py:73-79 | proof step: a non-empty group for the next keyword of the order goes in front of the later keywords' groups and keeps them in order |
| Aggregate.KeywordGroupsSkip | blog_bot.py:73-79 | proof step: a keyword of the order with no rows in the category adds no line (`observed=True`) |
| Aggregate.CategoryGroupsShape | blog_bot.py:76-79 | the lines are sorted by category and then by keyword order, and each is a non-empty group |
| Aggregate.SummaryByCategoryKeywordShape | blog_bot.py:73-79 | the (category, keyword) table has only non-empty groups of present categories, sorted by category and then by keyword order |
| Aggregate.SummaryByCategoryKeyword | blog_bot.py:73-79 | `summary_kw_df`; its meaning is stated by `SummaryByCategoryKeywordShape` and `SummaryByCategoryKeywordTotal` |
| Aggregate.KeywordGroupsTotal | blog_bot.py:73-79 | a category's lines add up to its rows grouped by keyword |
| Aggregate.CategoryGroupsTotal | blog_bot.py:73-79 | the lines of all categories add up to the per-category group sizes |
| Aggregate.SummaryByCategoryKeywordTotal | blog_bot.py:73-79 | when every keyword is in the order, the (category, keyword) counts add up to the number of rows |
| Aggregate.Days | blog_bot.py:86 | the date range holds every day from start to end inclusive, in order |
| Aggregate.DailyCounts | blog_bot.py:82-87 | the matrix has one row per day and one column per keyword of the order |
| Aggregate.DailyCountsAt | blog_bot.py:82-87 | each cell is the number of rows with that date and keyword |
| Aggregate.DailyMatrixCells | blog_bot.py:82-87 | the daily matrix has one row for each day of the window and one column per keyword, each cell counting its rows (0 when none) |
| Aggregate.DailyMatrix | blog_bot.py:82-87 | `daily_df`; its meaning is stated by `DailyMatrixCells` and `DailyMatrixTotal` |
| Aggregate.DailyCountsTotal | blog_bot.py:82-85 | the cells add up to the rows grouped by date |
| Aggregate.DailyMatrixTotal | blog_bot.py:82-87 | when every row's date is in the window and its keyword in the order, the cells add up to the number of rows |
| Aggregate.ReportTotals | blog_bot.py:33-87 | on a collected run, all three summary tables account for every de-duplicated row |
| WordFreq.Words | blog_bot.py:94-95 | the kept words are at most as many as the tokens |
| WordFreq.WordsCount | blog_bot.py:94-95 | a word occurs among the kept words as often as a kept token carries it |
| WordFreq.WordsKept | blog_bot.py:94-95 | every kept word is longer than one character and is not a stop word |
| WordFreq.Kept | blog_bot.py:94-95 | the token filter: a noun or adjective longer than one character that is not a stop word; `WordsKept` and `WordsCount` state its effect on the kept words |
| WordFreq.SideWordsOfSide | blog_bot.py:93-96 | each counter is fed the words of exactly its side's titles (`자사` or all others), in row order |
| WordFreq.SidesPartition | blog_bot.py:92-96 | every kept word goes to exactly one of the two counters |
| WordFreq.TallyAt | blog_bot.py:96 | each counter line holds a word with its number of occurrences |
| WordFreq.TallyTotal | blog_bot.py:96 | the counter lines add up to the word group sizes |
| WordFreq.CountIsFilter | blog_bot.py:96 | a word's count is the size of its group |
| WordFreq.ItemsSpec | blog_bot.py:92-96 | a counter lists each word it was fed once, with its positive count, and the counts add up to the number of words fed |
| WordFreq.CountMapSpec | blog_bot.py:96 | the counter's dictionary has exactly the words seen, each mapped to its number of occurrences |
| WordFreq.CountsStep | blog_bot.py:96 | counting one more word keeps the key order and the dictionary in step with everything fed |
| WordFreq.CountMapSnoc | blog_bot.py:96 | proof step: counting one more word adds 1 to its entry in the dictionary, or creates it with 1 |
| WordFreq.EntriesOfTally | blog_bot.py:99-100 | reading the dictionary in key order gives the counter's lines |
| WordFreq.Counter.constructor | blog_bot.py:92 | a new counter has been fed nothing |
| WordFreq.Counter.Add | blog_bot.py:96 | counting one word records it, and the counter stays consistent |
| WordFreq.Counter.Update | blog_bot.py:96 | `update` feeds the words in order, and the counter stays consistent |
| WordFreq.Counter.Lines | blog_bot.py:99-100 | the counter's lines are the distinct fed words in order of first sight, with their counts |
| WordFreq.Counter.MostCommon | blog_bot.py:99-100 | `most_common(n)` is the first n lines after a stable sort by descending count |
| WordFreq.TopSplits | blog_bot.py:99-100 | the top list is a prefix of the sorted lines, of length min(n, lines) |
| WordFreq.Top | blog_bot.py:99-100 | `most_common(n)` on the counter's lines; its meaning is stated by `TopSplits`, `TopOrdered`, `TopKeepsLargest` and `TopStable` |
| WordFreq.TopOrdered | blog_bot.py:98-100 | the top list has min(n, lines) entries, in descending count, all taken from the counter |
| WordFreq.TopKeepsLargest | blog_bot.py:99-100 | no line left out of the top list has a larger count than one in it |
| WordFreq.PrefixDominates | blog_bot.py:99-100 | proof step: in a list sorted by descending count, an entry outside a prefix counts no more than any entry of the prefix |
| WordFreq.TopStable | blog_bot.py:99-100 | among equal counts, the top list keeps the counter's order |
| WordFreq.Pad | blog_bot.py:101-103 | padding brings a list to the longer of the two lengths |
| WordFreq.SideBySideSpec | blog_bot.py:101-109 | the table has max(len(ja_top), len(co_top)) lines, each side showing its entry or `('', 0)` |
| WordFreq.SideBySide | blog_bot.py:101-109 | `freq_side_df`; its meaning is stated by `SideBySideSpec` |
| WordFreq.CountTitles | blog_bot.py:92-96 | two new counters are fed the kept words of the `자사` titles and of all other titles |
| WordFreq.WordFrequency | blog_bot.py:91-109 | the side-by-side table is built from the top 20 lines of the two counters, padded to equal length |
| Cluster.StripFences | blog_bot.py:141 | removing fences never lengthens the text |
| Cluster.StripFencesPlain | blog_bot.py:141 | text without backticks passes through the fence removal unchanged |
| Cluster.FencesOfJsonBlock | blog_bot.py:141 | a json-fenced block loses exactly its opening and closing fences |
| Cluster.ClosingFence | blog_bot.py:141 | proof step: a closing fence on its own line is removed and its line break kept |
| Cluster.StripFencesPlainChar | blog_bot.py:141 | proof step: a character that is not a backtick passes through the fence removal as it is |
| Cluster.StripKeeps | blog_bot.py:140 | `strip` leaves text without surrounding white space unchanged |
| Cluster.StripOfLine | blog_bot.py:141 | `strip` removes the line breaks around a fenced body |
| Cluster.BracketSpan | blog_bot.py:142 | the slice is never longer than the text |
| Cluster.BracketSpanExact | blog_bot.py:142 | when a `[` precedes a `]`, the slice runs exactly from the first `[` to the last `]` inclusive |
| Cluster.BracketSpanOtherwise | blog_bot.py:142 | otherwise the slice is empty, or `"]"` when there is no `[` and the text ends in `]` |
| Cluster.BracketSpanWhole | blog_bot.py:142 | a bare array is kept whole |
| Cluster.CleanFencedArray | blog_bot.py:140-142 | a json-fenced array is cleaned to exactly the array |
| Cluster.CleanResponse | blog_bot.py:140-142 | the answer text handed to `json.loads`; `CleanFencedArray`, `BracketSpanExact` and `BracketSpanOtherwise` state what it keeps |
| Cluster.ClusterTable | blog_bot.py:140-156 | `gpt_cluster` after the model call: clean the answer, parse it (a parameter; `JSONDecodeError` when it fails) and repair the columns; `ClusterTableFenced` states the fenced case |
| Cluster.ClusterTableFenced | blog_bot.py:140-156 | a json-fenced array reaches the parser as the bare array, and the table is the parsed records with their columns repaired |
| Cluster.Names | blog_bot.py:145 | the column names are listed in column order |
| Cluster.FirstNumeric | blog_bot.py:148 | the first numeric column from a position on, or none |
| Cluster.FirstCategorical | blog_bot.py:153 | the first non-numeric column not named `구분`, or none |
| Cluster.Rename | blog_bot.py:150 | renaming keeps the number of columns |
| Cluster.RenameAt | blog_bot.py:150-155 | renaming changes the name of every column with the old name and nothing else |
| Cluster.CountStepSpec | blog_bot.py:147-150 | `count` exists afterwards exactly when it did or some column is numeric; only a column named like the first numeric one is renamed, and only when `count` was absent; cells never change |
| Cluster.DistinctCountTwo | blog_bot.py:148 | a name held by two columns occurs at least twice, so those columns are not numeric |
| Cluster.CountStep | blog_bot.py:147-150 | the count fallback keeps the number of columns |
| Cluster.CountStepAt | blog_bot.py:147-150 | proof step: a column is renamed to `count` exactly when no `count` column exists and it is the first numeric column; it keeps its cells |
| Cluster.TypeStepSpec | blog_bot.py:152-155 | `type` exists afterwards exactly when it did or some column qualifies; exactly the columns named like the first qualifying one are renamed; cells never change |
| Cluster.TypeStep | blog_bot.py:152-155 | the type fallback keeps the number of columns |
| Cluster.TypeStepAt | blog_bot.py:152-155 | proof step: a column is renamed to `type` exactly when no `type` column exists and it carries the first qualifying column's name; it keeps its cells |
| Cluster.FallbacksAt | blog_bot.py:147-155 | proof step: after both fallbacks a column keeps its cells and is named by its own name, `count` or `type` |
| Cluster.LowerNames | blog_bot.py:145 | lower-casing fails (AttributeError) exactly on numbered columns, and otherwise lowers each name and keeps each column's cells |
| Cluster.LowerLabel | blog_bot.py:145-153 | only `구분` itself lowers to `구분` |
| Cluster.RepairColumnsShape | blog_bot.py:145-156 | a repaired table has the label column first, then every original column with its cells unchanged, named by its lowered name, `count` or `type` |
| Cluster.LabelSurvives | blog_bot.py:150-156 | a column is still named `구분` after the renames exactly when it was, and was not the column renamed to `count` |
| Cluster.RepairColumnsWellFormed | blog_bot.py:145-156 | repair keeps one cell per row in every column |
| Cluster.RepairColumnsFailure | blog_bot.py:145-156 | repair fails exactly on numbered columns or when a `구분` column survives the renames (ValueError on insert) |
| Cluster.RepairColumns | blog_bot.py:145-156 | the column repair of `gpt_cluster`; its meaning is stated by `RepairColumnsShape`, `RepairColumnsWellFormed`, `LabelSurvives` and `RepairColumnsFailure` |
| Cluster.IssuesOf | blog_bot.py:169-170 | the issues of a table are one per row; a missing or repeated `count` label fails before any row is read |
| Cluster.IssuesOfSpec | blog_bot.py:169-170 | reading issues fails exactly when `count` is missing (KeyError) or repeated (ValueError of `sort_values`), a count is not an integer, or the table has rows but no `type` column (KeyError of `row['type']`); otherwise each row pairs its cell of the first `type` column with its count |
| Cluster.BulletOrderSpec | blog_bot.py:170 | bullets list every issue once, by descending count, with ties in table order |
| Cluster.BulletLines | blog_bot.py:168-170 | the i-th bullet renders the i-th issue in bullet order as `- **type** : count건` |
| Cluster.CellText | blog_bot.py:169 | the f-string text of a type cell: an integer in decimal, a string as it is, a missing cell as `nan` |
| Cluster.BulletLine | blog_bot.py:169 | one bullet `- **type** : count건`; `BulletLineOneLine` states that it spans one line when its type text does |
| Cluster.SplitJoinLines | blog_bot.py:168 | joining lines free of line breaks can be split back into the same lines |
| Cluster.SplitLines | blog_bot.py:168 | splitting gives at least one piece |
| Cluster.SplitAtBreak | blog_bot.py:168 | proof step: the first line break of a line followed by a break and more text is the one after the line |
| Cluster.BulletLineOneLine | blog_bot.py:169 | a bullet spans one line when its type text does |
| Cluster.MakeBulletLines | blog_bot.py:167-171 | the report text holds exactly one line per issue, in bullet order, when no type text breaks a line |
| Cluster.MakeBullet | blog_bot.py:167-171 | `make_bullet`: the bullet lines joined by line breaks; `MakeBulletLines` states what the text holds |
| Cluster.CountTextRoundTrip | blog_bot.py:169 | a non-negative count prints as its decimal digits and reads back unchanged |

## Left out

- The Naver search, OpenAI and Confluence HTTP calls (lines 37-40, 134-138 and the Confluence part) are left out. The search becomes a function parameter from (query, cursor) to a decoded response. The language-model call and the Confluence upload are not modelled.
- Credentials, environment variables and the base64 authorisation header are left out. They are configuration.
- `datetime.now()` is left out. The window bounds are parameters.
- Dates are day numbers. `strptime` of `postdate` and `strftime('%Y-%m-%d')` are not modelled. On real dates the formatted strings sort the same way as the day numbers.
- The Okt POS tagger is a parameter from title to (word, POS) tokens.
- The tiktoken size check and the prompt text (lines 112-132) are not modelled.
- `json.loads` and `pd.DataFrame(records)` are a parameter from text to an optional table. Cells are integers, strings or missing; floats and booleans are not modelled.
- The title lists (lines 159-160) are not modelled. They feed only the language-model prompt (lines 116-132, through the calls at lines 162-163), which is left out.
- `issue_df_all` (line 165) is not modelled. Nothing after line 165 reads it.
- CSV output, `to_html` rendering and the HTML body are not modelled.
- Text.Lower: lowers ASCII letters only. Python's `str.lower` also lowers capitals of other scripts (accented Latin, Greek, Cyrillic and more). The column names are the JSON keys of the language model's answer, so such a key keeps its capitals in the model.
- Collector.Collect: requires every stripped keyword to have a category in `mapping`. In the source, `mapping[kw_clean]` at line 50 is evaluated only for a kept post, so an unmapped keyword raises `KeyError` only when one of its posts falls in the window. The model does not cover an unmapped keyword; `ConfigurationIsConsistent` proves that the configured constants have none.
- Aggregate.SummaryByCategoryKeywordShape: requires a keyword order without repeats, because `pd.Categorical` rejects repeated categories. The same holds for the other lemmas that take that requirement.
- Cluster.IssuesOf: fails on a count cell that is not an integer. The source would sort and print a float count, and fail only on counts that cannot be compared.
- Cluster.IssuesOf: reads the first column named `type` when the renames leave several (keys such as `Name` and `NAME` both lower to `name` and both become `type`). The source's `row['type']` is then a Series, and the bullet prints its multi-line representation; the model prints the first cell.
- Cluster.BulletOrderSpec: states a stable order. pandas' default `quicksort` kind promises no order among equal counts, and the order numpy's sort gives them depends on its implementation and the CPU. The model fixes table order for ties, one of the orders the source can produce.
- Cluster.CellText: prints an integer type cell in decimal and a missing one as `nan`. Other pandas formatting of cells is not modelled.
