# Daily post-type report, modelled in Dafny

This project models the report job in `jobs/QueryUtopianTypes.js`. Once a day the job
computes the UTC day before the current one. It reads the Utopian feed page by page,
newest first, and keeps the posts created in that day. It ranks those posts by payout and
keeps the top `count` of them. It tallies the posts per contribution type (count, total
payout, average payout) and ranks the types three ways. Finally it lays everything out as
fixed-width Markdown tables and fills a post template with them.

The modules follow the job's stages:

- `Window`: the day window of `runJob`.
- `Paginator`: the per-page step and the chain of page requests of `getTodayBlogs`.
- `Ranker`: the payout-keyed map with suffix disambiguation, and the top-N slice of
  `analyzeData`.
- `Aggregator`: the per-type tally and averages of `analyzeData`.
- `Statistics`: the `metric/type` keys of `statistics`, sorted and split back into pairs.
- `Layout`: the table layout of `prepareBlog`. It covers parity padding, reversal, centre
  and left padding, the two-entries-per-row split, the blog table and its link lines.
- `Template`: the chain of `String.prototype.replace` calls that fills the template.
- `Job`: the whole run and its three endings. The pages can run out while the feed is
  still inside the window. The window can hold no post, in which case only `{count: 0}` is
  logged. Otherwise there is a report.
- `Text` and `Records`: shared string helpers and the post record.

Loops and in-place updates of the source are methods with loops. Each such method is
proved equal to a specification function, or to keep an invariant that one describes. Examples are `ScanPage`, `CollectDay`,
`Disambiguate`, `Store`, `TallyTypes`, `CountPost`, `Center`, `PadRight`, `FormatTypeTable` and `PrepareBody`.
Pure expressions are functions. The library and runtime functions the job calls are
parameters:

- the natural-order sort, as any permutation of its input;
- `parseFloat`;
- number-to-string conversion;
- the rounded money rendering;
- `toISOString`.

Payouts are `real`.

`String.prototype.replace` with a string pattern replaces only the first occurrence. Its
replacement text is also expanded: `$$`, `$&`, `` $` `` and `$'` are special. Both are
modelled (`Text.Replace`, `Text.Substitution`).

## Model

| member | source | states |
|---|---|---|
| `Window.DayStart` | jobs/QueryUtopianTypes.js:39-40 | `today` is a multiple of one day and the instant lies in `[today, today + one day)` |
| `Window.DayStartUnique` | jobs/QueryUtopianTypes.js:39-40 | that day start is the only multiple of a day bracketing the instant |
| `Window.DayWindow` | jobs/QueryUtopianTypes.js:39-41 | `today` is a day start with `today <= now - days_before days < today + one day`, and `yesterday` is one day before `today` |
| `Paginator.ScanPage` | jobs/QueryUtopianTypes.js:65-72 | the page step keeps exactly the window's posts in page order, and `oldest` is the minimum of `now` and the page's creation times |
| `Paginator.InWindowMembers` | jobs/QueryUtopianTypes.js:67-72 | a post is kept if and only if it is on the page and `yesterday <= created < today` |
| `Paginator.InWindowAppend` | jobs/QueryUtopianTypes.js:73 | filtering the concatenation equals concatenating the filtered pages, so page order is kept |
| `Paginator.OldestIsMinimum` | jobs/QueryUtopianTypes.js:65-69 | `oldest` is at most `now`, at most every creation time, and equal to `now` or to one of them |
| `Paginator.CollectDay` | jobs/QueryUtopianTypes.js:57-78 | the blogs are the window's posts of the requested pages in order. `skip` is the number of posts read. Every page but the last asked for more. The loop stops at the first page whose oldest post precedes the window, or when the pages run out |
| `Paginator.NextPage` | jobs/QueryUtopianTypes.js:73 | one more page appends its posts to those read, and its window posts to the blogs |
| `Paginator.EmptyPageRepeats` | jobs/QueryUtopianTypes.js:65-77 | an empty page adds nothing, leaves `skip` unchanged and is requested again whenever `now >= yesterday` |
| `Paginator.LaterPagesOlder` | jobs/QueryUtopianTypes.js:76-78 | on a feed sorted newest first, every post after a page that did not ask for more precedes the window |
| `Paginator.NoneInWindow` | jobs/QueryUtopianTypes.js:67-72 | posts that all precede the window contribute no blog |
| `Paginator.CollectComplete` | jobs/QueryUtopianTypes.js:76-78 | for a feed sorted newest first with no post after `now`, stopping loses nothing: the collected posts are all the window's posts of the feed |
| `Ranker.SuffixInjective` | jobs/QueryUtopianTypes.js:104-106 | distinct probe counts give distinct suffixes (`''`, `2`, `3`, ...) |
| `Ranker.CandidateInjective` | jobs/QueryUtopianTypes.js:105 | distinct probe counts give distinct candidate keys for one payout text |
| `Ranker.CandidatesSize` | jobs/QueryUtopianTypes.js:104-106 | the first `n` candidate keys are `n` distinct strings |
| `Ranker.CandidatesIn` | jobs/QueryUtopianTypes.js:105 | when all the first `n` candidates are taken, they are all keys of the map |
| `Ranker.ProbeBound` | jobs/QueryUtopianTypes.js:104-107 | the probe loop finds a free key after at most as many steps as the map has keys |
| `Ranker.FirstFree` | jobs/QueryUtopianTypes.js:104-107 | the probe ends at the first suffix whose key is not yet taken |
| `Ranker.Assign` | jobs/QueryUtopianTypes.js:102-109 | the map ends with exactly as many keys as there are records, so nothing is overwritten |
| `Ranker.AssignKeys` | jobs/QueryUtopianTypes.js:102-109 | the key list is exactly the map's key set, as `Object.keys` gives it |
| `Ranker.AssignSnoc` | jobs/QueryUtopianTypes.js:103-108 | handling one more record stores it under a key the map did not hold yet, the one the probe picks, appends that key to the list, and keeps every earlier key with its post |
| `Ranker.AssignFacts` | jobs/QueryUtopianTypes.js:102-109 | the keys are pairwise distinct, and each key maps to its own record |
| `Ranker.AssignPrefix` | jobs/QueryUtopianTypes.js:103-109 | the keys of a prefix of the records are the prefix of the keys |
| `Ranker.KeyAt` | jobs/QueryUtopianTypes.js:104-108 | record `i`'s key is its payout text plus the first suffix not taken when it was inserted |
| `Ranker.FirstFreeIs` | jobs/QueryUtopianTypes.js:104-107 | the suffix the probe loop stops at, the first free one after only taken ones, is the specification's first free suffix |
| `Ranker.Store` | jobs/QueryUtopianTypes.js:103-108 | the probe loop stores the post under its payout text plus the first free suffix, and appends that key to the key list |
| `Ranker.Disambiguate` | jobs/QueryUtopianTypes.js:102-109 | the `forEach`/`while` loop builds the same map and key list as the specification |
| `Ranker.Lookup` | jobs/QueryUtopianTypes.js:111-113 | the mapped list has one record per key: the record stored under that key |
| `Ranker.SortedKeysStored` | jobs/QueryUtopianTypes.js:110 | any permutation of the keys has one key per record, each stored in the map |
| `Ranker.SliceFrom` | jobs/QueryUtopianTypes.js:110 | `slice(start)` keeps `n - start` elements for a start in range, none past the end, and the last `-start` (at most all) for a negative start |
| `Ranker.SliceFromTail` | jobs/QueryUtopianTypes.js:110 | whatever the start, the slice is a tail of the list |
| `Ranker.LookupAppend` | jobs/QueryUtopianTypes.js:111-113 | mapping keys to posts distributes over concatenation of key lists |
| `Ranker.LookupPermutation` | jobs/QueryUtopianTypes.js:110-113 | mapping a permutation of the keys gives a permutation of the posts |
| `Ranker.TopBlogsAsWritten` | jobs/QueryUtopianTypes.js:110-113 | the slice as written lists `count` posts for `0 <= count <= n`, none for `count <= 0`, `count - n` for `n < count < 2n`, and all `n` from `2n` on |
| `Ranker.TopBlogsAsWrittenShort` | jobs/QueryUtopianTypes.js:110 | for `n < count < 2n`, the slice as written returns `count - n` posts, fewer than exist (from `count >= 2n` on it returns all `n` again) |
| `Ranker.TopBlogs` | jobs/QueryUtopianTypes.js:110-113 | the corrected top posts (the slice of line 110 for the request capped at `n`) number `count` clamped to `[0, n]` |
| `Ranker.TopBlogsAgree` | jobs/QueryUtopianTypes.js:110 | the corrected and the as-written top posts are equal if and only if `count <= n` or `count >= 2n` |
| `Ranker.TopBlogsDiffer` | jobs/QueryUtopianTypes.js:110 | for `n < count < 2n` the corrected list has `n` posts and the as-written one `count - n` |
| `Ranker.TopBlogsLastKeys` | jobs/QueryUtopianTypes.js:110-113 | for `0 <= count <= n`, exactly `count` posts come back, those under the last `count` sorted keys, each one of the records; the slice as written agrees |
| `Ranker.StoredIsRecord` | jobs/QueryUtopianTypes.js:110-113 | every sorted key is stored in the map and leads to one of the records |
| `Ranker.TopBlogsAll` | jobs/QueryUtopianTypes.js:110-113 | with `count >= n`, the corrected top posts are a permutation of the posts: every post comes back exactly once |
| `Aggregator.FreqPositive` | jobs/QueryUtopianTypes.js:116-124 | a type has a positive count if and only if some post has that type |
| `Aggregator.AmountOfPayout` | jobs/QueryUtopianTypes.js:118 | the amount of a payout `number currency` is `parseFloat` of the number; the currency text plays no part |
| `Aggregator.FreqsPositive` | jobs/QueryUtopianTypes.js:116-124 | every type that occurs has a positive count |
| `Aggregator.FirstAtIsFirst` | jobs/QueryUtopianTypes.js:116-124 | the first position of a type is a post of that type with none before it, and lies in the list exactly when the type occurs |
| `Aggregator.KindsInOrderFirst` | jobs/QueryUtopianTypes.js:116-126 | the key order of the type map lists each occurring type once, ordered by first occurrence, as `Object.keys` gives it |
| `Aggregator.TypeStatsOf` | jobs/QueryUtopianTypes.js:116-129 | the type map holds exactly the occurring types, each with its positive exact count |
| `Aggregator.SumFreqIsCount` | jobs/QueryUtopianTypes.js:116-125 | the counts of the distinct types add up to the number of posts |
| `Aggregator.DistinctSize` | jobs/QueryUtopianTypes.js:126 | the list of types without repeats is as long as the set of types |
| `Aggregator.TallyTypes` | jobs/QueryUtopianTypes.js:116-125 | the tally holds exactly the types that occur. Each type has its exact count and summed payout. The key order is `KindsInOrder`: each type once, in order of first occurrence |
| `Aggregator.CountPost` | jobs/QueryUtopianTypes.js:116-124 | counting one more post keeps the tally exact: its type is listed once, with its count and summed payout over the posts so far |
| `Aggregator.CountKnown` | jobs/QueryUtopianTypes.js:119-121 | for a post of a type already tallied, adding one to its count and its payout to its total, with the key order unchanged, keeps the tally exact for one more post |
| `Aggregator.CountNew` | jobs/QueryUtopianTypes.js:122-123 | for a post of a new type, entering it with count 1 and its payout at the end of the key order keeps the tally exact for one more post |
| `Aggregator.FillAverages` | jobs/QueryUtopianTypes.js:126-129 | every type keeps its count and total and gets `pay_avg == pay_total / freq` |
| `Aggregator.AnalyzeTypes` | jobs/QueryUtopianTypes.js:116-129 | the type analysis is `TypeStatsOf` in `KindsInOrder` order: exact counts, totals and averages, with positive counts that add up to the number of posts |
| `Statistics.EntryOfKey` | jobs/QueryUtopianTypes.js:149-150 | splitting `metric/type` on `/` gives back the metric and the type when neither holds a `/` |
| `Statistics.EntryOfSlashedLabel` | jobs/QueryUtopianTypes.js:149-150 | a type name that holds `/` comes back cut at its first `/` |
| `Statistics.RankedAppend` | jobs/QueryUtopianTypes.js:150 | splitting a concatenation of key lists is the concatenation of the splits |
| `Text.RemoveFirst` | jobs/QueryUtopianTypes.js:149 | taking one shared element out of two permutations leaves permutations |
| `Statistics.RankedRemove` | jobs/QueryUtopianTypes.js:150 | the rows of a key list are the rows without one key plus that key's row, as multisets |
| `Statistics.RankedPermutation` | jobs/QueryUtopianTypes.js:149-156 | splitting permuted key lists gives permuted pair lists |
| `Statistics.RankedKeys` | jobs/QueryUtopianTypes.js:149-150 | when no metric and no type holds `/`, splitting the unsorted keys gives back the (metric, type) pairs |
| `Statistics.RankedRows` | jobs/QueryUtopianTypes.js:149-156 | when no metric and no type holds `/`, whatever order the sort picks, the ranked list holds exactly the (metric, type) pairs, one per type |
| `Statistics.KeysSlashed` | jobs/QueryUtopianTypes.js:149 | every composite key holds the separator |
| `Statistics.PermutedSlashed` | jobs/QueryUtopianTypes.js:149-156 | every key of the sorted list holds the separator, so the split has a second part |
| `Statistics.Statistics` | jobs/QueryUtopianTypes.js:147-156 | `count` and `blogs` pass through, and each ranked list has one row per type |
| `Statistics.StatisticsRows` | jobs/QueryUtopianTypes.js:149-156 | the three lists hold, as multisets, each type with its count, its total and its scaled average |
| `Layout.Center` | jobs/QueryUtopianTypes.js:208-214 | the wrap-in-spaces loop and the overshoot cut compute the centred cell |
| `Layout.CenteredShape` | jobs/QueryUtopianTypes.js:209-214 | a string no wider than `W` gets `(W-len)/2` spaces before it and the rest after it; a wider string loses its first character |
| `Layout.WrapSpaces` | jobs/QueryUtopianTypes.js:209-211 | one more wrap in spaces moves one space to each side of the centred string |
| `Layout.CenteredFits` | jobs/QueryUtopianTypes.js:223-228 | a centred string no wider than `W` has length exactly `W` and contains the original as a substring |
| `Layout.CenteredIdempotent` | jobs/QueryUtopianTypes.js:223-228 | for a string no wider than the width, centring twice equals centring once (a wider one loses a character per pass) |
| `Layout.CenteredTrim` | jobs/QueryUtopianTypes.js:249-254 | trimming a centred string without edge spaces and no wider than the width gives it back |
| `Layout.CenteredFree` | jobs/QueryUtopianTypes.js:258-263 | centring adds no character other than spaces |
| `Layout.PadRight` | jobs/QueryUtopianTypes.js:231-233 | the append-a-space loop computes the left-aligned cell |
| `Layout.PaddedRightSpaces` | jobs/QueryUtopianTypes.js:265-276 | left alignment appends exactly `W - len` spaces when shorter, and none otherwise |
| `Layout.PaddedRightShape` | jobs/QueryUtopianTypes.js:265-276 | the result keeps the string as a prefix, followed only by spaces, with length `max(len, W)` |
| `Layout.PaddedRightTrim` | jobs/QueryUtopianTypes.js:265-276 | dropping trailing spaces gives back a string that ended in no space |
| `Layout.PaddedRightFree` | jobs/QueryUtopianTypes.js:265-276 | left alignment adds no character other than spaces |
| `Layout.LeftAlignedShape` | jobs/QueryUtopianTypes.js:230-233 | a type name cell is `' ' + name` followed only by spaces, of length `max(len+1, W)` |
| `Layout.MarkerIsIndex` | jobs/QueryUtopianTypes.js:248-254 | when the index width fits the digits, the trimmed index is `i+1` in decimal |
| `Layout.MarkerNarrow` | jobs/QueryUtopianTypes.js:252-254 | when the digits are wider than the index width, the marker loses its first digit |
| `Layout.MarkersCollideWhenNarrow` | jobs/QueryUtopianTypes.js:252-254 | with width 1, rows 10 and 20 share the marker `0` |
| `Layout.MarkerBelow` | jobs/QueryUtopianTypes.js:248-254 | when the width fits the largest index, each row's marker is its index in decimal |
| `Layout.MarkersDistinct` | jobs/QueryUtopianTypes.js:248-254 | when the width fits the largest index, all row markers differ |
| `Layout.IndexCellBarFree` | jobs/QueryUtopianTypes.js:208-214 | the index cell holds no `|` |
| `Layout.FormatTypeCell` | jobs/QueryUtopianTypes.js:207-233 | one type entry's index, value and name cells, with payout values read back, scaled for averages and shown in dollars |
| `Layout.CellsOf` | jobs/QueryUtopianTypes.js:206 | there is one cell per entry |
| `Layout.CellsOfAt` | jobs/QueryUtopianTypes.js:206 | cell `i` is entry `i`'s cell at index `i` |
| `Layout.TypeCellsAt` | jobs/QueryUtopianTypes.js:206-233 | cell `i` of a type table is the type cell of entry `i` |
| `Layout.Rows` | jobs/QueryUtopianTypes.js:234-238 | the table has `half` rows |
| `Layout.FormatTypeTable` | jobs/QueryUtopianTypes.js:206-239 | the push / append-at-`i-half` loop builds rows whose row `j` is entry `j`'s cell followed by entry `j+half`'s |
| `Layout.PlaceCell` | jobs/QueryUtopianTypes.js:234-238 | one loop step pushes a new row or extends row `i-half`, and leaves every other row unchanged |
| `Layout.PartialRowsComplete` | jobs/QueryUtopianTypes.js:234-239 | after the last entry the rows are the finished table |
| `Layout.TypeTable` | jobs/QueryUtopianTypes.js:180-190 | a list of `n` entries gives `ceil(n/2)` rows |
| `Layout.EvenedShape` | jobs/QueryUtopianTypes.js:180-187 | after padding the list has even length; an odd list gets the `['','']` placeholder in front, and an even one is unchanged |
| `Layout.EvenedRow` | jobs/QueryUtopianTypes.js:204-238 | row `j` holds the padded entries `2h-1-j` and `h-1-j` (reversed positions `j` and `j+h`) with indexes `j+1` and `j+h+1` |
| `Layout.TypeTableRow` | jobs/QueryUtopianTypes.js:204-238 | the same for the type cells of each table |
| `Layout.PlaceholderLast` | jobs/QueryUtopianTypes.js:180-238 | with an odd number of types, the placeholder lands as the second cell of the last row |
| `Layout.TypeCellBars` | jobs/QueryUtopianTypes.js:235-237 | a type cell holds exactly three `|` when its value and name hold none |
| `Layout.TypeRowBars` | jobs/QueryUtopianTypes.js:235-237 | when no type name, count or payout text and no money rendering holds `|`, every type-table row holds exactly seven `|`, a well-formed six-column Markdown row |
| `Layout.CellBars` | jobs/QueryUtopianTypes.js:235-237 | under the same bar-free condition, each laid-out cell of the padded, reversed list holds three `|` |
| `Layout.EvenedBarFree` | jobs/QueryUtopianTypes.js:185 | the placeholder adds no `|` |
| `Layout.ValueTextBarFree` | jobs/QueryUtopianTypes.js:216-222 | the value text holds no `|` when the value and the money rendering hold none |
| `Layout.ValueText` | jobs/QueryUtopianTypes.js:216-222 | counts and the blank placeholder are shown as they are; a payout value is shown as a dollar amount |
| `Layout.FormatBlogRow` | jobs/QueryUtopianTypes.js:247-281 | one blog's row (index, payout in dollars, type, author, escaped title, link label) and its link line |
| `Layout.BlogRow` | jobs/QueryUtopianTypes.js:277-279 | a blog row opens with the indent bar and the row's centred index cell |
| `Layout.UrlLine` | jobs/QueryUtopianTypes.js:280-281 | a link line ends with the post's own path |
| `Layout.FormatBlogTable` | jobs/QueryUtopianTypes.js:246-282 | one row and one link line per blog, in order |
| `Layout.BlogRowBars` | jobs/QueryUtopianTypes.js:273-279 | when type, author and money rendering hold no `|`, a blog row holds exactly six `|` after escaping, whatever the title holds |
| `Layout.DropLeadingSub` | jobs/QueryUtopianTypes.js:279 | dropping leading spaces keeps only characters of the original |
| `Layout.DropTrailingSub` | jobs/QueryUtopianTypes.js:279 | dropping trailing spaces keeps only characters of the original |
| `Layout.MarkerBarFree` | jobs/QueryUtopianTypes.js:279-280 | the trimmed index holds no `|` |
| `Layout.RowLabel` | jobs/QueryUtopianTypes.js:277-281 | a blog row ends with `[marker]|`, and its link line starts with `[marker]` for the same marker |
| `Layout.BlogLinks` | jobs/QueryUtopianTypes.js:246-281 | when the width fits the digits, row `i` ends with `[i+1]|`, its link line starts with `[i+1]`, and no other row uses that marker |
| `Layout.PrepareBody` | jobs/QueryUtopianTypes.js:180-282 | the three type tables are the type-table layout of the ranked lists. The blog table lists the top blogs last first, one row and one link line each |
| `Template.Values` | jobs/QueryUtopianTypes.js:298-307 | there are ten values, one per marker; `$COUNT` is the decimal post count, `$LIMIT` the configured count, and each table is its rows joined with newlines |
| `Template.Fill` | jobs/QueryUtopianTypes.js:298-307 | the replacement chain adds no character that is neither in the text nor in one of the values |
| `Template.FillTemplate` | jobs/QueryUtopianTypes.js:297-307 | the published text holds only characters of the template, the ISO times, the two numbers and the five tables |
| `Template.InertAppend` | jobs/QueryUtopianTypes.js:298-307 | text that can hold neither a marker nor a special pattern stays so when concatenated |
| `Template.InertPlain` | jobs/QueryUtopianTypes.js:298-307 | such text is a plain replacement |
| `Template.NoEarlyMarker` | jobs/QueryUtopianTypes.js:298-307 | no marker occurrence starts inside inert text |
| `Template.ReplaceStep` | jobs/QueryUtopianTypes.js:298 | one `.replace` puts an inert value exactly where the marker after inert text stood |
| `Template.FillFirst` | jobs/QueryUtopianTypes.js:298-299 | after the first replacement, the rest of the chain continues on the text with the first value in place |
| `Template.FillInOrder` | jobs/QueryUtopianTypes.js:298-307 | when each marker occurs once, in replacement order, with inert text and values, filling puts each value where its marker stood |
| `Template.FillNoMarkers` | jobs/QueryUtopianTypes.js:298-307 | a template without `$` is published unchanged |
| `Template.MarkersLike` | jobs/QueryUtopianTypes.js:298-307 | every marker of the job is `$` followed by a letter |
| `Template.CleanPiece` | jobs/QueryUtopianTypes.js:298-307 | no occurrence of a marker starts inside inert text or inside another marker that neither starts it nor starts with it |
| `Template.ReplaceSlot` | jobs/QueryUtopianTypes.js:298-307 | one `.replace` of a marker that stands in one slot, with every other slot clean for it, changes that slot only, to the value |
| `Template.FillAnyOrder` | jobs/QueryUtopianTypes.js:298-307 | for prefix-free markers placed in the template in any order, with inert text and values, the replace chain puts every value in its own marker's slot |
| `Template.MarkersPrefixFree` | jobs/QueryUtopianTypes.js:298-307 | no marker of the job is a prefix of another, and each holds `$` only in front |
| `Template.TemplateFilled` | jobs/QueryUtopianTypes.js:297-307 | when the template's own text and all ten values are inert (every `$` followed, inside the same text, by a character that is no letter and none of `$`, `&`, `'` and the backquote), the job's template, with its ten markers in any order, becomes its own text with each marker's value in that marker's place |
| `Template.MarkerCaptured` | jobs/QueryUtopianTypes.js:298-307 | a value holding a later marker captures that later replacement, and the template's own marker stays |
| `Job.Title` | jobs/QueryUtopianTypes.js:285-288 | the title is the configured prefix followed by the date part of the ISO time: a prefix of that time holding no `T` that ends where the time ends or at its first `T` |
| `Job.StatsOf` | jobs/QueryUtopianTypes.js:98-156 | the statistics keep the post count and the corrected top posts, and hold one row per occurring type in each ranked list |
| `Job.Analyze` | jobs/QueryUtopianTypes.js:98-307 | the report gives the number of posts, the title and the filled template. Its three type tables are the type-table layout of the ranked lists built from the exact tally in first-occurrence order, one row per two types. The blog table lists, last first, the posts stored under the last `count` keys of the host's sort of the payout keys (the corrected top posts); that this order is by payout rests on the sort, which is left out |
| `Job.RunJob` | jobs/QueryUtopianTypes.js:38-307 | the run ends unfinished exactly when every page asks for another. It ends with no posts exactly when the window holds none. Otherwise it reports on the collected posts |
| `Text.Decimal` | jobs/QueryUtopianTypes.js:208 | `(i + 1) + ''` is a non-empty string of digits, of one digit exactly below ten |
| `Text.DecimalInjective` | jobs/QueryUtopianTypes.js:208 | distinct numbers render differently |
| `Text.DecimalLengthMonotone` | jobs/QueryUtopianTypes.js:248 | a larger number never has fewer digits |
| `Text.ReversedAt` | jobs/QueryUtopianTypes.js:205 | `reverse` puts element `k` at position `n-1-k` and keeps the length |
| `Text.FindFrom` | jobs/QueryUtopianTypes.js:298 | the search finds the least position of the pattern, or says there is none |
| `Text.Substitution` | jobs/QueryUtopianTypes.js:298-307 | what a replacement string stands for draws only on it, the matched text and the text around the match; one without `$` stands for itself |
| `Text.Replace` | jobs/QueryUtopianTypes.js:298 | `.replace` adds no character that is neither in the string nor in the replacement |
| `Text.SubstitutionPlain` | jobs/QueryUtopianTypes.js:298-307 | a replacement string without special patterns inserts itself |
| `Text.SubstitutionMatched` | jobs/QueryUtopianTypes.js:298-307 | `$&` in a replacement inserts the matched marker |
| `Text.ReplaceAbsent` | jobs/QueryUtopianTypes.js:298 | a string without the pattern is unchanged |
| `Text.ReplaceAt` | jobs/QueryUtopianTypes.js:298 | only the first occurrence of the pattern is replaced; later ones stay |
| `Text.EscapeBars` | jobs/QueryUtopianTypes.js:273 | the escaped title holds no `|`, is unchanged without `|`, and grows by five characters per `|` |
| `Text.Split` | jobs/QueryUtopianTypes.js:118 | `split` gives one more piece than there are separators, and no piece holds the separator |
| `Text.SplitFirst` | jobs/QueryUtopianTypes.js:118 | the first piece of `split(' ')` is the text before the first space |
| `Text.SplitHead` | jobs/QueryUtopianTypes.js:287 | the first piece of a split starts the string and stops at its first separator, if it has one |
| `Text.JoinSplit` | jobs/QueryUtopianTypes.js:150 | joining the pieces of a split gives back the string |
| `Text.SplitJoin` | jobs/QueryUtopianTypes.js:150 | splitting a join of separator-free pieces gives back the pieces |
| `Text.TrimPadded` | jobs/QueryUtopianTypes.js:279 | `trim` of a space-padded string without edge spaces gives back the string |

## Left out

- Reading the settings file and the template, and merging the parent options: file I/O. The options and the template text are parameters (`Job.Options`).
- The HTTP request, its status check and `JSON.parse`: network I/O. The successive page bodies are a parameter. When they run out while the feed is still inside the window, the run ends as `Unfinished`, where the job would request further pages. An empty page in that state would be requested forever.
- Parsing the feed's `created` timestamp: posts carry it as milliseconds.
- `steem.broadcast.comment` and the MongoDB logging: foreign calls and database I/O. The run returns what would be published or logged.
- The clock: `new Date()` is the parameter `now`. The source reads the clock again for each page's `oldest` and for `strNow`. The model takes one instant for the window and for every page, and the ISO time `nowIso` separately. `toISOString` is a parameter.
- The internals of `alphanum-sort`: the sort is any permutation of its input.
- Floating point: `parseFloat`, the `10000 *` scaling as text, the money rounding and number-to-string conversion are function parameters over `real`.
- `Object.keys` ordering: keys are listed in insertion order. JavaScript lists integer-like keys first, which a payout with currency text or a type name never is in the feed.
- `k in map` (line 105) and `k in results.types` (line 119) also find properties inherited from `Object.prototype`, such as a payout text or a type named `constructor` or `toString`: the model's maps hold only what was stored.
- The `type_pay_blog` list built by `statistics` (lines 158-165) is not modelled: nothing reads it.
- `trim` removes only spaces in the model. Every string it is applied to holds only spaces as blanks.
- In-place mutation of the posts' `type`, `author` and `title` fields while the blog table is formatted: the padded values are computed and used directly. Nothing reads the fields afterwards.
- `unshift` and `reverse` on the statistics arrays: modelled as reassigning sequences.
- Thrown errors and the callback chaining: the run returns its outcome instead.
- `Job.Analyze`: the report lists the corrected top posts (`Ranker.TopBlogs`, the request capped at the number of posts), not the slice as written at line 110. The two agree except when `n < count < 2n` (`Ranker.TopBlogsAgree`); see Findings.
- `Job.RunJob`: reports through `Job.Analyze`, so its report lists the corrected top posts too.
- `Job.StatsOf`: keeps the corrected top posts (`Ranker.TopBlogs`), as `Job.Analyze` does.
- `Template.TemplateFilled`: the fill is proved only for inert template text and inert values. A value with a `$` before a letter or at its very end (a title such as "Earn $STEEM" or "costs 5$") is filled correctly by the source, but lies outside the lemma, because such a `$` could start a later marker together with the text after it.
- `Layout.Centered`: lengths count Unicode characters, while JavaScript's `length` counts UTF-16 code units. A string with a character outside the Basic Multilingual Plane is one unit longer per such character in the source, so the model pads it with more spaces than the source does.
- `Layout.Center`: counts lengths as `Layout.Centered` does.
- `Layout.PaddedRight`: counts lengths as `Layout.Centered` does.
- `Layout.PadRight`: counts lengths as `Layout.Centered` does.
- `Layout.FormatTypeCell`: pads its cells as `Layout.Centered` and `Layout.PaddedRight` do.
- `Layout.FormatBlogRow`: pads its cells as `Layout.Centered` and `Layout.PaddedRight` do.
- `Statistics.Statistics`: states only the shape of the lists. Their contents are stated by `Statistics.StatisticsRows`, under the extra hypothesis that no type name and no rendered number holds `/`.

## Findings

| source | as written | input that shows it | evidently intended | confidence | as-written member | corrected member |
|---|---|---|---|---|---|---|
| jobs/QueryUtopianTypes.js:110 | `slice(records.length - options.count)` with more requested than posts gives a negative start, which `slice` counts from the end | 3 posts and `count` 4: start -1, so 1 post is listed instead of 3 | list every post when fewer than `count` exist (the request capped at the number of posts, so the start is never negative) | not executed | `Ranker.TopBlogsAsWrittenShort` | `Ranker.TopBlogsAll` |
