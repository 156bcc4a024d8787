# TheTVDB auto-linking in the weeb.vip admin panel

The admin panel links each anime of the internal catalog to a TheTVDB series
and season. This project models the core of that pipeline in Dafny and proves
properties of the model.

- **`findSameEntity`** (`src/services/autolink.ts`) fetches the anime. It builds
  up to five search queries from its English, romaji and Japanese titles: the
  original title, and a "cleaned" one with `season`, `sN` and digit runs removed.
  It searches TheTVDB with each query in turn. For every hit with an id it folds
  the series' episodes into per-season air-date intervals. It returns the first
  hit and season whose first air day, formatted `yyyy-MM-dd`, equals the anime's
  start day.
- **The seasonal-linking page** (`src/views/seasonal-linking/index.tsx`) keeps one
  result entry per anime.
  - Entries start as pending or already linked, according to the saved links.
  - One anime at a time goes to `linking` and then settles as `success` or `failed`.
  - A batch runs over every anime that is not yet linked. It can be stopped, and it
    keeps progress figures: counts, the last five processing times, and the ETA and
    elapsed-time read-outs.
  - Successful links are saved one by one, or all together.
- **The sortable table** (`src/components/SortableTable/index.tsx`) cycles its sort state on
  header clicks. It derives the rows it shows from a search, custom filters and
  column filters, followed by an optional sort.
- **`getSafeImageUrl`** (`src/services/image-utils.ts`) builds the CDN URL of an image,
  percent-encoding its name twice.

| file | module | what it holds |
|---|---|---|
| `js_base.dfy` | `JsBase` | `Option`, `Completion` (normal or thrown), JavaScript truthiness of optional strings, `||` |
| `js_strings.dfy` | `JsStrings` | `trim`, ASCII `toLowerCase`, `includes`, decimal `toString`/`parseInt`, `padStart` |
| `dates.dfy` | `Dates` | days and `Invalid Date`, `<` on dates, date-fns `format(_, 'yyyy-MM-dd')` |
| `catalog.dfy` | `Catalog` | the records read from the two catalogs and the external services, as functions |
| `title_variants.dfy` | `TitleVariants` | the title-cleaning regular expression, and the ordered list of search variants |
| `season_table.dfy` | `SeasonTable` | `getSeasonsAndStartDates`: the fold of episodes into season intervals |
| `entity_resolver.dfy` | `EntityResolver` | `findSameEntity` as a method, against a reference definition with a call log |
| `linking_format.dfy` | `LinkingFormat` | the season dropdown, the clock read-outs, the ETA, and the failure texts |
| `seasonal_linking.dfy` | `SeasonalLinking` | the page state as a class: initialise, link one, link all, save one, save all |
| `sortable_table.dfy` | `SortableTable` | the table state as a class: the sort click, the setters, and the filter/sort pipeline |
| `image_utils.dfy` | `ImageUtils` | `encodeURIComponent`, `escapeUri`, `getSafeImageUrl`, and percent-decoding |

The external calls are parameters, bundled in `Catalog.Services`:
- the three GraphQL queries: `getAnimeById`, `searchTheTVDB` and `getEpisodesFromTheTvdb`;
- the date-fns parsers `parse(_, 'yyyy-MM-dd', new Date())` and `parseISO`, and `new Date(text)`.

Each is a function from its argument to how the awaited call completes. The save
mutation is a function from the request to its completion. The clock is a
function from the step number to `Date.now()`. The stop button is the index of
the first step at which the flag is seen set.

The model follows these behaviours of the code:
- A cleaned title variant is emitted whenever the cleaned text differs from the
  title, even when it is empty. A title such as `2024` yields the query `""`
  (`TitleVariants.AllDigitCanonical`).
- Episodes whose air date parses to an invalid date are not dropped. When the first
  dated episode of a season parses as invalid, both ends of that season stay
  invalid (`SeasonTable.InvalidFirstDaySticks`). Formatting them then throws, which
  rejects the whole resolution.
- Seasons are compared in ascending numeric order of their keys, which is the
  order `for … in` visits integer-like keys. Season numbers are modelled as
  naturals (see "## Left out").
- The `processed > 0` guard in the batch's progress update always holds, because
  `processed` is incremented first. So the first item's time is counted, measured
  from the start of the batch, although the comment there says it is skipped.
- The single-anime pre-check looks at the English and Japanese titles only, not at
  the romaji one.

## Model

| member | source | states |
|---|---|---|
| `JsStrings.TrimSpec` | src/services/autolink.ts:27 | `trim` cuts exactly the leading and trailing whitespace runs: the result is the slice between them, has no whitespace at either end, and is empty exactly when the input is all whitespace |
| `JsStrings.PaddedNumberReadsBack` | src/views/seasonal-linking/index.tsx:815 | a number padded with `'0'` is a digit string that reads back as the number |
| `Dates.FormatYmd` | src/services/autolink.ts:101-102 | `format` throws `Invalid time value` exactly for an invalid date |
| `Dates.FormatYmdText` | src/services/autolink.ts:101-102 | a day formats as its year of the era (the year 0 is written `0001`) padded to 4 digits, `-`, a 2-digit month, `-`, a 2-digit day, zero-padded; at least 10 characters |
| `Dates.FormatYmdInjective` | src/services/autolink.ts:101-105 | two calendar days of the common era format to the same text exactly when they are the same day |
| `Dates.FormatFields` | src/services/autolink.ts:101 | the three `-`-separated fields of the text are the padded year of the era, month and day |
| `Dates.YearZeroFormatsAsOne` | src/services/autolink.ts:101-102 | a day of the year 0 and the same day of the year 1 are different days with the same text |
| `Dates.BeforeIsStrictTotalOrder` | src/services/autolink.ts:154-155 | `<` on valid dates is irreflexive, transitive and total |
| `Dates.InvalidNeverCompares` | src/services/autolink.ts:154-155 | an invalid date is neither `<` nor `>` any date |
| `TitleVariants.CleanTitle` | src/services/autolink.ts:27 | the cleaned title holds no digit, and starts and ends with a non-whitespace character |
| `TitleVariants.StripMarkersKeeps` | src/services/autolink.ts:27 | characters at which no `season`, `s<digits>` or digit-run match starts are kept, in order, in front of what the rest strips to |
| `TitleVariants.StripMarkersDrops` | src/services/autolink.ts:27 | a match at the front is deleted and the scan resumes right after it |
| `TitleVariants.StripMarkersNoMatch` | src/services/autolink.ts:27 | text in which no match starts is left unchanged by the replace |
| `TitleVariants.CleanTitleNoMatch` | src/services/autolink.ts:27 | such text is only trimmed by the cleaning |
| `TitleVariants.CleanSeasonTitle` | src/services/autolink.ts:27 | a name without digits or `s`, trimmed at both ends, followed by ` Season ` and a number, cleans to the name |
| `TitleVariants.CleanTitleExample` | src/services/autolink.ts:27 | `"Attack on Titan Season 2"` cleans to `"Attack on Titan"` |
| `TitleVariants.BuildSearchVariants` | src/services/autolink.ts:17-61 | the pushes produce the canonical variant list, in preference order |
| `TitleVariants.VariantsForIsCanonical` | src/services/autolink.ts:17-61 | any list that meets the emission rules, in rank order, is the canonical one |
| `TitleVariants.CanonicalVariantsFor` | src/services/autolink.ts:17-61 | the canonical list meets the emission rules: each variant is emitted exactly when its condition holds, in rank order |
| `TitleVariants.AtMostFiveVariants` | src/services/autolink.ts:17-61 | at most five variants are tried |
| `TitleVariants.AllDigitCanonical` | src/services/autolink.ts:21-34 | the English title `2024` yields the variants `2024` and a cleaned one with the empty query |
| `TitleVariants.AllDigitTitleGivesEmptyQuery` | src/services/autolink.ts:21-34 | the same, for every list that meets the emission rules |
| `SeasonTable.Step` | src/services/autolink.ts:144-160 | one `reduce` step adds the episode's season exactly when its air date is truthy |
| `SeasonTable.GetSeasonsAndStartDates` | src/services/autolink.ts:131-164 | the loop over the episodes yields the fold's table; missing episodes give `{}`; a thrown query propagates |
| `SeasonTable.FoldKeys` | src/services/autolink.ts:144-160 | a season is in the table exactly when some episode of it has an air date |
| `SeasonTable.FoldBounds` | src/services/autolink.ts:148-156 | when all of a season's dates parse, `start` and `end` are the earliest and latest of them and bound every one |
| `SeasonTable.InvalidFirstDaySticks` | src/services/autolink.ts:150-156 | a season whose first dated episode parses as invalid ends with an invalid `start` and `end` |
| `EntityResolver.SameDayIsEquality` | src/services/autolink.ts:101-105 | `seasonStart === animeStart` never holds with an invalid date; on calendar days of the common era it means the same day; a day of the year 0 matches the same day of the year 1 |
| `EntityResolver.MatchSeason` | src/services/autolink.ts:94-109 | the loop over the seasons returns what the reference check returns |
| `EntityResolver.CheckSeasonsFound` | src/services/autolink.ts:94-109 | a returned key starts on the anime's day, and no smaller key does |
| `EntityResolver.CheckSeasonsNone` | src/services/autolink.ts:94-109 | no key was returned, so no season starts on the anime's day |
| `EntityResolver.SkippedSearch` | src/services/autolink.ts:79-82 | a search returning `null` or `[]` only logs its call, and moves on to the next variant |
| `EntityResolver.TryCandidatesFound` | src/services/autolink.ts:85-122 | a hit is at some candidate with an id and its season; no earlier candidate and no smaller season of it is one |
| `EntityResolver.TryCandidatesNone` | src/services/autolink.ts:85-122 | when the walk finds nothing, no candidate has a matching season |
| `EntityResolver.TryCandidatesNoneFetches` | src/services/autolink.ts:85-91 | when the walk finds nothing, the episodes of every candidate with an id were fetched |
| `EntityResolver.TryVariantsFound` | src/services/autolink.ts:66-123 | the match is the first hit in (variant, candidate, season) order, and carries that variant's label, query and title |
| `EntityResolver.TryVariantsNone` | src/services/autolink.ts:66-127 | with no match, no variant has a hit, every query was searched, and every candidate with an id was fetched |
| `EntityResolver.FindSameEntity` | src/services/autolink.ts:4-129 | the method returns the reference resolution's result, and issues its calls in the same order |
| `EntityResolver.ResolveFound` | src/services/autolink.ts:4-121 | a match comes from a fetched anime and is the first hit over its canonical variants |
| `EntityResolver.ResolveNone` | src/services/autolink.ts:4-127 | `null` means no variant's results hold a hit, after every search and every episode fetch was made |
| `EntityResolver.ResolveCalls` | src/services/autolink.ts:4-91 | the first call fetches the anime, and every episode fetch is for an id |
| `EntityResolver.ResolveEndsAtMatch` | src/services/autolink.ts:65-121 | after a match no call is made: the log ends with the search that found it and episode fetches only, the last for the matched candidate |
| `LinkingFormat.CurrentSeasonByQuarter` | src/views/seasonal-linking/index.tsx:45-46 | the current season is the month's quarter in winter, spring, summer, fall order |
| `LinkingFormat.GenerateSeasonOptions` | src/views/seasonal-linking/index.tsx:268-279 | the nested loops with the early return produce the reference option list |
| `LinkingFormat.SeasonOptionsShape` | src/views/seasonal-linking/index.tsx:268-279 | at most 50 options; option i is season i mod 4 of a year from 2000 to next year |
| `LinkingFormat.SeasonOptionsOrder` | src/views/seasonal-linking/index.tsx:272-277 | years never increase down the list; within a year the seasons run winter to fall |
| `LinkingFormat.DefaultSelectionOffered` | src/views/seasonal-linking/index.tsx:44-48 | the initial selection `SEASON_YEAR` is one of the dropdown options |
| `LinkingFormat.ClockReadsBack` | src/views/seasonal-linking/index.tsx:813-815 | the `m:ss` text reads back as the minutes and the two-digit seconds |
| `LinkingFormat.ElapsedIsClock` | src/views/seasonal-linking/index.tsx:811-816 | a non-negative elapsed time shows whole minutes and the remaining seconds |
| `LinkingFormat.ElapsedBeforeStart` | src/views/seasonal-linking/index.tsx:811-815 | a negative elapsed time shows a leading `-` |
| `LinkingFormat.JsRem` | src/views/seasonal-linking/index.tsx:814 | `%` truncates: the remainder has the dividend's sign and is below the divisor |
| `LinkingFormat.RoundDivNearest` | src/views/seasonal-linking/index.tsx:844 | `Math.round` of a quotient is within half of it |
| `LinkingFormat.EtaNeedsProgress` | src/views/seasonal-linking/index.tsx:824-832 | before two items the ETA is `Calculating...`; with nothing remaining it is `0:00` |
| `LinkingFormat.EtaIsNearest` | src/views/seasonal-linking/index.tsx:839-844 | the ETA seconds are remaining × mean time / 1000, rounded to nearest |
| `LinkingFormat.EtaIsClock` | src/views/seasonal-linking/index.tsx:839-852 | a positive ETA up to two hours shows as `ETA: m:ss` of those seconds |
| `LinkingFormat.ClassifyCases` | src/views/seasonal-linking/index.tsx:436-448 | the first matching keyword group picks the error text; no keyword keeps `Error: message` |
| `LinkingFormat.NoMatchMessage` | src/views/seasonal-linking/index.tsx:420-432 | the failure text throws exactly when the start date is set but `new Date` makes it invalid |
| `SeasonalLinking.ParseSeasonKey` | src/views/seasonal-linking/index.tsx:415 | `parseInt(key, 10)` reads a season key back as its number |
| `SeasonalLinking.FindLink` | src/views/seasonal-linking/index.tsx:337-339 | the result is the first link in the list with that anime id; none is found exactly when no link has it |
| `SeasonalLinking.EnglishTranslationFirst` | src/views/seasonal-linking/index.tsx:413 | `find` yields the value of the first translation keyed `eng` |
| `SeasonalLinking.EnglishTranslationNone` | src/views/seasonal-linking/index.tsx:413 | without a translation keyed `eng` it yields `undefined` |
| `SeasonalLinking.TvdbTitleFirstEnglish` | src/views/seasonal-linking/index.tsx:413 | the title shown is the first `eng` translation's value when that is a non-empty string, the candidate's title otherwise |
| `SeasonalLinking.TvdbTitleNoEnglish` | src/views/seasonal-linking/index.tsx:413 | without translations or an `eng` one, the candidate's title is shown |
| `SeasonalLinking.InitialResultsKeys` | src/views/seasonal-linking/index.tsx:335-360 | new entries are made exactly for listed anime without an entry, each from that anime |
| `SeasonalLinking.InitialisationSpec` | src/views/seasonal-linking/index.tsx:326-363 | existing entries are kept; every listed anime gets one; a new one is `already_linked` exactly when a saved link names it, with the TheTVDB id and season of the first such link, else `pending` |
| `SeasonalLinking.LinkingPage.InitResults` | src/views/seasonal-linking/index.tsx:326-363 | the new results are the initialised map; nothing else changes |
| `SeasonalLinking.PrecheckSkipsSearch` | src/views/seasonal-linking/index.tsx:375-399 | without a title or a start date the outcome is `failed` with that reason, whatever the search would give |
| `SeasonalLinking.OutcomeStatus` | src/views/seasonal-linking/index.tsx:366-461 | an attempt settles as `success` or `failed`, keeps id and title, and succeeds exactly when the pre-checks pass and a match is found |
| `SeasonalLinking.AttemptOutcomeSpec` | src/views/seasonal-linking/index.tsx:401-418 | a success records a hit's id, image and season, and that season starts on the anime's day |
| `SeasonalLinking.LinkingPage.AttemptAutoLink` | src/views/seasonal-linking/index.tsx:366-461 | the anime's entry becomes its outcome; the processing id is cleared; nothing else changes |
| `SeasonalLinking.PendingAnime` | src/views/seasonal-linking/index.tsx:470-473 | the pending list is exactly the listed anime whose status is neither `success` nor `already_linked` |
| `SeasonalLinking.StartProgress` | src/views/seasonal-linking/index.tsx:476-488 | the initial progress has processed + remaining = total and an empty time window |
| `SeasonalLinking.AttemptAllSpec` | src/views/seasonal-linking/index.tsx:494-552 | after the batch, every attempted anime has a `success` or `failed` entry |
| `SeasonalLinking.AttemptAllKeepsOthers` | src/views/seasonal-linking/index.tsx:494-552 | anime not attempted keep their entry, or still have none |
| `SeasonalLinking.WindowPush` | src/views/seasonal-linking/index.tsx:533-535 | `[...times, t].slice(-5)` keeps at most five positive times, ends with `t` and keeps the newest of the old ones |
| `SeasonalLinking.RecordSpec` | src/views/seasonal-linking/index.tsx:526-546 | a progress update keeps the window valid, total and start time, sets processed + remaining = total, and pushes only a positive time |
| `SeasonalLinking.LinkingPage.LinkNext` | src/views/seasonal-linking/index.tsx:500-549 | one batch step links the anime and records progress with the current counts |
| `SeasonalLinking.LinkingPage.AutoLinkAll` | src/views/seasonal-linking/index.tsx:464-557 | the pending anime before the stop point are attempted in order; progress is cleared; the flag is reset |
| `SeasonalLinking.RequestFor` | src/views/seasonal-linking/index.tsx:562-565 | a save request has a non-empty TheTVDB id and a non-zero season |
| `SeasonalLinking.LinkingPage.SaveLink` | src/views/seasonal-linking/index.tsx:560-582 | nothing is saved without an entry, a TheTVDB id or a season; otherwise the request is sent and the entry's message reports the result |
| `SeasonalLinking.Saveable` | src/views/seasonal-linking/index.tsx:586-594 | the saved set is exactly the `success` entries with a TheTVDB id and a season |
| `SeasonalLinking.AfterSavesKeepsStatus` | src/views/seasonal-linking/index.tsx:593-616 | saving changes only messages: keys and statuses stay, and unsaved entries are untouched |
| `SeasonalLinking.SaveEach` | src/views/seasonal-linking/index.tsx:590-616 | the loop leaves the reference map; saved counts the saves that completed; saved + failed covers every saveable entry |
| `SeasonalLinking.LinkingPage.SaveAllSuccesses` | src/views/seasonal-linking/index.tsx:585-624 | without successes nothing happens; otherwise every saveable entry is saved and the summary counts them |
| `SeasonalLinking.LinkingPage.constructor` | src/views/seasonal-linking/index.tsx:49-52 | the page starts with no results, no progress, no current id and no batch |
| `SortableTable.FindColumn` | src/components/SortableTable/index.tsx:74 | `columns.find` gives the first column with the key, or none exactly when no column has it |
| `SortableTable.NextSortSpec` | src/components/SortableTable/index.tsx:73-91 | an unknown or unsortable column changes nothing; a new column sorts ascending; the current one goes asc → desc → none, and leaving desc clears the key |
| `SortableTable.NextSortCycle` | src/components/SortableTable/index.tsx:77-89 | repeated clicks on a sortable column cycle through exactly three states with period three |
| `SortableTable.Table.HandleSort` | src/components/SortableTable/index.tsx:73-91 | the sort state becomes the next sort state; the filters and the query do not change |
| `SortableTable.Table.constructor` | src/components/SortableTable/index.tsx:53-57 | the initial sort key is the given key unless empty; the initial direction is the given one; there is no query and there are no filters |
| `SortableTable.Table.SetSearchQuery` | src/components/SortableTable/index.tsx:220 | the query becomes the input text; nothing else changes |
| `SortableTable.Table.HandleFilterChange` | src/components/SortableTable/index.tsx:93-98 | one filter value is set; nothing else changes |
| `SortableTable.Table.HandleColumnFilterChange` | src/components/SortableTable/index.tsx:100-105 | one column filter is set; nothing else changes |
| `SortableTable.SearchStage` | src/components/SortableTable/index.tsx:110-125 | the search keeps the items it matches only when enabled with a non-blank query, and keeps all items otherwise |
| `SortableTable.FilterStep` | src/components/SortableTable/index.tsx:128-147 | filtering with a callback that agrees with a custom filter adds that filter to the stages passed |
| `SortableTable.FilterNoOp` | src/components/SortableTable/index.tsx:130-137 | a custom filter without a value, with `''`, or with an empty multiselect drops nothing |
| `SortableTable.ColumnStep` | src/components/SortableTable/index.tsx:150-167 | filtering with a callback that agrees with a column filter adds that filter to the stages passed |
| `SortableTable.ColumnNoOp` | src/components/SortableTable/index.tsx:151-152 | an unfilterable column, or a column filter without a value or with `''`, drops nothing |
| `SortableTable.PassingElements` | src/components/SortableTable/index.tsx:107-167 | the filtered rows occur in the data, each no more often |
| `SortableTable.PassingMembers` | src/components/SortableTable/index.tsx:107-167 | a row is kept exactly when it is in the data and passes every stage |
| `SortableTable.SortByElements` | src/components/SortableTable/index.tsx:173 | sorting is a permutation |
| `SortableTable.SortByAscending` | src/components/SortableTable/index.tsx:173 | with a consistent comparator the sorted rows are in ascending order |
| `SortableTable.SortByStable` | src/components/SortableTable/index.tsx:173 | the sort is stable: rows tied with one another keep their input order |
| `SortableTable.ReverseDescending` | src/components/SortableTable/index.tsx:175 | reversing ascending rows makes them descending |
| `SortableTable.ArrangeSpec` | src/components/SortableTable/index.tsx:169-178 | sorting keeps the rows and their counts; without a sort key, direction or `sortFn` the order is kept; `desc` is the reverse of the ascending sort |
| `SortableTable.ArrangeOrder` | src/components/SortableTable/index.tsx:169-178 | with a consistent comparator the rows come out ascending for `asc` and descending for `desc` |
| `SortableTable.Table.FilteredAndSortedData` | src/components/SortableTable/index.tsx:107-181 | the memo yields the passing rows, in data order, then arranged; the data array is not modified |
| `SortableTable.FilteredAndSortedSpec` | src/components/SortableTable/index.tsx:107-181 | the output holds only rows of the data, no more often, and is no longer than it; a row is in it exactly when it passes every stage |
| `ImageUtils.PercentEncode` | src/services/image-utils.ts:18 | an octet encodes as `%` and two upper-case hex digits |
| `ImageUtils.Utf8` | src/services/image-utils.ts:18 | a code point encodes as one to four octets, and an ASCII one as itself |
| `ImageUtils.EscapeExtraIsPercent` | src/services/image-utils.ts:19-21 | `'%' + code.toString(16).toUpperCase()` on `!'()*` is their percent-encoding |
| `ImageUtils.EscapeUriCharwise` | src/services/image-utils.ts:17-22 | `escapeUri` escapes character by character: unreserved ones stay and the others are percent-encoded |
| `ImageUtils.EscapeUriEncoded` | src/services/image-utils.ts:17-22 | the output is unreserved characters and upper-case `%XX` triplets only, and has no `!'()*` |
| `ImageUtils.DecodeEscapeUri` | src/services/image-utils.ts:17-22 | percent-decoding the output of `escapeUri` gives back its ASCII input |
| `ImageUtils.EncodeEncoded` | src/services/image-utils.ts:14 | `encodeURIComponent` of already encoded text only turns each `%` into `%25` |
| `ImageUtils.DecodeEscapePercents` | src/services/image-utils.ts:14 | decoding undoes that second encoding |
| `ImageUtils.ReplacePercent20Spec` | src/services/image-utils.ts:9 | after `replace(/%20/g, "+")` no `%20` is left, and text without one is unchanged |
| `ImageUtils.Percent20Occurs` | src/services/image-utils.ts:9 | the model's `%20` test is occurrence of the text `%20` |
| `ImageUtils.GetSafeImageUrlSpec` | src/services/image-utils.ts:1-15 | the URL is the CDN, `/`, the path and `/` when present, then the encoded name; decoding that name twice gives back `src` lower-cased with `%20` as `+`, for ASCII `src` |

## Left out

- Console logging, `alert`, React rendering and state batching are left out, and so are the JSX of both components and `getSortIcon`.
- The page's timers are left out; the elapsed read-out takes the time difference as its input.
- Manual linking, the season query and the saved-links query belong to the view. They are not part of this model; their results enter as inputs.
- Awaiting and the 100 ms pause between batch items are left out. Each awaited call is a value of its function, so no interleaving of clicks with a running batch is modelled.
- State updater functions are applied at once to the current state. Calls that React makes later, against the state of that moment, are not modelled.
- `SeasonalLinking.LinkingPage.SaveAllSuccesses`: saves run in a fixed order over the set of saveable ids. The order of `Object.entries` is not modelled, and each save's message is written into the model's map in that same pass.
- `SeasonalLinking.LinkingPage.AutoLinkAll`: the stop flag is the index of the first step at which it is read as set; the flag can only be set, never cleared, while a batch runs.
- Season numbers are natural numbers in the model (`Catalog.Episode.seasonNumber: nat`). The schema types them as a signed `Int`, and a key such as `"-1"` is not an array index, so `for … in` would visit it after the index keys, in insertion order. Negative season numbers are not modelled.
- `EntityResolver.ResolveNone`: a `null` anime makes `anime.titleEn` throw a `TypeError`. That is folded into `getAnimeById` completing with a thrown message.
- The date parsers, `new Date(text)` and time zones are parameters or not represented. A date is a calendar day or `Invalid Date`.
- `Dates.FormatYmd` covers only the `yyyy-MM-dd` pattern of date-fns `format`.
- Dates: years before 0 are not modelled (`Date.year` is a `nat`). date-fns writes such a year as its year of the era, as it writes the year 0 as `0001`.
- `SeasonalLinking.Outcome`: the `format` in the no-match message (src/views/seasonal-linking/index.tsx:427-432) runs inside the `setLinkingResults` updater. A throw there does not reach the `catch` at line 436. React rethrows it while rendering, and the page crashes with the entry still `linking`. The model instead catches the throw and records `failed` with the classified message. So `SeasonalLinking.OutcomeStatus`'s "settles as `success` or `failed`" does not cover an invalid start date that reaches the no-match message.
- Floating point is left out. The ETA's mean is computed exactly on integers and rounded once. Its reads of `NaN` and `Infinity` are not modelled. The progress bar's percentage is not modelled.
- `SeasonalLinking.ParseSeasonKey`: `parseInt` is modelled on digit strings without leading whitespace or a sign, which covers every season key.
- `JsStrings.Lower`: only ASCII letters are mapped, whereas `toLowerCase` also maps other scripts.
- `ImageUtils.DecodeEscapeUri`: the round trip is proved for ASCII input only, because the decoder maps each octet to one character.
- `ImageUtils.GetSafeImageUrlSpec`: the double-decode round trip holds for ASCII `src` only, for the same reason.
- `encodeURIComponent` encodes every code point as UTF-8. It does not throw on lone surrogates here, because Dafny's `char` excludes them.
- `SortableTable.SortByAscending`: `Array.prototype.sort` is modelled as an insertion sort, proved stable by `SortableTable.SortByStable`. With an inconsistent comparator the order the engine produces is implementation-defined, and the model's order is one such order.
- `SortableTable.Table.FilteredAndSortedData`: row values are strings, integers, booleans or `null`. Other objects, floating-point numbers and `undefined` held as a value are not modelled.
- The column-filter text and the multiselect values are strings, as the inputs produce them. A custom filter's value is a string or an array of strings.
