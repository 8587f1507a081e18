# Blog maintenance core, modelled in Dafny

This project models the decision logic of a travel-and-food blog's maintenance scripts.
The main part is the **business-hours evaluator**. It reads a free-form Chinese opening-hours
string such as `週二~週五 11:30-14:30, 17:30-20:30; 週六日 11:00-21:00`. Given a weekday and
a minute of the day, it answers `open`, `opening-soon`, `closed` (resting between shifts),
`closed-day` or `unknown`, together with the message the site shows. There are two variants:

- `verify_business_status.js` is day-aware. It splits the string into clauses, keeps the
  clauses that apply today, and checks a `週X公休` closing day first.
- `test_business_status_logic.js` is day-agnostic, a copy of the site's display component.
  It uses every range in the string and has its own closing-day check.

Around the evaluator sit the scripts that decide a post's metadata:

- the category hierarchy and slug lookup of the site (`src/utils/categories.ts`);
- the category normalisation, argument parsing and markdown assembly of the article tools
  (`add_article.js`, `article_api_server.js`, `blog_sync_server.js`);
- the closed-business table scanner and banner insertion (`mark_closed_businesses.js`);
- the tag-list rewriters: `clean_location_tags.js`, `convert_tags_to_chinese.js`,
  `auto_categorize.js`, `categorize_posts.js`, `update_frontmatter.js` and `fix_tags.js`.

Strings are `seq<char>`. Each regular expression these scripts use is replaced by a scanner
written out by hand with the same shape: where it may match, which match is the leftmost, and
what its groups capture. File contents come in as strings and go out as strings, or as an
outcome datatype that says whether the file would be written. Clocks, fetched pages and
command-line arguments are parameters.

Modules:

| module | models |
|---|---|
| `Wrappers` | `Option` |
| `Text` | string and list helpers: `includes`, `indexOf`, `split`, `trim`, `join`, `[...new Set(x)]`, `.filter`, `.sort()` on strings |
| `Utf16` | the UTF-16 encoding of strings, and the proof that the string order of `Text` is JavaScript's unit-by-unit order |
| `Json` | `JSON.stringify` of a string, used when a tag list is written back |
| `Hours` | `parseTime`, the range regex and its `exec` loop, the sort by start, the weekday characters and the status ladder shared by both evaluators |
| `DayAwareStatus` | `verify_business_status.js` |
| `DayAgnosticStatus` | `test_business_status_logic.js` |
| `Categories` | `src/utils/categories.ts` |
| `CategoryMapping` | the three `normalizeCategory` tables and the valid English categories |
| `ArticleMarkdown` | tag splitting, title escaping and the tag YAML shared by the two article writers |
| `AddArticle`, `ArticleApi`, `BlogSync` | `add_article.js`, `article_api_server.js`, `blog_sync_server.js` |
| `Banner`, `MarkClosed` | the warning banner and `mark_closed_businesses.js` |
| `Scanners` | the frontmatter patterns: `title:`, `tags: [...]` in its `.*?`/`s` and `.+?` forms, and the rewrite of a matched list |
| `FrontMatter` | the `---` block of a post and the key lookups `clean_location_tags.js`, `categorize_posts.js` and `fix_tags.js` make in it |
| `CleanLocationTags`, `ConvertTags`, `AutoCategorize`, `CategorizePosts`, `UpdateFrontmatter`, `FixTags` | the scripts of the same names |

## Model

| member | source | states |
|---|---|---|
| Hours.TimeTokenAt | verify_business_status.js:9 | a time token `\d{1,2}[:：]\d{2}` starts at `i` exactly when four or five characters there have that shape, and the end it reports bounds such a token |
| Hours.FirstTokenFrom | verify_business_status.js:9 | the leftmost token start at or after `from`, with no token before it, or -1 when there is none |
| Hours.ParseTime | verify_business_status.js:7-12 | `parseTime` gives nothing exactly when no token occurs anywhere (the empty string included), and otherwise `60*h + m` of the leftmost token |
| Hours.ParseTimeOfToken | test_business_status_logic.js:9-14 | a string that is one token parses to that token's value |
| Hours.ParseTimeNoRangeCheck | verify_business_status.js:11 | neither hours nor minutes are range-checked: `99:99` reads as 99 hours and 99 minutes |
| Hours.ParseTimeWideColon | verify_business_status.js:9 | a one-digit hour and the full-width colon `：` are accepted |
| Hours.ParseTimeNoToken | verify_business_status.js:8-10 | the empty string and a string without digits give no time |
| Hours.SkipSpace | verify_business_status.js:140 | `\s*` consumes exactly the run of white space and stops at the first other character |
| Hours.RangeAtSound | verify_business_status.js:140 | every range match reported at `i` starts at `i` and has the shape token, spaces, `-`/`~`/`～`, spaces, token |
| Hours.RangeAtComplete | verify_business_status.js:140 | every place where the range regex can match is reported, with the same groups |
| Hours.MakeRange | verify_business_status.js:149-154 | the end is pushed by 1440 exactly when it is earlier than the start; raw texts and start are kept, and a pushed range is shorter than a day |
| Hours.RangesOfMatch | test_business_status_logic.js:48-54 | one match yields exactly one range, whose raw start and end are the two captured tokens and whose start is the first token's value |
| Hours.NextMatch | test_business_status_logic.js:47 | `rangeRegex.exec` from `lastIndex`: the leftmost match at or after `from`, with no match before it |
| Hours.ScanRanges | test_business_status_logic.js:43-55 | every collected range that starts within the day ends no earlier than it starts |
| Hours.ScanStep | test_business_status_logic.js:47-55 | one turn of the `exec` loop parses the match into one range and resumes after the match |
| Hours.ScanRangesEmpty | test_business_status_logic.js:47-59 | no range is collected exactly when the regex matches nowhere in the string |
| Hours.ScanSingleRange | test_business_status_logic.js:43-55 | `HH:MM-HH:MM` yields exactly its one range |
| Hours.SingleRangeMatches | test_business_status_logic.js:43-47 | on `HH:MM-HH:MM` the regex matches once, over the whole string |
| Hours.SplitShiftMatches | test_business_status_logic.js:43-47 | on `HH:MM-HH:MM, HH:MM-HH:MM` the regex matches twice, resuming after the first shift |
| Hours.ScanSplitShift | test_business_status_logic.js:43-55 | a split shift yields its two ranges in written order |
| Hours.ExecRanges | test_business_status_logic.js:43-55 | the `while ((match = rangeRegex.exec(...)) !== null)` loop appends exactly the ranges of the scan specification |
| Hours.InsertByStartCorrect | test_business_status_logic.js:57 | inserting a range into a list sorted by start keeps it sorted and adds exactly that range |
| Hours.SortByStart | test_business_status_logic.js:57 | `allRanges.sort((a, b) => a.start - b.start)` returns the same multiset of ranges, sorted by start |
| Hours.SortByStartStable | test_business_status_logic.js:57 | the sort is stable, as `Array.prototype.sort` is: the ranges that start at the same minute come out in the order they were written |
| Hours.SortOrderedPair | verify_business_status.js:160 | two ranges already in order of their starts stay in that order |
| Hours.SortKeepsRanges | verify_business_status.js:160 | sorting loses no range and adds none |
| Hours.DayChar | test_business_status_logic.js:16-19 | the weekday character is one of 日一二三四五六, 日 for Sunday (day 0) and 六 for Saturday (day 6), and different days have different characters |
| Hours.ClosureAt | test_business_status_logic.js:32 | a match of `[週周]([一二三四五六日])\s*公休` at `i`: the marker, a day character, only white space, then 公休 |
| Hours.FirstHit | verify_business_status.js:189-196 | the first range that is open now or opens within 60 minutes, with none before it, or -1 |
| Hours.FirstLater | verify_business_status.js:199 | `ranges.find(r => r.start > now)`: the first range starting later, with none before it, or -1 |
| Hours.Ladder | verify_business_status.js:188-215 | open and opening-soon name the first range that is open or opens within 60 minutes; resting names the first later range, which is more than 60 minutes away; the day is over only when every range has started and ended |
| Hours.RunLadder | test_business_status_logic.js:62-95 | the `for` loop with early returns, then `find`, computes the ladder |
| Hours.RestingIsEarliest | verify_business_status.js:199-211 | on sorted ranges the resting answer names the earliest later opening |
| Hours.SingleRangeSweep | test_business_status_logic.js:62-95 | with one range, the answer moves through resting, opening soon (60 minutes ahead), open and ended as the day goes on |
| Hours.WrappedRangeOpenOnlyAfterStart | verify_business_status.js:153-166 | a range pushed past midnight is never open in the small hours of the same day, because "now" is always below 1440 |
| DayAwareStatus.DayIndex | verify_business_status.js:14-21 | `getDayIndex` gives a day in 0..6 for a key of `DAYS_MAP` and -1 exactly for any other key |
| DayAwareStatus.DayIndexInvertsDayChar | verify_business_status.js:14-21 | the Chinese day characters and the English abbreviations map to their weekday numbers, Sunday first, and back |
| DayAwareStatus.DayCharOfDayIndex | verify_business_status.js:15 | a weekday character's number gives back that character |
| DayAwareStatus.EnglishDayIndex | verify_business_status.js:16 | `Sun` … `Sat` map to 0 … 6 |
| DayAwareStatus.DayRangeAt | verify_business_status.js:39 | a match of `週([一二三四五六日])\s*[-~～]\s*週([一二三四五六日])` at `i` captures two day characters, the first right after 週 |
| DayAwareStatus.FirstDayRangeFrom | verify_business_status.js:39 | `segment.match` finds the leftmost day range, with none before it |
| DayAwareStatus.IsDayMatch | verify_business_status.js:23-121 | a clause without day keywords matches every day, except that one holding 六日 matches only at weekends; 平日 never matches a weekend day and 假日/六日/週末 never a weekday; a day range decides alone when those rules do not reject; a keyword clause matches only through its range, a named day, 平日 on a weekday or 假日/週末 on a weekend (fail closed); conversely a clause without a range that passes the refusals and names today, carries 平日 on a weekday or carries 假日/週末 at a weekend matches |
| DayAwareStatus.WeekdayWeekendClauses | verify_business_status.js:239-244 | the case `平日 10:00-18:00, 假日 10:00-22:00` splits into the clauses `平日 10:00-18:00` and ` 假日 10:00-22:00`: on a Sunday only the second applies |
| DayAwareStatus.WeekdayWeekendClausesMonday | verify_business_status.js:233-238 | on a Monday only the first of those two clauses applies |
| DayAwareStatus.DayRangeHasKeyword | verify_business_status.js:39-86 | a clause holding a day range has the keyword 週 |
| DayAwareStatus.DayRangeClause | verify_business_status.js:39-56 | for `週X~週Y` the clause matches exactly the days in [X, Y] when X ≤ Y, and the days ≥ X or ≤ Y when X > Y |
| DayAwareStatus.SaturdaySundayClause | verify_business_status.js:33 | `週六日` matches Saturday but not Sunday |
| DayAwareStatus.ClosedFrom | verify_business_status.js:130-131 | the closing-day test holds exactly when `[週周]<today>\s*公休` occurs somewhere |
| DayAwareStatus.GetTodayRanges | verify_business_status.js:123-161 | `getTodayRanges` returns the closing-day marker or today's ranges as the specification function defines them |
| DayAwareStatus.CollectedFromClauses | verify_business_status.js:142-158 | every collected range comes from a clause that applies today, read by the range regex |
| DayAwareStatus.TodayRangesShape | verify_business_status.js:137-160 | today's ranges are sorted by start, each range within the day ends no earlier than it starts, and each comes from an applicable clause |
| DayAwareStatus.CountdownShape | verify_business_status.js:201-206 | the countdown is empty only for zero minutes, starts with the hours when there is at least one, and ends with the minutes when they are not zero |
| DayAwareStatus.CountdownText | verify_business_status.js:201-206 | the `timeMsg` built step by step is the countdown |
| DayAwareStatus.RestingStatus | verify_business_status.js:199-212 | the resting answer is `closed` with the countdown message and the raw start of the later range as `nextOpen` |
| DayAwareStatus.CheckStatus | verify_business_status.js:163-216 | `checkStatus` for weekday `day` at `hours:minutes` is the status the specification function gives at minute `60*hours + minutes` |
| DayAwareStatus.StatusOfToday | verify_business_status.js:168-172 | a closing day gives `closed-day` / 今日公休; otherwise the answer comes from today's ranges |
| DayAwareStatus.LadderStatus | verify_business_status.js:188-215 | the loop over the ranges, then `find`, gives the status from the ranges |
| DayAwareStatus.ClosingDayFirst | verify_business_status.js:128-133 | a `週X公休` naming today decides `closed-day` / 今日公休 before any range is examined |
| DayAwareStatus.NoRangesToday | verify_business_status.js:174-186 | with no range today, a string longer than 5 characters gives `closed-day` / 今日未營業 and a shorter one `unknown` / 請查看營業時間 |
| DayAwareStatus.RangesAnswerMeaning | verify_business_status.js:188-215 | open and opening-soon happen exactly when some range is open or opens within 60 minutes and carry its raw end or start; `closed` names the earliest later range, more than 60 minutes away, with its hours in the countdown; `closed-day` happens exactly when every range is over |
| DayAwareStatus.RestingAnswer | verify_business_status.js:199-212 | in the resting case the later range is the earliest one, more than an hour away, and it is named as `nextOpen` |
| DayAwareStatus.NoClosingMark | verify_business_status.js:130 | a string without 週 or 周 has no closing day |
| DayAwareStatus.PlainClause | verify_business_status.js:86-87 | a string of digits, `:` and `-` has no closing day, is one clause, and applies every day |
| DayAwareStatus.BareRangeToday | verify_business_status.js:137-160 | a bare `HH:MM-HH:MM` applies on every day and yields its one range |
| DayAwareStatus.TenToTenRanges | verify_business_status.js:221-226 | `10:00-22:00` yields the one range from 600 to 1320 on every day |
| DayAwareStatus.SimpleRangeCases | verify_business_status.js:221-232 | the test table's simple range is open on Sunday at 12:00 and over for the day at 23:00 |
| DayAwareStatus.ExplicitClosedDayCase | verify_business_status.js:245-250 | the test table's `10:00-22:00 (週一公休)` is a closing day on Monday |
| DayAgnosticStatus.ClosureMatches | test_business_status_logic.js:32 | the global `match` lists the closing-day matches in order; it is empty exactly when there is no match |
| DayAgnosticStatus.AnyNamesToday | test_business_status_logic.js:34-38 | the flag the `forEach` leaves set holds exactly when some match names today |
| DayAgnosticStatus.PairInClosureText | test_business_status_logic.js:35 | the only 週 or 周 in the text of a match is its first character, so `includes` can only see the day right after it |
| DayAgnosticStatus.NamesTodayIffDay | test_business_status_logic.js:35 | the text of a match names today exactly when its day character is today's |
| DayAgnosticStatus.NoMarkerInside | test_business_status_logic.js:32 | no other match starts inside a match |
| DayAgnosticStatus.ClosesOnSkip | test_business_status_logic.js:32 | resuming the global search after a match misses no day |
| DayAgnosticStatus.MatchesNameDay | test_business_status_logic.js:32-38 | some listed match names day `c` exactly when the pattern matches somewhere with day `c` |
| DayAgnosticStatus.ClosedDayMeaning | test_business_status_logic.js:32-41 | today is closed exactly when `週<today>公休` occurs or, when no `週` form occurs at all, `周<today>公休` does |
| DayAgnosticStatus.CheckStatus | test_business_status_logic.js:21-96 | `checkStatus` for weekday `day` at `hours:minutes` is the status the specification function gives at minute `60*hours + minutes` |
| DayAgnosticStatus.OpenDayAnswer | test_business_status_logic.js:43-95 | the `exec` loop, the sort and the ladder give the status of the sorted ranges |
| DayAgnosticStatus.FindClosedDay | test_business_status_logic.js:28-39 | the two `match` calls and the `forEach` compute the closing-day flag |
| DayAgnosticStatus.ScanClosedMatches | test_business_status_logic.js:34-38 | the `forEach` sets the flag exactly when some match names today |
| DayAgnosticStatus.RangesAnswer | test_business_status_logic.js:59-95 | the ladder over the sorted ranges gives the status specification |
| DayAgnosticStatus.SameAnswerEveryOpenDay | test_business_status_logic.js:43-95 | day qualifiers are ignored: on two days that are not closing days the answer is the same |
| DayAgnosticStatus.OpenDayStatus | test_business_status_logic.js:41-59 | on a day that is not a closing day the answer comes from all ranges of the string, sorted |
| DayAgnosticStatus.RangesAnswerMeaning | test_business_status_logic.js:59-95 | `unknown` exactly when there is no range; `open` carries the raw end and `endTime` of an open range and `opening-soon` the raw start and `startTime` of one within 60 minutes, exactly when one exists; `closed` / 休息中 names the earliest later range; `closed-day` / 今日營業已結束 exactly when every range is over |
| DayAgnosticStatus.NoClosingMatches | test_business_status_logic.js:32 | a string without 週 or 周 has no closing day |
| DayAgnosticStatus.BareRangeNoMarker | test_business_status_logic.js:32 | a bare `HH:MM-HH:MM` holds neither 週 nor 周 |
| DayAgnosticStatus.BareRangeSorted | test_business_status_logic.js:43-57 | a bare `HH:MM-HH:MM` yields its one range |
| DayAgnosticStatus.BareRangeStatus | test_business_status_logic.js:21-95 | a bare `HH:MM-HH:MM` is answered from its one range on every day |
| DayAgnosticStatus.HourTokens | test_business_status_logic.js:9-14 | the tokens of the asserted cases have their minute values |
| DayAgnosticStatus.SimpleOpenCase | test_business_status_logic.js:118-122 | case 1: `11:00-21:00` is open on Monday at 12:00 |
| DayAgnosticStatus.OpeningSoonCase | test_business_status_logic.js:127-132 | case 2: `17:00-22:00` opens soon on Monday at 16:30, and the message says 即將營業 |
| DayAgnosticStatus.SplitShiftRanges | test_business_status_logic.js:43-57 | `11:00-14:00, 17:00-22:00` yields the two shifts in order |
| DayAgnosticStatus.SplitShiftCase | test_business_status_logic.js:137-142 | case 3: at 15:00 on Monday the split shift is resting, with `nextOpen` 17:00 |
| DayAgnosticStatus.BetweenShifts | test_business_status_logic.js:83-91 | between two shifts, more than an hour before the second, the answer is `closed` / 休息中 with the second shift's raw start |
| DayAgnosticStatus.ExplicitClosedDayCase | test_business_status_logic.js:147-152 | case 4: `11:00-21:00 (週一公休)` on Monday is `closed-day` / 今日公休 |
| DayAgnosticStatus.MondayClosureFound | test_business_status_logic.js:32-38 | the 週一公休 of case 4 is a match naming Monday |
| DayAgnosticStatus.AdjacentClosure | test_business_status_logic.js:32 | a marker, a day character and 公休 written together form a match |
| DayAgnosticStatus.EndedDayCase | test_business_status_logic.js:157-162 | case 5: `09:00-17:00` on Monday at 18:00 is `closed-day` / 今日營業已結束 |
| Categories.FindParent | src/utils/categories.ts:81-82 | `category in PIXNET_CATEGORY_HIERARCHY`: the entry found carries the name, and no entry before it does; none is found only when no entry has the name |
| Categories.FindOwnName | src/utils/categories.ts:5-63 | with distinct parent names, a parent's own name selects that parent |
| Categories.NameKeysOfHierarchy | src/utils/categories.ts:5-63 | the fingerprints listed for the parents are those of their names |
| Categories.NameKeysDistinct | src/utils/categories.ts:5-63 | the parents' fingerprints are pairwise distinct |
| Categories.HierarchyNamesDistinct | src/utils/categories.ts:5-63 | the parent names of the hierarchy are pairwise distinct |
| Categories.HierarchySlugsDistinct | src/utils/categories.ts:5-63 | the slugs of the hierarchy are pairwise distinct |
| Categories.BuildSubcategoryMap | src/utils/categories.ts:68-74 | the nested loops build the reverse map that the specification function describes |
| Categories.AddSubsLookup | src/utils/categories.ts:71-73 | the inner loop maps each listed subcategory to its parent and leaves every other key as it was |
| Categories.SubMapLast | src/utils/categories.ts:69-74 | a subcategory maps to the last parent that lists it |
| Categories.SubMapKeys | src/utils/categories.ts:69-74 | every key of the reverse map is some parent's subcategory and maps to that parent |
| Categories.SubMapUnlisted | src/utils/categories.ts:69-74 | a name no parent lists is not in the reverse map |
| Categories.FallbackFirstHit | src/utils/categories.ts:91-156 | the fallback rules are tried in order: the first rule that hits decides, whatever later rules say |
| Categories.FallbackNoHit | src/utils/categories.ts:91-156 | with no rule hitting the answer is `other`; any other answer is the slug of a rule that hits |
| Categories.EmptyCategory | src/utils/categories.ts:78 | an absent or empty category gives `other` |
| Categories.ParentSlug | src/utils/categories.ts:81-83 | a parent name gives its own slug |
| Categories.SubcategorySlug | src/utils/categories.ts:85-89 | a listed subcategory that is not itself a parent name gives the slug of its (last) parent |
| Categories.UnlistedGoesToRules | src/utils/categories.ts:91-156 | a name that is neither a parent nor a subcategory is decided by the fallback rules |
| Categories.FoodRuleFirst | src/utils/categories.ts:93-95 | an unlisted name ending in 美食 or containing 甜點 is `domestic-food`, even if later keywords also occur |
| Categories.EverySlugListed | src/utils/categories.ts:5-63 | every slug `getCategorySlug` can return, `other` included, belongs to a hierarchy entry |
| Categories.GetParentCategoryName | src/utils/categories.ts:160-167 | the loop with its early return gives the name of the first entry carrying the slug, 其他 otherwise |
| Categories.ParentNameOfFirst | src/utils/categories.ts:161-165 | the name returned is that of the first entry carrying the slug |
| Categories.ParentNameOfUnknown | src/utils/categories.ts:166 | a slug no entry carries gives 其他 |
| Categories.ParentNameRoundTrip | src/utils/categories.ts:77-83 | with distinct names and slugs, `getParentCategoryName(getCategorySlug(P)) == P` for every parent P |
| Categories.HierarchyRoundTrip | src/utils/categories.ts:160-167 | the round trip holds for every parent of the blog's own hierarchy |
| Categories.SlugOrKeywordMeaning | src/utils/categories.ts:218-248 | with a category the `is*` helpers ignore title and tags; without one they hold when a keyword occurs in the title or is one of the tags, and fail when none does |
| Categories.CategorizePost | src/utils/categories.ts:251-261 | content type and region are always empty |
| Categories.CategorizePostIsSlug | src/utils/categories.ts:251-261 | the sidebar slug is `getCategorySlug(category)`, which is `other` for an absent category |
| CategoryMapping.Lookup | add_article.js:147-148 | `CATEGORY_MAPPING[key]` finds a value exactly when some pair has the key, and the value found is paired with it |
| CategoryMapping.LookupAppendMiss | blog_sync_server.js:41-74 | pairs added with other keys do not change a lookup |
| CategoryMapping.ValidAscii | add_article.js:35-48 | every valid category starts with an ASCII character |
| CategoryMapping.RegionalFacts | add_article.js:52-56 | the shared regional rows map Chinese keys to valid categories |
| CategoryMapping.NorthFacts | add_article.js:58-63 | likewise for 桃園 to 苗栗 |
| CategoryMapping.MiddleFacts | add_article.js:64-69 | likewise for 台中, 南投 and 宜蘭 |
| CategoryMapping.SouthFacts | add_article.js:70-75 | likewise for 基隆, 台南 and 高雄 |
| CategoryMapping.GeneralFacts | add_article.js:76-82 | likewise for the general rows |
| CategoryMapping.ConcatFacts | add_article.js:51-84 | both facts hold for a concatenation of tables |
| CategoryMapping.SingleFacts | add_article.js:83 | a single row with a wide key and a valid value has both facts |
| CategoryMapping.ApiTableFacts | article_api_server.js:40-74 | both writers' tables map only Chinese keys, and only to valid categories |
| CategoryMapping.NormalizeCheckedValid | add_article.js:145-157 | `normalizeCategory` always returns a valid category |
| CategoryMapping.NormalizeCheckedCases | add_article.js:145-157 | a key of the table gives its value; a valid category that is no key is kept; anything else gives `travel` |
| CategoryMapping.WideKeysMissValid | add_article.js:147-151 | no valid English category is a key of a table with Chinese keys |
| CategoryMapping.NormalizeCheckedIdempotent | add_article.js:145-157 | normalising twice is normalising once |
| CategoryMapping.NormalizeSyncFallback | blog_sync_server.js:129-132 | the sync server maps any ASCII name other than `default` to `travel`: there is no English pass-through, so `taipei-food` becomes `travel`; the source defines this `normalizeCategory` but never calls it, so it is dead code there |
| CategoryMapping.SyncNamedWide | blog_sync_server.js:41-72 | the sync server's named rows all have Chinese keys (the table serves only the uncalled `normalizeCategory`) |
| ArticleMarkdown.TrimAll | add_article.js:203 | `.map(t => t.trim())` trims every part and keeps their number and order |
| ArticleMarkdown.SplitTags | add_article.js:202-203 | every tag from `split(',')`, `trim` and the filter is non-empty, trimmed and free of commas |
| ArticleMarkdown.TrimmedPartsClean | add_article.js:203 | trimmed, non-empty parts without commas are clean tags |
| ArticleMarkdown.MissingTagsEmpty | add_article.js:197-204 | an absent `tags` parameter (default `''`) gives no tags |
| ArticleMarkdown.SplitJoinTags | add_article.js:202-203 | clean tags joined with commas split back into the same tags |
| ArticleMarkdown.FilterKeepsAll | add_article.js:203 | the empty-tag filter keeps a list without empty tags as it is |
| ArticleMarkdown.EscapeTitle | add_article.js:216 | the escaped title holds only the title's characters and quotes |
| ArticleMarkdown.EscapeTitlePaired | add_article.js:216 | every `'` of the escaped title is one of a doubled pair, so it can stand between single quotes |
| ArticleMarkdown.UnescapeEscapeTitle | add_article.js:216 | reading the escaped title as a YAML single-quoted string gives the title back |
| ArticleMarkdown.TagsYamlRoundTrip | add_article.js:222-224 | tags without line breaks are read back exactly from their YAML block, `tags: []` giving no tags |
| ArticleMarkdown.StripTagLines | add_article.js:223 | every item line starts with `  - ` and stripping that prefix gives the tags |
| ArticleMarkdown.TagBlockLines | add_article.js:222-224 | a non-empty list is never written as `tags: []`; its block is the `tags:` line and then one line per tag |
| ArticleMarkdown.DocumentTitleLine | add_article.js:226-239 | the document's first line is `---` and a YAML reader gets the title back from the second line |
| ArticleMarkdown.SlugFor | add_article.js:162-166 | `generateSlug` is the date part without dashes, a dash and the random suffix |
| AddArticle.IndexOf | add_article.js:94 | `args.indexOf('--json')`: the first position holding the token, or -1 exactly when it is absent |
| AddArticle.ParseArgs | add_article.js:89-115 | the loop over the arguments gives the parse the specification function describes |
| AddArticle.ParamsOfRender | add_article.js:105-112 | `--key value` pairs whose values do not start with `--` parse into the map of those pairs, a later pair overriding an earlier one |
| AddArticle.RenderHasNoJson | add_article.js:94-95 | a command line of such pairs holds no `--json` token |
| AddArticle.ParseRendered | add_article.js:89-115 | a command line of such pairs parses into its pairs, with the JSON path not taken |
| AddArticle.KeysFromTokens | add_article.js:106-109 | every parsed key comes from a `--key` token |
| AddArticle.TrailingFlag | add_article.js:108 | a `--key` at the end of the line is `true` |
| AddArticle.TrailingDeploy | add_article.js:319 | a trailing `--deploy` asks for deployment |
| AddArticle.MissingParams | add_article.js:120-124 | `validateParams` reports exactly the falsy fields among title, content, link, date and category, in that order |
| AddArticle.NormalizeCategory | add_article.js:145-157 | the result is a valid category |
| AddArticle.NormalizeCategoryIdempotent | add_article.js:145-157 | normalising twice is normalising once |
| AddArticle.GenerateMarkdown | add_article.js:190-242 | nothing is generated exactly when the date does not format (`toISOString` throws); otherwise the category written is valid, and a given slug is kept, otherwise a date part without dashes and the random suffix |
| AddArticle.GeneratedTitle | add_article.js:216-227 | a generated file opens with `---`, and the title reads back from its title line |
| AddArticle.Run | add_article.js:293-344 | a run stopped for missing parameters names only required fields, and at least one; a written file has a valid category and a date that formats; a run stopped by the date has one that does not; a run that gets past validation has every required field truthy, and writes when title and content are not bare flags and the date formats |
| ArticleApi.NormalizeCategory | article_api_server.js:79-87 | the result is a valid category |
| ArticleApi.NormalizeCategoryIdempotent | article_api_server.js:79-87 | normalising twice is normalising once |
| ArticleApi.CreativeIsLife | article_api_server.js:73 | 創作 maps to `life` |
| ArticleApi.CreateArticle | article_api_server.js:121-192 | `success: false` with the required list exactly when title, content, link or category is falsy; otherwise it throws exactly when the date does not format; otherwise the created article has a valid category, the given title, the slug of the formatted date and the file `<slug>.md` |
| ArticleApi.Status | article_api_server.js:253-266 | the handler answers 200 exactly for a created article, 400 for the failure reply and 500 for what `createArticle` throws |
| ArticleApi.MissingDateIsToday | article_api_server.js:142 | a request without a date is the same request dated today |
| ArticleApi.SameCategoryAsCommandLine | article_api_server.js:79-87 | apart from 創作 a created article has the category the command-line writer would give |
| ArticleApi.CreatedTitle | article_api_server.js:150-164 | the title reads back from the title line of the created file |
| BlogSync.FromJsonFacts | blog_sync_server.js:274-285 | every article of the JSON path comes from a post with a truthy id, title and URL whose date does not throw, so it has an id, a title and a link |
| BlogSync.FromJsonKeeps | blog_sync_server.js:274-285 | every such post before the first post whose date throws gives an article |
| BlogSync.FromJsonEmpty | blog_sync_server.js:274-292 | the JSON path yields nothing exactly when no kept post comes before a post whose date throws |
| BlogSync.FromJsonCut | blog_sync_server.js:281-288 | a post whose date throws ends the loop: the posts after it add nothing |
| BlogSync.FromJsonStep | blog_sync_server.js:275-284 | one turn of the loop appends the post exactly when it is kept, its date formats and no post before it threw |
| BlogSync.TrimKeepsOut | blog_sync_server.js:298-301 | trimming a title adds no `繼續閱讀` the raw title did not hold |
| BlogSync.FromAnchorsFacts | blog_sync_server.js:292-307 | the fallback's ids are pairwise distinct, no title holds `繼續閱讀`, and each article has category `travel` and no tags |
| BlogSync.FromAnchorsStep | blog_sync_server.js:298-306 | one turn of the loop appends the link exactly when its id is new and its title is not a "read more" link |
| BlogSync.PixnetArticles | blog_sync_server.js:313 | at most `maxArticlesPerSync` (10) articles are returned |
| BlogSync.ParsePixnetArticles | blog_sync_server.js:265-314 | the two loops and the cap give the articles the specification function describes |
| BlogSync.TakePosts | blog_sync_server.js:272-288 | the loop over the JSON posts, left at the first date that throws, keeps the posts the JSON path keeps |
| BlogSync.TakeAnchors | blog_sync_server.js:293-307 | the loop over the links, with its `seen` set, gives the fallback's articles |
| BlogSync.FallbackOnlyWhenJsonEmpty | blog_sync_server.js:292 | when a kept post comes before any post whose date throws, the links on the page do not matter |
| BlogSync.FallbackArticles | blog_sync_server.js:292-307 | when the JSON path yields nothing, the articles have distinct ids and no "read more" title |
| BlogSync.TakeNamesFacts | blog_sync_server.js:350-355 | the tags taken are distinct, each is a trimmed, non-empty name from the page, and every such name is taken |
| BlogSync.TakeNamesStep | blog_sync_server.js:351-354 | one turn takes the trimmed name exactly when it is non-empty and not yet taken |
| BlogSync.PageTagsClean | blog_sync_server.js:338-383 | the tags of an article page hold no duplicate, and each is trimmed and non-empty |
| BlogSync.CollectTags | blog_sync_server.js:341-383 | the embedded lists are read first and the tag links only when they gave nothing |
| BlogSync.TakeListNames | blog_sync_server.js:346-356 | the loop that checks `result.tags.includes(tag)` takes each new name once |
| BlogSync.TakeLinkTexts | blog_sync_server.js:372-383 | the loop with the `seenTags` set takes each new name once |
| BlogSync.CreateArticle | blog_sync_server.js:458-505 | the article fails exactly when title or link is missing; otherwise it throws exactly when the date does not format; a written one is stored as `<slug>.md`, with the slug of the formatted date |
| BlogSync.Status | blog_sync_server.js:701-708 | the handler answers 200 exactly for a written article, 400 for the refusal and 500 for what `createArticle` throws |
| BlogSync.HasKeyConcat | blog_sync_server.js:474-486 | a key is among concatenated lines exactly when it is among one part |
| BlogSync.FixedKeys | blog_sync_server.js:474-482 | none of the fixed lines is an address, lat or lng line |
| BlogSync.OptionalKeys | blog_sync_server.js:483-486 | an optional line is present exactly when its part was kept |
| BlogSync.OptionalEntries | blog_sync_server.js:483-486 | the address, lat and lng lines appear exactly when those values are truthy |
| BlogSync.TitleAndTagsReadBack | blog_sync_server.js:476-479 | the title line and the tags line read back, through JSON, as the title and the tag list |
| BlogSync.NewArticles | blog_sync_server.js:522 | the new articles are exactly those whose id is not synced yet, and they keep the order of the listing (a subsequence of it) |
| BlogSync.WrittenIdsFacts | blog_sync_server.js:574-577 | an id is appended exactly for each article whose creation succeeded, every such article is recorded, and the ids follow the order of the articles |
| BlogSync.WrittenIdsStep | blog_sync_server.js:574-577 | one more article appends its id exactly when its creation succeeds |
| BlogSync.AppendedAreNewAndWritten | blog_sync_server.js:522-577 | an id is appended to the synced list exactly for an article that was new and written, so every written article is skipped by the next round |
| BlogSync.SyncState.constructor | blog_sync_server.js:514-515 | the loaded state holds the synced ids and the last sync time |
| BlogSync.SyncState.Sync | blog_sync_server.js:511-598 | the synced list grows by the ids of the new articles written, in order; the count is their number; the sync time changes only when there were new articles; deployment follows exactly when one was written |
| Banner.BannerIsWarning | mark_closed_businesses.js:14-24 | the banner carries the `closed-business-warning` class, so an article holding it counts as warned |
| MarkClosed.Cells | mark_closed_businesses.js:46 | `split('\|')`, `trim` and `filter(Boolean)` give non-empty, trimmed cells |
| MarkClosed.Row | mark_closed_businesses.js:46-56 | a row gives an entry exactly when it has at least three cells and its status cell is 已歇業 or 已停業; the entry's name and article id are non-empty |
| MarkClosed.ScanStep | mark_closed_businesses.js:37-60 | one line updates the table flag and appends at most that line's entry |
| MarkClosed.ParseBusinessStatus | mark_closed_businesses.js:26-63 | the loop with its `inTable` flag gives the entries of the specification; a missing file gives none |
| MarkClosed.RuleStartsWithPipe | mark_closed_businesses.js:42-45 | a `\|---` rule starts with `\|`, so it keeps table mode |
| MarkClosed.HeaderThenRowsStep | mark_closed_businesses.js:38-59 | a header followed only by `\|` lines stays so when a `\|` line is added |
| MarkClosed.InTableIff | mark_closed_businesses.js:38-59 | after some lines the scanner is in table mode exactly when a header line was followed only by lines starting with `\|` |
| MarkClosed.YieldsPrefix | mark_closed_businesses.js:37-60 | whether a line is read as a row depends only on the lines up to it |
| MarkClosed.EntriesComeFromRows | mark_closed_businesses.js:45-56 | every entry comes from a row line inside a table, never from the header line |
| MarkClosed.EntriesPrefix | mark_closed_businesses.js:37-60 | reading more lines only appends entries |
| MarkClosed.RowGivesEntry | mark_closed_businesses.js:45-56 | a row line inside a table with a closed status gives its entry |
| MarkClosed.RowsGiveEntries | mark_closed_businesses.js:45-56 | every such row line gives its entry |
| MarkClosed.NoHeaderNoEntries | mark_closed_businesses.js:38-41 | without a header line there is no entry |
| MarkClosed.InsertBanner | mark_closed_businesses.js:89-104 | the banner is inserted exactly when the article has no warning and a `---` is found from index 3; it goes right after that first `---`, after `\n\n`, with everything before and after unchanged; otherwise the article is untouched |
| MarkClosed.WarningInContext | mark_closed_businesses.js:89 | text around a warning is warned |
| MarkClosed.InsertedIsMarked | mark_closed_businesses.js:104 | an article with an inserted banner is longer and warned |
| MarkClosed.InsertBannerIdempotent | mark_closed_businesses.js:89-104 | a second insertion changes nothing |
| MarkClosed.MarkStep | mark_closed_businesses.js:79-109 | one row keeps every named existing article bannered and every other one as it was, and the count grows exactly when a file changed |
| MarkClosed.ChangedGrows | mark_closed_businesses.js:106-108 | changing an unchanged article adds one to the changed ones |
| MarkClosed.MarkMissing | mark_closed_businesses.js:82-85 | a row naming a missing article changes nothing |
| MarkClosed.IdsOfStep | mark_closed_businesses.js:79 | one more row adds its article id |
| MarkClosed.MarkClosedBusinesses | mark_closed_businesses.js:65-112 | after the loop every listed existing article carries the banner and the rest are as they were; the count is the number of changed articles |
| MarkClosed.ClosedTitlesStep | mark_closed_businesses.js:121-130 | one file is added to the found list exactly when its title says closed |
| MarkClosed.ClosedTitlesFacts | mark_closed_businesses.js:117-130 | exactly the posts whose title contains 已歇業 or 已停業 are found, each with its id and title |
| MarkClosed.MarkedFilesStep | mark_closed_businesses.js:121-142 | one file is marked by the rule of the first pass, with its name kept |
| MarkClosed.MarkedFilesFacts | mark_closed_businesses.js:121-142 | the directory keeps its names, and each file becomes its marked form |
| MarkClosed.ChangedAtStep | mark_closed_businesses.js:136-138 | the count grows exactly when the file's content changes |
| MarkClosed.ScanForClosedInTitles | mark_closed_businesses.js:114-151 | the title scan finds the closed titles, writes each file's marked form and counts the files that changed |
| Scanners.LazyEndFacts | auto_categorize.js:63 | the lazy `(.+?)` of the title pattern stops at the first place where an optional quote, white space and a newline follow, and never crosses a line terminator |
| Scanners.CaptureFacts | auto_categorize.js:63 | a title captured from a position is one non-empty line |
| Scanners.TitleFromFacts | auto_categorize.js:63 | a title found from a position is one non-empty line |
| Scanners.TitleOfFacts | auto_categorize.js:63 | the title read from a post is one non-empty line |
| Scanners.TitleOfFrontMatter | auto_categorize.js:63 | a post opening with `---` and a `title:` line holding a plain title, in double, single or no quotes, has exactly that title |
| Scanners.LazyUntilFacts | clean_location_tags.js:32 | the lazy group stops before any stop character, and without the `s` flag before any line terminator; with the flag, no stop character means no match |
| Scanners.TagsAt | clean_location_tags.js:32 | a match at a position starts there with `tags:`, and its group lies between a `[` and the `]` that ends it |
| Scanners.TagsFromLeftmost | clean_location_tags.js:32 | no match starts before the one `match` returns |
| Scanners.TagsRefind | clean_location_tags.js:73 | replacing the matched list by a list without `]` puts the new list where the old one was, and matching again finds exactly it |
| Scanners.TagItemsClean | clean_location_tags.js:35-37 | no item of a list holds a comma, nor a character the list text lacks |
| Scanners.ParseTagsClean | clean_location_tags.js:35-38 | every tag read is non-empty and comma-free, and holds no character the list text lacks |
| Scanners.ParseTagListText | clean_location_tags.js:72 | a list written as the scripts write it reads back as the same tags |
| Scanners.ReadTagsClean | clean_location_tags.js:32-38 | the tags read from a post can be written back, and hold no `]` |
| Scanners.MatchedTextLacksBracket | clean_location_tags.js:32 | the group of a match holds no `]` |
| Scanners.RewriteReadsBack | clean_location_tags.js:72-73 | after the first list is rewritten with writable tags, reading the post gives exactly those tags |
| FrontMatter.BlockFacts | clean_location_tags.js:22 | the block sits right after the opening `---` line and ends at the first newline followed by `---`, which it does not contain |
| FrontMatter.BlockOfPost | clean_location_tags.js:22 | a post made of `---`, a block without a newline followed by `---`, and a closing `---` has that block |
| FrontMatter.QuotedFromFacts | clean_location_tags.js:28 | a quoted value is one non-empty line and no quote follows its first character |
| FrontMatter.QuotedValueOfLine | fix_tags.js:103 | a `key "value"` line whose value holds no quote gives that value |
| FrontMatter.TagsMatchExtend | clean_location_tags.js:32 | the first tag list of a text is still the first once text is appended |
| FrontMatter.TagsMatchAfterOpening | clean_location_tags.js:32 | the first tag list after the opening line is the first of the whole post, shifted by it |
| FrontMatter.ReadTagsInBlock | clean_location_tags.js:22-38 | when the block has a tag list, reading the tags of the post reads those of the block |
| CleanLocationTags.CleanTags | clean_location_tags.js:45-64 | the kept tags are a subsequence of the post's tags, and a tag is kept exactly when it is not generic and, when it is a place name, the title contains it |
| CleanLocationTags.CleanTagsIdempotent | clean_location_tags.js:45-64 | cleaning a cleaned list removes nothing |
| CleanLocationTags.CleanTagsShrinks | clean_location_tags.js:45-69 | the list gets shorter exactly when some tag is generic or names a place missing from the title |
| CleanLocationTags.ProcessFileWrites | clean_location_tags.js:18-78 | a post is rewritten exactly when it has front matter with a tag list and some tag of it is dropped |
| CleanLocationTags.ProcessFileReadsBack | clean_location_tags.js:71-75 | the rewritten post's tag list reads back as the cleaned tags |
| ConvertTags.ConvertAll | convert_tags_to_chinese.js:58-65 | the converted list has the length of the original; a tag whose lower-case form is no key stays itself, one whose form is a key becomes a value of the table, and every converted tag converts to itself |
| ConvertTags.RewritesIff | convert_tags_to_chinese.js:70-78 | the script's skip test lets a post through exactly when removing duplicates shortened the list or some tag changes under the mapping |
| ConvertTags.KeysAreLower | convert_tags_to_chinese.js:12-45 | every key of the mapping is a lower-case English word |
| ConvertTags.ValuesAreChinese | convert_tags_to_chinese.js:12-45 | every replacement is Chinese except `pixnet`, which maps to itself |
| ConvertTags.MappedValue | convert_tags_to_chinese.js:12-45 | every replacement converts to itself and can be written into a tag list |
| ConvertTags.ConvertTagIdempotent | convert_tags_to_chinese.js:58-65 | converting a converted tag changes nothing |
| ConvertTags.ConvertedIsFixed | convert_tags_to_chinese.js:58-78 | converting and deduplicating a converted list changes nothing, and the script would skip it |
| ConvertTags.ConvertFileReadsBack | convert_tags_to_chinese.js:80-84 | the rewritten post's tag list reads back as the converted, duplicate-free tags |
| ConvertTags.ConvertFileTwice | convert_tags_to_chinese.js:47-86 | running the conversion on its own output leaves the post alone |
| AutoCategorize.CategoriesMembers | auto_categorize.js:43-57 | the tags start with `pixnet`, have no repetition, and hold exactly `pixnet` and every category with a keyword in the text |
| AutoCategorize.CategoriesInRuleOrder | auto_categorize.js:47-54 | after `pixnet` the categories follow the order of the table |
| AutoCategorize.CategorizePost | auto_categorize.js:43-57 | the nested loops with their early `break` compute the categories of the title and the first 500 characters of the body |
| AutoCategorize.CategorizeBy | auto_categorize.js:43-57 | the same loops over any table compute that table's categories |
| AutoCategorize.LooseItem | auto_categorize.js:71 | a current tag holds no quote |
| AutoCategorize.DateLineOfPost | auto_categorize.js:92 | in a post opening with a one-line date, the new tag line goes right after that line |
| AutoCategorize.ProcessPost | auto_categorize.js:59-97 | the method gives the outcome of the specification function: no title, unchanged, or the rewritten post with its sorted tags and title |
| AutoCategorize.PostOutcomeFacts | auto_categorize.js:63-96 | a post is skipped exactly when it has no title, or its tags have no repetition and include every earned category; a rewritten post gets a sorted, repetition-free list holding exactly the current and the earned tags |
| AutoCategorize.EmptyListUnmatched | auto_categorize.js:69 | `tags: []` at the end of a line is no match, so such a post gets a second tag line after its date |
| CategorizePosts.MatchedMembers | categorize_posts.js:12-20 | the set starts with `pixnet`, has no repetition, and holds exactly `pixnet` and each topic whose keywords the title names |
| CategorizePosts.GetCategory | categorize_posts.js:12-26 | the loop over the topics, followed by the `life` default, computes the category list of the title |
| CategorizePosts.MatchedThree | categorize_posts.js:6-20 | with three topics the set is `pixnet` followed by each named topic in table order |
| CategorizePosts.AssembleFacts | categorize_posts.js:13-25 | the list assembled from the three answers starts with `pixnet`, has at least two entries and no repetition, holds `food` or `travel` exactly when named, and `life` when named or when neither of the others is |
| CategorizePosts.CategoryOfFacts | categorize_posts.js:6-26 | the same holds for every title with the script's keyword lists |
| CategorizePosts.LineEndFacts | categorize_posts.js:43 | `.` stops at the first line terminator |
| CategorizePosts.LastBeforeFacts | categorize_posts.js:50 | the greedy `.*\]` ends at the last `]` of the line |
| CategorizePosts.GreedyFromLeftmost | categorize_posts.js:43 | no match starts before the one found |
| CategorizePosts.ProcessFile | categorize_posts.js:31-56 | the body of the loop writes the outcome of the specification function |
| CategorizePosts.BlockIsFirstOccurrence | categorize_posts.js:51 | the front matter's first occurrence in the post is the block itself, since it holds a `t` |
| CategorizePosts.FileOutcomeShape | categorize_posts.js:37-53 | a post is written exactly when it has front matter with a `title: "..."` line; the block is replaced in place by its rewritten form |
| CategorizePosts.NoTagLineUnchanged | categorize_posts.js:50-53 | front matter without a tag line is written back unchanged |
| CategorizePosts.RewrittenLineFound | categorize_posts.js:50 | the rewritten one-line list is the first match of the tag-line pattern, at the same place |
| CategorizePosts.TagLineRewritten | categorize_posts.js:50 | after the rewrite the tag line holds the JSON text of the new tags |
| CategorizePosts.WrittenTagsReadBack | categorize_posts.js:43-50 | the tag line written for a post reads back as exactly the categories of its title |
| UpdateFrontmatter.NormalizeBusinessHours | update_frontmatter.js:15-21 | the result is absent exactly when the text is blank; otherwise it is non-empty and neither starts nor ends with white space |
| UpdateFrontmatter.NormalizeIdempotent | update_frontmatter.js:15-21 | normalizing normalized hours changes nothing |
| UpdateFrontmatter.AddFieldFacts | update_frontmatter.js:42-57 | one field step only appends; it appends exactly when the value is given and the key is missing; afterwards a given key is present, and a second step changes nothing |
| UpdateFrontmatter.WithFieldsFacts | update_frontmatter.js:41-57 | the three field steps only append, leave each given key present, change nothing the second time, and change nothing exactly when every given key was already there |
| UpdateFrontmatter.AddMissingFields | update_frontmatter.js:39-57 | the three steps as statements give the same front matter, and raise `modified` exactly when it changed |
| UpdateFrontmatter.MergeTagsWhen | update_frontmatter.js:60-87 | the tag list is rewritten exactly when there are new tags and the existing list repeats a tag or lacks one of them |
| UpdateFrontmatter.MergedListFacts | update_frontmatter.js:78-88 | the list written is sorted, has no repetition and holds exactly the existing and the new tags |
| UpdateFrontmatter.ExistingTagsClean | update_frontmatter.js:62-72 | an existing tag holds neither a comma nor a `]` |
| UpdateFrontmatter.MergeTagsTwice | update_frontmatter.js:88-90 | after a list is rewritten in place it reads back as the merged list, and a second merge changes nothing |
| UpdateFrontmatter.MergeTagsAppendedTwice | update_frontmatter.js:91-93 | after a list is appended to front matter without `tags:` it reads back as the merged list, and a second merge changes nothing |
| UpdateFrontmatter.RewrittenExisting | update_frontmatter.js:89-90 | a list written over the first tag list is the one found there afterwards |
| UpdateFrontmatter.AppendedExisting | update_frontmatter.js:91-93 | a list appended on its own line is the one found afterwards |
| UpdateFrontmatter.MergeCategories | update_frontmatter.js:59-96 | the merge as statements changes the front matter exactly when the merge function gives a new text, and then into that text |
| UpdateFrontmatter.UpdateFrontmatterText | update_frontmatter.js:23-104 | the function, step by step, gives the outcome of the specification function |
| UpdateFrontmatter.RefusalsWhen | update_frontmatter.js:27-34 | `No frontmatter` exactly when the post does not start with `---`; `Invalid frontmatter` exactly when it does but has no other `---` from index 3 |
| UpdateFrontmatter.WrittenKeepsBody | update_frontmatter.js:36-37 | a written post starts with `---` and a newline and ends with the old body, from the closing `---` on |
| UpdateFrontmatter.UnmodifiedWhen | update_frontmatter.js:39-103 | a post with front matter is left alone exactly when every given field is already present and the tag merge changes nothing |
| UpdateFrontmatter.BuildDataMap | update_frontmatter.js:123-126 | the loop builds the map of the specification function |
| UpdateFrontmatter.DataMapKeys | update_frontmatter.js:123-126 | an id is a key exactly when some article has it |
| UpdateFrontmatter.DataMapLast | update_frontmatter.js:123-126 | under an id the map holds the last article with it |
| UpdateFrontmatter.IdOfPostFile | update_frontmatter.js:135 | a file named after an id without a dot, plus `.md`, maps back to that id |
| UpdateFrontmatter.SourceTagsFacts | update_frontmatter.js:155-162 | the source tags have no repetition, hold exactly the categories and the tags, and start with the categories |
| UpdateFrontmatter.UpdatesForFacts | update_frontmatter.js:140-164 | an article yields no updates exactly when its hours are blank, it is open, and it has no category or tag; otherwise the hours passed on are the normalized ones, the closed flag is the article's, and the tags are its source tags |
| UpdateFrontmatter.CountOfStep | update_frontmatter.js:134-170 | one more post adds one to a counter exactly when it raises it |
| UpdateFrontmatter.UpdatePost | update_frontmatter.js:134-170 | one post is left as the specification says, and it raises the updated, hours and closed counters exactly when it is written, its article has hours that are not blank, or its article is closed |
| UpdateFrontmatter.UpdateEach | update_frontmatter.js:134-171 | the loop leaves every post as the specification says and counts the posts raising each counter |
| UpdateFrontmatter.UpdatePosts | update_frontmatter.js:129-171 | the same over the Markdown files of the directory |
| FixTags.ExcludedTagsFacts | fix_tags.js:90-97 | every excluded tag is `pixnet`, generic or a place name of the location cleaner, every generic tag is excluded, and every place name is excluded except 韓國, 泰國, 香港 and 澳門 |
| FixTags.AcceptedFacts | fix_tags.js:48 | a tag is kept exactly when it is in the list and accepted: non-empty, longer than one and shorter than thirty characters, and not excluded |
| FixTags.CandidatesSource | fix_tags.js:43-80 | the tags come from the article links when one of them is accepted, otherwise from the footer links when one of those is, otherwise from the JSON-LD keywords |
| FixTags.AcceptedLinksStep | fix_tags.js:46-51 | one more link adds its trimmed text exactly when it is accepted |
| FixTags.CollectLinks | fix_tags.js:46-51 | pushing the accepted trimmed links one by one gives the accepted list |
| FixTags.PushAccepted | fix_tags.js:72-76 | pushing one block's accepted keywords appends exactly them |
| FixTags.CollectKeywords | fix_tags.js:65-79 | pushing every block's keywords gives the accepted keywords of all blocks |
| FixTags.FetchOriginalTags | fix_tags.js:29-87 | the method gives the function's answer: none when the request fails, otherwise the candidates without repetition |
| FixTags.OriginalTagsFacts | fix_tags.js:29-87 | the answer is absent exactly when the request fails; otherwise it has no repetition, holds exactly the candidates, and each is accepted |
| FixTags.MergedTagsFacts | fix_tags.js:126-127 | the merged list has no repetition, holds exactly the current lower-case English tags and the original ones, and starts with the English ones |
| FixTags.HasNewTagsIff | fix_tags.js:130-134 | a post needs an update exactly when some original tag is not among its current tags |
| FixTags.MergeSettled | fix_tags.js:126-134 | merging into the merged list again adds nothing |
| FixTags.InsertedReadsBack | fix_tags.js:143-147 | a list inserted before the closing `---` of a post without `tags:` reads back as the merged tags |
| FixTags.ProcessFile | fix_tags.js:99-153 | the method gives the outcome of the specification function |
| FixTags.FixWrites | fix_tags.js:99-153 | a post is written exactly when it has an `originalUrl`, the page gives a non-empty tag list, and some of those tags is not among the current ones |
| FixTags.FixReadsBack | fix_tags.js:139-148 | a written post that had a tag list, or gains one, reads back as the merged tags, which a second run leaves alone |
| FixTags.WrittenUnchanged | fix_tags.js:141-150 | a post with neither a tag list nor a closing `---` is written back unchanged, yet counted as updated |
| FixTags.CountWrittenAppend | fix_tags.js:166-184 | the written posts of two runs of posts add up |
| FixTags.ProcessBatch | fix_tags.js:168-177 | one batch counts its written posts |
| FixTags.FixAll | fix_tags.js:155-189 | the batches together process every Markdown file and count exactly the written ones, never more than processed |
| Text.Trim | update_frontmatter.js:17 | `trim` removes exactly the white space at both ends: the result is the middle slice, what was cut is all white space, and the result neither starts nor ends with white space |
| Text.TrimIdempotent | update_frontmatter.js:17 | trimming twice is trimming once |
| Text.IndexOfFrom | update_frontmatter.js:31 | `indexOf` gives -1 or an index at or after the start where the pattern occurs, with no occurrence between the start and it |
| Text.Dedupe | convert_tags_to_chinese.js:68 | `[...new Set(xs)]` has no repetition and holds exactly the elements of `xs`, never more of them |
| Text.DedupeFirstOccurrence | convert_tags_to_chinese.js:68 | `new Set` keeps each element at its first occurrence: the deduplicated elements come in the order of their first occurrences in `xs` |
| Text.FilterIdempotent | clean_location_tags.js:45-64 | filtering twice with the same test is filtering once |
| Text.SortStrings | auto_categorize.js:81 | `sort()` gives a sorted permutation of the strings |
| Utf16.UnitsRoundTrip | update_frontmatter.js:85 | the UTF-16 units of a character decode back to it |
| Utf16.StrLeIsUnitOrder | update_frontmatter.js:85 | the order `sort()` uses is exactly the unit-by-unit order of the UTF-16 encodings |
| Utf16.FullwidthAfterEmoji | auto_categorize.js:81 | a full-width `！` sorts after an emoji, although its code point is smaller |
| Text.SortEqualIffSameMultiset | auto_categorize.js:81 | two sorted copies are equal exactly when the lists hold the same strings the same number of times |
| Text.MergeUnchangedIff | auto_categorize.js:78-81 | the merged set has the multiset of the current list exactly when that list has no repetition and holds every new element |
| Text.DecimalString | verify_business_status.js:205-206 | a number printed in decimal is a non-empty string of digits that reads back as the number |
| Json.UnquoteQuote | blog_sync_server.js:476 | `JSON.parse(JSON.stringify(t))` is `t` for every string |
| Json.UnquoteQuoteList | categorize_posts.js:50 | `JSON.parse(JSON.stringify(ts))` is `ts` for every array of strings |
| Text.Contains | clean_location_tags.js:54 | `includes` holds exactly when the pattern occurs at some index |
| Text.Split | clean_location_tags.js:36 | `split` on one character gives at least one piece, none holding the separator |
| Text.JoinSplit | clean_location_tags.js:36 | joining the pieces of a split with the separator gives the string back |
| Text.SplitJoin | clean_location_tags.js:72 | splitting a join of separator-free pieces gives the pieces back |
| Text.Filter | clean_location_tags.js:38 | `filter` keeps exactly the elements that pass, never more than there were |
| Text.FilterSameLength | clean_location_tags.js:67 | filtering keeps the length exactly when every element passes |
| Text.AsciiLower | convert_tags_to_chinese.js:59 | `toLowerCase` on ASCII: the same length, no capital left, every non-capital kept in place, and each capital replaced by the small letter at the same place in the alphabet |
| Text.AsciiLowerIdempotent | convert_tags_to_chinese.js:59 | lower-casing twice is lower-casing once |
| Scanners.TagsFrom | clean_location_tags.js:32 | a match found from a position starts at or after it, and is the match at its start |
| Scanners.SpaceRunFacts | clean_location_tags.js:32 | `\s*` from a position is a run of white space that ends at a non-space or at the end |
| AutoCategorize.DateLineEnd | auto_categorize.js:92 | the first `date:` line found ends with its newline |
| CategorizePosts.GreedyFrom | categorize_posts.js:43-50 | a greedy match found from a position starts at or after it and is the match of the pattern at its start, up to the last stop character of the line |
| FixTags.CountWritten | fix_tags.js:173 | the posts counted as updated are never more than the posts |
| UpdateFrontmatter.CountOf | update_frontmatter.js:146-168 | a counter never exceeds the number of posts |

## Where the code is followed over its evident intent

- A wrapped range such as `18:00-02:00` gets its end pushed to 26:00, but the minute of the
  query is always below 1440, so at 01:00 it is not `open`
  (`Hours.WrappedRangeOpenOnlyAfterStart`).
- `週六日` names Saturday only; Sunday is not matched (`DayAwareStatus.SaturdaySundayClause`).
- The weekday and weekend markers of `isDayMatch` are checked one after the other, each able
  to reject the clause, rather than as alternatives.
- `fix_tags.js` counts a post as updated even when it has no tag list and no closing `---`,
  in which case the text written is the text read (`FixTags.WrittenUnchanged`).
- `auto_categorize.js` reads `tags: []` as no tag list, and adds a second tag line after the
  date (`AutoCategorize.EmptyListUnmatched`).
- `update_frontmatter.js` never sets `pixnetCategory` from `main`; the model passes it empty.

## Left out

- File and directory I/O: posts are strings, directories are sequences of named texts, and
  the written text is returned. The log file, console output and progress messages are not modelled.
- The HTTP servers, routing, CORS, body parsing, scheduler timers and the git deployment
  (`blog_sync_server.js`, `article_api_server.js`, `add_article.js`): these are process and
  network control around the functions modelled.
- Network fetches and HTML selection (`axios`, `cheerio`): a fetched page is a parameter
  holding the texts of the selected elements and the JSON-LD keyword lists, or `None` when
  the request fails. How cheerio evaluates a selector is not modelled.
- The anchor pattern of the fallback in `parsePixnetArticles` (`blog_sync_server.js:292`) is
  not modelled: `BlogSync.FromAnchors` takes the matches as given, without checking that the
  link is a `lolwarden.pixnet.net/blog/post(s)/<digits>` URL whose digits are the id, or that
  the anchor text is at least ten characters with no `<`.
- `JSON.parse` of the `--json` argument, of `pixnet_categories.json`, of the state file and
  of JSON-LD blocks: the parsed values are parameters; only `JSON.stringify` of strings and
  arrays of strings is modelled, with its round trip.
- Clocks and randomness: the date, the current minute and weekday, ISO formatting and the
  random slug suffix are parameters. `new Date(d).toISOString()` is a function giving the
  formatted date, or nothing when it throws; which texts `Date` can read is not modelled.
- AddArticle.Run: a bare `--date` flag reaches `new Date` as the boolean `true`, which
  JavaScript reads as one millisecond after the epoch; the model hands the formatter the
  text `true`.
- Concurrency: `Promise.all` batches and `sleep` in `fix_tags.js` run one post after another
  in the model; the count of updated posts does not depend on the order.
- `htmlToMarkdown`, `cleanContent` and `cleanAddress`, and the content, cover, image, hours
  and address extraction of `parseArticleContent`: regular-expression pipelines over HTML,
  passed in as a function or left out; geocoding is left out.
- Lengths and substrings count code points, while JavaScript counts UTF-16 units; they agree
  on text inside the Basic Multilingual Plane. String order is JavaScript's, by UTF-16 units
  (`Utf16.StrLeIsUnitOrder`).
- `toLowerCase` is modelled on ASCII letters only; a non-ASCII capital that lower-cases to an
  ASCII letter (the Kelvin sign) is not folded.
- `$` sequences in the replacement text of `String.prototype.replace` are taken literally; a
  tag holding `$&` or `$1` would be expanded by JavaScript.
- Objects used as dictionaries hold only their own keys; inherited names such as
  `constructor` are not looked up through the prototype.
- JSON-LD keyword arrays whose elements are not strings, and non-string values in
  `pixnet_categories.json`, are not modelled.
- The fields of the JSON request body that `article_api_server.js` hands to
  `createArticle` (`article_api_server.js:121`, `article_api_server.js:256`) are modelled as
  strings, with a missing field as the empty string; numbers, booleans, arrays or objects sent
  in those fields, and the coercions JavaScript would apply to them, are not modelled.
- The three day-qualified cases of the test table of `verify_business_status.js` (weekday and
  weekend on one line, and the split-shift week) are not stated as lemmas over their whole
  literal strings. What decides them is stated: `DayAwareStatus.IsDayMatch` accepts a clause
  without a day range that names today, carries 平日 on a weekday or 假日/週末 at a weekend,
  `DayAwareStatus.WeekdayWeekendClauses` applies this to the two clauses of the first case on
  a Sunday, `DayAwareStatus.DayRangeClause` decides a ranged clause, and
  `DayAwareStatus.GetTodayRanges` and `DayAwareStatus.CheckStatus` turn the accepted clauses
  into the answer.
- A second run of `updateFrontmatter` over a whole written post is not proved to leave it
  alone; each step is proved idempotent on the front matter it produced
  (`UpdateFrontmatter.WithFieldsFacts`, `UpdateFrontmatter.MergeTagsTwice`,
  `UpdateFrontmatter.MergeTagsAppendedTwice`).
- FixTags.FixReadsBack: the read-back is proved for posts that had a tag list or have no
  `tags:` at all, and for original tags without `,` or `]`; a tag holding either would be
  split or cut by the script itself.
- FixTags.InsertedReadsBack: proved only for posts without any `tags:` text, where the
  inserted list is the first match.
