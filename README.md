# findspamblogs — a Dafny model

`findspamblogs.js` is a Node.js crawler. It lists abandoned blogs on the
twoday.net platform whose comment sections have filled up with guest spam.
A run has four steps:

1. It reads the first directory ("blogroll") pages. Every blog whose last post is
   older than a threshold ("abandoned", 365 days by default) becomes a suspect.
2. It registers each suspect once in the dictionary `suspectiveBlogs`.
3. It reads each suspect's front page and collects the candidate posts:
   - posts whose comment count is positive;
   - the posts named in the history box.
4. It reads each candidate post's comment page. Comments by a guest
   ("(gast)" or "(guest)" in the author name) whose link is on no whitelist
   count as spam.

At the end it renders every blog with at least a minimum number of spam comments
(15 by default) as an HTML list. For each blog it shows the time since the
last post, the spammed posts and the share of spam in percent.

The model has one module per part of the script:

- `Seqs`: the shape shared by the script's `each` loops that push an item for
  some elements only (`FilterMap`), with its general lemmas.
- `JsStrings`: the JavaScript string operations the script relies on.
  These are `indexOf`, `split(sep)[0]`, `split(sep)[1]`,
  `parseInt(s, 10)`, ASCII `toLowerCase` and number-to-string conversion.
- `Alias`: `getAlias`, the regular expression `/http:\/\/(.*).twoday.net/`.
  The model follows the JavaScript semantics of the expression: leftmost match,
  greedy group, and `.` that does not match line terminators, over characters
  rather than UTF-16 code units.
- `Comments`: the whitelist test, the guest test and the spam analysis of one comment page.
- `Pages`: the directory-page analysis and the candidate posts of a front page.
- `Registry`: the dictionary. Its class `SuspectiveBlogs` holds the entries
  and the insertion order of the keys, which is the order `Object.keys` reports.
  The three callbacks updating it are methods, each proved against a
  function on the dictionary's value (`Table`).
- `Report`: the loop of `renderSpammedBlogs` that builds the listed entries.
- `Pipeline`: the whole run. The downloaded pages are given to it as data,
  and `RunPipeline` is proved equal to the specification function `Run`.
  A smaller whitelist (an empty one above all) can only keep or raise the spam
  found: the run fails or completes alike, and every blog listed with the larger
  whitelist is listed with the smaller one (`Pipeline.RunWhitelistMonotone`).

An uncaught `TypeError` ends the script. The model returns `None` there:
`getAlias` on an address the expression does not match (`null[1]`), and
an assignment through a missing dictionary entry. A failed request also ends
the run, because `q.all` rejects and `.done` rethrows. So the model only
describes runs in which every request succeeds. Requests that fail are not
skipped, even though one might expect that from reading the callbacks.

### Where the code differs from its apparent design

- In stage 1, two suspects next to each other in the output CAN belong to the same
  blog. The alias check only compares a link with the link right before it.
  So links A, B, A, where B is not abandoned, list A twice
  (`Pages.AbandonedBlogListedTwice`). What does hold is
  `Pages.ConsecutiveReadingsDiffer`: suspects from two links in a row differ.
- The guard `posts.indexOf(link) < 0` in `analyzeRecentPosts` reads as a test
  that skips history links already listed. It compares a string with
  `{uri, spammed}` records, so it never finds one, and the candidate list can
  repeat a post (`Pages.RecentPostsKeepDuplicates`). The model follows the
  code. Beside it, `Pages.RecentPostsDeduped` compares each history address
  with the addresses already listed. `Pages.RecentPostsDedupedUnique` proves
  that this version never appends an address already present and still lists
  every history address.
- The months part of the elapsed time ranges over 0..12: 715 days read as
  "1 Jahr, 12 Monate" (`Report.TwelveMonths`). The model follows the code.
  Beside it, `Report.CarriedSplit` carries twelve months into a year.
  `Report.CarriedSplitMeaning` proves that its months lie in 0..11 and that it
  counts the same total of months.

## Model

| member | source | states |
|---|---|---|
| Seqs.FilterMap | findspamblogs.js:91-99 | an `each` loop that pushes at most one item per element yields no more items than elements |
| Seqs.FilterMapSnoc | findspamblogs.js:57-61 | one more element pushes its item at the end exactly when it passes the test |
| Seqs.FilterMapAppend | findspamblogs.js:91-99 | the items of two runs of elements are those of the first followed by those of the second |
| Seqs.FilterMapMembership | findspamblogs.js:91-99 | an item is pushed exactly when some element that passes the test maps to it |
| Seqs.FilterMapMonotone | findspamblogs.js:96 | a test that passes more elements pushes at least as many items |
| JsStrings.IndexOf | findspamblogs.js:77 | `indexOf` gives the first position where the sub-string occurs, or -1 when it occurs nowhere |
| JsStrings.IndexOfFinds | findspamblogs.js:84 | `indexOf(sub) >= 0` holds exactly when `sub` occurs somewhere in the string |
| JsStrings.IndexOfEmpty | findspamblogs.js:77 | the empty string occurs at position 0 of every string |
| JsStrings.BeforeFirst | findspamblogs.js:49 | `split('#')[0]` is the longest prefix without `#`, and it ends at the first `#` or at the end |
| JsStrings.SecondPieceUndefined | findspamblogs.js:32 | `split("vor ")[1]` is undefined exactly when "vor " does not occur |
| JsStrings.SecondPiece | findspamblogs.js:32 | `split(sep)[1]`: the text between the first and the second separator, or after the first; `None` for undefined (characterised by `SecondPieceUndefined` and `SecondPieceBetween`) |
| JsStrings.SecondPieceBetween | findspamblogs.js:32 | the second piece is a prefix of the text after the first separator, holds no separator, and is either all of that text or ends where the first separator in that text starts (also for a separator that overlaps itself) |
| JsStrings.SecondPieceOverlapping | findspamblogs.js:32 | a separator that overlaps itself ends the piece at its first occurrence: `"aaxaaa".split("aa")[1]` is "x" |
| JsStrings.SecondPieceClean | findspamblogs.js:32 | the second piece contains no separator |
| JsStrings.TrimStartMeaning | findspamblogs.js:59 | `parseInt` drops exactly the leading white space and line terminators |
| JsStrings.ParseInt | findspamblogs.js:59 | `parseInt(s, 10)`: leading white space dropped, an optional sign, then the longest run of decimal digits; `None` for NaN (characterised by `DigitPrefixOfDigits`, `ParseIntUnsigned`, `ParseIntNegative`, `ParseIntOfIntToString`) |
| JsStrings.DigitChar | findspamblogs.js:218 | the digit character of 0..9 is a decimal digit of that value |
| JsStrings.NatToStringDigits | findspamblogs.js:218 | a number's decimal text is non-empty, all digits, and has no leading zero |
| JsStrings.DigitsValueOfNatToString | findspamblogs.js:218 | the digits of a number's decimal text read back as the number |
| JsStrings.IntToString | findspamblogs.js:218-219 | `String(n)` of a whole number (characterised by `NatToStringDigits`, `DigitsValueOfNatToString`, `ParseIntOfIntToString`) |
| JsStrings.DigitPrefixOfDigits | findspamblogs.js:32 | `parseInt` reads exactly the run of digits up to the first non-digit |
| JsStrings.ParseIntUnsigned | findspamblogs.js:32 | an unsigned digit run parses as its decimal value |
| JsStrings.ParseIntNegative | findspamblogs.js:32 | a minus sign before a digit run parses as the negated value |
| JsStrings.ParseIntOfIntToString | findspamblogs.js:32 | `parseInt` reads back the decimal text of any integer followed by a non-digit |
| JsStrings.ToLower | findspamblogs.js:96 | `toLowerCase` keeps the length and maps each character to its lower case |
| Alias.LineEndMeaning | findspamblogs.js:19 | the line end found is the first line terminator at or after the start, or the end of the text |
| Alias.LastTwodayMeaning | findspamblogs.js:19 | the position found is the last place in the range where `.twoday.net` matches |
| Alias.MatchFrom | findspamblogs.js:19 | every match from a start ends its group at or before the last `.twoday.net` on that line |
| Alias.NoMatchFrom | findspamblogs.js:19 | no match starts where "http://" is missing or no `.twoday.net` follows on the line |
| Alias.FirstMatchMeaning | findspamblogs.js:19 | the search finds the leftmost start of a match, and for it the longest group |
| Alias.GetAlias | findspamblogs.js:18-20 | `getAlias`: the first group of the match, `None` where there is no match and `null[1]` throws (characterised by `GetAliasMeaning`) |
| Alias.GetAliasMeaning | findspamblogs.js:18-20 | `getAlias` fails exactly when the expression matches nowhere; otherwise it returns the group of the leftmost, longest match |
| Alias.GetAliasOfBlogUri | findspamblogs.js:18-20 | the alias of `http://<alias>.twoday.net...` is `<alias>` when no later `.twoday.net`-shaped text is on the same line |
| Comments.IsWhitelisted | findspamblogs.js:74-81 | the loop answers true exactly when some whitelist entry occurs in the link; an empty whitelist never matches |
| Comments.EmptyEntryWhitelistsAll | findspamblogs.js:255 | an empty whitelist entry, such as the one an empty file gives, whitelists every link |
| Comments.OnWhitelistMonotone | findspamblogs.js:74-81 | adding whitelist entries never removes a link from the whitelist |
| Comments.IsGuestUser | findspamblogs.js:83-85 | a user is a guest exactly when "(gast)" or "(guest)" occurs in the name |
| Comments.AnalyzePostForSpam | findspamblogs.js:87-101 | the result keeps the address, counts every comment, and lists the spam entries of the guests not whitelisted, in page order |
| Comments.SpamEntries | findspamblogs.js:91-99 | the `href (user)` entries of the guest comments not whitelisted, in page order (characterised by `SpamEntriesMembership`, `SpamEntriesAppend`) |
| Comments.SpamEntriesAppend | findspamblogs.js:91-99 | the spam entries of two runs of comments are the entries of the first followed by those of the second |
| Comments.SpamEntriesMembership | findspamblogs.js:96-97 | an entry is listed exactly when some comment by a guest whose lower-cased name marks it as one, with a link not on the whitelist, gives `href (user)` |
| Comments.SpamEntriesWhitelistMonotone | findspamblogs.js:96 | a longer whitelist never yields more spam entries |
| Pages.DaysSinceLastPostReads | findspamblogs.js:32 | the day count reads back from "... vor <n> Tagen" when "vor " occurs only there |
| Pages.NoVorInDigits | findspamblogs.js:32 | a number's text cannot contain a "vor " that the text after it lacks |
| Pages.DaysSinceLastPost | findspamblogs.js:32 | `parseInt(text.split("vor ")[1], 10)`: the day count after the first "vor ", `None` for NaN (read back by `DaysSinceLastPostReads`) |
| Pages.AnalyzeBlogrollPage | findspamblogs.js:22-42 | the loop over the story links computes the page's suspects, `None` where `getAlias` throws |
| Pages.SuspectsOf | findspamblogs.js:26-39 | the page's suspects: a link with the alias of the link before it is skipped, any other gives a suspect when its days exceed the threshold; `None` once `getAlias` throws (characterised by `SuspectsOfSound`, `SuspectsOfComplete`, `SuspectsOfDefined`) |
| Pages.SuspectsOfPrefix | findspamblogs.js:26-39 | the suspects of the first links are a prefix of the page's suspects |
| Pages.SuspectsOfStuck | findspamblogs.js:28 | once an alias cannot be read, the page's analysis fails whatever follows |
| Pages.SuspectsOfDefined | findspamblogs.js:28 | readings give a suspect list exactly when every alias can be read |
| Pages.BlogrollSuspectsDefined | findspamblogs.js:28 | a directory page is analysed exactly when `getAlias` succeeds on every story link |
| Pages.BlogrollSuspects | findspamblogs.js:22-40 | the suspects of a directory page, `None` where `getAlias` throws (characterised by `BlogrollSuspectsDefined`, `SuspectsOfSound`, `SuspectsOfComplete`) |
| Pages.SuspectsOfSound | findspamblogs.js:29-38 | every suspect is abandoned for longer than the threshold and comes from a link that starts a run of links of its blog |
| Pages.SuspectsOfComplete | findspamblogs.js:29-38 | every link that starts a run and shows more days than the threshold gives a suspect |
| Pages.ConsecutiveReadingsDiffer | findspamblogs.js:29-38 | when two links in a row each add a suspect, the two are next to each other in the page's suspects and belong to different blogs |
| Pages.AbandonedBlogListedTwice | findspamblogs.js:29-38 | links A(400 days), B(10 days), A(400 days) list A twice |
| Pages.CommentsUriIdempotent | findspamblogs.js:49 | normalising a `#comments` address again changes nothing |
| Pages.CommentsUri | findspamblogs.js:49 | `href.split('#')[0] + '#comments'` (idempotent by `CommentsUriIdempotent`) |
| Pages.AnalyzeHistoryItems | findspamblogs.js:44-52 | one `#comments` address per history link, in order, each the link up to its first `#` |
| Pages.AnalyzeFrontPostsWithComments | findspamblogs.js:54-63 | the loop keeps the comment links whose count parses as positive, in page order |
| Pages.FrontPosts | findspamblogs.js:57-61 | the comment links whose count parses as more than 0, each as an unspammed post, in page order (characterised by `FrontPostsMembership`) |
| Pages.FrontPostsMembership | findspamblogs.js:57-61 | a post is kept exactly when some link with its address has a count that parses as more than 0, and it starts unspammed; there are no more posts than comment links |
| Pages.AnalyzeRecentPosts | findspamblogs.js:65-72 | the front-page posts, then every history link as an unspammed `#comments` post |
| Pages.RecentPosts | findspamblogs.js:67-71 | the front-page posts followed by one unspammed post per history link (duplicates kept, by `RecentPostsKeepDuplicates`) |
| Pages.RecentPostsKeepDuplicates | findspamblogs.js:68-69 | a story on the front page and in the history box is a candidate twice |
| Pages.RecentPostsUnspammed | findspamblogs.js:55-72 | every candidate post starts unspammed; there is one per kept front-page link and one per history link |
| Pages.RecentPostsDeduped | findspamblogs.js:66-72 | the candidate posts with a guard that compares each history address with the addresses already listed (characterised by `RecentPostsDedupedUnique`) |
| Pages.AddHistoryFresh | findspamblogs.js:69 | with that guard the posts already listed stay in front, and every post appended is unspammed and has an address no earlier post has |
| Pages.AddHistorySources | findspamblogs.js:68-70 | every post appended has the `#comments` address of some history link |
| Pages.AddHistoryCovers | findspamblogs.js:68-70 | an address listed stays listed, and every history link's address ends up listed |
| Pages.RecentPostsDedupedUnique | findspamblogs.js:66-72 | the deduplicated candidates keep the front-page posts in front, never append an address already present, come from the history links and list every one of them; without repeats on the front page there are none at all |
| Registry.FlattenMembers | findspamblogs.js:260-261 | an item is in the concatenation exactly when it is in one of the lists |
| Registry.FlattenSnoc | findspamblogs.js:260-261 | concatenating one more list appends it |
| Registry.Registered | findspamblogs.js:262-270 | a suspect whose alias has no entry gets a fresh entry and its key appended; otherwise nothing changes (characterised by `RegisteredAllDomain`, `RegisteredAllFirstSighting`) |
| Registry.NewBlog | findspamblogs.js:263-269 | the entry of a blog seen for the first time (characterised by `RegisteredAllFirstSighting`) |
| Registry.RegisteredAll | findspamblogs.js:260-272 | every suspect registered in order |
| Registry.RegisteredWellFormed | findspamblogs.js:262-270 | registering one suspect keeps every key listed once, and only keys of entries listed |
| Registry.RegisteredAllWellFormed | findspamblogs.js:260-272 | the whole registration keeps the dictionary and its key order consistent |
| Registry.RegisteredAllDomain | findspamblogs.js:260-272 | after registration the entries are the old ones plus every sighted alias; old entries stay as they were; keys are only appended |
| Registry.RegisteredAllKeysPrefix | findspamblogs.js:262-270 | registration keeps the old keys as a prefix |
| Registry.AddedKeysStep | findspamblogs.js:262-270 | a suspect's alias is appended before the keys of the later suspects exactly when it is new |
| Registry.FirstSighting | findspamblogs.js:260-262 | the position of the first suspect of a blog, or the length when there is none |
| Registry.AddedKeysNew | findspamblogs.js:260-272 | the keys registration appends are exactly the aliases not known before that some suspect has |
| Registry.AddedKeysInSightingOrder | findspamblogs.js:260-272 | the appended keys come in the order of their first sightings, which is the `Object.keys` order the later stages and the report follow |
| Registry.RegisteredAllFirstSighting | findspamblogs.js:262-269 | a new alias's entry is made from its first sighting: its days, no posts, zero counters, no spam links |
| Registry.RegisteredAllAbandoned | findspamblogs.js:262-269 | registering abandoned suspects keeps every entry abandoned and its spam bookkeeping bounded |
| Registry.WithPosts | findspamblogs.js:277-280 | an empty list changes nothing; otherwise the entry of the first post's alias gets the list; `None` where `getAlias` throws or the entry is missing (characterised by `WithPostsAssigns`) |
| Registry.WithAllPosts | findspamblogs.js:276-281 | the post lists assigned in order, `None` at the first that throws (characterised by `WithAllPostsKeeps`) |
| Registry.SuspectiveBlogs.constructor | findspamblogs.js:257 | the dictionary starts empty |
| Registry.SuspectiveBlogs.Register | findspamblogs.js:262-270 | one suspect is registered unless its alias already has an entry |
| Registry.SuspectiveBlogs.RegisterAll | findspamblogs.js:259-272 | the nested `forEach` loops register every suspect of every page, in order |
| Registry.WithAllPostsKeeps | findspamblogs.js:275-281 | stage 2 keeps the keys and every entry apart from its post list |
| Registry.SameButPostsKeeps | findspamblogs.js:279 | changing post lists keeps the dictionary consistent, every blog abandoned and the spam bookkeeping bounded |
| Registry.WithPostsAssigns | findspamblogs.js:277-280 | a non-empty list replaces the post list of the entry named by its first address, and no other entry |
| Registry.SuspectiveBlogs.AssignPosts | findspamblogs.js:277-280 | one post list assigned; fails, changing nothing, where the script throws |
| Registry.SuspectiveBlogs.AssignAllPosts | findspamblogs.js:276-281 | the `forEach` over the blogs' post lists, stopping where one throws |
| Registry.FirstIndex | findspamblogs.js:292-294 | the index where the search loop stops: the first post with the address, or the length |
| Registry.MarkSpammed | findspamblogs.js:292-296 | the first post with the address gets its flag set (characterised by `MarkSpammedOnlyFirst`) |
| Registry.SuspectiveBlogs.FindPost | findspamblogs.js:292-294 | the search loop returns exactly that index |
| Registry.MarkSpammedOnlyFirst | findspamblogs.js:292-296 | only the first post with the address becomes spammed; addresses and all other flags stay |
| Registry.AddMissing | findspamblogs.js:299-302 | each new spam entry not yet present appended in order (characterised by `AddMissingContents`, `AddMissingNoDuplicates`, `AddMissingOnce`) |
| Registry.AddMissingContents | findspamblogs.js:299-302 | the old spam links stay a prefix and the result holds exactly the old and the new entries |
| Registry.AddMissingNoDuplicates | findspamblogs.js:299-302 | a spam list without repeats stays without repeats |
| Registry.AddMissingOnce | findspamblogs.js:299-302 | a new entry ends up in the list exactly once |
| Registry.SuspectiveBlogs.AppendMissing | findspamblogs.js:299-302 | the push loop appends each missing entry in order |
| Registry.MergedBlog | findspamblogs.js:289-302 | one result added to a blog's counters; with spam, its post marked and its entries added (characterised by `MergedBlogCounters`, `MergedBlogBounded`) |
| Registry.Merged | findspamblogs.js:286-304 | one result folded into its blog's entry; ignored for an alias without entry; `None` where `getAlias` throws (characterised by `MergedUnregistered`, `MergedOthersUnchanged`) |
| Registry.MergedAll | findspamblogs.js:285-305 | the results folded in order, `None` at the first that throws (characterised by `MergedAllKeeps`, `MergedAllBounded`) |
| Registry.MergedBlogCounters | findspamblogs.js:289-296 | the counters grow by the post's comments and spam comments; days and post addresses stay; a spam-free post changes nothing else |
| Registry.MergedUnregistered | findspamblogs.js:286-288 | the fold fails exactly where the alias cannot be read; a result for an alias without an entry is ignored |
| Registry.MergedOthersUnchanged | findspamblogs.js:286-304 | one result changes only the entry of its own blog and keeps the keys |
| Registry.MergedBlogBounded | findspamblogs.js:289-302 | folding a plausible result keeps spam links free of repeats and within spam comments, and spam comments within comments |
| Registry.MergedAllKeeps | findspamblogs.js:285-305 | stage 3 keeps the keys and every blog's days |
| Registry.MergedAllBounded | findspamblogs.js:285-305 | stage 3 keeps every blog's spam bookkeeping bounded |
| Registry.MergedAllLessSpam | findspamblogs.js:285-305 | results that pair up with others (same post, same comments, no more spam) stop the fold at the same point, and otherwise leave every blog with the same days and comments and no more spam comments |
| Registry.SuspectiveBlogs.MergePostResult | findspamblogs.js:286-304 | one result folded into the dictionary; fails, changing nothing, where `getAlias` throws |
| Registry.SuspectiveBlogs.MergeAllPostResults | findspamblogs.js:285-305 | the `forEach` over all post results, stopping where one throws |
| Report.TimeSplit | findspamblogs.js:209-210 | the years are the whole years in the days; the months are within a half of twelve times the rest of a year over 365, a half rounded up, so 0..12 |
| Report.YearsPassed | findspamblogs.js:209 | `Math.floor(days / 365)` |
| Report.MonthsPassed | findspamblogs.js:210 | `Math.round((days / 365 - years) * 12)` on exact fractions |
| Report.FourHundredDays | findspamblogs.js:209-210 | 400 days are 1 year and 1 month |
| Report.TwelveMonths | findspamblogs.js:209-210 | 715 days are 1 year and 12 months |
| Report.CarriedSplit | findspamblogs.js:209-210 | years and months with twelve months carried into a year (characterised by `CarriedSplitMeaning`) |
| Report.CarriedSplitMeaning | findspamblogs.js:209-210 | the carried months lie in 0..11, the total of months is that of `YearsPassed` and `MonthsPassed`, and it is within a half of twelve times the days over 365 |
| Report.CarriedTwelveMonths | findspamblogs.js:209-210 | 715 days carry into 2 years and 0 months |
| Report.PluralSuffix | findspamblogs.js:218-219 | a unit gets the plural "e" exactly when the number is not 1 |
| Report.Counted | findspamblogs.js:218-219 | a number followed by its unit, with the plural "e" unless it is 1 |
| Report.TimePassed | findspamblogs.js:218-219 | the text `(~ <y> Jahr(e), <m> Monat(e))` (one case fixed by `TimePassedOfFourHundredDays`) |
| Report.TimePassedOfFourHundredDays | findspamblogs.js:218-219 | 400 days read "(~ 1 Jahr, 1 Monat)" |
| Report.DirtinessRounds | findspamblogs.js:223 | with comments analysed, the dirtiness is within a half of the real spam percentage, a half rounded up, and lies in 0..100 when spam does not exceed comments |
| Report.DirtinessOf | findspamblogs.js:223 | `Math.round(spam / comments * 100)`, NaN for 0/0 and Infinity for spam without comments (characterised by `DirtinessRounds`) |
| Report.DirtyPostsMembers | findspamblogs.js:211-214 | an address is a dirty post exactly when some spammed post has it, and there are no more dirty posts than posts |
| Report.DirtyPosts | findspamblogs.js:211-214 | the addresses of the spammed posts, in post order (characterised by `DirtyPostsMembers`, `DirtyPostsAppend`) |
| Report.DirtyPostsAppend | findspamblogs.js:211-214 | the dirty posts of two runs of posts are those of the first followed by those of the second |
| Report.CollectDirtyPosts | findspamblogs.js:211-214 | the inner loop collects the spammed posts' addresses in order |
| Report.EntryOf | findspamblogs.js:215-226 | the view model of one listed blog (characterised by `EntryFields`) |
| Report.SpamKeys | findspamblogs.js:206-208 | every alias listed has an entry with at least the minimum of spam comments |
| Report.SpamKeysListed | findspamblogs.js:206-208 | an alias is listed exactly when it is a key whose blog has at least the minimum of spam comments |
| Report.SpamBlogsSnoc | findspamblogs.js:206-226 | one more key appends its blog's entry when the blog has enough spam, and nothing otherwise |
| Report.SpamKeysLessSpam | findspamblogs.js:205-208 | a dictionary with the same keys and no more spam per blog lists no alias the other one omits |
| Report.SpamBlogsListed | findspamblogs.js:205-208 | an entry is listed exactly when it is the entry of a key whose blog has at least the minimum of spam comments |
| Report.SpamBlogs | findspamblogs.js:205-226 | the entries of the keys whose blog has at least the minimum of spam, in key order (characterised by `SpamBlogsListed`, `SpamBlogsSnoc`) |
| Report.EntryFields | findspamblogs.js:215-226 | an entry carries the blog's alias, days and post count; spammed posts equal the number of dirty posts, which equal the spammed posts' addresses; the dirtiness is a percentage in 0..100 when the bookkeeping is bounded and comments exist |
| Report.RenderSpammedBlogs | findspamblogs.js:205-227 | the loop over the keys builds exactly the list of entries of the blogs with enough spam, in key order |
| Pipeline.PostStages | findspamblogs.js:275-305 | stages 2 and 3 keep the dictionary consistent |
| Pipeline.Crawl | findspamblogs.js:257-305 | a completed crawl leaves a consistent dictionary |
| Pipeline.Run | findspamblogs.js:257-311 | the entries rendered after a completed crawl, `None` where the run throws |
| Pipeline.AnalyzeDirectory | findspamblogs.js:162-169 | the directory pages' suspect lists in page order, `None` when one page's analysis throws |
| Pipeline.BlogUri | findspamblogs.js:126 | the front-page address of a blog (characterised by `BlogUriAlias`) |
| Pipeline.BlogUriAlias | findspamblogs.js:126 | `getAlias` of a blog's front-page address gives back the alias, for an alias without line terminators |
| Pipeline.PageSuspects | findspamblogs.js:162-169 | stage 1: the suspects of every directory page in page order, `None` when one page throws (characterised by `PageSuspectsAbandoned`) |
| Pipeline.BlogPosts | findspamblogs.js:171-178 | stage 2: the candidate posts of every key's front page, in key order (characterised by `BlogPostsUnspammed`) |
| Pipeline.BlogPostsUnspammed | findspamblogs.js:57-72 | stage 2 gives one list per key, of unspammed posts, no longer than that front page's comment and history links together |
| Pipeline.BlogResults | findspamblogs.js:180-191 | stage 3 for one blog: one result per candidate post, in post order (characterised by `BlogResultsAppend`, `FlattenBlogResults`) |
| Pipeline.SpamResults | findspamblogs.js:180-191 | stage 3: the results of every blog's posts, blog by blog in key order (characterised by `SpamResultsOfPosts`, `SpamResultsPlausible`) |
| Pipeline.AnalyzeBlogPages | findspamblogs.js:171-178 | one candidate post list per key, in key order |
| Pipeline.AnalyzeCommentPages | findspamblogs.js:180-191 | one post result per candidate post, blog by blog in key order |
| Pipeline.RunPipeline | findspamblogs.js:257-311 | the three callbacks and the rendering compute exactly the specified run |
| Pipeline.SpamResultsPlausible | findspamblogs.js:87-101 | every post result reports no more spam comments than comments |
| Pipeline.PageSuspectsAbandoned | findspamblogs.js:36-38 | every suspect of every directory page is abandoned for longer than the threshold |
| Pipeline.RegistrationInvariant | findspamblogs.js:257-272 | registration of abandoned suspects into the empty dictionary leaves every blog abandoned with bounded bookkeeping |
| Pipeline.PostStagesInvariant | findspamblogs.js:275-305 | stages 2 and 3 keep every blog abandoned and its bookkeeping bounded |
| Pipeline.CrawlInvariant | findspamblogs.js:257-305 | after a completed crawl every blog is abandoned and its bookkeeping bounded |
| Pipeline.RunListsAbandonedSpamBlogs | findspamblogs.js:205-226 | every listed blog is abandoned for longer than the threshold and has at least the minimum of spam; its spammed posts equal its dirty posts and are at most its analysed posts; with a minimum of at least 1 its dirtiness is a percentage in 0..100 |
| Pipeline.BlogResultsAppend | findspamblogs.js:180-191 | the results of two runs of posts are those of the first followed by those of the second |
| Pipeline.FlattenBlogResults | findspamblogs.js:180-191 | the per-blog results concatenated are the results of the concatenated posts |
| Pipeline.SpamResultsOfPosts | findspamblogs.js:180-191 | stage 3 gives one result per candidate post, in key order and post order |
| Pipeline.BlogResultsWhitelistMonotone | findspamblogs.js:87-101 | with a larger whitelist every post reports the same address and comments and no more spam entries |
| Pipeline.PostStagesWhitelistMonotone | findspamblogs.js:275-305 | stages 2 and 3 with a larger whitelist fail exactly when they fail with the smaller, and otherwise leave less spam in every blog |
| Pipeline.CrawlWhitelistMonotone | findspamblogs.js:255-305 | a smaller whitelist completes the crawl exactly when the larger does; the larger gives the same blogs, days and comments, no blog with more spam, and no alias listed that the smaller omits |
| Pipeline.RunWhitelistMonotone | findspamblogs.js:205-226 | every blog listed with the larger whitelist is listed with the smaller one, with at least as many spam comments |

## Left out

- Network, timers and I/O are not modelled: `request`, `q.delay`, the
  console messages, reading `html/spamMain.html`, `mustache.render` and
  writing the HTML file. The pages a run downloads are parameters (`Pipeline.Web`).
  So is the result of each HTML query: the story links of a directory page,
  a front page's comment links and history links, and a post page's comment links.
- HTML parsing (`cheerio.load` and its selectors) is not modelled. Each page is
  the sequence of links its selector picks out, in document order.
- The request addresses `http://twoday.net/main?start=<15 * page>`,
  `http://<alias>.twoday.net/` (`Pipeline.BlogUri`) and the post addresses
  are inputs to the page functions. The model does not check that the server answers them.
- Failed requests are not modelled: a failure ends the script through the rejected `q.all`,
  so the model takes only successful runs. The dictionary a failed stage leaves
  behind is not specified; the script stops at that point.
- The command line (`command-line-args`, `--help`) is not modelled. The page count,
  the threshold and the spam minimum are parameters: the directory
  sequence's length, `threshold` and `minSpam`.
- The whitelist file (`fs.readFileSync(...).trim().split('\r\n')`) is not
  modelled; the whitelist is a parameter. `Comments.EmptyEntryWhitelistsAll`
  records what an empty file gives: `[""]`, which whitelists every link.
- The date in the report header is not modelled, and neither are the constant fields of the view model.
- `Object.keys` is modelled as insertion order. JavaScript lists
  integer-like keys such as an alias "123" first, in numeric order; the model does not.
- Months need no such caveat: `24 * (d % 365) + 365` is odd, so twelve times the fraction of a year is never a half, and its
  distance from one is far above double rounding error.
- `hasOwnProperty` and `obj[alias]` are modelled on a map. Aliases that are names
  of `Object.prototype` properties (`constructor`, `__proto__`) would behave differently,
  and the model does not capture that.
- The `try`/`catch` around the day count (lines 31-35) is not modelled:
  `link.next().text()` does not throw on a cheerio selection. A missing
  "vor " gives `parseInt(undefined)`, that is NaN, modelled as `None`.
- A link without an `href` is not modelled: every link's `href` is a string.
- Strings are sequences of characters, not of UTF-16 code units. Without the `u` flag the
  expression's `.` matches one code unit, so on `"http://a" + U+1F600 + "twoday.net"` JavaScript
  captures "a" and a lone high surrogate where the model captures "a". The same holds for
  `indexOf` and `split` on text outside the Basic Multilingual Plane.
- `Pipeline.Web` gives one page per address. A candidate post listed twice
  (`Pages.RecentPostsKeepDuplicates`) is therefore analysed twice with the same
  comments, and both results enter `analyzedComments` and `spamComments`.
  Two requests of the same page that got different answers are not modelled.
- `JsStrings.ParseInt` and `JsStrings.IntToString` use unbounded integers. JavaScript's numbers
  are doubles, inexact above 2^53, and `String` switches to exponent form at 10^21;
  day counts and comment counts stay far below both.
- JsStrings.ToLower: lowers ASCII letters only. Only two non-ASCII letters lower-case to an ASCII
  letter: U+0130 gives "i" plus a combining dot, and U+212A gives "k". Neither
  "i" nor "k" occurs in "(gast)" or "(guest)", so the guest test is unaffected.
- Report.DirtinessOf: computes `Math.round(spam / analyzed * 100)` with exact
  rationals, not IEEE doubles. Near a half the double result can differ: 29/200
  is slightly below 0.145, so JavaScript shows 14 and the model 15.
  `NaN` and `Infinity` for zero comments are kept.
- Number formatting is modelled for integers only; the day counts are whole numbers.
