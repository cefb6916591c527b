# Proofs for AnythingMCP

A model, in Dafny, of the parts of AnythingMCP whose correctness is not plain from reading one
function, with proofs of what they promise. `dafny verify dfyconfig.toml` checks everything.

| file | what it models |
|---|---|
| `EditDistance.dfy`, `CatalogMatching.dfy`, `CatalogSearch.dfy`, `SearchResults.dfy` | the search over the connector catalog: bounded typo distance, scores, tiers of matches, promotions, and what they make of a query |
| `Text.dfy`, `SegmentOutput.dfy`, `SegmentPacking.dfy` | the file extractor's text normalisation, its segments under a character budget, and how blocks are packed into them |
| `Unicode.dfy`, `Utf16.dfy`, `TextDecode.dfy` | UTF-8 (sections 3 and 4 of RFC 3629), UTF-16, and decoding of files that were cut |
| `Json.dfy`, `JsonReader.dfy`, `LineProtocol.dfy`, `SharedDecoder.dfy` | the code runner's messages: JSON text (RFC 8259), lines over partial writes and chunked reads, one decoder for several streams |
| `CallBridge.dfy`, `CallAnswers.dfy` | the code runner's tool calls: limits, matching answers to calls, and that no call is forgotten |
| `ApprovalWatch.dfy`, `ApprovalWatcher.dfy`, `ApprovalProgress.dfy` | the app-approval watcher: schedule, any number of processes over one row, and what ends a watch |
| `Alerts.dfy` | failure alerts: windows, threshold and cooldown, in memory and in Redis |
| `WindowLimiter.dfy` | the per-key sliding window |
| `BoundPayload.dfy`, `BoundExcerpt.dfy` | bounded excerpts of payloads, and what they keep |
| `McpMerge.dfy` | merging a server's tools with the catalog's policy |
| `AddressFix.dfy`, `AddressShapes.dfy` | the smallest change that makes an address acceptable, and the shapes of addresses it goes by |
| `Fingerprint.dfy`, `KeyOrder.dfy`, `AdapterVersion.dfy` | canonical JSON, the order of its keys, and adapter versions |
| `Options.dfy`, `Lists.dfy`, `Sorting.dfy` | optional values, lists, the stable sort of JavaScript arrays |

Code that updates state in place is modelled by classes and loops (`Output`, `LineWriter`, `LineReader`,
`CallTable`, `AnswerTable`, `Console`, `MemoryAlerts`, `PerKeyWindowLimiter`, and the loops of the search,
the merge and the address fix), each proved against a function of the old state; the lemmas are about those
functions. Concurrent parts (`LineProtocol`, `CallBridge`, `ApprovalWatcher`, the Redis part of `Alerts`) are
state machines whose runs are arbitrary lists of atomic steps.

## What the proofs found

- Canonical JSON drops a field named `__proto__`: assigning it sets the prototype of the fresh object
  instead of a field. Everything else about the canonical form holds; the exact condition is in
  `Fingerprint.CanonicalDecides` and `ProtoFieldIsLost` is the example.
- Tools whose names the collation ties keep the order they came in, so the version of an adapter is the same
  for every order of its tools exactly when any two tied tools have equal fingerprints
  (`ToolOrderIsIrrelevantIff`; `TiedNamesKeepTheirOrder` is an example of two that do not).
- The supervisor decodes the child's output, its diagnostics and the output of other runs with one streaming
  decoder (supervisor.js:62), so its messages are known to arrive as sent while chunks of other streams leave
  that decoder as they find it (`UndisturbedMessagesArriveInOrder`). `InterruptionIsHarmlessIff` is the exact
  condition for one such chunk. For diagnostics made of whole characters it is that the output is not cut
  inside a character, the cut of U+FFFD after its second byte aside (`WholeTextIsHarmlessIff`);
  `InterruptionGarbles` is a run in which another message arrives. The harness has a decoder of its own, and
  there the claim holds without condition (`MessagesArriveInOrder`).
- At most one approval email holds in every interleaving as long as no other write of the whole config puts an
  unsafe watch in place, be it a stale copy or none; `OverwriteIsSafeIff` says exactly which watches allow a
  second email.
- A payload that has a field named `_amcp_truncated` itself replaces the marker of its excerpt, unless no shape
  fits or the field shrinks to the marker (`ExcerptIsMarkedIff`, and `MarkerIsLost` for an example).
- With a tool prefix, different remote names can get one local name (`LocalNamesMayCollide`), and then one
  merged name (`MergedNamesMayCollide`); distinct local names are enough (`DistinctLocalNamesStayDistinct`), and
  `NamesAreDistinctIff` is the exact condition.
- The cap named in bytes on captured logs counts UTF-16 units, so up to three times as many bytes are logged
  (`LogLimitCountsUnits`, attained by `LogEuros`). So does the cap on call arguments (`ArgumentLimitCountsUnits`).
- A namespace counts as shared when two listed names were found under it, also when both are spellings of
  one catalog tool (`TwoSpellingsShare`), though the comment at mcp-adapter.util.ts:109 speaks of two tools.

## Model

| member | source | states |
|---|---|---|
| `EditDistance.DistanceIsLeastCost` | packages/backend/src/adapters/catalog-search.ts:310-327 | the recurrence is the least cost over all edit scripts of keep, insert, delete, substitute and swap steps that turn one word into the other |
| `EditDistance.DistanceIsSymmetric` | packages/backend/src/adapters/catalog-search.ts:310-327 | the distance is the same in both directions |
| `EditDistance.DistanceBoundsLengths` | packages/backend/src/adapters/catalog-search.ts:307 | the distance is never below the difference of the lengths, so the first exit is right |
| `EditDistance.ZeroOnlyWhenEqual` | packages/backend/src/adapters/catalog-search.ts:308 | the distance is 0 exactly for equal words, so the second exit is right |
| `EditDistance.NextCellAbove` | packages/backend/src/adapters/catalog-search.ts:315-320 | a cell whose left, upper and diagonal neighbours exceed the bound exceeds it too, also when a transposition reads the row before the previous one |
| `EditDistance.RowMinimumEndsSearch` | packages/backend/src/adapters/catalog-search.ts:321-323 | once every cell of a row exceeds the bound, so does the distance: the third exit is right |
| `EditDistance.BoundedDistance` | packages/backend/src/adapters/catalog-search.ts:306-328 | the two-row program with its three exits returns the exact distance when that is at most the bound, and some value above the bound otherwise |
| `CatalogMatching.NearestIsNearest` | packages/backend/src/adapters/catalog-search.ts:400-413 | the minimum kept over the candidates is attained by an eligible one, no eligible one is nearer, and nothing is kept only when all exceed the allowance |
| `SearchResults.WordScoresExactly` | packages/backend/src/adapters/catalog-search.ts:377-396 | a word of two letters or more scores 60, 55, 40, 35, 10 or 0, exactly by whether it, as typed or compacted, is a word of the name, is one of an alias, starts a word or the whole of the name, starts one of an alias, is in the text, or none of these |
| `SearchResults.LetterScoresExactly` | packages/backend/src/adapters/catalog-search.ts:381-386 | a single letter scores 120 as a whole name, 110 as a whole alias, and nothing else |
| `SearchResults.FuzzyExactly` | packages/backend/src/adapters/catalog-search.ts:400-413 | a word is a typo of distance d exactly when d is the least true distance to an eligible word, name or alias, and within the allowance |
| `CatalogMatching.FuzzyDistance` | packages/backend/src/adapters/catalog-search.ts:400-413 | built on the bounded program, the scan returns the least true distance of the word to an eligible candidate, if that is within the allowance |
| `CatalogMatching.TallyEntry` | packages/backend/src/adapters/catalog-search.ts:539-557 | the counters of one entry after all words, and exactly the words that match it |
| `CatalogMatching.RateEntries` | packages/backend/src/adapters/catalog-search.ts:528-577 | the ratings of all entries in catalog order, and exactly the words some entry matches, also entries left out later |
| `CatalogMatching.TallyIsBounded` | packages/backend/src/adapters/catalog-search.ts:539-557 | every word counts once, as direct or as fuzzy |
| `CatalogMatching.TallyCounts` | packages/backend/src/adapters/catalog-search.ts:539-557 | the counts reach the number of words exactly when every word matches (directly), and are 0 exactly when none does |
| `CatalogMatching.RatingsRate` | packages/backend/src/adapters/catalog-search.ts:528-577 | each entry is rated at most once, in the order of the catalog |
| `SearchResults.WholeScoresExactly` | packages/backend/src/adapters/catalog-search.ts:558-564 | a query that is a name as a whole gets 120 more, one that is an alias 110, never both |
| `SearchResults.RatingExactly` | packages/backend/src/adapters/catalog-search.ts:528-577 | the score, the counts and the summed distance of an app, from the points of its terms and the query as a whole |
| `SearchResults.StoreRatingExactly` | packages/backend/src/adapters/catalog-search.ts:565-575 | the same for a file store the query does not ask for: when it is left out, when it is weak, and with which score |
| `SearchResults.WeakExactly` | packages/backend/src/adapters/catalog-search.ts:539-575 | over a whole search: weak are the file stores of a query that asks for none, unless every term or the query as a whole names them |
| `CatalogMatching.DirectTierExactly` | packages/backend/src/adapters/catalog-search.ts:565-580 | an entry is a direct match exactly when every word matches it directly and it is not a file store that a query about something else fails to name in every word |
| `CatalogMatching.TiersHold` | packages/backend/src/adapters/catalog-search.ts:579-602 | what the direct, fuzzy, weak and partial tiers hold, and their caps of 3, 5 and 10 |
| `CatalogMatching.TiersAreDisjoint` | packages/backend/src/adapters/catalog-search.ts:579-609 | no two tiers share an entry and no tier lists one twice |
| `CatalogMatching.DirectTierIsRanked` | packages/backend/src/adapters/catalog-search.ts:427-433 | direct and weak matches come by score, then priority, then name |
| `CatalogMatching.FuzzyTierIsNearest` | packages/backend/src/adapters/catalog-search.ts:583-590 | no fuzzy match left out by the cap comes before one that is in |
| `CatalogMatching.FuzzyTierIsSorted` | packages/backend/src/adapters/catalog-search.ts:583-590 | fuzzy matches come by distance, then words matched directly, then rank |
| `CatalogMatching.PartialTierIsBest` | packages/backend/src/adapters/catalog-search.ts:591-602 | partial matches come by words matched, weak ones last, and none left out by the cap comes before one that is in |
| `SearchResults.DirectTierComesByScore` | packages/backend/src/adapters/catalog-search.ts:579-582 | in the direct and weak tiers a higher score comes first |
| `SearchResults.FuzzyTierIsFull` | packages/backend/src/adapters/catalog-search.ts:583-590 | a fuzzy match is left out only where the cap is reached |
| `SearchResults.FuzzyTierComesByTypos` | packages/backend/src/adapters/catalog-search.ts:586-589 | fewer typos come first, then more direct words, then the higher score |
| `SearchResults.PartialTierIsFull` | packages/backend/src/adapters/catalog-search.ts:591-602 | a partial match is left out only where ten are listed |
| `SearchResults.PartialTierComesByWords` | packages/backend/src/adapters/catalog-search.ts:594-600 | more words matched come first, then apps, then more direct words, then the higher score |
| `SearchResults.TiersFollow` | packages/backend/src/adapters/catalog-search.ts:604-609 | the hits of the tiers in order: direct, fuzzy, weak, partial |
| `CatalogSearch.TermsOfWords` | packages/backend/src/adapters/catalog-search.ts:294-300 | a query with words always leaves words to match on |
| `CatalogSearch.TermIsWord` | packages/backend/src/adapters/catalog-search.ts:294-300 | a stopword or single letter is matched on only when the query has nothing else |
| `SearchResults.TermsExactly` | packages/backend/src/adapters/catalog-search.ts:294-300 | the terms are the words that are content; where there is none, those of two letters or more; where there is none, all |
| `CatalogSearch.NamedExactly` | packages/backend/src/adapters/catalog-search.ts:478-484 | the apps put in front are exactly those whose slug or name starts with a word that starts no more than five |
| `SearchResults.NamedAppsComeByScore` | packages/backend/src/adapters/catalog-search.ts:482-483 | of the apps one word names, the higher score comes first |
| `SearchResults.EarlierWordsComeFirst` | packages/backend/src/adapters/catalog-search.ts:477-484 | the apps an earlier word names come first |
| `CatalogSearch.NamedFirst` | packages/backend/src/adapters/catalog-search.ts:470-496 | the hits after the apps a word names went to the front, unless the first hit matches the whole query |
| `CatalogSearch.NamedKeeps` | packages/backend/src/adapters/catalog-search.ts:485-495 | naming keeps every hit as it was, adds partial matches only for apps without a hit, lists nothing twice and leaves the other hits in their order |
| `SearchResults.NamedComeFirst` | packages/backend/src/adapters/catalog-search.ts:485-495 | the apps named are the first hits, in order; nothing changes where the first hit is direct with 120 points or more |
| `CatalogSearch.RunEndIsLongest` | packages/backend/src/adapters/catalog-search.ts:447-458 | the run taken at a word triggers an intent, and no longer one within reach does |
| `CatalogSearch.FindFileSearchIntent` | packages/backend/src/adapters/catalog-search.ts:440-460 | the file stores a query asks for, by the longest run of up to three words at each word |
| `CatalogSearch.SlugsExactly` | packages/backend/src/adapters/catalog-search.ts:447-458 | a file store is asked for exactly when the longest triggering run at some word names it |
| `SearchResults.AskedWordsExactly` | packages/backend/src/adapters/catalog-search.ts:448-457 | the words that ask for file stores are exactly those of the runs taken |
| `SearchResults.GenericExactly` | packages/backend/src/adapters/catalog-search.ts:446-459 | a query is about documents in general exactly when no run taken is specific |
| `SearchResults.DrivesAskForNothing` | packages/backend/src/adapters/catalog-search.ts:441-443 | a query that names a cloud drive, also across words, asks for no file store |
| `SearchResults.AskedAreStores` | packages/backend/src/adapters/catalog-search.ts:452-453 | whatever a query asks for is a file store |
| `SearchResults.AppsComeBeforeDocuments` | packages/backend/src/adapters/catalog-search.ts:514-526 | a query about documents in general that names an app is about that app alone |
| `SearchResults.FileStoresExactly` | packages/backend/src/adapters/catalog-search.ts:613-616 | the first three file stores asked for that the catalog has, each by its first entry |
| `CatalogSearch.StoresKeep` | packages/backend/src/adapters/catalog-search.ts:617-631 | suggesting keeps every hit with its kind and score, lists every picked file store, marked, and lists nothing twice |
| `CatalogSearch.StoresKeepOrder` | packages/backend/src/adapters/catalog-search.ts:625-629 | the hits that are not picked keep their order, also when the first keeps its place |
| `CatalogSearch.StoresAddOnly` | packages/backend/src/adapters/catalog-search.ts:617-624 | the only hits added are picked file stores that had none |
| `SearchResults.StoresComeFirst` | packages/backend/src/adapters/catalog-search.ts:617-630 | the picked file stores come first, in order, or right behind a first hit that matches as a word |
| `CatalogSearch.SearchKeepsEveryHit` | packages/backend/src/adapters/catalog-search.ts:579-631 | over a whole search no entry is listed twice, every hit of the tiers survives both moves, and additions are named apps or picked file stores |
| `CatalogSearch.SearchKeepsOrder` | packages/backend/src/adapters/catalog-search.ts:604-631 | hits neither named nor picked stay in the order of the tiers |
| `SearchResults.DirectHitsExactly` | packages/backend/src/adapters/catalog-search.ts:502-640 | over a whole search: an app is a direct hit exactly when every term is a word of its name or of an alias, starts one, or is in its text |
| `SearchResults.StartOfNameFinds` | packages/backend/src/adapters/catalog-search.ts:389-391 | so the start of a name word, of two letters or more, finds the app |
| `CatalogSearch.SearchCatalog` | packages/backend/src/adapters/catalog-search.ts:502-640 | the whole search: hits, terms, suggested stores, the kind of the first hit, and as missing exactly the words no entry matches and no listed store answers |
| `Text.JoinSplit` | deploy/ee/file-extractor/app/output.py:103 | splitting at newlines and joining again gives the text back |
| `Text.CleanTextIsClean` | deploy/ee/file-extractor/app/output.py:27-38 | normalised text has no control character, lone surrogate, space before a newline or run of blank lines, and loses nothing but those |
| `Text.CleanTextIsIdempotent` | deploy/ee/file-extractor/app/output.py:27-38 | normalising twice is normalising once |
| `Text.LineEndsBecomeNewlines` | deploy/ee/file-extractor/app/output.py:31 | each line end, of whichever of the three kinds, becomes one newline |
| `SegmentPacking.TrimExactly` | deploy/ee/file-extractor/app/output.py:97 | stripping takes off the characters to drop at both ends, all of them and no others |
| `SegmentOutput.PiecesFitAndKeepInk` | deploy/ee/file-extractor/app/output.py:41-52 | the pieces of a long line fit the limit and hold all its non-whitespace characters in order |
| `SegmentOutput.SplitLongLine` | deploy/ee/file-extractor/app/output.py:41-52 | the loop ends and returns those pieces |
| `SegmentPacking.PiecesCutAtSpaces` | deploy/ee/file-extractor/app/output.py:44-49 | a piece ends before the last space of the second half of what fits, and at the limit where there is none |
| `SegmentOutput.FlushKeeps` | deploy/ee/file-extractor/app/output.py:134-140 | closing a segment loses only whitespace and keeps the segments bounded and non-blank |
| `SegmentPacking.LineClosesOnlyWhenFull` | deploy/ee/file-extractor/app/output.py:127-132 | a line with ink closes the open segment exactly when it would take it over 4000 characters, and else is put behind it |
| `SegmentPacking.BlankLineClosesOnlyWhenFull` | deploy/ee/file-extractor/app/output.py:120-126 | a blank line closes a segment exactly when it holds 3000 characters, and else is kept once |
| `SegmentPacking.BlockEndClosesOnlyWhenFull` | deploy/ee/file-extractor/app/output.py:105-107 | the end of a block closes a segment exactly when it holds 3000 characters |
| `SegmentOutput.AddTakenKeeps` | deploy/ee/file-extractor/app/output.py:103-107 | adding a taken block appends exactly its non-whitespace characters to what is emitted or open |
| `SegmentOutput.BreakKeeps` | deploy/ee/file-extractor/app/output.py:109-113 | a break adds no content and keeps the recorded length |
| `SegmentOutput.StepIsFaithful` | deploy/ee/file-extractor/app/output.py:72-143 | each call keeps the budget exact, numbered pages as taken and flowing content complete and in order |
| `SegmentOutput.RunIsFaithful` | deploy/ee/file-extractor/app/output.py:72-143 | so does every run, and after finish nothing is left in the buffer |
| `SegmentPacking.FittingBlockJoinsSegment` | deploy/ee/file-extractor/app/output.py:95-107 | in any state a run reaches: a block that fits is put behind the open segment with a newline, as it is |
| `SegmentPacking.BreakAddsNewline` | deploy/ee/file-extractor/app/output.py:109-113 | a break adds one newline, and none behind a blank line |
| `SegmentPacking.BlocksShareASegment` | deploy/ee/file-extractor/app/output.py:95-143 | any number of blocks that fit together come out as one segment: their texts, each on its own line, and nothing else |
| `SegmentPacking.CleanTextIsOneSegment` | deploy/ee/file-extractor/app/output.py:95-143 | a clean text below 3000 characters and within the budget comes out as one segment, trimmed of newlines and otherwise as it is |
| `SegmentOutput.Output.IsFaithful` | deploy/ee/file-extractor/app/output.py:56-143 | every state an object reaches is that of a run of its calls, hence faithful |
| `SegmentOutput.Output.constructor` | deploy/ee/file-extractor/app/output.py:56-62 | a new collector takes at least one character |
| `SegmentOutput.Output.MarkAsTruncated` | deploy/ee/file-extractor/app/output.py:69-70 | only the truncated flag is set |
| `SegmentOutput.Output.Take` | deploy/ee/file-extractor/app/output.py:72-82 | as much of the text as the budget holds is taken, and truncated tells whether more was offered |
| `SegmentOutput.Output.AddPageText` | deploy/ee/file-extractor/app/output.py:85-92 | in place: a numbered unit |
| `SegmentOutput.Output.AddBlockText` | deploy/ee/file-extractor/app/output.py:95-107 | in place: a block of flowing text |
| `SegmentOutput.Output.AddBlankBreak` | deploy/ee/file-extractor/app/output.py:109-113 | in place: a blank line between blocks |
| `SegmentOutput.Output.AddOneLine` | deploy/ee/file-extractor/app/output.py:115-132 | in place: one line, split when too long |
| `SegmentOutput.Output.FlushSegment` | deploy/ee/file-extractor/app/output.py:134-140 | in place: the open segment is closed |
| `SegmentOutput.Output.FinishAll` | deploy/ee/file-extractor/app/output.py:142-143 | in place: the buffer is empty and the emitted flowing pages hold all the flowing content taken |
| `Unicode.WholeCharsAreThoseThatFit` | deploy/ee/file-extractor/app/textdecode.py:26-34 | the whole characters of a cut text are those whose bytes all come before the cut |
| `Unicode.DrainInParts` | deploy/code-runner/supervisor.js:140-141 | decoding a stream in chunks gives the same characters as decoding it at once |
| `Unicode.DecodeCut` | deploy/ee/file-extractor/app/textdecode.py:26-34 | strict decoding of a cut text fails exactly at the start of the cut character, if there is one |
| `TextDecode.CutTextHasNoMark` | deploy/ee/file-extractor/app/textdecode.py:23-25 | UTF-8 text without a leading mark, cut anywhere, is not taken for marked text |
| `TextDecode.DecodeBytesOfCutText` | deploy/ee/file-extractor/app/textdecode.py:20-34 | for every UTF-8 text without a mark and every cut, exactly the characters whose bytes are all present |
| `TextDecode.MarkedFileDecodes` | deploy/ee/file-extractor/app/textdecode.py:9-25 | a file with a mark is decoded as that mark says, without it; the mark of UTF-16 LE does not hide that of UTF-32 LE |
| `TextDecode.BadBytesAreGuessed` | deploy/ee/file-extractor/app/textdecode.py:26-48 | bytes that stop being UTF-8 before the last four, or at no cut, are left to the guess, all of them |
| `TextDecode.CappedReadOverfills` | deploy/ee/file-extractor/app/textdecode.py:50-59 | a file that was not read to its end decodes to more characters than the budget takes, all from the start of the text |
| `TextDecode.WholeReadIsExact` | deploy/ee/file-extractor/app/textdecode.py:50-59 | a file read to its end decodes to the whole text |
| `Json.PrintIsOneLine` | deploy/code-runner/harness.js:40-44 | serialised JSON holds no raw newline |
| `Json.PrintIsInjective` | packages/backend/src/adapters/catalog-fingerprint.ts:29-34 | different JSON values have different texts |
| `JsonReader.PrintIsRead` | deploy/code-runner/harness.js:40-44 | a reader by the grammar of RFC 8259 reads every printed value back, and leaves what follows it |
| `JsonReader.PrintReadsBack` | deploy/code-runner/harness.js:40-44 | so the text of a value reads back as that value, to its end |
| `LineProtocol.RunKeepsTransit` | deploy/code-runner/harness.js:36-50 | over any run of sends, partial writes, chunked reads and foreign chunks that leave the decoder as they find it, what was read and what is still on the way make up the lines sent |
| `LineProtocol.MessagesArriveInOrder` | deploy/code-runner/harness.js:185-211 | the harness, whose decoder reads nothing else: the messages handled are the first ones sent, whole, once each and in order; all of them when nothing is on the way |
| `LineProtocol.UndisturbedMessagesArriveInOrder` | deploy/code-runner/supervisor.js:137-168 | the supervisor: the same in every run in which each chunk of another stream leaves the decoder holding what it found it holding |
| `LineProtocol.LineWriter.Send` | deploy/code-runner/harness.js:37-50 | a line is queued behind the unwritten bytes of the ones before it |
| `LineProtocol.LineWriter.Written` | deploy/code-runner/harness.js:45-48 | a partial write takes bytes from the front of the first line only |
| `LineProtocol.LineReader.Feed` | deploy/code-runner/harness.js:185-211 | the loop hands out exactly the complete lines of what arrived and keeps the rest |
| `SharedDecoder.SharedDecoderIsHarmlessIff` | deploy/code-runner/supervisor.js:141-174 | whatever chunk of another stream is decoded in between, the text of an output cut anywhere is unchanged exactly when the decoder holds again what it held, or the cut is at the end of the output, or splits a U+FFFD whose rest is replaced by one U+FFFD |
| `SharedDecoder.WholeTextIsHarmlessIff` | deploy/code-runner/supervisor.js:141-174 | for diagnostics that are whole characters: exactly when the cut falls between two characters, or after the second byte of U+FFFD |
| `SharedDecoder.InterruptionIsHarmlessIff` | deploy/code-runner/supervisor.js:137-174 | in a run that reads all messages with one such chunk in between, the handler gets the messages sent exactly under that condition |
| `SharedDecoder.SendAllFillsPipe` | deploy/code-runner/harness.js:36-50 | there is a run that brings all messages into the pipe, whatever they are |
| `SharedDecoder.InterruptionGarbles` | deploy/code-runner/supervisor.js:141-174 | a concrete run in which the message handled is not the one sent |
| `CallBridge.DoKeepsSound` | deploy/code-runner/harness.js:57-82 | every step keeps at most 500 calls, at most 16 outstanding, distinct ids, and settled calls answered only with the first reply to their own id |
| `CallBridge.RunIsSound` | deploy/code-runner/harness.js:57-82 | so does every interleaving of harness, supervisor and backend |
| `CallAnswers.CallIsMadeExactly` | deploy/code-runner/harness.js:57-82 | a call is made exactly within the four limits, and then is pending under the next number |
| `CallAnswers.CallWithoutBackendIsLost` | deploy/code-runner/supervisor.js:205-213 | without a backend a call is answered as lost |
| `CallAnswers.FirstReplyGoesBack` | deploy/code-runner/supervisor.js:249-255 | the first reply of the backend to a waiting call goes back |
| `CallAnswers.DeliveryAnswersPending` | deploy/code-runner/harness.js:123-129 | in every sound state, a delivered answer settles its pending call with that reply and frees its slot |
| `CallAnswers.OtherCallsAreRejected` | deploy/code-runner/harness.js:75-82 | a call line that cannot be written rejects its call, and the end of the run all that are left |
| `CallAnswers.RunForgetsNone` | deploy/code-runner/harness.js:57-82 | in every run each pending call is on its way out, owed a first reply, or its reply is on its way back |
| `CallAnswers.NothingStaysPending` | deploy/code-runner/harness.js:123-129 | so once all lines are handled and the backend owes no reply, nothing is pending |
| `CallBridge.NothingSettlesTwice` | deploy/code-runner/harness.js:123-129 | what a call settled with never changes, nor does the first reply, nor does a run end twice |
| `CallBridge.StrayAnswersChangeNothing` | deploy/code-runner/supervisor.js:249-255 | unknown, duplicated or late answers change nothing |
| `CallBridge.DeliveriesCommute` | deploy/code-runner/harness.js:123-129 | the order in which two answers arrive does not matter |
| `CallBridge.CallTable.HostCall` | deploy/code-runner/harness.js:57-82 | in place: refused by the first limit that applies, else numbered and pending |
| `CallBridge.CallTable.HandleCallResult` | deploy/code-runner/harness.js:123-129 | in place: settles a pending call, ignores any other id |
| `CallBridge.CallTable.Finish` | deploy/code-runner/harness.js:175-178 | the result is sent the first time only |
| `CallBridge.CallTable.RejectAll` | deploy/code-runner/harness.js:179-181 | everything still waiting is rejected and nothing settled is touched |
| `CallBridge.AnswerTable.Ask` | deploy/code-runner/supervisor.js:205-213 | in place: registers a call; without a backend it is answered as lost, once |
| `CallBridge.AnswerTable.HandleAnswer` | deploy/code-runner/supervisor.js:249-255 | in place: only a registered call takes an answer, and only its first is written back |
| `CallBridge.LastResult` | deploy/code-runner/supervisor.js:161-165 | the result line handled last |
| `CallBridge.EndJob` | deploy/code-runner/supervisor.js:188-197 | a result line counts even when the time ran out; a timeout or a missing result is reported only without one |
| `CallBridge.Console.Capture` | deploy/code-runner/harness.js:96-113 | in place: log texts never exceed the two caps in total, and the last one is cut to fit |
| `CallBridge.LogLimitCountsUnits` | deploy/code-runner/harness.js:96-113 | the cap named in bytes counts UTF-16 units: the bytes logged stay within it exactly when units and excess bytes together do, and are at most three times it |
| `CallBridge.ArgumentLimitCountsUnits` | deploy/code-runner/harness.js:67-72 | the same for the arguments of an accepted call |
| `CallBridge.LogEuros` | deploy/code-runner/harness.js:96-113 | a console that logs one text of euro signs logs three times the cap in bytes |
| `Utf16.BytesOfUnits` | deploy/code-runner/harness.js:107-109 | UTF-8 takes at least a byte a unit, exactly that for ASCII only, and at most three |
| `ApprovalWatch.ChecksAreBounded` | packages/backend/src/adapters/app-approval-watch.ts:85-107 | any schedule the due test allows for a refused connector has at most 80 checks |
| `ApprovalWatch.ChecksComeHourly` | packages/backend/src/adapters/app-approval-watch.ts:96-107 | with a sweep each quarter of an hour, early or late by minutes, the checks of the first day are exactly every fourth sweep |
| `ApprovalWatch.ChecksComeEverySixHours` | packages/backend/src/adapters/app-approval-watch.ts:85-107 | after the first day, and while the watch lasts, the 24th sweep after a check is due and no earlier one |
| `ApprovalWatch.WatchLastsTwoWeeks` | packages/backend/src/adapters/app-approval-watch.ts:96-104 | a watch under way that was never checked, or not for six hours, is due exactly within two weeks of the connector and of its first refusal |
| `ApprovalWatch.PendingEvidence` | packages/backend/src/adapters/app-approval-watch.ts:122-140 | the earliest event that counts as an earlier refusal, if any does |
| `ApprovalWatcher.DoKeepsOneEmail` | packages/backend/src/adapters/app-approval-watcher.service.ts:147-231 | each atomic step of any process keeps at most one email sent or still possible |
| `ApprovalWatcher.AtMostOneEmail` | packages/backend/src/adapters/app-approval-watcher.service.ts:94-263 | in every interleaving of any number of processes with stale rows and stops anywhere, at most one email is sent while the watch is only overwritten where that is safe |
| `ApprovalWatcher.OverwriteIsSafeIff` | packages/backend/src/connectors/catalog-reconciler.service.ts:95-104 | another write that puts an arbitrary watch in place keeps at most one email in every continuation exactly when that watch has the record of an email, or one is recorded elsewhere, or none was sent and nobody is about to; provided some process is idle and that watch can still come due |
| `ApprovalWatcher.LossIsSafeIff` | packages/backend/src/connectors/catalog-resync.service.ts:425-432 | the same for a write that drops the watch altogether, which can always come due |
| `ApprovalWatcher.UnsafeOverwriteAllowsTwoEmails` | packages/backend/src/adapters/app-approval-watcher.service.ts:220-231 | an unsafe overwriting has a run that sends a second email |
| `ApprovalWatcher.EmailsAreJustified` | packages/backend/src/adapters/app-approval-watcher.service.ts:180-213 | an email implies that a refusal was recorded before and an acceptance seen, while other writes put back only watches the row had |
| `ApprovalWatcher.FreshProcessSends` | packages/backend/src/adapters/app-approval-watcher.service.ts:94-263 | with a watch that is due and no email on record anywhere, a process that checks a connector seen refused and finds its keys accepted mails the owner |
| `ApprovalProgress.UnknownKeepsWatching` | packages/backend/src/adapters/app-approval-watcher.service.ts:185-189 | without an answer only the time of the check, and a refusal known from elsewhere, are written |
| `ApprovalProgress.RefusalIsRemembered` | packages/backend/src/adapters/app-approval-watcher.service.ts:190-202 | a refusal is written with the earliest time known, and logged where the row did not have it |
| `ApprovalProgress.AcceptanceEndsTheWatch` | packages/backend/src/adapters/app-approval-watcher.service.ts:203-222 | what an acceptance writes: not pending where no refusal was known, else the claim of the email, or nothing where that is taken |
| `ApprovalProgress.LoggedRefusalIsEvidence` | packages/backend/src/adapters/app-approval-watcher.service.ts:193-200 | a logged refusal is evidence from then on, the earliest one staying it |
| `ApprovalProgress.EndsExactly` | packages/backend/src/adapters/app-approval-watcher.service.ts:147-231 | of all steps of the watcher exactly an acceptance and a sign-in end a watch under way |
| `ApprovalProgress.RunEndsExactly` | packages/backend/src/adapters/app-approval-watcher.service.ts:94-263 | so a watch under way has ended after a run exactly when the run has an acceptance or a sign-in |
| `ApprovalProgress.RunEndsAreSeen` | packages/backend/src/adapters/app-approval-watcher.service.ts:203-213 | in every run an end by the keys goes back to an acceptance seen, and an announced one to a refusal as well |
| `ApprovalProgress.NotPendingMeansNeverRefused` | packages/backend/src/adapters/app-approval-watcher.service.ts:204-208 | in every run "not pending" is written only by a process that saw the keys accepted and knew of no refusal |
| `ApprovalWatcher.StaleCopyPutsBack` | packages/backend/src/connectors/catalog-reconciler.service.ts:95-104 | a copy of the row taken at any earlier point of the run is such a watch |
| `ApprovalWatcher.StartIsJustified` | packages/backend/src/adapters/app-approval-watcher.service.ts:94-117 | the invariants hold of a row about which nobody was mailed |
| `ApprovalWatcher.FieldsStay` | packages/backend/src/adapters/app-approval-watcher.service.ts:280-293 | no write of the watcher ever removes a field of the watch, and a finished watch stays finished |
| `ApprovalWatcher.FinishedIsLeftAlone` | packages/backend/src/adapters/app-approval-watcher.service.ts:94-117 | over any run of the watcher from a finished watch no process starts a check: one that is at its start was there before |
| `Alerts.SomeWindow` | packages/backend/src/alerts/alerts.service.ts:375-383 | every failure lies in a window |
| `Alerts.AlertIff` | packages/backend/src/alerts/alerts.service.ts:192-215 | an alert is decided exactly by the threshold-th failure of a window with no cooldown active |
| `Alerts.AlertsAreSpaced` | packages/backend/src/alerts/alerts.service.ts:210-215 | two alerts of one connector are at least the cooldown apart |
| `Alerts.OneAlertPerWindow` | packages/backend/src/alerts/alerts.service.ts:206-211 | a window has at most one alert |
| `Alerts.MemoryAlerts.Sweep` | packages/backend/src/alerts/alerts.service.ts:371-374 | in place: drops exactly the counters that ran out |
| `Alerts.MemoryAlerts.IncrementWithExpiry` | packages/backend/src/alerts/alerts.service.ts:371-383 | in place: the next count of the window, or the first of a new one |
| `Alerts.MemoryAlerts.RecordFailure` | packages/backend/src/alerts/alerts.service.ts:187-215 | in place: decides as if nothing were ever swept, for every history with a clock that does not run backwards |
| `Alerts.OnePassesPerLife` | packages/backend/src/alerts/alerts.service.ts:361-364 | with Redis, at most one call per lifetime of the key reads exactly the threshold, however calls interleave |
| `Alerts.FirstCallSetsExpiry` | packages/backend/src/alerts/alerts.service.ts:361-363 | a call that finds no key leaves one with count 1 that expires |
| `Alerts.RunOwesExpiry` | packages/backend/src/alerts/alerts.service.ts:361-368 | in every run without a stop, a key that will not expire has a call that still has to set its expiry |
| `Alerts.UndisturbedKeyExpires` | packages/backend/src/alerts/alerts.service.ts:361-363 | so once all calls are decided and none was stopped, the key expires |
| `Alerts.LostExpiryIsRepaired` | packages/backend/src/alerts/alerts.service.ts:362-368 | after any number of calls of which the first lost its EXPIRE, the key has an expiry exactly if the count has reached a multiple of 20 above the threshold |
| `WindowLimiter.PruningIsUnobservable` | packages/backend/src/adapters/adapters.controller.ts:540 | dropping hits at an earlier time loses nothing a later look would keep |
| `WindowLimiter.SweepHolds` | packages/backend/src/adapters/adapters.controller.ts:547-549 | dropping keys without recent hits cannot be told from keeping them |
| `WindowLimiter.PerKeyWindowLimiter.Sweep` | packages/backend/src/adapters/adapters.controller.ts:548 | in place: exactly the keys with a recent hit remain |
| `WindowLimiter.PerKeyWindowLimiter.Take` | packages/backend/src/adapters/adapters.controller.ts:539-551 | in place: true exactly when the full history of grants holds fewer than the maximum in the window |
| `WindowLimiter.WindowNeverExceeded` | packages/backend/src/adapters/adapters.controller.ts:531-552 | no window of that length, wherever it lies, holds more grants of a key than the maximum |
| `WindowLimiter.RecentCounts` | packages/backend/src/adapters/adapters.controller.ts:540 | what is counted is the number of grants of the key within the window |
| `BoundPayload.CleanTextIsStorable` | packages/backend/src/audit/bound-payload.ts:71-75 | cleaned text is well-formed UTF-16 without NUL |
| `BoundPayload.StorableIsCleaned` | packages/backend/src/audit/bound-payload.ts:77-80 | testing the serialised text for escapes first makes no difference: the result is the value with every string cleaned |
| `BoundPayload.CleanedIsNarrower` | packages/backend/src/audit/bound-payload.ts:73-80 | cleaning never makes the serialised form longer in bytes |
| `BoundPayload.ShrinkBoundsStructure` | packages/backend/src/audit/bound-payload.ts:37-59 | shrinking bounds nesting and array lengths, keeps field names in order, and changes nothing that is within the limits |
| `BoundExcerpt.ShrinkKeeps` | packages/backend/src/audit/bound-payload.ts:37-59 | what shrinking keeps: the first items, every field and the start of a text, each shrunk in turn, and other values as they are |
| `BoundExcerpt.LongTextKeepsStart` | packages/backend/src/audit/bound-payload.ts:38-41 | a long text keeps its start and says how many more characters there are |
| `BoundPayload.DecimalIsRead` | packages/backend/src/audit/bound-payload.ts:40 | the digits of such a number are those of that number, the first one not zero |
| `BoundExcerpt.ExcerptHoldsFields` | packages/backend/src/audit/bound-payload.ts:101-104 | beside the marker an excerpt has every other field of the payload, shrunk; what is no object is its value |
| `BoundPayload.BoundValue` | packages/backend/src/audit/bound-payload.ts:88-118 | the loop over the shapes and the shortening loop end with the first excerpt that fits |
| `BoundExcerpt.FirstShapeThatFits` | packages/backend/src/audit/bound-payload.ts:99-107 | of the five shapes the first whose excerpt fits is taken |
| `BoundExcerpt.ShapesNarrow` | packages/backend/src/audit/bound-payload.ts:25-31 | from shape to shape fewer items, shorter texts and fewer levels are kept |
| `BoundPayload.ShortenText` | packages/backend/src/audit/bound-payload.ts:111-117 | the shortening loop ends with the first text excerpt that fits, or the empty one |
| `BoundExcerpt.TextExcerptIsLongEnough` | packages/backend/src/audit/bound-payload.ts:108-117 | where no shape fits: the start of the text, with 200 characters less than the bytes allowed, or so many that a fifth more would not have fitted |
| `BoundExcerpt.ExcerptField` | packages/backend/src/audit/bound-payload.ts:113 | a text excerpt is the start of the text of the payload |
| `BoundPayload.BoundPayload` | packages/backend/src/audit/bound-payload.ts:86-118 | absent payloads stay absent, ones that cannot be serialised are noted, all others become the bounded value |
| `BoundPayload.BoundedFits` | packages/backend/src/audit/bound-payload.ts:86-118 | the result fits the byte limit, also after cleaning, whenever the marker with an empty excerpt does; every string value is storable; a small clean value comes back unchanged |
| `BoundPayload.ExcerptIsMarkedIff` | packages/backend/src/audit/bound-payload.ts:98-117 | a payload that is cut says so under the marker key, with its original size, exactly when it has no field of that name, or no shape fits, or that field shrinks to the very marker |
| `BoundPayload.MarkerIsLost` | packages/backend/src/audit/bound-payload.ts:101-104 | a concrete payload whose excerpt does not say that it was cut |
| `BoundPayload.BoundTextKeepsStart` | packages/backend/src/audit/bound-payload.ts:121-126 | stored error text is storable, is the text itself when short and clean, and else starts like it |
| `Fingerprint.CanonicalIsInOrder` | packages/backend/src/adapters/catalog-fingerprint.ts:16-27 | the canonical form has its keys in order, each once, and the meaning of the value without fields named __proto__ |
| `KeyOrder.KeyOrderExactly` | packages/backend/src/adapters/catalog-fingerprint.ts:21-23 | the order of keys: array indices by their number, before all others by code unit |
| `KeyOrder.IndexExactly` | packages/backend/src/adapters/catalog-fingerprint.ts:21-23 | an array index is a number below 2^32 - 1 without leading zeros |
| `Fingerprint.CanonicalDecides` | packages/backend/src/adapters/catalog-fingerprint.ts:16-27 | two canonical forms are equal exactly when the values without such fields agree up to key order |
| `Fingerprint.CanonicalDecidesContent` | packages/backend/src/adapters/catalog-fingerprint.ts:16-27 | for values without such fields: equal exactly when they agree up to key order |
| `Fingerprint.ProtoFieldIsLost` | packages/backend/src/adapters/catalog-fingerprint.ts:21-22 | a field named __proto__ is dropped, so two different contents share a canonical form |
| `Fingerprint.CanonicalIsIdempotent` | packages/backend/src/adapters/catalog-fingerprint.ts:16-27 | canonicalising twice is canonicalising once |
| `Fingerprint.VersionDecides` | packages/backend/src/adapters/catalog-fingerprint.ts:67-81 | two adapters hash the same text exactly when their contents agree up to key order (fields named __proto__ aside) |
| `AdapterVersion.FingerprintDecides` | packages/backend/src/adapters/catalog-fingerprint.ts:55-64 | two tools agree in a version exactly when they agree in name, description, parameters, endpoint mapping, response mapping and use of the proxy, absent ones being defaults |
| `AdapterVersion.VersionDecidesFields` | packages/backend/src/adapters/catalog-fingerprint.ts:67-81 | two adapters have one version exactly when instructions, the four connector fields and, by name and place, their tools agree field by field |
| `Fingerprint.ToolOrderIsIrrelevantIff` | packages/backend/src/adapters/catalog-fingerprint.ts:67-81 | every order of the tools gives the same version exactly when any two tools whose names the collation ties have equal fingerprints up to key order |
| `Fingerprint.ToolOrderIsIrrelevant` | packages/backend/src/adapters/catalog-fingerprint.ts:67-81 | so reordering tools whose names the collation tells apart keeps the version |
| `Fingerprint.TiedNamesKeepTheirOrder` | packages/backend/src/adapters/catalog-fingerprint.ts:68-70 | two tools whose distinct names a collation ties, and whose swap changes the version |
| `Fingerprint.DefaultsAreIrrelevant` | packages/backend/src/adapters/catalog-fingerprint.ts:55-64 | filling in defaults keeps the version |
| `Sorting.SortIsStable` | packages/backend/src/adapters/catalog-fingerprint.ts:70 | the stable sort: ordered by the comparator, ties in the order they came in |
| `Sorting.PermutationsSortAlike` | packages/backend/src/adapters/catalog-fingerprint.ts:68-70 | lists with the same members, no two of them tied, sort to the same list |
| `Sorting.SortedPermutationsTie` | packages/backend/src/adapters/catalog-fingerprint.ts:68-70 | sorted lists with the same members hold tied elements at the same places |
| `McpMerge.LocalNamesMayCollide` | packages/backend/src/connectors/mcp-connector-config.util.ts:29-35 | with a prefix, two remote names can get one local name |
| `McpMerge.LocalNameHasPrefix` | packages/backend/src/connectors/mcp-connector-config.util.ts:29-35 | with a prefix, every local name starts with it, ignoring case, and only word characters follow |
| `McpMerge.LocalNameKeepsLetters` | packages/backend/src/connectors/mcp-connector-config.util.ts:29-35 | letters and digits stay, in order; no two underscores follow each other; the prefix is put in front unless it is there |
| `McpMerge.KeyOfNamespaced` | packages/backend/src/adapters/mcp-adapter.util.ts:95-98 | the key of a namespaced name is the key of the namespace, an underscore and the key of the name, for any separators and case |
| `McpMerge.KeyOfPlainName` | packages/backend/src/adapters/mcp-adapter.util.ts:95-98 | the key of letters and digits is the text in lower case |
| `McpMerge.KeyIgnoresEnds` | packages/backend/src/adapters/mcp-adapter.util.ts:95-98 | whatever else stands before or behind a name does not show in its key |
| `McpMerge.ExactExactly` | packages/backend/src/adapters/mcp-adapter.util.ts:36-44 | a listed tool is known as the last catalog tool of its local name, or where there is none as the last that calls its remote name |
| `McpMerge.WithoutParametersDrops` | packages/backend/src/adapters/mcp-adapter.util.ts:77-93 | exactly the omitted properties and required names are gone; returning the schema early makes no difference |
| `McpMerge.LongestIsHit` | packages/backend/src/adapters/mcp-adapter.util.ts:125-131 | of the catalog tools whose key ends a listed name, one with the longest key is taken |
| `McpMerge.SharedByTwo` | packages/backend/src/adapters/mcp-adapter.util.ts:135-136 | a namespace counts as shared exactly when two listed names were found under it |
| `McpMerge.TwoSpellingsShare` | packages/backend/src/adapters/mcp-adapter.util.ts:135-136 | two spellings of one catalog tool make their namespace shared |
| `McpMerge.MatchedOnce` | packages/backend/src/adapters/mcp-adapter.util.ts:137-142 | no catalog tool is matched through a namespace twice |
| `McpMerge.MatchedExactly` | packages/backend/src/adapters/mcp-adapter.util.ts:135-144 | a listed name is matched with a tool through a namespace exactly when it is the first found for that tool under a shared one |
| `McpMerge.NamespacedCatalogMatches` | packages/backend/src/adapters/mcp-adapter.util.ts:114-145 | the loops return those matches |
| `McpMerge.MatchesOf` | packages/backend/src/adapters/mcp-adapter.util.ts:135-144 | the counting and claiming loops |
| `McpMerge.NamespacedIsFree` | packages/backend/src/adapters/mcp-adapter.util.ts:120-122 | a tool matched through a namespace is no exact match of any listed tool, and no listed tool gets its name |
| `McpMerge.GatewayToolIsFound` | packages/backend/src/adapters/mcp-adapter.util.ts:127-133 | a free catalog tool listed under any namespace is found, as itself or as one with a longer key |
| `McpMerge.PolicyOnTop` | packages/backend/src/adapters/mcp-adapter.util.ts:58-68 | the mapping is the server's own, a tool shipped switched off stays off, the server's annotations win and the catalog's fill in, omitted parameters are gone |
| `McpMerge.UnknownToolIsPlain` | packages/backend/src/adapters/mcp-adapter.util.ts:57-67 | a tool the catalog does not know is installed as the server has it, and on |
| `McpMerge.MergeDiscoveredMcpTools` | packages/backend/src/adapters/mcp-adapter.util.ts:32-70 | one result per listed tool, in order, each with the policy of its match |
| `McpMerge.NamesAreDistinctIff` | packages/backend/src/adapters/mcp-adapter.util.ts:51-60 | with distinct catalog names, the merged names are distinct exactly when no two listed tools clash: same remote name through a namespace, or same local name outside it |
| `McpMerge.DistinctLocalNamesStayDistinct` | packages/backend/src/adapters/mcp-adapter.util.ts:51-60 | for every prefix: distinct catalog names and distinct local names give distinct merged names |
| `McpMerge.WithoutPrefixNamesAreDistinct` | packages/backend/src/adapters/mcp-adapter.util.ts:51-60 | without a prefix, distinct listed names give distinct merged names |
| `McpMerge.MergedNamesMayCollide` | packages/backend/src/adapters/mcp-adapter.util.ts:51-60 | with a prefix, two tools listed under different names are installed under one |
| `McpMerge.SharedToolKeepsPolicy` | packages/backend/src/adapters/mcp-adapter.util.ts:103-112 | a catalog tool found under a shared namespace is installed under its catalog name, on or off as shipped |
| `AddressFix.SplitIsExact` | packages/backend/src/adapters/address-fix.ts:43-48 | the split loses nothing and cuts at the first character that ends a host |
| `AddressFix.SplitHost` | packages/backend/src/adapters/address-fix.ts:43-48 | the scan returns that split |
| `AddressFix.TrimmedIsExact` | packages/backend/src/adapters/address-fix.ts:51-55 | trimming removes all slashes at the end and nothing else |
| `AddressFix.TrimTrailingSlashes` | packages/backend/src/adapters/address-fix.ts:51-55 | the scan returns the trimmed text |
| `AddressFix.WithMissingSchemeIsIdempotent` | packages/backend/src/adapters/address-fix.ts:73-79 | a value set right is not changed again |
| `AddressShapes.BareAddressExactly` | packages/backend/src/adapters/address-fix.ts:29-35 | a bare address is a host of two or more labels, an optional port of up to five digits and an optional rest without whitespace |
| `AddressShapes.SchemeExactly` | packages/backend/src/adapters/address-fix.ts:26-27 | a scheme is a letter, then letters, digits, plus, dot or hyphen, then `://` |
| `AddressShapes.MissingSchemeExactly` | packages/backend/src/adapters/address-fix.ts:73-79 | `https://` is put in front exactly of an address that the pattern refuses as typed and accepts with it; else nothing changes |
| `AddressShapes.ConsideredExactly` | packages/backend/src/adapters/address-fix.ts:115-118 | when a fix is looked for at all |
| `AddressShapes.PossibleExactly` | packages/backend/src/adapters/address-fix.ts:120-134 | a change is tried exactly where it makes a difference; cutting, where more than slashes follows the host |
| `AddressShapes.ChangesFollow` | packages/backend/src/adapters/address-fix.ts:97-105 | several are made one after the other, in this order |
| `AddressShapes.DropWwwExactly` | packages/backend/src/adapters/address-fix.ts:103 | a `www.` in any case goes from the front of the host, behind a scheme where there is one |
| `AddressShapes.NoWwwStays` | packages/backend/src/adapters/address-fix.ts:103 | elsewhere nothing is dropped |
| `AddressFix.SchemeTakesEffect` | packages/backend/src/adapters/address-fix.ts:97-105 | adding or changing the scheme gives an https address, unless slashes are trimmed as well |
| `AddressFix.CutsTakeEffect` | packages/backend/src/adapters/address-fix.ts:97-105 | cutting leaves nothing behind the host, and trimming no slash at the end, when no www. is dropped |
| `AddressFix.MaskChooses` | packages/backend/src/adapters/address-fix.ts:137-139 | every set of possible changes is the choice of its bit mask |
| `AddressFix.MaskOfChosen` | packages/backend/src/adapters/address-fix.ts:137-139 | different masks choose different sets |
| `AddressFix.TrialsAreInOrder` | packages/backend/src/adapters/address-fix.ts:136-140 | the combinations are tried by size, and within a size by mask |
| `AddressFix.PossibleChanges` | packages/backend/src/adapters/address-fix.ts:120-134 | exactly the changes that apply to the text are combined, each once |
| `AddressFix.Combinations` | packages/backend/src/adapters/address-fix.ts:136-140 | the loop and the sort give those combinations |
| `AddressFix.FirstIsBest` | packages/backend/src/adapters/address-fix.ts:141-146 | the first combination that works has no working one with fewer changes, or as many and a smaller mask |
| `AddressFix.BestIsUnique` | packages/backend/src/adapters/address-fix.ts:81-87 | there is only one such choice |
| `AddressFix.NoTrialNoChoice` | packages/backend/src/adapters/address-fix.ts:141-147 | where no combination works, no set of possible changes does |
| `AddressFix.FirstThatWorks` | packages/backend/src/adapters/address-fix.ts:141-146 | the loop stops at the first combination that works |
| `AddressFix.AddressFix` | packages/backend/src/adapters/address-fix.ts:114-148 | for every acceptance predicate: a considered value gets the best working choice with its text and what was cut, or nothing exactly when no choice works |

## Left out

- Case folding, accent removal and word splitting of the catalog search: words, phrases and leading words of
  entries are given, `compact`, the collation of names and the match in other text are parameters.
- The tables of stopwords and file-search intents: parameters. The cache of prepared entries.
- Letters outside ASCII in tool keys and local names, and non-string members of a schema's `required`.
- The order of fields inside annotations: annotations are maps.
- The pattern of an adapter field: an arbitrary predicate, so a broken pattern is the one that accepts everything.
- The sentence that describes an address fix: it only words the choice.
- TextDecode.DecodeBytesOfCutText: only for UTF-8 text without a leading mark. `MarkedFileDecodes` and
  `BadBytesAreGuessed` say when a mark or the guess decides; what they then decode to is a parameter. Bytes of another encoding whose last character looks like a cut
  UTF-8 character lose it, as in the code.
- SegmentOutput.Output.Take: newlines between separate blocks are not charged to the budget by the code, so the
  cap is on taken characters, not on the sum of the segments.
- SharedDecoder.InterruptionIsHarmlessIff: one chunk of another stream; runs with any number of them have
  `LineProtocol.UndisturbedMessagesArriveInOrder`, one way only. Decoding a binary WebSocket message with the same
  decoder (supervisor.js:218) is such a chunk, after which the decoder holds nothing.
- The collector's `full` property, which only compares the budget with what was taken.
- The byte-order mark a streaming decoder drops at the very start, which no line the programs send begins with.
- LineProtocol.MessagesArriveInOrder: parsing is the inverse of printing, and lines that are no printed value
  are skipped. On printed text a reader by the grammar agrees (`JsonReader.PrintIsRead`); other spellings of JSON
  are not modelled, as both ends print with the same routine.
- Spawning, deadlines and killing of the child process, the WebSocket and its job message: a run may stop
  anywhere, and answers are arbitrary.
- The wording of error messages, and the rejection of a call as opposed to its ok flag.
- Database queries, encryption, product events and email delivery of the watcher: nondeterministic answers or
  atomic steps. The `running` flag that keeps one process from sweeping twice at once only removes interleavings.
- That an approval email is ever sent: the code is at-most-once by design.
- The cooldown under stalls between Redis calls, the time of the first failure, the configuration cache, and
  the webhook dispatch with its retry.
- BoundPayload.ShrinkBoundsStructure: object keys are not cleaned, as in the code; the order in which JavaScript
  lists integer-like keys is not modelled for excerpts, so the marker is stated by its key, not its place.
- BoundPayload.ShortenText: `Math.floor(chars * 0.8)` is integer division of `4 * chars` by 5; the two differ only
  where floating point rounds.
- SHA-256: versions are compared by the text that is hashed.
- Controllers, catalog data, OCR, the frontend copy of the search and of the address fix.
