# hobby-seeds recommendation core, in Dafny

This project models the recommendation and analysis engine of the hobby-seeds app: the
mood diagnosis that gathers three answers, the filter that turns those answers into a
list of low-effort hobbies ("yuru" hobbies), the random picker that shuffles that list and
cuts it down, the hobby log that records tries and caches the "great" count and favourite
tags, the tag analysis that ranks a user's tags by weighted rating, and the matcher that
suggests the more serious "step-up" hobbies once three tries were rated great.

Modules, one per file:

- `Wrappers` (`wrappers.dfy`) holds `Option`, which stands for a JavaScript `undefined` or `null` result.
- `Seqs` (`seqs.dfy`) holds generic sequence facts plus the JavaScript array operations the code relies on:
  - `filter`
  - `slice(0, end)`, including a negative `end`
  - positional removal
- `Ranking` (`ranking.dfy`) models the stable descending sort that `Array.prototype.sort` performs with a two-level comparator.
- `Types` (`types.dfy`) holds the hobby, step-up hobby, log entry and diagnosis answer records.
- `TagTally` (`tag_tally.dfy`) holds the tag tally that `analyzeUserTags` and `calculateTopTags` both build, along with its ranking:
  - the tally is a `Map` or object updated in first-insertion order
  - it is sorted by a key, then cut to the top N
- `FilterHobbies` (`filter_hobbies.dfy`) holds `filterHobbiesByDiagnosis` and `selectRandomHobbies`.
- `AnalyzeTags` (`analyze_tags.dfy`) holds `analyzeUserTags`, `getTagFrequency` and `calculateTagScore`.
- `MatchStepUp` (`match_stepup.dfy`) holds the unlock threshold, `matchStepUpHobbies` and `findStepUpHobbyById`.
- `HobbyLogHook` (`hobby_log.dfy`) holds the pure core of `useHobbyLog`:
  - the cached-field computations
  - loading
  - adding and deleting entries
  - the unlock gate
- `Diagnosis` (`diagnosis.dfy`) holds the question table and the state machine of `useDiagnosis`.

How the model is built:

- **Randomness.** The random source is a parameter: `draws[i]` is the index that `Math.floor(Math.random() * (i + 1))` produced at loop counter `i`.
- **Storage.** Storage is a parameter as well. A load is the value read, with `None` standing for absent, unreadable or failed. A write is the success flag that `setItem` returned.
- **Numbers.** Numbers are mathematical integers. `Math.round(m / n * 100)` is modelled exactly as round-half-up of the rational number `100m/n`.

## Model

| member | source | states |
|---|---|---|
| FilterHobbies.AdmitsIsCompatible | utils/filter-hobbies.ts:59-83 | the filter callback's three early returns amount to an energy window, plus "indoor unless going out", plus a category exclusion per activity type |
| FilterHobbies.FilterHobbiesByDiagnosis | utils/filter-hobbies.ts:55-84 | the result is exactly the compatible catalog hobbies: catalog order kept, each with its catalog multiplicity, nothing else, and an empty catalog gives an empty result |
| FilterHobbies.GoingOutOnlyWidens | utils/filter-hobbies.ts:67-71 | everything offered to a stay-at-home answer is offered when going out, and a stay-at-home answer gets indoor hobbies only |
| FilterHobbies.ShufflePermutes | utils/filter-hobbies.ts:112-116 | the Fisher–Yates swaps permute the copy, for any sequence of random indices in range |
| FilterHobbies.IdentityDrawsKeepOrder | utils/filter-hobbies.ts:113-116 | when every draw picks its own position, the shuffle leaves the list unchanged |
| FilterHobbies.ShuffleCopy | utils/filter-hobbies.ts:110-116 | the swap loop over the copy ends with a rearrangement of the input: same length, and every hobby as often as in the input; it is the rearrangement the draws select |
| FilterHobbies.SelectRandomHobbies | utils/filter-hobbies.ts:108-120 | the result is the first `count` of the shuffled copy: `min(count, n)` hobbies for `count >= 0`, and `max(0, n + count)` kept (that is, `min(-count, n)` dropped from the back) for a negative count; always a sub-multiset of the input, and the whole input permuted when `count >= n` |
| Seqs.FindFirst | utils/match-stepup.ts:115 | `find` returns the first element passing the test, or nothing when none passes |
| Seqs.JsSlice | utils/filter-hobbies.ts:119 | `slice(0, end)` is a prefix whose length follows JavaScript's clamping, with a negative end counting from the back |
| Seqs.SliceEnd | utils/analyze-tags.ts:124 | the length `slice(0, topN)` keeps: `min(topN, n)` for a non-negative end, else the length less `min(-end, n)` |
| Ranking.SortDesc | utils/analyze-tags.ts:116-121 | the comparator sort yields a permutation of its input in non-increasing lexicographic (primary, secondary) order |
| Ranking.SortIsStable | utils/match-stepup.ts:94-99 | elements that tie on both comparator fields keep their input order |
| Ranking.SortKeepsTieOrder | utils/analyze-tags.ts:116-121 | for an input with no repeated element, two elements with equal keys come out in the order of their input positions |
| TagTally.TallyIsExact | utils/analyze-tags.ts:85-104 | the per-tag map has one slot per tag that occurs in a resolved hobby, and the slot holds the tag's total weight and occurrence count |
| TagTally.TallyFirstSeen | utils/analyze-tags.ts:87-104 | the map has a slot for exactly the tags that occur, and its iteration order is the order in which the tags first occur |
| TagTally.RankTagsTieOrder | utils/analyze-tags.ts:107-124 | after the stable sort and the slice, returned tags with equal keys are in first-occurrence order, and a tied tag that was cut off first occurs after every returned tag it ties with |
| TagTally.RankTagsSpec | utils/analyze-tags.ts:107-124 | ranking the tally returns at most N distinct occurring tags in non-increasing key order; a tag with a strictly better key is never left out or placed later; with fewer than N returned, every occurring tag is there |
| AnalyzeTags.RatingWeight | utils/analyze-tags.ts:18-22 | meh weighs 1, good weighs 2, great weighs 3 |
| AnalyzeTags.LastById | utils/analyze-tags.ts:79-82 | the id-to-hobby map built by repeated `set` answers with the last catalog hobby of that id, or nothing when no hobby has it |
| AnalyzeTags.ContributionTotals | utils/analyze-tags.ts:87-104 | the tally's count and score for a tag equal its occurrences in resolved hobbies and its rating-weighted sum |
| AnalyzeTags.AnalyzeUserTags | utils/analyze-tags.ts:68-125 | no entries give no tags; otherwise at most topN distinct tags from resolved hobbies, ordered by weighted score and then count, with no better tag skipped, and every tag when fewer than topN are returned |
| AnalyzeTags.AnalyzeUserTagsLength | utils/analyze-tags.ts:107-124 | with k distinct resolved tags, `slice(0, topN)` returns `min(topN, k)` tags for a non-negative `topN` and `max(0, k + topN)` for a negative one |
| AnalyzeTags.AnalyzeUserTagsTieOrder | utils/analyze-tags.ts:107-124 | tags tied on both weighted score and count come back in the order in which they first occur in the resolved entries' tags, and a tied tag that was cut off first occurs later than the returned ones |
| AnalyzeTags.ReturnedTagsComeFromResolvedHobbies | utils/analyze-tags.ts:87-104 | every returned tag belongs to the hobby of some logged entry whose id resolves |
| AnalyzeTags.GetTagFrequency | utils/analyze-tags.ts:148-171 | the frequency map holds exactly the tags of resolved hobbies, each mapped to its occurrence count |
| AnalyzeTags.CalculateTagScore | utils/analyze-tags.ts:195-217 | the loop sums the rating weights of the entries whose resolved hobby has the tag; the sum is never negative and is 0 when no such hobby exists |
| AnalyzeTags.TagScoreMatchesRanking | utils/analyze-tags.ts:94-101 | when no hobby repeats a tag, a tag's single score equals the weighted score the ranking sorts by |
| AnalyzeTags.UnknownHobbyIsSkipped | utils/analyze-tags.ts:88-92 | an entry whose hobby id is not in the catalog changes none of the ranking, the frequency map or the single-tag score |
| MatchStepUp.IsStepUpUnlocked | utils/match-stepup.ts:41-43 | true exactly when the great count reaches the threshold 3 |
| MatchStepUp.UnlockIsMonotone | utils/match-stepup.ts:41-43 | two great tries do not unlock, three do, and a larger count than an unlocking one still unlocks |
| MatchStepUp.GetRemainingToUnlock | utils/match-stepup.ts:48-51 | the number still missing is never negative, is zero exactly when unlocked, and otherwise tops the count up to the threshold |
| MatchStepUp.RoundedPercent | utils/match-stepup.ts:84 | the score is the integer nearest to `100 * matched / total`, with halves rounded up |
| MatchStepUp.RoundedPercentIsUnique | utils/match-stepup.ts:84 | exactly one integer satisfies those rounding bounds |
| MatchStepUp.RoundedPercentRange | utils/match-stepup.ts:84 | a share in [0, 1] rounds into 0..100: all tags give 100, no tags give 0 |
| MatchStepUp.ThirdsRound | utils/match-stepup.ts:84 | one of three tags scores 33 and two of three score 67 |
| MatchStepUp.CandidatesSound | utils/match-stepup.ts:72-91 | every collected result is a catalog hobby; its matched tags are the overlap of its match tags with the user's tags, in the hobby's order; the overlap is nonempty and the score is rounded |
| MatchStepUp.CandidatesComplete | utils/match-stepup.ts:72-91 | every catalog hobby sharing a tag with the user is collected |
| MatchStepUp.CandidatesAreOverlapMatches | utils/match-stepup.ts:72-91 | the loop collects exactly one result per catalog position whose hobby shares a tag with the user and none for the others, in catalog order |
| MatchStepUp.MatchStepUpHobbies | utils/match-stepup.ts:60-102 | no user tags give no results; otherwise the results are a rearrangement of one result per catalog position that shares a tag (so their number is the number of such positions), every result is a correct match, and they are sorted by score and then by matched-tag count |
| MatchStepUp.ScoreWithinPercent | utils/match-stepup.ts:28 | when no catalog hobby repeats a match tag, every score lies between 0 and 100 |
| MatchStepUp.RepeatedMatchTagScoresTwoHundred | utils/match-stepup.ts:74-84 | a hobby listing the user's only tag twice matches it twice and scores 200, outside the 0 to 100 range the `matchScore` comment gives |
| MatchStepUp.TiesKeepCatalogOrder | utils/match-stepup.ts:94-99 | results tied on score and matched-tag count stay in catalog order |
| MatchStepUp.FindStepUpHobbyById | utils/match-stepup.ts:111-116 | the lookup returns the first hobby with the id, or nothing when no hobby has it |
| HobbyLogHook.CountGreatRatings | hooks/use-hobby-log.ts:52-54 | the count is at most the number of entries; it is 0 exactly when no entry is great and equals the number of entries exactly when all are |
| HobbyLogHook.CountGreatAppend | hooks/use-hobby-log.ts:99-100 | appending an entry raises the count by one exactly when that entry is great |
| HobbyLogHook.CountGreatRemove | hooks/use-hobby-log.ts:137-138 | removing an entry lowers the count by one exactly when that entry was great |
| HobbyLogHook.FirstById | hooks/use-hobby-log.ts:34 | `find` returns the first hobby with the id, or nothing when no hobby has it |
| HobbyLogHook.HookContributionTotals | hooks/use-hobby-log.ts:33-40 | the per-tag counter holds how often the tag occurs in the hobbies that the entries resolve to |
| HobbyLogHook.CalculateTopTags | hooks/use-hobby-log.ts:29-47 | at most three distinct used tags, ordered by raw use count; a more-used tag is never left out behind a less-used one; with fewer than three tags returned, every used tag is there; equally used tags are in the order they first occur in the entries' tags, and an equally used tag that was cut off first occurs after every returned one it ties with |
| HobbyLogHook.UnknownHobbyIsSkipped | hooks/use-hobby-log.ts:34-35 | an entry whose hobby is not in the catalog does not change the top tags |
| HobbyLogHook.UsesMatchAggregatorCounts | hooks/use-hobby-log.ts:33-40 | with unique catalog ids, the hook counts the same occurrences as the tag analysis does |
| HobbyLogHook.LookupsAgree | hooks/use-hobby-log.ts:34 | with unique ids, `find`'s first match and the id map's last write are the same hobby |
| HobbyLogHook.EmptyLogIsConsistent | hooks/use-hobby-log.ts:18-24 | the empty log has no entries, no great ratings and no top tags, and its cached fields agree with its entries |
| HobbyLogHook.LoadKeepsCacheConsistent | hooks/use-hobby-log.ts:65-78 | loading yields the stored log unchanged, or the empty log when nothing is readable; the loaded cache agrees with its entries when the stored cache did, since loading never recomputes it |
| HobbyLogHook.AddEntry | hooks/use-hobby-log.ts:84-122 | the written log is the freshly read log's entries plus the new entry, the great count goes up by one for a great rating, and the cache rebuilt at lines 99-107 is consistent with the new entries; the in-memory log changes only if the write succeeded, and it stays consistent |
| HobbyLogHook.DeleteEntry | hooks/use-hobby-log.ts:129-160 | the written log drops position `index` (or nothing when out of range), the great count goes down by one for a removed great entry, and the cache rebuilt at lines 137-139 is consistent with the remaining entries; the in-memory log changes only if the write succeeded, and it stays consistent |
| HobbyLogHook.HookIsStepUpUnlocked | hooks/use-hobby-log.ts:166-168 | the hook's own literal 3 agrees with the matcher's threshold; on a consistent log it means at least three great entries |
| Diagnosis.QuestionsAreWellFormed | hooks/use-diagnosis.ts:12-41 | the three questions are numbered 1 to 3 and fill three different fields; every option fits its field, no option is listed twice, and every value is offered |
| Diagnosis.CurrentQuestion | hooks/use-diagnosis.ts:51 | a question exists exactly at indices 0 to 2, and it is the question numbered index + 1 |
| Diagnosis.IsCompleted | hooks/use-diagnosis.ts:60 | the diagnosis counts as complete once the index reaches the number of questions |
| Diagnosis.IsLastQuestion | hooks/use-diagnosis.ts:63 | the last question is on screen exactly at index `totalQuestions - 1` |
| Diagnosis.Progress | hooks/use-diagnosis.ts:54-57 | the share is taken of the three questions; during the questions it lies in (0, 1], and it is whole exactly at the last question (its exact value per step is stated by Diagnosis.ProgressAlongRun) |
| Diagnosis.ProgressAlongRun | hooks/use-diagnosis.ts:57 | after `n` answers from the start, the progress shown is `(n + 1) / 3`, and the last question is on screen exactly after two answers |
| Diagnosis.AnswerQuestion | hooks/use-diagnosis.ts:66-76 | answering stores the value under the current question's field, leaves every other field as it was, and advances the index; past the last question there is no current question, and the source fails |
| Diagnosis.ResetDiagnosis | hooks/use-diagnosis.ts:79-82 | a reset returns to the first question with no answers, not completed |
| Diagnosis.GetCompletedAnswers | hooks/use-diagnosis.ts:85-98 | the answers are handed out exactly when the index is past the last question and all three fields are present |
| Diagnosis.AsDiagnosisAnswer | types/diagnosis.ts:17-21 | a record converts to a typed answer exactly when each field holds a value of its kind, and the conversion carries the values unchanged |
| Diagnosis.RunSpec | hooks/use-diagnosis.ts:66-76 | from the start, at most three answers are accepted; after n answers the index is n, exactly the first n fields hold the given values, and the diagnosis is complete exactly after the third |
| Diagnosis.CompletedAfterThreeAnswers | hooks/use-diagnosis.ts:85-98 | a completed answer exists exactly after three answers from the start; it is the record of those answers, and option values always give the typed answer carrying them |

## Left out

- Storage (AsyncStorage, JSON parsing and serialising, `isLoading`, the `try`/`catch` logging) is reduced to the value read and the write's success flag. An exception inside `addEntry` or `deleteEntry` ends in `false` with the log unchanged, which matches a failed write.
- `loggedAt` comes from `new Date().toISOString()`, a clock, so it is a parameter.
- `Math.random` is the `draws` parameter. The model does not state that the shuffle is uniform, because that is a fact about probabilities.
- React state (`useState`, `useCallback` closures, batching of `setAnswers`/`setCurrentQuestionIndex`, the mount effect) is modelled as a sequence of pure state transitions, one per call.
- `selectHobbiesWithPriority` is not defined in the source files of the core, so it is not modelled.
- MatchStepUp.RoundedPercent: the source computes `Math.round((m / n) * 100)` in floating point. The model uses exact rational rounding, so binary rounding error at exact halves is not modelled.
- HobbyLogHook.CalculateTopTags: `Object.entries` lists integer-like keys first in ascending order. The model uses insertion order for all tags, which matches `Map` in the tag analysis and matches the object for non-numeric tags.
- HobbyLogHook.CalculateTopTags: the `hobby.tags` guard is not modelled. Every modelled hobby has a tag list, possibly empty.
- Diagnosis.Progress: the value is a floating-point division. The model returns it as a numerator and denominator.
- Diagnosis.GetCompletedAnswers: the source returns the record via an unchecked `as DiagnosisAnswer` cast, whatever kinds the values have. The model hands out the record, and Diagnosis.AsDiagnosisAnswer converts it only when every value has its field's kind.
- Diagnosis.AnswerQuestion: the source accepts a value of any type. The model accepts the three value kinds that the options carry.
- `selectRandomHobbies`'s `count` and `analyzeUserTags`'s `topN` are JavaScript numbers, and `slice` truncates a fractional one toward zero (and treats `NaN` as 0). The model takes integers only.
- `analyzeUserTags` defaults `topN` to 3. The model always passes `topN` explicitly.
- `filterHobbiesByDiagnosis` falls back to admitting every energy level when the answer's energy is not one of the three levels. Typed answers always hold one of the three, so the fallback cannot be reached in the model.
- Question texts, labels and emoji, hobby names and descriptions, and UI components are display data.
- `types/common.ts` is not part of this model. The value sets are taken from the files that use them:
  - energy levels `low`, `medium` and `high` from the question options in `hooks/use-diagnosis.ts` (lines 16-19);
  - ratings `meh`, `good` and `great` from the weight table in `utils/analyze-tags.ts` (lines 18-22);
  - locations "家" (home), "外" (outside) and "どこでも" (anywhere) from the catalog fixture `__mocks__/hobbies.ts`;
  - the seven categories from the category literals in `utils/filter-hobbies.ts`.
- HobbyLogHook.LoadKeepsCacheConsistent: `loadLog` stores whatever it read without recomputing `greatCount` or `topTags`, so a stored log with a stale cache stays stale after loading. The lemma therefore assumes the stored log is consistent.
- AnalyzeTags.GetTagFrequency: the source returns a `Map`, which iterates in insertion order. The model returns an unordered `map`, so it states which tags are present and their counts, but not the iteration order. The order of the same tally is stated by TagTally.TallyFirstSeen.
- HobbyLogHook.CalculateTopTags: `tagCount` is a plain object, so a tag named like an `Object.prototype` member (`constructor`, `toString`, `__proto__`) starts from an inherited value instead of 0 and is miscounted or lost. The model counts every tag from 0.

Behaviour of the code that is easy to misread, which the model follows as written:

- `calculateTopTags` in the log hook ranks tags by raw occurrence count, one per tag occurrence, and it ignores ratings. The weighted ranking belongs only to `analyzeUserTags`.
- `selectRandomHobbies` and `analyzeUserTags` pass their count straight to `slice(0, count)`, so a negative count drops hobbies or tags from the back; it does not return nothing. FilterHobbies.SelectRandomHobbies and AnalyzeTags.AnalyzeUserTagsLength state the resulting lengths.
- The tag analysis resolves an id through a `Map` filled in catalog order, so the last hobby with a duplicated id wins. The log hook and `findStepUpHobbyById` use `find`, so the first one wins. HobbyLogHook.LookupsAgree shows that the two agree when ids are unique.
- The hook's `isStepUpUnlocked` tests the literal `3` rather than the exported threshold constant. HobbyLogHook.HookIsStepUpUnlocked shows that the two agree.
- `MatchResult.matchScore` is commented as 0 to 100 (`utils/match-stepup.ts` line 28). A step-up hobby whose match tags repeat a user tag counts every repetition, so its score can exceed 100. MatchStepUp.ScoreWithinPercent therefore assumes that no catalog hobby repeats a match tag.
