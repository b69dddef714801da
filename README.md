# fuzzysort, modelled in Dafny

This project models the matching-and-scoring engine of fuzzysort (`src/fuzzysort.ts`).
It covers the following parts:

- **Target preparation.** Lowering to ASCII lower case, the 32-bit character-class signature (`bitflags`) and the space flag. The table of word beginnings and the jump table `nextBeginningIndexes` built from it.
- **Query preparation.** `prepareSearch` trims the query. A query with a space is split on runs of whitespace; the terms are deduplicated (first occurrence wins), empty ones dropped, and each term prepared.
- **`algorithm`.** A greedy first pass decides whether the query is a subsequence of the target at all. A strict second pass then places each code on a word beginning or right after the previous placement, backtracking at most 200 times. Next come the substring check, the score formula and the copy of the placement into the target's `_indexes`.
- **`algorithmSpaces`.** Every term must match. The term scores are summed, with an order penalty. The term placements are merged in first-seen order. The whole query, spaces included, is then tried as one term and kept when it scores strictly higher.
- **`single`.** The bitflag filter, then `algorithm`.
- **`go` without keys.**
  - Every target that matches and passes the threshold is offered to a min-heap holding at most `limit` results.
  - The heap is drained best first.
  - `total` counts every accepted match.
- **The heap.** The array-backed binary min-heap (`add`, `poll`, `peek`, `replaceTop`).
- **`indexes`.** The sorted copy of a result's indexes.

The program changes state, so the model does too:

- A prepared target is a class (`Matching.Prepared`). `algorithm` overwrites its `score`, `_indexes` and `_indexes.len`, and fills its jump table on first use.
- The heap is a class over a growing sequence (`TopKHeap.TopK`).
- Every loop of the source is a loop here, proved against a specification function:
  - the prepare loops, the two matching passes, the score tallies, the index copy and the term loop;
  - the sift loops of the heap, the scan of `go` and the drain.

Character codes are UTF-16 code units (`Codes.Code`). Scores are real numbers. JavaScript's `null`/`undefined` results are `Option`.

Three details of the code that the model follows exactly:

- A query is split only when it holds the space code 32: `prepareLowerInfo` sets `containsSpace` for code 32 and for no other code. The split itself then cuts at every run of `\s` whitespace, tabs and no-break spaces included.
- `nextBeginningIndexes[i]` is the first beginning strictly after `i`. `firstPossibleI` reads entry `matchesSimple[0] - 1` to get the first beginning at or after `matchesSimple[0]`.
- `single` and `go` apply the bitflag filter to the signature of the whole query, whose bits come from every code except code 32. For a query without a space this rejects only targets that do not match (`Fuzzysort.FilterSound`). For a query with a space it rejects only such targets too when code 32 is the query's only whitespace (`Fuzzysort.SpacedFilterSound`). Any other whitespace code in a split query (a tab, a no-break space) sets bit 30 or 31 but belongs to no term. The filter then rejects every target lacking that bit, even one that every term matches: `Fuzzysort.TabDefeatsFilter` shows this for `a<TAB>b c` against `abc`. `Fuzzysort.FilterAndMatch` states the filter and the match together.

## Model

| member | source | states |
|---|---|---|
| LowerInfo.BitIndex | src/fuzzysort.ts:522-530 | a-z map to bits 0-25, digits to 26, other ASCII to 30 and everything else to 31; every bit is below 32 |
| LowerInfo.Bit | src/fuzzysort.ts:517-531 | a space sets no bit; any other code sets its class bit (definition) |
| LowerInfo.Bitflags | src/fuzzysort.ts:514-532 | the union of the bits of the codes, as `bitflags \|= 1 << bit` accumulates it (definition) |
| LowerInfo.BitflagsBits | src/fuzzysort.ts:514-532 | a bit is in the signature exactly when some non-space code of that class occurs in the string, so every bit is below 32 |
| LowerInfo.BitflagsStep | src/fuzzysort.ts:531 | one more code adds exactly its own bit, and a space adds none |
| LowerInfo.BitflagFilterSound | src/fuzzysort.ts:82 | when the query is a subsequence of the target, every bit of the query's signature is set in the target's |
| LowerInfo.GatheredStep | src/fuzzysort.ts:514-532 | one loop step appends the lowered code and adds its bit, and a space sets the flag |
| LowerInfo.PrepareLowerInfo | src/fuzzysort.ts:507-540 | returns the lowered codes (same length), their signature, and whether the string holds a space |
| Codes.LowerAll | src/fuzzysort.ts:509 | lowering keeps the length and lowers each code on its own (A-Z to a-z) |
| Codes.Lower | src/fuzzysort.ts:509 | A-Z become a-z and every other code is kept |
| Codes.IsWhitespace | src/fuzzysort.ts:219-224 | the codes of the `\s` class, which `trim` strips and `split(/\s+/)` cuts at (definition) |
| Tokens.Trim | src/fuzzysort.ts:219 | exactly the leading and trailing whitespace goes: the result occurs in the input at the end of the leading whitespace, every input code outside it is whitespace, no whitespace remains at either end, and it is empty exactly when the input is all whitespace |
| Tokens.TrimKeeps | src/fuzzysort.ts:219 | trimming brings in no whitespace code the input did not hold |
| Search.TrimIdempotent | src/fuzzysort.ts:219 | trimming a trimmed query changes nothing |
| Tokens.SplitAcc | src/fuzzysort.ts:224 | the fields of `split(/\s+/)` after the current field: one field per run of whitespace, empty fields included (definition) |
| Tokens.Split | src/fuzzysort.ts:224 | `split(/\s+/)` of the whole text (definition) |
| Tokens.Concat | src/fuzzysort.ts:224 | the fields joined with nothing between them (definition) |
| Tokens.Visible | src/fuzzysort.ts:224 | the non-whitespace codes of the text, in order (definition) |
| Tokens.VisibleSkipsWhitespace | src/fuzzysort.ts:224 | a leading run of whitespace adds no visible code |
| Tokens.VisibleHas | src/fuzzysort.ts:224 | every non-whitespace code of the text is among its visible codes |
| Tokens.SplitAccCovers | src/fuzzysort.ts:224 | the fields after the current one, joined, are the current field followed by the visible codes of the rest |
| Tokens.SplitCovers | src/fuzzysort.ts:224 | the split loses, adds and moves no code: its fields joined are exactly the non-whitespace codes of the text, in order |
| Tokens.Rejoin | src/fuzzysort.ts:224 | the fields put back with a separator between each two (definition) |
| Tokens.IsGap | src/fuzzysort.ts:224 | what `/\s+/` matches: a non-empty run of whitespace |
| Tokens.SeparatedBy | src/fuzzysort.ts:224 | the text is the fields with the given whitespace runs between each two, and only the first and last field may be empty (definition) |
| Tokens.Separated | src/fuzzysort.ts:224 | `SeparatedBy` for some whitespace runs (definition) |
| Tokens.SeparatedCons | src/fuzzysort.ts:224 | a field and a whitespace run put in front keep a text separated |
| Tokens.SplitAccAtGap | src/fuzzysort.ts:224 | at a whitespace run the current field closes and the whole run becomes the next separator |
| Tokens.SplitAccSeparated | src/fuzzysort.ts:224 | returns the whitespace runs that separate the accumulated fields in `cur + s`, and the first is non-empty when the text starts with a field code |
| Tokens.SplitSeparated | src/fuzzysort.ts:224 | `split(/\s+/)` cuts exactly at the whitespace runs; with `SplitAccNoWhitespace` this fixes the fields |
| Tokens.ConcatHas | src/fuzzysort.ts:224 | a code of the joined fields lies in one of the fields |
| Tokens.SplitAccSlices | src/fuzzysort.ts:224 | every field of `split(/\s+/)` lies contiguously in the text |
| Tokens.SplitAccNoWhitespace | src/fuzzysort.ts:224 | no field holds whitespace |
| Tokens.SplitAccShorter | src/fuzzysort.ts:224 | no field is longer than the text, and when the text holds whitespace every field is shorter |
| Tokens.SplitAccNonEmpty | src/fuzzysort.ts:224 | a text starting with a non-whitespace code yields a non-empty field |
| Tokens.Distinct | src/fuzzysort.ts:225 | `[...new Set(s)]` holds exactly the elements of `s`, each once, in order of first occurrence |
| Tokens.DistinctSkip | src/fuzzysort.ts:225 | a repeated element leaves the distinct list unchanged |
| Tokens.DistinctAdd | src/fuzzysort.ts:225 | a new element goes at the end of the distinct list |
| Tokens.NonEmpty | src/fuzzysort.ts:226-227 | the `=== ""` skip keeps exactly the non-empty elements |
| Tokens.BeforeLast | src/fuzzysort.ts:225 | in a distinct first-occurrence list, every earlier term first occurs before the last term and differs from it |
| Tokens.AppendOrdered | src/fuzzysort.ts:225-227 | appending a term that first occurs after every kept term keeps the list distinct and in first-occurrence order |
| Tokens.KeptBeforeLast | src/fuzzysort.ts:226-227 | every non-empty term kept before the last distinct term first occurs before it and differs from it |
| Tokens.NonEmptyAppend | src/fuzzysort.ts:225-227 | keeping or dropping the last term keeps the terms distinct and in first-occurrence order |
| Tokens.NonEmptyKeepsOrder | src/fuzzysort.ts:225-227 | dropping empty terms keeps the terms distinct and in first-occurrence order |
| Tokens.Terms | src/fuzzysort.ts:224-227 | the terms are the non-empty fields of the split, each once, in first-occurrence order |
| Tokens.TermsOfSpacedText | src/fuzzysort.ts:223-235 | a trimmed text with whitespace has at least one term, and each term is non-empty, shorter than the text, contiguous in it and free of whitespace |
| Search.LowerTerms | src/fuzzysort.ts:228-233 | each term's `lowerCodes` is that term lowered |
| Search.LowerSlice | src/fuzzysort.ts:228-231 | lowering a slice gives a slice of the lowered text |
| Search.TermsValid | src/fuzzysort.ts:222-235 | a trimmed query with a space has at least one term, and each lowered term is a non-empty, strictly shorter slice of the lowered query |
| Search.SpaceInLower | src/fuzzysort.ts:517-518 | the string holds a space exactly when its lowered codes do |
| Search.LowerTermsStep | src/fuzzysort.ts:226-234 | one loop step appends the term's lowered codes exactly when the term is non-empty |
| Search.PrepareSearch | src/fuzzysort.ts:217-244 | the query is trimmed and lowered, with its signature; it is split exactly when the trimmed query holds a space, with the lowered distinct non-empty terms in first-occurrence order; the result is well formed |
| Fuzzysort.PreparedSearchFor | src/fuzzysort.ts:254-261 | the cached lookup returns exactly what `prepareSearch` computes (the cache is not modelled) |
| Beginnings.IsBeginning | src/fuzzysort.ts:549-554 | an upper-case letter after a non-upper-case code, any code after a non-alphanumeric one or at the start, and any non-alphanumeric code (definition) |
| Beginnings.NextFrom | src/fuzzysort.ts:561-577 | the first beginning at or after `j`, or the text length when there is none |
| Beginnings.FirstIsBeginning | src/fuzzysort.ts:546-554 | position 0 of a non-empty text is always a beginning |
| Beginnings.PrepareBeginningIndexes | src/fuzzysort.ts:541-560 | lists every beginning of the target, strictly increasing, and nothing else |
| Beginnings.ListedNext | src/fuzzysort.ts:565-574 | the list entry at the cursor is the next beginning, and past the list there is none |
| Beginnings.WalkStart | src/fuzzysort.ts:565-566 | the walk starts at the first listed beginning |
| Beginnings.WalkKeep | src/fuzzysort.ts:568-569 | a cursor beginning ahead of `i` is the entry for `i`, and the cursor stays put |
| Beginnings.WalkAdvance | src/fuzzysort.ts:570-573 | otherwise the cursor moves on, and the entry is the next listed beginning or the length |
| Beginnings.PrepareNextBeginningIndexes | src/fuzzysort.ts:561-577 | entry `i` is the first beginning strictly after `i`, or the target length |
| Beginnings.NextBeginningsBounds | src/fuzzysort.ts:561-577 | each entry lies after its position and at most at the end; it is a beginning unless it is the end, and no beginning lies in between |
| Beginnings.NextFromMonotone | src/fuzzysort.ts:561-577 | the next beginning never moves back as the start moves forward |
| Beginnings.NextBeginningsMonotone | src/fuzzysort.ts:561-577 | the jump table is non-decreasing |
| Subsequence.LeftmostBelow | src/fuzzysort.ts:326-336 | the greedy placement lies at or before every other placement, position by position |
| Subsequence.LeftmostUnique | src/fuzzysort.ts:326-336 | there is only one greedy placement |
| Subsequence.NoEmbedding | src/fuzzysort.ts:334-335 | when the next code does not occur after the greedy prefix, the query is not a subsequence |
| Subsequence.SliceIsSubsequence | src/fuzzysort.ts:381-391 | a contiguous slice of the target is a subsequence of it |
| Subsequence.ScanMatch | src/fuzzysort.ts:327-333 | a match extends the greedy placement, which stays leftmost |
| Subsequence.ScanSkip | src/fuzzysort.ts:327-334 | a mismatch preserves the scan state |
| Subsequence.SimpleScan | src/fuzzysort.ts:323-336 | fails exactly when the query is empty or not a subsequence of the target; otherwise returns the leftmost placement |
| Strict.StrictShapeEmbeds | src/fuzzysort.ts:366-373 | a complete strict placement places every query code |
| Strict.PushStrict | src/fuzzysort.ts:366-369 | placing a code on a beginning or right after the previous placement keeps the placement strict |
| Strict.PopStrict | src/fuzzysort.ts:362-363 | taking back the last placement keeps the placement strict |
| Strict.Backtrack | src/fuzzysort.ts:355-364 | a take-back resumes at the next beginning after the removed position, and the loop state holds again |
| Strict.Place | src/fuzzysort.ts:366-374 | a match either completes a strict placement (the run 0..n-1 for a prefix of the target) or continues the loop |
| Strict.Skip | src/fuzzysort.ts:375-377 | a mismatch jumps strictly forward to the next beginning, and the loop state holds |
| Strict.StrictSearch | src/fuzzysort.ts:338-379 | on success the placement places every code, each on a beginning or consecutive, from `firstPossibleI` on; a query that is a prefix of the target always succeeds with 0..n-1 |
| Substring.IndexOf | src/fuzzysort.ts:382-386 | `indexOf(needle, from)` is the least occurrence at or after `from`, or -1 when there is none |
| Substring.IndexOfFrom | src/fuzzysort.ts:382-386 | starting the search late loses nothing when no occurrence lies before the start |
| Scoring.Base | src/fuzzysort.ts:408-422 | the score before scaling: minus the group penalty, the span of unmatched codes and the start position (definition) |
| Scoring.Factor | src/fuzzysort.ts:424-438 | the multiplier: 1000 for a simple placement, `(beginnings - 24) * 10` for a strict one above 24 beginnings, else 1 (definition) |
| Scoring.Bonus | src/fuzzysort.ts:440-441 | division by `1 + n*n` for a substring and once more for a substring at a word beginning (definition) |
| Scoring.Score | src/fuzzysort.ts:408-443 | the whole formula: base, multiplier, bonuses, less the target codes the query leaves over (definition) |
| Scoring.BreaksBounds | src/fuzzysort.ts:410-416 | for increasing positions the group penalty is non-negative, with at most n-1 extra groups |
| Scoring.RunSpan | src/fuzzysort.ts:417-418 | `unmatchedDistance` is non-negative for increasing positions |
| Scoring.BaseNonPositive | src/fuzzysort.ts:408-422 | the score after the group and start penalties is at most 0 |
| Scoring.FactorPositive | src/fuzzysort.ts:424-438 | the strict/simple multiplier is at least 1 |
| Scoring.BonusBounds | src/fuzzysort.ts:440-441 | a non-positive score divided by the substring bonuses stays non-positive and never goes down |
| Scoring.BonusMonotone | src/fuzzysort.ts:440-441 | the substring bonuses preserve the order of scores |
| Scoring.ScaledNonPositive | src/fuzzysort.ts:408-438 | the scaled score is at most 0 |
| Scoring.ScoreBound | src/fuzzysort.ts:408-443 | the score of a placement inside the target is at most `-(targetLen - searchLen)`, and at most 0 |
| Scoring.RunHasNoBreaks | src/fuzzysort.ts:411-416 | a contiguous run has no extra groups and no group penalty |
| Scoring.PerfectScore | src/fuzzysort.ts:408-443 | the run 0..n-1 in a target of length n scores exactly 0 |
| Scoring.SubstringBonus | src/fuzzysort.ts:440 | being a substring never lowers the score |
| Scoring.StrictFactorAtMost | src/fuzzysort.ts:424-438 | at most 124 beginnings make the strict multiplier no larger than the simple one (1000) |
| Scoring.StrictBeatsSimple | src/fuzzysort.ts:424-438 | with at most 124 beginnings a strict placement scores at least as well as the same placement found by the simple scan |
| Scoring.BeginningCountSkip | src/fuzzysort.ts:429-434 | jumping to the next beginning skips no beginning |
| Scoring.CountBeginnings | src/fuzzysort.ts:428-434 | following the jump table from 0 counts every beginning of the target |
| Scoring.CountGroups | src/fuzzysort.ts:410-416 | the group loop sums the positions that start a new group and counts those groups |
| Scoring.PenaliseGroups | src/fuzzysort.ts:408-422 | computes the base score: group and start-position penalties |
| Scoring.ApplyFactor | src/fuzzysort.ts:424-438 | multiplies by 1000 for a simple placement, or by `(beginnings - 24) * 10` above 24 beginnings for a strict one |
| Scoring.ApplyBonus | src/fuzzysort.ts:440-441 | divides by `1 + n*n` for a substring, and once more for a substring at a word beginning |
| Scoring.ScoreMatches | src/fuzzysort.ts:398-443 | the scoring block computes the score formula for the chosen placement |
| Matching.Prepared.constructor | src/fuzzysort.ts:197-210 | `prepare` lowers the target and computes its signature; no jump table and no indexes yet |
| Matching.Overwrite | src/fuzzysort.ts:446-447 | writing a placement over `_indexes` puts the placement first and keeps what lies beyond it |
| Matching.OverwriteStep | src/fuzzysort.ts:446-447 | one copy step writes one more position |
| Matching.WriteIndexes | src/fuzzysort.ts:446-449 | copies the placement into `_indexes`, sets `len`, and changes nothing else |
| Matching.EnsureNextBeginnings | src/fuzzysort.ts:342-345 | the jump table is computed from the original target on first use and reused afterwards |
| Matching.StrictShapePlacement | src/fuzzysort.ts:349-351 | a strict placement places every code, each on a beginning or consecutive |
| Matching.RunEmbeds | src/fuzzysort.ts:387-391 | a substring occurrence gives the contiguous placement |
| Matching.LeftmostAtZero | src/fuzzysort.ts:346-347 | a target starting with the query's first code has its greedy placement begin at 0 |
| Matching.FirstPossible | src/fuzzysort.ts:346-347 | `firstPossibleI` lies at or after the first greedy position and is a beginning or the end |
| Matching.SubstringBeginning | src/fuzzysort.ts:392-396 | `nb[s - 1] === s` holds exactly when `s` is a word beginning after position 0 |
| Matching.NoOccurrenceBeforeScan | src/fuzzysort.ts:381-386 | no occurrence of the query lies before the first greedy position, so searching from there finds the first occurrence |
| Matching.RewriteToSubstring | src/fuzzysort.ts:387-391 | the rewrite replaces the simple placement by the run starting at the substring index |
| Matching.Placement | src/fuzzysort.ts:338-406 | picks the placement that is scored: strict when the strict pass succeeds, else the substring run when there is one, else the greedy one; also computes the substring index and whether it starts a word |
| Matching.ScoreAndStore | src/fuzzysort.ts:398-452 | stores the score of the chosen placement and its indexes into the target; the score is at most `-(targetLen - searchLen)` and 0 for an exact match |
| Matching.Chosen | src/fuzzysort.ts:338-406 | the placement `algorithm` stores: the strict one when the strict pass succeeds, else the run at the first substring occurrence, else the greedy one (definition) |
| Matching.ScoredAs | src/fuzzysort.ts:398-443 | the chosen placement with exactly the score the formula gives it, for a given outcome of the strict pass (definition) |
| Matching.Scored | src/fuzzysort.ts:309-453 | what `algorithm` can report for a query: the chosen placement and its score, whichever way the strict pass went (definition) |
| Matching.AlgorithmSingle | src/fuzzysort.ts:309-453 | matches exactly when the query is a non-empty subsequence of the target; a miss leaves the target untouched; a match stores the chosen placement and exactly its formula score, which is bounded above and 0 for an exact match |
| Spaces.Combine | src/fuzzysort.ts:466-477 | the term scores summed, each term docked by how far its first index lies before the previous term's (definition) |
| Spaces.UnionAll | src/fuzzysort.ts:455-482 | the insertion-ordered union of the term placements, as `seen_indexes` collects it (definition) |
| Spaces.Dock | src/fuzzysort.ts:470-475 | the order penalty is positive exactly when a term's first index lies before the previous term's |
| Spaces.CombineAtMostSum | src/fuzzysort.ts:466-475 | docking never raises the summed score |
| Spaces.CombineStep | src/fuzzysort.ts:466-477 | one more term adds its score less its order penalty |
| Spaces.CombineNonPositive | src/fuzzysort.ts:466-475 | non-positive term scores combine to a non-positive score |
| Spaces.CombineNegative | src/fuzzysort.ts:466-475 | negative term scores combine to a negative score |
| Spaces.Add | src/fuzzysort.ts:482 | `Set.prototype.add` adds the element and keeps the others |
| Spaces.AddAllProperties | src/fuzzysort.ts:480-482 | adding a placement keeps the earlier elements in place, adds nothing twice, and holds exactly the union |
| Spaces.UnionAllProperties | src/fuzzysort.ts:455 | `seen_indexes` holds every index of every term placement exactly once, and nothing else |
| Spaces.UnionStep | src/fuzzysort.ts:480-482 | one more term adds its placement to the union |
| Spaces.Firsts | src/fuzzysort.ts:472-477 | the first index of each term placement |
| Spaces.AddIndexes | src/fuzzysort.ts:480-482 | the loop adds the current placement to the ordered set |
| Spaces.MatchTerm | src/fuzzysort.ts:464-465 | a term matches exactly when it is a non-empty subsequence of the target; a match stores the placement `algorithm` chooses for the term and exactly its formula score |
| Spaces.TermResults | src/fuzzysort.ts:461-483 | per matched term, the placement `algorithm` chose and exactly its score, at most minus the codes the term leaves over (definition) |
| Spaces.TermResultsStep | src/fuzzysort.ts:461-483 | a matched term adds its placement and score to the results so far |
| Spaces.TermStep | src/fuzzysort.ts:461-482 | one loop body matches the term with its chosen placement and exact score, adds that score less the order penalty and collects the term's indexes |
| Spaces.ProgressStep | src/fuzzysort.ts:461-483 | one more matched term extends the loop state |
| Spaces.ProgressFail | src/fuzzysort.ts:465 | a term that does not match makes the whole query fail |
| Spaces.MatchTerms | src/fuzzysort.ts:455-483 | succeeds exactly when every term matches; each term then has its chosen placement and exact score, and the loop returns their combined score and the ordered union of their placements |
| Spaces.MatchWhole | src/fuzzysort.ts:486-490 | the whole query matches exactly when it is a non-empty subsequence of the target, and then stores its chosen placement and exactly its formula score |
| Spaces.ExactQueryBeatsTerms | src/fuzzysort.ts:485-493 | for an exact query every term is shorter than the target, so the terms combine below 0 and the whole query (score 0) wins |
| Spaces.SpacedChoice | src/fuzzysort.ts:486-505 | for given term results and whole-query match: the whole-query placement and score when the whole query is a subsequence scoring strictly above the combined terms, otherwise the combined score and the union of the term placements (definition) |
| Spaces.SpacedResult | src/fuzzysort.ts:454-505 | the `algorithmSpaces` result for some term results and some whole-query match, each given by `Matching.Scored` (definition) |
| Spaces.SpacedResultOf | src/fuzzysort.ts:454-505 | the term results and the whole-query match that `AlgorithmSpaces` states make the stored placement and score a `SpacedResult` |
| Spaces.AlgorithmSpaces | src/fuzzysort.ts:454-505 | matches exactly when every term matches; the whole query then matches exactly when it is a non-empty subsequence, with its chosen placement and exact score; that match is kept exactly when its score is strictly above the combined term score, and then the target holds its score and placement; otherwise the target holds the combined score and the union of the term placements; an exact query scores 0 |
| Fuzzysort.EmbedsGood | src/fuzzysort.ts:446-449 | a stored placement holds distinct positions of the target |
| Fuzzysort.UnionGood | src/fuzzysort.ts:498-502 | the merged term placements hold distinct positions of the target |
| Fuzzysort.TermsOfExact | src/fuzzysort.ts:454-483 | every term that is a slice of the target matches it |
| Fuzzysort.ExactMatches | src/fuzzysort.ts:309-311 | a well-formed query matches its own lowered codes, split or not |
| Fuzzysort.Algorithm | src/fuzzysort.ts:309-311 | the dispatch matches exactly when every term matches (split query) or the whole query is a subsequence; a match scores at most 0 with distinct in-range indexes, and an exact match scores 0; an unsplit query stores its chosen placement and exactly its formula score; a split query stores the `algorithmSpaces` result (`Spaces.SpacedResult`) |
| Fuzzysort.FilterSound | src/fuzzysort.ts:82 | without a space, the bitflag filter rejects only targets that would not match |
| Fuzzysort.VisibleInTerm | src/fuzzysort.ts:222-227 | every non-whitespace code of the trimmed query lies in one of its terms |
| Fuzzysort.TermsCarryBits | src/fuzzysort.ts:82 | when code 32 is the only whitespace of a text whose terms all match the target, every bit of the text's signature is set in the target's |
| Fuzzysort.SpacedFilterSound | src/fuzzysort.ts:82 | with a space in the query and no other whitespace, the bitflag filter rejects only targets that would not match |
| Fuzzysort.SplitExample | src/fuzzysort.ts:224 | `a<TAB>b c` splits into the three one-letter fields, for any lowercase letters |
| Fuzzysort.ExampleMatches | src/fuzzysort.ts:222-235 | the query `a<TAB>b c` is split, and each of its terms matches the target `abc` |
| Fuzzysort.CodeSetsBit | src/fuzzysort.ts:531 | a code other than a space sets its class bit in the signature |
| Fuzzysort.ExampleBits | src/fuzzysort.ts:517-531 | the tab of `a<TAB>b c` sets bit 30 of the query's signature, and `abc` does not set it |
| Fuzzysort.TabDefeatsFilter | src/fuzzysort.ts:82 | the split query `a<TAB>b c` matches `abc` term by term, yet the bitflag filter rejects `abc` |
| Fuzzysort.FilterAndMatch | src/fuzzysort.ts:80-85 | matches exactly when the signature filter passes and the query matches; without a space, exactly when the query matches, with its chosen placement and exact score; with a space, the `algorithmSpaces` result; an exact match scores 0 |
| Fuzzysort.Single | src/fuzzysort.ts:72-86 | an empty query or a missing target gives `null`; otherwise the result says whether the filter passes and the query matches; without a space the result holds the chosen placement and its exact score, and with a space the `algorithmSpaces` result; it is the prepared target itself, or a fresh prepared copy of the string; an exact match scores 0 |
| Fuzzysort.Insert | src/fuzzysort.ts:195 | inserting keeps the sequence ascending and adds exactly one element |
| Fuzzysort.SortAscending | src/fuzzysort.ts:195 | `sort((a, b) => a - b)` returns an ascending sequence |
| Fuzzysort.SortPermutes | src/fuzzysort.ts:195 | the sorted sequence is a permutation of the input |
| Fuzzysort.SortedDistinct | src/fuzzysort.ts:195 | distinct inputs sort to a strictly increasing sequence |
| Fuzzysort.Indexes | src/fuzzysort.ts:193-195 | the first `len` stored indexes, sorted (definition; see `Fuzzysort.IndexesSorted`) |
| Fuzzysort.IndexesSorted | src/fuzzysort.ts:193-195 | `indexes(result)` returns the first `len` stored indexes in ascending order, strictly increasing when they are distinct |
| Fuzzysort.Outcome | src/fuzzysort.ts:159-169 | a target has a result exactly when it is truthy, passes the filter and matches; the result carries its `refIndex`, target, a score at most 0 and distinct in-range indexes; without a space, the chosen placement and its exact score; with a space, the `algorithmSpaces` result; an exact match scores 0 (definition) |
| Fuzzysort.OutcomesStep | src/fuzzysort.ts:159-169 | one more target outcome extends the record of outcomes |
| Fuzzysort.Evaluate | src/fuzzysort.ts:159-169 | a falsy target is skipped; otherwise the target is prepared, filtered and matched, and a match is recorded with its `refIndex`, as `Outcome` states: with the chosen placement and exact score, or the `algorithmSpaces` result for a split query |
| Fuzzysort.EvaluateAt | src/fuzzysort.ts:159-168 | evaluating target `i` keeps every prepared target well formed |
| Fuzzysort.EffectiveThreshold | src/fuzzysort.ts:112 | `threshold \|\| INT_MIN`: a zero threshold is no threshold (definition) |
| Fuzzysort.Passes | src/fuzzysort.ts:169 | a result passes unless its score is below the threshold (definition) |
| Fuzzysort.AcceptedMembers | src/fuzzysort.ts:166-169 | a result is accepted exactly when some target produced it and its score is not below the threshold |
| Fuzzysort.Consider | src/fuzzysort.ts:169-178 | a match that passes the threshold is offered to the heap, and anything else is ignored |
| Fuzzysort.ScanStep | src/fuzzysort.ts:159-179 | one iteration records the target's outcome and keeps the selection state |
| Fuzzysort.Scan | src/fuzzysort.ts:159-180 | after the loop every target has an outcome, and the heap holds the kept part of the accepted matches |
| Fuzzysort.Go | src/fuzzysort.ts:101-190 | an empty query gives no results; otherwise `total` is the number of accepted matches and the results are the best `limit` of them, best first |
| Selection.EffectiveLimit | src/fuzzysort.ts:113 | `limit \|\| INT_MAX`: a zero limit means no limit |
| Selection.Cap | src/fuzzysort.ts:170-178 | the number of results kept is the smaller of the limit and the number accepted |
| Selection.TopOf | src/fuzzysort.ts:159-190 | the results are drawn from the accepted matches, as many as the limit allows, best first, and no accepted match left out scores more than one kept (definition) |
| Selection.TopOfComplete | src/fuzzysort.ts:159-190 | when the limit does not bite, every accepted match is returned |
| Selection.TopOfBest | src/fuzzysort.ts:183-189 | the first result scores at least as much as every accepted match |
| Selection.KeptAdd | src/fuzzysort.ts:170-173 | under the limit a new result is kept and nothing is dropped |
| Selection.KeptReplace | src/fuzzysort.ts:174-178 | at the limit a result better than the worst kept one replaces it, and the worst is dropped |
| Selection.KeptSkip | src/fuzzysort.ts:174-178 | at the limit a result no better than the worst kept one is dropped |
| Selection.Offer | src/fuzzysort.ts:170-178 | one accepted result keeps the selection state: the kept results are never worse than the dropped ones |
| Selection.DrainStep | src/fuzzysort.ts:186 | prepending the minimum of the heap keeps the drained results ordered best first |
| Selection.Drain | src/fuzzysort.ts:184-186 | polling into `resultsLen - 1` down to 0 empties the heap and returns its contents best first |
| Selection.SelectedIsTop | src/fuzzysort.ts:182-188 | a drained selection holds the best accepted matches, as many as the limit allows, best first |
| TopKHeap.Parent | src/fuzzysort.ts:626 | `(a - 1) >> 1`, the parent slot of slot `a` (definition) |
| TopKHeap.RootBelow | src/fuzzysort.ts:617-669 | in a heap, the root scores no more than any element |
| TopKHeap.HeapRootIsMin | src/fuzzysort.ts:659-661 | the root of a heap is a minimum |
| TopKHeap.SmallerChild | src/fuzzysort.ts:623-625 | the sift picks the child with the lower score |
| TopKHeap.UpStep | src/fuzzysort.ts:642-647 | moving the parent into the hole keeps the heap order around the hole and the elements |
| TopKHeap.UpDone | src/fuzzysort.ts:648 | once the parent does not score more, the value goes into the hole and the array is a heap |
| TopKHeap.DownStep | src/fuzzysort.ts:622-628 | promoting the smaller child keeps the heap order away from the hole and the elements |
| TopKHeap.DownDone | src/fuzzysort.ts:629-635 | at a leaf the down phase hands over to the up phase |
| TopKHeap.SiftUp | src/fuzzysort.ts:629-635 | the moving-up loop leaves a heap with the same elements |
| TopKHeap.Sift | src/fuzzysort.ts:621-636 | the sift restores the heap with the same elements |
| TopKHeap.AddReady | src/fuzzysort.ts:639-641 | appending to a heap leaves it ordered everywhere except at the new element |
| TopKHeap.RootReplaced | src/fuzzysort.ts:663-666 | replacing the root leaves every edge away from the root ordered |
| TopKHeap.PollReady | src/fuzzysort.ts:651-656 | moving the last element to the root leaves the rest ordered, minus the old root |
| TopKHeap.TopK.constructor | src/fuzzysort.ts:617-620 | a new heap is empty |
| TopKHeap.TopK.Peek | src/fuzzysort.ts:659-661 | `peek` returns the root, a minimum, or nothing on an empty heap |
| TopKHeap.TopK.Add | src/fuzzysort.ts:639-649 | `add` keeps the heap and adds exactly the new element |
| TopKHeap.TopK.Poll | src/fuzzysort.ts:651-657 | `poll` removes and returns a minimum, keeps the heap, and returns nothing on an empty heap |
| TopKHeap.TopK.ReplaceTop | src/fuzzysort.ts:663-666 | `replaceTop` swaps the root for the new element and keeps the heap |

## Left out

- Keyed search: the `options.key` branch of `go` (lines 121-157), `getValue` and the cloned result objects are not part of this model.
- `all`: the empty-query mode that returns every target is not modelled. `go` with an empty query returns no results here, whatever `options.all` says.
- `cleanup`, `preparedSearchCache` and its 999-code bypass: a cached prepared query is the value `prepareSearch` computes, so these only affect speed.
- Single: `getPrepared` (lines 246-253) caches one prepared object per target string of at most 999 codes, and `single` returns that shared object. A later call with the same string overwrites the `score` and `_indexes` of the earlier result. The model prepares a string target afresh and returns a fresh object, so it does not capture this.
- Go: equal target strings of at most 999 codes share one cached prepared object, so their results alias. The `refIndex` written at line 168 ends as the last such index on all of them: `go("a", ["a", "a"])` returns two results, both with `refIndex` 1. The model prepares each string afresh and records each result as a snapshot with its own `refIndex`, so it does not capture this.
- Codes.Lower: `toLowerCase` is modelled for ASCII A-Z only. Unicode case mapping, including mappings that change the length, is not modelled.
- IEEE floating point: scores are exact reals. Rounding, `-0`, NaN and the `Infinity` sentinels `INT_MIN`/`INT_MAX` are not modelled. The sentinels become `None` for "no threshold" and "no limit".
- Go: `limit` and `threshold` are modelled only as absent, zero or given. A negative or fractional `limit`, and a NaN threshold, are not modelled. With a negative limit the source calls `q.peek().score` on an empty heap and throws.
- Go: results are snapshots of the matched prepared targets. Two entries of `targets` that are the same prepared object alias in the source, so the later match overwrites the earlier one's `score` and `_indexes`. The model does not capture this aliasing.
- Go: the source writes `refIndex` into the prepared object, even for a match the threshold then rejects. The model records it only in the result snapshot.
- Go: which of several equally scored results survives at the limit is left open. Only the order of scores is stated.
- Go: `noResults.total` is modelled as the returned total 0.
- The global scratch buffers `matchesSimple` and `matchesStrict` are local sequences. Their stale contents beyond the current length are never read.
- `prepare`: the initial `score: NULL` is modelled as 0.0, because it is never read before a match writes it. `_indexes.len` starts at 0.
- LowerInfo.Bitflags: the 32-bit signature is modelled as the set of its one bits (all below 32). `|=` is union, and `(a & b) !== a` is "not a subset". Integer bit operations are not used.
- Strict.StrictSearch: states the shape of a successful strict placement, and success on a query that is a prefix of the target. It does not state which placement the backtracking finds, or exactly when the 200-take-back cap makes it give up.
- Spaces.MatchTerms: when a term fails, the loop returns at once, and the target keeps what that term and the terms before it wrote. The model states only that the target stays well formed.
- Spaces.AlgorithmSpaces: when a term fails, the target keeps whatever the terms before it wrote. The model states only that the target stays well formed.
- `bench`, the build configuration and `index.d.ts` are outside the engine.
