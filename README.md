# Wordle-Solver engine, modelled in Dafny

This project models the solver engine of the Python Wordle-Solver and proves
properties of the model. The engine covers:

- the Wordle verdict of a guess against an answer;
- the constraint filter that learns from verdicts;
- the older letter→index solver;
- the candidate ranker and the integer bookkeeping of its scorers.

All files are verified together:

| file | module | what it models |
|---|---|---|
| common.dfy | `Common` | words, counts, dictionaries of counts (`TallyOf`), Python's `s[:n]` |
| feedback.dfy | `Feedback` | the verdict as a specification: green pass, then yellows from the leftover answer letters; its 2-bit packing; `format_feedback` / `intify_feedback` as functions |
| codec.dfy | `Codec` | `utils.get_feedback`, `old_get_feedback`, the memo table `_feedback_cache`, `format_feedback`, `intify_feedback`, as imperative code over a 26-slot count array |
| sorting.dfy | `Sorting` | `sorted(...)` of strings; the stable descending sort by a score; `[:n]` after the sort |
| filter.dfy | `Filters` | the `Filter` class of wordle_solver/filter.py: `update`, `filter_candidates`, `candidates` |
| retention.dfy | `Retention` | an answer is never ruled out by its own verdict |
| wordle_game.dfy | `WordleGame` | the string-form `get_feedback`, `validate_guess` and `update_filter_with_feedback` of wordle_solver/wordle.py and wordle.py |
| legacy_solver.dfy | `LegacySolver` | the `Solver` class of solver.py and `format_candidates` |
| ranker.dfy | `Ranker` | `CandidateRanker`: the count tables and `most_likely_candidates` |
| scorers.dfy | `Scorers` | the pattern histogram and memo of `EntropyScorer`, the totals of `ReductionScorer`, the hybrid dispatch, `duplicate_count` |

Conventions:

- Words are `seq<char>`. The codec requires lower-case letters, because `ord_dict` has no other keys.
- A verdict is either a `nat` with one base-4 digit per position (0 grey, 1 yellow, 2 green; position 0 in the low digit) or a string over `g`, `y`, `x`.
- State the source changes in place becomes a `class` with `modifies` clauses. Each method is proved against a specification function of its inputs and old state.
- The memo dictionaries become map fields.
- `list.sort` and `sorted` are modelled by their specification: an insertion sort that is proved sorted, a permutation and stable.
- Where the source raises (a missing dictionary key, an index past the end of a word), the model states the condition as a precondition. The "## Left out" section lists these.

## Model

| member | source | states |
|---|---|---|
| Feedback.CodeDigits | utils.py:193-208 | the code of `get_feedback(g, a)` is below 4^len(g); digit i is the mark at i and never 3; digit i is 2 exactly when `g[i] == a[i]` |
| Feedback.LetterTally | utils.py:188-208 | per letter, the number of positions marked green or yellow is min(count in guess, count in answer) |
| Feedback.MarkAt | utils.py:196-200 | position k is green exactly when guess and answer agree there |
| Feedback.YellowPresent | utils.py:203-208 | a yellow letter differs from the answer letter at its position and occurs in the answer |
| Feedback.GreyExhausts | utils.py:203-208 | a grey letter has all its answer copies already scored, and the guess holds more copies than the answer |
| Feedback.SellsSpelt | utils.py:203-208 | "sells" against "spelt" is green, yellow, grey, green, grey, and formats to "gyxgx" |
| Feedback.AriseRaise | utils.py:203-208 | "arise" against "raise" formats to "yyggg" |
| Feedback.FormatIntify | utils.py:213-244 | for a string over g/y/x, formatting its integer at its length gives the string back |
| Feedback.IntifyFormat | utils.py:213-244 | for n below 4^L with no digit 3, parsing its formatted string gives n back |
| Feedback.FormatCollapses | utils.py:221-227 | a formatted position is 'x' exactly when the digit is 0 or 3 |
| Feedback.IntifyDigit | utils.py:236-243 | every character other than 'g' and 'y' parses to digit 0 |
| Feedback.FormatCode | utils.py:175-228 | `format_feedback(get_feedback(g, a), len(g))` is the g/y/x verdict, character for character |
| Codec.CountLetters | utils.py:188-190 | the 26-slot array counts each letter of the word |
| Codec.MarkGreens | utils.py:192-200 | the first pass sets the green digits, lists the green positions and leaves the counts of the unmatched answer letters |
| Codec.MarkYellows | utils.py:202-208 | the second pass completes the code of the verdict |
| Codec.ComputeFeedback | utils.py:180-209 | the uncached computation returns the code of the verdict |
| Codec.OldMarkGreens | utils.py:149-157 | the older first pass writes the green digits, counting only the first len(guess) answer letters |
| Codec.OldMarkYellows | utils.py:159-165 | the older second pass writes the older verdict's digits |
| Codec.ComputeOldFeedback | utils.py:138-169 | the older uncached computation returns the older verdict's code |
| Codec.PackDigits | utils.py:168-169 | the final loop ORs each digit into its 2-bit slot, giving the encoding of the digit array |
| Codec.OldCodeAgrees | utils.py:123-173 | for equal lengths the older and the current procedures give the same integer |
| Codec.OldCodeDiffers | utils.py:145-147 | with a longer answer they can differ: "ab" against "cba" is 9 now and 8 in the older procedure |
| Codec.FeedbackCache.constructor | utils.py:119 | the memo table starts empty |
| Codec.FeedbackCache.GetFeedback | utils.py:175-211 | a hit returns the stored value and changes nothing; a miss stores and returns the fresh code; the result is always a value either procedure gives on that ordered pair, and the fresh code when the lengths agree |
| Codec.FeedbackCache.OldGetFeedback | utils.py:123-173 | the same memo protocol around the older procedure |
| Codec.FormatFeedback | utils.py:213-228 | the string of `MarkChar` of each digit, empty for a negative length |
| Codec.IntifyFeedback | utils.py:230-244 | the integer whose digits are those of the characters |
| Sorting.SortLex | wordle_solver/filter.py:79 | `sorted(filtered)`: ordered and a permutation of the input |
| Sorting.SortDesc | wordle_solver/candidate_ranker.py:78 | the descending sort by a key: non-increasing keys and a permutation |
| Sorting.SortDescStable | wordle_solver/candidate_ranker.py:78 | stability: for every key value, the elements with that key keep their input order |
| Sorting.TopN | wordle_solver/candidate_ranker.py:82-83 | the slice `[:n]` of the descending order: its length as Python slicing gives, sorted, drawn from the input, each element scoring at least as high as any element left out |
| Sorting.TopNStable | wordle_solver/candidate_ranker.py:78-83 | the slice keeps equal-key elements in input order |
| Common.SliceTo | wordle_solver/candidate_ranker.py:82-83 | `s[:n]`: at most n elements for n ≥ 0, all but the last -n for n < 0, always a prefix |
| Filters.Filter.constructor | wordle_solver/filter.py:5-24 | the given greens, yellows and greys, no count bounds, the given length |
| Filters.Filter.Allows | wordle_solver/filter.py:40-78 | the per-word checks accept exactly the words every constraint admits |
| Filters.FitsTestable | wordle_solver/filter.py:42-55 | a word that every recorded position indexes never makes the checks raise |
| Filters.GreyShortTestable | wordle_solver/filter.py:42-45 | a word with a grey letter is rejected before any index is taken, even when a green position lies past its end, and it is not admitted |
| Filters.Filter.YellowsAllow | wordle_solver/filter.py:47-57 | the yellow check: every yellow letter occurs, never at a recorded position |
| Filters.Filter.CountsAllow | wordle_solver/filter.py:59-76 | the count check: each tracked letter's count lies within its bounds |
| Filters.WordCounts | wordle_solver/filter.py:60-62 | `word_counts` counts each letter of the word |
| Filters.Filter.FilterCandidates | wordle_solver/filter.py:26-79 | the admitted words, sorted; a word is in the result exactly when it is in the input and satisfies every constraint |
| Filters.Filter.Candidates | wordle_solver/filter.py:81-92 | the same result as `filter_candidates` |
| Filters.KeptMembers | wordle_solver/filter.py:39-79 | a word is kept exactly when it is in the input and the constraints admit it |
| Filters.KeptLength | wordle_solver/filter.py:39-79 | the filtered list is no longer than the input |
| Filters.TallyScored | wordle_solver/filter.py:104-111 | `green_yellow_counts` counts, per letter, the positions marked 'g' or 'y' |
| Filters.Filter.Update | wordle_solver/filter.py:94-135 | the new state is `UpdateSpec` of the old state, the guess and the verdict; the length is unchanged |
| Filters.Filter.ApplyMarks | wordle_solver/filter.py:113-130 | the second loop applies each position's mark in turn |
| Filters.Filter.ApplyMark | wordle_solver/filter.py:114-130 | one position: the new state is `Step` of the old one for that position's letter and mark |
| Filters.Filter.RaiseMinCounts | wordle_solver/filter.py:132-135 | the third loop raises each lower bound to the guess's g/y tally |
| Filters.UpdateGreen | wordle_solver/filter.py:114-120 | a 'g' at k records the letter at k and removes k from that letter's forbidden positions |
| Filters.UpdateNoEmptyYellows | wordle_solver/filter.py:116-120 | no yellow letter is left with an empty position set |
| Filters.UpdateGreensFrame | wordle_solver/filter.py:113-120 | greens only grow; other positions keep their letter; no unmarked position becomes green |
| Filters.UpdateYellow | wordle_solver/filter.py:121-124 | a 'y' at k forbids that letter at k |
| Filters.UpdateGrey | wordle_solver/filter.py:125-130 | an 'x' caps the letter at this guess's g/y tally when it scored elsewhere, and greys it otherwise |
| Filters.UpdateMins | wordle_solver/filter.py:132-135 | each lower bound becomes max(old, this guess's g/y tally); lower-bound keys and greys only grow |
| Filters.UpdateWithin | wordle_solver/filter.py:113-124 | a filter that records no position past the guess still does not after `update`, so every word at least as long as the guess can be checked |
| Retention.TallyIsScored | wordle_solver/filter.py:108-111 | for the true verdict, the g/y tally of a letter is min(count in guess, count in answer) |
| Retention.StepRetains | wordle_solver/filter.py:113-130 | one position of the true verdict keeps the answer admitted |
| Retention.UpdateRetainsAnswer | wordle_solver/filter.py:94-135 | after `update` with the true verdict of the guess against the answer, the answer is still admitted |
| WordleGame.MarkGreenChars | wordle_solver/wordle.py:14-18 | the green pass marks matches and empties their answer slots, leaving exactly the unmatched answer letters |
| WordleGame.MarkYellowChars | wordle_solver/wordle.py:20-24 | the yellow pass completes the verdict, taking the first slot that holds the letter |
| WordleGame.IndexOf | wordle_solver/wordle.py:24 | `list.index`: the first slot holding the letter |
| WordleGame.GetFeedback | wordle_solver/wordle.py:6-26 | the string-form verdict equals the verdict `Feedback` specifies, so it agrees with the integer form and with the copy in wordle.py:5-25 |
| WordleGame.ValidateGuess | wordle_solver/wordle.py:28-38 | true exactly when the guess is alphabetic, has the required length and is in the word list (wordle.py:27-37 is the same check) |
| WordleGame.UpdateFilterWithFeedback | wordle_solver/wordle.py:40-58 | the new filter state is `LegacyUpdate` of the old one |
| WordleGame.LegacyPassAgrees | wordle_solver/wordle.py:42-55 | the 'g' and 'y' branches change greens and yellows exactly as `Filter.update` does; the count bounds stay untouched |
| WordleGame.LegacyUpdateEffect | wordle_solver/wordle.py:40-58 | every letter marked 'x' becomes grey, even one scored g or y elsewhere in the guess; greens and yellows end as after `Filter.update` |
| WordleGame.LegacyUpdateLosesAnswer | wordle_solver/wordle.py:56-58 | "sells" against "spelt" is "gyxgx"; after the older update "spelt" is no longer admitted, while `Filter.update` keeps it |
| LegacySolver.FilterByGreys | solver.py:47 | an order-preserving subsequence; a word is in it exactly when it has no grey letter, with its multiplicity kept |
| LegacySolver.IsLegalByGreens | solver.py:58-62 | true exactly when every green letter occurs and every occurrence of a green letter is at its recorded index |
| LegacySolver.FilterByGreens | solver.py:73 | the order-preserving subsequence of words legal by greens |
| LegacySolver.IsLegalByYellows | solver.py:85-89 | true exactly when every yellow letter occurs and no occurrence sits at its recorded index |
| LegacySolver.FilterByYellows | solver.py:101 | the order-preserving subsequence of words legal by yellows |
| LegacySolver.Candidates | solver.py:115-119 | the order-preserving subsequence of the words passing all three checks, multiplicities kept |
| LegacySolver.FrequencyIsAlphabet | solver.py:135 | the frequency string holds exactly the 26 lower-case letters |
| LegacySolver.LetterValue | solver.py:136 | 26 − the letter's index in the frequency string lies in 1..26, and the frequency string holds the letter at index 26 − value |
| LegacySolver.LetterSum | solver.py:136 | the letter sum lies between len(w) and 26·len(w) |
| LegacySolver.Usefulness | solver.py:134-141 | defined exactly for lower-case words, where `str.index` cannot raise; with d distinct letters (d ≤ len(w)), the score lies between len(w) + d² and 26·len(w) + d² |
| LegacySolver.MostLikelyCandidates | solver.py:159 | defined exactly when every candidate can be scored; then the first n of the stable descending sort by usefulness |
| LegacySolver.MostLikelyRanked | solver.py:159 | the result has length min(n, len), non-increasing scores, elements drawn from the candidates, each beating any left out, and ties in input order |
| LegacySolver.Solver.constructor | solver.py:22-36 | the given greens, yellows, greys and length |
| LegacySolver.Solver.Update | solver.py:161-180 | the new state is `SolverPass` of the old state over the whole guess |
| LegacySolver.PassGreenKeys | solver.py:172-173 | a letter is green afterwards exactly when it was before or some position marked it 'g' |
| LegacySolver.PassGreenLast | solver.py:172-173 | a green letter's index is that of its last 'g' |
| LegacySolver.PassGreenFrame | solver.py:171-173 | a letter with no new 'g' keeps its old index |
| LegacySolver.PassGreenClearsYellow | solver.py:174-175 | a 'g' deletes the letter from yellows unless a later 'y' re-adds it |
| LegacySolver.PassYellowKeys | solver.py:176-177 | a yellow letter afterwards was yellow before or marked 'y' |
| LegacySolver.PassYellowLast | solver.py:176-177 | 'y' overwrites: the recorded index is that of the last 'y' when no later g/y follows |
| LegacySolver.PassGreys | solver.py:178-180 | greys only grow at the end, gain exactly the letters marked 'x', and stay free of duplicates |
| LegacySolver.Numeral | solver.py:269 | `str(n)`: decimal digits, non-empty, no leading zero unless n is 0 |
| LegacySolver.NumeralRoundTrip | solver.py:269 | reading the decimal string back gives n |
| LegacySolver.FormatCandidates | solver.py:268-269 | one entry per candidate |
| LegacySolver.FormatCandidatesEntry | solver.py:268-269 | entry i is the word, " (", the decimal digits of i+1, and ")" |
| Ranker.CountWord | wordle_solver/candidate_ranker.py:38-40 | the inner loop adds one count per letter of the word and one to the total per letter |
| Ranker.CountLetters | wordle_solver/candidate_ranker.py:34-40 | `letter_counts` tallies every letter of every candidate; `total_letters` is the sum of the word lengths; `length` is the last word's length |
| Ranker.CountPresence | wordle_solver/candidate_ranker.py:42-46 | `letter_presence` tallies each letter once per word that holds it |
| Ranker.CountColumns | wordle_solver/candidate_ranker.py:52-53 | each position's dictionary gains the word's letter at that position |
| Ranker.CountPositions | wordle_solver/candidate_ranker.py:48-53 | one dictionary per position of `length`, each tallying that position's letters over the words of that length |
| Ranker.CandidateRanker.constructor | wordle_solver/solver.py:10-31 | the scorer is the given one, or the default when none is given; the tables describe the candidates |
| Ranker.CandidateRanker.CalculateCaches | wordle_solver/candidate_ranker.py:29-59 | the five tables describe the current candidates |
| Ranker.CacheTotals | wordle_solver/candidate_ranker.py:34-59 | `_total_candidates` is the number of candidates; `_total_letters` is the sum of the word lengths and the sum of `_letter_counts` |
| Ranker.CachePresence | wordle_solver/candidate_ranker.py:42-46 | presence and counts have the same keys; presence is the number of words holding the letter, at most its count and at most the number of candidates |
| Ranker.CachePositions | wordle_solver/candidate_ranker.py:48-53 | one table per position of the last candidate's length, each summing to the number of candidates of that length |
| Ranker.CandidateRanker.MostLikelyCandidates | wordle_solver/candidate_ranker.py:61-83 | the tables are recomputed first and describe the candidates; the result ranks the candidates by the scorer under those tables |
| Ranker.RankedOrder | wordle_solver/candidate_ranker.py:77-83 | non-increasing scores; for -1 a permutation with ties in input order; for n ≥ 0 the first min(n, len) of that order, ties in input order, each beating any left out |
| Scorers.DuplicateCount | wordle_solver/candidate_scorers.py:63 | `duplicate_count` is non-negative and 0 exactly when all letters differ |
| Scorers.ComparableEmpty | wordle_solver/candidate_scorers.py:100-103 | with no candidates the scorers' precondition holds even for a guess that is not lower-case, since no feedback is computed |
| Scorers.PatternCounts | wordle_solver/candidate_scorers.py:171-175 | `patterns` counts each distinct verdict code over the answers |
| Scorers.PatternHistogram | wordle_solver/candidate_scorers.py:171-175 | every pattern count is at least 1; the counts sum to the number of answers; there are no more patterns than answers; each pattern is some answer's code |
| Scorers.StoreEntropy | wordle_solver/candidate_scorers.py:180 | `setdefault(guess, {})["ENTROPY"] = e` stores e for the guess and leaves every other entry and every other key as it was |
| Scorers.FeedbackMap.constructor | wordle_solver/candidate_scorers.py:166 | the table holds the given entries |
| Scorers.FeedbackMap.Entropy | wordle_solver/candidate_scorers.py:140-184 | a stored entropy is returned unchanged, whatever the candidates now are, with nothing recomputed; on a miss the histogram is built, turned into the entropy, and stored under the guess alone |
| Scorers.RemainingFor | wordle_solver/candidate_scorers.py:106-110 | one answer's remaining-set size: how many candidates a fresh filter keeps after the verdict |
| Scorers.ReductionTally | wordle_solver/candidate_scorers.py:105-114 | `total_remaining` is the sum over answers of the remaining-set sizes; `letter_map` tallies every letter of every candidate |
| Scorers.LetterMapTotal | wordle_solver/candidate_scorers.py:112-114 | before normalisation, `letter_map` sums to the total letter count and holds exactly the letters some candidate uses |
| Scorers.RemainingAtMost | wordle_solver/candidate_scorers.py:105-110 | `total_remaining` is at most (number of answers) × (number of candidates) |
| Scorers.AnswerRemains | wordle_solver/candidate_scorers.py:106-110 | each answer survives the filter built from its own verdict |
| Scorers.RemainingBounds | wordle_solver/candidate_scorers.py:105-110 | when the candidates have the guess's length, `total_remaining` lies between n and n² |
| Scorers.AverageBounds | wordle_solver/candidate_scorers.py:126 | then the average remaining-set size lies between 1 and n |
| Scorers.Normalise | wordle_solver/candidate_scorers.py:117-119 | each tally is divided by the number of candidates |
| Scorers.OnesIn | wordle_solver/candidate_scorers.py:124 | the number of letters with frequency exactly 1 is at most the word's length |
| Scorers.LetterScore | wordle_solver/candidate_scorers.py:121-124 | minus the squared frequencies of the letters, plus len(candidate) times the squared count of frequency-1 letters, since that reward sits inside the loop |
| Scorers.ReductionScore | wordle_solver/candidate_scorers.py:90-128 | 0.0 with no candidates, with the memo untouched; otherwise −100 × the average remaining-set size plus the letter part |
| Scorers.HybridScore | wordle_solver/candidate_scorers.py:210-214 | below the threshold, 1500 × the reduction score; from the threshold on, the default score, with the memo untouched (threshold 250 here, 100 in `StrictHybridScorer`) |
| Scorers.HybridStrictAgree | wordle_solver/candidate_scorers.py:210-230 | the two dispatches agree for every pair of scores exactly when n < 100 or n ≥ 250; in between, the hybrid uses the reduction score and the strict one the default score |

## Left out

- I/O and storage are not modelled:
  - module-level argument parsing and word-file loading;
  - the SQLite `entropy` table and its commit;
  - the JSON write of `feedback_map.json`;
  - printing and interactive loops.

  `WORDS` is a parameter of `ValidateGuess`, and `validate_guess`'s messages are left out.
- Concurrency is not modelled: `_feedback_cache` and `FEEDBACK_MAP` are single-threaded map fields.
- Floating point is modelled by exact `real` arithmetic where it is modelled (`ReductionScorer`'s final formula, ranking keys); rounding is not captured.
- `DefaultScorer.score` is left out: its weights, positional bonus and `** 1.5` are not algebraic. It appears only as the uninterpreted `defaultScore` / `default` values, and only `duplicate_count` is modelled.
- The `log2` entropy sum is left out. `Scorers.FeedbackMap.Entropy` takes it as the parameter `fromCounts`, applied to the pattern histogram and `_total_candidates`.
- Names the source uses but never defines:
  - `FEEDBACK_MAP` is modelled as `Scorers.FeedbackMap`;
  - `Filter.strict_candidates` is modelled as `filter_candidates`;
  - `OptimisedEntropyScorer`, `FastEntropyScorer` and the `config` module are not modelled.
- `ReductionScorer` passes `get_feedback`'s integer into `Filter.update`, which expects a string. The model converts it with `format_feedback`.
- `Ranker.CandidateRanker` treats its scorer as a pure function of the count tables and the candidate. The memoised scorers are separate methods (`Scorers.FeedbackMap.Entropy`, `Scorers.ReductionScore`, `Scorers.HybridScore`) and are not plugged into the ranker. The Python scorer object reads the ranker's fields through `__getattr__`; the model passes the ranker or its tables explicitly.
- Precondition: the codec requires lower-case words and `len(guess) <= len(answer)`. Otherwise `ord_dict[c]` or `answer[i]` raises.
- Precondition: `Filters.Filter.FilterCandidates` (and `Candidates`, `Allows`) demand `Testable` of every word. A word with a grey letter always qualifies. Otherwise every green position must index the word, and when the greens agree, so must the forbidden positions of each yellow letter the word holds. Python raises only when the checks actually reach an index past the word's end, which can depend on the order dictionaries and sets are visited in. So Python may return normally for some words the model excludes, for example when a mismatching green is visited before an out-of-range one.
- Precondition: `Filter.update` and the update methods require the verdict to be at least as long as the guess. Otherwise `feedback[i]` raises.
- Precondition: when there is at least one candidate, the scorer methods require a lower-case guess and every candidate lower-case and at least as long as the guess. With no candidates nothing is demanded, since no feedback is computed. `Scorers.FeedbackMap.Entropy` requires this only when no entropy is stored for the guess, because a stored value is returned before any feedback is computed.
- Filter positions are `nat`. Python's negative indices into a word are not modelled.
- `Filter` and `Solver` copy the dictionaries passed to their constructors. In Python, a non-empty dictionary passed in is shared with the caller and mutated by `update` (aliasing); an empty one is replaced by a fresh `{}`.
- The `guess_counts` dictionary in `Filter.update` is computed but never read, so it is left out.
- `str.isalpha` is modelled for ASCII letters only.
- `update_solver_with_feedback` in wordle.py is left out. It keys greens by position and stores sets in yellows, which contradicts `Solver`'s letter→index maps, so no coherent contract exists.
- `update_filter_from_input` in solver.py is left out: it is interactive input.
- Simulation harnesses, benchmark and reflection scripts are left out.
- `Ranker.CandidateRanker.constructor`: in wordle_solver/candidate_ranker.py the scorer is mandatory; the model takes `Some(scorer)` for that case. Python's `scorer or DefaultScorer` also replaces any falsy scorer, not only `None`.
- `LegacySolver.MostLikelyCandidates`: a candidate that `score_candidate_by_usefulness` cannot score makes the Python sort raise. The model returns `None`.

## Findings

| source | as written | input that shows it | evidently intended | confidence | as-written member | corrected member |
|---|---|---|---|---|---|---|
| wordle_solver/wordle.py:56-58 | every letter marked 'x' is added to greys, even when the same guess scored that letter 'g' or 'y' elsewhere | guess "sells" against answer "spelt": the verdict is "gyxgx"; the third letter 'l' is marked 'x' and greyed, so "spelt", which contains 'l', is ruled out | as in `Filter.update` (wordle_solver/filter.py:125-130): a letter scored elsewhere in the guess gets an upper count bound instead of becoming grey, and the answer always survives its own verdict | not executed | WordleGame.LegacyUpdateLosesAnswer | Retention.UpdateRetainsAnswer |
