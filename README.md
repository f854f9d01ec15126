# compbio_grader reference solutions, modelled in Dafny

The Python autograder `compbio_grader` checks student answers for a bioinformatics course. For
each exercise it has a reference solution that computes the expected answer, and a checker. The
checker runs a student callable, or normalises a submitted value, against a hidden-test table,
then returns `(passed, letters)`. The letters are drawn from a shuffled acronym that is fixed per
session.

This project models those reference solutions, the answer normalisers and the pass/fail
decisions, and proves their properties. The same reference functions are copied several times
across `compbio_grader/checks2.py` and the `exercise_blocks/*.py` fragments. Each is modelled
once and every copy maps onto that one model:

| module | file | models |
|---|---|---|
| `Wrappers` | wrappers.dfy | `Option`; `None` stands for a raised exception |
| `Sorting` | sorting.dfy | Python's `sorted(set(...))` and `max(...)`, as a sorted enumeration of a set |
| `Text` | text.dfy | ASCII `str.upper`, `str.split()` / `" ".join`, and `int()` on a sign plus ASCII digits |
| `Dna` | dna.dfy | `_ref_hamming`, `_ref_rc`, `_ref_reverse_complement` |
| `Neighborhood` | neighbors.dfy | `_ref_neighbors`: the set-returning copies (checks2.py:224, :292, :375 and the frequent-words and ori blocks) and the sorted-list copy (checks2.py:162, exercise_blocks/check_neighbors.py) |
| `FrequentWords` | frequent_words.dfy | `_ref_frequent_words_approx`, `_ref_frequent_words_with_rc` and `_ref_frequent_with_rc`; the last two have identical code |
| `Scans` | scans.dfy | `_ref_skew_values`, `_ref_pattern_count`, `_ref_pattern_matching` |
| `Answers` | answers.dfy | `_as_int_list`, `_as_str_set`, `_ex7_normalize_positions` |
| `Grading` | grading.dfy | `letter_for_exercise` and the decisions of `check_skew`, `check_neighbors`, `check_patterncount`, `check_patternmatching`, `check_reversecomplement`, `check_genome_scan` and `check_ecoli_ori` |

The code is modelled in its own form:
- The loops of the references are methods with loop invariants: `SkewValues`, `ComputeNeighbors`, `SortedNeighbors`, `AddExtensions`, `Tally`, `AddVotes` and `Scores`.
  - Each is proved against a specification function: `SkewSpec`, `Neighbors`, or `Votes`/`Count`.
  - The properties the exercises rely on are proved about those functions as lemmas.
- The methods `FrequentWordsApprox`, `FrequentWordsWithRc` and `CheckEcoliOri` have no loop of their own. They call the loop methods and `SortSet`, and are proved against `IsMostFrequent` and `IsRcWinner`.
- The count table `counts` is a `map<string, nat>` that `Tally` rebuilds window by window. Its invariant `IsTally` says that `counts[p]` is the number of windows processed so far whose d-neighbourhood contains `p`.
- Comprehension-only code is modelled as functions: `_ref_hamming`, `_ref_rc`, the pattern scans and the normalisers.

The headline result is `Neighborhood.NeighborsExact`. For a DNA pattern of length at least 1 and
any d >= 0, the suffix recursion with the unchanged budget d generates exactly the DNA strings of
the pattern's length within Hamming distance d. `FrequentWords.VotesAreApproxCounts` builds on it.
For a DNA text with k >= 1 and d >= 0, and a DNA string p of length k, the vote p receives equals
the textbook count Count_d(Text, p). A negative d breaks this: with d = -1 the window `"AA"` votes
for `"AC"`, whose textbook count is 0 (`FrequentWords.NegativeBudgetVotes`). The restriction to length k matters: a string of any other length gets no vote.
Its textbook count can still be positive, because `_ref_hamming` compares only the common prefix.
For example, p = "A", k = 3 and text "AAA" give no vote but a count of 1
(`FrequentWords.ShorterStringCountDiffers`).

Where the docstrings or the textbook definitions differ from the code, the model follows the code:
- The plain `_ref_frequent_words_approx` has no guard on k or d.
  - A negative d is accepted. `Neighbors` is defined for it, and the result then holds only the pattern's own first letters plus the four letters at the end.
  - k = 0 with d != 0 recurses forever. This is the method's precondition `k >= 1 || d == 0`.
- Non-ACGT characters are not rejected:
  - `_ref_rc` and `_ref_reverse_complement` pass them through unchanged.
  - `neighbors(P, 0)` is `{P}` for any `P`.
- `_ref_frequent_with_rc` is documented as returning "all k-mers maximizing Count_d(p) + Count_d(rc(p))". The code maximises only over the keys of the count table.
  - `IsRcWinner` models the code.
  - `FrequentWords.RcWinnersMaximiseApproxScore` proves the docstring's property restricted to the keys.
  - `FrequentWords.RcKeysOnlySample` exhibits the difference on `("AAAA", 2, 0)`: `TT` scores as much as `AA` but is not returned.

## Model

| member | source | states |
|---|---|---|
| `Dna.Hamming` | compbio_grader/checks2.py:159-160 | the distance never exceeds either length (zip stops at the shorter string) |
| `Dna.HammingZero` | compbio_grader/checks2.py:159-160 | distance 0 exactly when the strings agree on their common prefix |
| `Dna.HammingSymmetric` | compbio_grader/checks2.py:159-160 | the distance does not depend on argument order |
| `Dna.Rc` | compbio_grader/checks2.py:390-391 | same length; position i holds the complement of the mirrored character, other characters fixed |
| `Dna.RcInvolution` | compbio_grader/exercise_blocks/check_frequentwords_approx_with_rc.py:24-26 | `rc(rc(s)) == s` for every string |
| `Dna.RcIsDna` | compbio_grader/checks2.py:307-309 | the reverse complement of a DNA string is DNA |
| `Dna.StrictComplementAgrees` | compbio_grader/exercise_blocks/check_reversecomplement.py:6-11 | the strict `comp[b]` branch raises exactly on a non-ACGT character, and when it succeeds it equals the `comp.get(b, b)` fallback |
| `Dna.ReverseComplement` | compbio_grader/exercise_blocks/check_reversecomplement.py:4-12 | same length; out[i] is the complement of the upper-cased mirrored character |
| `Dna.ReverseComplementIsRc` | compbio_grader/exercise_blocks/check_reversecomplement.py:4-12 | the exercise reference equals `_ref_rc` of the upper-cased input |
| `Dna.RcKeepsUpper` | compbio_grader/checks2.py:390-391 | reverse-complementing keeps a string free of lower-case letters |
| `Dna.ReverseComplementTwice` | compbio_grader/exercise_blocks/check_reversecomplement.py:4-12 | applying the reference twice gives the upper-cased input |
| `Dna.ReverseComplementClassic` | compbio_grader/exercise_blocks/check_reversecomplement.py:16 | `"AAAACCCGGT"` gives `"ACCGGGTTTT"` |
| `Dna.ReverseComplementLowerCase` | compbio_grader/exercise_blocks/check_reversecomplement.py:20 | `"acgtacgt"` gives `"ACGTACGT"` |
| `Dna.ReverseComplementInvalidBases` | compbio_grader/exercise_blocks/check_reversecomplement.py:21-22 | `"NNNN"` passes through unchanged; `""` gives `""` |
| `Neighborhood.ExtendMember` | compbio_grader/checks2.py:382-387 | one recursion level adds exactly: any base before a suffix neighbour with slack, `pattern[0]` before one without |
| `Neighborhood.Neighbors` | compbio_grader/checks2.py:375-388 | the generator never returns an empty set, for any budget; this is proved through the recursive call's own contract |
| `Neighborhood.NeighborsLength` | compbio_grader/checks2.py:375-388 | every neighbour has the pattern's length, for any budget |
| `Neighborhood.NeighborsSound` | compbio_grader/checks2.py:375-388 | every neighbour is within distance d, and is DNA when the pattern is |
| `Neighborhood.NeighborsComplete` | compbio_grader/checks2.py:375-388 | every DNA string of the pattern's length within distance d is generated |
| `Neighborhood.NeighborsExact` | compbio_grader/checks2.py:375-388 | for DNA patterns and d >= 0: a string is generated if and only if it is DNA, of the pattern's length and within distance d |
| `Neighborhood.NeighborsContainPattern` | compbio_grader/checks2.py:375-388 | a DNA pattern is its own neighbour |
| `Neighborhood.NeighborsMonotone` | compbio_grader/checks2.py:375-388 | for a non-empty DNA pattern and d >= 0, a larger budget never loses a neighbour |
| `Neighborhood.MonotoneNeedsDna` | compbio_grader/checks2.py:377-380 | without the DNA restriction monotonicity fails: `"N"` is its own neighbour at budget 0 but not at budget 1 |
| `Neighborhood.NeighborsFullBudget` | compbio_grader/checks2.py:375-388 | with d at least the length, every DNA string of that length is generated |
| `Neighborhood.NeighborsEqualSet` | compbio_grader/checks2.py:197-202 | a set with exactly the characterised members equals the neighbourhood, so the checker's set comparison tests the characterisation |
| `Neighborhood.NeighborsAllTwoLetter` | compbio_grader/exercise_blocks/check_neighbors.py:29 | `("AT", 2)` yields all sixteen two-letter strings |
| `Neighborhood.NeighborsSample` | compbio_grader/exercise_blocks/check_neighbors.py:25 | `("ACG", 1)` yields exactly the ten strings ACG, CCG, GCG, TCG, AAG, ACA, ACC, ACT, AGG, ATG |
| `Neighborhood.AddExtensions` | compbio_grader/checks2.py:383-387 | the inner loop adds exactly one recursion level's extensions of one suffix neighbour |
| `Neighborhood.ComputeNeighbors` | compbio_grader/checks2.py:375-388 | the set-returning generator computes `Neighbors(pattern, d)` |
| `Neighborhood.SortedNeighbors` | compbio_grader/exercise_blocks/check_neighbors.py:8-22 | the list variant is strictly sorted and holds exactly the neighbourhood; d = 0 gives `[pattern]`, a one-letter pattern gives `["A", "C", "G", "T"]` |
| `FrequentWords.Votes` | compbio_grader/checks2.py:241-244 | the value the count table holds for a string after the first n windows; it is at most n |
| `FrequentWords.Count` | compbio_grader/checks2.py:240-244 | the final count of a string, 0 when it is not a key; it never exceeds the number of windows |
| `FrequentWords.VotesAreApproxCounts` | compbio_grader/exercise_blocks/check_frequentwordsapproximate.py:25-29 | for a DNA text, k >= 1 and d >= 0, the votes for a DNA string of length k are the number of windows within Hamming distance d of it |
| `FrequentWords.ShorterStringCountDiffers` | compbio_grader/checks2.py:159-160 | on `"AAA"` with k = 3 and d = 0, the string `"A"` gets no vote but has textbook count 1, because zip compares only the common prefix |
| `FrequentWords.NegativeBudgetVotes` | compbio_grader/checks2.py:239-244 | with d = -1 on `"AA"` and k = 2, `"AC"` gets one vote but has textbook count 0, so the vote/count correspondence needs d >= 0 |
| `FrequentWords.VotesNeedLengthK` | compbio_grader/checks2.py:240-244 | only strings of length k receive votes |
| `FrequentWords.SomeVote` | compbio_grader/checks2.py:241-246 | when there is a window, some string has a positive count |
| `FrequentWords.AddVotes` | compbio_grader/checks2.py:243-244 | one window's votes add exactly the voters as keys and raise exactly their counts by one |
| `FrequentWords.Tally` | compbio_grader/checks2.py:240-244 | the count table holds, for every string, exactly its number of votes, and has as keys exactly the strings with a vote |
| `FrequentWords.TallyEmpty` | compbio_grader/checks2.py:245-246 | the table is empty exactly when the text is shorter than k |
| `FrequentWords.TopKeys` | compbio_grader/checks2.py:248 | the strings selected by the comprehension are keys of the table, and some are selected whenever the value sought occurs |
| `FrequentWords.MaxKeysAreMostFrequent` | compbio_grader/checks2.py:247-248 | the keys holding the maximum count are exactly the most frequent strings |
| `FrequentWords.MostFrequentHaveLengthK` | compbio_grader/exercise_blocks/check_frequentwordsapproximate.py:32-33 | every winner has length k |
| `FrequentWords.FrequentWordsApprox` | compbio_grader/checks2.py:239-248 | the result is strictly sorted, holds exactly the strings with the maximal vote, and is empty exactly when the text is shorter than k |
| `FrequentWords.Scores` | compbio_grader/checks2.py:407-409 | every key's score is its count plus its reverse complement's count, 0 when that is absent |
| `FrequentWords.MaxScoresAreRcWinners` | compbio_grader/checks2.py:410-411 | the keys holding the maximal score are exactly the reverse-complement winners |
| `FrequentWords.FrequentWordsWithRc` | compbio_grader/checks2.py:393-411 | strictly sorted; empty exactly under the guard k <= 0, d < 0 or n < k; otherwise exactly the keys of maximal score |
| `FrequentWords.RcWinnerSymmetric` | compbio_grader/exercise_blocks/check_frequentwords_approx_with_rc.py:39-43 | if a winner's reverse complement is a key, it is a winner too |
| `FrequentWords.RcWinnersMaximiseApproxScore` | compbio_grader/checks2.py:393-411 | on a DNA text with k >= 1 and d >= 0, the winners are exactly the strings with a vote that maximise Count_d(p) + Count_d(rc(p)) among the strings with a vote; this is the docstring's promise, restricted to the count table's keys |
| `FrequentWords.ScoreIsApprox` | compbio_grader/checks2.py:407-409 | on DNA, a key's score `c + counts.get(rc(p), 0)` equals the textbook Count_d(p) + Count_d(rc(p)) |
| `FrequentWords.VoterIsDna` | compbio_grader/checks2.py:400-404 | on a DNA text every string with a vote is a DNA string of length k |
| `FrequentWords.RcPalindromeScore` | compbio_grader/checks2.py:407-409 | a string that is its own reverse complement scores twice its count |
| `FrequentWords.RcPartnerScoresEqual` | compbio_grader/exercise_blocks/check_ecoli_ori.py:35-36 | a string and its reverse complement have the same score |
| `FrequentWords.UniformWinners` | compbio_grader/checks2.py:239-248 | on a text whose windows are all `w`, the winners are exactly the neighbourhood of `w` |
| `FrequentWords.FrequentWordsOnAllAs` | compbio_grader/exercise_blocks/check_frequentwordsapproximate.py:40-42 | `("AAAAAAAAAA", 3, 0)` gives `["AAA"]`, and with d = 1 the winners are the 1-neighbourhood of `"AAA"` |
| `FrequentWords.RcPalindromeSample` | compbio_grader/exercise_blocks/check_frequentwords_approx_with_rc.py:47 | `("ATATAT", 2, 0)` gives `["AT"]`: AT scores 3 + 3 and beats TA's 2 + 2 |
| `FrequentWords.RcKeysOnlySample` | compbio_grader/exercise_blocks/check_ecoli_ori.py:48-52 | `("AAAA", 2, 0)` gives `["AA"]`; `TT` has no vote although its score equals AA's |
| `Scans.SkewSpec` | compbio_grader/checks2.py:30-40 | length len(genome) + 1, first value 0, each step +1 on 'G', -1 on 'C' and 0 otherwise |
| `Scans.SkewValues` | compbio_grader/exercise_blocks/check_skew.py:29-39 | the loop computes `SkewSpec(genome)` |
| `Scans.SkewClosedForm` | compbio_grader/exercise_blocks/check_skew.py:29-39 | the value after a prefix is its number of G minus its number of C |
| `Scans.ExerciseSkew` | compbio_grader/checks2.py:42 | the expected list for `"GAGCCACCGCGATA"` is 0 1 1 2 1 0 0 -1 -2 -1 -2 -1 -1 -1 -1 |
| `Scans.WindowCount` | compbio_grader/checks.py:21 | no window exactly when the text is shorter than k; otherwise the last window ends at the text's end. The frequent-words loop at compbio_grader/checks2.py:241 shares it |
| `Scans.PatternMatching` | compbio_grader/exercise_blocks/check_patternmatching.py:4-7 | an index is returned if and only if the pattern occurs there; the list is strictly increasing |
| `Scans.IncreasingUnique` | compbio_grader/exercise_blocks/check_patternmatching.py:31 | a strictly increasing list is determined by its members |
| `Scans.PatternCount` | compbio_grader/checks.py:19-21 | the count never exceeds the number of windows, and is 0 when the pattern is longer than the text |
| `Scans.PatternCountIsMatches` | compbio_grader/checks.py:19-21 | the count is the number of (overlapping) occurrences |
| `Scans.EmptyPatternCount` | compbio_grader/checks.py:19-21 | an empty pattern is counted len(dna) + 1 times |
| `Scans.OccurrencesAre` | compbio_grader/exercise_blocks/check_patternmatching.py:4-7 | when the occurrences are exactly the members of a strictly increasing list, the matching reference returns that list and the counting reference its length |
| `Scans.PatternMatchingSamples` | compbio_grader/exercise_blocks/check_patternmatching.py:10-21 | the reference gives each of the ten hidden expectations |
| `Scans.PatternCountSamples` | compbio_grader/checks.py:23-28 | the reference gives each of the four hidden counts |
| `Text.Split` | compbio_grader/checks2.py:53 | every token is a non-empty run of non-space characters; no tokens exactly when the text is blank |
| `Text.SplitJoinSpace` | compbio_grader/checks2.py:53 | splitting a single-space join of words gives the words back |
| `Text.ParseFormat` | compbio_grader/checks2.py:54 | `int()` reads back the decimal form of every integer |
| `Text.ParseInt` | compbio_grader/checks2.py:54 | `int()` accepts only a non-empty token whose characters after the first are digits; the value is negative only after a leading '-', and never positive after one |
| `Text.Upper` | compbio_grader/checks2.py:422 | same length; each character is upper-cased in place, ASCII a-z mapped to A-Z and all other characters kept |
| `Text.UpperIsUpper` | compbio_grader/checks2.py:422 | `upper()` leaves no lower-case letter and is idempotent |
| `Answers.AsIntList` | compbio_grader/checks2.py:45-55 | a list is kept; a blank string gives []; a parsed string gives one value per token |
| `Answers.AsIntListRoundTrip` | compbio_grader/exercise_blocks/check_skew.py:44-54 | a list written out with spaces parses back to itself |
| `Answers.AsStrSet` | compbio_grader/checks2.py:413-422 | every member is free of lower-case letters, and every submitted token is kept, upper-cased |
| `Answers.AsStrSetList` | compbio_grader/checks2.py:420-422 | a list answer gives exactly the set of its upper-cased items |
| `Answers.AsStrSetUpperList` | compbio_grader/checks2.py:420-422 | an upper-case list answer gives exactly the set of its items |
| `Answers.AsStrSetTextAsList` | compbio_grader/checks2.py:418-422 | words written out with single spaces give the same set as the list of those words |
| `Answers.AsStrSetTextHasNoEmpty` | compbio_grader/exercise_blocks/check_ecoli_ori.py:59-60 | a text answer never contributes an empty token |
| `Answers.AsStrSetIgnoresOrder` | compbio_grader/exercise_blocks/check_ecoli_ori.py:61-63 | lists with the same members, in any order and with repeats, give the same set |
| `Answers.AsStrSetIdempotent` | compbio_grader/exercise_blocks/check_ecoli_ori.py:54-63 | normalising a normalised answer changes nothing |
| `Answers.NormalizePositions` | compbio_grader/exercise_blocks/check_genome_scan.py:22-35 | strictly increasing; a list keeps exactly its members; a blank string gives []; anything else raises |
| `Answers.NormalizeTextAsList` | compbio_grader/exercise_blocks/check_genome_scan.py:29-34 | a string normalises like the list of its integers |
| `Answers.NormalizeIdempotent` | compbio_grader/exercise_blocks/check_genome_scan.py:34 | normalising twice is normalising once |
| `Answers.NormalizeSameElements` | compbio_grader/exercise_blocks/check_genome_scan.py:34 | two lists normalise alike if and only if they hold the same integers |
| `Grading.LetterForExercise` | compbio_grader/checks2.py:23-25 | the letter comes from the acronym, and is the index-th letter when the index is in range |
| `Grading.LetterPeriodic` | compbio_grader/checks.py:52-54 | the letter assignment repeats with the acronym's length |
| `Grading.Success` | compbio_grader/checks2.py:81 | a pass carries one letter exactly when a letter is awarded, and it is `letter_for_exercise(index)` |
| `Grading.CheckSkew` | compbio_grader/checks2.py:58-81 | passes exactly when the parsed answer equals the reference list; a pass awards letter 0, a fail gives `(False, "")` |
| `Grading.CheckSkewAcceptsExpected` | compbio_grader/exercise_blocks/check_skew.py:57-80 | the expected list written with spaces passes; a list of the wrong length fails |
| `Grading.CheckNeighbors` | compbio_grader/checks2.py:189-214 | a pass awards letter 5; a fail gives `(False, "")` |
| `Grading.CheckNeighborsMeaning` | compbio_grader/exercise_blocks/check_neighbors.py:35-60 | passes exactly when every hidden test returns precisely the DNA strings of the pattern's length within distance d |
| `Grading.CheckPatternCount` | compbio_grader/checks.py:30-46 | a pass always awards `_SHUFFLED[0]`; a fail gives `(False, "")` |
| `Grading.CheckPatternCountMeaning` | compbio_grader/checks.py:23-46 | passes exactly when the submission agrees with `_ref_pattern_count` on every hidden test |
| `Grading.ReferencePassesPatternCount` | compbio_grader/checks.py:19-46 | the reference counter passes its own hidden tests |
| `Grading.CheckPatternMatching` | compbio_grader/exercise_blocks/check_patternmatching.py:23-42 | a pass awards `_SHUFFLED[5]` when it exists, else no letter; a fail gives `(False, "")` |
| `Grading.CheckPatternMatchingMeaning` | compbio_grader/exercise_blocks/check_patternmatching.py:10-42 | passes exactly when the submission returns the reference's list, order included, on every hidden test |
| `Grading.CorrectMatchingPasses` | compbio_grader/exercise_blocks/check_patternmatching.py:29-31 | any submission returning the occurrences in increasing order passes |
| `Grading.CheckReverseComplement` | compbio_grader/exercise_blocks/check_reversecomplement.py:27-46 | a pass awards the given letter; a fail gives `(False, "")` |
| `Grading.CheckReverseComplementMeaning` | compbio_grader/exercise_blocks/check_reversecomplement.py:15-38 | passes exactly when every hidden input gives `_ref_rc` of the upper-cased input |
| `Grading.ScanLetters` | compbio_grader/exercise_blocks/check_genome_scan.py:69-71 | at most two letters, each taken from the acronym |
| `Grading.CheckGenomeScan` | compbio_grader/exercise_blocks/check_genome_scan.py:37-73 | passes exactly when the normalised submission equals the reference list; a pass awards `_SHUFFLED[6]` and `_SHUFFLED[7]` when they exist |
| `Grading.AdjacentIncreasingSorted` | compbio_grader/exercise_blocks/check_genome_scan.py:20 | a list increasing at each step is strictly sorted, as the reference positions are |
| `Grading.GenomeScanIgnoresOrder` | compbio_grader/exercise_blocks/check_genome_scan.py:50-53 | a list passes exactly when it holds the reference positions, in any order and with any repetitions |
| `Grading.CheckEcoliOri` | compbio_grader/checks2.py:424-481 | passes exactly when the window fits in the genome and the answer set is exactly the reverse-complement winners of the 500-character window at 3923620 for k = 9, d = 1; a pass awards letter 6 |
| `Grading.EcoliOriAcceptsWinners` | compbio_grader/checks2.py:413-481 | a submission listing exactly the reverse-complement winners of a DNA window meets the pass condition, as a list or as the words written out with spaces |

## Left out

- The per-session shuffle of the acronym (`_get_shuffled_word`, `COMPBIO_GRADER_SEED`, `random.shuffle`) is left out because it depends on randomness and the environment. `_SHUFFLED` is a parameter, non-empty wherever `letter_for_exercise` is used.
- Printing and diagnostics are output only, so they are left out. Only the `(passed, letters)` result is modelled.
- A student callable that raises is modelled as a function returning `None`. The `try`/`except` around it becomes a failed check.
- Reading `E_coli.txt` is file I/O. `Grading.CheckEcoliOri` takes the genome text as loaded: newlines removed, stripped and upper-cased. The missing-file failure is not modelled.
- Grading.CheckEcoliOri: the `start < 0` half of the bounds test is omitted, because the start is the constant 3923620.
- FrequentWords.FrequentWordsWithRc: the second emptiness test `if not counts` is omitted, because it cannot fire once the guard has passed (`TallyEmpty`).
- Grading.CheckReverseComplement: the awarded letter is a parameter. `_award_random_letter` is defined in none of the files modelled here, so it is not part of this model.
- The pass/fail decisions of `check_frequentwordsapproximate` and `check_frequentwords_approx_with_rc` are not modelled. Their hidden tables contain rows that the reference computes at import time (`GATTACA`, `ATATATAT`, `CTAGCTAG`, the all-A text). They also contain the 30-character textbook sample. The value of the sample row is not proved, because the proof would be too expensive for the solver. The reference functions themselves are modelled, along with the samples `FrequentWordsOnAllAs`, `RcPalindromeSample` and `RcKeysOnlySample`.
- The textbook samples `("ACGTTGCATGTCGCATGATGCATGAGAGCT", 4, 1)` → `["ATGC", "ATGT", "GATG"]` and, with reverse complements, `["ACAT", "ATGT"]` are not proved, for the same reason.
- `check_minimumskew`, `check_approximatepatterncount` and `check_ecoli_clumps_count` only compare a submission with a hard-coded constant, so they are left out. The ApproximatePatternCount under test is defined in none of the files modelled here, and `_EX9_CORRECT_COUNT` is a placeholder.
- FrequentWords.FrequentWordsApprox: k is a natural number. A negative k makes Python slice windows from the end of the text, which is not modelled. The precondition `k >= 1 || d == 0` excludes the infinite recursion of `_ref_neighbors("", d)`.
- Neighborhood.Neighbors: the precondition `d == 0 || |pattern| >= 1` excludes the same infinite recursion on an empty pattern.
- Text.ParseInt: it accepts only an optional sign followed by ASCII digits. Python's `int()` also accepts underscores between digits and non-ASCII digits; such tokens parse to `None` here.
- Answers.AsIntList: a list answer must be a list of integers. Python's `int(x)` conversion of other item types is not modelled.
- Answers.AsStrSet: a list answer must be a list of strings. `str(t)` of other item types is not modelled.
- Answers.NormalizePositions: a list answer must be a list of integers. `int(x)` of other item types is not modelled.
- Text.Upper: it upper-cases ASCII letters only. Python's `str.upper` also maps other letters, and can change a string's length.
- Iteration order of Python sets and dicts is left out because every result is sorted or compared as a set.
- Import-time quirks of the fragments are not modelled:
  - `checks2.py` uses `Callable` before importing it.
  - `_ref_hamming` and `_ref_neighbors` are redefined four times with identical behaviour.
  - The block files rely on names defined elsewhere.
- Running time and the combinatorial growth of neighbourhoods are not modelled, because only functional correctness is proved.
