/** The pass/fail decisions of the checkers and the letters they award. The per-session
    shuffled acronym `_SHUFFLED` is a parameter (its random shuffle is not modelled); a student
    callable is a function returning `None` where it would raise. */
module Grading {
  import opened Wrappers
  import opened Sorting
  import opened Text
  import opened Dna
  import opened Neighborhood
  import opened FrequentWords
  import opened Scans
  import opened Answers

  /** `(passed, letters)`: the letters awarded, empty on failure. */
  datatype Outcome = Outcome(passed: bool, letters: string)

  const Fail := Outcome(false, "")

  /** `letter_for_exercise(index)`: `_SHUFFLED[index % len(_SHUFFLED)]`. Python's `%` with a
      positive modulus is never negative, as is Dafny's. */
  function LetterForExercise(shuffled: string, index: int): (c: char)
    requires |shuffled| > 0
    ensures c in shuffled
    ensures 0 <= index < |shuffled| ==> c == shuffled[index]
  {
    shuffled[index % |shuffled|]
  }

  /** The letter assignment repeats with the length of the acronym. */
  lemma LetterPeriodic(shuffled: string, index: int)
    requires |shuffled| > 0
    ensures LetterForExercise(shuffled, index + |shuffled|) == LetterForExercise(shuffled, index)
  {
    var n := |shuffled|;
    assert index + n == (index / n + 1) * n + index % n;
    ModUnique(index + n, n, index / n + 1, index % n);
  }

  /** Euclidean division is unique: a quotient and remainder in range are `/` and `%`. */
  lemma ModUnique(a: int, n: int, q: int, r: int)
    requires n > 0 && 0 <= r < n && a == q * n + r
    ensures a % n == r
  {
    var e := q - a / n;
    assert e * n == a % n - r;
    if e >= 1 {
      MulAtLeast(e, n);
    }
  }

  lemma {:induction false} MulAtLeast(e: int, n: int)
    requires e >= 1 && n > 0
    ensures e * n >= n
    decreases e
  {
    if e > 1 {
      MulAtLeast(e - 1, n);
      assert e * n == (e - 1) * n + n;
    }
  }

  /** `(True, letter_for_exercise(index)) if award_letter else (True, "")` */
  function Success(shuffled: string, index: int, awardLetter: bool): (r: Outcome)
    requires |shuffled| > 0
    ensures r.passed
    ensures |r.letters| <= 1 && (r.letters != [] <==> awardLetter)
    ensures awardLetter ==> r.letters[0] == LetterForExercise(shuffled, index)
  {
    Outcome(true, if awardLetter then [LetterForExercise(shuffled, index)] else "")
  }

  // ---------- check_skew ----------

  /** `check_skew`: parse, reject a wrong number of values, then demand equality with
      `_ref_skew_values("GAGCCACCGCGATA")`. */
  function CheckSkew(shuffled: string, ans: IntAnswer, awardLetter: bool): (r: Outcome)
    requires |shuffled| > 0
    ensures r.passed <==> AsIntList(ans) == Some(SkewSpec(ExerciseGenome))
    ensures r.passed ==> r == Success(shuffled, 0, awardLetter)
    ensures !r.passed ==> r == Fail
  {
    var expected := SkewSpec(ExerciseGenome);
    match AsIntList(ans)
    case None => Fail
    case Some(got) =>
      if |got| != |expected| then Fail
      else if got != expected then Fail
      else Success(shuffled, 0, awardLetter)
  }

  /** The expected list, written out with spaces, passes; a list of the wrong length fails. */
  lemma CheckSkewAcceptsExpected(shuffled: string, got: seq<int>)
    requires |shuffled| > 0
    ensures CheckSkew(shuffled, IntText(JoinSpace(FormatInts(ExpectedSkew))), true).passed
    ensures |got| != |ExpectedSkew| ==> !CheckSkew(shuffled, IntItems(got), true).passed
  {
    ExerciseSkew();
    AsIntListRoundTrip(ExpectedSkew);
  }

  // ---------- check_neighbors ----------

  /** One hidden Neighbors test: a pattern and a budget. */
  datatype NeighborsTest = NeighborsTest(pattern: string, d: int)

  const NeighborsTests: seq<NeighborsTest> := [
    NeighborsTest("ACG", 1), NeighborsTest("ACG", 0), NeighborsTest("A", 1), NeighborsTest("A", 0),
    NeighborsTest("AT", 2), NeighborsTest("GGGG", 1), NeighborsTest("TTTT", 2), NeighborsTest("AGTC", 3)]

  /** Every hidden test has a non-empty DNA pattern and a non-negative budget. */
  lemma NeighborsTestsWellFormed()
    ensures forall i :: 0 <= i < |NeighborsTests| ==>
      IsDna(NeighborsTests[i].pattern) && |NeighborsTests[i].pattern| >= 1 && NeighborsTests[i].d >= 0
  {
    forall i | 0 <= i < |NeighborsTests|
      ensures IsDna(NeighborsTests[i].pattern) && |NeighborsTests[i].pattern| >= 1
    {
      var p := NeighborsTests[i].pattern;
      assert p == "ACG" || p == "A" || p == "AT" || p == "GGGG" || p == "TTTT" || p == "AGTC";
    }
  }

  /** `set(fn(pat, d)) == set(_ref_neighbors(pat, d))` without an exception. */
  predicate NeighborsTestPasses(fn: (string, int) -> Option<seq<string>>, t: NeighborsTest)
    requires |t.pattern| >= 1
  {
    fn(t.pattern, t.d).Some? && Elements(fn(t.pattern, t.d).value) == Neighbors(t.pattern, t.d)
  }

  /** `check_neighbors`: every hidden test must produce the reference set. */
  function CheckNeighbors(shuffled: string, fn: (string, int) -> Option<seq<string>>, awardLetter: bool): (r: Outcome)
    requires |shuffled| > 0
    ensures r.passed ==> r == Success(shuffled, 5, awardLetter)
    ensures !r.passed ==> r == Fail
  {
    NeighborsTestsWellFormed();
    if forall i :: 0 <= i < |NeighborsTests| ==> NeighborsTestPasses(fn, NeighborsTests[i])
    then Success(shuffled, 5, awardLetter)
    else Fail
  }

  /** A submission passes exactly when, on every hidden test, it lists precisely the DNA strings
      of the pattern's length within Hamming distance d (in any order, with repeats allowed). */
  lemma CheckNeighborsMeaning(shuffled: string, fn: (string, int) -> Option<seq<string>>)
    requires |shuffled| > 0
    ensures CheckNeighbors(shuffled, fn, true).passed <==>
      forall i :: 0 <= i < |NeighborsTests| ==>
        var t := NeighborsTests[i];
        && fn(t.pattern, t.d).Some?
        && forall s :: s in fn(t.pattern, t.d).value <==>
             IsDna(s) && |s| == |t.pattern| && Hamming(t.pattern, s) <= t.d
  {
    NeighborsTestsWellFormed();
    forall i | 0 <= i < |NeighborsTests|
      ensures NeighborsTestPasses(fn, NeighborsTests[i]) <==>
        var t := NeighborsTests[i];
        && fn(t.pattern, t.d).Some?
        && forall s :: s in fn(t.pattern, t.d).value <==>
             IsDna(s) && |s| == |t.pattern| && Hamming(t.pattern, s) <= t.d
    {
      var t := NeighborsTests[i];
      NeighborsExact(t.pattern, t.d);
      if fn(t.pattern, t.d).Some? {
        var got := fn(t.pattern, t.d).value;
        assert forall s :: s in Elements(got) <==> s in got;
      }
    }
  }

  // ---------- check_patterncount ----------

  datatype CountTest = CountTest(dna: string, pattern: string, expected: int)

  const PatternCountTests: seq<CountTest> := [
    CountTest("ATATATATAT", "ATA", 4), CountTest("GCCGCCGCC", "GCC", 3),
    CountTest("AAAAAA", "AA", 5), CountTest("CGCGCGCG", "GCG", 3)]

  /** `check_patterncount`: every hidden count must match; the award is always `_SHUFFLED[0]`. */
  function CheckPatternCount(shuffled: string, fn: (string, string) -> Option<int>): (r: Outcome)
    requires |shuffled| > 0
    ensures r.passed ==> r.letters == [shuffled[0]]
    ensures !r.passed ==> r == Fail
  {
    if forall i :: 0 <= i < |PatternCountTests| ==>
      fn(PatternCountTests[i].dna, PatternCountTests[i].pattern) == Some(PatternCountTests[i].expected)
    then Outcome(true, [shuffled[0]])
    else Fail
  }

  /** The reference count of every hidden pattern-count test. */
  lemma CountTestExpected(i: nat)
    requires i < |PatternCountTests|
    ensures PatternCount(PatternCountTests[i].dna, PatternCountTests[i].pattern) == PatternCountTests[i].expected
  {
    var t := PatternCountTests[i];
    if i == 0 {
      CountOccurrences0(t.dna, t.pattern);
    } else if i == 1 {
      CountOccurrences1(t.dna, t.pattern);
    } else if i == 2 {
      CountOccurrences2(t.dna, t.pattern);
    } else {
      assert i == 3;
      CountOccurrences3(t.dna, t.pattern);
    }
  }

  /** The hidden expectations are the reference's own counts: a submission passes exactly when
      it agrees with `_ref_pattern_count` on every hidden test. */
  lemma CheckPatternCountMeaning(shuffled: string, fn: (string, string) -> Option<int>)
    requires |shuffled| > 0
    ensures CheckPatternCount(shuffled, fn).passed <==>
      forall i :: 0 <= i < |PatternCountTests| ==>
        fn(PatternCountTests[i].dna, PatternCountTests[i].pattern)
          == Some(PatternCount(PatternCountTests[i].dna, PatternCountTests[i].pattern) as int)
  {
    forall i | 0 <= i < |PatternCountTests|
      ensures PatternCount(PatternCountTests[i].dna, PatternCountTests[i].pattern) as int == PatternCountTests[i].expected
    {
      CountTestExpected(i);
    }
  }

  /** The reference counter passes its own hidden tests. */
  lemma ReferencePassesPatternCount(shuffled: string)
    requires |shuffled| > 0
    ensures CheckPatternCount(shuffled, (dna, pattern) => Some(PatternCount(dna, pattern) as int)).passed
  {
    CheckPatternCountMeaning(shuffled, (dna, pattern) => Some(PatternCount(dna, pattern) as int));
  }

  // ---------- check_patternmatching ----------

  datatype MatchingTest = MatchingTest(dna: string, pattern: string, expected: seq<int>)

  const PatternMatchingTests: seq<MatchingTest> := [
    MatchingTest("GATATATGCATATACTT", "ATAT", [1, 3, 9]), MatchingTest("AAAAA", "AA", [0, 1, 2, 3]),
    MatchingTest("ACGTACGTACGT", "ACGT", [0, 4, 8]), MatchingTest("ACACACAC", "ACAC", [0, 2, 4]),
    MatchingTest("CCCC", "CCC", [0, 1]), MatchingTest("AGTCAGTC", "AGT", [0, 4]),
    MatchingTest("AGTCAGTCA", "GTCA", [1, 5]), MatchingTest("AGTCAGTC", "AAAA", []),
    MatchingTest("A", "A", [0]), MatchingTest("", "A", [])]

  /** `check_patternmatching`: the lists must be equal, order included; the award is
      `_SHUFFLED[5]` when the acronym is long enough. */
  function CheckPatternMatching(shuffled: string, fn: (string, string) -> Option<seq<int>>): (r: Outcome)
    ensures r.passed ==> r.letters == if |shuffled| > 5 then [shuffled[5]] else ""
    ensures !r.passed ==> r == Fail
  {
    if forall i :: 0 <= i < |PatternMatchingTests| ==>
      fn(PatternMatchingTests[i].dna, PatternMatchingTests[i].pattern) == Some(PatternMatchingTests[i].expected)
    then Outcome(true, if |shuffled| > 5 then [shuffled[5]] else "")
    else Fail
  }

  /** The reference answer of every hidden pattern-matching test. */
  lemma MatchingTestExpected(i: nat)
    requires i < |PatternMatchingTests|
    ensures PatternMatching(PatternMatchingTests[i].dna, PatternMatchingTests[i].pattern)
      == PatternMatchingTests[i].expected
  {
    var t := PatternMatchingTests[i];
    if i == 0 {
      MatchingOccurrences1(t.dna, t.pattern);
    } else if i == 1 {
      MatchingOccurrences0(t.dna, t.pattern);
    } else if i == 2 {
      MatchingOccurrences2(t.dna, t.pattern);
    } else if i == 3 {
      MatchingOccurrences6(t.dna, t.pattern);
    } else if i == 4 {
      MatchingOccurrences3(t.dna, t.pattern);
    } else if i == 5 {
      MatchingOccurrences7(t.dna, t.pattern);
    } else if i == 6 {
      MatchingOccurrences8(t.dna, t.pattern);
    } else if i == 7 {
      MatchingOccurrences4(t.dna, t.pattern);
    } else if i == 8 {
      MatchingOccurrences9(t.dna, t.pattern);
    } else {
      assert i == 9;
      MatchingOccurrences5(t.dna, t.pattern);
    }
  }

  /** The hidden expectations are the reference's own lists: a submission passes exactly when
      it returns `_ref_pattern_matching`'s list, order included, on every hidden test. */
  lemma CheckPatternMatchingMeaning(shuffled: string, fn: (string, string) -> Option<seq<int>>)
    ensures CheckPatternMatching(shuffled, fn).passed <==>
      forall i :: 0 <= i < |PatternMatchingTests| ==>
        fn(PatternMatchingTests[i].dna, PatternMatchingTests[i].pattern)
          == Some(PatternMatching(PatternMatchingTests[i].dna, PatternMatchingTests[i].pattern))
  {
    forall i | 0 <= i < |PatternMatchingTests|
      ensures PatternMatching(PatternMatchingTests[i].dna, PatternMatchingTests[i].pattern)
        == PatternMatchingTests[i].expected
    {
      MatchingTestExpected(i);
    }
  }

  /** Any submission returning, in increasing order, exactly the starts of the occurrences
      passes. */
  lemma CorrectMatchingPasses(shuffled: string, fn: (string, string) -> Option<seq<int>>)
    requires forall dna, pattern :: fn(dna, pattern).Some?
    requires forall dna, pattern, j, l :: 0 <= j < l < |fn(dna, pattern).value| ==>
      fn(dna, pattern).value[j] < fn(dna, pattern).value[l]
    requires forall dna, pattern, i :: i in fn(dna, pattern).value <==> MatchesAt(dna, pattern, i)
    ensures CheckPatternMatching(shuffled, fn).passed
  {
    forall i | 0 <= i < |PatternMatchingTests|
      ensures fn(PatternMatchingTests[i].dna, PatternMatchingTests[i].pattern)
        == Some(PatternMatching(PatternMatchingTests[i].dna, PatternMatchingTests[i].pattern))
    {
      var t := PatternMatchingTests[i];
      IncreasingUnique(fn(t.dna, t.pattern).value, PatternMatching(t.dna, t.pattern));
    }
    CheckPatternMatchingMeaning(shuffled, fn);
  }

  // ---------- check_reversecomplement ----------

  const ReverseComplementTests: seq<string> := ["AAAACCCGGT", "ATCG", "ATATATAT", "AGCTTTCGA",
    "acgtacgt", "NNNN", "", "GATTACA", "CCCGGGTTTAAA"]

  /** `check_reversecomplement`: every hidden input must give the reference's string. The
      letter `_award_random_letter()` would return is a parameter. */
  function CheckReverseComplement(fn: string -> Option<string>, awarded: char): (r: Outcome)
    ensures r.passed ==> r.letters == [awarded]
    ensures !r.passed ==> r == Fail
  {
    if forall i :: 0 <= i < |ReverseComplementTests| ==>
      fn(ReverseComplementTests[i]) == Some(ReverseComplement(ReverseComplementTests[i]))
    then Outcome(true, [awarded])
    else Fail
  }

  /** A submission passes exactly when, on every hidden input, it returns the scorers'
      `_ref_rc` of the upper-cased input. */
  lemma CheckReverseComplementMeaning(fn: string -> Option<string>, awarded: char)
    ensures CheckReverseComplement(fn, awarded).passed <==>
      forall i :: 0 <= i < |ReverseComplementTests| ==>
        fn(ReverseComplementTests[i]) == Some(Rc(Upper(ReverseComplementTests[i])))
  {
    forall i | 0 <= i < |ReverseComplementTests|
      ensures ReverseComplement(ReverseComplementTests[i]) == Rc(Upper(ReverseComplementTests[i]))
    {
      ReverseComplementIsRc(ReverseComplementTests[i]);
    }
  }

  // ---------- check_genome_scan ----------

  /** The one correct list of start positions of CTTGATCAT in the Vibrio cholerae genome. */
  const CorrectPositions: seq<int> := [60039, 98409, 129189, 152283, 152354, 152411, 163207,
    197028, 200160, 357976, 376771, 392723, 532935, 600085, 622755, 1065555]

  /** `_SHUFFLED[6]` and `_SHUFFLED[7]`, each only when that index exists. */
  function ScanLetters(shuffled: string): (letters: string)
    ensures |letters| <= 2
    ensures forall c :: c in letters ==> c in shuffled
  {
    (if |shuffled| > 6 then [shuffled[6]] else "") + (if |shuffled| > 7 then [shuffled[7]] else "")
  }

  /** `check_genome_scan`: the normalised submission must equal the reference list. */
  function CheckGenomeScan(shuffled: string, out: PositionsAnswer): (r: Outcome)
    ensures r.passed <==> NormalizePositions(out) == Some(CorrectPositions)
    ensures r.passed ==> r.letters == ScanLetters(shuffled)
    ensures !r.passed ==> r == Fail
  {
    match NormalizePositions(out)
    case None => Fail
    case Some(got) => if got != CorrectPositions then Fail else Outcome(true, ScanLetters(shuffled))
  }

  lemma {:induction false} AdjacentIncreasingSorted(xs: seq<int>)
    requires forall i :: 0 <= i < |xs| - 1 ==> xs[i] < xs[i + 1]
    ensures SortedBy(xs, IntLess)
    decreases |xs|
  {
    if |xs| > 1 {
      AdjacentIncreasingSorted(xs[1..]);
      forall j | 1 <= j < |xs|
        ensures xs[0] < xs[j]
      {
        if j > 1 {
          assert xs[1..][0] < xs[1..][j - 1];
        }
      }
      forall i, j | 0 <= i < j < |xs|
        ensures IntLess(xs[i], xs[j])
      {
        if i > 0 {
          assert xs[1..][i - 1] < xs[1..][j - 1];
        }
      }
    }
  }

  /** A list answer passes exactly when it holds the reference positions, in any order and
      with any repetitions. */
  lemma GenomeScanIgnoresOrder(shuffled: string, xs: seq<int>)
    ensures CheckGenomeScan(shuffled, PositionList(xs)).passed <==> (forall x :: x in xs <==> x in CorrectPositions)
  {
    AdjacentIncreasingSorted(CorrectPositions);
    IntLessIsStrictTotalOrder();
    SortedUnique(NormalizePositions(PositionList(CorrectPositions)).value, CorrectPositions, IntLess);
    NormalizeSameElements(xs, CorrectPositions);
  }

  // ---------- check_ecoli_ori ----------

  /** The ori window and the motif parameters of the exercise. */
  const OriStart: nat := 3923620
  const OriLength: nat := 500
  const OriK: nat := 9
  const OriD: nat := 1

  /** `check_ecoli_ori` on the genome text as loaded (newlines removed, stripped, upper-cased).
      The `start < 0` half of the bounds test cannot fire for the constant start. */
  method CheckEcoliOri(shuffled: string, genome: string, ans: StrAnswer, awardLetter: bool)
    returns (r: Outcome)
    requires |shuffled| > 0
    ensures r.passed <==>
      && OriStart + OriLength <= |genome|
      && forall p :: p in AsStrSet(ans) <==> IsRcWinner(genome[OriStart..OriStart + OriLength], OriK, OriD, p)
    ensures r.passed ==> r == Success(shuffled, 6, awardLetter)
    ensures !r.passed ==> r == Fail
  {
    if OriStart + OriLength > |genome| {
      return Fail;
    }
    var window := genome[OriStart..OriStart + OriLength];
    var winners := FrequentWordsWithRc(window, OriK, OriD);
    var expected := Elements(winners);
    var got := AsStrSet(ans);
    if got != expected {
      return Fail;
    }
    return Success(shuffled, 6, awardLetter);
  }

  /** A submission that lists exactly the reverse-complement winners of a DNA window passes
      `check_ecoli_ori`, whether it is a list or the same words written out with spaces. */
  lemma EcoliOriAcceptsWinners(genome: string, xs: seq<string>)
    requires OriStart + OriLength <= |genome|
    requires IsDna(genome[OriStart..OriStart + OriLength])
    requires forall p :: p in xs <==> IsRcWinner(genome[OriStart..OriStart + OriLength], OriK, OriD, p)
    ensures forall p :: p in AsStrSet(WordList(xs)) <==> IsRcWinner(genome[OriStart..OriStart + OriLength], OriK, OriD, p)
    ensures forall p :: p in AsStrSet(WordsText(JoinSpace(xs))) <==> IsRcWinner(genome[OriStart..OriStart + OriLength], OriK, OriD, p)
  {
    var window := genome[OriStart..OriStart + OriLength];
    forall t | t in xs
      ensures IsUpper(t) && IsWord(t)
    {
      VoterIsDna(window, OriK, OriD, WindowCount(window, OriK), t);
      DnaIsUpperWord(t);
    }
    AsStrSetUpperList(xs);
    AsStrSetTextAsList(xs);
  }
}
