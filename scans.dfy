/** The linear-scan references: the GC skew walk `_ref_skew_values`, the exact occurrence
    counter `_ref_pattern_count` and the occurrence list `_ref_pattern_matching`. */
module Scans {
  import opened Sorting

  // ---------- skew ----------

  /** How the skew changes on one character: +1 on 'G', -1 on 'C', 0 on anything else
      (lower case included). */
  function SkewStep(ch: char): int
  {
    if ch == 'G' then 1 else if ch == 'C' then -1 else 0
  }

  /** The list `_ref_skew_values(genome)` returns: one value per prefix of the genome. */
  function SkewSpec(genome: string): (vals: seq<int>)
    ensures |vals| == |genome| + 1 && vals[0] == 0
    ensures forall i :: 0 <= i < |genome| ==> vals[i + 1] == vals[i] + SkewStep(genome[i])
    decreases |genome|
  {
    if genome == [] then [0]
    else
      var prev := SkewSpec(genome[..|genome| - 1]);
      prev + [prev[|prev| - 1] + SkewStep(genome[|genome| - 1])]
  }

  lemma SkewExtend(genome: string, j: nat)
    requires j < |genome|
    ensures SkewSpec(genome[..j + 1]) == SkewSpec(genome[..j]) + [SkewSpec(genome[..j])[j] + SkewStep(genome[j])]
  {
    assert genome[..j + 1][..j] == genome[..j];
  }

  /** `_ref_skew_values`: the loop appending the running skew after every character. */
  method SkewValues(genome: string) returns (vals: seq<int>)
    ensures vals == SkewSpec(genome)
  {
    vals := [0];
    var skew := 0;
    for j := 0 to |genome|
      invariant vals == SkewSpec(genome[..j])
      invariant skew == vals[j]
    {
      var ch := genome[j];
      if ch == 'G' {
        skew := skew + 1;
      } else if ch == 'C' {
        skew := skew - 1;
      }
      assert skew == vals[j] + SkewStep(genome[j]);
      SkewExtend(genome, j);
      vals := vals + [skew];
    }
    assert genome[..|genome|] == genome;
  }

  /** The number of occurrences of `c` in `s`. */
  function Occurrences(s: string, c: char): nat
  {
    if s == [] then 0 else Occurrences(s[..|s| - 1], c) + (if s[|s| - 1] == c then 1 else 0)
  }

  /** The skew after a prefix is its number of G minus its number of C. */
  lemma {:induction false} SkewClosedForm(genome: string, i: nat)
    requires i <= |genome|
    ensures SkewSpec(genome)[i] == Occurrences(genome[..i], 'G') - Occurrences(genome[..i], 'C')
  {
    if i > 0 {
      SkewClosedForm(genome, i - 1);
      assert genome[..i][..i - 1] == genome[..i - 1];
    }
  }

  /** The exercise genome of check_skew and the skew list `check_skew` expects for it. */
  const ExerciseGenome: string := "GAGCCACCGCGATA"
  const ExpectedSkew: seq<int> := [0, 1, 1, 2, 1, 0, 0, -1, -2, -1, -2, -1, -1, -1, -1]

  lemma SkewAt(genome: string, expected: seq<int>)
    requires |expected| == |genome| + 1 && expected[0] == 0
    requires forall i :: 0 <= i < |genome| ==> expected[i + 1] == expected[i] + SkewStep(genome[i])
    ensures SkewSpec(genome) == expected
  {
    var vals := SkewSpec(genome);
    forall i | 0 <= i <= |genome|
      ensures vals[i] == expected[i]
    {
      SkewPrefixAgree(genome, expected, vals, i);
    }
  }

  lemma {:induction false} SkewPrefixAgree(genome: string, expected: seq<int>, vals: seq<int>, i: nat)
    requires |expected| == |genome| + 1 && expected[0] == 0
    requires forall j :: 0 <= j < |genome| ==> expected[j + 1] == expected[j] + SkewStep(genome[j])
    requires vals == SkewSpec(genome) && i <= |genome|
    ensures vals[i] == expected[i]
  {
    if i > 0 {
      SkewPrefixAgree(genome, expected, vals, i - 1);
    }
  }

  /** The expected answer of the skew exercise. */
  lemma ExerciseSkew()
    ensures SkewSpec(ExerciseGenome) == ExpectedSkew
  {
    SkewAt(ExerciseGenome, ExpectedSkew);
  }

  // ---------- exact occurrences ----------

  /** `len(range(len(text) - k + 1))`: the number of length-k windows a scan visits. */
  function WindowCount(text: string, k: nat): (n: nat)
    ensures n == 0 <==> |text| < k
    ensures n > 0 ==> n - 1 + k == |text|
  {
    if k <= |text| then |text| - k + 1 else 0
  }

  /** `dna[i:i+k] == pattern` at a start the range visits. */
  predicate MatchesAt(dna: string, pattern: string, i: int)
  {
    0 <= i && i + |pattern| <= |dna| && dna[i..i + |pattern|] == pattern
  }

  /** `[i for i in range(n) if dna[i:i+k] == pattern]`: the matching starts below `n`. */
  function MatchesBelow(dna: string, pattern: string, n: nat): (r: seq<nat>)
    requires n <= WindowCount(dna, |pattern|)
    ensures forall j :: 0 <= j < |r| ==> r[j] < n && MatchesAt(dna, pattern, r[j])
    ensures forall i :: 0 <= i < n && MatchesAt(dna, pattern, i) ==> i in r
    ensures forall j, l :: 0 <= j < l < |r| ==> r[j] < r[l]
  {
    if n == 0 then []
    else MatchesBelow(dna, pattern, n - 1) + (if MatchesAt(dna, pattern, n - 1) then [n - 1] else [])
  }

  /** `_ref_pattern_matching(DNA, pattern)`: exactly the starts of occurrences, overlapping
      ones included, in increasing order. */
  function PatternMatching(dna: string, pattern: string): (r: seq<nat>)
    ensures forall i :: i in r <==> MatchesAt(dna, pattern, i)
    ensures forall j, l :: 0 <= j < l < |r| ==> r[j] < r[l]
  {
    MatchesBelow(dna, pattern, WindowCount(dna, |pattern|))
  }

  /** A strictly increasing list is determined by its elements. */
  lemma IncreasingUnique(a: seq<int>, b: seq<int>)
    requires forall j, l :: 0 <= j < l < |a| ==> a[j] < a[l]
    requires forall j, l :: 0 <= j < l < |b| ==> b[j] < b[l]
    requires forall x :: x in a <==> x in b
    ensures a == b
  {
    assert SortedBy(a, IntLess) && SortedBy(b, IntLess);
    assert forall x: int :: x in a <==> x in b;
    IntLessIsStrictTotalOrder();
    SortedUnique(a, b, IntLess);
  }

  /** `sum(1 for i in range(n) if dna[i:i+k] == pattern)` */
  function CountBelow(dna: string, pattern: string, n: nat): (c: nat)
    requires n <= WindowCount(dna, |pattern|)
    ensures c <= n
  {
    if n == 0 then 0
    else CountBelow(dna, pattern, n - 1) + (if MatchesAt(dna, pattern, n - 1) then 1 else 0)
  }

  /** `_ref_pattern_count(dna, pattern)` */
  function PatternCount(dna: string, pattern: string): (c: nat)
    ensures c <= WindowCount(dna, |pattern|)
    ensures |dna| < |pattern| ==> c == 0
  {
    CountBelow(dna, pattern, WindowCount(dna, |pattern|))
  }

  lemma {:induction false} CountIsLengthOfMatches(dna: string, pattern: string, n: nat)
    requires n <= WindowCount(dna, |pattern|)
    ensures CountBelow(dna, pattern, n) == |MatchesBelow(dna, pattern, n)|
  {
    if n > 0 {
      CountIsLengthOfMatches(dna, pattern, n - 1);
    }
  }

  /** The count is the length of the occurrence list. */
  lemma PatternCountIsMatches(dna: string, pattern: string)
    ensures PatternCount(dna, pattern) == |PatternMatching(dna, pattern)|
  {
    CountIsLengthOfMatches(dna, pattern, WindowCount(dna, |pattern|));
  }

  lemma {:induction false} EmptyPatternCountBelow(dna: string, n: nat)
    requires n <= WindowCount(dna, 0)
    ensures CountBelow(dna, "", n) == n
  {
    if n > 0 {
      EmptyPatternCountBelow(dna, n - 1);
      assert dna[n - 1..n - 1] == "";
    }
  }

  /** Every empty slice matches the empty pattern: len(dna) + 1 occurrences. */
  lemma EmptyPatternCount(dna: string)
    ensures PatternCount(dna, "") == |dna| + 1
  {
    EmptyPatternCountBelow(dna, |dna| + 1);
  }

  /** A start where one character differs from the pattern is not an occurrence. */
  lemma Miss(dna: string, pattern: string, n: nat, j: nat)
    requires j < |pattern| && n + |pattern| <= |dna| && dna[n + j] != pattern[j]
    ensures !MatchesAt(dna, pattern, n)
  {
    assert dna[n..n + |pattern|][j] == dna[n + j];
  }

  /** A start where every character agrees with the pattern is an occurrence. */
  lemma Hit(dna: string, pattern: string, n: nat)
    requires n + |pattern| <= |dna|
    requires forall j :: 0 <= j < |pattern| ==> dna[n + j] == pattern[j]
    ensures MatchesAt(dna, pattern, n)
  {
    assert dna[n..n + |pattern|] == pattern;
  }

  /** Once the occurrences of a pattern are known to be exactly the members of a strictly
      increasing list, that list is what `_ref_pattern_matching` returns and its length is
      what `_ref_pattern_count` returns. */
  lemma OccurrencesAre(dna: string, pattern: string, xs: seq<int>)
    requires forall j, l :: 0 <= j < l < |xs| ==> xs[j] < xs[l]
    requires forall i :: MatchesAt(dna, pattern, i) <==> i in xs
    ensures PatternMatching(dna, pattern) == xs
    ensures PatternCount(dna, pattern) == |xs|
  {
    IncreasingUnique(PatternMatching(dna, pattern), xs);
    PatternCountIsMatches(dna, pattern);
  }


  // The hidden tests, start by start: each lemma names the mismatching character of every
  // start that is not an occurrence, and concludes with the reference's answer.

  lemma MatchingOccurrences0(dna: string, pattern: string)
    requires dna == "AAAAA" && pattern == "AA"
    ensures forall i :: MatchesAt(dna, pattern, i) <==> i in [0, 1, 2, 3]
    ensures PatternMatching(dna, pattern) == [0, 1, 2, 3]
  {
    forall i
      ensures MatchesAt(dna, pattern, i) <==> i in [0, 1, 2, 3]
    {
      if i == 0 {
        Hit(dna, pattern, 0);
      } else if i == 1 {
        Hit(dna, pattern, 1);
      } else if i == 2 {
        Hit(dna, pattern, 2);
      } else if i == 3 {
        Hit(dna, pattern, 3);
      }
    }
    OccurrencesAre(dna, pattern, [0, 1, 2, 3]);
  }

  lemma MatchingOccurrences1(dna: string, pattern: string)
    requires dna == "GATATATGCATATACTT" && pattern == "ATAT"
    ensures forall i :: MatchesAt(dna, pattern, i) <==> i in [1, 3, 9]
    ensures PatternMatching(dna, pattern) == [1, 3, 9]
  {
    forall i
      ensures MatchesAt(dna, pattern, i) <==> i in [1, 3, 9]
    {
      if i == 0 {
        Miss(dna, pattern, 0, 0);
      } else if i == 1 {
        Hit(dna, pattern, 1);
      } else if i == 2 {
        Miss(dna, pattern, 2, 0);
      } else if i == 3 {
        Hit(dna, pattern, 3);
      } else if i == 4 {
        Miss(dna, pattern, 4, 0);
      } else if i == 5 {
        Miss(dna, pattern, 5, 2);
      } else if i == 6 {
        Miss(dna, pattern, 6, 0);
      } else if i == 7 {
        Miss(dna, pattern, 7, 0);
      } else if i == 8 {
        Miss(dna, pattern, 8, 0);
      } else if i == 9 {
        Hit(dna, pattern, 9);
      } else if i == 10 {
        Miss(dna, pattern, 10, 0);
      } else if i == 11 {
        Miss(dna, pattern, 11, 3);
      } else if i == 12 {
        Miss(dna, pattern, 12, 0);
      } else if i == 13 {
        Miss(dna, pattern, 13, 1);
      }
    }
    OccurrencesAre(dna, pattern, [1, 3, 9]);
  }

  lemma MatchingOccurrences2(dna: string, pattern: string)
    requires dna == "ACGTACGTACGT" && pattern == "ACGT"
    ensures forall i :: MatchesAt(dna, pattern, i) <==> i in [0, 4, 8]
    ensures PatternMatching(dna, pattern) == [0, 4, 8]
  {
    forall i
      ensures MatchesAt(dna, pattern, i) <==> i in [0, 4, 8]
    {
      if i == 0 {
        Hit(dna, pattern, 0);
      } else if i == 1 {
        Miss(dna, pattern, 1, 0);
      } else if i == 2 {
        Miss(dna, pattern, 2, 0);
      } else if i == 3 {
        Miss(dna, pattern, 3, 0);
      } else if i == 4 {
        Hit(dna, pattern, 4);
      } else if i == 5 {
        Miss(dna, pattern, 5, 0);
      } else if i == 6 {
        Miss(dna, pattern, 6, 0);
      } else if i == 7 {
        Miss(dna, pattern, 7, 0);
      } else if i == 8 {
        Hit(dna, pattern, 8);
      }
    }
    OccurrencesAre(dna, pattern, [0, 4, 8]);
  }

  lemma MatchingOccurrences3(dna: string, pattern: string)
    requires dna == "CCCC" && pattern == "CCC"
    ensures forall i :: MatchesAt(dna, pattern, i) <==> i in [0, 1]
    ensures PatternMatching(dna, pattern) == [0, 1]
  {
    forall i
      ensures MatchesAt(dna, pattern, i) <==> i in [0, 1]
    {
      if i == 0 {
        Hit(dna, pattern, 0);
      } else if i == 1 {
        Hit(dna, pattern, 1);
      }
    }
    OccurrencesAre(dna, pattern, [0, 1]);
  }

  lemma MatchingOccurrences4(dna: string, pattern: string)
    requires dna == "AGTCAGTC" && pattern == "AAAA"
    ensures forall i :: MatchesAt(dna, pattern, i) <==> i in []
    ensures PatternMatching(dna, pattern) == []
  {
    forall i
      ensures MatchesAt(dna, pattern, i) <==> i in []
    {
      if i == 0 {
        Miss(dna, pattern, 0, 1);
      } else if i == 1 {
        Miss(dna, pattern, 1, 0);
      } else if i == 2 {
        Miss(dna, pattern, 2, 0);
      } else if i == 3 {
        Miss(dna, pattern, 3, 0);
      } else if i == 4 {
        Miss(dna, pattern, 4, 1);
      }
    }
    OccurrencesAre(dna, pattern, []);
  }

  lemma MatchingOccurrences5(dna: string, pattern: string)
    requires dna == "" && pattern == "A"
    ensures forall i :: MatchesAt(dna, pattern, i) <==> i in []
    ensures PatternMatching(dna, pattern) == []
  {
    OccurrencesAre(dna, pattern, []);
  }

  lemma MatchingOccurrences6(dna: string, pattern: string)
    requires dna == "ACACACAC" && pattern == "ACAC"
    ensures forall i :: MatchesAt(dna, pattern, i) <==> i in [0, 2, 4]
    ensures PatternMatching(dna, pattern) == [0, 2, 4]
  {
    forall i
      ensures MatchesAt(dna, pattern, i) <==> i in [0, 2, 4]
    {
      if i == 0 {
        Hit(dna, pattern, 0);
      } else if i == 1 {
        Miss(dna, pattern, 1, 0);
      } else if i == 2 {
        Hit(dna, pattern, 2);
      } else if i == 3 {
        Miss(dna, pattern, 3, 0);
      } else if i == 4 {
        Hit(dna, pattern, 4);
      }
    }
    OccurrencesAre(dna, pattern, [0, 2, 4]);
  }

  lemma MatchingOccurrences7(dna: string, pattern: string)
    requires dna == "AGTCAGTC" && pattern == "AGT"
    ensures forall i :: MatchesAt(dna, pattern, i) <==> i in [0, 4]
    ensures PatternMatching(dna, pattern) == [0, 4]
  {
    forall i
      ensures MatchesAt(dna, pattern, i) <==> i in [0, 4]
    {
      if i == 0 {
        Hit(dna, pattern, 0);
      } else if i == 1 {
        Miss(dna, pattern, 1, 0);
      } else if i == 2 {
        Miss(dna, pattern, 2, 0);
      } else if i == 3 {
        Miss(dna, pattern, 3, 0);
      } else if i == 4 {
        Hit(dna, pattern, 4);
      } else if i == 5 {
        Miss(dna, pattern, 5, 0);
      }
    }
    OccurrencesAre(dna, pattern, [0, 4]);
  }

  lemma MatchingOccurrences8(dna: string, pattern: string)
    requires dna == "AGTCAGTCA" && pattern == "GTCA"
    ensures forall i :: MatchesAt(dna, pattern, i) <==> i in [1, 5]
    ensures PatternMatching(dna, pattern) == [1, 5]
  {
    forall i
      ensures MatchesAt(dna, pattern, i) <==> i in [1, 5]
    {
      if i == 0 {
        Miss(dna, pattern, 0, 0);
      } else if i == 1 {
        Hit(dna, pattern, 1);
      } else if i == 2 {
        Miss(dna, pattern, 2, 0);
      } else if i == 3 {
        Miss(dna, pattern, 3, 0);
      } else if i == 4 {
        Miss(dna, pattern, 4, 0);
      } else if i == 5 {
        Hit(dna, pattern, 5);
      }
    }
    OccurrencesAre(dna, pattern, [1, 5]);
  }

  lemma MatchingOccurrences9(dna: string, pattern: string)
    requires dna == "A" && pattern == "A"
    ensures forall i :: MatchesAt(dna, pattern, i) <==> i in [0]
    ensures PatternMatching(dna, pattern) == [0]
  {
    forall i
      ensures MatchesAt(dna, pattern, i) <==> i in [0]
    {
      if i == 0 {
        Hit(dna, pattern, 0);
      }
    }
    OccurrencesAre(dna, pattern, [0]);
  }

  lemma CountOccurrences0(dna: string, pattern: string)
    requires dna == "ATATATATAT" && pattern == "ATA"
    ensures forall i :: MatchesAt(dna, pattern, i) <==> i in [0, 2, 4, 6]
    ensures PatternCount(dna, pattern) == 4
  {
    forall i
      ensures MatchesAt(dna, pattern, i) <==> i in [0, 2, 4, 6]
    {
      if i == 0 {
        Hit(dna, pattern, 0);
      } else if i == 1 {
        Miss(dna, pattern, 1, 0);
      } else if i == 2 {
        Hit(dna, pattern, 2);
      } else if i == 3 {
        Miss(dna, pattern, 3, 0);
      } else if i == 4 {
        Hit(dna, pattern, 4);
      } else if i == 5 {
        Miss(dna, pattern, 5, 0);
      } else if i == 6 {
        Hit(dna, pattern, 6);
      } else if i == 7 {
        Miss(dna, pattern, 7, 0);
      }
    }
    OccurrencesAre(dna, pattern, [0, 2, 4, 6]);
  }

  lemma CountOccurrences1(dna: string, pattern: string)
    requires dna == "GCCGCCGCC" && pattern == "GCC"
    ensures forall i :: MatchesAt(dna, pattern, i) <==> i in [0, 3, 6]
    ensures PatternCount(dna, pattern) == 3
  {
    forall i
      ensures MatchesAt(dna, pattern, i) <==> i in [0, 3, 6]
    {
      if i == 0 {
        Hit(dna, pattern, 0);
      } else if i == 1 {
        Miss(dna, pattern, 1, 0);
      } else if i == 2 {
        Miss(dna, pattern, 2, 0);
      } else if i == 3 {
        Hit(dna, pattern, 3);
      } else if i == 4 {
        Miss(dna, pattern, 4, 0);
      } else if i == 5 {
        Miss(dna, pattern, 5, 0);
      } else if i == 6 {
        Hit(dna, pattern, 6);
      }
    }
    OccurrencesAre(dna, pattern, [0, 3, 6]);
  }

  lemma CountOccurrences2(dna: string, pattern: string)
    requires dna == "AAAAAA" && pattern == "AA"
    ensures forall i :: MatchesAt(dna, pattern, i) <==> i in [0, 1, 2, 3, 4]
    ensures PatternCount(dna, pattern) == 5
  {
    forall i
      ensures MatchesAt(dna, pattern, i) <==> i in [0, 1, 2, 3, 4]
    {
      if i == 0 {
        Hit(dna, pattern, 0);
      } else if i == 1 {
        Hit(dna, pattern, 1);
      } else if i == 2 {
        Hit(dna, pattern, 2);
      } else if i == 3 {
        Hit(dna, pattern, 3);
      } else if i == 4 {
        Hit(dna, pattern, 4);
      }
    }
    OccurrencesAre(dna, pattern, [0, 1, 2, 3, 4]);
  }

  lemma CountOccurrences3(dna: string, pattern: string)
    requires dna == "CGCGCGCG" && pattern == "GCG"
    ensures forall i :: MatchesAt(dna, pattern, i) <==> i in [1, 3, 5]
    ensures PatternCount(dna, pattern) == 3
  {
    forall i
      ensures MatchesAt(dna, pattern, i) <==> i in [1, 3, 5]
    {
      if i == 0 {
        Miss(dna, pattern, 0, 0);
      } else if i == 1 {
        Hit(dna, pattern, 1);
      } else if i == 2 {
        Miss(dna, pattern, 2, 0);
      } else if i == 3 {
        Hit(dna, pattern, 3);
      } else if i == 4 {
        Miss(dna, pattern, 4, 0);
      } else if i == 5 {
        Hit(dna, pattern, 5);
      }
    }
    OccurrencesAre(dna, pattern, [1, 3, 5]);
  }

  /** Hidden tests of the pattern-matching exercise: overlapping, periodic and absent
      occurrences, and an empty text. */
  lemma PatternMatchingSamples()
    ensures PatternMatching("AAAAA", "AA") == [0, 1, 2, 3]
    ensures PatternMatching("GATATATGCATATACTT", "ATAT") == [1, 3, 9]
    ensures PatternMatching("ACGTACGTACGT", "ACGT") == [0, 4, 8]
    ensures PatternMatching("CCCC", "CCC") == [0, 1]
    ensures PatternMatching("AGTCAGTC", "AAAA") == []
    ensures PatternMatching("", "A") == []
    ensures PatternMatching("ACACACAC", "ACAC") == [0, 2, 4]
    ensures PatternMatching("AGTCAGTC", "AGT") == [0, 4]
    ensures PatternMatching("AGTCAGTCA", "GTCA") == [1, 5]
    ensures PatternMatching("A", "A") == [0]
  {
    MatchingOccurrences0("AAAAA", "AA");
    MatchingOccurrences1("GATATATGCATATACTT", "ATAT");
    MatchingOccurrences2("ACGTACGTACGT", "ACGT");
    MatchingOccurrences3("CCCC", "CCC");
    MatchingOccurrences4("AGTCAGTC", "AAAA");
    MatchingOccurrences5("", "A");
    MatchingOccurrences6("ACACACAC", "ACAC");
    MatchingOccurrences7("AGTCAGTC", "AGT");
    MatchingOccurrences8("AGTCAGTCA", "GTCA");
    MatchingOccurrences9("A", "A");
  }

  /** Hidden tests of the pattern-count exercise: overlapping occurrences count. */
  lemma PatternCountSamples()
    ensures PatternCount("ATATATATAT", "ATA") == 4
    ensures PatternCount("GCCGCCGCC", "GCC") == 3
    ensures PatternCount("AAAAAA", "AA") == 5
    ensures PatternCount("CGCGCGCG", "GCG") == 3
  {
    CountOccurrences0("ATATATATAT", "ATA");
    CountOccurrences1("GCCGCCGCC", "GCC");
    CountOccurrences2("AAAAAA", "AA");
    CountOccurrences3("CGCGCGCG", "GCG");
  }
}
