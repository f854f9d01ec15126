/** The d-neighbourhood generator `_ref_neighbors`: every string over A, C, G, T within Hamming
    distance d of a pattern, built by recursion on the pattern's suffix with the same budget d. */
module Neighborhood {
  import opened Dna
  import opened Sorting
  import opened Text

  /** The tuple ("A", "C", "G", "T") the generator prepends from, in this order. */
  const Alphabet: string := "ACGT"

  /** One level of the recursion: a suffix neighbour `t` with slack (distance below `d` from
      `pattern[1:]`) is extended by all four letters, any other by `pattern[0]` alone. */
  function Extend(pattern: string, d: int, suffixes: set<string>): set<string>
    requires |pattern| >= 1
  {
    (set t, x | t in suffixes && Hamming(pattern[1..], t) < d && x in Alphabet :: [x] + t)
    + (set t | t in suffixes && Hamming(pattern[1..], t) >= d :: [pattern[0]] + t)
  }

  /** The set `_ref_neighbors(pattern, d)` returns, which is never empty. Python recurses forever on an empty pattern with
      d != 0 (`""[1:] == ""`), hence the precondition; a negative d is accepted, as the
      unguarded frequent-words reference may pass one. */
  function Neighbors(pattern: string, d: int): (r: set<string>)
    requires d == 0 || |pattern| >= 1
    ensures r != {}
    decreases |pattern|
  {
    if d == 0 then {pattern}
    else if |pattern| == 1 then {"A", "C", "G", "T"}
    else
      var suffixes := Neighbors(pattern[1..], d);
      ExtendNonEmpty(pattern, d, suffixes);
      Extend(pattern, d, suffixes)
  }

  lemma ExtendMember(pattern: string, d: int, suffixes: set<string>, s: string)
    requires |pattern| >= 1
    ensures s in Extend(pattern, d, suffixes) <==>
      |s| >= 1 && s[1..] in suffixes &&
      (if Hamming(pattern[1..], s[1..]) < d then IsBase(s[0]) else s[0] == pattern[0])
  {
    if |s| >= 1 && s[1..] in suffixes {
      assert s == [s[0]] + s[1..];
    }
  }

  lemma ExtendUnion(pattern: string, d: int, done: set<string>, t: string)
    requires |pattern| >= 1
    ensures Extend(pattern, d, done + {t}) == Extend(pattern, d, done) + Extend(pattern, d, {t})
  {
    forall s
      ensures s in Extend(pattern, d, done + {t}) <==>
        s in Extend(pattern, d, done) + Extend(pattern, d, {t})
    {
      ExtendMember(pattern, d, done + {t}, s);
      ExtendMember(pattern, d, done, s);
      ExtendMember(pattern, d, {t}, s);
    }
  }

  /** One recursion level keeps the set non-empty. */
  lemma ExtendNonEmpty(pattern: string, d: int, suffixes: set<string>)
    requires |pattern| >= 1 && suffixes != {}
    ensures Extend(pattern, d, suffixes) != {}
  {
    var t :| t in suffixes;
    var s := (if Hamming(pattern[1..], t) < d then "A" else [pattern[0]]) + t;
    assert s[1..] == t;
    ExtendMember(pattern, d, suffixes, s);
  }

  /** Every neighbour has the pattern's length, whatever the budget. */
  lemma {:induction false} NeighborsLength(pattern: string, d: int, s: string)
    requires d == 0 || |pattern| >= 1
    requires s in Neighbors(pattern, d)
    ensures |s| == |pattern|
    decreases |pattern|
  {
    if d != 0 && |pattern| > 1 {
      ExtendMember(pattern, d, Neighbors(pattern[1..], d), s);
      NeighborsLength(pattern[1..], d, s[1..]);
    }
  }

  /** Soundness: every neighbour is within distance d, and is DNA when the pattern is. */
  lemma {:induction false} NeighborsSound(pattern: string, d: int, s: string)
    requires d >= 0 && (d == 0 || |pattern| >= 1)
    requires s in Neighbors(pattern, d)
    ensures |s| == |pattern| && Hamming(pattern, s) <= d
    ensures IsDna(pattern) ==> IsDna(s)
    decreases |pattern|
  {
    NeighborsLength(pattern, d, s);
    if d != 0 && |pattern| == 1 {
      assert Hamming(pattern, s) <= 1;
    } else if d != 0 {
      ExtendMember(pattern, d, Neighbors(pattern[1..], d), s);
      NeighborsSound(pattern[1..], d, s[1..]);
      var rest := Hamming(pattern[1..], s[1..]);
      assert Hamming(pattern, s) == (if pattern[0] != s[0] then 1 else 0) + rest;
      assert rest <= d;
      if rest >= d {
        assert s[0] == pattern[0];
        assert Hamming(pattern, s) == rest;
      } else {
        assert Hamming(pattern, s) <= rest + 1;
      }
      if IsDna(pattern) {
        forall i | 0 <= i < |s|
          ensures IsBase(s[i])
        {
          if i > 0 {
            assert s[i] == s[1..][i - 1];
          }
        }
      }
    } else {
      HammingZero(pattern, s);
    }
  }

  /** Completeness: every DNA string of the pattern's length within distance d is generated. */
  lemma {:induction false} NeighborsComplete(pattern: string, d: int, s: string)
    requires IsDna(pattern) && |pattern| >= 1 && d >= 0
    requires IsDna(s) && |s| == |pattern| && Hamming(pattern, s) <= d
    ensures s in Neighbors(pattern, d)
    decreases |pattern|
  {
    if d == 0 {
      HammingZero(pattern, s);
      assert s == pattern;
    } else if |pattern| == 1 {
      assert IsBase(s[0]) && s == [s[0]];
    } else {
      var t := s[1..];
      assert IsDna(pattern[1..]) && IsDna(t);
      NeighborsComplete(pattern[1..], d, t);
      ExtendMember(pattern, d, Neighbors(pattern[1..], d), s);
    }
  }

  /** The characterisation: for a DNA pattern and d >= 0 the generator returns exactly the DNA
      strings of the same length at Hamming distance at most d. */
  lemma NeighborsExact(pattern: string, d: int)
    requires IsDna(pattern) && |pattern| >= 1 && d >= 0
    ensures forall s :: s in Neighbors(pattern, d) <==>
      IsDna(s) && |s| == |pattern| && Hamming(pattern, s) <= d
  {
    forall s
      ensures s in Neighbors(pattern, d) <==>
        IsDna(s) && |s| == |pattern| && Hamming(pattern, s) <= d
    {
      if s in Neighbors(pattern, d) {
        NeighborsSound(pattern, d, s);
      }
      if IsDna(s) && |s| == |pattern| && Hamming(pattern, s) <= d {
        NeighborsComplete(pattern, d, s);
      }
    }
  }

  /** A DNA pattern is its own neighbour for every budget d >= 0. */
  lemma NeighborsContainPattern(pattern: string, d: int)
    requires IsDna(pattern) && |pattern| >= 1 && d >= 0
    ensures pattern in Neighbors(pattern, d)
  {
    HammingZero(pattern, pattern);
    NeighborsComplete(pattern, d, pattern);
  }

  /** For a non-empty DNA pattern and d >= 0 a larger budget never loses a neighbour. This
      fails for other patterns: `neighbors("N", 0)` is `{"N"}` but `neighbors("N", 1)` is the
      four bases. */
  lemma NeighborsMonotone(pattern: string, d: int)
    requires IsDna(pattern) && |pattern| >= 1 && d >= 0
    ensures Neighbors(pattern, d) <= Neighbors(pattern, d + 1)
  {
    NeighborsExact(pattern, d);
    NeighborsExact(pattern, d + 1);
  }

  /** The DNA restriction of `NeighborsMonotone` is needed: a non-DNA pattern is its own
      neighbour at budget 0 but not at budget 1. */
  lemma MonotoneNeedsDna(pattern: string)
    requires pattern == "N"
    ensures pattern in Neighbors(pattern, 0) && pattern !in Neighbors(pattern, 1)
  {
  }

  /** With a budget of at least the pattern's length every DNA string of that length is a
      neighbour, e.g. `("AT", 2)` yields all sixteen two-letter strings. */
  lemma NeighborsFullBudget(pattern: string, d: int)
    requires IsDna(pattern) && |pattern| >= 1 && d >= |pattern|
    ensures forall s :: s in Neighbors(pattern, d) <==> IsDna(s) && |s| == |pattern|
  {
    NeighborsExact(pattern, d);
  }

  /** Any set with exactly the characterised members is the neighbourhood. */
  lemma NeighborsEqualSet(pattern: string, d: int, expected: set<string>)
    requires IsDna(pattern) && |pattern| >= 1 && d >= 0
    requires forall s :: s in expected <==> IsDna(s) && |s| == |pattern| && Hamming(pattern, s) <= d
    ensures Neighbors(pattern, d) == expected
  {
    NeighborsExact(pattern, d);
  }

  const TwoLetterStrings: set<string> :=
    {"AA", "AC", "AG", "AT", "CA", "CC", "CG", "CT", "GA", "GC", "GG", "GT", "TA", "TC", "TG", "TT"}

  lemma TwoLetterMember(s: string)
    ensures s in TwoLetterStrings <==> IsDna(s) && |s| == 2
  {
    if IsDna(s) && |s| == 2 {
      assert s == [s[0], s[1]];
      if s[0] == 'A' && s[1] == 'A' {
        assert s == "AA";
      } else if s[0] == 'A' && s[1] == 'C' {
        assert s == "AC";
      } else if s[0] == 'A' && s[1] == 'G' {
        assert s == "AG";
      } else if s[0] == 'A' && s[1] == 'T' {
        assert s == "AT";
      } else if s[0] == 'C' && s[1] == 'A' {
        assert s == "CA";
      } else if s[0] == 'C' && s[1] == 'C' {
        assert s == "CC";
      } else if s[0] == 'C' && s[1] == 'G' {
        assert s == "CG";
      } else if s[0] == 'C' && s[1] == 'T' {
        assert s == "CT";
      } else if s[0] == 'G' && s[1] == 'A' {
        assert s == "GA";
      } else if s[0] == 'G' && s[1] == 'C' {
        assert s == "GC";
      } else if s[0] == 'G' && s[1] == 'G' {
        assert s == "GG";
      } else if s[0] == 'G' && s[1] == 'T' {
        assert s == "GT";
      } else if s[0] == 'T' && s[1] == 'A' {
        assert s == "TA";
      } else if s[0] == 'T' && s[1] == 'C' {
        assert s == "TC";
      } else if s[0] == 'T' && s[1] == 'G' {
        assert s == "TG";
      } else if s[0] == 'T' && s[1] == 'T' {
        assert s == "TT";
      }
    }
  }

  /** The `("AT", 2)` hidden test: all sixteen two-letter strings. */
  lemma NeighborsAllTwoLetter()
    ensures Neighbors("AT", 2) == TwoLetterStrings
  {
    forall s
      ensures s in TwoLetterStrings <==> IsDna(s) && |s| == 2 && Hamming("AT", s) <= 2
    {
      TwoLetterMember(s);
    }
    NeighborsEqualSet("AT", 2, TwoLetterStrings);
  }

  const SampleNeighbors: set<string> :=
    {"ACG", "CCG", "GCG", "TCG", "AAG", "ACA", "ACC", "ACT", "AGG", "ATG"}

  lemma HammingFromACG(s: string)
    requires |s| == 3
    ensures Hamming("ACG", s) ==
      (if s[0] != 'A' then 1 else 0) + (if s[1] != 'C' then 1 else 0) + (if s[2] != 'G' then 1 else 0)
  {
    var t, u := s[1..], s[2..];
    assert t[0] == s[1] && t[1..] == u && u[0] == s[2];
    assert Hamming("G", u) == (if s[2] != 'G' then 1 else 0);
    assert Hamming("CG", t) == (if s[1] != 'C' then 1 else 0) + Hamming("G", u);
  }

  lemma SampleSound(s: string)
    requires s in SampleNeighbors
    ensures Hamming("ACG", s) <= 1
  {
    SampleShape(s);
    HammingFromACG(s);
  }

  lemma SampleShape(s: string)
    requires s in SampleNeighbors
    ensures IsDna(s) && |s| == 3
    ensures (s[0] == 'A' && s[1] == 'C') || (s[0] == 'A' && s[2] == 'G') || (s[1] == 'C' && s[2] == 'G')
  {
  }

  lemma SampleComplete(s: string)
    requires IsDna(s) && |s| == 3 && Hamming("ACG", s) <= 1
    ensures s in SampleNeighbors
  {
    HammingFromACG(s);
    assert s == [s[0], s[1], s[2]];
    assert IsBase(s[0]) && IsBase(s[1]) && IsBase(s[2]);
    if s[0] != 'A' {
      assert s[1] == 'C' && s[2] == 'G';
    } else if s[1] != 'C' {
      assert s[2] == 'G';
    }
  }

  lemma SampleMember(s: string)
    ensures s in SampleNeighbors <==> IsDna(s) && |s| == 3 && Hamming("ACG", s) <= 1
  {
    if s in SampleNeighbors {
      SampleShape(s);
      SampleSound(s);
    }
    if IsDna(s) && |s| == 3 && Hamming("ACG", s) <= 1 {
      SampleComplete(s);
    }
  }

  /** The sample of the exercise: `neighbors("ACG", 1)` has exactly ten members. */
  lemma NeighborsSample()
    ensures Neighbors("ACG", 1) == SampleNeighbors
  {
    forall s
      ensures s in SampleNeighbors <==> IsDna(s) && |s| == 3 && Hamming("ACG", s) <= 1
    {
      SampleMember(s);
    }
    NeighborsEqualSet("ACG", 1, SampleNeighbors);
  }

  // ---------- the generator as the source runs it ----------

  /** The inner loop `for x in alphabet: neighborhood.add(x + text)` or the single
      `neighborhood.add(pattern[0] + text)`, for one suffix neighbour `t`. */
  method AddExtensions(pattern: string, d: int, t: string, neighborhood: set<string>)
    returns (extended: set<string>)
    requires |pattern| >= 1
    ensures extended == neighborhood + Extend(pattern, d, {t})
  {
    extended := neighborhood;
    if Hamming(pattern[1..], t) < d {
      for j := 0 to |Alphabet|
        invariant extended == neighborhood + (set x | x in Alphabet[..j] :: [x] + t)
      {
        assert Alphabet[..j + 1] == Alphabet[..j] + [Alphabet[j]];
        extended := extended + {[Alphabet[j]] + t};
      }
      assert Alphabet[..|Alphabet|] == Alphabet;
    } else {
      extended := extended + {[pattern[0]] + t};
    }
    forall s
      ensures s in extended <==> s in neighborhood + Extend(pattern, d, {t})
    {
      ExtendMember(pattern, d, {t}, s);
      if |s| >= 1 && s[1..] == t {
        assert s == [s[0]] + t;
      }
    }
  }

  /** `_ref_neighbors` returning a set (checks2.py and the frequent-words blocks). */
  method ComputeNeighbors(pattern: string, d: int) returns (neighborhood: set<string>)
    requires d == 0 || |pattern| >= 1
    ensures neighborhood == Neighbors(pattern, d)
    decreases |pattern|
  {
    if d == 0 {
      return {pattern};
    }
    if |pattern| == 1 {
      return {"A", "C", "G", "T"};
    }
    neighborhood := {};
    var suffixNeighbors := ComputeNeighbors(pattern[1..], d);
    var todo := suffixNeighbors;
    while todo != {}
      invariant todo <= suffixNeighbors
      invariant neighborhood == Extend(pattern, d, suffixNeighbors - todo)
      decreases todo
    {
      var text :| text in todo;
      ExtendUnion(pattern, d, suffixNeighbors - todo, text);
      neighborhood := AddExtensions(pattern, d, text, neighborhood);
      assert suffixNeighbors - (todo - {text}) == (suffixNeighbors - todo) + {text};
      todo := todo - {text};
    }
    assert suffixNeighbors - todo == suffixNeighbors;
  }

  /** The alphabet tuple is in Python's string order. */
  lemma LettersSorted(letters: seq<string>)
    requires letters == ["A", "C", "G", "T"]
    ensures SortedBy(letters, LexLess)
  {
    assert LexLess("A", "C") && LexLess("C", "G") && LexLess("G", "T");
    assert LexLess("A", "G") && LexLess("A", "T") && LexLess("C", "T");
  }

  /** `_ref_neighbors` of the Neighbors exercise: the same recursion over the suffix's sorted
      list, returning `sorted(neighborhood)`. */
  method SortedNeighbors(pattern: string, d: int) returns (neighbors: seq<string>)
    requires d == 0 || |pattern| >= 1
    ensures SortedBy(neighbors, LexLess)
    ensures forall s :: s in neighbors <==> s in Neighbors(pattern, d)
    ensures d == 0 ==> neighbors == [pattern]
    ensures d != 0 && |pattern| == 1 ==> neighbors == ["A", "C", "G", "T"]
    decreases |pattern|
  {
    if d == 0 {
      return [pattern];
    }
    if |pattern| == 1 {
      neighbors := ["A", "C", "G", "T"];
      LettersSorted(neighbors);
      return;
    }
    var neighborhood: set<string> := {};
    var suffixNeighbors := SortedNeighbors(pattern[1..], d);
    for i := 0 to |suffixNeighbors|
      invariant neighborhood == Extend(pattern, d, Elements(suffixNeighbors[..i]))
    {
      var text := suffixNeighbors[i];
      assert Elements(suffixNeighbors[..i + 1]) == Elements(suffixNeighbors[..i]) + {text} by {
        assert suffixNeighbors[..i + 1] == suffixNeighbors[..i] + [text];
      }
      ExtendUnion(pattern, d, Elements(suffixNeighbors[..i]), text);
      neighborhood := AddExtensions(pattern, d, text, neighborhood);
    }
    assert suffixNeighbors[..|suffixNeighbors|] == suffixNeighbors;
    assert Elements(suffixNeighbors) == Neighbors(pattern[1..], d);
    assert neighborhood == Neighbors(pattern, d);
    LexLessIsStrictTotalOrder();
    neighbors := SortSet(neighborhood, LexLess);
  }
}
