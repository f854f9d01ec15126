/** The approximate most-frequent k-mer references: `_ref_frequent_words_approx` (every window
    votes for each member of its d-neighbourhood) and `_ref_frequent_words_with_rc` /
    `_ref_frequent_with_rc` (a key's score also adds the votes of its reverse complement). */
module FrequentWords {
  import opened Sorting
  import opened Text
  import opened Dna
  import opened Neighborhood
  import opened Scans

  /** `Text[i:i+k]` for a visited window. */
  function Window(text: string, k: nat, i: nat): (w: string)
    requires i < WindowCount(text, k)
    ensures |w| == k
  {
    text[i..i + k]
  }

  /** The number of the first `n` windows whose d-neighbourhood contains `p`: the value the
      count table holds for `p` after `n` iterations of the outer loop. */
  function Votes(text: string, k: nat, d: int, n: nat, p: string): (v: nat)
    requires n <= WindowCount(text, k) && (k >= 1 || d == 0)
    ensures v <= n
  {
    if n == 0 then 0
    else Votes(text, k, d, n - 1, p) + (if p in Neighbors(Window(text, k, n - 1), d) then 1 else 0)
  }

  /** `counts[p]` once every window has voted (0 for a string that is not a key). */
  function Count(text: string, k: nat, d: int, p: string): (c: nat)
    requires k >= 1 || d == 0
    ensures c <= WindowCount(text, k)
  {
    Votes(text, k, d, WindowCount(text, k), p)
  }

  /** The textbook count Count_d(Text, p): windows at Hamming distance at most d from `p`. */
  function ApproxCount(text: string, k: nat, d: int, n: nat, p: string): (v: nat)
    requires n <= WindowCount(text, k)
    ensures v <= n
  {
    if n == 0 then 0
    else ApproxCount(text, k, d, n - 1, p) + (if Hamming(Window(text, k, n - 1), p) <= d then 1 else 0)
  }

  /** On DNA text with k >= 1 and d >= 0 the votes are the textbook approximate counts. */
  lemma {:induction false} VotesAreApproxCounts(text: string, k: nat, d: int, n: nat, p: string)
    requires IsDna(text) && k >= 1 && d >= 0 && n <= WindowCount(text, k)
    requires IsDna(p) && |p| == k
    ensures Votes(text, k, d, n, p) == ApproxCount(text, k, d, n, p)
  {
    if n > 0 {
      VotesAreApproxCounts(text, k, d, n - 1, p);
      WindowIsDna(text, k, n - 1);
      VoteIsClose(Window(text, k, n - 1), d, p);
    }
  }

  /** Why the length restriction is needed: a shorter string gets no vote, yet `_ref_hamming`
      compares only the common prefix, so its textbook count can be positive. */
  lemma ShorterStringCountDiffers(text: string, p: string)
    requires text == "AAA" && p == "A"
    ensures Count(text, 3, 0, p) == 0
    ensures ApproxCount(text, 3, 0, WindowCount(text, 3), p) == 1
  {
    VotesNeedLengthK(text, 3, 0, WindowCount(text, 3), p);
    assert Window(text, 3, 0) == text;
    assert Hamming(text, p) == 0;
  }

  /** The restriction d >= 0 is needed too: with d = -1 every suffix neighbour has slack, so
      `"AC"` gets a vote from the window `"AA"` although no window is within distance -1. */
  lemma NegativeBudgetVotes(text: string, p: string)
    requires text == "AA" && p == "AC"
    ensures Count(text, 2, -1, p) == 1
    ensures ApproxCount(text, 2, -1, WindowCount(text, 2), p) == 0
  {
    assert Window(text, 2, 0) == text;
    assert Neighbors("A", -1) == {"A", "C", "G", "T"};
    assert Hamming("A", "C") == 1;
    ExtendMember(text, -1, Neighbors("A", -1), p);
    assert p[1..] == "C";
  }

  lemma WindowIsDna(text: string, k: nat, i: nat)
    requires IsDna(text) && i < WindowCount(text, k)
    ensures IsDna(Window(text, k, i))
  {
    var w := Window(text, k, i);
    forall j | 0 <= j < |w|
      ensures IsBase(w[j])
    {
      assert w[j] == text[i + j];
    }
  }

  /** A DNA window votes for a DNA string of its length exactly when they are within d. */
  lemma VoteIsClose(w: string, d: int, p: string)
    requires IsDna(w) && |w| >= 1 && d >= 0
    requires IsDna(p) && |p| == |w|
    ensures p in Neighbors(w, d) <==> Hamming(w, p) <= d
  {
    NeighborsExact(w, d);
    HammingSymmetric(w, p);
  }

  /** Only strings of length k ever receive a vote. */
  lemma {:induction false} VotesNeedLengthK(text: string, k: nat, d: int, n: nat, p: string)
    requires n <= WindowCount(text, k) && (k >= 1 || d == 0)
    requires |p| != k
    ensures Votes(text, k, d, n, p) == 0
  {
    if n > 0 {
      VotesNeedLengthK(text, k, d, n - 1, p);
      if p in Neighbors(Window(text, k, n - 1), d) {
        NeighborsLength(Window(text, k, n - 1), d, p);
      }
    }
  }

  /** When there is at least one window, some string has a positive count. */
  lemma SomeVote(text: string, k: nat, d: int)
    requires (k >= 1 || d == 0) && |text| >= k
    ensures exists p :: Count(text, k, d, p) > 0
  {
    var n := WindowCount(text, k);
    var w := Window(text, k, n - 1);
    var p :| p in Neighbors(w, d);
    assert Votes(text, k, d, n, p) == Votes(text, k, d, n - 1, p) + 1;
    assert Count(text, k, d, p) > 0;
  }

  // ---------- the count table ----------

  /** `counts.get(p, 0)` */
  function CountOf(counts: map<string, nat>, p: string): nat
  {
    if p in counts then counts[p] else 0
  }

  /** `counts` is the defaultdict after `n` windows: it holds exactly the strings with a
      positive vote, each mapped to its number of votes. */
  ghost predicate IsTally(counts: map<string, nat>, text: string, k: nat, d: int, n: nat)
    requires n <= WindowCount(text, k) && (k >= 1 || d == 0)
  {
    forall p ::
      && (p in counts <==> Votes(text, k, d, n, p) > 0)
      && CountOf(counts, p) == Votes(text, k, d, n, p)
  }

  /** `for neigh in ...: counts[neigh] += 1` on a defaultdict: every voter gains one vote and
      becomes a key. */
  method AddVotes(counts: map<string, nat>, voters: set<string>) returns (updated: map<string, nat>)
    ensures updated.Keys == counts.Keys + voters
    ensures forall p :: CountOf(updated, p) == CountOf(counts, p) + (if p in voters then 1 else 0)
  {
    updated := counts;
    var todo := voters;
    while todo != {}
      invariant todo <= voters
      invariant updated.Keys == counts.Keys + (voters - todo)
      invariant forall p :: CountOf(updated, p) == CountOf(counts, p) + (if p in voters - todo then 1 else 0)
      decreases todo
    {
      var neigh :| neigh in todo;
      updated := updated[neigh := CountOf(updated, neigh) + 1];
      todo := todo - {neigh};
    }
  }

  /** The nested loops shared by both variants: after them `counts` is the complete tally. */
  method Tally(text: string, k: nat, d: int) returns (counts: map<string, nat>)
    requires k >= 1 || d == 0
    ensures IsTally(counts, text, k, d, WindowCount(text, k))
  {
    counts := map[];
    for i := 0 to WindowCount(text, k)
      invariant IsTally(counts, text, k, d, i)
    {
      var kmer := text[i..i + k];
      var neighbors := ComputeNeighbors(kmer, d);
      counts := AddVotes(counts, neighbors);
      assert IsTally(counts, text, k, d, i + 1) by {
        forall p
          ensures p in counts <==> Votes(text, k, d, i + 1, p) > 0
          ensures CountOf(counts, p) == Votes(text, k, d, i + 1, p)
        {
          assert Votes(text, k, d, i + 1, p)
            == Votes(text, k, d, i, p) + (if p in neighbors then 1 else 0);
        }
      }
    }
  }

  /** Some window votes exactly when there is a window: the table is empty iff len(Text) < k. */
  lemma TallyEmpty(counts: map<string, nat>, text: string, k: nat, d: int)
    requires k >= 1 || d == 0
    requires IsTally(counts, text, k, d, WindowCount(text, k))
    ensures |counts| == 0 <==> |text| < k
  {
    if |text| >= k {
      SomeVote(text, k, d);
      var p :| Count(text, k, d, p) > 0;
      assert p in counts;
    }
  }

  /** The keys of `m` whose value is `top`: `[p for p, c in m.items() if c == top]`. */
  function TopKeys(m: map<string, nat>, top: nat): (r: set<string>)
    ensures r <= m.Keys
    ensures top in m.Values ==> r != {}
  {
    var r := set p | p in m && m[p] == top;
    assert forall p :: p in m && m[p] == top ==> p in r;
    r
  }

  // ---------- plain variant ----------

  /** `p` has a positive count and no string has a larger one. */
  ghost predicate IsMostFrequent(text: string, k: nat, d: int, p: string)
    requires k >= 1 || d == 0
  {
    Count(text, k, d, p) > 0 && forall q :: Count(text, k, d, q) <= Count(text, k, d, p)
  }

  /** The keys holding `max(counts.values())` are exactly the most frequent strings. */
  lemma MaxKeysAreMostFrequent(counts: map<string, nat>, text: string, k: nat, d: int, maxc: nat)
    requires k >= 1 || d == 0
    requires IsTally(counts, text, k, d, WindowCount(text, k))
    requires maxc in counts.Values && forall c :: c in counts.Values ==> c <= maxc
    ensures forall p :: p in TopKeys(counts, maxc) <==> IsMostFrequent(text, k, d, p)
  {
    var q :| q in counts && counts[q] == maxc;
    forall p
      ensures p in TopKeys(counts, maxc) <==> IsMostFrequent(text, k, d, p)
    {
      if p in TopKeys(counts, maxc) {
        forall r
          ensures Count(text, k, d, r) <= Count(text, k, d, p)
        {
          if r in counts {
            assert counts[r] in counts.Values;
          }
        }
      }
      if IsMostFrequent(text, k, d, p) {
        assert Count(text, k, d, q) <= Count(text, k, d, p);
        assert counts[p] in counts.Values;
      }
    }
  }

  /** Every most frequent string has length k. */
  lemma MostFrequentHaveLengthK(text: string, k: nat, d: int, p: string)
    requires k >= 1 || d == 0
    requires IsMostFrequent(text, k, d, p)
    ensures |p| == k
  {
    if |p| != k {
      VotesNeedLengthK(text, k, d, WindowCount(text, k), p);
    }
  }

  /** `_ref_frequent_words_approx`. Python slices with a negative k from the other end and
      recurses forever on an empty k-mer with d != 0, hence the precondition. */
  method FrequentWordsApprox(text: string, k: nat, d: int) returns (winners: seq<string>)
    requires k >= 1 || d == 0
    ensures SortedBy(winners, LexLess)
    ensures forall p :: p in winners <==> IsMostFrequent(text, k, d, p)
    ensures winners == [] <==> |text| < k
  {
    var counts := Tally(text, k, d);
    TallyEmpty(counts, text, k, d);
    if |counts| == 0 {
      return [];
    }
    var maxc := MaxOf(counts.Values);
    MaxKeysAreMostFrequent(counts, text, k, d, maxc);
    LexLessIsStrictTotalOrder();
    winners := SortSet(TopKeys(counts, maxc), LexLess);
    var q :| q in counts && counts[q] == maxc;
    assert q in winners;
  }

  // ---------- reverse-complement variant ----------

  /** `scores[p] = counts[p] + counts.get(rc(p), 0)` */
  function RcScore(text: string, k: nat, d: int, p: string): nat
    requires k >= 1 || d == 0
  {
    Count(text, k, d, p) + Count(text, k, d, Rc(p))
  }

  /** `p` is a key of the count table and no key scores higher. */
  ghost predicate IsRcWinner(text: string, k: nat, d: int, p: string)
    requires k >= 1 || d == 0
  {
    Count(text, k, d, p) > 0
    && forall q :: Count(text, k, d, q) > 0 ==> RcScore(text, k, d, q) <= RcScore(text, k, d, p)
  }

  /** The guard `k <= 0 or d < 0 or n < k` under which both RC references return []. */
  predicate RcGuard(text: string, k: int, d: int)
  {
    k <= 0 || d < 0 || |text| < k
  }

  /** `scores` holds, for every key of the tally, its reverse-complement score. */
  ghost predicate IsScoreTable(scores: map<string, nat>, counts: map<string, nat>, text: string, k: nat, d: int)
    requires k >= 1 || d == 0
  {
    && IsTally(counts, text, k, d, WindowCount(text, k))
    && scores.Keys == counts.Keys
    && forall p :: p in scores ==> scores[p] == counts[p] + CountOf(counts, Rc(p))
  }

  /** The keys holding `max(scores.values())` are exactly the reverse-complement winners. */
  lemma MaxScoresAreRcWinners(scores: map<string, nat>, counts: map<string, nat>, text: string,
                              k: nat, d: int, maxs: nat)
    requires k >= 1 || d == 0
    requires IsScoreTable(scores, counts, text, k, d)
    requires maxs in scores.Values && forall s :: s in scores.Values ==> s <= maxs
    ensures forall p :: p in TopKeys(scores, maxs) <==> IsRcWinner(text, k, d, p)
  {
    var q :| q in scores && scores[q] == maxs;
    assert scores[q] == RcScore(text, k, d, q);
    forall p
      ensures p in TopKeys(scores, maxs) <==> IsRcWinner(text, k, d, p)
    {
      if p in TopKeys(scores, maxs) {
        forall r | Count(text, k, d, r) > 0
          ensures RcScore(text, k, d, r) <= RcScore(text, k, d, p)
        {
          assert r in scores;
          assert scores[r] in scores.Values;
        }
      }
      if IsRcWinner(text, k, d, p) {
        assert RcScore(text, k, d, q) <= RcScore(text, k, d, p);
        assert p in scores;
        assert scores[p] in scores.Values;
      }
    }
  }

  /** `scores = {p: counts[p] + counts.get(_ref_rc(p), 0) for p in counts}` */
  method Scores(counts: map<string, nat>) returns (scores: map<string, nat>)
    ensures scores.Keys == counts.Keys
    ensures forall p :: p in scores ==> scores[p] == counts[p] + CountOf(counts, Rc(p))
  {
    scores := map[];
    var todo := counts.Keys;
    while todo != {}
      invariant todo <= counts.Keys
      invariant scores.Keys == counts.Keys - todo
      invariant forall p :: p in scores ==> scores[p] == counts[p] + CountOf(counts, Rc(p))
      decreases todo
    {
      var p :| p in todo;
      scores := scores[p := counts[p] + CountOf(counts, Rc(p))];
      todo := todo - {p};
    }
  }

  /** `_ref_frequent_words_with_rc` (and its copy `_ref_frequent_with_rc`). The source's second
      emptiness test `if not counts` cannot fire once the guard has passed, so it is not
      repeated here. */
  method FrequentWordsWithRc(text: string, k: int, d: int) returns (winners: seq<string>)
    ensures SortedBy(winners, LexLess)
    ensures winners == [] <==> RcGuard(text, k, d)
    ensures !RcGuard(text, k, d) ==> forall p :: p in winners <==> IsRcWinner(text, k, d, p)
  {
    LexLessIsStrictTotalOrder();
    if RcGuard(text, k, d) {
      return [];
    }
    var counts := Tally(text, k, d);
    TallyEmpty(counts, text, k, d);
    var scores := Scores(counts);
    var some :| some in counts;
    assert scores[some] in scores.Values;
    var maxs := MaxOf(scores.Values);
    MaxScoresAreRcWinners(scores, counts, text, k, d, maxs);
    winners := SortSet(TopKeys(scores, maxs), LexLess);
    var q :| q in scores && scores[q] == maxs;
    assert q in winners;
  }

  /** Winners come in reverse-complement pairs whenever the partner is a key. */
  lemma RcWinnerSymmetric(text: string, k: nat, d: int, p: string)
    requires k >= 1 || d == 0
    requires IsRcWinner(text, k, d, p) && Count(text, k, d, Rc(p)) > 0
    ensures IsRcWinner(text, k, d, Rc(p))
  {
    RcInvolution(p);
  }

  /** A string and its reverse complement always have the same score, whether or not both
      are keys; which keys win is stated by `MaxScoresAreRcWinners`. */
  lemma RcPartnerScoresEqual(text: string, k: nat, d: int, p: string)
    requires k >= 1 || d == 0
    ensures RcScore(text, k, d, Rc(p)) == RcScore(text, k, d, p)
  {
    RcInvolution(p);
  }

  /** A string that is its own reverse complement scores twice its count. */
  lemma RcPalindromeScore(text: string, k: nat, d: int, p: string)
    requires k >= 1 || d == 0
    requires Rc(p) == p
    ensures RcScore(text, k, d, p) == 2 * Count(text, k, d, p)
  {
  }

  /** On DNA every string with a vote is a DNA string of length k. */
  lemma {:induction false} VoterIsDna(text: string, k: nat, d: int, n: nat, q: string)
    requires IsDna(text) && k >= 1 && d >= 0 && n <= WindowCount(text, k)
    requires Votes(text, k, d, n, q) > 0
    ensures IsDna(q) && |q| == k
  {
    var w := Window(text, k, n - 1);
    if q in Neighbors(w, d) {
      WindowIsDna(text, k, n - 1);
      NeighborsSound(w, d, q);
    } else {
      VoterIsDna(text, k, d, n - 1, q);
    }
  }

  /** The score the docstring of `_ref_frequent_with_rc` maximises:
      Count_d(Text, p) + Count_d(Text, rc(p)), with the textbook counts. */
  function ApproxScore(text: string, k: nat, d: int, p: string): nat
  {
    ApproxCount(text, k, d, WindowCount(text, k), p) + ApproxCount(text, k, d, WindowCount(text, k), Rc(p))
  }

  /** For a string with a vote, the table's score is the docstring's score. */
  lemma ScoreIsApprox(text: string, k: nat, d: int, q: string)
    requires IsDna(text) && k >= 1 && d >= 0
    requires Count(text, k, d, q) > 0
    ensures RcScore(text, k, d, q) == ApproxScore(text, k, d, q)
  {
    var n := WindowCount(text, k);
    VoterIsDna(text, k, d, n, q);
    RcIsDna(q);
    VotesAreApproxCounts(text, k, d, n, q);
    VotesAreApproxCounts(text, k, d, n, Rc(q));
  }

  /** The docstring's promise, restricted to the keys of the count table as the code is: on
      DNA with k >= 1 and d >= 0, the reverse-complement winners are exactly the strings with
      a vote that maximise Count_d(Text, p) + Count_d(Text, rc(p)) among strings with a vote. */
  lemma RcWinnersMaximiseApproxScore(text: string, k: nat, d: int, p: string)
    requires IsDna(text) && k >= 1 && d >= 0
    ensures IsRcWinner(text, k, d, p) <==>
      Count(text, k, d, p) > 0 &&
      forall q :: Count(text, k, d, q) > 0 ==> ApproxScore(text, k, d, q) <= ApproxScore(text, k, d, p)
  {
    if Count(text, k, d, p) > 0 {
      ScoreIsApprox(text, k, d, p);
      forall q | Count(text, k, d, q) > 0
        ensures RcScore(text, k, d, q) == ApproxScore(text, k, d, q)
      {
        ScoreIsApprox(text, k, d, q);
      }
    }
  }

  // ---------- hidden-test instances ----------

  /** Every window of `text` is the same string `w`. */
  predicate UniformWindows(text: string, k: nat, w: string)
  {
    forall i :: 0 <= i < WindowCount(text, k) ==> Window(text, k, i) == w
  }

  lemma {:induction false} UniformVotes(text: string, k: nat, d: int, n: nat, w: string, p: string)
    requires n <= WindowCount(text, k) && (k >= 1 || d == 0)
    requires |w| == k && UniformWindows(text, k, w)
    ensures Votes(text, k, d, n, p) == if p in Neighbors(w, d) then n else 0
  {
    if n > 0 {
      UniformVotes(text, k, d, n - 1, w, p);
    }
  }

  /** On a text whose windows all agree, the winners are exactly that window's neighbourhood. */
  lemma UniformWinners(text: string, k: nat, d: int, w: string)
    requires (k >= 1 || d == 0) && |text| >= k
    requires |w| == k && UniformWindows(text, k, w)
    ensures forall p :: IsMostFrequent(text, k, d, p) <==> p in Neighbors(w, d)
  {
    var n := WindowCount(text, k);
    forall p
      ensures Count(text, k, d, p) == if p in Neighbors(w, d) then n else 0
    {
      UniformVotes(text, k, d, n, w, p);
    }
  }

  lemma TenAsHaveUniformWindows()
    ensures UniformWindows("AAAAAAAAAA", 3, "AAA")
  {
    forall i | 0 <= i < WindowCount("AAAAAAAAAA", 3)
      ensures Window("AAAAAAAAAA", 3, i) == "AAA"
    {
      var w := Window("AAAAAAAAAA", 3, i);
      assert w == [w[0], w[1], w[2]];
    }
  }

  /** The hidden tests `("AAAAAAAAAA", 3, 0) -> ["AAA"]` and `("AAAAAAAAAA", 3, 1) ->
      sorted(neighbors("AAA", 1))`. */
  lemma FrequentWordsOnAllAs()
    ensures forall p :: IsMostFrequent("AAAAAAAAAA", 3, 0, p) <==> p == "AAA"
    ensures forall p :: IsMostFrequent("AAAAAAAAAA", 3, 1, p) <==> p in Neighbors("AAA", 1)
  {
    TenAsHaveUniformWindows();
    UniformWinners("AAAAAAAAAA", 3, 0, "AAA");
    UniformWinners("AAAAAAAAAA", 3, 1, "AAA");
  }

  lemma AlternatingCounts(text: string, p: string)
    requires text == "ATATAT"
    ensures Count(text, 2, 0, p) == if p == "AT" then 3 else if p == "TA" then 2 else 0
  {
    assert Window(text, 2, 0) == "AT" && Window(text, 2, 2) == "AT" && Window(text, 2, 4) == "AT";
    assert Window(text, 2, 1) == "TA" && Window(text, 2, 3) == "TA";
    assert Votes(text, 2, 0, 1, p) == if p == "AT" then 1 else 0;
    assert Votes(text, 2, 0, 2, p) == if p == "AT" || p == "TA" then 1 else 0;
    assert Votes(text, 2, 0, 3, p) == if p == "AT" then 2 else if p == "TA" then 1 else 0;
    assert Votes(text, 2, 0, 4, p) == if p == "AT" || p == "TA" then 2 else 0;
  }

  lemma AlternatingRc()
    ensures Rc("AT") == "AT" && Rc("TA") == "TA"
  {
    assert Translate("AT") == "TA" && Translate("TA") == "AT";
  }

  lemma AlternatingScores(text: string)
    requires text == "ATATAT"
    ensures RcScore(text, 2, 0, "AT") == 6 && RcScore(text, 2, 0, "TA") == 4
  {
    AlternatingRc();
    AlternatingCounts(text, "AT");
    AlternatingCounts(text, "TA");
  }

  lemma AlternatingWinnerIsAT(text: string)
    requires text == "ATATAT"
    ensures IsRcWinner(text, 2, 0, "AT")
  {
    AlternatingScores(text);
    AlternatingCounts(text, "AT");
    forall q | Count(text, 2, 0, q) > 0
      ensures RcScore(text, 2, 0, q) <= 6
    {
      AlternatingCounts(text, q);
    }
  }

  lemma AlternatingWinners(text: string)
    requires text == "ATATAT"
    ensures forall p :: IsRcWinner(text, 2, 0, p) <==> p == "AT"
  {
    AlternatingWinnerIsAT(text);
    AlternatingScores(text);
    forall p | IsRcWinner(text, 2, 0, p)
      ensures p == "AT"
    {
      AlternatingCounts(text, p);
      assert RcScore(text, 2, 0, "AT") <= RcScore(text, 2, 0, p);
    }
  }

  /** The hidden test `("ATATAT", 2, 0) -> ["AT"]`: the self-complementary AT scores 3 + 3 and
      beats TA's 2 + 2. */
  lemma RcPalindromeSample()
    ensures forall p :: IsRcWinner("ATATAT", 2, 0, p) <==> p == "AT"
  {
    AlternatingWinners("ATATAT");
  }

  lemma AllAsCounts(text: string, p: string)
    requires text == "AAAA"
    ensures Count(text, 2, 0, p) == if p == "AA" then 3 else 0
  {
    assert Window(text, 2, 0) == "AA" && Window(text, 2, 1) == "AA" && Window(text, 2, 2) == "AA";
    assert UniformWindows(text, 2, "AA");
    UniformVotes(text, 2, 0, 3, "AA", p);
  }

  lemma AllAsRc()
    ensures Rc("AA") == "TT" && Rc("TT") == "AA"
  {
    assert Translate("AA") == "TT" && Translate("TT") == "AA";
  }

  lemma AllAsWinners(text: string)
    requires text == "AAAA"
    ensures forall p :: IsRcWinner(text, 2, 0, p) <==> p == "AA"
  {
    AllAsCounts(text, "AA");
    forall p
      ensures IsRcWinner(text, 2, 0, p) <==> p == "AA"
    {
      AllAsCounts(text, p);
      if p == "AA" {
        forall q | Count(text, 2, 0, q) > 0
          ensures RcScore(text, 2, 0, q) <= RcScore(text, 2, 0, p)
        {
          AllAsCounts(text, q);
        }
      }
    }
  }

  /** `("AAAA", 2, 0) -> ["AA"]`: TT scores as much as AA but has no vote of its own, so the
      code does not return it although the docstring's "all k-mers maximising" would. */
  lemma RcKeysOnlySample()
    ensures forall p :: IsRcWinner("AAAA", 2, 0, p) <==> p == "AA"
    ensures Count("AAAA", 2, 0, "TT") == 0
    ensures RcScore("AAAA", 2, 0, "TT") == RcScore("AAAA", 2, 0, "AA") == 3
  {
    AllAsWinners("AAAA");
    AllAsRc();
    AllAsCounts("AAAA", "AA");
    AllAsCounts("AAAA", "TT");
  }
}
