/** DNA strings: the Hamming distance of `_ref_hamming`, the reverse complement `_ref_rc` used by
    the frequent-words scorers, and the upper-casing, invalid-base-tolerant `_ref_reverse_complement`
    of the ReverseComplement exercise. */
module Dna {
  import opened Wrappers
  import opened Text

  predicate IsBase(c: char)
  {
    c == 'A' || c == 'C' || c == 'G' || c == 'T'
  }

  /** A string over the alphabet ("A", "C", "G", "T"). */
  predicate IsDna(s: string)
  {
    forall i :: 0 <= i < |s| ==> IsBase(s[i])
  }

  /** A DNA string has no lower-case letter, and a non-empty one is a single word. */
  lemma DnaIsUpperWord(s: string)
    ensures IsDna(s) ==> IsUpper(s)
    ensures IsDna(s) && s != [] ==> IsWord(s)
  {
  }

  // ---------- Hamming distance ----------

  /** `_ref_hamming(a, b)`: the positions at which `a` and `b` differ, counted over their common
      prefix only, because `zip` stops at the shorter string. */
  function Hamming(a: string, b: string): (r: nat)
    ensures r <= |a| && r <= |b|
  {
    if a == [] || b == [] then 0
    else (if a[0] != b[0] then 1 else 0) + Hamming(a[1..], b[1..])
  }

  /** The distance is zero exactly when the common prefix agrees. */
  lemma {:induction false} HammingZero(a: string, b: string)
    ensures Hamming(a, b) == 0 <==> forall i :: 0 <= i < |a| && i < |b| ==> a[i] == b[i]
  {
    if a != [] && b != [] {
      HammingZero(a[1..], b[1..]);
      if Hamming(a, b) == 0 {
        forall i | 0 <= i < |a| && i < |b|
          ensures a[i] == b[i]
        {
          if i > 0 {
            assert a[i] == a[1..][i - 1] && b[i] == b[1..][i - 1];
          }
        }
      } else if a[0] == b[0] {
        var i :| 0 <= i < |a[1..]| && i < |b[1..]| && a[1..][i] != b[1..][i];
        assert a[i + 1] != b[i + 1];
      }
    }
  }

  lemma {:induction false} HammingSymmetric(a: string, b: string)
    ensures Hamming(a, b) == Hamming(b, a)
  {
    if a != [] && b != [] {
      HammingSymmetric(a[1..], b[1..]);
    }
  }

  // ---------- reverse complement ----------

  /** The complement table: A <-> T and C <-> G; every other character stays as it is. This is
      both `str.maketrans("ACGT", "TGCA")` and `comp.get(b, b)`. */
  function Complement(c: char): char
  {
    match c
    case 'A' => 'T'
    case 'T' => 'A'
    case 'C' => 'G'
    case 'G' => 'C'
    case _ => c
  }

  /** `s[::-1]` and `reversed(s)`. */
  function Reverse(s: string): (r: string)
    ensures |r| == |s|
    ensures forall i :: 0 <= i < |s| ==> r[i] == s[|s| - 1 - i]
  {
    if s == [] then [] else Reverse(s[1..]) + [s[0]]
  }

  /** `s.translate(str.maketrans("ACGT", "TGCA"))`. */
  function Translate(s: string): (r: string)
    ensures |r| == |s|
    ensures forall i :: 0 <= i < |s| ==> r[i] == Complement(s[i])
  {
    if s == [] then [] else [Complement(s[0])] + Translate(s[1..])
  }

  /** `_ref_rc(s)`: complement every base, then reverse. */
  function Rc(s: string): (r: string)
    ensures |r| == |s|
    ensures forall i :: 0 <= i < |s| ==> r[i] == Complement(s[|s| - 1 - i])
  {
    Reverse(Translate(s))
  }

  /** `_ref_rc` is an involution on every string, DNA or not. */
  lemma RcInvolution(s: string)
    ensures Rc(Rc(s)) == s
  {
    var t := Rc(s);
    ComplementReversedTwice(s, t, Rc(t));
  }

  lemma ComplementReversedTwice(s: string, t: string, r: string)
    requires |t| == |s| && |r| == |t|
    requires forall i :: 0 <= i < |s| ==> t[i] == Complement(s[|s| - 1 - i])
    requires forall i :: 0 <= i < |t| ==> r[i] == Complement(t[|t| - 1 - i])
    ensures r == s
  {
    forall i | 0 <= i < |s|
      ensures r[i] == s[i]
    {
      assert t[|s| - 1 - i] == Complement(s[i]);
      ComplementTwice(s[i]);
    }
  }

  lemma ComplementTwice(c: char)
    ensures Complement(Complement(c)) == c
  {
  }

  lemma RcIsDna(s: string)
    requires IsDna(s)
    ensures IsDna(Rc(s))
  {
  }

  /** `"".join(comp[b] for b in bases)`: `None` is the KeyError a non-ACGT character raises. */
  function StrictComplement(bases: string): Option<string>
  {
    if bases == [] then Some([])
    else if !IsBase(bases[0]) then None
    else match StrictComplement(bases[1..])
      case None => None
      case Some(r) => Some([Complement(bases[0])] + r)
  }

  /** The first branch fails exactly on a non-ACGT character, and when it succeeds it agrees
      with the fallback `comp.get(b, b)`. */
  lemma {:induction false} StrictComplementAgrees(bases: string)
    ensures StrictComplement(bases).Some? <==> IsDna(bases)
    ensures StrictComplement(bases).Some? ==> StrictComplement(bases).value == Translate(bases)
  {
    if bases != [] {
      StrictComplementAgrees(bases[1..]);
      if IsDna(bases[1..]) && IsBase(bases[0]) {
        forall i | 0 <= i < |bases|
          ensures IsBase(bases[i])
        {
          if i > 0 {
            assert bases[i] == bases[1..][i - 1];
          }
        }
      }
      if IsDna(bases) {
        assert IsBase(bases[0]);
        assert forall i :: 0 <= i < |bases[1..]| ==> bases[1..][i] == bases[i + 1];
      }
    }
  }

  /** `_ref_reverse_complement(pattern)`: upper-case, reverse, complement through the table,
      and on a KeyError redo it leaving invalid characters unchanged. */
  function ReverseComplement(pattern: string): (rc: string)
    ensures |rc| == |pattern|
    ensures forall i :: 0 <= i < |pattern| ==>
      rc[i] == Complement(UpperChar(pattern[|pattern| - 1 - i]))
  {
    var u := Upper(pattern);
    var bases := Reverse(u);
    StrictComplementAgrees(bases);
    ComplementOfReversed(pattern, u, bases, Translate(bases));
    match StrictComplement(bases)
    case Some(rc) => rc
    case None => Translate(bases)
  }

  lemma ComplementOfReversed(pattern: string, u: string, bases: string, t: string)
    requires |u| == |pattern| && forall i :: 0 <= i < |pattern| ==> u[i] == UpperChar(pattern[i])
    requires |bases| == |u| && forall i :: 0 <= i < |u| ==> bases[i] == u[|u| - 1 - i]
    requires |t| == |bases| && forall i :: 0 <= i < |bases| ==> t[i] == Complement(bases[i])
    ensures forall i :: 0 <= i < |pattern| ==> t[i] == Complement(UpperChar(pattern[|pattern| - 1 - i]))
  {
    forall i | 0 <= i < |pattern|
      ensures t[i] == Complement(UpperChar(pattern[|pattern| - 1 - i]))
    {
      assert bases[i] == u[|pattern| - 1 - i];
    }
  }

  /** The exercise's reference and the scorers' `_ref_rc` agree once the input is upper-cased. */
  lemma ReverseComplementIsRc(pattern: string)
    ensures ReverseComplement(pattern) == Rc(Upper(pattern))
  {
    var u := Upper(pattern);
    SameComplement(pattern, u, ReverseComplement(pattern), Rc(u));
  }

  lemma SameComplement(pattern: string, u: string, a: string, b: string)
    requires |u| == |pattern| && forall i :: 0 <= i < |pattern| ==> u[i] == UpperChar(pattern[i])
    requires |a| == |pattern| &&
      forall i :: 0 <= i < |pattern| ==> a[i] == Complement(UpperChar(pattern[|pattern| - 1 - i]))
    requires |b| == |u| && forall i :: 0 <= i < |u| ==> b[i] == Complement(u[|u| - 1 - i])
    ensures a == b
  {
    forall i | 0 <= i < |pattern|
      ensures a[i] == b[i]
    {
      assert u[|pattern| - 1 - i] == UpperChar(pattern[|pattern| - 1 - i]);
    }
  }

  lemma {:induction false} RcKeepsUpper(s: string)
    requires IsUpper(s)
    ensures IsUpper(Rc(s))
  {
    ComplementKeepsUpper(s, Rc(s));
  }

  lemma ComplementKeepsUpper(s: string, r: string)
    requires IsUpper(s)
    requires |r| == |s| && forall i :: 0 <= i < |s| ==> r[i] == Complement(s[|s| - 1 - i])
    ensures IsUpper(r)
  {
    forall i | 0 <= i < |s|
      ensures !('a' <= r[i] <= 'z')
    {
      assert !('a' <= s[|s| - 1 - i] <= 'z');
    }
  }

  /** Applying the reference twice upper-cases the input; on upper-case input it is an involution. */
  lemma ReverseComplementTwice(pattern: string)
    ensures ReverseComplement(ReverseComplement(pattern)) == Upper(pattern)
  {
    var u := Upper(pattern);
    UpperIsUpper(pattern);
    RcKeepsUpper(u);
    UpperOfUpper(Rc(u));
    ReverseComplementIsRc(pattern);
    ReverseComplementIsRc(Rc(u));
    RcInvolution(u);
  }

  /** Hidden-test input: the classic case. */
  lemma ReverseComplementClassic()
    ensures ReverseComplement("AAAACCCGGT") == "ACCGGGTTTT"
  {
    ReverseComplementCase("AAAACCCGGT", "ACCGGGTTTT");
  }

  /** Hidden-test input: lower-case bases are complemented as upper case. */
  lemma ReverseComplementLowerCase()
    ensures ReverseComplement("acgtacgt") == "ACGTACGT"
  {
    ReverseComplementCase("acgtacgt", "ACGTACGT");
  }

  /** Hidden-test inputs: invalid bases pass through unchanged; the empty string stays empty. */
  lemma ReverseComplementInvalidBases()
    ensures ReverseComplement("NNNN") == "NNNN"
    ensures ReverseComplement("") == ""
  {
    ReverseComplementCase("NNNN", "NNNN");
    ReverseComplementCase("", "");
  }

  lemma ReverseComplementCase(pattern: string, expected: string)
    requires || (pattern == "AAAACCCGGT" && expected == "ACCGGGTTTT")
             || (pattern == "acgtacgt" && expected == "ACGTACGT")
             || (pattern == "NNNN" && expected == "NNNN")
             || (pattern == "" && expected == "")
    ensures ReverseComplement(pattern) == expected
  {
    ReverseComplementAt(pattern, expected);
  }

  lemma ReverseComplementAt(pattern: string, expected: string)
    requires |expected| == |pattern|
    requires forall i :: 0 <= i < |pattern| ==> expected[i] == Complement(UpperChar(pattern[|pattern| - 1 - i]))
    ensures ReverseComplement(pattern) == expected
  {
  }
}
