/** The string primitives the checkers lean on: Python's ordering of `str`, ASCII `str.upper`,
    `str.split()` with no separator, `" ".join`, and `int(token)` / `str(n)` on plain decimals. */
module Text {
  import opened Wrappers
  import opened Sorting

  // ---------- ordering of str ----------

  /** Python's `a < b` on `str`: the first differing code point decides; a proper prefix is smaller. */
  predicate LexLess(a: string, b: string)
    decreases |a|
  {
    if a == [] then b != []
    else if b == [] then false
    else a[0] < b[0] || (a[0] == b[0] && LexLess(a[1..], b[1..]))
  }

  lemma {:induction false} LexIrreflexive(a: string)
    ensures !LexLess(a, a)
    decreases |a|
  {
    if a != [] {
      LexIrreflexive(a[1..]);
    }
  }

  lemma {:induction false} LexTransitive(a: string, b: string, c: string)
    requires LexLess(a, b) && LexLess(b, c)
    ensures LexLess(a, c)
    decreases |a|
  {
    if a != [] && a[0] == b[0] && b[0] == c[0] {
      LexTransitive(a[1..], b[1..], c[1..]);
    }
  }

  lemma {:induction false} LexTotal(a: string, b: string)
    requires a != b
    ensures LexLess(a, b) || LexLess(b, a)
    decreases |a|
  {
    if a != [] && b != [] && a[0] == b[0] {
      assert a == [a[0]] + a[1..] && b == [b[0]] + b[1..];
      LexTotal(a[1..], b[1..]);
    }
  }

  /** `sorted(...)` on strings is therefore well defined. */
  lemma LexLessIsStrictTotalOrder()
    ensures StrictTotalOrder(LexLess)
  {
    forall a: string
      ensures !LexLess(a, a)
    {
      LexIrreflexive(a);
    }
    forall a: string, b: string, c: string | LexLess(a, b) && LexLess(b, c)
      ensures LexLess(a, c)
    {
      LexTransitive(a, b, c);
    }
    forall a: string, b: string | a != b
      ensures LexLess(a, b) || LexLess(b, a)
    {
      LexTotal(a, b);
    }
  }

  // ---------- str.upper on ASCII ----------

  function UpperChar(c: char): char
  {
    if 'a' <= c <= 'z' then (c as int - 32) as char else c
  }

  /** `s.upper()`, restricted to the ASCII letters. */
  function Upper(s: string): (r: string)
    ensures |r| == |s|
    ensures forall i :: 0 <= i < |s| ==> r[i] == UpperChar(s[i])
  {
    if s == [] then [] else [UpperChar(s[0])] + Upper(s[1..])
  }

  /** No ASCII lower-case letter is left. */
  predicate IsUpper(s: string)
  {
    forall i :: 0 <= i < |s| ==> !('a' <= s[i] <= 'z')
  }

  lemma UpperIsUpper(s: string)
    ensures IsUpper(Upper(s))
    ensures Upper(Upper(s)) == Upper(s)
  {
  }

  lemma UpperOfUpper(s: string)
    requires IsUpper(s)
    ensures Upper(s) == s
  {
  }

  // ---------- str.split() and " ".join ----------

  /** The characters `str.isspace()` accepts. */
  predicate IsSpace(c: char)
  {
    var n := c as int;
    (9 <= n <= 13) || (28 <= n <= 32) || n == 0x85 || n == 0xA0 || n == 0x1680
    || (0x2000 <= n <= 0x200A) || n == 0x2028 || n == 0x2029 || n == 0x202F
    || n == 0x205F || n == 0x3000
  }

  /** A token `split()` can return: non-empty, without whitespace. */
  predicate IsWord(t: string)
  {
    t != [] && forall i :: 0 <= i < |t| ==> !IsSpace(t[i])
  }

  predicate IsBlank(s: string)
  {
    forall i :: 0 <= i < |s| ==> IsSpace(s[i])
  }

  /** Length of the leading run of non-whitespace characters. */
  function WordLength(s: string): (n: nat)
    ensures n <= |s|
    ensures forall i :: 0 <= i < n ==> !IsSpace(s[i])
    ensures n < |s| ==> IsSpace(s[n])
  {
    if s == [] || IsSpace(s[0]) then 0 else 1 + WordLength(s[1..])
  }

  /** `s.split()`: the maximal runs of non-whitespace characters, left to right. */
  function Split(s: string): (ts: seq<string>)
    ensures forall t :: t in ts ==> IsWord(t)
    ensures ts == [] <==> IsBlank(s)
    decreases |s|
  {
    if s == [] then []
    else if IsSpace(s[0]) then
      var ts := Split(s[1..]);
      assert IsBlank(s[1..]) ==> IsBlank(s) by {
        if IsBlank(s[1..]) {
          forall i | 0 <= i < |s|
            ensures IsSpace(s[i])
          {
            if i > 0 {
              assert s[i] == s[1..][i - 1];
            }
          }
        }
      }
      ts
    else
      var n := WordLength(s);
      [s[..n]] + Split(s[n..])
  }

  /** `" ".join(ts)`. */
  function JoinSpace(ts: seq<string>): string
  {
    if ts == [] then []
    else if |ts| == 1 then ts[0]
    else ts[0] + " " + JoinSpace(ts[1..])
  }

  lemma {:induction false} WordLengthOfWord(t: string, rest: string)
    requires IsWord(t)
    requires rest == [] || IsSpace(rest[0])
    ensures WordLength(t + rest) == |t|
    decreases |t|
  {
    if |t| > 1 {
      assert (t + rest)[1..] == t[1..] + rest;
      WordLengthOfWord(t[1..], rest);
    } else {
      assert (t + rest)[1..] == rest;
    }
  }

  /** Joining words with single spaces and splitting again gives the words back. */
  lemma {:induction false} SplitJoinSpace(ts: seq<string>)
    requires forall t :: t in ts ==> IsWord(t)
    ensures Split(JoinSpace(ts)) == ts
    decreases |ts|
  {
    if |ts| == 1 {
      WordLengthOfWord(ts[0], []);
      assert ts[0][..|ts[0]|] == ts[0];
      assert ts[0][|ts[0]|..] == [];
    } else if |ts| > 1 {
      var rest := " " + JoinSpace(ts[1..]);
      var s := ts[0] + rest;
      assert JoinSpace(ts) == s;
      WordLengthOfWord(ts[0], rest);
      assert s[..|ts[0]|] == ts[0];
      assert s[|ts[0]|..] == rest;
      assert rest[1..] == JoinSpace(ts[1..]);
      SplitJoinSpace(ts[1..]);
      assert ts == [ts[0]] + ts[1..];
    }
  }

  // ---------- int(token) and str(n) on plain decimals ----------

  predicate IsDigit(c: char)
  {
    '0' <= c <= '9'
  }

  predicate AllDigits(s: string)
  {
    forall i :: 0 <= i < |s| ==> IsDigit(s[i])
  }

  function DigitsValue(s: string): nat
    requires AllDigits(s)
    decreases |s|
  {
    if s == [] then 0 else DigitsValue(s[..|s| - 1]) * 10 + (s[|s| - 1] as int - '0' as int)
  }

  /** `int(tok)` for an optional sign followed by ASCII digits; anything else is a ValueError.
      Only a non-empty token whose characters after the first are digits is accepted, and the
      value's sign follows the sign character. */
  function ParseInt(tok: string): (r: Option<int>)
    ensures r.Some? ==> tok != [] && AllDigits(tok[1..])
    ensures r.Some? && r.value < 0 ==> tok[0] == '-'
    ensures r.Some? && tok[0] == '-' ==> r.value <= 0
  {
    if |tok| > 0 && (tok[0] == '+' || tok[0] == '-') then
      var digits := tok[1..];
      if digits != [] && AllDigits(digits) then
        var v: int := if tok[0] == '-' then 0 - DigitsValue(digits) as int else DigitsValue(digits);
        Some(v)
      else None
    else if tok != [] && AllDigits(tok) then Some(DigitsValue(tok))
    else None
  }

  /** `[int(t) for t in toks]`, failing as a whole on the first bad token. */
  function ParseInts(toks: seq<string>): (r: Option<seq<int>>)
    ensures r.Some? ==> |r.value| == |toks|
  {
    if toks == [] then Some([])
    else match (ParseInt(toks[0]), ParseInts(toks[1..]))
      case (Some(x), Some(xs)) => Some([x] + xs)
      case _ => None
  }

  function FormatNat(n: nat): (s: string)
    ensures s != [] && AllDigits(s)
  {
    if n < 10 then [('0' as int + n) as char]
    else FormatNat(n / 10) + [('0' as int + n % 10) as char]
  }

  /** `str(n)`. */
  function FormatInt(n: int): string
  {
    if n < 0 then "-" + FormatNat(-n) else FormatNat(n)
  }

  lemma {:induction false} DigitsOfFormat(n: nat)
    ensures DigitsValue(FormatNat(n)) == n
  {
    if n >= 10 {
      var s := FormatNat(n);
      assert s[..|s| - 1] == FormatNat(n / 10);
      DigitsOfFormat(n / 10);
    }
  }

  /** `int(str(n)) == n`. */
  lemma ParseFormat(n: int)
    ensures IsWord(FormatInt(n))
    ensures ParseInt(FormatInt(n)) == Some(n)
  {
    var s := FormatInt(n);
    if n < 0 {
      assert s[1..] == FormatNat(-n);
      DigitsOfFormat(-n);
    } else {
      DigitsOfFormat(n);
    }
  }

  /** `list(map(str, xs))`. */
  function FormatInts(xs: seq<int>): (toks: seq<string>)
    ensures |toks| == |xs|
  {
    if xs == [] then [] else [FormatInt(xs[0])] + FormatInts(xs[1..])
  }

  /** `[int(t) for t in " ".join(map(str, xs)).split()] == xs`. */
  lemma {:induction false} ParseFormatAll(xs: seq<int>)
    ensures forall t :: t in FormatInts(xs) ==> IsWord(t)
    ensures ParseInts(FormatInts(xs)) == Some(xs)
    decreases |xs|
  {
    if xs != [] {
      ParseFormat(xs[0]);
      ParseFormatAll(xs[1..]);
      assert xs == [xs[0]] + xs[1..];
    }
  }
}
