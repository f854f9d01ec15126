/** The answer normalisers: `_as_int_list` (skew answers), `_as_str_set` (motif answers) and
    `_ex7_normalize_positions` (genome-scan positions). A submission is either text or a list;
    a failed `int()` conversion or an unsupported type is `None`. */
module Answers {
  import opened Wrappers
  import opened Sorting
  import opened Text

  // ---------- _as_int_list ----------

  /** What a student may submit for an integer list: a space-separated string or a list. */
  datatype IntAnswer = IntText(text: string) | IntItems(items: seq<int>)

  /** `_as_int_list`: text is stripped, split on whitespace and converted token by token; a
      list of integers is taken as it is. `None` is the ValueError of a bad token. */
  function AsIntList(a: IntAnswer): (r: Option<seq<int>>)
    ensures a.IntItems? ==> r == Some(a.items)
    ensures a.IntText? && IsBlank(a.text) ==> r == Some([])
    ensures a.IntText? && r.Some? ==> |r.value| == |Split(a.text)|
  {
    match a
    case IntText(text) => ParseInts(Split(text))
    case IntItems(items) => Some(items)
  }

  /** Writing a list out with single spaces and reading it back gives the same list. */
  lemma AsIntListRoundTrip(xs: seq<int>)
    ensures AsIntList(IntText(JoinSpace(FormatInts(xs)))) == Some(xs)
  {
    ParseFormatAll(xs);
    SplitJoinSpace(FormatInts(xs));
  }

  // ---------- _as_str_set ----------

  /** What a student may submit for a set of k-mers. */
  datatype StrAnswer = WordsText(text: string) | WordList(items: seq<string>)

  /** The tokens `_as_str_set` upper-cases: the whitespace-separated words of a text (the
      `if t` filter drops nothing `split()` returns), or the list's items as they are. */
  function Tokens(a: StrAnswer): seq<string>
  {
    match a
    case WordsText(text) => Split(text)
    case WordList(items) => items
  }

  /** `_as_str_set`: the set of upper-cased tokens. Every submitted token is kept. */
  function AsStrSet(a: StrAnswer): (r: set<string>)
    ensures forall t :: t in r ==> IsUpper(t)
    ensures forall t :: t in Tokens(a) ==> Upper(t) in r
  {
    var tokens := Tokens(a);
    var r := set i | 0 <= i < |tokens| :: Upper(tokens[i]);
    assert forall t :: t in tokens ==> Upper(t) in r by {
      forall t | t in tokens
        ensures Upper(t) in r
      {
        var i :| 0 <= i < |tokens| && tokens[i] == t;
      }
    }
    r
  }

  /** A list answer gives exactly the upper-cased list items. */
  lemma AsStrSetList(xs: seq<string>)
    ensures AsStrSet(WordList(xs)) == set t | t in xs :: Upper(t)
  {
    forall s | s in AsStrSet(WordList(xs))
      ensures s in set t | t in xs :: Upper(t)
    {
      var i :| 0 <= i < |xs| && s == Upper(xs[i]);
      assert xs[i] in xs;
    }
  }

  /** An upper-case list answer gives exactly its items. */
  lemma AsStrSetUpperList(xs: seq<string>)
    requires forall t :: t in xs ==> IsUpper(t)
    ensures AsStrSet(WordList(xs)) == Elements(xs)
  {
    AsStrSetList(xs);
    forall t | t in xs
      ensures Upper(t) == t
    {
      UpperOfUpper(t);
    }
  }

  /** Words written out with single spaces give the same set as the list of those words. */
  lemma AsStrSetTextAsList(ws: seq<string>)
    requires forall t :: t in ws ==> IsWord(t)
    ensures AsStrSet(WordsText(JoinSpace(ws))) == AsStrSet(WordList(ws))
  {
    SplitJoinSpace(ws);
  }

  /** Text answers never contribute an empty string; a list answer keeps one. */
  lemma AsStrSetTextHasNoEmpty(text: string)
    ensures "" !in AsStrSet(WordsText(text))
  {
    var tokens := Split(text);
    forall i | 0 <= i < |tokens|
      ensures Upper(tokens[i]) != ""
    {
      assert tokens[i] in tokens;
    }
  }

  /** Token order and duplicates do not matter: two lists with the same members give the
      same set. */
  lemma AsStrSetIgnoresOrder(xs: seq<string>, ys: seq<string>)
    requires forall t :: t in xs <==> t in ys
    ensures AsStrSet(WordList(xs)) == AsStrSet(WordList(ys))
  {
    forall s | s in AsStrSet(WordList(xs))
      ensures s in AsStrSet(WordList(ys))
    {
      var i :| 0 <= i < |xs| && s == Upper(xs[i]);
      assert xs[i] in ys;
      var j :| 0 <= j < |ys| && ys[j] == xs[i];
    }
    forall s | s in AsStrSet(WordList(ys))
      ensures s in AsStrSet(WordList(xs))
    {
      var j :| 0 <= j < |ys| && s == Upper(ys[j]);
      assert ys[j] in xs;
      var i :| 0 <= i < |xs| && xs[i] == ys[j];
    }
  }

  /** Normalising a normalised answer changes nothing. */
  lemma AsStrSetIdempotent(a: StrAnswer, xs: seq<string>)
    requires forall t :: t in xs <==> t in AsStrSet(a)
    ensures AsStrSet(WordList(xs)) == AsStrSet(a)
  {
    forall s
      ensures s in AsStrSet(WordList(xs)) <==> s in AsStrSet(a)
    {
      if s in AsStrSet(WordList(xs)) {
        var i :| 0 <= i < |xs| && s == Upper(xs[i]);
        assert xs[i] in xs;
        UpperOfUpper(xs[i]);
      }
      if s in AsStrSet(a) {
        UpperOfUpper(s);
        var i :| 0 <= i < |xs| && xs[i] == s;
      }
    }
  }

  // ---------- _ex7_normalize_positions ----------

  /** What `fn("", "")` may return: a list, a string, or anything else (a TypeError). */
  datatype PositionsAnswer = PositionList(items: seq<int>) | PositionText(text: string) | OtherValue

  /** `_ex7_normalize_positions`: collect the integers (none for a blank string), then
      `sorted(set(...))`. */
  function NormalizePositions(out: PositionsAnswer): (r: Option<seq<int>>)
    ensures out.OtherValue? <==> r.None? && !out.PositionText?
    ensures r.Some? ==> SortedBy(r.value, IntLess)
    ensures out.PositionList? ==> r.Some? && forall x :: x in r.value <==> x in out.items
    ensures out.PositionText? && IsBlank(out.text) ==> r == Some([])
  {
    IntLessIsStrictTotalOrder();
    match out
    case PositionList(items) => Some(SortSet(Elements(items), IntLess))
    case PositionText(text) =>
      if IsBlank(text) then Some([])
      else (match ParseInts(Split(text))
        case Some(pos) => Some(SortSet(Elements(pos), IntLess))
        case None => None)
    case OtherValue => None
  }

  /** A string answer normalises like the list of its integers. */
  lemma NormalizeTextAsList(text: string, xs: seq<int>)
    requires ParseInts(Split(text)) == Some(xs)
    ensures NormalizePositions(PositionText(text)) == NormalizePositions(PositionList(xs))
  {
    if IsBlank(text) {
      assert Split(text) == [];
      assert xs == [];
      IntLessIsStrictTotalOrder();
      assert SortSet(Elements(xs), IntLess) == [];
    }
  }

  /** Normalising twice is normalising once. */
  lemma NormalizeIdempotent(out: PositionsAnswer)
    requires NormalizePositions(out).Some?
    ensures NormalizePositions(PositionList(NormalizePositions(out).value)) == NormalizePositions(out)
  {
    var r := NormalizePositions(out).value;
    var again := NormalizePositions(PositionList(r)).value;
    IntLessIsStrictTotalOrder();
    SortedUnique(again, r, IntLess);
  }

  /** Two lists normalise alike exactly when they hold the same integers: reordering and
      repeating positions does not change the answer. */
  lemma NormalizeSameElements(xs: seq<int>, ys: seq<int>)
    ensures NormalizePositions(PositionList(xs)) == NormalizePositions(PositionList(ys))
      <==> (forall x :: x in xs <==> x in ys)
  {
    var a := NormalizePositions(PositionList(xs)).value;
    var b := NormalizePositions(PositionList(ys)).value;
    if forall x :: x in xs <==> x in ys {
      IntLessIsStrictTotalOrder();
      SortedUnique(a, b, IntLess);
    }
  }
}
