/** Python's `sorted(...)` applied to a set (or to the distinct keys of a dict), and `max(...)`
    of a non-empty collection of integers. Both are library calls in the source; they are
    modelled here once, by what they return. */
module Sorting {

  /** `less` is a strict total order: irreflexive, transitive and total on distinct values. */
  ghost predicate StrictTotalOrder<T(!new)>(less: (T, T) -> bool)
  {
    && (forall a :: !less(a, a))
    && (forall a, b, c :: less(a, b) && less(b, c) ==> less(a, c))
    && (forall a, b :: a != b ==> less(a, b) || less(b, a))
  }

  /** Every element is strictly below every later one; in particular there are no duplicates. */
  predicate SortedBy<T>(s: seq<T>, less: (T, T) -> bool)
  {
    forall i, j :: 0 <= i < j < |s| ==> less(s[i], s[j])
  }

  /** `set(s)`: the distinct elements of a list. */
  function Elements<T>(s: seq<T>): set<T>
  {
    set x | x in s
  }

  predicate IsLeast<T>(m: T, s: set<T>, less: (T, T) -> bool)
  {
    m in s && forall x :: x in s && x != m ==> less(m, x)
  }

  lemma {:induction false} LeastExists<T(!new)>(s: set<T>, less: (T, T) -> bool)
    requires s != {} && StrictTotalOrder(less)
    ensures exists m :: IsLeast(m, s, less)
    decreases |s|
  {
    var x :| x in s;
    if s == {x} {
      assert IsLeast(x, s, less);
    } else {
      LeastExists(s - {x}, less);
      var m :| IsLeast(m, s - {x}, less);
      if less(m, x) {
        assert IsLeast(m, s, less);
      } else {
        assert IsLeast(x, s, less);
      }
    }
  }

  /** `sorted(s)`: the elements of the finite set `s`, in strictly increasing order. */
  function SortSet<T(!new)>(s: set<T>, less: (T, T) -> bool): (r: seq<T>)
    requires StrictTotalOrder(less)
    ensures SortedBy(r, less)
    ensures forall x :: x in r <==> x in s
    ensures |r| == |s|
    decreases |s|
  {
    if s == {} then []
    else
      LeastExists(s, less);
      var m :| IsLeast(m, s, less);
      [m] + SortSet(s - {m}, less)
  }

  lemma HeadIsLeast<T>(a: seq<T>, less: (T, T) -> bool)
    requires SortedBy(a, less) && a != []
    ensures forall x :: x in a && x != a[0] ==> less(a[0], x)
  {
    forall x | x in a && x != a[0]
      ensures less(a[0], x)
    {
      var i :| 0 <= i < |a| && a[i] == x;
    }
  }

  /** A strictly sorted sequence is determined by its elements. */
  lemma {:induction false} SortedUnique<T(!new)>(a: seq<T>, b: seq<T>, less: (T, T) -> bool)
    requires StrictTotalOrder(less)
    requires SortedBy(a, less) && SortedBy(b, less)
    requires forall x :: x in a <==> x in b
    ensures a == b
    decreases |a|
  {
    if a != [] {
      assert a[0] in b;
    }
    if b != [] {
      assert b[0] in a;
    }
    if a != [] && b != [] {
      HeadIsLeast(a, less);
      HeadIsLeast(b, less);
      assert a[0] in b && b[0] in a;
      assert a[0] == b[0];
      forall x
        ensures x in a[1..] <==> x in b[1..]
      {
        if x in a[1..] {
          var j :| 0 <= j < |a[1..]| && a[1..][j] == x;
          assert less(a[0], a[j + 1]);
          assert x in a && x in b;
          var i :| 0 <= i < |b| && b[i] == x;
          assert i != 0;
          assert b[1..][i - 1] == x;
        }
        if x in b[1..] {
          var j :| 0 <= j < |b[1..]| && b[1..][j] == x;
          assert less(b[0], b[j + 1]);
          assert x in b && x in a;
          var i :| 0 <= i < |a| && a[i] == x;
          assert i != 0;
          assert a[1..][i - 1] == x;
        }
      }
      SortedUnique(a[1..], b[1..], less);
      assert a == [a[0]] + a[1..];
      assert b == [b[0]] + b[1..];
    }
  }

  predicate IntLess(a: int, b: int)
  {
    a < b
  }

  lemma IntLessIsStrictTotalOrder()
    ensures StrictTotalOrder(IntLess)
  {
  }

  /** `max(vs)` for a non-empty collection of integers: the last element of its sorted set. */
  function MaxOf(vs: set<int>): (mx: int)
    requires vs != {}
    ensures mx in vs
    ensures forall v :: v in vs ==> v <= mx
  {
    IntLessIsStrictTotalOrder();
    var s := SortSet(vs, IntLess);
    LastIsGreatest(s);
    s[|s| - 1]
  }

  lemma LastIsGreatest(s: seq<int>)
    requires s != [] && SortedBy(s, IntLess)
    ensures forall v :: v in s ==> v <= s[|s| - 1]
  {
    forall v | v in s
      ensures v <= s[|s| - 1]
    {
      var i :| 0 <= i < |s| && s[i] == v;
      if i < |s| - 1 {
        assert IntLess(s[i], s[|s| - 1]);
      }
    }
  }
}
