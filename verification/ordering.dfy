/** Strict total orders, Python's lexicographic comparison of sequences, and
    sorting into a duplicate-free ascending sequence (what `sorted(set(...))`,
    `sort=True` group keys and category lists produce). */
module Ordering {

  /** `lt` is irreflexive, transitive and relates any two distinct values. */
  ghost predicate StrictTotalOrder<T(!new)>(lt: (T, T) -> bool) {
    && (forall x :: !lt(x, x))
    && (forall x, y, z :: lt(x, y) && lt(y, z) ==> lt(x, z))
    && (forall x, y :: x != y ==> lt(x, y) || lt(y, x))
  }

  /** Python's comparison of two sequences (strings, tuples): the first
      differing element decides, and a proper prefix is smaller. */
  predicate LexLt<T(==)>(a: seq<T>, b: seq<T>, lt: (T, T) -> bool)
    decreases |a|
  {
    if |a| == 0 then |b| > 0
    else if |b| == 0 then false
    else if a[0] == b[0] then LexLt(a[1..], b[1..], lt)
    else lt(a[0], b[0])
  }

  lemma {:induction false} LexIrreflexive<T(!new)>(a: seq<T>, lt: (T, T) -> bool)
    requires StrictTotalOrder(lt)
    ensures !LexLt(a, a, lt)
    decreases |a|
  {
    if |a| > 0 {
      LexIrreflexive(a[1..], lt);
    }
  }

  lemma {:induction false} LexTransitive<T(!new)>(a: seq<T>, b: seq<T>, c: seq<T>, lt: (T, T) -> bool)
    requires StrictTotalOrder(lt)
    requires LexLt(a, b, lt) && LexLt(b, c, lt)
    ensures LexLt(a, c, lt)
    decreases |a|
  {
    if |a| > 0 && a[0] == b[0] && b[0] == c[0] {
      LexTransitive(a[1..], b[1..], c[1..], lt);
    }
  }

  lemma {:induction false} LexTrichotomy<T(!new)>(a: seq<T>, b: seq<T>, lt: (T, T) -> bool)
    requires StrictTotalOrder(lt)
    requires a != b
    ensures LexLt(a, b, lt) || LexLt(b, a, lt)
    decreases |a|
  {
    if |a| > 0 && |b| > 0 && a[0] == b[0] {
      assert a == [a[0]] + a[1..] && b == [b[0]] + b[1..];
      LexTrichotomy(a[1..], b[1..], lt);
    }
  }

  /** Lexicographic order over a strict total order is a strict total order. */
  lemma LexIsStrictTotal<T(!new)>(lt: (T, T) -> bool)
    requires StrictTotalOrder(lt)
    ensures StrictTotalOrder((a: seq<T>, b: seq<T>) => LexLt(a, b, lt))
  {
    forall a: seq<T> {
      LexIrreflexive(a, lt);
    }
    forall a: seq<T>, b: seq<T>, c: seq<T> | LexLt(a, b, lt) && LexLt(b, c, lt) {
      LexTransitive(a, b, c, lt);
    }
    forall a: seq<T>, b: seq<T> | a != b {
      LexTrichotomy(a, b, lt);
    }
  }

  predicate IntLt(a: int, b: int) {
    a < b
  }

  predicate CharLt(a: char, b: char) {
    a < b
  }

  /** Python's `<` on `str`: code point by code point. */
  predicate StrLt(a: string, b: string) {
    LexLt(a, b, CharLt)
  }

  lemma IntLtIsStrictTotal()
    ensures StrictTotalOrder(IntLt)
  {
  }

  lemma StrLtIsStrictTotal()
    ensures StrictTotalOrder(StrLt)
  {
    assert StrictTotalOrder(CharLt);
    forall a: string {
      LexIrreflexive(a, CharLt);
    }
    forall a: string, b: string, c: string | StrLt(a, b) && StrLt(b, c) {
      LexTransitive(a, b, c, CharLt);
    }
    forall a: string, b: string | a != b {
      LexTrichotomy(a, b, CharLt);
    }
  }

  /** Every element is `lt`-smaller than every later element: ascending and
      free of duplicates. */
  ghost predicate StrictlySorted<T>(s: seq<T>, lt: (T, T) -> bool) {
    forall i, j :: 0 <= i < j < |s| ==> lt(s[i], s[j])
  }

  /** Adds `x` to an ascending duplicate-free sequence, keeping it so. */
  function InsertSorted<T(==, !new)>(x: T, s: seq<T>, lt: (T, T) -> bool): (r: seq<T>)
    requires StrictTotalOrder(lt)
    requires StrictlySorted(s, lt)
    ensures StrictlySorted(r, lt)
    ensures forall y :: y in r <==> y == x || y in s
    ensures |r| <= |s| + 1
    decreases |s|
  {
    if |s| == 0 then [x]
    else if x == s[0] then s
    else if lt(x, s[0]) then [x] + s
    else
      var rest := InsertSorted(x, s[1..], lt);
      assert forall y :: y in rest ==> lt(s[0], y);
      [s[0]] + rest
  }

  /** The distinct elements of `xs` in ascending order: `sorted(set(xs))`. */
  function SortDistinct<T(==, !new)>(xs: seq<T>, lt: (T, T) -> bool): (r: seq<T>)
    requires StrictTotalOrder(lt)
    ensures StrictlySorted(r, lt)
    ensures forall y :: y in r <==> y in xs
    ensures |r| <= |xs|
  {
    if |xs| == 0 then []
    else InsertSorted(xs[0], SortDistinct(xs[1..], lt), lt)
  }

  lemma HeadIsMember<T>(s: seq<T>)
    ensures |s| > 0 ==> s[0] in s
  {
  }

  /** The first element of a strictly sorted sequence is its least element. */
  lemma SortedHeadIsLeast<T(!new)>(s: seq<T>, lt: (T, T) -> bool)
    requires StrictlySorted(s, lt)
    requires |s| > 0
    ensures forall y :: y in s ==> y == s[0] || lt(s[0], y)
  {
  }

  /** Two ascending duplicate-free sequences with the same elements are equal:
      the sorted form of a set is unique. */
  lemma {:induction false} SortedUnique<T(!new)>(a: seq<T>, b: seq<T>, lt: (T, T) -> bool)
    requires StrictTotalOrder(lt)
    requires StrictlySorted(a, lt) && StrictlySorted(b, lt)
    requires forall y :: y in a <==> y in b
    ensures a == b
    decreases |a|
  {
    if |a| > 0 {
      assert b[0] == a[0] by {
        SortedHeadIsLeast(a, lt);
        assert a[0] in a && a[0] in b;
        SortedHeadIsLeast(b, lt);
        assert a[0] in b && b[0] in a;
      }
      forall y
        ensures y in a[1..] <==> y in b[1..]
      {
        if y in a[1..] {
          var i :| 1 <= i < |a| && a[i] == y;
          assert lt(a[0], y);
          assert y in a;
          assert y in b;
          var k :| 0 <= k < |b| && b[k] == y;
          assert k != 0;
          assert b[1..][k - 1] == y;
        }
        if y in b[1..] {
          var i :| 1 <= i < |b| && b[i] == y;
          assert lt(b[0], y);
          assert y in b;
          assert y in a;
          var k :| 0 <= k < |a| && a[k] == y;
          assert k != 0;
          assert a[1..][k - 1] == y;
        }
      }
      SortedUnique(a[1..], b[1..], lt);
      assert a == [a[0]] + a[1..] && b == [b[0]] + b[1..];
    } else {
      HeadIsMember(b);
    }
  }
  /** No element is `lt`-smaller than an earlier one: ascending, repeats allowed. */
  ghost predicate Sorted<T>(s: seq<T>, lt: (T, T) -> bool) {
    forall i, j :: 0 <= i < j < |s| ==> !lt(s[j], s[i])
  }

  /** Places `x` before the first element that is not smaller than it. */
  function Insert<T>(x: T, s: seq<T>, lt: (T, T) -> bool): (r: seq<T>)
    ensures multiset(r) == multiset(s) + multiset{x}
  {
    if |s| == 0 || !lt(s[0], x) then [x] + s
    else
      assert s == [s[0]] + s[1..];
      [s[0]] + Insert(x, s[1..], lt)
  }

  lemma PrependKeepsSorted<T(!new)>(x: T, s: seq<T>, lt: (T, T) -> bool)
    requires Sorted(s, lt)
    requires forall y :: y in s ==> !lt(y, x)
    ensures Sorted([x] + s, lt)
  {
    var r := [x] + s;
    forall i, j | 0 <= i < j < |r| ensures !lt(r[j], r[i]) {
      assert r[j] == s[j - 1] && r[j] in s;
      if i > 0 {
        assert r[i] == s[i - 1];
      }
    }
  }

  lemma {:induction false} InsertKeepsSorted<T(!new)>(x: T, s: seq<T>, lt: (T, T) -> bool)
    requires StrictTotalOrder(lt)
    requires Sorted(s, lt)
    ensures Sorted(Insert(x, s, lt), lt)
    decreases |s|
  {
    if |s| == 0 || !lt(s[0], x) {
      forall y | y in s ensures !lt(y, x) {
        var j :| 0 <= j < |s| && s[j] == y;
        assert y == s[0] || lt(s[0], y);
      }
      PrependKeepsSorted(x, s, lt);
    } else {
      var rest := Insert(x, s[1..], lt);
      assert s == [s[0]] + s[1..];
      assert Sorted(s[1..], lt) by {
        forall i, j | 0 <= i < j < |s[1..]| ensures !lt(s[1..][j], s[1..][i]) {
          assert s[1..][i] == s[i + 1] && s[1..][j] == s[j + 1];
        }
      }
      InsertKeepsSorted(x, s[1..], lt);
      forall y | y in rest ensures !lt(y, s[0]) {
        assert y in multiset(rest);
        if y != x {
          assert y in multiset(s[1..]);
          var k :| 0 <= k < |s[1..]| && s[1..][k] == y;
          assert s[k + 1] == y;
        }
      }
      PrependKeepsSorted(s[0], rest, lt);
    }
  }

  /** Insertion sort: Python's `sorted(xs)` for an order without ties between
      distinct values. */
  function Sort<T(!new)>(xs: seq<T>, lt: (T, T) -> bool): (r: seq<T>)
    requires StrictTotalOrder(lt)
    ensures multiset(r) == multiset(xs)
    ensures Sorted(r, lt)
  {
    if |xs| == 0 then []
    else
      assert xs == [xs[0]] + xs[1..];
      var rest := Sort(xs[1..], lt);
      InsertKeepsSorted(xs[0], rest, lt);
      Insert(xs[0], rest, lt)
  }
}
