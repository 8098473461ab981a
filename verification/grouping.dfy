/** `groupby(keys)[col].mean()` over observed keys, and the stable descending
    sort of `sort_values(ascending=False, kind="mergesort")`. */
module Grouping {
  import opened Ordering
  import opened Sequences
  import opened Tables

  /** A group key with a number: an observation before aggregation, a group's
      mean (or count) after it. */
  datatype Entry = Entry(key: seq<Cell>, value: real)

  function Keys(s: seq<Entry>): (r: seq<seq<Cell>>)
    ensures |r| == |s|
    ensures forall i :: 0 <= i < |s| ==> r[i] == s[i].key
  {
    if |s| == 0 then [] else [s[0].key] + Keys(s[1..])
  }

  function Sum(vs: seq<real>): real {
    if |vs| == 0 then 0.0 else vs[0] + Sum(vs[1..])
  }

  /** The arithmetic mean; pandas' `mean` after `dropna`. */
  function Mean(vs: seq<real>): real
    requires |vs| > 0
  {
    Sum(vs) / (|vs| as real)
  }

  function MinOf(vs: seq<real>): (m: real)
    requires |vs| > 0
    ensures m in vs
    ensures forall v :: v in vs ==> m <= v
  {
    if |vs| == 1 then vs[0]
    else
      var rest := MinOf(vs[1..]);
      assert forall v :: v in vs ==> v == vs[0] || v in vs[1..];
      if vs[0] <= rest then vs[0] else rest
  }

  function MaxOf(vs: seq<real>): (m: real)
    requires |vs| > 0
    ensures m in vs
    ensures forall v :: v in vs ==> v <= m
  {
    if |vs| == 1 then vs[0]
    else
      var rest := MaxOf(vs[1..]);
      assert forall v :: v in vs ==> v == vs[0] || v in vs[1..];
      if vs[0] >= rest then vs[0] else rest
  }

  lemma {:induction false} SumBounds(vs: seq<real>, lo: real, hi: real)
    requires forall v :: v in vs ==> lo <= v <= hi
    ensures (|vs| as real) * lo <= Sum(vs) <= (|vs| as real) * hi
  {
    if |vs| > 0 {
      var rest := vs[1..];
      assert vs[0] in vs;
      assert forall v :: v in rest ==> v in vs;
      SumBounds(rest, lo, hi);
      assert Sum(vs) == vs[0] + Sum(rest);
      OneMore(|vs| as real, |rest| as real, lo);
      OneMore(|vs| as real, |rest| as real, hi);
    }
  }

  lemma OneMore(n: real, k: real, x: real)
    requires n == k + 1.0
    ensures n * x == k * x + x
  {
  }

  lemma ScaleCancel(n: real, a: real, b: real)
    requires n > 0.0
    requires n * a <= n * b
    ensures a <= b
  {
  }

  lemma QuotientBounds(total: real, n: real, lo: real, hi: real)
    requires n > 0.0
    requires n * lo <= total <= n * hi
    ensures lo <= total / n <= hi
  {
    var m := total / n;
    assert n * m == total;
    ScaleCancel(n, lo, m);
    ScaleCancel(n, m, hi);
  }

  /** A mean lies between the smallest and the largest value it averages. */
  lemma {:induction false} MeanBetweenMinAndMax(vs: seq<real>)
    requires |vs| > 0
    ensures MinOf(vs) <= Mean(vs) <= MaxOf(vs)
  {
    var lo, hi := MinOf(vs), MaxOf(vs);
    var n := |vs| as real;
    SumBounds(vs, lo, hi);
    QuotientBounds(Sum(vs), n, lo, hi);
    assert Mean(vs) == Sum(vs) / n;
  }

  /** The values observed under key `k`, in order. */
  function ValuesWithKey(obs: seq<Entry>, k: seq<Cell>): (vs: seq<real>)
    ensures |vs| <= |obs|
    ensures forall v :: v in vs <==> Entry(k, v) in obs
  {
    if |obs| == 0 then []
    else
      var rest := ValuesWithKey(obs[1..], k);
      assert forall e :: e in obs <==> e == obs[0] || e in obs[1..];
      if obs[0].key == k then [obs[0].value] + rest else rest
  }

  lemma KeyHasValues(obs: seq<Entry>, k: seq<Cell>)
    requires k in Keys(obs)
    ensures |ValuesWithKey(obs, k)| > 0
  {
    var i :| 0 <= i < |obs| && Keys(obs)[i] == k;
    assert obs[i] == Entry(k, obs[i].value);
    assert obs[i].value in ValuesWithKey(obs, k);
  }

  /** Group keys strictly ascending: each key once, in sorted order. */
  ghost predicate KeysAscending(s: seq<Entry>) {
    forall i, j :: 0 <= i < j < |s| ==> KeyLt(s[i].key, s[j].key)
  }

  function MeansFor(obs: seq<Entry>, ks: seq<seq<Cell>>): (r: seq<Entry>)
    requires forall k :: k in ks ==> k in Keys(obs)
    ensures Keys(r) == ks
    ensures forall g :: g in r ==>
              |ValuesWithKey(obs, g.key)| > 0 && g.value == Mean(ValuesWithKey(obs, g.key))
  {
    if |ks| == 0 then []
    else
      KeyHasValues(obs, ks[0]);
      var rest := MeansFor(obs, ks[1..]);
      assert Keys([Entry(ks[0], Mean(ValuesWithKey(obs, ks[0])))] + rest) == [ks[0]] + Keys(rest);
      [Entry(ks[0], Mean(ValuesWithKey(obs, ks[0])))] + rest
  }

  /** `groupby(key, sort=True).mean()`: one entry per distinct observed key, in
      ascending key order, holding the mean of that key's values. */
  function GroupMean(obs: seq<Entry>): (r: seq<Entry>)
    ensures |r| <= |obs|
    ensures KeysAscending(r)
    ensures forall k :: k in Keys(r) <==> k in Keys(obs)
    ensures forall g :: g in r ==>
              |ValuesWithKey(obs, g.key)| > 0 && g.value == Mean(ValuesWithKey(obs, g.key))
  {
    KeyLtIsStrictTotal();
    var ks := SortDistinct(Keys(obs), KeyLt);
    var r := MeansFor(obs, ks);
    assert Keys(r) == ks;
    r
  }

  /** Every group mean lies between the smallest and the largest value of its
      group, so a mean of prevalences is itself within their range. */
  lemma GroupMeanBounded(obs: seq<Entry>)
    ensures forall g :: g in GroupMean(obs) ==>
              MinOf(ValuesWithKey(obs, g.key)) <= g.value <= MaxOf(ValuesWithKey(obs, g.key))
  {
    forall g | g in GroupMean(obs)
      ensures MinOf(ValuesWithKey(obs, g.key)) <= g.value <= MaxOf(ValuesWithKey(obs, g.key))
    {
      MeanBetweenMinAndMax(ValuesWithKey(obs, g.key));
    }
  }

  ghost predicate NonIncreasing(s: seq<Entry>) {
    forall i, j :: 0 <= i < j < |s| ==> s[i].value >= s[j].value
  }

  /** Entries with equal values appear in ascending key order. */
  ghost predicate TiesInKeyOrder(s: seq<Entry>) {
    forall i, j :: 0 <= i < j < |s| && s[i].value == s[j].value ==> KeyLt(s[i].key, s[j].key)
  }

  /** Places `e` before the first entry whose value is not larger: behind every
      strictly larger entry and in front of every equal one. */
  function InsertDesc(e: Entry, s: seq<Entry>): (r: seq<Entry>)
    ensures multiset(r) == multiset(s) + multiset{e}
  {
    if |s| == 0 || s[0].value <= e.value then
      [e] + s
    else
      assert s == [s[0]] + s[1..];
      [s[0]] + InsertDesc(e, s[1..])
  }

  lemma {:induction false} InsertDescKeepsOrder(e: Entry, s: seq<Entry>)
    requires NonIncreasing(s)
    ensures NonIncreasing(InsertDesc(e, s))
    decreases |s|
  {
    if |s| > 0 && s[0].value > e.value {
      var rest := InsertDesc(e, s[1..]);
      InsertDescKeepsOrder(e, s[1..]);
      assert s == [s[0]] + s[1..];
      forall j | 0 <= j < |rest| ensures rest[j].value <= s[0].value {
        assert rest[j] in multiset(rest);
        if rest[j] != e {
          assert rest[j] in multiset(s[1..]);
          var k :| 0 <= k < |s[1..]| && s[1..][k] == rest[j];
          assert s[k + 1] == rest[j];
        }
      }
      assert InsertDesc(e, s) == [s[0]] + rest;
    }
  }

  lemma PrependKeepsTies(x: Entry, s: seq<Entry>)
    requires TiesInKeyOrder(s)
    requires forall y :: y in s && y.value == x.value ==> KeyLt(x.key, y.key)
    ensures TiesInKeyOrder([x] + s)
  {
    var r := [x] + s;
    forall i, j | 0 <= i < j < |r| && r[i].value == r[j].value
      ensures KeyLt(r[i].key, r[j].key)
    {
      assert r[j] == s[j - 1];
      if i == 0 {
        assert r[j] in s;
      } else {
        assert r[i] == s[i - 1];
      }
    }
  }

  lemma {:induction false} InsertDescKeepsTies(e: Entry, s: seq<Entry>)
    requires TiesInKeyOrder(s)
    requires forall x :: x in s ==> KeyLt(e.key, x.key)
    ensures TiesInKeyOrder(InsertDesc(e, s))
    decreases |s|
  {
    if |s| == 0 || s[0].value <= e.value {
      PrependKeepsTies(e, s);
    } else {
      var rest := InsertDesc(e, s[1..]);
      assert s == [s[0]] + s[1..];
      assert TiesInKeyOrder(s[1..]) by {
        forall i, j | 0 <= i < j < |s[1..]| && s[1..][i].value == s[1..][j].value
          ensures KeyLt(s[1..][i].key, s[1..][j].key)
        {
          assert s[1..][i] == s[i + 1] && s[1..][j] == s[j + 1];
        }
      }
      InsertDescKeepsTies(e, s[1..]);
      forall y | y in rest && y.value == s[0].value
        ensures KeyLt(s[0].key, y.key)
      {
        assert y in multiset(rest);
        assert y != e;
        assert y in multiset(s[1..]);
        var k :| 0 <= k < |s[1..]| && s[1..][k] == y;
        assert s[k + 1] == y;
      }
      PrependKeepsTies(s[0], rest);
    }
  }

  /** A stable sort by descending value. */
  function SortDesc(s: seq<Entry>): (r: seq<Entry>)
    ensures multiset(r) == multiset(s)
    ensures |r| == |s|
    ensures NonIncreasing(r)
    ensures KeysAscending(s) ==> TiesInKeyOrder(r)
  {
    if |s| == 0 then []
    else
      var rest := SortDesc(s[1..]);
      assert s == [s[0]] + s[1..];
      InsertDescKeepsOrder(s[0], rest);
      SortDescStepTies(s, rest);
      InsertDesc(s[0], rest)
  }

  /** Inserting the head of a key-ascending sequence into the sorted rest
      keeps ties in key order: the head's key is smaller than every other. */
  lemma SortDescStepTies(s: seq<Entry>, rest: seq<Entry>)
    requires |s| > 0 && multiset(rest) == multiset(s[1..])
    requires KeysAscending(s[1..]) ==> TiesInKeyOrder(rest)
    ensures KeysAscending(s) ==> TiesInKeyOrder(InsertDesc(s[0], rest))
  {
    if KeysAscending(s) {
      forall x | x in rest ensures KeyLt(s[0].key, x.key) {
        assert x in multiset(s[1..]);
        var j :| 0 <= j < |s[1..]| && s[1..][j] == x;
        assert s[j + 1] == x;
      }
      assert KeysAscending(s[1..]) by {
        forall i, j | 0 <= i < j < |s[1..]| ensures KeyLt(s[1..][i].key, s[1..][j].key) {
          assert s[1..][i] == s[i + 1] && s[1..][j] == s[j + 1];
        }
      }
      InsertDescKeepsTies(s[0], rest);
    }
  }

  /** A prefix of a descending sequence holds its largest values: nothing left
      out is larger than anything kept. */
  lemma PrefixHoldsLargest(s: seq<Entry>, n: int)
    requires NonIncreasing(s)
    ensures forall e, g :: e in Head(s, n) && g in s && g !in Head(s, n) ==> g.value <= e.value
  {
    var h := Head(s, n);
    forall e, g | e in h && g in s && g !in h
      ensures g.value <= e.value
    {
      var i :| 0 <= i < |h| && h[i] == e;
      var j :| 0 <= j < |s| && s[j] == g;
      assert forall k :: 0 <= k < |h| ==> h[k] == s[k];
      assert j >= |h|;
      assert s[i] == e;
    }
  }
  /** A prefix of a sorted ranking is itself sorted, ties included. */
  lemma PrefixKeepsRanking(s: seq<Entry>, n: int)
    requires NonIncreasing(s) && TiesInKeyOrder(s)
    ensures NonIncreasing(Head(s, n)) && TiesInKeyOrder(Head(s, n))
  {
    var h := Head(s, n);
    assert forall i :: 0 <= i < |h| ==> h[i] == s[i];
  }

  /** In a key-ascending sequence a key identifies its entry. */
  lemma SameKeySameEntry(all: seq<Entry>, a: Entry, b: Entry)
    requires KeysAscending(all)
    requires a in all && b in all
    ensures a.key == b.key ==> a == b
  {
    KeyLtIsStrictTotal();
    var ia :| 0 <= ia < |all| && all[ia] == a;
    var ib :| 0 <= ib < |all| && all[ib] == b;
    assert a.key == b.key ==> ia == ib;
  }

  /** Entries drawn from a key-ascending sequence, with ties in key order,
      carry pairwise different keys. */
  lemma TiesMakeKeysDistinct(s: seq<Entry>, all: seq<Entry>)
    requires KeysAscending(all)
    requires forall e :: e in s ==> e in all
    requires TiesInKeyOrder(s)
    ensures forall i, j :: 0 <= i < j < |s| ==> s[i].key != s[j].key
  {
    KeyLtIsStrictTotal();
    forall i, j | 0 <= i < j < |s| ensures s[i].key != s[j].key {
      SameKeySameEntry(all, s[i], s[j]);
      assert !KeyLt(s[i].key, s[i].key);
    }
  }
}
