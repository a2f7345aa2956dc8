/**
 * The two orderings the listings use: `ORDER BY id DESC` over a set of
 * distinct keys, and a descending sort by an integer key that may tie.
 */
module Ordering {

  predicate StrictlyDecreasing(s: seq<int>) {
    forall i, j :: 0 <= i < j < |s| ==> s[i] > s[j]
  }

  /** No element occurs twice. */
  predicate Distinct(s: seq<int>) {
    forall i, j :: 0 <= i < j < |s| ==> s[i] != s[j]
  }

  /** A fresh element prefixed to a sequence without repeats gives one without repeats. */
  lemma PrependDistinct(a: int, t: seq<int>)
    ensures Distinct(t) && a !in t ==> Distinct([a] + t)
  {
    if Distinct(t) && a !in t {
      var r := [a] + t;
      forall i, j | 0 <= i < j < |r| ensures r[i] != r[j] {
        assert r[j] == t[j - 1];
        if i > 0 { assert r[i] == t[i - 1]; }
      }
    }
  }

  predicate NonIncreasingBy(s: seq<int>, key: int -> int) {
    forall i, j :: 0 <= i < j < |s| ==> key(s[i]) >= key(s[j])
  }

  lemma NonEmptyHasMember(s: set<int>)
    requires s != {}
    ensures exists x :: x in s
  {
    assert (forall x :: x !in s) ==> s == {};
  }

  lemma {:induction false} MaxExists(s: set<int>)
    requires s != {}
    ensures exists m :: m in s && forall y :: y in s ==> y <= m
    decreases |s|
  {
    NonEmptyHasMember(s);
    var x :| x in s;
    if s != {x} {
      MaxExists(s - {x});
      var m :| m in s - {x} && forall y :: y in s - {x} ==> y <= m;
      var top := if x > m then x else m;
      forall y | y in s ensures y <= top {
        if y != x { assert y in s - {x}; }
      }
    } else {
      assert forall y :: y in s ==> y == x;
    }
  }

  function MaxOf(s: set<int>): (m: int)
    requires s != {}
    ensures m in s && forall y :: y in s ==> y <= m
  {
    MaxExists(s);
    var m :| m in s && forall y :: y in s ==> y <= m;
    m
  }

  /** The elements of `s`, largest first. */
  function SortedDesc(s: set<int>): (r: seq<int>)
    ensures StrictlyDecreasing(r)
    ensures forall x :: x in r <==> x in s
    ensures |r| == |s|
    decreases |s|
  {
    if s == {} then []
    else
      var m := MaxOf(s);
      var rest := SortedDesc(s - {m});
      [m] + rest
  }

  /** Prefixing an element no smaller than the head keeps the order. */
  lemma PrependKeepsOrder(a: int, t: seq<int>, key: int -> int)
    requires NonIncreasingBy(t, key)
    requires |t| > 0 ==> key(a) >= key(t[0])
    ensures NonIncreasingBy([a] + t, key)
  {
    var r := [a] + t;
    forall i, j | 0 <= i < j < |r| ensures key(r[i]) >= key(r[j]) {
      if i == 0 {
        assert r[j] == t[j - 1];
        if j > 1 { assert key(t[0]) >= key(t[j - 1]); }
      } else {
        assert r[i] == t[i - 1] && r[j] == t[j - 1];
      }
    }
  }

  /** Insert `x` before the first element whose key is not larger. */
  function InsertByKey(x: int, s: seq<int>, key: int -> int): (r: seq<int>)
    requires NonIncreasingBy(s, key)
    ensures NonIncreasingBy(r, key)
    ensures multiset(r) == multiset(s) + multiset{x}
    ensures forall y :: y in r <==> y in s || y == x
    ensures Distinct(s) && x !in s ==> Distinct(r)
    ensures |r| > 0 && (r[0] == x || (|s| > 0 && r[0] == s[0]))
  {
    if |s| == 0 || key(x) >= key(s[0]) then
      PrependKeepsOrder(x, s, key);
      PrependDistinct(x, s);
      [x] + s
    else
      var rest := InsertByKey(x, s[1..], key);
      assert s == [s[0]] + s[1..];
      PrependKeepsOrder(s[0], rest, key);
      SplitHead(s);
      PrependDistinct(s[0], rest);
      [s[0]] + rest
  }

  /** A non-empty sequence is its head followed by its tail. */
  lemma SplitHead(s: seq<int>)
    requires |s| > 0
    ensures forall y :: y in s <==> y == s[0] || y in s[1..]
    ensures Distinct(s) ==> Distinct(s[1..]) && s[0] !in s[1..]
  {
    if Distinct(s) {
      forall i, j | 0 <= i < j < |s[1..]| ensures s[1..][i] != s[1..][j] {
        assert s[1..][i] == s[i + 1] && s[1..][j] == s[j + 1];
      }
    }
  }

  /** A descending sort by `key`; equal keys may come in any order. */
  function SortByKeyDesc(s: seq<int>, key: int -> int): (r: seq<int>)
    ensures NonIncreasingBy(r, key)
    ensures multiset(r) == multiset(s)
    ensures forall y :: y in r <==> y in s
    ensures Distinct(s) ==> Distinct(r)
  {
    if |s| == 0 then []
    else
      var rest := SortByKeyDesc(s[1..], key);
      assert s == [s[0]] + s[1..];
      SplitHead(s);
      InsertByKey(s[0], rest, key)
  }

  /** A decreasing tail drawn from a decreasing sequence may follow its head. */
  lemma PrependBelowHead(ids: seq<int>, rest: seq<int>)
    requires |ids| > 0
    requires forall x :: x in rest ==> x in ids[1..]
    requires StrictlyDecreasing(ids) ==> StrictlyDecreasing(rest)
    ensures StrictlyDecreasing(ids) ==> StrictlyDecreasing([ids[0]] + rest)
  {
    if StrictlyDecreasing(ids) {
      var r := [ids[0]] + rest;
      forall i, j | 0 <= i < j < |r| ensures r[i] > r[j] {
        assert r[j] == rest[j - 1] && r[j] in ids[1..];
        if i > 0 { assert r[i] == rest[i - 1]; }
      }
    }
  }

  /**
   * The elements of `ids` that `keep` admits. On a strictly decreasing
   * input the output is strictly decreasing too, which together with the
   * membership clause fixes it: the admitted elements in their original
   * order.
   */
  function FilterIds(ids: seq<int>, keep: int -> bool): (r: seq<int>)
    ensures forall x :: x in r <==> x in ids && keep(x)
    ensures StrictlyDecreasing(ids) ==> StrictlyDecreasing(r)
    ensures |r| <= |ids|
  {
    if |ids| == 0 then []
    else
      var rest := FilterIds(ids[1..], keep);
      assert forall x :: x in ids <==> x == ids[0] || x in ids[1..];
      if keep(ids[0]) then
        PrependBelowHead(ids, rest);
        [ids[0]] + rest
      else rest
  }
}
