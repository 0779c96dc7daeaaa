/** The ranking step of `get_books_by_statistic`: Python's stable
    `list.sort(key=metric, reverse=True)` followed by a scan that keeps the first `n`
    ids not yet served. The key of every element is computed once, as Python does, and
    passed as a map. */
module Ranking {
  import opened Sequences

  /** Every element of `s` has a key. */
  predicate Keyed<T(==,!new)>(s: seq<T>, key: map<T, real>) {
    forall x :: x in s ==> x in key
  }

  /** `a` ranks strictly before `b` in a stable descending sort of `s`: a higher key
      first, and among equal keys the one that comes first in `s`. */
  predicate Before<T(==,!new)>(s: seq<T>, key: map<T, real>, a: T, b: T)
    requires a in s && b in s && a in key && b in key
  {
    key[a] > key[b] || (key[a] == key[b] && Pos(s, a) < Pos(s, b))
  }

  /** `r` lists elements of `s` in the order of a stable descending sort of `s`. */
  predicate RankedBy<T(==,!new)>(r: seq<T>, s: seq<T>, key: map<T, real>)
    requires forall x :: x in r ==> x in s && x in key
  {
    forall i, j :: 0 <= i < j < |r| ==> Before(s, key, r[i], r[j])
  }

  /** Places `x` in front of the first element whose key is not greater than its own. */
  function Insert<T(==,!new)>(x: T, t: seq<T>, key: map<T, real>): (r: seq<T>)
    requires x in key && Keyed(t, key)
    ensures |r| == |t| + 1
    ensures forall y :: y in r <==> y == x || y in t
    ensures multiset(r) == multiset(t) + multiset{x}
  {
    if t == [] then [x]
    else if key[t[0]] > key[x] then
      assert t == [t[0]] + t[1..];
      [t[0]] + Insert(x, t[1..], key)
    else [x] + t
  }

  /** Stable sort by descending key (insertion sort from the back). */
  function SortDesc<T(==,!new)>(s: seq<T>, key: map<T, real>): (r: seq<T>)
    requires Keyed(s, key)
    ensures |r| == |s|
    ensures forall y :: y in r <==> y in s
    ensures multiset(r) == multiset(s)
  {
    if s == [] then []
    else
      assert s == [s[0]] + s[1..];
      Insert(s[0], SortDesc(s[1..], key), key)
  }

  /** The first `n` ids of the ranking that are not in `used`. */
  function Pick<T(==,!new)>(s: seq<T>, key: map<T, real>, used: set<T>, n: nat): (r: seq<T>)
    requires Keyed(s, key) && n <= |Except(SortDesc(s, key), used)|
    ensures |r| == n
  {
    Except(SortDesc(s, key), used)[..n]
  }

  lemma {:induction false} InsertDistinct<T(!new)>(x: T, t: seq<T>, key: map<T, real>)
    requires x in key && Keyed(t, key)
    requires Distinct(t) && x !in t
    ensures Distinct(Insert(x, t, key))
  {
    if t != [] && key[t[0]] > key[x] {
      var tail := Insert(x, t[1..], key);
      InsertDistinct(x, t[1..], key);
      assert t == [t[0]] + t[1..];
      assert t[0] !in tail;
      var r := [t[0]] + tail;
      forall i, j | 0 <= i < j < |r| ensures r[i] != r[j] {
        if i > 0 {
          assert r[i] == tail[i - 1] && r[j] == tail[j - 1];
        } else {
          assert r[j] in tail;
        }
      }
    }
  }

  /** A ranked sequence: its head ranks before every later element. */
  lemma RankedHead<T(!new)>(r: seq<T>, s: seq<T>, key: map<T, real>)
    requires forall x :: x in r ==> x in s && x in key
    requires RankedBy(r, s, key) && r != []
    ensures forall y :: y in r[1..] ==> Before(s, key, r[0], y)
    ensures RankedBy(r[1..], s, key)
  {
    assert r == [r[0]] + r[1..];
    forall y | y in r[1..] ensures Before(s, key, r[0], y) {
      var k :| 0 <= k < |r[1..]| && r[1..][k] == y;
      assert Before(s, key, r[0], r[k + 1]);
    }
    forall i, j | 0 <= i < j < |r| - 1 ensures Before(s, key, r[1..][i], r[1..][j]) {
      assert Before(s, key, r[i + 1], r[j + 1]);
    }
  }

  /** A head that ranks before everything in a ranked tail gives a ranked sequence. */
  lemma RankedCons<T(!new)>(h: T, t: seq<T>, s: seq<T>, key: map<T, real>)
    requires h in s && h in key
    requires forall x :: x in t ==> x in s && x in key
    requires forall y :: y in t ==> Before(s, key, h, y)
    requires RankedBy(t, s, key)
    ensures RankedBy([h] + t, s, key)
  {
    var r := [h] + t;
    forall i, j | 0 <= i < j < |r| ensures Before(s, key, r[i], r[j]) {
      if i == 0 {
        assert r[j] == t[j - 1];
      } else {
        assert r[i] == t[i - 1] && r[j] == t[j - 1];
      }
    }
  }

  /** Inserting an element that comes before everything in `t` (in `s`) keeps `t`
      ranked. */
  lemma {:induction false} InsertRanked<T(!new)>(s: seq<T>, key: map<T, real>, x: T, t: seq<T>)
    requires Keyed(s, key) && x in s
    requires forall y :: y in t ==> y in s
    requires RankedBy(t, s, key)
    requires forall y :: y in t ==> Pos(s, x) < Pos(s, y)
    ensures RankedBy(Insert(x, t, key), s, key)
  {
    if t == [] {
    } else if key[t[0]] > key[x] {
      RankedHead(t, s, key);
      InsertRanked(s, key, x, t[1..]);
      RankedCons(t[0], Insert(x, t[1..], key), s, key);
    } else {
      RankedHead(t, s, key);
      assert t == [t[0]] + t[1..];
      RankedCons(x, t, s, key);
    }
  }

  /** A ranking of `s[1..]` is also one of `s`: positions all shift by one. */
  lemma RankedShift<T(!new)>(s: seq<T>, key: map<T, real>, t: seq<T>)
    requires Distinct(s) && s != [] && Keyed(s, key)
    requires forall y :: y in t ==> y in s[1..]
    requires RankedBy(t, s[1..], key)
    ensures RankedBy(t, s, key)
  {
    assert s == [s[0]] + s[1..];
    forall i, j | 0 <= i < j < |t| ensures Before(s, key, t[i], t[j]) {
      assert t[i] in s[1..] && t[j] in s[1..];
      assert Before(s[1..], key, t[i], t[j]);
      assert s[0] != t[i] && s[0] != t[j];
    }
  }

  /** The sort is a stable descending sort, and keeps ids distinct. */
  lemma {:induction false} SortDescRanked<T(!new)>(s: seq<T>, key: map<T, real>)
    requires Distinct(s) && Keyed(s, key)
    ensures Distinct(SortDesc(s, key))
    ensures forall y :: y in SortDesc(s, key) <==> y in s
    ensures RankedBy(SortDesc(s, key), s, key)
  {
    if s != [] {
      var t := SortDesc(s[1..], key);
      SortDescRanked(s[1..], key);
      InsertDistinct(s[0], t, key);
      RankedShift(s, key, t);
      forall y | y in t ensures Pos(s, s[0]) < Pos(s, y) {
        assert s[0] != y;
      }
      InsertRanked(s, key, s[0], t);
    }
  }

  /** Skipping elements keeps what is left ranked. */
  lemma {:induction false} ExceptRanked<T(!new)>(r: seq<T>, s: seq<T>, key: map<T, real>, d: set<T>)
    requires forall x :: x in r ==> x in s && x in key
    requires RankedBy(r, s, key)
    ensures RankedBy(Except(r, d), s, key)
  {
    if r != [] {
      RankedHead(r, s, key);
      ExceptRanked(r[1..], s, key, d);
      if r[0] !in d {
        RankedCons(r[0], Except(r[1..], d), s, key);
      }
    }
  }

  /** The first `n` elements of a ranked sequence are ranked, and each ranks before
      every element after them. */
  lemma RankedTake<T(!new)>(e: seq<T>, s: seq<T>, key: map<T, real>, n: nat)
    requires forall x :: x in e ==> x in s && x in key
    requires RankedBy(e, s, key) && n <= |e|
    ensures RankedBy(e[..n], s, key)
    ensures forall i, k :: 0 <= i < n <= k < |e| ==> Before(s, key, e[i], e[k])
  {
    forall i, j | 0 <= i < j < n ensures Before(s, key, e[..n][i], e[..n][j]) {
      assert e[..n][i] == e[i] && e[..n][j] == e[j];
    }
  }

  /** What the scan of `get_books_by_statistic` returns: `n` distinct elements of `s`
      outside `used`, in stable descending key order, and every other element of `s`
      outside `used` ranks below each of them. */
  lemma PickIsTopUnused<T(!new)>(s: seq<T>, key: map<T, real>, used: set<T>, n: nat)
    requires Distinct(s) && Keyed(s, key)
    requires n <= |Except(SortDesc(s, key), used)|
    ensures var r := Pick(s, key, used, n);
      && |r| == n
      && Distinct(r)
      && (forall x :: x in r ==> x in s && x !in used)
      && RankedBy(r, s, key)
      && (forall x, i :: x in s && x !in used && x !in r && 0 <= i < n ==> Before(s, key, r[i], x))
  {
    var l := SortDesc(s, key);
    var e := Except(l, used);
    var r := Pick(s, key, used, n);
    assert r == e[..n];
    SortDescRanked(s, key);
    ExceptRanked(l, s, key, used);
    ExceptDistinct(l, used);
    RankedTake(e, s, key, n);
    forall x, i | x in s && x !in used && x !in r && 0 <= i < n ensures Before(s, key, r[i], x) {
      var k := Pos(e, x);
      assert e[i] == r[i];
    }
  }
}
