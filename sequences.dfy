/** Sequence helpers shared by the graph model: Python lists and the key order of
    Python dicts are modelled as sequences without repeated elements. */
module Sequences {

  /** No element occurs twice (the keys of a Python dict, in insertion order). */
  predicate Distinct<T(==)>(s: seq<T>) {
    forall i, j :: 0 <= i < j < |s| ==> s[i] != s[j]
  }

  /** The elements of `s` as a set. */
  function Elems<T(!new)>(s: seq<T>): (r: set<T>)
    ensures forall x :: x in r <==> x in s
  {
    set x | x in s
  }

  /** `s` with every element of `d` removed, order kept: deleting keys from a dict,
      or skipping the ids that are already in a set. */
  function Except<T(==,!new)>(s: seq<T>, d: set<T>): (r: seq<T>)
    ensures |r| <= |s|
    ensures forall x :: x in r <==> x in s && x !in d
  {
    if s == [] then []
    else if s[0] in d then Except(s[1..], d)
    else [s[0]] + Except(s[1..], d)
  }

  /** Index of the first occurrence of `x` in `s`. */
  function Pos<T(==)>(s: seq<T>, x: T): (r: nat)
    requires x in s
    ensures r < |s| && s[r] == x
    ensures forall k :: 0 <= k < r ==> s[k] != x
  {
    if s[0] == x then 0 else 1 + Pos(s[1..], x)
  }

  lemma {:induction false} ExceptDistinct<T(!new)>(s: seq<T>, d: set<T>)
    requires Distinct(s)
    ensures Distinct(Except(s, d))
  {
    if s != [] {
      ExceptDistinct(s[1..], d);
    }
  }

  /** Removing nothing keeps everything. */
  lemma {:induction false} ExceptNothing<T(!new)>(s: seq<T>)
    ensures Except(s, {}) == s
  {
    if s != [] {
      ExceptNothing(s[1..]);
    }
  }

  /** Removing `a` and then `b` is removing `a + b`. */
  lemma {:induction false} ExceptExcept<T(!new)>(s: seq<T>, a: set<T>, b: set<T>)
    ensures Except(Except(s, a), b) == Except(s, a + b)
  {
    if s != [] {
      ExceptExcept(s[1..], a, b);
    }
  }

  /** Only the removed elements that actually occur in `s` matter. */
  lemma {:induction false} ExceptOnlyOccurring<T(!new)>(s: seq<T>, a: set<T>, b: set<T>)
    requires forall x :: x in s ==> (x in a <==> x in b)
    ensures Except(s, a) == Except(s, b)
  {
    if s != [] {
      ExceptOnlyOccurring(s[1..], a, b);
    }
  }

  /** Splitting the input splits the result. */
  lemma {:induction false} ExceptAppend<T(!new)>(s: seq<T>, t: seq<T>, d: set<T>)
    ensures Except(s + t, d) == Except(s, d) + Except(t, d)
  {
    if s == [] {
      assert s + t == t;
    } else {
      assert (s + t)[1..] == s[1..] + t;
      ExceptAppend(s[1..], t, d);
    }
  }

  /** Appending one element: it is kept unless it is removed. */
  lemma ExceptSnoc<T(!new)>(s: seq<T>, x: T, d: set<T>)
    ensures Except(s + [x], d) == Except(s, d) + (if x in d then [] else [x])
  {
    ExceptAppend(s, [x], d);
    assert Except([x], d) == if x in d then [] else [x] by {
      assert [x][1..] == [];
    }
  }

  /** One step of a scan over `s` that keeps the elements outside `d`: the kept prefix
      grows by `s[i]` unless it is removed, the rest shrinks by the same, and an element
      of a sequence without repeats is not among those kept before it. */
  lemma ExceptStep<T(!new)>(s: seq<T>, i: nat, d: set<T>)
    requires i < |s|
    ensures Except(s[..i + 1], d) == Except(s[..i], d) + (if s[i] in d then [] else [s[i]])
    ensures Except(s[i..], d) == (if s[i] in d then [] else [s[i]]) + Except(s[i + 1..], d)
    ensures Distinct(s) ==> s[i] !in Except(s[..i], d)
  {
    assert s[..i + 1] == s[..i] + [s[i]];
    ExceptSnoc(s[..i], s[i], d);
    assert s[i..][1..] == s[i + 1..];
  }

  /** A scan that has kept `n` elements by position `i` has kept the first `n` elements
      of the whole result. */
  lemma ExceptPrefix<T(!new)>(s: seq<T>, i: nat, d: set<T>, n: nat)
    requires i <= |s| && |Except(s[..i], d)| == n
    ensures n <= |Except(s, d)| && Except(s, d)[..n] == Except(s[..i], d)
  {
    assert s == s[..i] + s[i..];
    ExceptAppend(s[..i], s[i..], d);
    var a, b := Except(s[..i], d), Except(s[i..], d);
    assert (a + b)[..n] == a;
  }

  /** Removing a set of `k` elements from a sequence without repeats leaves at least
      `|s| - k` elements. */
  lemma {:induction false} ExceptCount<T(!new)>(s: seq<T>, d: set<T>)
    requires Distinct(s)
    ensures |Except(s, d)| + |d| >= |s|
  {
    if s != [] {
      if s[0] in d {
        ExceptOnlyOccurring(s[1..], d, d - {s[0]});
        ExceptCount(s[1..], d - {s[0]});
      } else {
        ExceptCount(s[1..], d);
      }
    }
  }

  /** A sequence without repeats has as many elements as its set. */
  lemma {:induction false} DistinctCard<T(!new)>(s: seq<T>)
    requires Distinct(s)
    ensures |Elems(s)| == |s|
  {
    if s != [] {
      DistinctCard(s[1..]);
      assert Elems(s) == {s[0]} + Elems(s[1..]);
    }
  }

  /** In a sequence without repeats, the position of `s[i]` is `i`. */
  lemma PosOfIndex<T>(s: seq<T>, i: nat)
    requires Distinct(s) && i < |s|
    ensures Pos(s, s[i]) == i
  {
  }
}
