/** The draw loop of `get_books_by_random`. Randomness is not modelled: the indices
    that `random.randint` returns are a parameter, `draws`, consumed in order. */
module RandomDraw {
  import opened Sequences
  import opened RunningMean

  datatype Option<T> = None | Some(value: T)

  /** The random ranking's choices, given the sequence of indices drawn: a drawn book
      not yet in `used` is taken, any other draw is retried, until `n` are taken or the
      draws run out. */
  function DrawPicks(ids: seq<BookID>, used: set<BookID>, draws: seq<nat>, n: nat): (r: seq<BookID>)
    requires forall k :: 0 <= k < |draws| ==> draws[k] < |ids|
    ensures |r| <= n
    decreases |draws|
  {
    if n == 0 || draws == [] then []
    else if ids[draws[0]] in used then DrawPicks(ids, used, draws[1..], n)
    else [ids[draws[0]]] + DrawPicks(ids, used + {ids[draws[0]]}, draws[1..], n - 1)
  }

  /** One draw of the loop, taken from position `k` of the draws. */
  lemma DrawStep(ids: seq<BookID>, used: set<BookID>, draws: seq<nat>, k: nat, n: nat)
    requires forall j :: 0 <= j < |draws| ==> draws[j] < |ids|
    requires k < |draws| && n > 0
    ensures DrawPicks(ids, used, draws[k..], n) ==
      if ids[draws[k]] in used then DrawPicks(ids, used, draws[k + 1..], n)
      else [ids[draws[k]]] + DrawPicks(ids, used + {ids[draws[k]]}, draws[k + 1..], n - 1)
  {
    assert draws[k..][1..] == draws[k + 1..];
  }

  /** The ids the draws can reach. */
  function Reached(ids: seq<BookID>, draws: seq<nat>): (s: set<BookID>)
    requires forall k :: 0 <= k < |draws| ==> draws[k] < |ids|
    decreases |draws|
  {
    if draws == [] then {} else {ids[draws[0]]} + Reached(ids, draws[1..])
  }

  /** Subsets are no larger. */
  lemma {:induction false} SubsetCard<T>(a: set<T>, b: set<T>)
    requires a <= b
    ensures |a| <= |b|
    decreases b
  {
    if a != {} {
      var x :| x in a;
      SubsetCard(a - {x}, b - {x});
    }
  }

  /** The corrected random draw picks distinct books of `ids`, none of them in
      `used`. */
  lemma {:induction false} DrawPicksFresh(ids: seq<BookID>, used: set<BookID>, draws: seq<nat>, n: nat)
    requires forall k :: 0 <= k < |draws| ==> draws[k] < |ids|
    ensures var r := DrawPicks(ids, used, draws, n);
      && Distinct(r)
      && (forall b :: b in r ==> b in ids && b !in used)
    decreases |draws|
  {
    if n > 0 && draws != [] {
      var c := ids[draws[0]];
      if c in used {
        DrawPicksFresh(ids, used, draws[1..], n);
      } else {
        DrawPicksFresh(ids, used + {c}, draws[1..], n - 1);
      }
    }
  }

  /** Taking `c` out of play costs at most one of the elements still available. */
  lemma AvailableAfterTaking<T>(a: set<T>, rest: set<T>, used: set<T>, c: T)
    requires a == {c} + rest && c !in used
    ensures |rest - (used + {c})| >= |a - used| - 1
  {
    var left := a - used;
    assert left == (left - {c}) + {c};
    assert |left - {c}| == |left| - 1;
    assert left - {c} <= rest - (used + {c});
    SubsetCard(left - {c}, rest - (used + {c}));
  }

  /** Once the draws reach `n` books outside `used`, exactly `n` are picked. */
  lemma {:induction false} DrawPicksEnough(ids: seq<BookID>, used: set<BookID>, draws: seq<nat>, n: nat)
    requires forall k :: 0 <= k < |draws| ==> draws[k] < |ids|
    requires |Reached(ids, draws) - used| >= n
    ensures |DrawPicks(ids, used, draws, n)| == n
    decreases |draws|
  {
    if draws != [] && n > 0 {
      var c := ids[draws[0]];
      var rest := draws[1..];
      if c in used {
        assert Reached(ids, draws) - used == Reached(ids, rest) - used;
        DrawPicksEnough(ids, used, rest, n);
      } else {
        AvailableAfterTaking(Reached(ids, draws), Reached(ids, rest), used, c);
        DrawPicksEnough(ids, used + {c}, rest, n - 1);
      }
    }
  }

  /** The loop as written: `random.randint(0, len(ids))` includes `len(ids)` itself, and
      indexing `ids` with it raises an IndexError (here `None`). Otherwise the same
      choices as `DrawPicks`. */
  function DrawPicksAsWritten(ids: seq<BookID>, used: set<BookID>, draws: seq<nat>, n: nat): (r: Option<seq<BookID>>)
    requires forall k :: 0 <= k < |draws| ==> draws[k] <= |ids|
    ensures r.None? ==> n > 0 && exists k :: 0 <= k < |draws| && draws[k] == |ids|
    ensures r.Some? ==> |r.value| <= n && forall b :: b in r.value ==> b in ids && b !in used
    decreases |draws|
  {
    if n == 0 || draws == [] then Some([])
    else if draws[0] == |ids| then None
    else if ids[draws[0]] in used then DrawPicksAsWritten(ids, used, draws[1..], n)
    else
      match DrawPicksAsWritten(ids, used + {ids[draws[0]]}, draws[1..], n - 1)
      case None => None
      case Some(rest) => Some([ids[draws[0]]] + rest)
  }

  /** Where every draw is a valid index, the loop as written and the corrected one
      agree. */
  lemma {:induction false} AsWrittenAgrees(ids: seq<BookID>, used: set<BookID>, draws: seq<nat>, n: nat)
    requires forall k :: 0 <= k < |draws| ==> draws[k] < |ids|
    ensures DrawPicksAsWritten(ids, used, draws, n) == Some(DrawPicks(ids, used, draws, n))
    decreases |draws|
  {
    if n > 0 && draws != [] {
      if ids[draws[0]] in used {
        AsWrittenAgrees(ids, used, draws[1..], n);
      } else {
        AsWrittenAgrees(ids, used + {ids[draws[0]]}, draws[1..], n - 1);
      }
    }
  }

  /** `randint` may return `len(ids)` on the very first draw, and the loop as written then
      fails although there are books to pick. */
  lemma RandintCanOverrun(ids: seq<BookID>, used: set<BookID>, n: nat)
    requires n > 0
    ensures DrawPicksAsWritten(ids, used, [|ids|], n) == None
  {
  }
}
