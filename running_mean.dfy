/** The rating data the graph is built from, and the running mean that every book keeps
    of the ratings of its connected users. */
module RunningMean {
  import opened Sequences

  type UserID = string
  type BookID = string

  /** One user's entry in `users_read`: the books they rated, in the dict's key order,
      and the rating of each. */
  datatype Reviews = Reviews(books: seq<BookID>, score: map<BookID, real>) {
    /** What a Python dict guarantees: each key once, and exactly the keys that have a
        value. */
    predicate WellFormed() {
      Distinct(books) && Elems(books) == score.Keys
    }
  }

  /** Every user in `conn` rated book `b`. */
  ghost predicate Rated(read: map<UserID, Reviews>, conn: set<UserID>, b: BookID) {
    forall u :: u in conn ==> u in read && b in read[u].score
  }

  /** Sum of the ratings of book `b` by the users in `conn`. */
  ghost function Total(read: map<UserID, Reviews>, conn: set<UserID>, b: BookID): real
    requires Rated(read, conn, b)
    decreases conn
  {
    if conn == {} then 0.0
    else
      var u :| u in conn;
      read[u].score[b] + Total(read, conn - {u}, b)
  }

  /** `r` is the arithmetic mean of the ratings of `b` by the users in `conn`, who all
      rated it. Stated without division, so that it also holds (trivially) of a book
      left with no connected users. */
  ghost predicate IsMean(r: real, read: map<UserID, Reviews>, conn: set<UserID>, b: BookID) {
    Rated(read, conn, b) && r * (|conn| as real) == Total(read, conn, b)
  }

  /** The incremental mean step of the constructor: the mean `r` of `n - 1` ratings
      and a new rating `x` give the mean of `n` ratings. */
  function AddToMean(r: real, x: real, n: nat): (m: real)
    requires n >= 1
    ensures m * (n as real) == r * ((n - 1) as real) + x
  {
    var k := n as real;
    assert (r * ((k - 1.0) / k)) * k == r * (k - 1.0);
    assert (x / k) * k == x;
    r * ((k - 1.0) / k) + x / k
  }

  /** The inverse step of `disconnect`: the mean `r` of `n` ratings without the rating
      `x` gives the mean of the other `n - 1`. */
  function RemoveFromMean(r: real, x: real, n: nat): (m: real)
    requires n > 1
    ensures m * ((n - 1) as real) == r * (n as real) - x
  {
    var k := n as real;
    assert (r * (k / (k - 1.0))) * (k - 1.0) == r * k;
    assert (x / (k - 1.0)) * (k - 1.0) == x;
    r * (k / (k - 1.0)) - x / (k - 1.0)
  }

  /** The sum does not depend on the order in which users are taken out. */
  lemma {:induction false} TotalRemove(read: map<UserID, Reviews>, conn: set<UserID>, b: BookID, u: UserID)
    requires Rated(read, conn, b) && u in conn
    ensures Total(read, conn, b) == read[u].score[b] + Total(read, conn - {u}, b)
    decreases conn
  {
    var v :| v in conn && Total(read, conn, b) == read[v].score[b] + Total(read, conn - {v}, b);
    if v != u {
      TotalRemove(read, conn - {v}, b, u);
      TotalRemove(read, conn - {u}, b, v);
      assert conn - {v} - {u} == conn - {u} - {v};
    }
  }

  /** Adding a rater adds their rating to the sum. */
  lemma TotalAdd(read: map<UserID, Reviews>, conn: set<UserID>, b: BookID, u: UserID)
    requires Rated(read, conn, b) && u !in conn && u in read && b in read[u].score
    ensures Rated(read, conn + {u}, b)
    ensures Total(read, conn + {u}, b) == read[u].score[b] + Total(read, conn, b)
    ensures |conn + {u}| - 1 == |conn|
  {
    TotalRemove(read, conn + {u}, b, u);
    assert conn + {u} - {u} == conn;
  }

  /** Equal counts scale a value equally (spelled out so that the solver sees the two
      products as one). */
  lemma SameCount(r: real, i: int, j: int)
    requires i == j
    ensures r * (i as real) == r * (j as real)
  {
  }

  /** Connecting a new rater `u` keeps the mean, for a new value `m` that satisfies the
      constructor's update step with `n = |conn + {u}|` (as `AddToMean` does). */
  lemma MeanAfterAdd(read: map<UserID, Reviews>, conn: set<UserID>, b: BookID, u: UserID, r: real, m: real)
    requires IsMean(r, read, conn, b) && u !in conn && u in read && b in read[u].score
    requires m * (|conn + {u}| as real) == r * ((|conn + {u}| - 1) as real) + read[u].score[b]
    ensures IsMean(m, read, conn + {u}, b)
  {
    TotalAdd(read, conn, b, u);
    SameCount(r, |conn + {u}| - 1, |conn|);
  }

  /** Disconnecting one of several raters and applying the inverse update keeps the
      mean. */
  lemma MeanAfterRemove(read: map<UserID, Reviews>, conn: set<UserID>, b: BookID, u: UserID, r: real)
    requires IsMean(r, read, conn, b) && u in conn && |conn| > 1
    ensures IsMean(RemoveFromMean(r, read[u].score[b], |conn|), read, conn - {u}, b)
  {
    TotalRemove(read, conn, b, u);
    SameCount(RemoveFromMean(r, read[u].score[b], |conn|), |conn| - 1, |conn - {u}|);
  }

  /** The first rater seeds the mean with their rating. */
  lemma MeanOfOne(read: map<UserID, Reviews>, b: BookID, u: UserID)
    requires u in read && b in read[u].score
    ensures IsMean(read[u].score[b], read, {u}, b)
  {
    TotalRemove(read, {u}, b, u);
    assert {u} - {u} == {};
  }

  /** Where there are raters, the invariant pins the rating to their average. */
  lemma MeanIsAverage(r: real, read: map<UserID, Reviews>, conn: set<UserID>, b: BookID)
    requires IsMean(r, read, conn, b) && conn != {}
    ensures r == Total(read, conn, b) / (|conn| as real)
  {
  }
}
