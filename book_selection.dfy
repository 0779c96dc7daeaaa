/** The metric and dispatch layer of `book_selection.py`: the two ranking metrics a
    `RunBookNetwork` hands to the graph, and the choice between the three ways of
    recommending books. */
module BookSelection {
  import opened Sequences
  import opened Ranking
  import opened RunningMean
  import opened RandomDraw
  import opened SimilarBooksGraph

  /** What the runner keeps of the book catalog `all_books`: each book's GoodReads
      `average_rating`. */
  type Catalog = map<BookID, real>

  /** The weight `w` of the catalog rating in the Bayesian average. */
  const Weight: real := 3.0

  /** Books with fewer connections than this score 0 under the rating metric. */
  const MinConnections: nat := 10

  /** The number of books the runner asks for (the default `n` of both ranking
      methods). */
  const Batch: nat := 3

  function Min(a: real, b: real): (m: real) { if a <= b then a else b }
  function Max(a: real, b: real): (m: real) { if a <= b then b else a }

  /** `rating_metric`: the Bayesian average of the catalog rating `m`, weighted
      `Weight`, and the book's mean rating in the graph, weighted by its number of
      connections; 0 for a book with fewer than `MinConnections` connections. The
      catalog must know the book. */
  function RatingMetric(catalog: Catalog, book: BookStat): (score: real)
    requires book.id in catalog
    ensures book.connections < MinConnections ==> score == 0.0
    ensures book.connections >= MinConnections ==>
      Min(catalog[book.id], book.rating) <= score <= Max(catalog[book.id], book.rating)
  {
    if book.connections < MinConnections then 0.0
    else
      var m := catalog[book.id];
      var n := book.connections as real;
      BayesianBetween(m, book.rating, n);
      (Weight * m + n * book.rating) / (Weight + n)
  }

  /** A positive factor can be cancelled from both sides of an inequality. */
  lemma Cancel(a: real, b: real, k: real)
    requires k > 0.0 && a * k <= b * k
    ensures a <= b
  {
  }

  /** A weighted average of `m` and `r` with positive weights lies between them. */
  lemma BayesianBetween(m: real, r: real, n: real)
    requires n > 0.0
    ensures Min(m, r) <= (Weight * m + n * r) / (Weight + n) <= Max(m, r)
  {
    var k := Weight + n;
    var s := (Weight * m + n * r) / k;
    assert s * k == Weight * m + n * r;
    if m <= r {
      assert m * k <= s * k;
      assert s * k <= r * k;
      Cancel(m, s, k);
      Cancel(s, r, k);
    } else {
      assert r * k <= s * k;
      assert s * k <= m * k;
      Cancel(r, s, k);
      Cancel(s, m, k);
    }
  }

  /** When the graph's mean agrees with the catalog, the score is that rating. */
  lemma RatingMetricAgrees(catalog: Catalog, book: BookStat)
    requires book.id in catalog && book.connections >= MinConnections
    requires book.rating == catalog[book.id]
    ensures RatingMetric(catalog, book) == catalog[book.id]
  {
  }

  /** For the same catalog rating and number of connections, a higher mean rating in
      the graph never lowers the score. */
  lemma RatingMetricMonotone(catalog: Catalog, a: BookStat, b: BookStat)
    requires a.id in catalog && b.id in catalog && catalog[a.id] == catalog[b.id]
    requires a.connections == b.connections && a.rating <= b.rating
    ensures RatingMetric(catalog, a) <= RatingMetric(catalog, b)
  {
    if a.connections >= MinConnections {
      var m := catalog[a.id];
      var n := a.connections as real;
      var sa := RatingMetric(catalog, a);
      var sb := RatingMetric(catalog, b);
      assert sa * (Weight + n) == Weight * m + n * a.rating;
      assert sb * (Weight + n) == Weight * m + n * b.rating;
      assert n * a.rating <= n * b.rating;
      assert sa * (Weight + n) <= sb * (Weight + n);
      Cancel(sa, sb, Weight + n);
    }
  }

  /** The popularity lambda: a book's number of connections. */
  function PopularityMetric(book: BookStat): (score: real)
    ensures score >= 0.0
  {
    book.connections as real
  }

  /** Ranking by popularity is ranking by number of connections. */
  lemma PopularityOrder(a: BookStat, b: BookStat)
    ensures PopularityMetric(a) >= PopularityMetric(b) <==> a.connections >= b.connections
    ensures PopularityMetric(a) == PopularityMetric(b) <==> a.connections == b.connections
  {
  }

  /** The two ranking metrics of the runner. */
  datatype Metric = Popularity | Bayesian(catalog: Catalog)

  /** A metric applied to a book; the rating metric needs the book in the catalog. */
  function Score(metric: Metric, book: BookStat): (score: real)
    requires metric.Bayesian? ==> book.id in metric.catalog
    ensures metric.Popularity? ==> score == PopularityMetric(book)
    ensures metric.Bayesian? ==> score == RatingMetric(metric.catalog, book)
  {
    match metric
    case Popularity => PopularityMetric(book)
    case Bayesian(catalog) => RatingMetric(catalog, book)
  }

  /** The metric as the callable passed to `get_books_by_statistic`. */
  function AsKey(metric: Metric): (key: BookStat --> real)
  {
    (s: BookStat) requires metric.Bayesian? ==> s.id in metric.catalog => Score(metric, s)
  }

  /** A statistic ranking with the rating metric never picks a book scoring lower than
      an unserved book it skips. */
  lemma RatingPickIsTop(net: BookNetwork, catalog: Catalog, n: nat)
    requires net.Valid() && n < |net.books| - |net.used|
    requires forall b :: b in net.books ==> b in catalog
    ensures net.rating.Keys == net.books.Keys
    ensures var r := net.StatisticPick(AsKey(Bayesian(catalog)), n);
      && |r| == n && Distinct(r)
      && (forall b :: b in r ==> b in net.books && b !in net.used)
      && (forall b, i :: b in net.books && b !in net.used && b !in r && 0 <= i < n ==>
            RatingMetric(catalog, net.Stat(r[i])) >= RatingMetric(catalog, net.Stat(b)))
  {
    var key := AsKey(Bayesian(catalog));
    net.StatisticPickIsTop(key, n);
    var r := net.StatisticPick(key, n);
    forall b, i | b in net.books && b !in net.used && b !in r && 0 <= i < n
      ensures RatingMetric(catalog, net.Stat(r[i])) >= RatingMetric(catalog, net.Stat(b))
    {
      assert Before(net.bookOrder, net.Scores(key), r[i], b);
    }
  }

  /** A statistic ranking with the popularity metric picks the most connected unserved
      books. */
  lemma PopularityPickIsTop(net: BookNetwork, n: nat)
    requires net.Valid() && n < |net.books| - |net.used|
    ensures forall b :: b in net.bookOrder <==> b in net.books
    ensures var r := net.StatisticPick(AsKey(Popularity), n);
      && |r| == n && Distinct(r)
      && (forall b :: b in r ==> b in net.books && b !in net.used)
      && (forall b, i :: b in net.books && b !in net.used && b !in r && 0 <= i < n ==>
            |net.books[r[i]]| >= |net.books[b]|)
  {
    var key := AsKey(Popularity);
    net.StatisticPickIsTop(key, n);
    var r := net.StatisticPick(key, n);
    forall b, i | b in net.books && b !in net.used && b !in r && 0 <= i < n
      ensures |net.books[r[i]]| >= |net.books[b]|
    {
      assert Before(net.bookOrder, net.Scores(key), r[i], b);
    }
  }

  /** The runner the interface drives: the catalog of the chosen genres and the graph
      built from their rating history. */
  class RunBookNetwork {
    const allBooks: Catalog
    const bookNetwork: BookNetwork

    /** Stores an already built network; loading the data is not modelled. */
    constructor (allBooks: Catalog, bookNetwork: BookNetwork)
      ensures this.allBooks == allBooks && this.bookNetwork == bookNetwork
    {
      this.allBooks := allBooks;
      this.bookNetwork := bookNetwork;
    }

    /** `get_recommended_books(method)`, with the method named `strategy`: `"rating"` ranks by the rating metric,
        `"popularity"` by the number of connections, and any other string draws at
        random; always `Batch` books. */
    method GetRecommendedBooks(strategy: string, draws: seq<nat>) returns (r: seq<BookID>)
      requires bookNetwork.Valid()
      requires strategy == "rating" && Batch < |bookNetwork.books| - |bookNetwork.used| ==>
        forall b :: b in bookNetwork.books ==> b in allBooks
      requires strategy != "rating" && strategy != "popularity" ==>
        forall k :: 0 <= k < |draws| ==> draws[k] < |bookNetwork.bookOrder|
      modifies bookNetwork`used
      ensures strategy == "rating" ==> r == old(bookNetwork.StatisticPick(AsKey(Bayesian(allBooks)), Batch))
      ensures strategy == "popularity" ==> r == old(bookNetwork.StatisticPick(AsKey(Popularity), Batch))
      ensures strategy != "rating" && strategy != "popularity" ==>
        if Batch >= old(|bookNetwork.books| - |bookNetwork.used|) then r == bookNetwork.bookOrder
        else r == DrawPicks(bookNetwork.bookOrder, old(bookNetwork.used), draws, Batch)
      ensures bookNetwork.used ==
        if Batch >= old(|bookNetwork.books| - |bookNetwork.used|) then old(bookNetwork.used)
        else old(bookNetwork.used) + Elems(r)
    {
      if strategy == "rating" {
        r := bookNetwork.GetBooksByStatistic(AsKey(Bayesian(allBooks)), Batch);
      } else if strategy == "popularity" {
        r := bookNetwork.GetBooksByStatistic(AsKey(Popularity), Batch);
      } else {
        r := bookNetwork.GetBooksByRandom(Batch, draws);
      }
    }
  }
}
