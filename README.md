# Books On Books On Books — the similar-books graph, in Dafny

The recommender keeps a bipartite graph. It has a node for every user of a cohort of readers and a node for every book they rated, with one edge per rating. Each book node keeps the running mean of the ratings of the users connected to it.

A `BookNetwork` offers these operations:

- It is built from a cohort and their rating history.
- It ranks books in two ways:
  - by a metric, using a stable sort in descending order;
  - at random.

  Each ranking skips the books it has already served, which are kept in the set `used`.
- `prune` removes every user who liked a book that the reader rejected. "Liked" means a rating of at least `GOOD_RATING` = 3.5.
- `disconnect` removes a user node or a book node. Removing a user undoes that user's rating in the mean of each of its books. Removing a book also removes the users it leaves without any connection.

On top of the graph, `RunBookNetwork` supplies two metrics:

- the Bayesian rating metric, with weight 3 and a minimum of 10 connections;
- the popularity metric, which is the number of connections.

It dispatches a request to one of the three rankings.

The model is an arena. Every node lives under its own id:

- `users` maps a user id to the set of ids of its books.
- `books` maps a book id to the set of ids of its users.
- `rating` maps a book id to its mean rating.
- `userOrder` and `bookOrder` are the key orders of the two Python dicts.

Because a node's id is its key, the source's invariants become part of the model's structure:

- Every key equals its node's id.
- A user node only ever holds book ids, and a book node only user ids, so the graph is bipartite.

Files:

- `running_mean.dfy` holds the rating history and the running mean. The predicate `IsMean` says that a rating times the number of raters is the sum of their ratings.
- `graph_state.dfy` holds two things:
  - the invariant `Consistent`: edges are stored at both ends, every user has a rating history, the key orders match the dict keys, and every book's rating is the mean of its connected users' ratings;
  - the value-level specifications of construction, `prune` and `disconnect`.
- `ranking.dfy` holds the stable sort in descending order and the scan that skips served ids.
- `random_draw.dfy` holds the random draw loop, with the random indices given as a parameter.
- `similar_books_graph.dfy` holds the class `BookNetwork`. Its methods update its fields in place, and each method is proved against the specification functions.
- `book_selection.dfy` holds the metrics and the dispatch.
- `sequences.dfy` holds helpers on sequences.

Where the code and its documentation disagree, the model follows the code:

- When a ranking's short-circuit applies (`n >= len(books) - len(used)`), the ranking returns every book id in the graph. This includes ids it has already served.
- The docstring of `__init__` promises that an empty cohort builds a graph of every user in the dataset. The code builds an empty graph, and so does the model's constructor.
- `prune` decides from the full rating history whether a user liked a rejected book. It does not look at the user's current edges. A user whose only rating of a rejected book is below 3.5 stays in the graph.

## Model

| member | source | states |
|---|---|---|
| SimilarBooksGraph.BookNetwork.Connect | similar_books_graph.py:57-61 | The edge is recorded at both ends: the book joins the user's connections and the user joins the book's. Connecting an already connected pair changes nothing. |
| SimilarBooksGraph.BookNetwork.constructor | similar_books_graph.py:88-129 | The new graph keeps the invariant: edges are stored at both ends, and every book's rating is the mean of its connected users' ratings. `users` holds exactly the cohort, in order. Each user is connected to exactly the books it rated. `books` holds exactly the books some cohort user rated, in the order first met. A book and a cohort user are connected iff the user rated the book. Nothing has been served yet. |
| SimilarBooksGraph.BookNetwork.AddUsers | similar_books_graph.py:101-129 | Adding the cohort one user after another to an empty graph keeps the invariant. It leaves each user connected to its rated books, with the book order as first met. |
| SimilarBooksGraph.BookNetwork.AddUser | similar_books_graph.py:101-129 | One cohort user gets a node connected to exactly the books it rated. Each rated book gains the user, and a book not yet in the graph becomes a node connected to the user alone. Its new books are appended to the book order. The ratings of the other books do not change. The invariant is kept, so each rated book's rating is the mean of its raters. |
| SimilarBooksGraph.BookNetwork.AddNextUser | similar_books_graph.py:101-129 | One pass of the outer loop: after the cohort's `i`-th user is added, the graph holds the first `i + 1` users, each connected to its rated books, with the book order as first met by them. The invariant is kept. |
| SimilarBooksGraph.BookNetwork.AddUserNode | similar_books_graph.py:102-103 | A new, unconnected user node is added last in the key order. The invariant is kept. |
| SimilarBooksGraph.BookNetwork.AddRatings | similar_books_graph.py:106-129 | Connecting a new user to every book it rated, in rating order, keeps the invariant. Each rated book gains the user, or becomes a new node connected to the user alone. Only the books not seen before are appended to the book order. The ratings of the books the user did not rate do not change. |
| SimilarBooksGraph.BookNetwork.AddRating | similar_books_graph.py:110-129 | One rating adds the edge and keeps the invariant. The book order grows only when the book is new. A known book gains the user, and its rating takes the incremental update with `n` the number of connections after connecting. A new book is connected to the user alone and takes the user's rating. |
| SimilarBooksGraph.BookNetwork.RateKnownBook | similar_books_graph.py:110-122 | For a book already in the graph, the edge is added at both ends. The rating is folded into the mean with `n` the number of connections after connecting, and the invariant holds again. |
| SimilarBooksGraph.BookNetwork.RateNewBook | similar_books_graph.py:124-129 | A new book node is created last in the key order. It is connected to its first rater and takes that rating as its mean, and the invariant is kept. |
| GraphState.ConsistentAddUser | similar_books_graph.py:102-103 | Adding an unconnected user with a rating history keeps the invariant. |
| GraphState.ConsistentRateKnown | similar_books_graph.py:110-122 | The incremental update `r·(n-1)/n + x/n` after connecting a new rater keeps every book's rating the mean of its raters. |
| GraphState.ConsistentRateNew | similar_books_graph.py:124-129 | A new book seeded with its first rating is the mean of its one rater. The invariant holds. |
| GraphState.Built | similar_books_graph.py:88-129 | A consistent graph over the cohort, in which each user is connected to exactly its rated books, has a node for every book some cohort user rated. It has an edge for every rating. |
| GraphState.FirstSeenBooks | similar_books_graph.py:101-129 | The book key order after construction lists every book a cohort user rated, each once. |
| RunningMean.AddToMean | similar_books_graph.py:116-122 | The new mean times `n` equals the old mean times `n-1` plus the new rating. |
| RunningMean.RemoveFromMean | similar_books_graph.py:231-238 | The new mean times `n-1` equals the old mean times `n` minus the removed rating. This is the inverse of the update in `__init__`. |
| RunningMean.MeanAfterAdd | similar_books_graph.py:114-122 | If the old rating is the mean of the book's raters, the updated rating is the mean of those raters plus the new one. |
| RunningMean.MeanAfterRemove | similar_books_graph.py:231-241 | If the old rating is the mean of `n > 1` raters, the inverse update gives the mean of the other `n-1`. |
| RunningMean.MeanOfOne | similar_books_graph.py:128-129 | A single rater's rating is the mean of that one rating. |
| RunningMean.MeanIsAverage | similar_books_graph.py:35-36 | Where a book has raters, the mean invariant pins its rating to the sum of their ratings divided by their number. |
| SimilarBooksGraph.BookNetwork.RatingIsAverage | similar_books_graph.py:35-36 | In a valid graph, every connected book's rating is the arithmetic mean of its connected users' ratings. |
| SimilarBooksGraph.BookNetwork.StatisticPick | similar_books_graph.py:146-172 | When `n >= len(books) - len(used)` (the short-circuit test), the result is every book id in key order. Otherwise the result has exactly `n` ids. |
| SimilarBooksGraph.BookNetwork.StatisticPickIsTop | similar_books_graph.py:154-170 | Outside the short-circuit, the result is `n` distinct books that were not served before. They come in non-increasing metric order, with ties in insertion order. Every other unserved book ranks below each of them. |
| SimilarBooksGraph.BookNetwork.GetBooksByStatistic | similar_books_graph.py:134-172 | The result is the ranking's pick from the state before the call. `used` grows by exactly the returned ids. In the short-circuit case `used` is unchanged. |
| SimilarBooksGraph.BookNetwork.ServeTop | similar_books_graph.py:157-172 | The scan returns the first `n` ids of the ranking that are not in `used`, and adds exactly those to `used`. Its index never runs past the ranking. |
| Ranking.SortDesc | similar_books_graph.py:154 | The sort returns a permutation of its input: the same multiset of ids. |
| Ranking.SortDescRanked | similar_books_graph.py:154 | The sort keeps ids distinct and orders them by key in descending order. Equal keys keep their original order, because the sort is stable. |
| Ranking.PickIsTopUnused | similar_books_graph.py:154-170 | The first `n` unserved ids of the stable descending sort are distinct and unserved, in ranked order. They rank before every other unserved id. |
| SimilarBooksGraph.BookNetwork.GetBooksByRandom | similar_books_graph.py:174-195 | In the short-circuit case the result is every book id and `used` is unchanged. Otherwise the result is the books the draws pick, and `used` grows by exactly those. |
| SimilarBooksGraph.BookNetwork.DrawUnused | similar_books_graph.py:185-195 | The draw loop returns the picks of `DrawPicks` for the given draws and adds exactly them to `used`. |
| RandomDraw.DrawPicks | similar_books_graph.py:185-195 | The draws pick at most `n` books. |
| RandomDraw.DrawPicksFresh | similar_books_graph.py:186-193 | The picked books are distinct books of the graph, and none was served before. |
| RandomDraw.DrawPicksEnough | similar_books_graph.py:186-193 | Once the draws have reached `n` unserved books, exactly `n` are picked. |
| RandomDraw.AsWrittenAgrees | similar_books_graph.py:186-193 | When every draw is a valid index, the loop as written and the corrected loop pick the same books. |
| RandomDraw.DrawPicksAsWritten | similar_books_graph.py:185-195 | The draw loop as written, with `randint`'s inclusive bound: it fails (`None`) only when some draw is `len(ids)`, and otherwise picks at most `n` books of the graph, none served before, as the loop does. |
| RandomDraw.RandintCanOverrun | similar_books_graph.py:188-190 | With the inclusive bound of `randint`, a first draw of `len(ids)` makes the loop as written fail, although unserved books remain. |
| GraphState.Dissimilar | similar_books_graph.py:204-214 | The users `prune` removes are exactly those who rated some excluded book at least 3.5. They come in the order of the user list, without repeats. |
| SimilarBooksGraph.BookNetwork.DissimilarUsers | similar_books_graph.py:202-216 | Read off a valid graph, the dissimilar users are exactly the graph's users who liked an excluded book, and none is repeated. |
| SimilarBooksGraph.BookNetwork.LikesExcluded | similar_books_graph.py:208-214 | The inner loop of `prune`, including its `break`, answers whether the user rated some excluded book at least 3.5. |
| SimilarBooksGraph.BookNetwork.Prune | similar_books_graph.py:197-216 | The returned users are exactly the dissimilar users, in key order. The new state is the old state with each of them disconnected in turn, and the invariant holds. Exactly those users leave `users`. The book keys do not change. |
| GraphState.DropUsers | similar_books_graph.py:206-214 | Disconnecting a list of users removes exactly those user keys. It leaves the book keys and their order unchanged. |
| SimilarBooksGraph.BookNetwork.Disconnect | similar_books_graph.py:218-261 | Disconnecting a user node or a book node gives the corresponding value-level removal and keeps the invariant. |
| SimilarBooksGraph.BookNetwork.DisconnectUser | similar_books_graph.py:223-244 | Removing a user node gives `DropUser` of the old state and keeps the invariant, including every book's mean. |
| SimilarBooksGraph.BookNetwork.UnlinkRatings | similar_books_graph.py:226-241 | After the loop, every book the user was connected to has dropped the user and undone the user's rating, whatever the order of the books. |
| SimilarBooksGraph.BookNetwork.DropRater | similar_books_graph.py:228-241 | The book loses the user. Its mean undoes the user's rating only when `n > 1`; otherwise the mean is left as it was. |
| GraphState.DropUser | similar_books_graph.py:223-244 | Disconnecting a user removes exactly that user key and keeps the book keys and their order. |
| GraphState.ConsistentDropUser | similar_books_graph.py:223-244 | Disconnecting a user keeps the invariant, including every book's mean over its remaining users. Every book loses the user, and every other user keeps its connections. |
| GraphState.DropUserRatings | similar_books_graph.py:231-241 | Each of the user's books stays in the graph. With other raters left, its rating becomes their average. With the user as its only rater, its rating is kept and it is left with no connection. |
| SimilarBooksGraph.BookNetwork.DisconnectBook | similar_books_graph.py:247-261 | Removing a book node gives `DropBook` of the old state and keeps the invariant. |
| SimilarBooksGraph.BookNetwork.DropBookOfUser | similar_books_graph.py:250-258 | The user loses the book, and leaves `users` and its key order exactly when it has no connection left. |
| GraphState.DropBook | similar_books_graph.py:247-261 | Disconnecting a book removes exactly that book key and the users left with no connection. |
| GraphState.ConsistentDropBook | similar_books_graph.py:247-261 | Disconnecting a book keeps the invariant. Every remaining user loses the book, and a user leaves exactly when the book was its only connection. |
| BookSelection.RatingMetric | book_selection.py:48-69 | The score is 0 below 10 connections. Otherwise it lies between the catalog rating and the graph's mean rating. |
| BookSelection.BayesianBetween | book_selection.py:53-69 | The Bayesian average with weight 3 lies between the two averages it combines. |
| BookSelection.RatingMetricAgrees | book_selection.py:61-69 | When the graph's mean equals the catalog rating, the score is that rating. |
| BookSelection.RatingMetricMonotone | book_selection.py:61-69 | For the same catalog rating and number of connections, a higher graph rating never gives a lower score. |
| BookSelection.PopularityMetric | book_selection.py:80 | The popularity score is never negative. |
| BookSelection.PopularityOrder | book_selection.py:80 | Popularity scores compare exactly as the numbers of connections do, in both directions. |
| BookSelection.RatingPickIsTop | book_selection.py:77-78 | A ranking by the rating metric picks `n` distinct unserved books. None of them scores lower than an unserved book left out. |
| BookSelection.PopularityPickIsTop | book_selection.py:79-80 | A ranking by popularity picks `n` distinct unserved books. None of them has fewer connections than an unserved book left out. |
| BookSelection.RunBookNetwork.GetRecommendedBooks | book_selection.py:71-82 | `"rating"` and `"popularity"` return the statistic ranking with their metric, and any other string returns the random ranking. It always uses `n = 3`. `used` grows by exactly what is returned, except in the short-circuit case. |

## Left out

- Reading the data files and the catalog is not modelled: `RunBookNetwork.__init__` and `data_gen.py`. The runner's constructor only stores a catalog and an already built graph.
- The GUI (`GUI.py`) is not part of this model.
- The `__str__` methods and the doctest and lint blocks under `__main__` are not part of this model.
- The Python RNG is not modelled. The indices that `random.randint` returns are the parameter `draws`.
- SimilarBooksGraph.BookNetwork.GetBooksByRandom: the draw loop also stops when the given draws run out, so the model can return fewer than `n` books. The source retries until `n` are found, which need not terminate. `RandomDraw.DrawPicksEnough` gives exactly `n` once the draws reach `n` unserved books.
- Floating point is modelled as exact `real` arithmetic. The incremental and inverse mean updates are therefore exact, whereas Python's floats are rounded.
- `n` is a natural number. No caller passes a negative count.
- Node objects and their aliasing are replaced by ids. A node's `connected` dict becomes the set of its neighbours' ids. Identity-based effects, such as a node that is kept after being removed from the graph, are not captured.
- The loop of `disconnect` over a node's `connected` dict is modelled as picking the neighbours in any order. The proof shows that the result does not depend on the order.
- SimilarBooksGraph.BookNetwork.constructor: it requires a cohort without repeated ids. The source only assumes this, because its one caller passes dict keys. A repeated id would count an existing edge a second time and corrupt the mean.
- BookSelection.RatingMetric and BookSelection.RunBookNetwork.GetRecommendedBooks require every book being ranked by rating to be in the catalog. The source raises a `KeyError` on a missing book (`self.all_books[book.obj_id]`), and the model does not represent that error.
- Nothing in the model keeps `used` a subset of the book keys. The rankings are proved without that assumption.

## Findings

| source | as written | input that shows it | evidently intended | confidence | as-written member | corrected member |
|---|---|---|---|---|---|---|
| similar_books_graph.py:188 | `random.randint(0, len(book_id_lst))` includes its upper bound, and `book_id_lst[choice]` then raises an IndexError | books `["b1", "b2"]`, nothing served, `n = 1`, and a first draw of `2` (any ids, any `n > 0`, first draw `len(ids)`: `RandomDraw.RandintCanOverrun`) | an index in `[0, len(book_id_lst))` | not executed | RandomDraw.DrawPicksAsWritten | RandomDraw.DrawPicks |
