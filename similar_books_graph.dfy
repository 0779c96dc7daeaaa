/** The user–book graph of `similar_books_graph.py` as an object whose methods update it
    in place. The nodes are stored as an arena: every node lives under its own id in
    `users` or `books`, and a node's `connected` dict becomes the set of its neighbours'
    ids (module GraphState states the invariant and the value-level specifications). */
module SimilarBooksGraph {
  import opened Sequences
  import opened Ranking
  import opened RunningMean
  import opened GraphState
  import opened RandomDraw

  /** A node of the graph, as `disconnect` receives it: its kind and its id. */
  datatype Node = UserNode(id: UserID) | BookNode(id: BookID)

  /** What a ranking metric sees of a book node: its id, how many users it is connected
      to, and its running mean rating. */
  datatype BookStat = BookStat(id: BookID, connections: nat, rating: real)

  class BookNetwork {
    /** Each user in the graph with the ids of the books it is connected to. */
    var users: Adjacency<UserID, BookID>
    /** The key order of `users`. */
    var userOrder: seq<UserID>
    /** Each book in the graph with the ids of the users it is connected to. */
    var books: Adjacency<BookID, UserID>
    /** The key order of `books`: the order of `list(self.books.values())`. */
    var bookOrder: seq<BookID>
    /** Each book node's running mean rating. */
    var rating: map<BookID, real>
    /** The rating history the graph was built from; never changed. */
    const usersRead: map<UserID, Reviews>
    /** Ids of the books already recommended. */
    var used: set<BookID>

    /** The fields the graph operations change, as one value. */
    ghost function State(): Graph
      reads this`users, this`userOrder, this`books, this`bookOrder, this`rating
    {
      Graph(users, userOrder, books, bookOrder, rating)
    }

    ghost predicate Valid()
      reads this`users, this`userOrder, this`books, this`bookOrder, this`rating
    {
      Consistent(State(), usersRead)
    }

    /** The snapshot of book `b` that a metric is applied to. */
    function Stat(b: BookID): (s: BookStat)
      reads this`books, this`rating
      requires b in books && b in rating
      ensures s.id == b && s.connections == |books[b]| && s.rating == rating[b]
    {
      BookStat(b, |books[b]|, rating[b])
    }

    /** A book's rating is the average of the ratings of the users connected to it. */
    lemma RatingIsAverage(b: BookID)
      requires Valid() && b in books && books[b] != {}
      ensures b in rating && Rated(usersRead, books[b], b)
      ensures rating[b] == Total(usersRead, books[b], b) / (|books[b]| as real)
    {
      MeanOf(State(), usersRead, b);
      MeanIsAverage(rating[b], usersRead, books[b], b);
    }

    /** Every book can be given to the metric. */
    ghost predicate Applicable(metric: BookStat --> real)
      reads this`books, this`rating
    {
      forall b :: b in books && b in rating ==> metric.requires(Stat(b))
    }

    /** The sort key of every book, computed once as `list.sort(key=...)` does. */
    function Scores(metric: BookStat --> real): (key: map<BookID, real>)
      reads this`books, this`rating
      requires rating.Keys == books.Keys && Applicable(metric)
      ensures key.Keys == books.Keys
      ensures forall b :: b in key ==> key[b] == metric(Stat(b))
    {
      map b | b in books :: metric(Stat(b))
    }

    /** When the short-circuit is not taken, the ranking holds more than `n` unserved
        books, so the scan never runs past its end. */
    lemma EnoughUnserved(key: map<BookID, real>, n: nat)
      requires Valid() && Keyed(bookOrder, key) && n < |books| - |used|
      ensures n < |Except(SortDesc(bookOrder, key), used)|
    {
      BooksListed(State(), usersRead);
      SortDescRanked(bookOrder, key);
      ExceptCount(SortDesc(bookOrder, key), used);
    }

    /** What `get_books_by_statistic(metric, n)` returns from the current state. */
    ghost function StatisticPick(metric: BookStat --> real, n: nat): (r: seq<BookID>)
      reads this`users, this`userOrder, this`books, this`bookOrder, this`rating, this`used
      requires Valid()
      requires n < |books| - |used| ==> Applicable(metric)
      ensures n >= |books| - |used| ==> r == bookOrder
      ensures n < |books| - |used| ==> |r| == n
    {
      if n >= |books| - |used| then bookOrder
      else
        BooksListed(State(), usersRead);
        EnoughUnserved(Scores(metric), n);
        Pick(bookOrder, Scores(metric), used, n)
    }

    /** The result of the statistic ranking, when the short-circuit is not taken: `n`
        distinct books not served before, ranked by descending metric with ties in
        insertion order, and every other unserved book ranks below each of them. */
    lemma StatisticPickIsTop(metric: BookStat --> real, n: nat)
      requires Valid()
      requires n < |books| - |used|
      requires Applicable(metric)
      ensures rating.Keys == books.Keys
      ensures forall b :: b in bookOrder <==> b in books
      ensures var r := StatisticPick(metric, n);
        && |r| == n
        && Distinct(r)
        && (forall b :: b in r ==> b in books && b !in used)
        && RankedBy(r, bookOrder, Scores(metric))
        && (forall b, i :: b in books && b !in used && b !in r && 0 <= i < n ==>
              Before(bookOrder, Scores(metric), r[i], b))
    {
      BooksListed(State(), usersRead);
      EnoughUnserved(Scores(metric), n);
      PickIsTopUnused(bookOrder, Scores(metric), used, n);
    }

    /** `get_books_by_statistic(metric, n)`: every book id when `n` reaches the number of
        books not yet served, otherwise the `n` best unserved books by `metric`, which
        are then marked as served. */
    method GetBooksByStatistic(metric: BookStat --> real, n: nat) returns (r: seq<BookID>)
      requires Valid()
      requires n < |books| - |used| ==> Applicable(metric)
      modifies this`used
      ensures r == old(StatisticPick(metric, n))
      ensures used == if n >= old(|books| - |used|) then old(used) else old(used) + Elems(r)
    {
      BooksListed(State(), usersRead);
      if n >= |bookOrder| - |used| {
        return bookOrder;
      }
      var key := Scores(metric);
      var ranked := SortDesc(bookOrder, key);
      SortDescRanked(bookOrder, key);
      EnoughUnserved(key, n);
      r := ServeTop(ranked, n);
    }

    /** The scan of `get_books_by_statistic`: walks the ranking from the top, taking and
        marking as served each book not served yet, until `n` are taken. */
    method ServeTop(ranked: seq<BookID>, n: nat) returns (r: seq<BookID>)
      requires Distinct(ranked) && n < |Except(ranked, used)|
      modifies this`used
      ensures r == Except(ranked, old(used))[..n]
      ensures used == old(used) + Elems(r)
    {
      ghost var used0 := used;
      r := [];
      var idx := 0;
      var count := 0;
      while count < n
        invariant 0 <= idx <= |ranked|
        invariant r == Except(ranked[..idx], used0) && count == |r| <= n
        invariant |Except(ranked[idx..], used0)| > n - count
        invariant used == used0 + Elems(r)
        decreases |ranked| - idx
      {
        var b := ranked[idx];
        ExceptStep(ranked, idx, used0);
        if b !in used {
          r := r + [b];
          used := used + {b};
          count := count + 1;
        }
        idx := idx + 1;
      }
      ExceptPrefix(ranked, idx, used0, n);
    }

    /** `get_books_by_random(n)`: every book id when `n` reaches the number of books not
        yet served, otherwise books drawn at random until `n` new ones are taken. The
        random indices are the parameter `draws`; the loop also stops when they run
        out. */
    method GetBooksByRandom(n: nat, draws: seq<nat>) returns (r: seq<BookID>)
      requires Valid()
      requires forall k :: 0 <= k < |draws| ==> draws[k] < |bookOrder|
      modifies this`used
      ensures n >= old(|books| - |used|) ==> r == bookOrder && used == old(used)
      ensures n < old(|books| - |used|) ==>
        r == DrawPicks(bookOrder, old(used), draws, n) && used == old(used) + Elems(r)
    {
      BooksListed(State(), usersRead);
      var ids := bookOrder;
      if n >= |ids| - |used| {
        return ids;
      }
      r := DrawUnused(ids, n, draws);
    }

    /** The draw loop of `get_books_by_random`: a drawn book not served yet is taken and
        marked as served, any other draw is retried. */
    method DrawUnused(ids: seq<BookID>, n: nat, draws: seq<nat>) returns (r: seq<BookID>)
      requires forall k :: 0 <= k < |draws| ==> draws[k] < |ids|
      modifies this`used
      ensures r == DrawPicks(ids, old(used), draws, n)
      ensures used == old(used) + Elems(r)
    {
      ghost var used0 := used;
      r := [];
      var i := 0;
      var k := 0;
      assert draws[0..] == draws;
      while i < n && k < |draws|
        invariant 0 <= k <= |draws| && i == |r| <= n
        invariant r + DrawPicks(ids, used, draws[k..], n - i) == DrawPicks(ids, used0, draws, n)
        invariant used == used0 + Elems(r)
      {
        var choice := draws[k];
        DrawStep(ids, used, draws, k, n - i);
        if ids[choice] !in used {
          r := r + [ids[choice]];
          used := used + {ids[choice]};
          i := i + 1;
        }
        k := k + 1;
      }
      assert draws[|draws|..] == [];
    }

    /** The users `prune(exclude)` removes, read off the current state: those that rated
        some excluded book at least `GoodRating`, in the key order of `users`. */
    ghost function DissimilarUsers(exclude: seq<BookID>): (r: seq<UserID>)
      reads this`users, this`userOrder, this`books, this`bookOrder, this`rating
      requires Valid()
      ensures Distinct(r)
      ensures forall u :: u in r <==> u in users && u in usersRead && LikedAny(usersRead[u], exclude)
    {
      UsersListed(State(), usersRead);
      Dissimilar(userOrder, usersRead, exclude)
    }

    /** The inner loop of `prune` for one user: whether they liked a book of `exclude`. */
    method LikesExcluded(rv: Reviews, exclude: seq<BookID>) returns (liked: bool)
      ensures liked == LikedAny(rv, exclude)
    {
      var j := 0;
      while j < |exclude|
        invariant 0 <= j <= |exclude|
        invariant forall k :: 0 <= k < j ==> !(exclude[k] in rv.score && rv.score[exclude[k]] >= GoodRating)
      {
        var e := exclude[j];
        if e in rv.score && rv.score[e] >= GoodRating {
          return true;
        }
        j := j + 1;
      }
      return false;
    }

    /** `prune(exclude)`: disconnects, in key order, every user that liked one of the
        excluded books, and returns them. Books stay, even those left with no user. */
    method Prune(exclude: seq<BookID>) returns (dissimilar: seq<UserID>)
      requires Valid()
      modifies this`users, this`userOrder, this`books, this`rating, this`bookOrder
      ensures Valid()
      ensures dissimilar == old(DissimilarUsers(exclude))
      ensures State() == DropUsers(old(State()), usersRead, dissimilar)
      ensures users.Keys == old(users.Keys) - Elems(dissimilar) && books.Keys == old(books.Keys)
    {
      ghost var g := State();
      PruningStart(g, usersRead, exclude);
      var us := userOrder;
      dissimilar := [];
      var i := 0;
      while i < |us|
        invariant 0 <= i <= |us|
        invariant Valid()
        invariant Pruning(g, usersRead, us, exclude, i, dissimilar, State())
      {
        var u := us[i];
        PruningStep(g, usersRead, us, exclude, i, dissimilar, State());
        var liked := LikesExcluded(usersRead[u], exclude);
        if liked {
          Disconnect(UserNode(u));
          dissimilar := dissimilar + [u];
        }
        i := i + 1;
      }
      PruningDone(g, usersRead, us, exclude, dissimilar, State());
    }

    /** `disconnect(node)`: removes a user node or a book node from the graph. */
    method Disconnect(node: Node)
      requires Valid()
      requires node.UserNode? ==> node.id in users
      requires node.BookNode? ==> node.id in books
      modifies this`users, this`userOrder, this`books, this`rating, this`bookOrder
      ensures Valid()
      ensures node.UserNode? ==> State() == DropUser(old(State()), usersRead, node.id)
      ensures node.BookNode? ==> State() == DropBook(old(State()), node.id)
    {
      match node
      case UserNode(u) => DisconnectUser(u);
      case BookNode(b) => DisconnectBook(b);
    }

    /** The user branch of `disconnect`: each book the user is connected to undoes the
        user's rating in its mean (when other users remain) and drops the user; then the
        user leaves the graph. */
    method DisconnectUser(u: UserID)
      requires Valid() && u in users
      modifies this`users, this`userOrder, this`books, this`rating
      ensures Valid()
      ensures State() == DropUser(old(State()), usersRead, u)
    {
      ghost var g := State();
      UnlinkRatings(u);
      UnlinkUserAll(g, usersRead, u, State());
      users := users - {u};
      userOrder := Except(userOrder, {u});
      ConsistentDropUser(g, usersRead, u);
    }

    /** The loop of the user branch of `disconnect`: every book connected to user `u`
        drops it and undoes its rating. */
    method UnlinkRatings(u: UserID)
      requires Valid() && u in users
      modifies this`books, this`rating
      ensures UserUnlinked(old(State()), usersRead, u, old(users[u]), State())
    {
      ghost var g := State();
      UnlinkUserNone(g, usersRead, u);
      var todo := users[u];
      ghost var done: set<BookID> := {};
      while todo != {}
        invariant todo + done == g.users[u] && todo !! done
        invariant UserUnlinked(g, usersRead, u, done, State())
        decreases todo
      {
        var b :| b in todo;
        UnlinkUserStep(g, usersRead, u, done, b, State());
        DropRater(u, b);
        todo := todo - {b};
        done := done + {b};
      }
    }

    /** One iteration of the user branch of `disconnect`: book `b` undoes the rating of
        user `u` in its mean, unless `u` is its only user, and drops `u`. */
    method DropRater(u: UserID, b: BookID)
      requires b in books && b in rating && u in usersRead && b in usersRead[u].score
      modifies this`books, this`rating
      ensures books == old(books)[b := old(books)[b] - {u}]
      ensures rating == if |old(books)[b]| > 1
        then old(rating)[b := RemoveFromMean(old(rating)[b], usersRead[u].score[b], |old(books)[b]|)]
        else old(rating)
    {
      var n := |books[b]|;
      if n > 1 {
        rating := rating[b := RemoveFromMean(rating[b], usersRead[u].score[b], n)];
      }
      books := books[b := books[b] - {u}];
    }

    /** The book branch of `disconnect`: each user connected to the book drops it and
        leaves the graph if that was its last connection; then the book leaves the
        graph. */
    method DisconnectBook(b: BookID)
      requires Valid() && b in books
      modifies this`users, this`userOrder, this`books, this`rating, this`bookOrder
      ensures Valid()
      ensures State() == DropBook(old(State()), b)
    {
      ghost var g := State();
      UnlinkBookNone(g, b);
      var todo := books[b];
      ghost var done: set<UserID> := {};
      while todo != {}
        invariant todo + done == g.books[b] && todo !! done
        invariant BookUnlinked(g, b, done, State())
        decreases todo
      {
        var v :| v in todo;
        UnlinkBookStep(g, usersRead, b, done, v, State());
        DropBookOfUser(v, b);
        todo := todo - {v};
        done := done + {v};
      }
      UnlinkBookAll(g, b, State());
      books := books - {b};
      bookOrder := Except(bookOrder, {b});
      rating := rating - {b};
      ConsistentDropBook(g, usersRead, b);
    }

    /** `Node.connect`: records the edge at both ends; connecting twice changes
        nothing. */
    method Connect(u: UserID, b: BookID)
      requires u in users && b in books
      modifies this`users, this`books
      ensures users == old(users)[u := old(users)[u] + {b}]
      ensures books == old(books)[b := old(books)[b] + {u}]
      ensures old(b in users[u] && u in books[b]) ==> users == old(users) && books == old(books)
    {
      if b in users[u] && u in books[b] {
        assert users[u] + {b} == users[u] && books[b] + {u} == books[b];
      }
      users := users[u := users[u] + {b}];
      books := books[b := books[b] + {u}];
    }

    /** `BookNetwork.__init__`: builds the graph of the users in `similar`, the books
        they rated and one edge per rating, keeping each book's mean rating. */
    constructor (similar: seq<UserID>, usersRead: map<UserID, Reviews>)
      requires Distinct(similar)
      requires forall u :: u in similar ==> u in usersRead && usersRead[u].WellFormed()
      ensures Valid()
      ensures this.usersRead == usersRead && used == {}
      ensures userOrder == similar && users.Keys == Elems(similar)
      ensures forall u :: u in users ==> users[u] == usersRead[u].score.Keys
      ensures bookOrder == FirstSeen(similar, usersRead)
      ensures forall b :: b in books <==> exists u :: u in similar && b in usersRead[u].score
      ensures forall b, u :: b in books && u in similar ==> (u in books[b] <==> b in usersRead[u].score)
    {
      users := map[];
      userOrder := [];
      books := map[];
      bookOrder := [];
      rating := map[];
      this.usersRead := usersRead;
      used := {};
      new;
      ConsistentEmpty(usersRead);
      AddUsers(similar);
      FirstSeenAll(similar, usersRead);
      Built(State(), usersRead, similar);
    }

    /** The outer loop of the constructor: adds the users of `similar` in order to an
        empty graph. */
    method AddUsers(similar: seq<UserID>)
      requires Valid() && users == map[] && userOrder == [] && bookOrder == []
      requires Distinct(similar)
      requires forall u :: u in similar ==> u in usersRead && usersRead[u].WellFormed()
      modifies this`users, this`userOrder, this`books, this`rating, this`bookOrder
      ensures Valid()
      ensures userOrder == similar
      ensures forall u :: u in users ==> u in usersRead && users[u] == usersRead[u].score.Keys
      ensures bookOrder == FirstSeen(similar, usersRead)
    {
      var i := 0;
      while i < |similar|
        invariant 0 <= i <= |similar|
        invariant Valid()
        invariant userOrder == similar[..i]
        invariant forall u :: u in users ==> u in usersRead && users[u] == usersRead[u].score.Keys
        invariant bookOrder == FirstSeen(similar[..i], usersRead)
      {
        AddNextUser(similar, i);
        i := i + 1;
      }
      FirstSeenAll(similar, usersRead);
    }

    /** One iteration of the outer loop of the constructor: the cohort's `i`-th user
        joins a graph that holds the users before it. */
    method AddNextUser(similar: seq<UserID>, i: nat)
      requires Valid() && Distinct(similar) && i < |similar|
      requires forall u :: u in similar ==> u in usersRead && usersRead[u].WellFormed()
      requires userOrder == similar[..i]
      requires forall u :: u in users ==> u in usersRead && users[u] == usersRead[u].score.Keys
      requires bookOrder == FirstSeen(similar[..i], usersRead)
      modifies this`users, this`userOrder, this`books, this`rating, this`bookOrder
      ensures Valid()
      ensures userOrder == similar[..i + 1]
      ensures forall u :: u in users ==> u in usersRead && users[u] == usersRead[u].score.Keys
      ensures bookOrder == FirstSeen(similar[..i + 1], usersRead)
    {
      var u := similar[i];
      UsersListed(State(), usersRead);
      assert u !in similar[..i];
      FirstSeenStep(similar, usersRead, i);
      AddUser(u);
      assert similar[..i + 1] == similar[..i] + [u];
    }

    /** One iteration of the constructor's outer loop: a new node for user `u`,
        connected to every book `u` rated. */
    method AddUser(u: UserID)
      requires Valid()
      requires u !in users && u in usersRead && usersRead[u].WellFormed()
      modifies this`users, this`userOrder, this`books, this`rating, this`bookOrder
      ensures Valid()
      ensures users == old(users)[u := usersRead[u].score.Keys]
      ensures userOrder == old(userOrder) + [u]
      ensures bookOrder == AppendNew(old(bookOrder), usersRead[u].books)
      ensures books == Joined(old(books), u, usersRead[u].score.Keys)
      ensures forall b :: b in old(rating) && b !in usersRead[u].score ==> b in rating && rating[b] == old(rating)[b]
    {
      AddUserNode(u);
      AddRatings(u);
      UpdateTwice(old(users), u, {}, usersRead[u].score.Keys);
    }

    /** A new user node, not yet connected (`self.users[u_id] = user_node`). */
    method AddUserNode(u: UserID)
      requires Valid()
      requires u !in users && u in usersRead
      modifies this`users, this`userOrder
      ensures Valid()
      ensures users == old(users)[u := {}]
      ensures userOrder == old(userOrder) + [u]
    {
      ConsistentAddUser(State(), usersRead, u);
      users := users[u := {}];
      userOrder := userOrder + [u];
    }

    /** The inner loop of the constructor: connects the new user `u` to every book it
        rated, in the order of its ratings. */
    method AddRatings(u: UserID)
      requires Valid()
      requires u in users && users[u] == {} && u in usersRead && usersRead[u].WellFormed()
      modifies this`users, this`books, this`rating, this`bookOrder
      ensures Valid()
      ensures users == old(users)[u := usersRead[u].score.Keys]
      ensures bookOrder == AppendNew(old(bookOrder), usersRead[u].books)
      ensures books == Joined(old(books), u, usersRead[u].score.Keys)
      ensures forall b :: b in old(rating) && b !in usersRead[u].score ==> b in rating && rating[b] == old(rating)[b]
    {
      var rv := usersRead[u];
      JoinedNothing(books, u);
      ghost var seen: set<BookID> := {};
      var j := 0;
      while j < |rv.books|
        invariant 0 <= j <= |rv.books|
        invariant Valid()
        invariant users == old(users)[u := seen]
        invariant seen <= rv.score.Keys
        invariant forall k :: 0 <= k < j ==> rv.books[k] in seen
        invariant forall k :: j <= k < |rv.books| ==> rv.books[k] !in seen
        invariant bookOrder == AppendNew(old(bookOrder), rv.books[..j])
        invariant books == Joined(old(books), u, seen)
        invariant forall b :: b in old(rating) && b !in seen ==> b in rating && rating[b] == old(rating)[b]
      {
        var b := rv.books[j];
        AppendNewStep(old(bookOrder), rv.books, j);
        JoinedStep(old(books), u, seen, b);
        AddRating(u, b);
        UpdateTwice(old(users), u, seen, seen + {b});
        seen := seen + {b};
        j := j + 1;
      }
      AppendNewAll(old(bookOrder), rv.books);
      assert seen == rv.score.Keys;
    }

    /** One rating of the constructor: connects user `u` to book `b`, which is either
        already in the graph or gets a new node. */
    method AddRating(u: UserID, b: BookID)
      requires Valid()
      requires u in users && b !in users[u]
      requires u in usersRead && b in usersRead[u].score
      modifies this`users, this`books, this`rating, this`bookOrder
      ensures Valid()
      ensures users == old(users)[u := old(users)[u] + {b}]
      ensures bookOrder == if b in old(bookOrder) then old(bookOrder) else old(bookOrder) + [b]
      ensures b in old(books) ==> b in old(rating)
      ensures books == if b in old(books) then old(books)[b := old(books)[b] + {u}] else old(books)[b := {u}]
      ensures rating ==
        if b in old(books) then old(rating)[b := AddToMean(old(rating)[b], usersRead[u].score[b], |books[b]|)]
        else old(rating)[b := usersRead[u].score[b]]
    {
      BooksListed(State(), usersRead);
      if b in books {
        RateKnownBook(u, b);
      } else {
        RateNewBook(u, b);
      }
    }

    /** A rating of a book already in the graph: connects the two nodes, then folds the
        rating into the book's running mean with `n` the book's new number of
        connections. */
    method RateKnownBook(u: UserID, b: BookID)
      requires Valid()
      requires u in users && b in books && b !in users[u]
      requires u in usersRead && b in usersRead[u].score
      modifies this`users, this`books, this`rating
      ensures Valid()
      ensures users == old(users)[u := old(users)[u] + {b}]
      ensures books == old(books)[b := old(books)[b] + {u}]
      ensures b in old(rating) && u !in old(books)[b]
      ensures rating == old(rating)[b := AddToMean(old(rating)[b], usersRead[u].score[b], |books[b]|)]
    {
      ghost var g := State();
      ConsistentRateKnown(g, usersRead, u, b);
      Connect(u, b);
      var n := |books[b]|;
      rating := rating[b := AddToMean(rating[b], usersRead[u].score[b], n)];
      assert State() == g.(users := g.users[u := g.users[u] + {b}],
                           books := g.books[b := g.books[b] + {u}],
                           rating := g.rating[b := AddToMean(g.rating[b], usersRead[u].score[b], |g.books[b] + {u}|)]);
    }

    /** The first rating of a book: a new book node, last in the key order, connected to
        `u` and given `u`'s rating as its mean. */
    method RateNewBook(u: UserID, b: BookID)
      requires Valid()
      requires u in users && b !in books
      requires u in usersRead && b in usersRead[u].score
      modifies this`users, this`books, this`rating, this`bookOrder
      ensures Valid()
      ensures users == old(users)[u := old(users)[u] + {b}]
      ensures books == old(books)[b := {u}]
      ensures bookOrder == old(bookOrder) + [b]
      ensures rating == old(rating)[b := usersRead[u].score[b]]
    {
      ghost var g := State();
      ConsistentRateNew(g, usersRead, u, b);
      books := books[b := {}];
      bookOrder := bookOrder + [b];
      Connect(u, b);
      rating := rating[b := usersRead[u].score[b]];
      assert {} + {u} == {u};
      UpdateTwice(g.books, b, {}, {u});
      assert State() == g.(users := g.users[u := g.users[u] + {b}],
                           books := g.books[b := {u}],
                           bookOrder := g.bookOrder + [b],
                           rating := g.rating[b := usersRead[u].score[b]]);
    }

    /** One iteration of the book branch of `disconnect`: user `v` drops book `b`, and
        leaves the graph when it has no connection left. */
    method DropBookOfUser(v: UserID, b: BookID)
      requires v in users
      modifies this`users, this`userOrder
      ensures var users1 := old(users)[v := old(users)[v] - {b}];
        if users1[v] == {} then users == users1 - {v} && userOrder == Except(old(userOrder), {v})
        else users == users1 && userOrder == old(userOrder)
    {
      users := users[v := users[v] - {b}];
      if |users[v]| == 0 {
        users := users - {v};
        userOrder := Except(userOrder, {v});
      }
    }
  }
}
