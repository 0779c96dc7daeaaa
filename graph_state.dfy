/** The state of the user–book graph of `similar_books_graph.py` as plain values, the
    invariant that state keeps, and the pure functions that specify the graph's
    operations. The graph is an arena: each node lives under its own id in `users` or in
    `books`, and a node's `connected` dict becomes the set of its neighbours' ids. Keys
    therefore equal node ids, and the graph is bipartite because a user only ever holds
    book ids and a book only user ids. */
module GraphState {
  import opened Sequences
  import opened RunningMean

  type Adjacency<K, V> = map<K, set<V>>

  /** The fields of a `BookNetwork` that its operations change: both node dicts with
      their key orders, and each book node's running mean rating. */
  datatype Graph = Graph(users: Adjacency<UserID, BookID>, userOrder: seq<UserID>,
                         books: Adjacency<BookID, UserID>, bookOrder: seq<BookID>,
                         rating: map<BookID, real>)

  /** Every edge is stored at both ends. */
  ghost predicate Linked(users: Adjacency<UserID, BookID>, books: Adjacency<BookID, UserID>) {
    && (forall u, b :: u in users && b in users[u] ==> b in books && u in books[b])
    && (forall b, u :: b in books && u in books[b] ==> u in users && b in users[u])
  }

  /** Every user in the graph has a rating history that covers its edges. */
  ghost predicate Recorded(users: Adjacency<UserID, BookID>, read: map<UserID, Reviews>) {
    && (forall u :: u in users ==> u in read)
    && (forall u, b :: u in users && b in users[u] ==> b in read[u].score)
  }

  /** `order` lists the keys `keys` once each: a dict's key order. */
  ghost predicate KeyOrder<K(!new)>(order: seq<K>, keys: set<K>) {
    Distinct(order) && Elems(order) == keys
  }

  /** Each book's rating is the mean of the ratings of its connected users. */
  ghost predicate Averaged(books: Adjacency<BookID, UserID>, rating: map<BookID, real>, read: map<UserID, Reviews>) {
    && rating.Keys == books.Keys
    && forall b :: b in books ==> IsMean(rating[b], read, books[b], b)
  }

  /** The invariant of a `BookNetwork` built from the rating history `read`. */
  ghost predicate Inv(g: Graph, read: map<UserID, Reviews>) {
    && Linked(g.users, g.books)
    && Recorded(g.users, read)
    && KeyOrder(g.userOrder, g.users.Keys)
    && KeyOrder(g.bookOrder, g.books.Keys)
    && Averaged(g.books, g.rating, read)
  }

  /** True of every integer. Its only use is as the trigger that keeps `Consistent`
      folded: the verifier opens it where a proof mentions `Guard`, and nowhere else. */
  ghost predicate Guard(k: int) { true }

  /** `Inv`, folded. */
  ghost predicate Consistent(g: Graph, read: map<UserID, Reviews>) {
    forall k {:trigger Guard(k)} :: Guard(k) ==> Inv(g, read)
  }

  lemma Unfold(g: Graph, read: map<UserID, Reviews>)
    requires Consistent(g, read)
    ensures Inv(g, read)
  {
    assert Guard(0);
  }

  // What the operations may rely on.

  /** The users of the graph are listed once each in `userOrder`, and each has a
      rating history. */
  lemma UsersListed(g: Graph, read: map<UserID, Reviews>)
    requires Consistent(g, read)
    ensures Distinct(g.userOrder)
    ensures forall u :: u in g.userOrder <==> u in g.users
    ensures forall u :: u in g.users ==> u in read
  {
    Unfold(g, read);
  }

  /** The books of the graph are listed once each in `bookOrder`, and each has a
      rating. */
  lemma BooksListed(g: Graph, read: map<UserID, Reviews>)
    requires Consistent(g, read)
    ensures Distinct(g.bookOrder) && |g.bookOrder| == |g.books|
    ensures forall b :: b in g.bookOrder <==> b in g.books
    ensures g.rating.Keys == g.books.Keys
  {
    Unfold(g, read);
    DistinctCard(g.bookOrder);
  }

  /** A user's neighbours are books of the graph that list it back and that it rated. */
  lemma UserEdges(g: Graph, read: map<UserID, Reviews>, u: UserID)
    requires Consistent(g, read) && u in g.users
    ensures u in read
    ensures forall b :: b in g.users[u] ==> b in g.books && u in g.books[b] && b in read[u].score
  {
    Unfold(g, read);
  }

  /** A book's neighbours are users of the graph that list it back. */
  lemma BookEdges(g: Graph, read: map<UserID, Reviews>, b: BookID)
    requires Consistent(g, read) && b in g.books
    ensures forall v :: v in g.books[b] ==> v in g.users && b in g.users[v]
  {
    Unfold(g, read);
  }

  /** Every book's rating is the mean of its connected users' ratings. */
  lemma MeanOf(g: Graph, read: map<UserID, Reviews>, b: BookID)
    requires Consistent(g, read) && b in g.books
    ensures b in g.rating && IsMean(g.rating[b], read, g.books[b], b)
  {
    Unfold(g, read);
  }

  /** Appends the ids of `bs` that `acc` does not hold yet, in order: what adding
      books to a dict does to its key order. */
  function AppendNew(acc: seq<BookID>, bs: seq<BookID>): (r: seq<BookID>)
    decreases |bs|
  {
    if bs == [] then acc
    else
      var p := AppendNew(acc, bs[..|bs| - 1]);
      if bs[|bs| - 1] in p then p else p + [bs[|bs| - 1]]
  }

  /** Adding one more book to the dict. */
  lemma AppendNewStep(acc: seq<BookID>, bs: seq<BookID>, j: nat)
    requires j < |bs|
    ensures AppendNew(acc, bs[..j + 1]) ==
      var p := AppendNew(acc, bs[..j]);
      if bs[j] in p then p else p + [bs[j]]
  {
    assert bs[..j + 1][..j] == bs[..j];
  }

  /** The whole of `bs`, taken one by one. */
  lemma AppendNewAll(acc: seq<BookID>, bs: seq<BookID>)
    ensures bs[..|bs|] == bs && AppendNew(acc, bs[..|bs|]) == AppendNew(acc, bs)
  {
    assert bs[..|bs|] == bs;
  }

  /** The keys after the additions are the old keys and the added ones, each once. */
  lemma {:induction false} AppendNewKeys(acc: seq<BookID>, bs: seq<BookID>)
    ensures forall b :: b in AppendNew(acc, bs) <==> b in acc || b in bs
    ensures Distinct(acc) ==> Distinct(AppendNew(acc, bs))
    decreases |bs|
  {
    if bs != [] {
      var init := bs[..|bs| - 1];
      assert bs == init + [bs[|bs| - 1]];
      AppendNewKeys(acc, init);
    }
  }

  /** The book adjacency after user `u` has rated the books in `rated`: each of them is
      connected to `u`, and is a new node when it was not in the graph. */
  function Joined(books: Adjacency<BookID, UserID>, u: UserID, rated: set<BookID>): (r: Adjacency<BookID, UserID>)
    ensures r.Keys == books.Keys + rated
  {
    map b | b in books.Keys + rated :: if b in rated then (if b in books then books[b] else {}) + {u} else books[b]
  }

  /** Rating one more book `b`: a known book gains `u`, an unknown one becomes a node
      connected to `u` alone. */
  lemma JoinedStep(books: Adjacency<BookID, UserID>, u: UserID, rated: set<BookID>, b: BookID)
    requires b !in rated
    ensures var j := Joined(books, u, rated);
      (if b in j then j[b := j[b] + {u}] else j[b := {u}]) == Joined(books, u, rated + {b})
  {
    var j := Joined(books, u, rated);
    if b !in j {
      assert {} + {u} == {u};
    }
  }

  /** The key order of `books` after construction from the cohort `similar`: every
      book any cohort user rated, once, in the order it was first met. */
  function FirstSeen(similar: seq<UserID>, read: map<UserID, Reviews>): (r: seq<BookID>)
    requires forall u :: u in similar ==> u in read
    decreases |similar|
  {
    if similar == [] then []
    else
      var prefix := similar[..|similar| - 1];
      assert similar == prefix + [similar[|similar| - 1]];
      AppendNew(FirstSeen(prefix, read), read[similar[|similar| - 1]].books)
  }

  /** Construction order: the users of `similar` are added one after another. */
  lemma FirstSeenStep(similar: seq<UserID>, read: map<UserID, Reviews>, i: nat)
    requires i < |similar| && forall u :: u in similar ==> u in read
    ensures FirstSeen(similar[..i + 1], read) == AppendNew(FirstSeen(similar[..i], read), read[similar[i]].books)
  {
    assert similar[..i + 1][..i] == similar[..i];
  }

  lemma FirstSeenAll(similar: seq<UserID>, read: map<UserID, Reviews>)
    requires forall u :: u in similar ==> u in read
    ensures similar[..|similar|] == similar && FirstSeen(similar[..|similar|], read) == FirstSeen(similar, read)
  {
    assert similar[..|similar|] == similar;
  }

  /** The key order after construction lists every book some cohort user rated, once. */
  lemma {:induction false} FirstSeenBooks(similar: seq<UserID>, read: map<UserID, Reviews>)
    requires forall u :: u in similar ==> u in read
    ensures Distinct(FirstSeen(similar, read))
    ensures forall b :: b in FirstSeen(similar, read) <==> exists u :: u in similar && b in read[u].books
    decreases |similar|
  {
    if similar != [] {
      var prefix := similar[..|similar| - 1];
      var last := similar[|similar| - 1];
      assert similar == prefix + [last];
      FirstSeenBooks(prefix, read);
      AppendNewKeys(FirstSeen(prefix, read), read[last].books);
      forall b ensures b in FirstSeen(similar, read) <==> exists u :: u in similar && b in read[u].books {
        if b in read[last].books {
          assert last in similar;
        }
        if b in FirstSeen(prefix, read) {
          var u :| u in prefix && b in read[u].books;
          assert u in similar;
        }
        if exists u :: u in similar && b in read[u].books {
          var u :| u in similar && b in read[u].books;
          if u != last {
            assert u in prefix;
          }
        }
      }
    }
  }

  /** A graph built from the cohort `similar`, each user connected to exactly the books
      it rated, holds a node for every book a cohort user rated and an edge for every
      rating. */
  lemma Built(g: Graph, read: map<UserID, Reviews>, similar: seq<UserID>)
    requires Consistent(g, read) && g.userOrder == similar
    requires forall u :: u in similar ==> u in read && read[u].WellFormed()
    requires forall u :: u in g.users ==> u in read && g.users[u] == read[u].score.Keys
    requires g.bookOrder == FirstSeen(similar, read)
    ensures g.users.Keys == Elems(similar)
    ensures forall b :: b in g.books <==> exists u :: u in similar && b in read[u].score
    ensures forall b, u :: b in g.books && u in similar ==> (u in g.books[b] <==> b in read[u].score)
  {
    Unfold(g, read);
    FirstSeenBooks(similar, read);
    forall b ensures b in g.books <==> exists u :: u in similar && b in read[u].score {
      if exists u :: u in similar && b in read[u].score {
        var u :| u in similar && b in read[u].score;
        assert b in Elems(read[u].books);
      }
      if b in g.books {
        assert b in Elems(g.bookOrder);
        var u :| u in similar && b in read[u].books;
        assert b in Elems(read[u].books);
      }
    }
  }

  /** A rating at or above this counts as liking the book. */
  const GoodRating: real := 3.5

  /** The condition `prune` tests for one user: they rated some rejected book at least
      `GoodRating`. It looks at the full rating history, not at the current edges. */
  predicate LikedAny(rv: Reviews, exclude: seq<BookID>) {
    exists e :: e in exclude && e in rv.score && rv.score[e] >= GoodRating
  }

  /** The users of `us` that `prune` judges dissimilar, in the order of `us`. */
  function Dissimilar(us: seq<UserID>, read: map<UserID, Reviews>, exclude: seq<BookID>): (r: seq<UserID>)
    requires forall u :: u in us ==> u in read
    ensures forall u :: u in r <==> u in us && LikedAny(read[u], exclude)
    ensures Distinct(us) ==> Distinct(r)
    decreases |us|
  {
    if us == [] then []
    else
      var prefix := us[..|us| - 1];
      var u := us[|us| - 1];
      assert us == prefix + [u];
      Dissimilar(prefix, read, exclude) + (if LikedAny(read[u], exclude) then [u] else [])
  }


  /** The users that removing book `b` leaves with no connection: `disconnect` deletes
      them from the graph. */
  function Stranded(g: Graph, b: BookID): (s: set<UserID>)
    requires b in g.books
  {
    set v | v in g.books[b] && v in g.users && g.users[v] - {b} == {}
  }

  /** `disconnect` of a user node: the user leaves the graph and every book it was
      connected to loses it, undoing that user's rating in the book's mean when other
      raters remain. */
  function DropUser(g: Graph, read: map<UserID, Reviews>, u: UserID): (r: Graph)
    requires u in g.users
    ensures r.users.Keys == g.users.Keys - {u}
    ensures r.books.Keys == g.books.Keys && r.bookOrder == g.bookOrder
  {
    g.(users := g.users - {u},
       userOrder := Except(g.userOrder, {u}),
       books := map b | b in g.books :: if b in g.users[u] then g.books[b] - {u} else g.books[b],
       rating := map b | b in g.rating ::
         if b in g.users[u] && b in g.books && |g.books[b]| > 1 && u in read && b in read[u].score
         then RemoveFromMean(g.rating[b], read[u].score[b], |g.books[b]|)
         else g.rating[b])
  }

  /** `disconnect` of a book node: the book leaves the graph, every user connected to it
      loses it, and the users left with no connection leave the graph too. */
  function DropBook(g: Graph, b: BookID): (r: Graph)
    requires b in g.books
    ensures r.users.Keys == g.users.Keys - Stranded(g, b)
    ensures r.books.Keys == g.books.Keys - {b}
  {
    var gone := Stranded(g, b);
    g.(users := map v | v in g.users && v !in gone :: if v in g.books[b] then g.users[v] - {b} else g.users[v],
       userOrder := Except(g.userOrder, gone),
       books := g.books - {b},
       bookOrder := Except(g.bookOrder, {b}),
       rating := g.rating - {b})
  }

  /** `prune`'s removals: the users of `us` disconnected one after another. */
  function DropUsers(g: Graph, read: map<UserID, Reviews>, us: seq<UserID>): (r: Graph)
    requires Distinct(us) && forall u :: u in us ==> u in g.users
    ensures r.users.Keys == g.users.Keys - Elems(us)
    ensures r.books.Keys == g.books.Keys && r.bookOrder == g.bookOrder
    decreases |us|
  {
    if us == [] then g
    else
      var init := us[..|us| - 1];
      var last := us[|us| - 1];
      assert us == init + [last];
      DropUser(DropUsers(g, read, init), read, last)
  }

  lemma DropUsersStep(g: Graph, read: map<UserID, Reviews>, us: seq<UserID>, u: UserID)
    requires Distinct(us + [u]) && forall v :: v in us + [u] ==> v in g.users
    ensures Distinct(us) && u in DropUsers(g, read, us).users
    ensures DropUsers(g, read, us + [u]) == DropUser(DropUsers(g, read, us), read, u)
  {
    assert (us + [u])[..|us|] == us;
    assert forall v :: v in us ==> v in us + [u];
  }

  /** The dissimilar users among one more user of `us`. */
  lemma DissimilarStep(us: seq<UserID>, read: map<UserID, Reviews>, exclude: seq<BookID>, i: nat)
    requires i < |us| && forall u :: u in us ==> u in read
    ensures Dissimilar(us[..i + 1], read, exclude) ==
      Dissimilar(us[..i], read, exclude) + (if LikedAny(read[us[i]], exclude) then [us[i]] else [])
  {
    assert us[..i + 1][..i] == us[..i];
  }

  /** One user of `prune`'s loop over `us`: the dissimilar users found so far grow by
      `us[i]` if they liked an excluded book, and disconnecting them one after another
      grows by that user accordingly, who is still in the graph at that point. */
  lemma PruneStep(g: Graph, read: map<UserID, Reviews>, us: seq<UserID>, exclude: seq<BookID>, i: nat)
    requires Distinct(us) && i < |us| && forall u :: u in us ==> u in g.users && u in read
    ensures var found := Dissimilar(us[..i], read, exclude);
      && Distinct(found) && (forall u :: u in found ==> u in g.users)
      && Dissimilar(us[..i + 1], read, exclude) ==
           found + (if LikedAny(read[us[i]], exclude) then [us[i]] else [])
      && (LikedAny(read[us[i]], exclude) ==> Distinct(found + [us[i]]))
    ensures var found := Dissimilar(us[..i], read, exclude);
      LikedAny(read[us[i]], exclude) ==>
        && us[i] in DropUsers(g, read, found).users
        && DropUsers(g, read, found + [us[i]]) == DropUser(DropUsers(g, read, found), read, us[i])
  {
    var u := us[i];
    var found := Dissimilar(us[..i], read, exclude);
    assert Distinct(us[..i]);
    DissimilarStep(us, read, exclude, i);
    if LikedAny(read[u], exclude) {
      assert u !in us[..i];
      DropUsersStep(g, read, found, u);
    }
  }

  /** `prune` after the first `i` users of `us`: `found` are the dissimilar ones among
      them, and `h` is `g` with those disconnected one after another; folded like
      `Consistent`. */
  ghost predicate Pruning(g: Graph, read: map<UserID, Reviews>, us: seq<UserID>, exclude: seq<BookID>,
                          i: nat, found: seq<UserID>, h: Graph)
  {
    forall k {:trigger Guard(k)} :: Guard(k) ==>
      && Distinct(us) && i <= |us| && (forall u :: u in us ==> u in g.users && u in read)
      && found == Dissimilar(us[..i], read, exclude)
      && Distinct(found) && (forall u :: u in found ==> u in g.users)
      && h == DropUsers(g, read, found)
  }

  /** `prune` before its loop. */
  lemma PruningStart(g: Graph, read: map<UserID, Reviews>, exclude: seq<BookID>)
    requires Consistent(g, read)
    ensures Pruning(g, read, g.userOrder, exclude, 0, [], g)
  {
    UsersListed(g, read);
    assert g.userOrder[..0] == [];
  }

  /** One user of `prune`'s loop: a user who liked an excluded book is still in the
      graph, and is found and disconnected. */
  lemma PruningStep(g: Graph, read: map<UserID, Reviews>, us: seq<UserID>, exclude: seq<BookID>,
                    i: nat, found: seq<UserID>, h: Graph)
    requires Pruning(g, read, us, exclude, i, found, h) && i < |us|
    ensures us[i] in read
    ensures LikedAny(read[us[i]], exclude) ==>
      us[i] in h.users && Pruning(g, read, us, exclude, i + 1, found + [us[i]], DropUser(h, read, us[i]))
    ensures !LikedAny(read[us[i]], exclude) ==> Pruning(g, read, us, exclude, i + 1, found, h)
  {
    assert Guard(0);
    PruneStep(g, read, us, exclude, i);
  }

  /** `prune` after its loop. */
  lemma PruningDone(g: Graph, read: map<UserID, Reviews>, us: seq<UserID>, exclude: seq<BookID>,
                    found: seq<UserID>, h: Graph)
    requires Pruning(g, read, us, exclude, |us|, found, h)
    ensures (forall u :: u in us ==> u in read) && found == Dissimilar(us, read, exclude)
    ensures Distinct(found) && (forall u :: u in found ==> u in g.users)
    ensures h == DropUsers(g, read, found)
  {
    assert Guard(0);
    assert us[..|us|] == us;
  }

  /** Part way through `disconnect` of user `u`: the books in `done` have dropped the
      user and undone its rating; the user itself is still in the graph. */
  function UnlinkUser(g: Graph, read: map<UserID, Reviews>, u: UserID, done: set<BookID>): (h: Graph)
    requires u in g.users
  {
    g.(books := map b | b in g.books :: if b in done && b in g.users[u] then g.books[b] - {u} else g.books[b],
       rating := map b | b in g.rating ::
         if b in done && b in g.users[u] && b in g.books && |g.books[b]| > 1 && u in read && b in read[u].score
         then RemoveFromMean(g.rating[b], read[u].score[b], |g.books[b]|)
         else g.rating[b])
  }

  /** `h` is `UnlinkUser(g, read, u, done)`, folded like `Consistent`. */
  ghost predicate UserUnlinked(g: Graph, read: map<UserID, Reviews>, u: UserID, done: set<BookID>, h: Graph)
    requires u in g.users
  {
    forall k {:trigger Guard(k)} :: Guard(k) ==> h == UnlinkUser(g, read, u, done)
  }

  /** Nothing processed yet. */
  lemma UnlinkUserNone(g: Graph, read: map<UserID, Reviews>, u: UserID)
    requires u in g.users
    ensures UserUnlinked(g, read, u, {}, g)
  {
    assert UnlinkUser(g, read, u, {}) == g;
  }

  /** One more book of the user processed, on the books' edges. */
  lemma UnlinkUserBooks(g: Graph, read: map<UserID, Reviews>, u: UserID, done: set<BookID>, b: BookID)
    requires u in g.users && b in g.users[u] && b !in done && b in g.books
    ensures var h := UnlinkUser(g, read, u, done);
      b in h.books && UnlinkUser(g, read, u, done + {b}).books == h.books[b := h.books[b] - {u}]
  {
  }

  /** One more book of the user processed, on the means. */
  lemma UnlinkUserRating(g: Graph, read: map<UserID, Reviews>, u: UserID, done: set<BookID>, b: BookID)
    requires u in g.users && b in g.users[u] && b !in done && b in g.books && b in g.rating
    requires u in read && b in read[u].score
    ensures var h := UnlinkUser(g, read, u, done);
      && b in h.books && b in h.rating && h.books[b] == g.books[b]
      && UnlinkUser(g, read, u, done + {b}).rating ==
           if |h.books[b]| > 1
           then h.rating[b := RemoveFromMean(h.rating[b], read[u].score[b], |h.books[b]|)]
           else h.rating
  {
  }

  /** One more book of the user processed: it drops the user, and its mean undoes the
      user's rating when more than one user is connected to it. */
  lemma UnlinkUserStep(g: Graph, read: map<UserID, Reviews>, u: UserID, done: set<BookID>, b: BookID, h: Graph)
    requires Consistent(g, read) && u in g.users && b in g.users[u] && b !in done
    requires UserUnlinked(g, read, u, done, h)
    ensures u in read && b in read[u].score && b in h.books && b in h.rating
    ensures UserUnlinked(g, read, u, done + {b},
              h.(books := h.books[b := h.books[b] - {u}],
                 rating := if |h.books[b]| > 1
                           then h.rating[b := RemoveFromMean(h.rating[b], read[u].score[b], |h.books[b]|)]
                           else h.rating))
  {
    assert Guard(0);
    UserEdges(g, read, u);
    BooksListed(g, read);
    UnlinkUserBooks(g, read, u, done, b);
    UnlinkUserRating(g, read, u, done, b);
  }

  /** All of the user's books processed: removing the user itself completes
      `DropUser`. */
  lemma UnlinkUserAll(g: Graph, read: map<UserID, Reviews>, u: UserID, h: Graph)
    requires u in g.users && UserUnlinked(g, read, u, g.users[u], h)
    ensures DropUser(g, read, u) == h.(users := h.users - {u}, userOrder := Except(h.userOrder, {u}))
  {
    assert Guard(0);
  }

  /** Part way through `disconnect` of book `b`: the users in `done` have dropped the
      book, and those it left with no connection have left the graph. */
  function UnlinkBook(g: Graph, b: BookID, done: set<UserID>): (h: Graph)
    requires b in g.books
  {
    var gone := Stranded(g, b) * done;
    g.(users := map v | v in g.users && v !in gone ::
         if v in done && v in g.books[b] then g.users[v] - {b} else g.users[v],
       userOrder := Except(g.userOrder, gone))
  }

  /** `h` is `UnlinkBook(g, b, done)`, folded like `Consistent`. */
  ghost predicate BookUnlinked(g: Graph, b: BookID, done: set<UserID>, h: Graph)
    requires b in g.books
  {
    forall k {:trigger Guard(k)} :: Guard(k) ==> h == UnlinkBook(g, b, done)
  }

  /** Nothing processed yet. */
  lemma UnlinkBookNone(g: Graph, b: BookID)
    requires b in g.books
    ensures BookUnlinked(g, b, {}, g)
  {
    assert Stranded(g, b) * {} == {};
    ExceptNothing(g.userOrder);
    assert UnlinkBook(g, b, {}) == g;
  }

  /** Which users have left after one more user of the book is processed. */
  lemma StrandedStep(g: Graph, b: BookID, done: set<UserID>, v: UserID)
    requires b in g.books && v in g.books[b] && v in g.users
    ensures Stranded(g, b) * (done + {v}) ==
      if g.users[v] - {b} == {} then Stranded(g, b) * done + {v} else Stranded(g, b) * done
  {
  }

  /** One more user of the book processed, on the users' edges. */
  lemma UnlinkBookUsers(g: Graph, b: BookID, done: set<UserID>, v: UserID)
    requires b in g.books && v in g.books[b] && v !in done && v in g.users
    ensures var h := UnlinkBook(g, b, done);
      && v in h.users && h.users[v] == g.users[v]
      && var users1 := h.users[v := h.users[v] - {b}];
         UnlinkBook(g, b, done + {v}).users == if users1[v] == {} then users1 - {v} else users1
  {
    StrandedStep(g, b, done, v);
  }

  /** One more user of the book processed, on the key order of the users. */
  lemma UnlinkBookOrder(g: Graph, b: BookID, done: set<UserID>, v: UserID)
    requires b in g.books && v in g.books[b] && v !in done && v in g.users
    ensures var h := UnlinkBook(g, b, done);
      UnlinkBook(g, b, done + {v}).userOrder ==
        if g.users[v] - {b} == {} then Except(h.userOrder, {v}) else h.userOrder
  {
    StrandedStep(g, b, done, v);
    ExceptExcept(g.userOrder, Stranded(g, b) * done, {v});
  }

  /** One more user of the book processed: it drops the book, and leaves the graph if
      that was its last connection. */
  lemma UnlinkBookStep(g: Graph, read: map<UserID, Reviews>, b: BookID, done: set<UserID>, v: UserID, h: Graph)
    requires Consistent(g, read) && b in g.books && v in g.books[b] && v !in done
    requires BookUnlinked(g, b, done, h)
    ensures v in h.users
    ensures var users1 := h.users[v := h.users[v] - {b}];
      BookUnlinked(g, b, done + {v},
        if users1[v] == {} then h.(users := users1 - {v}, userOrder := Except(h.userOrder, {v}))
        else h.(users := users1))
  {
    assert Guard(0);
    BookEdges(g, read, b);
    UnlinkBookUsers(g, b, done, v);
    UnlinkBookOrder(g, b, done, v);
  }

  /** All of the book's users processed: removing the book itself completes
      `DropBook`. */
  lemma UnlinkBookAll(g: Graph, b: BookID, h: Graph)
    requires b in g.books && BookUnlinked(g, b, g.books[b], h)
    ensures DropBook(g, b) ==
      h.(books := h.books - {b}, bookOrder := Except(h.bookOrder, {b}), rating := h.rating - {b})
  {
    assert Guard(0);
    assert Stranded(g, b) * g.books[b] == Stranded(g, b);
  }

  // Each step of the operations keeps the invariant.

  lemma JoinedNothing(books: Adjacency<BookID, UserID>, u: UserID)
    ensures Joined(books, u, {}) == books
  {
  }

  lemma UpdateTwice<K, V>(m: map<K, V>, k: K, a: V, b: V)
    ensures m[k := a][k := b] == m[k := b]
  {
  }

  lemma KeyOrderAdd<K(!new)>(order: seq<K>, keys: set<K>, k: K)
    requires KeyOrder(order, keys) && k !in keys
    ensures KeyOrder(order + [k], keys + {k})
  {
  }

  lemma KeyOrderRemove<K(!new)>(order: seq<K>, keys: set<K>, d: set<K>)
    requires KeyOrder(order, keys)
    ensures KeyOrder(Except(order, d), keys - d)
  {
    ExceptDistinct(order, d);
  }

  lemma LinkedConnect(users: Adjacency<UserID, BookID>, books: Adjacency<BookID, UserID>, u: UserID, b: BookID)
    requires Linked(users, books) && u in users && b in books
    ensures Linked(users[u := users[u] + {b}], books[b := books[b] + {u}])
  {
  }

  lemma LinkedConnectNew(users: Adjacency<UserID, BookID>, books: Adjacency<BookID, UserID>, u: UserID, b: BookID)
    requires Linked(users, books) && u in users && b !in books
    ensures Linked(users[u := users[u] + {b}], books[b := {u}])
  {
  }

  lemma AveragedSet(books: Adjacency<BookID, UserID>, rating: map<BookID, real>, read: map<UserID, Reviews>,
                    b: BookID, conn: set<UserID>, r: real)
    requires Averaged(books, rating, read) && IsMean(r, read, conn, b)
    ensures Averaged(books[b := conn], rating[b := r], read)
  {
  }

  /** The constructor starts from an empty network. */
  lemma ConsistentEmpty(read: map<UserID, Reviews>)
    ensures Consistent(Graph(map[], [], map[], [], map[]), read)
  {
    assert Inv(Graph(map[], [], map[], [], map[]), read);
  }

  /** A new user node, not yet connected. */
  lemma ConsistentAddUser(g: Graph, read: map<UserID, Reviews>, u: UserID)
    requires Consistent(g, read) && u !in g.users && u in read
    ensures Consistent(g.(users := g.users[u := {}], userOrder := g.userOrder + [u]), read)
  {
    Unfold(g, read);
    KeyOrderAdd(g.userOrder, g.users.Keys, u);
    assert g.users[u := {}].Keys == g.users.Keys + {u};
    assert Inv(g.(users := g.users[u := {}], userOrder := g.userOrder + [u]), read);
  }

  /** A rating of a book already in the graph: the edge is added at both ends and the
      rating is folded into the book's mean. */
  lemma ConsistentRateKnown(g: Graph, read: map<UserID, Reviews>, u: UserID, b: BookID)
    requires Consistent(g, read)
    requires u in g.users && b in g.books && b !in g.users[u]
    requires u in read && b in read[u].score
    ensures b in g.rating && u !in g.books[b]
    ensures Consistent(g.(users := g.users[u := g.users[u] + {b}],
                          books := g.books[b := g.books[b] + {u}],
                          rating := g.rating[b := AddToMean(g.rating[b], read[u].score[b], |g.books[b] + {u}|)]), read)
  {
    Unfold(g, read);
    var m := AddToMean(g.rating[b], read[u].score[b], |g.books[b] + {u}|);
    MeanAfterAdd(read, g.books[b], b, u, g.rating[b], m);
    LinkedConnect(g.users, g.books, u, b);
    AveragedSet(g.books, g.rating, read, b, g.books[b] + {u}, m);
    assert Inv(g.(users := g.users[u := g.users[u] + {b}],
                  books := g.books[b := g.books[b] + {u}],
                  rating := g.rating[b := m]), read);
  }

  /** The first rating of a book: a new book node at the end of the key order, connected
      to its rater, whose mean is that one rating. */
  lemma ConsistentRateNew(g: Graph, read: map<UserID, Reviews>, u: UserID, b: BookID)
    requires Consistent(g, read)
    requires u in g.users && b !in g.books
    requires u in read && b in read[u].score
    ensures b !in g.bookOrder && b !in g.users[u]
    ensures Consistent(g.(users := g.users[u := g.users[u] + {b}],
                          books := g.books[b := {u}],
                          bookOrder := g.bookOrder + [b],
                          rating := g.rating[b := read[u].score[b]]), read)
  {
    Unfold(g, read);
    var x := read[u].score[b];
    KeyOrderAdd(g.bookOrder, g.books.Keys, b);
    assert g.books[b := {u}].Keys == g.books.Keys + {b};
    LinkedConnectNew(g.users, g.books, u, b);
    MeanOfOne(read, b, u);
    AveragedSet(g.books, g.rating, read, b, {u}, x);
    assert Inv(g.(users := g.users[u := g.users[u] + {b}],
                  books := g.books[b := {u}],
                  bookOrder := g.bookOrder + [b],
                  rating := g.rating[b := x]), read);
  }

  /** Disconnecting a user removes it from exactly the books it was connected to. */
  lemma DropUserBooks(g: Graph, read: map<UserID, Reviews>, u: UserID)
    requires Linked(g.users, g.books) && u in g.users
    ensures var r := DropUser(g, read, u);
      forall b :: b in r.books ==> r.books[b] == g.books[b] - {u}
  {
    var r := DropUser(g, read, u);
    forall b | b in r.books ensures r.books[b] == g.books[b] - {u} {
      if b !in g.users[u] {
        assert u !in g.books[b];
        assert g.books[b] - {u} == g.books[b];
      }
    }
  }

  lemma LinkedDropUser(g: Graph, read: map<UserID, Reviews>, u: UserID)
    requires Linked(g.users, g.books) && u in g.users
    ensures Linked(DropUser(g, read, u).users, DropUser(g, read, u).books)
  {
    DropUserBooks(g, read, u);
  }

  /** Undoing one rating per book keeps every mean. */
  lemma AveragedDropUser(g: Graph, read: map<UserID, Reviews>, u: UserID)
    requires Linked(g.users, g.books) && Averaged(g.books, g.rating, read) && u in g.users
    ensures Averaged(DropUser(g, read, u).books, DropUser(g, read, u).rating, read)
  {
    var r := DropUser(g, read, u);
    DropUserBooks(g, read, u);
    forall b | b in r.books ensures IsMean(r.rating[b], read, r.books[b], b) {
      if b in g.users[u] {
        if |g.books[b]| > 1 {
          MeanAfterRemove(read, g.books[b], b, u, g.rating[b]);
        } else {
          assert |g.books[b] - {u}| == |g.books[b]| - 1;
          assert r.books[b] == {};
        }
      }
    }
  }

  /** Disconnecting a user keeps the invariant, including every book's mean; the user is
      gone from every book and every other user keeps its connections. */
  lemma ConsistentDropUser(g: Graph, read: map<UserID, Reviews>, u: UserID)
    requires Consistent(g, read) && u in g.users
    ensures var r := DropUser(g, read, u);
      && Consistent(r, read)
      && (forall b :: b in r.books ==> r.books[b] == g.books[b] - {u})
      && (forall v :: v in r.users ==> r.users[v] == g.users[v])
  {
    Unfold(g, read);
    var r := DropUser(g, read, u);
    DropUserBooks(g, read, u);
    LinkedDropUser(g, read, u);
    AveragedDropUser(g, read, u);
    KeyOrderRemove(g.userOrder, g.users.Keys, {u});
    assert Inv(r, read);
  }

  /** What disconnecting user `u` does to each of its books: the book stays; with other
      raters left its rating is their average, and with `u` its only rater the rating
      is kept and the book is left with no connection. */
  lemma DropUserRatings(g: Graph, read: map<UserID, Reviews>, u: UserID, b: BookID)
    requires Consistent(g, read) && u in g.users && b in g.users[u]
    ensures b in g.books && u in g.books[b]
    ensures var r := DropUser(g, read, u);
      && b in r.books && b in r.rating && Rated(read, r.books[b], b)
      && (|g.books[b]| == 1 ==> r.books[b] == {} && r.rating[b] == g.rating[b])
      && (|g.books[b]| > 1 ==> r.books[b] != {} && r.rating[b] == Total(read, r.books[b], b) / (|r.books[b]| as real))
  {
    UserEdges(g, read, u);
    MeanOf(g, read, b);
    var r := DropUser(g, read, u);
    ConsistentDropUser(g, read, u);
    MeanOf(r, read, b);
    if |g.books[b]| == 1 {
      assert g.books[b] == {u};
    } else {
      assert |r.books[b]| == |g.books[b]| - 1;
      MeanIsAverage(r.rating[b], read, r.books[b], b);
    }
  }

  /** The users that stay lose the book; a user leaves exactly when the book was its
      only connection. */
  lemma DropBookUsers(g: Graph, b: BookID)
    requires Linked(g.users, g.books) && b in g.books
    ensures var r := DropBook(g, b);
      && (forall v :: v in r.users ==> r.users[v] == g.users[v] - {b})
      && (forall v :: v in g.users ==> (v in r.users <==> g.users[v] != {b}))
  {
    var r := DropBook(g, b);
    forall v | v in g.users
      ensures v in r.users ==> r.users[v] == g.users[v] - {b}
      ensures v in r.users <==> g.users[v] != {b}
    {
      if v !in g.books[b] {
        assert b !in g.users[v];
        assert g.users[v] - {b} == g.users[v];
      } else if g.users[v] - {b} == {} {
        assert g.users[v] == {b};
      }
    }
  }

  lemma LinkedDropBook(g: Graph, b: BookID)
    requires Linked(g.users, g.books) && b in g.books
    ensures Linked(DropBook(g, b).users, DropBook(g, b).books)
  {
    var r := DropBook(g, b);
    DropBookUsers(g, b);
    forall c, v | c in r.books && v in r.books[c] ensures v in r.users && c in r.users[v] {
      assert c in g.users[v] && c != b;
      assert c in g.users[v] - {b};
    }
  }

  /** Disconnecting a book keeps the invariant; every remaining user loses the book, and
      a user leaves the graph exactly when the book was its only connection. */
  lemma ConsistentDropBook(g: Graph, read: map<UserID, Reviews>, b: BookID)
    requires Consistent(g, read) && b in g.books
    ensures var r := DropBook(g, b);
      && Consistent(r, read)
      && (forall v :: v in r.users ==> r.users[v] == g.users[v] - {b})
      && (forall v :: v in g.users ==> (v in r.users <==> g.users[v] != {b}))
  {
    Unfold(g, read);
    var r := DropBook(g, b);
    DropBookUsers(g, b);
    LinkedDropBook(g, b);
    KeyOrderRemove(g.userOrder, g.users.Keys, Stranded(g, b));
    KeyOrderRemove(g.bookOrder, g.books.Keys, {b});
    assert Inv(r, read);
  }
}
