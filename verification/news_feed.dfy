/** The news feed of MenuUsuario.verFeedNoticias: the stored posts whose
    author is the viewer or one of the viewer's friends, newest first.

    The stream's `sorted` is a stable sort on an ordered stream, so posts
    published at the same moment keep their order in the post list (their
    creation order). The sort is modelled as a stable insertion sort on
    sequences. Dates are instants, compared as integers. */
module NewsFeed {
  import opened Wrappers
  import opened Seqs
  import opened Accounts
  import opened Posts
  import PostRegistry
  import AccountRegistry

  /** The filter's test: the author is among the viewer's friends, or is
      the viewer (both comparisons go through Usuario.equals, by id). */
  function InFeed(viewer: Account, p: Post): (r: bool)
    ensures viewer.id == Some(p.author) ==> r
    ensures p.author in viewer.friends ==> r
    ensures r && viewer.id != Some(p.author) ==> p.author in viewer.friends
  {
    p.author in viewer.friends || viewer.id == Some(p.author)
  }

  function FeedMatcher(viewer: Account): Post -> bool {
    (p: Post) => InFeed(viewer, p)
  }

  function DateIs(d: int): Post -> bool {
    (p: Post) => p.publishedAt == d
  }

  /** Publication dates never increase along the sequence. */
  predicate NewestFirst(s: seq<Post>) {
    forall i, j :: 0 <= i < j < |s| ==> s[i].publishedAt >= s[j].publishedAt
  }

  /** A newest-first sequence stays so without its head, and the head is
      at least as new as the rest. */
  lemma NewestFirstTail(l: seq<Post>)
    requires l != [] && NewestFirst(l)
    ensures NewestFirst(l[1..])
    ensures forall y :: y in l[1..] ==> l[0].publishedAt >= y.publishedAt
  {
    var tail := l[1..];
    forall i, j | 0 <= i < j < |tail| ensures tail[i].publishedAt >= tail[j].publishedAt {
      assert tail[i] == l[i + 1] && tail[j] == l[j + 1];
    }
    forall y | y in tail ensures l[0].publishedAt >= y.publishedAt {
      var m :| 0 <= m < |tail| && tail[m] == y;
      assert l[m + 1] == y;
    }
  }

  /** A post at least as new as every post of a newest-first sequence may
      precede it. */
  lemma NewestFirstCons(h: Post, rest: seq<Post>)
    requires NewestFirst(rest)
    requires forall y :: y in rest ==> h.publishedAt >= y.publishedAt
    ensures NewestFirst([h] + rest)
  {
    var r := [h] + rest;
    forall i, j | 0 <= i < j < |r| ensures r[i].publishedAt >= r[j].publishedAt {
      assert r[j] == rest[j - 1];
      if i > 0 {
        assert r[i] == rest[i - 1];
      }
    }
  }

  /** Place `x` before the first post not newer than it. */
  function Insert(x: Post, l: seq<Post>): (r: seq<Post>)
    ensures multiset(r) == multiset(l) + multiset{x}
    ensures NewestFirst(l) ==> NewestFirst(r)
  {
    if l == [] || l[0].publishedAt <= x.publishedAt then
      var r := [x] + l;
      assert NewestFirst(l) ==> NewestFirst(r) by {
        if NewestFirst(l) {
          if l != [] {
            NewestFirstTail(l);
          }
          NewestFirstCons(x, l);
        }
      }
      r
    else
      assert l == [l[0]] + l[1..];
      var rest := Insert(x, l[1..]);
      var r := [l[0]] + rest;
      assert NewestFirst(l) ==> NewestFirst(r) by {
        if NewestFirst(l) {
          NewestFirstTail(l);
          forall y | y in rest ensures l[0].publishedAt >= y.publishedAt {
            assert y in multiset(rest);
          }
          NewestFirstCons(l[0], rest);
        }
      }
      r
  }

  /** The stable sort, newest first: a permutation of its input, ordered by
      non-increasing date. */
  function SortNewestFirst(s: seq<Post>): (r: seq<Post>)
    ensures multiset(r) == multiset(s)
    ensures NewestFirst(r)
  {
    if s == [] then []
    else
      assert s == [s[0]] + s[1..];
      Insert(s[0], SortNewestFirst(s[1..]))
  }

  /** Posts of one date keep their relative order through an insertion. */
  lemma {:induction false} InsertKeepsTies(x: Post, l: seq<Post>, d: int)
    requires NewestFirst(l)
    ensures Filter(Insert(x, l), DateIs(d)) == (if x.publishedAt == d then [x] else []) + Filter(l, DateIs(d))
  {
    if l == [] || l[0].publishedAt <= x.publishedAt {
      assert Insert(x, l) == [x] + l;
      FilterCons(x, l, DateIs(d));
    } else {
      NewestFirstTail(l);
      InsertKeepsTies(x, l[1..], d);
      TiesBehindNewer(x, l, Insert(x, l[1..]), d);
    }
  }

  /** The step of InsertKeepsTies where `x` goes behind the newer head of
      `l`: the head is not of `x`'s date when `x` is. */
  lemma TiesBehindNewer(x: Post, l: seq<Post>, rest: seq<Post>, d: int)
    requires l != [] && l[0].publishedAt > x.publishedAt
    requires Filter(rest, DateIs(d)) == (if x.publishedAt == d then [x] else []) + Filter(l[1..], DateIs(d))
    ensures Filter([l[0]] + rest, DateIs(d)) == (if x.publishedAt == d then [x] else []) + Filter(l, DateIs(d))
  {
    var mid := if x.publishedAt == d then [x] else [];
    var m := DateIs(d);
    assert mid != [] ==> !m(l[0]);
    SplitHead(l);
    FilterBehindHead(l[0], l[1..], rest, mid, m);
  }

  /** Stability: the sort keeps, for every date, the posts of that date in
      their input order. */
  lemma {:induction false} SortKeepsTies(s: seq<Post>, d: int)
    ensures Filter(SortNewestFirst(s), DateIs(d)) == Filter(s, DateIs(d))
  {
    if s != [] {
      SortKeepsTies(s[1..], d);
      InsertKeepsTies(s[0], SortNewestFirst(s[1..]), d);
    }
  }

  /** verFeedNoticias's stream: filter the post list, then sort it newest
      first. The feed holds exactly the posts of the viewer and of the
      viewer's friends, each as often as in the post list, newest first. */
  function Feed(viewer: Account, posts: seq<Post>): (r: seq<Post>)
    ensures forall p :: p in r <==> p in posts && InFeed(viewer, p)
    ensures multiset(r) == multiset(Filter(posts, FeedMatcher(viewer)))
    ensures NewestFirst(r)
  {
    var m := FeedMatcher(viewer);
    assert forall p :: m(p) == InFeed(viewer, p);
    var r := SortNewestFirst(Filter(posts, m));
    assert forall p :: p in r <==> p in multiset(Filter(posts, m));
    r
  }

  /** Posts of the feed published at the same moment appear in the order
      of the post list. */
  lemma {:induction false} FeedKeepsTies(viewer: Account, posts: seq<Post>, d: int)
    ensures Filter(Feed(viewer, posts), DateIs(d)) == Filter(Filter(posts, FeedMatcher(viewer)), DateIs(d))
  {
    SortKeepsTies(Filter(posts, FeedMatcher(viewer)), d);
  }

  /** Over a valid post store, feed posts published at the same moment
      appear in creation order, that is, by increasing post id. */
  lemma {:induction false} FeedTiesByCreation(viewer: Account, s: PostRegistry.Store, d: int)
    requires PostRegistry.Valid(s)
    ensures Increasing(Filter(Feed(viewer, PostRegistry.ListPosts(s)), DateIs(d)), PostRegistry.PostKey)
  {
    var posts := PostRegistry.ListPosts(s);
    FeedKeepsTies(viewer, posts, d);
    FilterKeepsIncreasing(posts, FeedMatcher(viewer), PostRegistry.PostKey);
    FilterKeepsIncreasing(Filter(posts, FeedMatcher(viewer)), DateIs(d), PostRegistry.PostKey);
  }

  /** A post the viewer wrote appears in the viewer's feed. */
  lemma OwnPostsInFeed(viewer: Account, posts: seq<Post>, p: Post)
    requires p in posts && viewer.id == Some(p.author)
    ensures p in Feed(viewer, posts)
  {
  }

  /** After adicionarAmizade(x, y) succeeds, x's feed shows every post by y,
      and still no post by an account that is neither x nor a friend of x. */
  lemma {:induction false} FeedAfterBefriend(u: AccountRegistry.Users, x: int, y: int, posts: seq<Post>, p: Post, q: Post)
    requires AccountRegistry.AddFriendship(u, x, y).Success? && x != y
    requires p in posts && p.author == y
    ensures AccountRegistry.IndexOf(u, x).Some?
    ensures var viewer := AccountRegistry.AddFriendship(u, x, y).value.accounts[AccountRegistry.IndexOf(u, x).value];
            && p in Feed(viewer, posts)
            && (q.author !in viewer.friends && q.author != x ==> q !in Feed(viewer, posts))
  {
    var i := AccountRegistry.IndexOf(u, x).value;
    var viewer := AccountRegistry.AddFriendship(u, x, y).value.accounts[i];
    assert viewer.friends == AddAbsent(u.accounts[i].friends, y);
    assert viewer.id == Some(x);
  }
}
