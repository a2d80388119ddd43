/** GerenciadorPosts.java: the post registry.

    Like the account registry, the post store is a value passed in and
    returned. The account registry it consults (to look up the liking
    account, or the author in validarPost) is a parameter. Post ids come
    from this store's own counter, independent of account ids. */
module PostRegistry {
  import opened Wrappers
  import opened Errors
  import opened Seqs
  import opened Text
  import opened Comments
  import opened Posts
  import AccountRegistry

  /** The post list in creation order and the next id to hand out. */
  datatype Store = Store(posts: seq<Post>, nextId: int)

  /** The constructor: no posts, and the first id handed out is 1. */
  function Empty(): (r: Store)
    ensures r.posts == [] && r.nextId == 1
  {
    Store([], 1)
  }

  function PostKey(p: Post): int {
    if p.id.Some? then p.id.value else 0
  }

  /** Every id is assigned and ids strictly increase along the sequence. */
  predicate PostIdsIncrease(s: seq<Post>) {
    && (forall i :: 0 <= i < |s| ==> s[i].id.Some?)
    && Increasing(s, PostKey)
  }

  /** What every reachable store satisfies: ids are assigned, at least 1,
      below the counter and strictly increasing in list order, and no post
      lists the same liker twice. */
  predicate Valid(s: Store) {
    && s.nextId >= 1
    && PostIdsIncrease(s.posts)
    && (forall i :: 0 <= i < |s.posts| ==> 1 <= PostKey(s.posts[i]) < s.nextId)
    && (forall i :: 0 <= i < |s.posts| ==> NoDup(s.posts[i].likes))
  }

  predicate HasPostId(p: Post, id: int) {
    p.id == Some(id)
  }

  /** Position of the first post with this id (the stream's findFirst). */
  function IndexOfPost(s: Store, id: int): (r: Option<nat>)
    ensures r.Some? ==> r.value < |s.posts| && s.posts[r.value].id == Some(id)
    ensures r.Some? ==> forall j :: 0 <= j < r.value ==> s.posts[j].id != Some(id)
    ensures r.None? <==> forall j :: 0 <= j < |s.posts| ==> s.posts[j].id != Some(id)
  {
    FirstIndex(s.posts, (p: Post) => HasPostId(p, id))
  }

  /** criar. A null post throws ValidacaoException; otherwise the post gets
      the counter's value as id and is appended, with no check on its
      content or author. */
  function Create(s: Store, post: Option<Post>): (r: Result<Store, Err>)
    ensures r.Failure? <==> post.None?
    ensures r.Failure? ==> r.error == ValidacaoException(NullPost)
    ensures r.Success? ==>
              && r.value.nextId == s.nextId + 1
              && |r.value.posts| == |s.posts| + 1
              && r.value.posts[..|s.posts|] == s.posts
              && r.value.posts[|s.posts|] == post.value.(id := Some(s.nextId))
  {
    if post.None? then Failure(ValidacaoException(NullPost))
    else
      var p := post.value.(id := Some(s.nextId));
      assert (s.posts + [p])[..|s.posts|] == s.posts;
      Success(Store(s.posts + [p], s.nextId + 1))
  }

  /** listarPosts: the live list, in creation order. */
  function ListPosts(s: Store): (r: seq<Post>)
    ensures r == s.posts
    ensures Valid(s) ==> PostIdsIncrease(r)
    ensures Valid(s) ==> forall i :: 0 <= i < |r| ==> 1 <= PostKey(r[i]) < s.nextId
  {
    s.posts
  }

  /** buscarPorId: the first post with this id, or PostException. */
  function FindPost(s: Store, id: int): (r: Result<Post, Err>)
    ensures r.Success? <==> exists i :: 0 <= i < |s.posts| && s.posts[i].id == Some(id)
    ensures r.Success? ==>
              && r.value.id == Some(id)
              && exists i :: 0 <= i < |s.posts| && s.posts[i] == r.value
                             && forall j :: 0 <= j < i ==> s.posts[j].id != Some(id)
    ensures r.Failure? ==> r.error == PostException(PostNotFound)
  {
    match IndexOfPost(s, id)
    case None => Failure(PostException(PostNotFound))
    case Some(i) => Success(s.posts[i])
  }

  function AuthorMatcher(author: int): Post -> bool {
    (p: Post) => p.author == author
  }

  /** listarPorUsuario: in creation order, exactly the posts of that
      author; an author without posts gets PostException. */
  function ListByAuthor(s: Store, author: int): (r: Result<seq<Post>, Err>)
    ensures r.Failure? <==> forall i :: 0 <= i < |s.posts| ==> s.posts[i].author != author
    ensures r.Failure? ==> r.error == PostException(NoPostsByAuthor)
    ensures r.Success? ==> forall p :: p in r.value <==> p in s.posts && p.author == author
    ensures r.Success? && Valid(s) ==> PostIdsIncrease(r.value)
  {
    var matcher := AuthorMatcher(author);
    assert forall p :: matcher(p) == (p.author == author);
    var found := Filter(s.posts, matcher);
    FilterKeepsPostOrder(s, matcher);
    if found == [] then
      assert forall i :: 0 <= i < |s.posts| ==> s.posts[i] !in found;
      Failure(PostException(NoPostsByAuthor))
    else
      assert found[0] in s.posts;
      Success(found)
  }

  /** Filtering the post list keeps ids strictly increasing. */
  lemma FilterKeepsPostOrder(s: Store, p: Post -> bool)
    ensures Valid(s) ==> PostIdsIncrease(Filter(s.posts, p))
  {
    if Valid(s) {
      FilterKeepsIncreasing(s.posts, p, PostKey);
      var f := Filter(s.posts, p);
      forall i | 0 <= i < |f| ensures f[i].id.Some? {
        assert f[i] in s.posts;
      }
    }
  }

  /** curtir. The post lookup runs first (PostException), then the account
      lookup (UsuarioException); an account that already likes the post
      gets PostException. Otherwise that post, and no other, gains the
      account's like at the end of its list. */
  function Like(s: Store, users: AccountRegistry.Users, postId: int, userId: int): (r: Result<Store, Err>)
    ensures IndexOfPost(s, postId).None? ==> r == Failure(PostException(PostNotFound))
    ensures IndexOfPost(s, postId).Some? && !AccountRegistry.HasAccount(users, userId) ==>
              r == Failure(UsuarioException(AccountNotFound))
    ensures IndexOfPost(s, postId).Some? && AccountRegistry.HasAccount(users, userId) ==>
              var i := IndexOfPost(s, postId).value;
              && (userId in s.posts[i].likes ==> r == Failure(PostException(AlreadyLiked)))
              && (userId !in s.posts[i].likes ==>
                    && r.Success?
                    && r.value.nextId == s.nextId
                    && r.value.posts == s.posts[i := s.posts[i].(likes := s.posts[i].likes + [userId])])
  {
    match IndexOfPost(s, postId)
    case None => Failure(PostException(PostNotFound))
    case Some(i) =>
      var post := s.posts[i];
      match AccountRegistry.FindById(users, userId)
      case Failure(e) => Failure(e)
      case Success(account) =>
        if userId in post.likes then Failure(PostException(AlreadyLiked))
        else Success(s.(posts := s.posts[i := AddLike(post, userId)]))
  }

  /** descurtir. The same lookups as curtir; an account that does not like
      the post gets PostException. Otherwise that post, and no other, loses
      the account's like. */
  function Unlike(s: Store, users: AccountRegistry.Users, postId: int, userId: int): (r: Result<Store, Err>)
    ensures IndexOfPost(s, postId).None? ==> r == Failure(PostException(PostNotFound))
    ensures IndexOfPost(s, postId).Some? && !AccountRegistry.HasAccount(users, userId) ==>
              r == Failure(UsuarioException(AccountNotFound))
    ensures IndexOfPost(s, postId).Some? && AccountRegistry.HasAccount(users, userId) ==>
              var i := IndexOfPost(s, postId).value;
              && (userId !in s.posts[i].likes ==> r == Failure(PostException(NotLiked)))
              && (userId in s.posts[i].likes ==>
                    && r.Success?
                    && r.value.nextId == s.nextId
                    && |r.value.posts| == |s.posts|
                    && r.value.posts[i] == s.posts[i].(likes := r.value.posts[i].likes)
                    && multiset(r.value.posts[i].likes) == multiset(s.posts[i].likes) - multiset{userId}
                    && (exists j :: 0 <= j < |s.posts[i].likes| && s.posts[i].likes[j] == userId
                                    && userId !in s.posts[i].likes[..j]
                                    && r.value.posts[i].likes == s.posts[i].likes[..j] + s.posts[i].likes[j + 1..])
                    && (NoDup(s.posts[i].likes) ==> userId !in r.value.posts[i].likes)
                    && forall k :: 0 <= k < |s.posts| && k != i ==> r.value.posts[k] == s.posts[k])
  {
    match IndexOfPost(s, postId)
    case None => Failure(PostException(PostNotFound))
    case Some(i) =>
      var post := s.posts[i];
      match AccountRegistry.FindById(users, userId)
      case Failure(e) => Failure(e)
      case Success(account) =>
        if userId !in post.likes then Failure(PostException(NotLiked))
        else Success(s.(posts := s.posts[i := RemoveLike(post, userId)]))
  }

  /** comentar. A null comment throws ValidacaoException; a comment with no
      post, or whose post id is not stored, gets PostException. Otherwise
      the stored post with that id appends the comment unless it already
      holds it, and no other post changes. */
  function AddCommentTo(s: Store, c: Option<Comment>): (r: Result<Store, Err>)
    ensures c.None? ==> r == Failure(ValidacaoException(NullComment))
    ensures c.Some? && c.value.post.None? ==> r == Failure(PostException(CommentWithoutPost))
    ensures c.Some? && c.value.post.Some? && IndexOfPost(s, c.value.post.value).None? ==>
              r == Failure(PostException(PostNotFound))
    ensures r.Success? ==>
              && c.Some? && c.value.post.Some? && IndexOfPost(s, c.value.post.value).Some?
              && var i := IndexOfPost(s, c.value.post.value).value;
                 && r.value.nextId == s.nextId
                 && |r.value.posts| == |s.posts|
                 && r.value.posts[i] == s.posts[i].(comments := r.value.posts[i].comments)
                 && s.posts[i].comments <= r.value.posts[i].comments
                 && c.value in r.value.posts[i].comments
                 && (c.value !in s.posts[i].comments ==>
                       r.value.posts[i].comments == s.posts[i].comments + [c.value])
                 && forall k :: 0 <= k < |s.posts| && k != i ==> r.value.posts[k] == s.posts[k]
    ensures c.Some? && c.value.post.Some? && IndexOfPost(s, c.value.post.value).Some? ==> r.Success?
  {
    if c.None? then Failure(ValidacaoException(NullComment))
    else if c.value.post.None? then Failure(PostException(CommentWithoutPost))
    else
      match IndexOfPost(s, c.value.post.value)
      case None => Failure(PostException(PostNotFound))
      case Some(i) => Success(s.(posts := s.posts[i := AddComment(s.posts[i], c.value)]))
  }

  /** deletar. An unknown id gets PostException; otherwise exactly the first
      post with that id leaves the list, the counter is untouched and the
      call returns true. */
  function Delete(s: Store, id: int): (r: Result<(Store, bool), Err>)
    ensures r.Failure? <==> forall i :: 0 <= i < |s.posts| ==> s.posts[i].id != Some(id)
    ensures r.Failure? ==> r.error == PostException(PostNotFound)
    ensures r.Success? ==>
              && r.value.1
              && r.value.0.nextId == s.nextId
              && exists i :: 0 <= i < |s.posts| && s.posts[i].id == Some(id)
                             && (forall j :: 0 <= j < i ==> s.posts[j].id != Some(id))
                             && r.value.0.posts == s.posts[..i] + s.posts[i + 1..]
  {
    match IndexOfPost(s, id)
    case None => Failure(PostException(PostNotFound))
    case Some(i) => Success((s.(posts := s.posts[..i] + s.posts[i + 1..]), true))
  }

  /** validarPost. Checks in this order, the first failure throwing
      ValidacaoException: content blank after trimming; author not among
      the registered accounts (by id); content longer than 280 characters;
      author id not positive. The publication date is never null here. */
  function ValidatePost(users: AccountRegistry.Users, p: Post): (r: Outcome<Err>)
    ensures r.Pass? <==>
              !IsBlank(p.content) && AccountRegistry.HasAccount(users, p.author)
              && |p.content| <= 280 && p.author > 0
    ensures IsBlank(p.content) ==> r == Fail(ValidacaoException(EmptyContent))
    ensures !IsBlank(p.content) && !AccountRegistry.HasAccount(users, p.author) ==>
              r == Fail(ValidacaoException(InvalidAuthor))
    ensures !IsBlank(p.content) && AccountRegistry.HasAccount(users, p.author) && |p.content| > 280 ==>
              r == Fail(ValidacaoException(ContentTooLong))
    ensures !IsBlank(p.content) && AccountRegistry.HasAccount(users, p.author)
            && |p.content| <= 280 && p.author <= 0 ==>
              r == Fail(ValidacaoException(InvalidAuthorId))
    ensures r.Fail? ==> r.error.ValidacaoException?
    ensures AccountRegistry.WellFormed(users) ==> r != Fail(ValidacaoException(InvalidAuthorId))
  {
    if Trim(p.content) == [] then Fail(ValidacaoException(EmptyContent))
    else if AccountRegistry.IndexOf(users, p.author).None? then Fail(ValidacaoException(InvalidAuthor))
    else if |p.content| > 280 then Fail(ValidacaoException(ContentTooLong))
    else if p.author <= 0 then Fail(ValidacaoException(InvalidAuthorId))
    else Pass
  }
}
