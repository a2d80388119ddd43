/** What the post registry's operations preserve, and how they relate to
    each other: lookups after creation and deletion, and liking undone by
    unliking. */
module PostInvariants {
  import opened Wrappers
  import opened Errors
  import opened Seqs
  import opened Comments
  import opened Posts
  import opened PostRegistry
  import AccountRegistry

  /** Two post lists hold the same ids position by position. */
  predicate SameIds(s: seq<Post>, t: seq<Post>) {
    |s| == |t| && forall k :: 0 <= k < |s| ==> s[k].id == t[k].id
  }

  /** The id lookup depends on the ids alone. */
  lemma IndexOfSameIds(s: Store, t: Store, id: int)
    requires SameIds(s.posts, t.posts)
    ensures IndexOfPost(s, id) == IndexOfPost(t, id)
  {
  }

  /** In a valid store at most one post carries a given id. */
  lemma IdsDistinct(s: Store, i: nat, j: nat)
    requires Valid(s) && i < |s.posts| && j < |s.posts| && i != j
    ensures s.posts[i].id != s.posts[j].id
  {
    if i < j {
      assert PostKey(s.posts[i]) < PostKey(s.posts[j]);
    } else {
      assert PostKey(s.posts[j]) < PostKey(s.posts[i]);
    }
  }

  /** Replacing one post by one with the same id and duplicate-free likes
      keeps the list valid. */
  lemma {:induction false} ReplaceKeepsValid(t: seq<Post>, n: int, i: nat, q: Post)
    requires Valid(Store(t, n)) && i < |t|
    requires q.id == t[i].id && NoDup(q.likes)
    ensures Valid(Store(t[i := q], n))
  {
    var r := t[i := q];
    forall a | 0 <= a < |r| ensures r[a].id.Some? && 1 <= PostKey(r[a]) < n && NoDup(r[a].likes) {
      assert a != i ==> r[a] == t[a];
    }
    forall a, b | 0 <= a < b < |r| ensures PostKey(r[a]) < PostKey(r[b]) {
      assert PostKey(r[a]) == PostKey(t[a]) && PostKey(r[b]) == PostKey(t[b]);
    }
  }

  /** Dropping one post keeps the list valid. */
  lemma {:induction false} DropKeepsValid(t: seq<Post>, n: int, i: nat)
    requires Valid(Store(t, n)) && i < |t|
    ensures Valid(Store(t[..i] + t[i + 1..], n))
  {
    var r := t[..i] + t[i + 1..];
    forall a | 0 <= a < |r| ensures r[a].id.Some? && 1 <= PostKey(r[a]) < n && NoDup(r[a].likes) {
      DropIndex(t, i, a);
    }
    forall a, b | 0 <= a < b < |r| ensures PostKey(r[a]) < PostKey(r[b]) {
      DropIndex(t, i, a);
      DropIndex(t, i, b);
    }
  }

  /** Appending a post whose id is the counter, and bumping the counter,
      keeps the list valid. */
  lemma {:induction false} AppendKeepsValid(t: seq<Post>, n: int, q: Post)
    requires Valid(Store(t, n)) && q.id == Some(n) && NoDup(q.likes)
    ensures Valid(Store(t + [q], n + 1))
  {
    var r := t + [q];
    forall a | 0 <= a < |r| ensures r[a].id.Some? && 1 <= PostKey(r[a]) < n + 1 && NoDup(r[a].likes) {
      assert a < |t| ==> r[a] == t[a];
    }
    forall a, b | 0 <= a < b < |r| ensures PostKey(r[a]) < PostKey(r[b]) {
      assert r[a] == t[a];
      assert b < |t| ==> r[b] == t[b];
    }
  }

  /** criar keeps the store valid, provided the new post lists no liker
      twice (a post built by its constructor lists none). */
  lemma {:induction false} CreateKeepsValid(s: Store, post: Option<Post>)
    requires Valid(s)
    requires post.Some? ==> NoDup(post.value.likes)
    ensures Create(s, post).Success? ==> Valid(Create(s, post).value)
  {
    if post.Some? {
      var q := post.value.(id := Some(s.nextId));
      AppendKeepsValid(s.posts, s.nextId, q);
      assert Create(s, post).value == Store(s.posts + [q], s.nextId + 1);
    }
  }

  /** curtir keeps the store valid. */
  lemma {:induction false} LikeKeepsValid(s: Store, users: AccountRegistry.Users, postId: int, userId: int)
    requires Valid(s)
    ensures Like(s, users, postId, userId).Success? ==> Valid(Like(s, users, postId, userId).value)
  {
    if Like(s, users, postId, userId).Success? {
      var i := IndexOfPost(s, postId).value;
      ReplaceKeepsValid(s.posts, s.nextId, i, AddLike(s.posts[i], userId));
    }
  }

  /** descurtir keeps the store valid. */
  lemma {:induction false} UnlikeKeepsValid(s: Store, users: AccountRegistry.Users, postId: int, userId: int)
    requires Valid(s)
    ensures Unlike(s, users, postId, userId).Success? ==> Valid(Unlike(s, users, postId, userId).value)
  {
    if Unlike(s, users, postId, userId).Success? {
      var i := IndexOfPost(s, postId).value;
      ReplaceKeepsValid(s.posts, s.nextId, i, RemoveLike(s.posts[i], userId));
    }
  }

  /** comentar keeps the store valid. */
  lemma {:induction false} CommentKeepsValid(s: Store, c: Option<Comment>)
    requires Valid(s)
    ensures AddCommentTo(s, c).Success? ==> Valid(AddCommentTo(s, c).value)
  {
    if AddCommentTo(s, c).Success? {
      var i := IndexOfPost(s, c.value.post.value).value;
      ReplaceKeepsValid(s.posts, s.nextId, i, AddComment(s.posts[i], c.value));
    }
  }

  /** deletar keeps the store valid. */
  lemma {:induction false} DeleteKeepsValid(s: Store, id: int)
    requires Valid(s)
    ensures Delete(s, id).Success? ==> Valid(Delete(s, id).value.0)
  {
    if Delete(s, id).Success? {
      DropKeepsValid(s.posts, s.nextId, IndexOfPost(s, id).value);
    }
  }

  /** A post built by its constructor can always be stored: criar accepts
      it and the store stays valid, whatever like list the caller passed. */
  lemma {:induction false} CreateNewPostKeepsValid(s: Store, id: Option<int>, author: int, content: string,
                                                   at: int, likes: seq<int>, comments: seq<Comment>)
    requires Valid(s)
    ensures var post := Some(NewPost(id, author, content, at, likes, comments));
            Create(s, post).Success? && Valid(Create(s, post).value)
  {
    CreateKeepsValid(s, Some(NewPost(id, author, content, at, likes, comments)));
  }

  /** A comment built by its constructor for a post just created is
      accepted by comentar and then held by that post. */
  lemma {:induction false} CommentOnNewPost(s: Store, p: Post, author: int, content: string, now: int)
    requires Valid(s)
    ensures var t := Create(s, Some(p)).value;
            var c := NewComment(author, content, Some(s.nextId), now);
            && AddCommentTo(t, Some(c)).Success?
            && var f := FindPost(AddCommentTo(t, Some(c)).value, s.nextId);
               f.Success? && c in f.value.comments && f.value.id == Some(s.nextId)
  {
    var t := Create(s, Some(p)).value;
    var c := NewComment(author, content, Some(s.nextId), now);
    CreateThenFind(s, p);
    CommentThenFind(t, Some(c));
  }

  /** A post just created is found under the id it was given. */
  lemma {:induction false} CreateThenFind(s: Store, p: Post)
    requires Valid(s)
    ensures Create(s, Some(p)).Success?
    ensures FindPost(Create(s, Some(p)).value, s.nextId) == Success(p.(id := Some(s.nextId)))
  {
    var t := Create(s, Some(p)).value;
    var q := p.(id := Some(s.nextId));
    assert t.posts == s.posts + [q];
    forall j | 0 <= j < |s.posts| ensures t.posts[j].id != Some(s.nextId) {
      assert t.posts[j] == s.posts[j];
      assert PostKey(s.posts[j]) < s.nextId;
    }
    assert t.posts[|s.posts|] == q;
  }

  /** A post just created ends its author's post list. */
  lemma {:induction false} CreateThenListByAuthor(s: Store, p: Post)
    ensures Create(s, Some(p)).Success?
    ensures var l := ListByAuthor(Create(s, Some(p)).value, p.author);
            l.Success? && l.value == Filter(s.posts, AuthorMatcher(p.author)) + [p.(id := Some(s.nextId))]
  {
    var q := p.(id := Some(s.nextId));
    var m := AuthorMatcher(p.author);
    FilterAppend(s.posts, [q], m);
    assert Filter([q], m) == [q] by {
      assert [q][1..] == [];
    }
    assert q in Create(s, Some(p)).value.posts;
  }

  /** After deletion in a valid store, the id is no longer found. */
  lemma {:induction false} DeleteThenFind(s: Store, id: int)
    requires Valid(s)
    ensures Delete(s, id).Success? ==> FindPost(Delete(s, id).value.0, id).Failure?
  {
    if Delete(s, id).Success? {
      var i := IndexOfPost(s, id).value;
      var t := Delete(s, id).value.0.posts;
      assert t == s.posts[..i] + s.posts[i + 1..];
      forall a | 0 <= a < |t| ensures t[a].id != Some(id) {
        DropIndex(s.posts, i, a);
        var b := if a < i then a else a + 1;
        IdsDistinct(s, i, b);
      }
    }
  }

  /** A comment accepted by comentar is then held by the post its id
      names. */
  lemma {:induction false} CommentThenFind(s: Store, c: Option<Comment>)
    ensures AddCommentTo(s, c).Success? ==>
              var f := FindPost(AddCommentTo(s, c).value, c.value.post.value);
              f.Success? && c.value in f.value.comments
  {
    if AddCommentTo(s, c).Success? {
      var t := AddCommentTo(s, c).value;
      IndexOfSameIds(s, t, c.value.post.value);
    }
  }

  /** Liking then unliking with the same account gives back the store. */
  lemma {:induction false} LikeThenUnlikeStore(s: Store, users: AccountRegistry.Users, postId: int, userId: int)
    requires Like(s, users, postId, userId).Success?
    ensures Unlike(Like(s, users, postId, userId).value, users, postId, userId) == Success(s)
  {
    var t := Like(s, users, postId, userId).value;
    var i := IndexOfPost(s, postId).value;
    IndexOfSameIds(s, t, postId);
    LikeThenUnlike(s.posts[i], userId);
    assert t.posts[i] == AddLike(s.posts[i], userId);
    assert t.posts[i := RemoveLike(t.posts[i], userId)] == s.posts;
  }

  /** A second like by the same account is refused. */
  lemma {:induction false} LikeTwiceRefused(s: Store, users: AccountRegistry.Users, postId: int, userId: int)
    requires Like(s, users, postId, userId).Success?
    ensures Like(Like(s, users, postId, userId).value, users, postId, userId)
              == Failure(PostException(AlreadyLiked))
  {
    var t := Like(s, users, postId, userId).value;
    IndexOfSameIds(s, t, postId);
  }
}
