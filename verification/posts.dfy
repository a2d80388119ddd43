/** Post.java: a post with its likes and comments.

    The author and the liking accounts are referenced by account id (the
    source compares Usuario objects by id). `id` is None while the Java
    Integer is null. */
module Posts {
  import opened Wrappers
  import opened Seqs
  import opened Comments

  datatype Post = Post(
    id: Option<int>,
    author: int,
    content: string,
    publishedAt: int,
    likes: seq<int>,
    comments: seq<Comment>)

  /** The Post constructor keeps id, author, content and date as given and
      ignores the like and comment lists it is passed: a new post starts
      with neither. */
  function NewPost(id: Option<int>, author: int, content: string, publishedAt: int,
                   likes: seq<int>, comments: seq<Comment>): (r: Post)
    ensures r.likes == [] && r.comments == []
    ensures r.id == id && r.author == author && r.content == content
    ensures r.publishedAt == publishedAt
  {
    Post(id, author, content, publishedAt, [], [])
  }

  /** Post.adicionarCurtida: append the account unless it already liked. */
  function AddLike(p: Post, user: int): (r: Post)
    ensures r == p.(likes := r.likes)
    ensures user in r.likes
    ensures user in p.likes ==> r == p
    ensures user !in p.likes ==> r.likes == p.likes + [user]
    ensures NoDup(p.likes) ==> NoDup(r.likes)
  {
    p.(likes := AddAbsent(p.likes, user))
  }

  /** Post.removerCurtida: drop the account's like, if it has one. */
  function RemoveLike(p: Post, user: int): (r: Post)
    ensures r == p.(likes := r.likes)
    ensures user !in p.likes ==> r == p
    ensures multiset(r.likes) == multiset(p.likes) - multiset{user}
    ensures NoDup(p.likes) ==> NoDup(r.likes) && user !in r.likes
    ensures user in p.likes ==>
              exists i :: 0 <= i < |p.likes| && p.likes[i] == user && user !in p.likes[..i]
                          && r.likes == p.likes[..i] + p.likes[i + 1..]
  {
    RemoveFirstNoDup(p.likes, user);
    if user in p.likes then
      assert exists i :: 0 <= i < |p.likes| && p.likes[i] == user && user !in p.likes[..i]
                         && RemoveFirst(p.likes, user) == p.likes[..i] + p.likes[i + 1..] by {
        var i := FirstIndex(p.likes, (y: int) => y == user).value;
        RemoveFirstAt(p.likes, user, i);
        assert user !in p.likes[..i];
      }
      p.(likes := RemoveFirst(p.likes, user))
    else p
  }

  /** Liking as a new liker and then unliking gives back the same post. */
  lemma {:induction false} LikeThenUnlike(p: Post, user: int)
    requires user !in p.likes
    ensures RemoveLike(AddLike(p, user), user) == p
  {
    RemoveFirstUndoesAppend(p.likes, user);
  }

  /** Post.adicionarComentario: append the comment unless that same comment
      is already there. Comments already present keep their places. */
  function AddComment(p: Post, c: Comment): (r: Post)
    ensures r == p.(comments := r.comments)
    ensures p.comments <= r.comments
    ensures c in r.comments
    ensures c in p.comments ==> r == p
    ensures c !in p.comments ==> r.comments == p.comments + [c]
  {
    if c in p.comments then p else p.(comments := p.comments + [c])
  }
}
