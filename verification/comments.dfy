/** Comentario.java: a comment on a post.

    The author and the parent post are referenced by id; `post` is None
    when the parent reference is null. The creation time, read from the
    clock in the source, is a parameter of the constructor. */
module Comments {
  import opened Wrappers

  datatype Comment = Comment(
    id: Option<int>,
    author: int,
    content: string,
    createdAt: int,
    post: Option<int>)

  /** The constructor keeps author, content and parent post as given,
      stamps the comment with `now` and leaves the id null. */
  function NewComment(author: int, content: string, post: Option<int>, now: int): (r: Comment)
    ensures r.id.None?
    ensures r.author == author && r.content == content && r.post == post
    ensures r.createdAt == now
  {
    Comment(None, author, content, now, post)
  }

  function SetId(c: Comment, id: Option<int>): Comment { c.(id := id) }
  function SetAuthor(c: Comment, author: int): Comment { c.(author := author) }
  function SetContent(c: Comment, content: string): Comment { c.(content := content) }
  function SetCreatedAt(c: Comment, createdAt: int): Comment { c.(createdAt := createdAt) }
  function SetPost(c: Comment, post: Option<int>): Comment { c.(post := post) }

  /** Each setter changes its own field and leaves the other four alone,
      so setters of different fields commute. */
  lemma SettersTouchOneField(c: Comment, id: Option<int>, author: int, content: string,
                             at: int, post: Option<int>)
    ensures var d := SetId(c, id);
            d.id == id && d.author == c.author && d.content == c.content
            && d.createdAt == c.createdAt && d.post == c.post
    ensures var d := SetAuthor(c, author);
            d.id == c.id && d.author == author && d.content == c.content
            && d.createdAt == c.createdAt && d.post == c.post
    ensures var d := SetContent(c, content);
            d.id == c.id && d.author == c.author && d.content == content
            && d.createdAt == c.createdAt && d.post == c.post
    ensures var d := SetCreatedAt(c, at);
            d.id == c.id && d.author == c.author && d.content == c.content
            && d.createdAt == at && d.post == c.post
    ensures var d := SetPost(c, post);
            d.id == c.id && d.author == c.author && d.content == c.content
            && d.createdAt == c.createdAt && d.post == post
    ensures SetContent(SetAuthor(c, author), content) == SetAuthor(SetContent(c, content), author)
  {
  }
}
