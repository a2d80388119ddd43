/** Sequences of post-registry calls: post ids come from the counter, so
    they strictly increase, are never handed out twice and never equal an
    id stored earlier, and the store stays valid throughout. */
module PostHistory {
  import opened Wrappers
  import opened Errors
  import opened Seqs
  import opened Comments
  import opened Posts
  import opened PostRegistry
  import opened PostInvariants
  import AccountRegistry

  /** One mutating call on the post registry. */
  datatype Op =
    | CreateOp(post: Option<Post>)
    | LikeOp(postId: int, userId: int)
    | UnlikeOp(postId: int, userId: int)
    | CommentOp(comment: Option<Comment>)
    | DeleteOp(id: int)

  /** The store after one call, and the post id it handed out: exactly a
      successful criar hands one out. The accounts consulted by curtir and
      descurtir are a parameter: the post registry only reads them. A call
      that throws leaves the store as it was. */
  function Step(s: Store, users: AccountRegistry.Users, op: Op): (r: (Store, Option<int>))
    ensures r.1.None? ==> r.0.nextId == s.nextId
    ensures r.1.Some? ==> r.1.value == s.nextId && r.0.nextId == s.nextId + 1
    ensures r.1.Some? <==> op.CreateOp? && Create(s, op.post).Success?
    ensures op.CreateOp? && Create(s, op.post).Success? ==> r.0 == Create(s, op.post).value
  {
    match op
    case CreateOp(post) =>
      if Create(s, post).Success? then (Create(s, post).value, Some(s.nextId)) else (s, None)
    case LikeOp(postId, userId) =>
      (if Like(s, users, postId, userId).Success? then Like(s, users, postId, userId).value else s, None)
    case UnlikeOp(postId, userId) =>
      (if Unlike(s, users, postId, userId).Success? then Unlike(s, users, postId, userId).value else s, None)
    case CommentOp(c) =>
      (if AddCommentTo(s, c).Success? then AddCommentTo(s, c).value else s, None)
    case DeleteOp(id) =>
      (if Delete(s, id).Success? then Delete(s, id).value.0 else s, None)
  }

  /** A call the store can take without losing validity: a created post
      must not list a liker twice. */
  predicate SafeOp(op: Op) {
    op.CreateOp? && op.post.Some? ==> NoDup(op.post.value.likes)
  }

  lemma {:induction false} StepKeepsValid(s: Store, users: AccountRegistry.Users, op: Op)
    requires Valid(s) && SafeOp(op)
    ensures Valid(Step(s, users, op).0)
  {
    match op
    case CreateOp(post) => CreateKeepsValid(s, post);
    case LikeOp(postId, userId) => LikeKeepsValid(s, users, postId, userId);
    case UnlikeOp(postId, userId) => UnlikeKeepsValid(s, users, postId, userId);
    case CommentOp(c) => CommentKeepsValid(s, c);
    case DeleteOp(id) => DeleteKeepsValid(s, id);
  }

  predicate StrictlyIncreasing(s: seq<int>) {
    forall a, b :: 0 <= a < b < |s| ==> s[a] < s[b]
  }

  /** The store after a sequence of calls and the post ids handed out in
      order: exactly one per successful criar, each the counter's value. */
  function Run(s: Store, users: AccountRegistry.Users, ops: seq<Op>): (r: (Store, seq<int>))
    ensures r.0.nextId == s.nextId + |r.1|
    ensures forall k :: 0 <= k < |r.1| ==> r.1[k] == s.nextId + k
    ensures StrictlyIncreasing(r.1)
    decreases |ops|
  {
    if ops == [] then (s, [])
    else
      var (t, id) := Step(s, users, ops[0]);
      var (w, ids) := Run(t, users, ops[1..]);
      (w, if id.Some? then [id.value] + ids else ids)
  }

  /** Any sequence of safe calls keeps the store valid. */
  lemma {:induction false} RunKeepsValid(s: Store, users: AccountRegistry.Users, ops: seq<Op>)
    requires Valid(s)
    requires forall k :: 0 <= k < |ops| ==> SafeOp(ops[k])
    ensures Valid(Run(s, users, ops).0)
    decreases |ops|
  {
    if ops != [] {
      StepKeepsValid(s, users, ops[0]);
      RunKeepsValid(Step(s, users, ops[0]).0, users, ops[1..]);
    }
  }

  /** A post id handed out by any sequence of calls on a valid store
      differs from every id stored at the start, including posts deleted
      later. */
  lemma {:induction false} PostIdsNeverReused(s: Store, users: AccountRegistry.Users, ops: seq<Op>)
    requires Valid(s)
    ensures forall k, i :: 0 <= k < |Run(s, users, ops).1| && 0 <= i < |s.posts| ==>
              Some(Run(s, users, ops).1[k]) != s.posts[i].id
  {
    var ids := Run(s, users, ops).1;
    forall k, i | 0 <= k < |ids| && 0 <= i < |s.posts| ensures Some(ids[k]) != s.posts[i].id {
      assert PostKey(s.posts[i]) < s.nextId <= ids[k];
    }
  }
}
