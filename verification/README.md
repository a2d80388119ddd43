# RedeSocial core in Dafny

A model of the in-memory social network store of the RedeSocial Java
program:
- the account registry (`GerenciadorUsuarios`) and the account entity with its friend and post lists (`Usuario`);
- the post registry (`GerenciadorPosts`) and the post entity with its likes and comments (`Post`);
- the comment entity (`Comentario`);
- the news feed query of the user menu (`MenuUsuario.verFeedNoticias`): the posts of the viewer and the viewer's friends, newest first.

Each registry is an immutable value, and every operation is a pure function
that takes the registry and returns the new one. A Java exception becomes a
`Failure` tagged with the exception class (`ValidacaoException`,
`UsuarioException`, `PostException`) and a reason. Object references are
ids: a post's author, its likers and an account's friends are account ids;
comments name their post by id. A Java `Integer` field that may be null is
an `Option<int>`. A null argument that the source checks is an `Option`
parameter.

Files:

| file | module | models |
|---|---|---|
| wrappers.dfy | Wrappers | `Option`, `Result`, `Outcome` |
| errors.dfy | Errors | the three exception classes and their reasons |
| text.dfy | Text | `String.trim`, `toLowerCase`, `equalsIgnoreCase`, `contains` |
| seqs.dfy | Seqs | the stream and list operations used: `findFirst`, `filter`, `List.remove`, contains-then-add |
| accounts.dfy | Accounts | `Usuario` |
| comments.dfy | Comments | `Comentario` |
| posts.dfy | Posts | `Post` |
| account_registry.dfy | AccountRegistry | `GerenciadorUsuarios` |
| account_invariants.dfy | AccountInvariants | what each account operation preserves |
| account_history.dfy | AccountHistory | sequences of account operations |
| post_registry.dfy | PostRegistry | `GerenciadorPosts` |
| post_invariants.dfy | PostInvariants | what each post operation preserves, and how the operations relate |
| post_history.dfy | PostHistory | sequences of post operations |
| news_feed.dfy | NewsFeed | the feed query |
| seed_scenario.dfy | Scenario | a short concrete session |

Two invariants carry most of the proofs:
- `AccountRegistry.WellFormed`: account ids are assigned, positive, below the counter and increasing in list order. No two accounts share a username or an email.
- `AccountRegistry.Friendly`: no account lists itself or a friend twice. Friend ids were handed out by the registry. Two stored accounts list each other or neither lists the other.

On the post side, `PostRegistry.Valid` plays the same part: post ids are
assigned, increasing and below the counter, and no post lists a liker twice.

Behaviour of the code worth noting (the model follows it):
- Exceptions (GerenciadorUsuarios.java:33-48, GerenciadorPosts.java:95-135): a duplicate username found during validation throws `ValidacaoException`. A duplicate email throws `UsuarioException`. Likes and unlikes that clash with the current state throw `PostException`.
- A failed account lookup inside `curtir`/`descurtir` (GerenciadorPosts.java:95-135) throws the account registry's `UsuarioException`, not a post exception.
- `buscarPorUsername` (GerenciadorUsuarios.java:69-79) matches ignoring case, while the uniqueness checks compare usernames exactly.
- `cadastrar` (GerenciadorUsuarios.java:33-48) consumes an id before its email check, so a rejected email still advances the counter.
- `atualizar` (GerenciadorUsuarios.java:103-136) also overwrites the friend and post lists with the argument's.
- `deletar` for accounts (GerenciadorUsuarios.java:144-160) leaves the deleted id in other accounts' friend lists.
- `criar` for posts (GerenciadorPosts.java:38-44) does not reset likes or comments. Only the `Post` constructor (Post.java:30-37) starts them empty.
- `comentar` (GerenciadorPosts.java:143-159) does not append a comment that is already on the post.
- `adicionarAmizade` and `removerAmizade` (GerenciadorUsuarios.java:168-220) reject a non-positive id before looking anything up.

## Model

| member | source | states |
|---|---|---|
| Accounts.NewAccount | RedeSocial/src/com/redesocial/modelo/Usuario.java:36-56 | Succeeds iff name, username, email and password are all non-empty. Otherwise it reports the first empty field in that order. A new account has no id, no friends and no posts, and keeps the given fields. |
| Accounts.Hash | RedeSocial/src/com/redesocial/modelo/Usuario.java:206-209 | `Objects.hash(id)` as a 32-bit value: 31 for a null id, and `31 + id` whenever that sum does not overflow. |
| Accounts.SameAccount | RedeSocial/src/com/redesocial/modelo/Usuario.java:193-209 | Two accounts are equal exactly when the other has an id and it is the receiver's id. Equal accounts hash alike. |
| Accounts.EqualityIsById | RedeSocial/src/com/redesocial/modelo/Usuario.java:193-209 | Equal accounts hash alike. Equality ignores every field but the id, and it is symmetric. |
| Accounts.AddFriend | RedeSocial/src/com/redesocial/modelo/Usuario.java:64-71 | A null friend, the account itself and an existing friend change nothing. Otherwise the account gains the friend's id as contains-then-add would. The friend gains the account's id when it did not list it. Only friend lists change. |
| Accounts.AddFriendKeepsLists | RedeSocial/src/com/redesocial/modelo/Usuario.java:64-71 | Starting from duplicate-free, consistent lists, afterwards each side lists the other exactly once and the lists stay well formed. |
| Accounts.RemoveFriend | RedeSocial/src/com/redesocial/modelo/Usuario.java:79-86 | A null friend or a non-friend changes nothing. Friend lists only shrink. With duplicate-free lists, each side loses exactly the other's id and no longer lists it. |
| Accounts.RemoveSelf | RedeSocial/src/com/redesocial/modelo/Usuario.java:79-86 | Unfriending oneself removes every occurrence of one's own id. Every other friend id keeps its count, the survivors keep their order, and no other field changes. |
| Accounts.AddPost | RedeSocial/src/com/redesocial/modelo/Usuario.java:94-98 | A null post or one already listed changes nothing. Otherwise the new list is exactly the old one with the post id added at the end, so it stays duplicate free. |
| Comments.NewComment | RedeSocial/src/com/redesocial/modelo/Comentario.java:26-31 | Keeps author, content and post, stamps the given time, and leaves the id null. |
| Comments.SettersTouchOneField | RedeSocial/src/com/redesocial/modelo/Comentario.java:39-73 | Each setter changes its own field and leaves the other four as they were. |
| Posts.NewPost | RedeSocial/src/com/redesocial/modelo/Post.java:30-37 | Keeps id, author, content and date. It ignores the lists passed in and starts with no likes and no comments. |
| Posts.AddLike | RedeSocial/src/com/redesocial/modelo/Post.java:44-48 | The liker is present afterwards. It is appended only if absent, so a duplicate-free like list stays duplicate free. Nothing but the likes changes. |
| Posts.RemoveLike | RedeSocial/src/com/redesocial/modelo/Post.java:55-59 | A non-liker changes nothing. Otherwise the first occurrence of the liker leaves the likes and the rest keep their order, so the multiset loses exactly one occurrence. With duplicate-free likes the liker is gone afterwards. |
| Posts.LikeThenUnlike | RedeSocial/src/com/redesocial/modelo/Post.java:44-59 | Unliking after a new like gives back the original post. |
| Posts.AddComment | RedeSocial/src/com/redesocial/modelo/Post.java:66-70 | The comment is present afterwards, appended unless already there. Existing comments keep their places. |
| AccountRegistry.Empty | RedeSocial/src/com/redesocial/gerenciador/GerenciadorUsuarios.java:23-26 | No accounts, and the first id handed out is 1. |
| AccountRegistry.ValidateAccount | RedeSocial/src/com/redesocial/gerenciador/GerenciadorUsuarios.java:235-256 | Passes iff the name is non-empty, the username is not taken, the email contains '@' and the password has at least 6 characters. Otherwise it reports the first failing rule in that order as ValidacaoException. |
| AccountRegistry.Register | RedeSocial/src/com/redesocial/gerenciador/GerenciadorUsuarios.java:33-48 | A rejected draft changes nothing. Once validation passes, an id is consumed even if the email is then found taken. Success iff valid and the email is free. The new account gets the old counter as id and is appended. The username conflict after the email check can never be reported. |
| AccountRegistry.IndexOf | RedeSocial/src/com/redesocial/gerenciador/GerenciadorUsuarios.java:56-61 | The first position holding the id, or none exactly when no account has it. |
| AccountRegistry.FindById | RedeSocial/src/com/redesocial/gerenciador/GerenciadorUsuarios.java:56-61 | Succeeds iff some account has the id and then returns the first such account. Otherwise UsuarioException. |
| AccountRegistry.FindByUsername | RedeSocial/src/com/redesocial/gerenciador/GerenciadorUsuarios.java:69-79 | A blank query gives ValidacaoException. Otherwise it fails iff no username equals the query ignoring case, and returns the first that does. |
| AccountRegistry.FirstByUsername | RedeSocial/src/com/redesocial/gerenciador/GerenciadorUsuarios.java:75-78 | Fails iff no username equals the query ignoring case. Otherwise it returns the first such account. |
| AccountRegistry.SearchByName | RedeSocial/src/com/redesocial/gerenciador/GerenciadorUsuarios.java:87-95 | Fails iff the query is blank. Otherwise it returns exactly the accounts whose lowercased name contains the lowercased query, in registration order (ids increasing). |
| AccountRegistry.ListAccounts | RedeSocial/src/com/redesocial/gerenciador/GerenciadorUsuarios.java:226-228 | The stored account list itself. On a well formed registry its ids increase and lie below the counter. |
| AccountRegistry.Update | RedeSocial/src/com/redesocial/gerenciador/GerenciadorUsuarios.java:103-136 | A null argument or id throws. An unknown id returns false and changes nothing. For a stored id, an email used by another id throws UsuarioException; otherwise a username used by another id throws UsuarioException; otherwise the call succeeds with true. Each exception is thrown only when such a conflicting account exists. On success with true, the first account with the id is replaced by the argument, with its friend and post lists, and nothing else changes. |
| AccountRegistry.Delete | RedeSocial/src/com/redesocial/gerenciador/GerenciadorUsuarios.java:144-160 | A non-positive id throws. An unknown id returns false. A stored positive id always succeeds with true, and exactly the first account with the id is removed, with the counter unchanged. |
| AccountRegistry.MutualAdd | RedeSocial/src/com/redesocial/gerenciador/GerenciadorUsuarios.java:187-189 | The two reciprocal adicionarAmigo calls leave each account listing the other as contains-then-add would. |
| AccountRegistry.Befriend | RedeSocial/src/com/redesocial/gerenciador/GerenciadorUsuarios.java:187-189 | On the list, only the two positions change, and only in their friend lists, each gaining the other's id if absent. |
| AccountRegistry.AddFriendship | RedeSocial/src/com/redesocial/gerenciador/GerenciadorUsuarios.java:168-190 | A non-positive id gives InvalidId. It then fails iff either account is missing. On success the two accounts list each other (contains-then-add) and no other account or field changes. Befriending oneself changes nothing. |
| AccountRegistry.MutualRemove | RedeSocial/src/com/redesocial/gerenciador/GerenciadorUsuarios.java:217-219 | The two removerAmigo calls only shrink the friend lists. With duplicate-free lists each loses exactly the other's id. Non-friends are left alone. |
| AccountRegistry.Unfriend | RedeSocial/src/com/redesocial/gerenciador/GerenciadorUsuarios.java:217-219 | On the list, friend lists only shrink and other positions are untouched. Unfriending oneself drops one's own id. With duplicate-free lists the two lose each other's ids. Non-friends are left alone. |
| AccountRegistry.RemoveFriendship | RedeSocial/src/com/redesocial/gerenciador/GerenciadorUsuarios.java:198-220 | A non-positive id gives InvalidId. It then fails iff either account is missing. On success friend lists only shrink and other accounts are unchanged. Duplicate-free friends lose each other. Removing a non-friendship changes nothing. |
| AccountRegistry.AttachPost | RedeSocial/src/com/redesocial/gerenciador/GerenciadorUsuarios.java:264-270 | Fails iff the account or post is null. On a stored account, a post id not yet listed is appended at the end and one already listed changes nothing; the list stays duplicate free. No other account or field changes. |
| AccountInvariants.RegisterKeepsWellFormed | RedeSocial/src/com/redesocial/gerenciador/GerenciadorUsuarios.java:33-48 | Registration, successful or not, keeps ids increasing and below the counter, and usernames and emails unique. |
| AccountInvariants.UpdateKeepsWellFormed | RedeSocial/src/com/redesocial/gerenciador/GerenciadorUsuarios.java:103-136 | Updating keeps the registry well formed: the uniqueness checks against other ids are enough. |
| AccountInvariants.DeleteKeepsWellFormed | RedeSocial/src/com/redesocial/gerenciador/GerenciadorUsuarios.java:144-160 | Deleting keeps the registry well formed. |
| AccountInvariants.DeleteKeepsFriendly | RedeSocial/src/com/redesocial/gerenciador/GerenciadorUsuarios.java:144-160 | Deleting keeps friendship symmetric among the stored accounts. |
| AccountInvariants.DeleteLeavesBackReferences | RedeSocial/src/com/redesocial/gerenciador/GerenciadorUsuarios.java:144-160 | A friend of the deleted account is kept as it was, so it still lists the deleted id: deletion does not cascade. |
| AccountInvariants.RegisterKeepsFriendly | RedeSocial/src/com/redesocial/gerenciador/GerenciadorUsuarios.java:33-48 | Registering a draft with no friends keeps friendship well kept. |
| AccountInvariants.RegisterNewAccountKeepsFriendly | RedeSocial/src/com/redesocial/modelo/Usuario.java:36-56 | An account built by the Usuario constructor has no friends, so registering it keeps friendship well kept with no further condition. |
| AccountInvariants.UpdateKeepsFriendly | RedeSocial/src/com/redesocial/gerenciador/GerenciadorUsuarios.java:103-136 | An update that passes the stored friend list keeps friendship well kept. |
| AccountInvariants.AddFriendshipKeepsWellFormed | RedeSocial/src/com/redesocial/gerenciador/GerenciadorUsuarios.java:168-190 | Befriending keeps the registry well formed. |
| AccountInvariants.AddFriendshipKeepsFriendly | RedeSocial/src/com/redesocial/gerenciador/GerenciadorUsuarios.java:168-190 | Befriending keeps friendship symmetric, duplicate free and irreflexive. |
| AccountInvariants.BefriendLinks | RedeSocial/src/com/redesocial/gerenciador/GerenciadorUsuarios.java:187-189 | After the two adicionarAmigo calls the pair list each other. |
| AccountInvariants.AddFriendshipIdempotent | RedeSocial/src/com/redesocial/gerenciador/GerenciadorUsuarios.java:168-190 | Befriending the same pair a second time changes nothing. |
| AccountInvariants.RemoveFriendshipKeepsWellFormed | RedeSocial/src/com/redesocial/gerenciador/GerenciadorUsuarios.java:198-220 | Unfriending keeps the registry well formed. |
| AccountInvariants.RemoveFriendshipKeepsFriendly | RedeSocial/src/com/redesocial/gerenciador/GerenciadorUsuarios.java:198-220 | Unfriending keeps friendship symmetric, duplicate free and irreflexive. |
| AccountInvariants.AttachPostKeepsWellFormed | RedeSocial/src/com/redesocial/gerenciador/GerenciadorUsuarios.java:264-270 | Attaching a post keeps the registry well formed. |
| AccountInvariants.AttachPostKeepsFriendly | RedeSocial/src/com/redesocial/gerenciador/GerenciadorUsuarios.java:264-270 | Attaching a post keeps friendship well kept. |
| AccountHistory.Step | RedeSocial/src/com/redesocial/gerenciador/GerenciadorUsuarios.java:33-48 | Exactly a successful cadastrar hands out an id, namely the counter, and advances the counter by one. A cadastrar call leaves the registry that cadastrar returns, which may have consumed an id on a failed email check. Every other call keeps the counter. |
| AccountHistory.Run | RedeSocial/src/com/redesocial/gerenciador/GerenciadorUsuarios.java:33-48 | Along any sequence of calls the counter never decreases. The ids handed out strictly increase and lie between the initial and final counter. |
| AccountHistory.RunKeepsWellFormed | RedeSocial/src/com/redesocial/gerenciador/GerenciadorUsuarios.java:33-270 | Any sequence of registry calls keeps usernames and emails unique and ids increasing. |
| AccountHistory.IdsNeverReused | RedeSocial/src/com/redesocial/gerenciador/GerenciadorUsuarios.java:33-48 | No id handed out equals an id stored at the start, even one deleted later. |
| AccountHistory.IdsFromOne | RedeSocial/src/com/redesocial/gerenciador/GerenciadorUsuarios.java:23-48 | From a fresh registry the ids handed out are at least 1 and pairwise distinct. |
| AccountHistory.RunKeepsFriendly | RedeSocial/src/com/redesocial/gerenciador/GerenciadorUsuarios.java:33-270 | Along calls that register friendless drafts and update with the stored friend list, friendship stays symmetric, duplicate free and irreflexive. |
| PostRegistry.Empty | RedeSocial/src/com/redesocial/gerenciador/GerenciadorPosts.java:26-31 | No posts, and the first post id is 1. |
| PostRegistry.IndexOfPost | RedeSocial/src/com/redesocial/gerenciador/GerenciadorPosts.java:61-63 | The first position holding the post id, or none exactly when no post has it. |
| PostRegistry.Create | RedeSocial/src/com/redesocial/gerenciador/GerenciadorPosts.java:38-44 | Fails iff the post is null. Otherwise the post gets the counter as id and is appended, and the counter advances. No other validation runs. |
| PostRegistry.ListPosts | RedeSocial/src/com/redesocial/gerenciador/GerenciadorPosts.java:50-52 | The stored post list itself. On a valid store its ids increase (creation order) and lie below the counter. |
| PostRegistry.FindPost | RedeSocial/src/com/redesocial/gerenciador/GerenciadorPosts.java:60-65 | Succeeds iff some post has the id and returns the first such post. Otherwise PostException. |
| PostRegistry.ListByAuthor | RedeSocial/src/com/redesocial/gerenciador/GerenciadorPosts.java:73-87 | Fails with PostException iff the author has no post. Otherwise it returns exactly that author's posts, in creation order. |
| PostRegistry.Like | RedeSocial/src/com/redesocial/gerenciador/GerenciadorPosts.java:95-111 | Checks in order: unknown post gives PostException, unknown account gives UsuarioException, an existing like gives PostException. Otherwise only that post changes, gaining the like at the end. |
| PostRegistry.Unlike | RedeSocial/src/com/redesocial/gerenciador/GerenciadorPosts.java:119-135 | The same lookups, and a missing like gives PostException. Otherwise only that post changes: the first occurrence of the liker is removed and the other likes keep their order (with duplicate-free likes, the liker is gone). |
| PostRegistry.AddCommentTo | RedeSocial/src/com/redesocial/gerenciador/GerenciadorPosts.java:143-159 | A null comment gives ValidacaoException. A comment without a post or naming an unknown post gives PostException. Otherwise the named post holds the comment, appended if new, and no other post changes. |
| PostRegistry.Delete | RedeSocial/src/com/redesocial/gerenciador/GerenciadorPosts.java:167-176 | Fails with PostException iff no post has the id. Otherwise exactly the first post with the id is removed, the counter is unchanged, and the result is true. |
| PostRegistry.ValidatePost | RedeSocial/src/com/redesocial/gerenciador/GerenciadorPosts.java:183-203 | Passes iff content is not blank, the author is a registered account, content has at most 280 characters, and the author id is positive. Otherwise it reports the first failure in that order, each with its own reason. On a well formed account registry the author-id check can never fail. |
| PostInvariants.CreateKeepsValid | RedeSocial/src/com/redesocial/gerenciador/GerenciadorPosts.java:38-44 | Creating a post whose likes have no duplicates keeps the store valid. |
| PostInvariants.CreateNewPostKeepsValid | RedeSocial/src/com/redesocial/modelo/Post.java:30-37 | A post built by the Post constructor is always accepted by criar and keeps the store valid, whatever like list the caller passed. |
| PostInvariants.CommentOnNewPost | RedeSocial/src/com/redesocial/modelo/Comentario.java:26-31 | A comment built for a post just created is accepted by comentar, and the post found under the new id then holds it. |
| PostInvariants.LikeKeepsValid | RedeSocial/src/com/redesocial/gerenciador/GerenciadorPosts.java:95-111 | Liking keeps the store valid. |
| PostInvariants.UnlikeKeepsValid | RedeSocial/src/com/redesocial/gerenciador/GerenciadorPosts.java:119-135 | Unliking keeps the store valid. |
| PostInvariants.CommentKeepsValid | RedeSocial/src/com/redesocial/gerenciador/GerenciadorPosts.java:143-159 | Commenting keeps the store valid. |
| PostInvariants.DeleteKeepsValid | RedeSocial/src/com/redesocial/gerenciador/GerenciadorPosts.java:167-176 | Deleting keeps the store valid. |
| PostInvariants.CreateThenFind | RedeSocial/src/com/redesocial/gerenciador/GerenciadorPosts.java:38-65 | A created post is found under the id it was given. |
| PostInvariants.CreateThenListByAuthor | RedeSocial/src/com/redesocial/gerenciador/GerenciadorPosts.java:38-87 | A created post ends its author's list, after that author's earlier posts. |
| PostInvariants.DeleteThenFind | RedeSocial/src/com/redesocial/gerenciador/GerenciadorPosts.java:60-65 | In a valid store, a deleted id is no longer found. |
| PostInvariants.CommentThenFind | RedeSocial/src/com/redesocial/gerenciador/GerenciadorPosts.java:143-159 | After comentar, the post found under the comment's post id holds the comment. |
| PostInvariants.LikeThenUnlikeStore | RedeSocial/src/com/redesocial/gerenciador/GerenciadorPosts.java:95-135 | A successful like followed by an unlike by the same account restores the store exactly. |
| PostInvariants.LikeTwiceRefused | RedeSocial/src/com/redesocial/gerenciador/GerenciadorPosts.java:95-111 | A second like by the same account is refused with PostException. |
| PostHistory.Step | RedeSocial/src/com/redesocial/gerenciador/GerenciadorPosts.java:38-44 | Exactly a successful criar hands out an id, namely the counter, and then the store is the one criar returns, with the counter advanced by one. Every other call keeps the counter. |
| PostHistory.Run | RedeSocial/src/com/redesocial/gerenciador/GerenciadorPosts.java:38-44 | The post ids handed out are consecutive from the initial counter, so they strictly increase. The final counter is the initial one plus their number. |
| PostHistory.RunKeepsValid | RedeSocial/src/com/redesocial/gerenciador/GerenciadorPosts.java:38-176 | Any sequence of post calls (with duplicate-free likes on created posts) keeps the store valid. |
| PostHistory.PostIdsNeverReused | RedeSocial/src/com/redesocial/gerenciador/GerenciadorPosts.java:38-44 | No post id handed out equals an id stored at the start, even one deleted later. |
| NewsFeed.InFeed | RedeSocial/src/com/redesocial/ui/MenuUsuario.java:279 | A post passes the feed filter when its author is the viewer or listed among the viewer's friends, and only then. |
| NewsFeed.Insert | RedeSocial/src/com/redesocial/ui/MenuUsuario.java:280 | Inserting adds exactly the one post, as a multiset, and keeps a newest-first sequence newest first. |
| NewsFeed.SortNewestFirst | RedeSocial/src/com/redesocial/ui/MenuUsuario.java:280 | The sort is a permutation of its input and orders dates non-increasingly. |
| NewsFeed.SortKeepsTies | RedeSocial/src/com/redesocial/ui/MenuUsuario.java:280 | The sort is stable: for every date, posts of that date keep their input order. |
| NewsFeed.Feed | RedeSocial/src/com/redesocial/ui/MenuUsuario.java:278-281 | The feed holds exactly the posts by the viewer or a friend, each as often as in the post list, newest first. |
| NewsFeed.FeedKeepsTies | RedeSocial/src/com/redesocial/ui/MenuUsuario.java:278-281 | Feed posts of the same date appear in the order of the post list. |
| NewsFeed.FeedTiesByCreation | RedeSocial/src/com/redesocial/ui/MenuUsuario.java:278-281 | Over a valid post store, same-date feed posts appear in increasing post id, that is, creation order. |
| NewsFeed.OwnPostsInFeed | RedeSocial/src/com/redesocial/ui/MenuUsuario.java:279 | A viewer's own posts are in the viewer's feed. |
| NewsFeed.FeedAfterBefriend | RedeSocial/src/com/redesocial/ui/MenuUsuario.java:278-281 | After befriending y, x's feed contains every post by y, and none by an account that is neither x nor x's friend. |
| Scenario.Registrations | RedeSocial/src/com/redesocial/gerenciador/GerenciadorUsuarios.java:33-48 | An illustrative run of cadastrar: two fresh accounts get ids 1 and 2. A third with a taken email is refused with UsuarioException, yet consumes id 3. |
| Scenario.Likes | RedeSocial/src/com/redesocial/gerenciador/GerenciadorPosts.java:38-111 | An illustrative run of criar and curtir: the first post gets id 1. A like by account 2 is recorded. A second like is refused, as are an unknown account and an unknown post. |
| Scenario.FeedOfFriend | RedeSocial/src/com/redesocial/ui/MenuUsuario.java:278-281 | Once adicionarAmizade has made a user a friend of the author, that user sees the author's post in the feed. |
| Scenario.FeedOfStranger | RedeSocial/src/com/redesocial/ui/MenuUsuario.java:278-281 | An account with no friends does not see it. |

## Left out

- Menus, console input and output, password encoding, `Main`, `toString` and the clock are not modelled. Dates and creation times are plain integers supplied by the caller.
- Null fields of entities are not modelled: a null author, a null date, null strings and null friend or like lists. Neither are the `NullPointerException`s that null ids or fields would raise.
- Java object aliasing is not modelled. Registries hold values, so changing an object after handing it to a registry, or calling `criar` twice on the same object, has no counterpart.
- `setCurtidas(null)` and `adicionarCurtida(null)` have no counterpart, because likes are account ids.
- The `null` checks after `buscarPorId` in `curtir`, `descurtir`, `comentar` and `deletar` (posts) can never fire, since `buscarPorId` throws instead. They are not modelled.
- The publication-date check in `validarPost` is not modelled, because dates are never null here.
- `idComentario` in `GerenciadorPosts` is never read, and is omitted.
- Counters and ids are unbounded integers. The 32-bit wrap-around of `proximoId++` is not modelled; only the hash code wraps.
- `Text.Lower`: case mapping covers ASCII letters only. String lengths count characters, not UTF-16 code units.
- `Posts.AddComment`: duplicate comments are detected by value equality. The source compares comment objects by reference, so two equal but distinct comments would both be appended there.
- `Accounts.AddPost`: a post is represented by its id. `Post` does not override `equals`, so `posts.contains(post)` compares references: two distinct post objects with the same id would both be appended there, but only once here. A post whose id is still null (built but not yet passed to `criar`) is appended by the source; the model can only pass `None`, which it treats as a null post and rejects.
- `AccountRegistry.AttachPost`: the account is passed by id, and `None` stands for a null `Usuario`. A non-null account whose id is still null (not yet registered) is passed as an id the registry does not hold, which gives `Success(u)` as the source does; it is not passed as `None`.
- `PostRegistry.ValidatePost` is never called by `criar`. It is modelled as the standalone check it is, without its null-date branch.
- `AccountHistory.RunKeepsFriendly`: this requires registered drafts to have no friends and updates to pass the stored friend list. `atualizar` copies any friend list it is given, which can break symmetry.
- `PostInvariants.CreateKeepsValid`: this requires the created post to list no liker twice. `criar` stores whatever like list the object has; the constructor always starts with none.
- Deleting an account does not cascade to posts, comments, likes or other accounts' friend lists. The model keeps this, and `AccountInvariants.DeleteLeavesBackReferences` states it.
