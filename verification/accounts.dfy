/** Usuario.java: an account and its own mutators.

    Object references are represented by ids: `friends` holds the ids of
    befriended accounts (Usuario.equals compares ids), `posts` holds the ids
    of the account's posts. `id` is None while the Java Integer is null,
    that is, until the account registry assigns one. */
module Accounts {
  import opened Wrappers
  import opened Errors
  import opened Seqs

  datatype Account = Account(
    id: Option<int>,
    name: string,
    username: string,
    email: string,
    password: string,
    registeredAt: int,
    friends: seq<int>,
    posts: seq<int>)

  /** The Usuario constructor: every text field must be non-empty (checked
      in declaration order); the new account has no id, no friends and no
      posts. */
  function NewAccount(name: string, username: string, email: string, password: string,
                      registeredAt: int): (r: Result<Account, Err>)
    ensures r.Success? <==> name != [] && username != [] && email != [] && password != []
    ensures name == [] ==> r == Failure(UsuarioException(EmptyName))
    ensures name != [] && username == [] ==> r == Failure(UsuarioException(EmptyUsername))
    ensures name != [] && username != [] && email == [] ==> r == Failure(UsuarioException(EmptyEmail))
    ensures name != [] && username != [] && email != [] && password == [] ==>
              r == Failure(UsuarioException(EmptyPassword))
    ensures r.Success? ==> r.value.id.None? && r.value.friends == [] && r.value.posts == []
    ensures r.Success? ==> r.value.name == name && r.value.username == username
                           && r.value.email == email && r.value.password == password
                           && r.value.registeredAt == registeredAt
  {
    if name == [] then Failure(UsuarioException(EmptyName))
    else if username == [] then Failure(UsuarioException(EmptyUsername))
    else if email == [] then Failure(UsuarioException(EmptyEmail))
    else if password == [] then Failure(UsuarioException(EmptyPassword))
    else Success(Account(None, name, username, email, password, registeredAt, [], []))
  }

  /** Usuario.equals: accounts are equal exactly when their ids are. The
      source dereferences the receiver's id, hence the precondition. */
  function SameAccount(a: Account, b: Account): (r: bool)
    requires a.id.Some?
    ensures r ==> b.id.Some? && Hash(a) == Hash(b)
    ensures r <==> b.id.Some? && b.id.value == a.id.value
  {
    a.id == b.id
  }

  /** Usuario.hashCode: Objects.hash(id), that is 31 + id in 32-bit
      two's-complement arithmetic (a null id hashes as 0). */
  function Hash(a: Account): (h: int)
    ensures -0x8000_0000 <= h < 0x8000_0000
    ensures a.id.None? ==> h == 31
    ensures a.id.Some? && -0x8000_0000 <= a.id.value < 0x8000_0000 - 31 ==> h == 31 + a.id.value
  {
    var raw := 31 + (if a.id.Some? then a.id.value else 0);
    (raw + 0x8000_0000) % 0x1_0000_0000 - 0x8000_0000
  }

  /** Equality and hashing look at the id alone: equal accounts hash alike,
      and changing any other field keeps an account equal to itself. */
  lemma EqualityIsById(a: Account, b: Account, name: string, friends: seq<int>)
    requires a.id.Some?
    ensures SameAccount(a, b) ==> Hash(a) == Hash(b)
    ensures SameAccount(a, a.(name := name, friends := friends))
    ensures SameAccount(a, b) <==> b.id.Some? && SameAccount(b, a)
  {
  }

  /** The account lists none of its friends twice and is not its own friend. */
  predicate FriendListOk(a: Account) {
    && a.id.Some?
    && NoDup(a.friends)
    && a.id.value !in a.friends
  }

  /** Links between the two accounts still missing; the measure of the
      reciprocal recursion in adicionarAmigo. */
  function Missing(me: Account, other: Account): nat
    requires me.id.Some? && other.id.Some?
  {
    (if other.id.value in me.friends then 0 else 1) + (if me.id.value in other.friends then 0 else 1)
  }

  /** Usuario.adicionarAmigo. A null friend, the account itself (by id) and
      an existing friend are no-ops. Otherwise `me` appends the friend and, if
      the friend does not list `me` yet, the reciprocal call appends `me`
      there. Returns both accounts afterwards. */
  function AddFriend(me: Account, friend: Option<Account>): (r: (Account, Option<Account>))
    requires me.id.Some? && (friend.Some? ==> friend.value.id.Some?)
    ensures r.1.Some? <==> friend.Some?
    ensures friend.None? || me.id == friend.value.id || friend.value.id.value in me.friends ==> r == (me, friend)
    ensures r.0 == me.(friends := r.0.friends)
    ensures friend.Some? ==> r.1.value == friend.value.(friends := r.1.value.friends)
    ensures friend.Some? && me.id != friend.value.id ==>
              r.0.friends == AddAbsent(me.friends, friend.value.id.value)
    ensures friend.Some? && me.id != friend.value.id && friend.value.id.value !in me.friends ==>
              r.1.value.friends == AddAbsent(friend.value.friends, me.id.value)
    decreases if friend.Some? then Missing(me, friend.value) else 0
  {
    if friend.None? then (me, friend)
    else
      var other := friend.value;
      if me.id == other.id || other.id.value in me.friends then (me, friend)
      else
        var me1 := me.(friends := me.friends + [other.id.value]);
        if me.id.value in other.friends then (me1, friend)
        else
          var (other2, me2) := AddFriend(other, Some(me1));
          (me2.value, Some(other2))
  }

  /** Usuario.removerAmigo. A null friend and a non-friend are no-ops.
      Otherwise `me` drops the friend and, if the friend still lists `me`,
      the reciprocal call drops `me` there (and so on while links remain). */
  function RemoveFriend(me: Account, friend: Option<Account>): (r: (Account, Option<Account>))
    requires me.id.Some? && (friend.Some? ==> friend.value.id.Some?)
    ensures r.1.Some? <==> friend.Some?
    ensures friend.None? || friend.value.id.value !in me.friends ==> r == (me, friend)
    ensures r.0 == me.(friends := r.0.friends)
    ensures friend.Some? ==> r.1.value == friend.value.(friends := r.1.value.friends)
    ensures multiset(r.0.friends) <= multiset(me.friends)
    ensures friend.Some? ==> multiset(r.1.value.friends) <= multiset(friend.value.friends)
    ensures friend.Some? && me.id != friend.value.id && NoDup(me.friends) && NoDup(friend.value.friends)
            && friend.value.id.value in me.friends ==>
              && r.0.friends == RemoveFirst(me.friends, friend.value.id.value)
              && r.1.value.friends == RemoveFirst(friend.value.friends, me.id.value)
              && friend.value.id.value !in r.0.friends
              && me.id.value !in r.1.value.friends
    decreases |me.friends| + (if friend.Some? then |friend.value.friends| else 0)
  {
    if friend.None? || friend.value.id.value !in me.friends then (me, friend)
    else
      var other := friend.value;
      var me1 := me.(friends := RemoveFirst(me.friends, other.id.value));
      if me.id.value in other.friends then
        RemoveFirstNoDup(me.friends, other.id.value);
        RemoveFirstNoDup(other.friends, me.id.value);
        var (other2, me2) := RemoveFriend(other, Some(me1));
        (me2.value, Some(other2))
      else
        RemoveFirstNoDup(me.friends, other.id.value);
        (me1, friend)
  }

  /** Usuario.removerAmigo called with the account itself: every
      occurrence of its own id leaves its friend list. */
  function RemoveSelf(me: Account): (r: Account)
    requires me.id.Some?
    ensures r == me.(friends := r.friends)
    ensures me.id.value !in r.friends
    ensures me.id.value !in me.friends ==> r == me
    ensures multiset(r.friends) <= multiset(me.friends)
    ensures forall z :: z != me.id.value ==> multiset(r.friends)[z] == multiset(me.friends)[z]
    ensures r.friends == Filter(me.friends, Other(me.id.value))
    decreases |me.friends|
  {
    if me.id.value !in me.friends then
      FilterKeepsAll(me.friends, Other(me.id.value));
      me
    else
      FilterRemoveFirst(me.friends, me.id.value, Other(me.id.value));
      RemoveSelf(me.(friends := RemoveFirst(me.friends, me.id.value)))
  }

  /** The test that keeps every id but `id`. */
  function Other(id: int): int -> bool {
    (z: int) => z != id
  }

  /** Usuario.adicionarPost: a null post and one already listed are no-ops. */
  function AddPost(me: Account, post: Option<int>): (r: Account)
    ensures r == me.(posts := r.posts)
    ensures post.None? ==> r == me
    ensures post.Some? ==> post.value in r.posts && me.posts <= r.posts
    ensures post.Some? && post.value !in me.posts ==> r.posts == me.posts + [post.value]
    ensures post.Some? && post.value in me.posts ==> r == me
    ensures NoDup(me.posts) ==> NoDup(r.posts)
  {
    if post.None? then me else me.(posts := AddAbsent(me.posts, post.value))
  }

  /** Befriending keeps both friend lists well formed, and afterwards each
      side lists the other exactly once. */
  lemma {:induction false} AddFriendKeepsLists(me: Account, other: Account)
    requires FriendListOk(me) && FriendListOk(other) && me.id != other.id
    requires other.id.value in me.friends <==> me.id.value in other.friends
    ensures var (m, o) := AddFriend(me, Some(other));
            && FriendListOk(m) && FriendListOk(o.value)
            && other.id.value in m.friends && me.id.value in o.value.friends
            && multiset(m.friends)[other.id.value] == 1
            && multiset(o.value.friends)[me.id.value] == 1
  {
    var (m, o) := AddFriend(me, Some(other));
    NoDupCount(m.friends, other.id.value);
    NoDupCount(o.value.friends, me.id.value);
  }
}
