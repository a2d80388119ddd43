/** GerenciadorUsuarios.java: the account registry.

    The registry is a value: every operation takes the registry and returns
    the registry afterwards (or the exception it throws). A Usuario argument
    that the source receives as an object reference is passed either as an
    Account value (registration, update) or, where only its identity
    matters, as the id of the stored account it designates. */
module AccountRegistry {
  import opened Wrappers
  import opened Errors
  import opened Seqs
  import opened Text
  import opened Accounts

  /** The account list in insertion order and the next id to hand out. */
  datatype Users = Users(accounts: seq<Account>, nextId: int)

  /** The constructor: no accounts, and the first id handed out is 1. */
  function Empty(): (r: Users)
    ensures r.accounts == [] && r.nextId == 1
  {
    Users([], 1)
  }

  /** What every reachable registry satisfies: ids are assigned, below the
      counter and strictly increasing in list order (so unique), and no two
      accounts share a username or an email. */
  predicate WellFormed(u: Users) {
    && u.nextId >= 1
    && (forall i :: 0 <= i < |u.accounts| ==>
          u.accounts[i].id.Some? && 1 <= u.accounts[i].id.value < u.nextId)
    && (forall i, j :: 0 <= i < j < |u.accounts| ==>
          u.accounts[i].id.Some? && u.accounts[j].id.Some? &&
          u.accounts[i].id.value < u.accounts[j].id.value)
    && (forall i, j :: 0 <= i < j < |u.accounts| ==>
          u.accounts[i].username != u.accounts[j].username &&
          u.accounts[i].email != u.accounts[j].email)
  }

  /** Friendship is well kept: no account befriends itself or lists a
      friend twice, friend ids were handed out by this registry, and two
      stored accounts list each other or neither lists the other. */
  predicate Friendly(u: Users) {
    && (forall i :: 0 <= i < |u.accounts| ==> FriendListOk(u.accounts[i]))
    && (forall i, f :: 0 <= i < |u.accounts| && f in u.accounts[i].friends ==> 1 <= f < u.nextId)
    && (forall i, j :: 0 <= i < |u.accounts| && 0 <= j < |u.accounts| ==>
          u.accounts[i].id.Some? && u.accounts[j].id.Some? &&
          (u.accounts[j].id.value in u.accounts[i].friends <==>
           u.accounts[i].id.value in u.accounts[j].friends))
  }

  predicate HasId(a: Account, id: int) {
    a.id == Some(id)
  }

  /** Position of the first account with this id (the stream's findFirst). */
  function IndexOf(u: Users, id: int): (r: Option<nat>)
    ensures r.Some? ==> r.value < |u.accounts| && u.accounts[r.value].id == Some(id)
    ensures r.Some? ==> forall j :: 0 <= j < r.value ==> u.accounts[j].id != Some(id)
    ensures r.None? <==> forall j :: 0 <= j < |u.accounts| ==> u.accounts[j].id != Some(id)
  {
    FirstIndex(u.accounts, (a: Account) => HasId(a, id))
  }

  predicate UsernameTaken(u: Users, username: string) {
    exists i :: 0 <= i < |u.accounts| && u.accounts[i].username == username
  }

  predicate EmailTaken(u: Users, email: string) {
    exists i :: 0 <= i < |u.accounts| && u.accounts[i].email == email
  }

  /** validarUsuario: the checks run in this order and the first failure
      throws ValidacaoException. The username comparison is case-sensitive. */
  function ValidateAccount(u: Users, a: Account): (r: Outcome<Err>)
    ensures r.Pass? <==>
              a.name != [] && !UsernameTaken(u, a.username) && '@' in a.email && |a.password| >= 6
    ensures a.name == [] ==> r == Fail(ValidacaoException(EmptyName))
    ensures a.name != [] && UsernameTaken(u, a.username) ==> r == Fail(ValidacaoException(UsernameInUse))
    ensures a.name != [] && !UsernameTaken(u, a.username) && '@' !in a.email ==>
              r == Fail(ValidacaoException(InvalidEmail))
    ensures a.name != [] && !UsernameTaken(u, a.username) && '@' in a.email && |a.password| < 6 ==>
              r == Fail(ValidacaoException(ShortPassword))
  {
    if a.name == [] then Fail(ValidacaoException(EmptyName))
    else if FirstIndex(u.accounts, (x: Account) => x.username == a.username).Some? then
      Fail(ValidacaoException(UsernameInUse))
    else if '@' !in a.email then Fail(ValidacaoException(InvalidEmail))
    else if |a.password| < 6 then Fail(ValidacaoException(ShortPassword))
    else Pass
  }

  /** The registry after `cadastrar` and what the call did: the assigned id,
      or the exception thrown. A thrown exception may still leave the
      counter advanced. */
  datatype Registration = Registration(users: Users, outcome: Result<int, Err>)

  /** cadastrar. Validation runs first; then an id is consumed; then the
      email and username are checked against the stored accounts. */
  function Register(u: Users, draft: Account): (r: Registration)
    // a rejected draft leaves list and counter untouched
    ensures ValidateAccount(u, draft).Fail? ==>
              r == Registration(u, Failure(ValidateAccount(u, draft).error))
    // once validation passes, an id is consumed whatever happens next
    ensures ValidateAccount(u, draft).Pass? ==> r.users.nextId == u.nextId + 1
    ensures ValidateAccount(u, draft).Pass? && EmailTaken(u, draft.email) ==>
              r.outcome == Failure(UsuarioException(EmailInUse)) && r.users.accounts == u.accounts
    ensures r.outcome.Success? <==> ValidateAccount(u, draft).Pass? && !EmailTaken(u, draft.email)
    ensures r.outcome.Success? ==>
              && r.outcome.value == u.nextId
              && r.users.accounts == u.accounts + [draft.(id := Some(u.nextId))]
    // the username check after the email check never fires
    ensures r.outcome != Failure(UsuarioException(UsernameInUse))
  {
    match ValidateAccount(u, draft)
    case Fail(e) => Registration(u, Failure(e))
    case Pass =>
      var id := u.nextId;
      var bumped := u.(nextId := u.nextId + 1);
      var account := draft.(id := Some(id));
      if FirstIndex(u.accounts, (x: Account) => x.email == account.email).Some? then
        Registration(bumped, Failure(UsuarioException(EmailInUse)))
      else if FirstIndex(u.accounts, (x: Account) => x.username == account.username).Some? then
        Registration(bumped, Failure(UsuarioException(UsernameInUse)))
      else
        Registration(bumped.(accounts := u.accounts + [account]), Success(id))
  }

  /** buscarPorId: the first account with this id. */
  function FindById(u: Users, id: int): (r: Result<Account, Err>)
    ensures r.Success? <==> exists i :: 0 <= i < |u.accounts| && u.accounts[i].id == Some(id)
    ensures r.Success? ==>
              && r.value.id == Some(id)
              && exists i :: 0 <= i < |u.accounts| && u.accounts[i] == r.value
                             && forall j :: 0 <= j < i ==> u.accounts[j].id != Some(id)
    ensures r.Failure? ==> r.error == UsuarioException(AccountNotFound)
  {
    match IndexOf(u, id)
    case None => Failure(UsuarioException(AccountNotFound))
    case Some(i) => Success(u.accounts[i])
  }

  /** buscarPorUsername: rejects a blank query, then returns the first
      account whose username equals the query ignoring case. */
  function FindByUsername(u: Users, username: string): (r: Result<Account, Err>)
    ensures IsBlank(username) ==> r == Failure(ValidacaoException(BlankUsername))
    ensures !IsBlank(username) ==>
              (r.Failure? <==> forall i :: 0 <= i < |u.accounts| ==>
                                  !EqualsIgnoreCase(u.accounts[i].username, username))
    ensures !IsBlank(username) && r.Failure? ==> r.error == UsuarioException(AccountNotFound)
    ensures r.Success? ==>
              exists i :: 0 <= i < |u.accounts| && u.accounts[i] == r.value
                          && EqualsIgnoreCase(r.value.username, username)
                          && forall j :: 0 <= j < i ==> !EqualsIgnoreCase(u.accounts[j].username, username)
  {
    if Trim(username) == [] then Failure(ValidacaoException(BlankUsername))
    else FirstByUsername(u, username)
  }

  /** The stream part of buscarPorUsername. */
  function FirstByUsername(u: Users, username: string): (r: Result<Account, Err>)
    ensures r.Failure? <==> forall i :: 0 <= i < |u.accounts| ==>
                              !EqualsIgnoreCase(u.accounts[i].username, username)
    ensures r.Failure? ==> r.error == UsuarioException(AccountNotFound)
    ensures r.Success? ==>
              exists i :: 0 <= i < |u.accounts| && u.accounts[i] == r.value
                          && EqualsIgnoreCase(r.value.username, username)
                          && forall j :: 0 <= j < i ==> !EqualsIgnoreCase(u.accounts[j].username, username)
  {
    var matcher := UsernameMatcher(username);
    assert forall a :: matcher(a) == EqualsIgnoreCase(a.username, username);
    match FirstIndex(u.accounts, matcher)
    case None => Failure(UsuarioException(AccountNotFound))
    case Some(i) => Success(u.accounts[i])
  }

  function UsernameMatcher(username: string): Account -> bool {
    (a: Account) => EqualsIgnoreCase(a.username, username)
  }

  /** The name filter of buscarPorNome: lowercased name contains the
      lowercased query. */
  predicate NameMatches(a: Account, query: string) {
    Contains(Lower(a.name), Lower(query))
  }

  function NameMatcher(query: string): Account -> bool {
    (a: Account) => NameMatches(a, query)
  }

  /** buscarPorNome: rejects a blank query, then returns, in list order,
      every account whose name contains the query ignoring case. */
  function SearchByName(u: Users, query: string): (r: Result<seq<Account>, Err>)
    ensures r.Failure? <==> IsBlank(query)
    ensures r.Failure? ==> r.error == ValidacaoException(BlankName)
    ensures r.Success? ==> forall a :: a in r.value <==> a in u.accounts && NameMatches(a, query)
    ensures r.Success? && WellFormed(u) ==> IdsIncrease(r.value)
  {
    if Trim(query) == [] then Failure(ValidacaoException(BlankName))
    else
      var matcher := NameMatcher(query);
      var found := Filter(u.accounts, matcher);
      assert forall a :: matcher(a) == NameMatches(a, query);
      FilterKeepsIdOrder(u, matcher);
      Success(found)
  }

  /** Filtering the account list keeps ids strictly increasing. */
  lemma FilterKeepsIdOrder(u: Users, p: Account -> bool)
    ensures WellFormed(u) ==> IdsIncrease(Filter(u.accounts, p))
  {
    if WellFormed(u) {
      assert IdsIncrease(u.accounts);
      FilterKeepsOrder(u.accounts, p);
    }
  }

  function IdKey(a: Account): int {
    if a.id.Some? then a.id.value else 0
  }

  /** Every id is assigned and ids strictly increase along the sequence. */
  predicate IdsIncrease(s: seq<Account>) {
    && (forall i :: 0 <= i < |s| ==> s[i].id.Some?)
    && Increasing(s, IdKey)
  }

  lemma FilterKeepsOrder(s: seq<Account>, p: Account -> bool)
    requires IdsIncrease(s)
    ensures IdsIncrease(Filter(s, p))
  {
    FilterKeepsIncreasing(s, p, IdKey);
  }

  /** listarUsuarios: the live list, in registration order. */
  function ListAccounts(u: Users): (r: seq<Account>)
    ensures r == u.accounts
    ensures WellFormed(u) ==> IdsIncrease(r)
    ensures WellFormed(u) ==> forall i :: 0 <= i < |r| ==> r[i].id.Some? && r[i].id.value < u.nextId
  {
    u.accounts
  }

  /** Another account (by id) already uses the email of `a`. */
  predicate EmailHeldByOther(u: Users, a: Account) {
    exists i :: 0 <= i < |u.accounts| && u.accounts[i].email == a.email && u.accounts[i].id != a.id
  }

  /** Another account (by id) already uses the username of `a`. */
  predicate UsernameHeldByOther(u: Users, a: Account) {
    exists i :: 0 <= i < |u.accounts| && u.accounts[i].username == a.username && u.accounts[i].id != a.id
  }

  /** atualizar. A null argument or id throws; an unknown id returns false;
      an email or username held by an account with another id throws;
      otherwise every field of the stored account is overwritten with the
      argument's, friend and post lists included, and the call returns true. */
  function Update(u: Users, arg: Option<Account>): (r: Result<(Users, bool), Err>)
    ensures arg.None? || arg.value.id.None? ==> r == Failure(UsuarioException(NullAccount))
    ensures arg.Some? && arg.value.id.Some? &&
            (forall i :: 0 <= i < |u.accounts| ==> u.accounts[i].id != arg.value.id) ==>
              r == Success((u, false))
    ensures r.Success? ==> r.value.0.nextId == u.nextId && |r.value.0.accounts| == |u.accounts|
    ensures r.Failure? && arg.Some? && arg.value.id.Some? ==>
              r.error == UsuarioException(EmailInUse) || r.error == UsuarioException(UsernameInUse)
    ensures r.Failure? && r.error == UsuarioException(EmailInUse) ==> EmailHeldByOther(u, arg.value)
    ensures r.Failure? && r.error == UsuarioException(UsernameInUse) ==> UsernameHeldByOther(u, arg.value)
    ensures arg.Some? && arg.value.id.Some? && HasAccount(u, arg.value.id.value) ==>
              && (EmailHeldByOther(u, arg.value) ==> r == Failure(UsuarioException(EmailInUse)))
              && (!EmailHeldByOther(u, arg.value) && UsernameHeldByOther(u, arg.value) ==>
                    r == Failure(UsuarioException(UsernameInUse)))
              && (!EmailHeldByOther(u, arg.value) && !UsernameHeldByOther(u, arg.value) ==>
                    r.Success? && r.value.1)
    ensures r.Success? && r.value.1 ==>
              && arg.Some?
              && (forall i :: 0 <= i < |u.accounts| && u.accounts[i].id != arg.value.id ==>
                    u.accounts[i].email != arg.value.email && u.accounts[i].username != arg.value.username)
              && exists i :: 0 <= i < |u.accounts| && u.accounts[i].id == arg.value.id
                             && (forall j :: 0 <= j < i ==> u.accounts[j].id != arg.value.id)
                             && r.value.0.accounts == u.accounts[i := arg.value]
  {
    if arg.None? || arg.value.id.None? then Failure(UsuarioException(NullAccount))
    else
      var a := arg.value;
      match FirstIndex(u.accounts, (x: Account) => x.id == a.id)
      case None => Success((u, false))
      case Some(i) =>
        if FirstIndex(u.accounts, (x: Account) => x.email == a.email && x.id != a.id).Some? then
          Failure(UsuarioException(EmailInUse))
        else if FirstIndex(u.accounts, (x: Account) => x.username == a.username && x.id != a.id).Some? then
          Failure(UsuarioException(UsernameInUse))
        else
          var stored := u.accounts[i];
          var updated := stored.(name := a.name, username := a.username, email := a.email,
                                 password := a.password, registeredAt := a.registeredAt,
                                 friends := a.friends, posts := a.posts);
          Success((u.(accounts := u.accounts[i := updated]), true))
  }

  /** deletar. A non-positive id throws; an unknown id returns false;
      otherwise exactly the first account with that id leaves the list,
      the rest (friend lists included) stay as they were, and the counter
      is untouched. */
  function Delete(u: Users, id: int): (r: Result<(Users, bool), Err>)
    ensures id <= 0 ==> r == Failure(UsuarioException(InvalidId))
    ensures id > 0 ==> r.Success?
    ensures id > 0 && HasAccount(u, id) ==> r.Success? && r.value.1
    ensures id > 0 && (forall i :: 0 <= i < |u.accounts| ==> u.accounts[i].id != Some(id)) ==>
              r == Success((u, false))
    ensures r.Success? && r.value.1 ==>
              && r.value.0.nextId == u.nextId
              && exists i :: 0 <= i < |u.accounts| && u.accounts[i].id == Some(id)
                             && (forall j :: 0 <= j < i ==> u.accounts[j].id != Some(id))
                             && r.value.0.accounts == u.accounts[..i] + u.accounts[i + 1..]
  {
    if id <= 0 then Failure(UsuarioException(InvalidId))
    else
      match IndexOf(u, id)
      case None => Success((u, false))
      case Some(i) => Success((u.(accounts := u.accounts[..i] + u.accounts[i + 1..]), true))
  }

  predicate HasAccount(u: Users, id: int) {
    exists k :: 0 <= k < |u.accounts| && u.accounts[k].id == Some(id)
  }

  /** The two calls `usuario1.adicionarAmigo(usuario2)` and
      `usuario2.adicionarAmigo(usuario1)` on two distinct accounts: whatever
      the lists held before, each ends up listing the other once more at
      most, and only the friend lists change. */
  function MutualAdd(a: Account, b: Account): (r: (Account, Account))
    requires a.id.Some? && b.id.Some? && a.id != b.id
    ensures r.0 == a.(friends := AddAbsent(a.friends, b.id.value))
    ensures r.1 == b.(friends := AddAbsent(b.friends, a.id.value))
  {
    var (a1, b1) := AddFriend(a, Some(b));
    var (b2, a2) := AddFriend(b1.value, Some(a1));
    (a2.value, b2)
  }

  /** `b` is `a` with some entries of its friend list removed (counting
      repeats) and every other field as it was. */
  predicate FriendsShrunk(a: Account, b: Account) {
    b == a.(friends := b.friends) && multiset(b.friends) <= multiset(a.friends)
  }

  /** The two calls `usuario1.removerAmigo(usuario2)` and
      `usuario2.removerAmigo(usuario1)` on two distinct accounts. Lists only
      shrink; with duplicate-free lists each loses exactly the other's id;
      a pair that were not friends is left alone. */
  function MutualRemove(a: Account, b: Account): (r: (Account, Account))
    requires a.id.Some? && b.id.Some? && a.id != b.id
    ensures FriendsShrunk(a, r.0) && FriendsShrunk(b, r.1)
    ensures NoDup(a.friends) && NoDup(b.friends) ==>
              && r.0.friends == RemoveFirst(a.friends, b.id.value)
              && r.1.friends == RemoveFirst(b.friends, a.id.value)
              && b.id.value !in r.0.friends && a.id.value !in r.1.friends
    ensures b.id.value !in a.friends && a.id.value !in b.friends ==> r == (a, b)
  {
    var (a1, b1) := RemoveFriend(a, Some(b));
    var (b2, a2) := RemoveFriend(b1.value, Some(a1));
    RemoveFirstNoDup(a.friends, b.id.value);
    RemoveFirstNoDup(b.friends, a.id.value);
    (a2.value, b2)
  }

  /** The account list after the two adicionarAmigo calls on positions
      `i` and `j`: those two accounts list each other as contains-then-add
      would, and every other position is left alone. */
  function Befriend(s: seq<Account>, i: nat, j: nat): (r: seq<Account>)
    requires i < |s| && j < |s| && i != j
    requires s[i].id.Some? && s[j].id.Some? && s[i].id != s[j].id
    ensures |r| == |s|
    ensures forall k :: 0 <= k < |s| ==> r[k] == s[k].(friends := r[k].friends)
    ensures r[i].friends == AddAbsent(s[i].friends, s[j].id.value)
    ensures r[j].friends == AddAbsent(s[j].friends, s[i].id.value)
    ensures forall k :: 0 <= k < |s| && k != i && k != j ==> r[k] == s[k]
  {
    var (b1, b2) := MutualAdd(s[i], s[j]);
    s[i := b1][j := b2]
  }

  /** adicionarAmizade. Non-positive ids throw, then a missing account
      throws. Otherwise each account's adicionarAmigo is called with the
      other: afterwards each lists the other exactly as contains-then-add
      would, and nothing else changes. Befriending oneself changes nothing. */
  function AddFriendship(u: Users, id1: int, id2: int): (r: Result<Users, Err>)
    ensures id1 <= 0 || id2 <= 0 ==> r == Failure(UsuarioException(InvalidId))
    ensures id1 > 0 && id2 > 0 ==> (r.Failure? <==> !HasAccount(u, id1) || !HasAccount(u, id2))
    ensures id1 > 0 && id2 > 0 && r.Failure? ==> r.error == UsuarioException(AccountNotFound)
    ensures r.Success? ==> r.value.nextId == u.nextId && |r.value.accounts| == |u.accounts|
    ensures r.Success? ==> forall k :: 0 <= k < |u.accounts| ==>
              r.value.accounts[k] == u.accounts[k].(friends := r.value.accounts[k].friends)
    ensures r.Success? && id1 == id2 ==> r.value == u
    ensures r.Success? && id1 != id2 ==>
              && IndexOf(u, id1).Some? && IndexOf(u, id2).Some?
              && var i, j := IndexOf(u, id1).value, IndexOf(u, id2).value;
                 && r.value.accounts[i].friends == AddAbsent(u.accounts[i].friends, id2)
                 && r.value.accounts[j].friends == AddAbsent(u.accounts[j].friends, id1)
                 && forall k :: 0 <= k < |u.accounts| && k != i && k != j ==>
                      r.value.accounts[k] == u.accounts[k]
  {
    if id1 <= 0 || id2 <= 0 then Failure(UsuarioException(InvalidId))
    else
      match (IndexOf(u, id1), IndexOf(u, id2))
      case (Some(i), Some(j)) =>
        if i == j then
          // one object: adicionarAmigo on itself is a no-op
          Success(u)
        else
          Success(u.(accounts := Befriend(u.accounts, i, j)))
      case _ => Failure(UsuarioException(AccountNotFound))
  }

  /** The account list after removerAmizade's two removerAmigo calls on
      positions `i` and `j` (one call on itself when they coincide). Only
      friend lists change and they only shrink; with duplicate-free lists
      each loses exactly the other's id; an account drops its own id; a
      pair that were not friends is left alone. */
  function Unfriend(s: seq<Account>, i: nat, j: nat): (r: seq<Account>)
    requires i < |s| && j < |s| && s[i].id.Some? && s[j].id.Some?
    requires i != j ==> s[i].id != s[j].id
    ensures |r| == |s|
    ensures forall k :: 0 <= k < |s| ==>
              FriendsShrunk(s[k], r[k])
    ensures forall k :: 0 <= k < |s| && k != i && k != j ==> r[k] == s[k]
    ensures i == j ==> s[i].id.value !in r[i].friends
    ensures i != j && NoDup(s[i].friends) && NoDup(s[j].friends) ==>
              && r[i].friends == RemoveFirst(s[i].friends, s[j].id.value)
              && r[j].friends == RemoveFirst(s[j].friends, s[i].id.value)
              && s[j].id.value !in r[i].friends
              && s[i].id.value !in r[j].friends
    ensures s[j].id.value !in s[i].friends && s[i].id.value !in s[j].friends ==> r == s
  {
    if i == j then UnfriendSelf(s, i) else UnfriendPair(s, i, j)
  }

  function UnfriendSelf(s: seq<Account>, i: nat): (r: seq<Account>)
    requires i < |s| && s[i].id.Some?
    ensures |r| == |s|
    ensures forall k :: 0 <= k < |s| ==>
              FriendsShrunk(s[k], r[k])
    ensures forall k :: 0 <= k < |s| && k != i ==> r[k] == s[k]
    ensures s[i].id.value !in r[i].friends
    ensures s[i].id.value !in s[i].friends ==> r == s
  {
    s[i := RemoveSelf(s[i])]
  }

  lemma UpdateTwice<T>(s: seq<T>, i: nat, j: nat)
    requires i < |s| && j < |s|
    ensures s[i := s[i]][j := s[j]] == s
  {
  }

  /** Writing shrunk versions at two positions leaves every position shrunk. */
  lemma ShrunkAfterUpdate(s: seq<Account>, i: nat, j: nat, x: Account, y: Account)
    requires i < |s| && j < |s| && i != j
    requires FriendsShrunk(s[i], x) && FriendsShrunk(s[j], y)
    ensures forall k :: 0 <= k < |s| ==> FriendsShrunk(s[k], s[i := x][j := y][k])
  {
    var r := s[i := x][j := y];
    forall k | 0 <= k < |s| ensures FriendsShrunk(s[k], r[k]) {
      if k != i && k != j {
        assert r[k] == s[k];
      }
    }
  }

  function UnfriendPair(s: seq<Account>, i: nat, j: nat): (r: seq<Account>)
    requires i < |s| && j < |s| && i != j
    requires s[i].id.Some? && s[j].id.Some? && s[i].id != s[j].id
    ensures |r| == |s|
    ensures forall k :: 0 <= k < |s| ==>
              FriendsShrunk(s[k], r[k])
    ensures forall k :: 0 <= k < |s| && k != i && k != j ==> r[k] == s[k]
    ensures NoDup(s[i].friends) && NoDup(s[j].friends) ==>
              && r[i].friends == RemoveFirst(s[i].friends, s[j].id.value)
              && r[j].friends == RemoveFirst(s[j].friends, s[i].id.value)
              && s[j].id.value !in r[i].friends
              && s[i].id.value !in r[j].friends
    ensures s[j].id.value !in s[i].friends && s[i].id.value !in s[j].friends ==> r == s
  {
    var p := MutualRemove(s[i], s[j]);
    var r := s[i := p.0][j := p.1];
    assert r[i] == p.0 && r[j] == p.1;
    UpdateTwice(s, i, j);
    ShrunkAfterUpdate(s, i, j, p.0, p.1);
    r
  }

  /** removerAmizade. Same argument checks as adicionarAmizade. Otherwise
      each account's removerAmigo is called with the other: with
      duplicate-free lists, afterwards neither lists the other, and a pair
      that were not friends is left as it was. Only friend lists change. */
  function RemoveFriendship(u: Users, id1: int, id2: int): (r: Result<Users, Err>)
    ensures id1 <= 0 || id2 <= 0 ==> r == Failure(UsuarioException(InvalidId))
    ensures id1 > 0 && id2 > 0 ==> (r.Failure? <==> !HasAccount(u, id1) || !HasAccount(u, id2))
    ensures id1 > 0 && id2 > 0 && r.Failure? ==> r.error == UsuarioException(AccountNotFound)
    ensures r.Success? ==> r.value.nextId == u.nextId && |r.value.accounts| == |u.accounts|
    ensures r.Success? ==> forall k :: 0 <= k < |u.accounts| ==>
              FriendsShrunk(u.accounts[k], r.value.accounts[k])
    ensures r.Success? ==>
              && IndexOf(u, id1).Some? && IndexOf(u, id2).Some?
              && var i, j := IndexOf(u, id1).value, IndexOf(u, id2).value;
                 && (id1 == id2 ==> id1 !in r.value.accounts[i].friends)
                 && (id1 != id2 && NoDup(u.accounts[i].friends) && NoDup(u.accounts[j].friends) ==>
                       && r.value.accounts[i].friends == RemoveFirst(u.accounts[i].friends, id2)
                       && r.value.accounts[j].friends == RemoveFirst(u.accounts[j].friends, id1)
                       && id2 !in r.value.accounts[i].friends
                       && id1 !in r.value.accounts[j].friends)
                 && (id2 !in u.accounts[i].friends && id1 !in u.accounts[j].friends ==> r.value == u)
                 && forall k :: 0 <= k < |u.accounts| && k != i && k != j ==>
                      r.value.accounts[k] == u.accounts[k]
  {
    if id1 <= 0 || id2 <= 0 then Failure(UsuarioException(InvalidId))
    else
      match (IndexOf(u, id1), IndexOf(u, id2))
      case (Some(i), Some(j)) => Success(u.(accounts := Unfriend(u.accounts, i, j)))
      case _ => Failure(UsuarioException(AccountNotFound))
  }

  /** adicionarPost. A null account or post throws ValidacaoException.
      Otherwise the account's adicionarPost runs; on a stored account that
      appends the post id unless already listed, and nothing else changes.
      An account the registry does not hold changes nothing it can see. */
  function AttachPost(u: Users, who: Option<int>, post: Option<int>): (r: Result<Users, Err>)
    ensures r.Failure? <==> who.None? || post.None?
    ensures r.Failure? ==> r.error == ValidacaoException(InvalidArgument)
    ensures r.Success? ==> r.value.nextId == u.nextId && |r.value.accounts| == |u.accounts|
    ensures r.Success? ==> forall k :: 0 <= k < |u.accounts| ==>
              && r.value.accounts[k] == u.accounts[k].(posts := r.value.accounts[k].posts)
              && u.accounts[k].posts <= r.value.accounts[k].posts
    ensures r.Success? && !HasAccount(u, who.value) ==> r.value == u
    ensures r.Success? && HasAccount(u, who.value) ==>
              && IndexOf(u, who.value).Some?
              && var i := IndexOf(u, who.value).value;
                 && post.value in r.value.accounts[i].posts
                 && (post.value !in u.accounts[i].posts ==>
                       r.value.accounts[i].posts == u.accounts[i].posts + [post.value])
                 && (post.value in u.accounts[i].posts ==> r.value == u)
                 && (NoDup(u.accounts[i].posts) ==> NoDup(r.value.accounts[i].posts))
                 && forall k :: 0 <= k < |u.accounts| && k != i ==> r.value.accounts[k] == u.accounts[k]
  {
    if who.None? || post.None? then Failure(ValidacaoException(InvalidArgument))
    else
      match IndexOf(u, who.value)
      case None => Success(u)
      case Some(i) => Success(u.(accounts := u.accounts[i := AddPost(u.accounts[i], post)]))
  }
}
