/** What the account registry keeps true across its operations: ids are
    unique, increasing and below the counter, usernames and emails are
    unique, and friendship stays symmetric. */
module AccountInvariants {
  import opened Wrappers
  import opened Errors
  import opened Seqs
  import opened Accounts
  import opened AccountRegistry

  /** Position by position, the two lists agree on id, username and email. */
  predicate SameKeys(s: seq<Account>, t: seq<Account>) {
    && |s| == |t|
    && forall k :: 0 <= k < |s| ==>
         t[k].id == s[k].id && t[k].username == s[k].username && t[k].email == s[k].email
  }

  /** Position by position, the two lists agree on id and friend list. */
  predicate SameGraph(s: seq<Account>, t: seq<Account>) {
    && |s| == |t|
    && forall k :: 0 <= k < |s| ==> t[k].id == s[k].id && t[k].friends == s[k].friends
  }

  /** WellFormed depends only on ids, usernames, emails and the counter. */
  lemma {:induction false} SameKeysWellFormed(u: Users, v: Users)
    requires WellFormed(u) && v.nextId == u.nextId && SameKeys(u.accounts, v.accounts)
    ensures WellFormed(v)
  {
    var s, t := u.accounts, v.accounts;
    forall i, j | 0 <= i < j < |t|
      ensures t[i].id.Some? && t[j].id.Some? && t[i].id.value < t[j].id.value
      ensures t[i].username != t[j].username && t[i].email != t[j].email
    {
      assert s[i].id.value < s[j].id.value;
    }
  }

  /** Friendly depends only on ids, friend lists and the counter. */
  lemma {:induction false} SameGraphFriendly(u: Users, v: Users)
    requires Friendly(u) && v.nextId == u.nextId && SameGraph(u.accounts, v.accounts)
    ensures Friendly(v)
  {
    var s, t := u.accounts, v.accounts;
    forall i | 0 <= i < |t| ensures FriendListOk(t[i]) {
      assert FriendListOk(s[i]);
    }
    forall i, f | 0 <= i < |t| && f in t[i].friends ensures 1 <= f < v.nextId {
      assert f in s[i].friends;
    }
  }

  /** cadastrar keeps the registry well formed: the new account takes the
      counter's value, above every stored id, and validation and the email
      check rule out a clash of username or email. */
  lemma {:induction false} RegisterKeepsWellFormed(u: Users, draft: Account)
    requires WellFormed(u)
    ensures WellFormed(Register(u, draft).users)
  {
    var r := Register(u, draft);
    if r.outcome.Success? {
      var s, t := u.accounts, r.users.accounts;
      var n := |s|;
      assert !UsernameTaken(u, draft.username) && !EmailTaken(u, draft.email);
      forall i | 0 <= i < |t| ensures t[i].id.Some? && 1 <= t[i].id.value < r.users.nextId {
        if i < n { assert t[i] == s[i]; }
      }
      forall i, j | 0 <= i < j < |t|
        ensures t[i].id.Some? && t[j].id.Some? && t[i].id.value < t[j].id.value
        ensures t[i].username != t[j].username && t[i].email != t[j].email
      {
        assert t[i] == s[i];
        if j < n {
          assert t[j] == s[j];
        } else {
          assert t[j].username == draft.username && t[j].email == draft.email;
        }
      }
    }
  }

  /** atualizar keeps the registry well formed: the id is kept, and an
      email or username held under another id is refused. */
  lemma {:induction false} UpdateKeepsWellFormed(u: Users, arg: Option<Account>)
    requires WellFormed(u)
    ensures Update(u, arg).Success? ==> WellFormed(Update(u, arg).value.0)
  {
    var r := Update(u, arg);
    if r.Success? && r.value.1 {
      var a := arg.value;
      var i :| 0 <= i < |u.accounts| && u.accounts[i].id == a.id
               && r.value.0.accounts == u.accounts[i := a];
      ReplaceKeepsWellFormed(u.accounts, u.nextId, i, a);
    }
  }

  /** Overwriting one account with one of the same id whose username and
      email no account of another id holds keeps the list well formed. */
  lemma {:induction false} ReplaceKeepsWellFormed(s: seq<Account>, n: int, i: nat, a: Account)
    requires WellFormed(Users(s, n)) && i < |s| && s[i].id == a.id
    requires forall k :: 0 <= k < |s| && s[k].id != a.id ==>
               s[k].email != a.email && s[k].username != a.username
    ensures WellFormed(Users(s[i := a], n))
  {
    var t := s[i := a];
    forall x, y | 0 <= x < y < |t|
      ensures t[x].id.Some? && t[y].id.Some? && t[x].id.value < t[y].id.value
      ensures t[x].username != t[y].username && t[x].email != t[y].email
    {
      assert s[x].id.value < s[y].id.value;
    }
  }

  /** deletar keeps the registry well formed: dropping one account keeps
      the rest in order. */
  lemma {:induction false} DeleteKeepsWellFormed(u: Users, id: int)
    requires WellFormed(u)
    ensures Delete(u, id).Success? ==> WellFormed(Delete(u, id).value.0)
  {
    if id > 0 && IndexOf(u, id).Some? {
      DropKeepsWellFormed(u.accounts, u.nextId, IndexOf(u, id).value);
    }
  }

  lemma {:induction false} DropKeepsWellFormed(s: seq<Account>, n: int, i: nat)
    requires WellFormed(Users(s, n)) && i < |s|
    ensures WellFormed(Users(s[..i] + s[i + 1..], n))
  {
    var t := s[..i] + s[i + 1..];
    forall x | 0 <= x < |t| ensures t[x].id.Some? && 1 <= t[x].id.value < n {
      DropIndex(s, i, x);
    }
    forall x, y | 0 <= x < y < |t|
      ensures t[x].id.Some? && t[y].id.Some? && t[x].id.value < t[y].id.value
      ensures t[x].username != t[y].username && t[x].email != t[y].email
    {
      DropIndex(s, i, x);
      DropIndex(s, i, y);
    }
  }

  /** deletar keeps friendship well kept among the remaining accounts, even
      though it leaves the deleted id in its former friends' lists. */
  lemma {:induction false} DeleteKeepsFriendly(u: Users, id: int)
    requires Friendly(u)
    ensures Delete(u, id).Success? ==> Friendly(Delete(u, id).value.0)
  {
    if id > 0 && IndexOf(u, id).Some? {
      DropKeepsFriendly(u.accounts, u.nextId, IndexOf(u, id).value);
    }
  }

  lemma {:induction false} DropKeepsFriendly(s: seq<Account>, n: int, i: nat)
    requires Friendly(Users(s, n)) && i < |s|
    ensures Friendly(Users(s[..i] + s[i + 1..], n))
  {
    var t := s[..i] + s[i + 1..];
    forall x | 0 <= x < |t| ensures FriendListOk(t[x]) {
      DropIndex(s, i, x);
    }
    forall x, f | 0 <= x < |t| && f in t[x].friends ensures 1 <= f < n {
      DropIndex(s, i, x);
    }
    forall x, y | 0 <= x < |t| && 0 <= y < |t|
      ensures t[x].id.Some? && t[y].id.Some?
      ensures t[y].id.value in t[x].friends <==> t[x].id.value in t[y].friends
    {
      DropIndex(s, i, x);
      DropIndex(s, i, y);
    }
  }

  /** deletar does not cascade: every remaining account keeps its friend
      list, so a former friend of the deleted account still lists its id. */
  lemma {:induction false} DeleteLeavesBackReferences(u: Users, id: int, k: nat)
    requires id > 0 && k < |u.accounts| && u.accounts[k].id != Some(id) && id in u.accounts[k].friends
    ensures Delete(u, id).Success?
    ensures u.accounts[k] in Delete(u, id).value.0.accounts
  {
    DeleteShape(u, id);
    var t := Delete(u, id).value.0.accounts;
    if IndexOf(u, id).Some? {
      var i := IndexOf(u, id).value;
      var x := if k < i then k else k - 1;
      DropIndex(u.accounts, i, x);
      assert t[x] == u.accounts[k];
    } else {
      assert t[k] == u.accounts[k];
    }
  }

  /** A deletar with a positive id drops the first account with that id,
      if any. */
  lemma DeleteShape(u: Users, id: int)
    requires id > 0
    ensures Delete(u, id).Success?
    ensures IndexOf(u, id).None? ==> Delete(u, id).value.0 == u
    ensures IndexOf(u, id).Some? ==>
              var i := IndexOf(u, id).value;
              Delete(u, id).value.0 == Users(u.accounts[..i] + u.accounts[i + 1..], u.nextId)
  {
  }

  /** Raising the counter keeps friend ids below it. */
  lemma {:induction false} BumpKeepsFriendly(s: seq<Account>, n: int)
    requires Friendly(Users(s, n))
    ensures Friendly(Users(s, n + 1))
  {
  }

  /** Appending a friendless account that takes the counter's value keeps
      friendship well kept: no stored account can list an id not yet given. */
  lemma {:induction false} AppendKeepsFriendly(s: seq<Account>, n: int, a: Account)
    requires Friendly(Users(s, n)) && a.id == Some(n) && a.friends == []
    ensures Friendly(Users(s + [a], n + 1))
  {
    var t := s + [a];
    forall x | 0 <= x < |t| ensures FriendListOk(t[x]) {
      if x < |s| { assert t[x] == s[x]; }
    }
    forall x, f | 0 <= x < |t| && f in t[x].friends ensures 1 <= f < n + 1 {
      assert t[x] == s[x];
    }
    forall x, y | 0 <= x < |t| && 0 <= y < |t|
      ensures t[x].id.Some? && t[y].id.Some?
      ensures t[y].id.value in t[x].friends <==> t[x].id.value in t[y].friends
    {
      if x < |s| && y < |s| {
        assert t[x] == s[x] && t[y] == s[y];
      } else if x < |s| {
        assert t[x] == s[x] && t[y] == a;
        assert n !in s[x].friends;
      } else if y < |s| {
        assert t[y] == s[y] && t[x] == a;
        assert n !in s[y].friends;
      }
    }
  }

  /** cadastrar of an account with no friends keeps friendship well kept. */
  lemma {:induction false} RegisterKeepsFriendly(u: Users, draft: Account)
    requires Friendly(u) && draft.friends == []
    ensures Friendly(Register(u, draft).users)
  {
    var r := Register(u, draft);
    if r.outcome.Success? {
      AppendKeepsFriendly(u.accounts, u.nextId, draft.(id := Some(u.nextId)));
    } else if ValidateAccount(u, draft).Pass? {
      BumpKeepsFriendly(u.accounts, u.nextId);
    }
  }

  /** An account built by the Usuario constructor has no friends, so
      registering it keeps friendship well kept. */
  lemma {:induction false} RegisterNewAccountKeepsFriendly(u: Users, name: string, username: string,
                                                           email: string, password: string, at: int)
    requires Friendly(u)
    ensures var a := NewAccount(name, username, email, password, at);
            a.Success? ==> Friendly(Register(u, a.value).users)
  {
    var a := NewAccount(name, username, email, password, at);
    if a.Success? {
      RegisterKeepsFriendly(u, a.value);
    }
  }

  /** The argument of atualizar carries the stored account's friend list. */
  predicate KeepsFriends(u: Users, arg: Option<Account>) {
    arg.Some? ==> forall k :: 0 <= k < |u.accounts| && u.accounts[k].id == arg.value.id ==>
                    u.accounts[k].friends == arg.value.friends
  }

  /** atualizar overwrites the friend list with the argument's; when that
      is the stored list, friendship stays well kept. */
  lemma {:induction false} UpdateKeepsFriendly(u: Users, arg: Option<Account>)
    requires Friendly(u) && KeepsFriends(u, arg)
    ensures Update(u, arg).Success? ==> Friendly(Update(u, arg).value.0)
  {
    var r := Update(u, arg);
    if r.Success? && r.value.1 {
      var a := arg.value;
      var i :| 0 <= i < |u.accounts| && u.accounts[i].id == a.id
               && r.value.0.accounts == u.accounts[i := a];
      ReplaceKeepsFriendly(u.accounts, u.nextId, i, a);
    }
  }

  lemma {:induction false} ReplaceKeepsFriendly(s: seq<Account>, n: int, i: nat, a: Account)
    requires Friendly(Users(s, n)) && i < |s| && s[i].id == a.id && s[i].friends == a.friends
    ensures Friendly(Users(s[i := a], n))
  {
    assert SameGraph(s, s[i := a]);
    SameGraphFriendly(Users(s, n), Users(s[i := a], n));
  }

  /** adicionarAmizade changes friend lists only, so the registry stays
      well formed. */
  lemma {:induction false} AddFriendshipKeepsWellFormed(u: Users, id1: int, id2: int)
    requires WellFormed(u)
    ensures AddFriendship(u, id1, id2).Success? ==> WellFormed(AddFriendship(u, id1, id2).value)
  {
    var a := AddFriendship(u, id1, id2);
    if a.Success? {
      assert SameKeys(u.accounts, a.value.accounts);
      SameKeysWellFormed(u, a.value);
    }
  }

  /** removerAmizade changes friend lists only. */
  lemma {:induction false} RemoveFriendshipKeepsWellFormed(u: Users, id1: int, id2: int)
    requires WellFormed(u)
    ensures RemoveFriendship(u, id1, id2).Success? ==> WellFormed(RemoveFriendship(u, id1, id2).value)
  {
    var d := RemoveFriendship(u, id1, id2);
    if d.Success? {
      assert SameKeys(u.accounts, d.value.accounts);
      SameKeysWellFormed(u, d.value);
    }
  }

  /** adicionarPost changes post lists only. */
  lemma {:induction false} AttachPostKeepsWellFormed(u: Users, who: Option<int>, post: Option<int>)
    requires WellFormed(u)
    ensures AttachPost(u, who, post).Success? ==> WellFormed(AttachPost(u, who, post).value)
  {
    var p := AttachPost(u, who, post);
    if p.Success? {
      assert SameKeys(u.accounts, p.value.accounts);
      SameKeysWellFormed(u, p.value);
    }
  }

  /** adicionarPost leaves every friend list alone. */
  lemma {:induction false} AttachPostKeepsFriendly(u: Users, who: Option<int>, post: Option<int>)
    requires Friendly(u)
    ensures AttachPost(u, who, post).Success? ==> Friendly(AttachPost(u, who, post).value)
  {
    var p := AttachPost(u, who, post);
    if p.Success? {
      assert SameGraph(u.accounts, p.value.accounts);
      SameGraphFriendly(u, p.value);
    }
  }

  /** In a well formed registry distinct positions hold distinct ids. */
  lemma IdsDistinct(u: Users, x: nat, y: nat)
    requires WellFormed(u) && x < |u.accounts| && y < |u.accounts| && x != y
    ensures u.accounts[x].id.value != u.accounts[y].id.value
  {
    if x < y {
      assert u.accounts[x].id.value < u.accounts[y].id.value;
    } else {
      assert u.accounts[y].id.value < u.accounts[x].id.value;
    }
  }

  lemma AddAbsentHas<T>(s: seq<T>, x: T, z: T)
    ensures z in AddAbsent(s, x) <==> z in s || z == x
  {
  }

  /** The two adicionarAmigo calls of adicionarAmizade on positions `i` and
      `j` add exactly the link between them, in both directions. */
  lemma {:induction false} BefriendLinks(s: seq<Account>, n: int, i: nat, j: nat, x: nat, y: nat)
    requires WellFormed(Users(s, n)) && i < |s| && j < |s| && i != j && x < |s| && y < |s|
    ensures s[y].id.value in Befriend(s, i, j)[x].friends <==>
              s[y].id.value in s[x].friends || (x == i && y == j) || (x == j && y == i)
  {
    var u := Users(s, n);
    var t := Befriend(s, i, j);
    if x == i {
      AddAbsentHas(s[i].friends, s[j].id.value, s[y].id.value);
      if y != j { IdsDistinct(u, y, j); }
    } else if x == j {
      AddAbsentHas(s[j].friends, s[i].id.value, s[y].id.value);
      if y != i { IdsDistinct(u, y, i); }
    }
  }

  /** Befriending two distinct stored accounts keeps friendship well kept. */
  lemma {:induction false} BefriendKeepsFriendly(s: seq<Account>, n: int, i: nat, j: nat)
    requires WellFormed(Users(s, n)) && Friendly(Users(s, n))
    requires i < |s| && j < |s| && i != j
    ensures Friendly(Users(Befriend(s, i, j), n))
  {
    var u := Users(s, n);
    var t := Befriend(s, i, j);
    IdsDistinct(u, i, j);
    forall x | 0 <= x < |t| ensures FriendListOk(t[x]) {
      assert FriendListOk(s[x]);
      if x == i {
        AddAbsentHas(s[i].friends, s[j].id.value, s[i].id.value);
      } else if x == j {
        AddAbsentHas(s[j].friends, s[i].id.value, s[j].id.value);
      }
    }
    forall x, f | 0 <= x < |t| && f in t[x].friends ensures 1 <= f < n {
      if x == i {
        AddAbsentHas(s[i].friends, s[j].id.value, f);
      } else if x == j {
        AddAbsentHas(s[j].friends, s[i].id.value, f);
      }
    }
    forall x, y | 0 <= x < |t| && 0 <= y < |t|
      ensures t[x].id.Some? && t[y].id.Some?
      ensures t[y].id.value in t[x].friends <==> t[x].id.value in t[y].friends
    {
      BefriendLinks(s, n, i, j, x, y);
      BefriendLinks(s, n, i, j, y, x);
    }
  }

  /** adicionarAmizade keeps friendship well kept: symmetric, duplicate
      free and never self-referential. */
  lemma {:induction false} AddFriendshipKeepsFriendly(u: Users, id1: int, id2: int)
    requires WellFormed(u) && Friendly(u)
    ensures AddFriendship(u, id1, id2).Success? ==> Friendly(AddFriendship(u, id1, id2).value)
  {
    if id1 > 0 && id2 > 0 && id1 != id2 && IndexOf(u, id1).Some? && IndexOf(u, id2).Some? {
      var i, j := IndexOf(u, id1).value, IndexOf(u, id2).value;
      BefriendKeepsFriendly(u.accounts, u.nextId, i, j);
    }
  }

  /** In a duplicate-free sequence, RemoveFirst drops exactly `x`. */
  lemma RemoveFirstMembers<T>(s: seq<T>, x: T)
    requires NoDup(s)
    ensures forall z :: z in RemoveFirst(s, x) <==> z in s && z != x
  {
    RemoveFirstNoDup(s, x);
    forall z | z != x ensures z in RemoveFirst(s, x) <==> z in s {
      assert multiset(RemoveFirst(s, x))[z] == multiset(s)[z];
    }
  }

  /** Every friend list is duplicate free, avoids its owner and holds
      handed-out ids only. */
  predicate ListsOk(t: seq<Account>, n: int) {
    forall x :: 0 <= x < |t| ==> FriendListOk(t[x]) && forall f :: f in t[x].friends ==> 1 <= f < n
  }

  /** Two stored accounts list each other or neither lists the other. */
  predicate Symmetric(t: seq<Account>) {
    forall x, y :: 0 <= x < |t| && 0 <= y < |t| ==>
      t[x].id.Some? && t[y].id.Some? &&
      (t[y].id.value in t[x].friends <==> t[x].id.value in t[y].friends)
  }

  lemma FriendlyParts(t: seq<Account>, n: int)
    ensures Friendly(Users(t, n)) <==> ListsOk(t, n) && Symmetric(t)
  {
  }

  /** Cutting the link between positions `i` and `j` out of a well kept
      graph (and nothing else) leaves it well kept. */
  lemma {:induction false} UnlinkKeepsFriendly(s: seq<Account>, t: seq<Account>, n: int, i: nat, j: nat)
    requires WellFormed(Users(s, n)) && ListsOk(s, n) && Symmetric(s)
    requires i < |s| && j < |s| && i != j && |t| == |s|
    requires forall k :: 0 <= k < |s| ==> t[k].id == s[k].id
    requires forall k :: 0 <= k < |s| && k != i && k != j ==> t[k].friends == s[k].friends
    requires forall z :: z in t[i].friends <==> z in s[i].friends && z != s[j].id.value
    requires forall z :: z in t[j].friends <==> z in s[j].friends && z != s[i].id.value
    requires NoDup(t[i].friends) && NoDup(t[j].friends)
    ensures ListsOk(t, n) && Symmetric(t)
  {
    var u := Users(s, n);
    forall x | 0 <= x < |t|
      ensures FriendListOk(t[x]) && forall f :: f in t[x].friends ==> 1 <= f < n
    {
      assert FriendListOk(s[x]);
    }
    forall x, y | 0 <= x < |t| && 0 <= y < |t|
      ensures t[x].id.Some? && t[y].id.Some?
      ensures t[y].id.value in t[x].friends <==> t[x].id.value in t[y].friends
    {
      if x != y {
        IdsDistinct(u, x, y);
      }
      if i != x && i != y {
        IdsDistinct(u, i, x);
        IdsDistinct(u, i, y);
      }
      if j != x && j != y {
        IdsDistinct(u, j, x);
        IdsDistinct(u, j, y);
      }
    }
  }

  /** Unfriending two distinct stored accounts keeps friendship well kept. */
  lemma {:induction false} UnfriendKeepsFriendly(s: seq<Account>, n: int, i: nat, j: nat)
    requires WellFormed(Users(s, n)) && Friendly(Users(s, n))
    requires i < |s| && j < |s| && i != j
    ensures Friendly(Users(Unfriend(s, i, j), n))
  {
    var t := Unfriend(s, i, j);
    FriendlyParts(s, n);
    assert FriendListOk(s[i]) && FriendListOk(s[j]);
    assert t[i].friends == RemoveFirst(s[i].friends, s[j].id.value);
    assert t[j].friends == RemoveFirst(s[j].friends, s[i].id.value);
    RemoveFirstMembers(s[i].friends, s[j].id.value);
    RemoveFirstMembers(s[j].friends, s[i].id.value);
    RemoveFirstNoDup(s[i].friends, s[j].id.value);
    RemoveFirstNoDup(s[j].friends, s[i].id.value);
    UnlinkKeepsFriendly(s, t, n, i, j);
    FriendlyParts(t, n);
  }

  /** removerAmizade keeps friendship well kept. Removing oneself changes
      nothing, since no account lists itself. */
  lemma {:induction false} RemoveFriendshipKeepsFriendly(u: Users, id1: int, id2: int)
    requires WellFormed(u) && Friendly(u)
    ensures RemoveFriendship(u, id1, id2).Success? ==> Friendly(RemoveFriendship(u, id1, id2).value)
  {
    if RemoveFriendship(u, id1, id2).Success? {
      RemoveFriendshipShape(u, id1, id2);
      var i, j := IndexOf(u, id1).value, IndexOf(u, id2).value;
      if i == j {
        UnfriendSelfNoOp(u, i);
      } else {
        UnfriendKeepsFriendly(u.accounts, u.nextId, i, j);
      }
    }
  }

  /** A successful removerAmizade is the two removerAmigo calls on the
      positions of the two ids. */
  lemma RemoveFriendshipShape(u: Users, id1: int, id2: int)
    requires RemoveFriendship(u, id1, id2).Success?
    ensures IndexOf(u, id1).Some? && IndexOf(u, id2).Some?
    ensures RemoveFriendship(u, id1, id2).value ==
              Users(Unfriend(u.accounts, IndexOf(u, id1).value, IndexOf(u, id2).value), u.nextId)
  {
  }

  /** No account lists itself, so removerAmigo on itself changes nothing. */
  lemma UnfriendSelfNoOp(u: Users, i: nat)
    requires Friendly(u) && i < |u.accounts|
    ensures Unfriend(u.accounts, i, i) == u.accounts
  {
    assert FriendListOk(u.accounts[i]);
  }



  /** Lookups by id only see ids, so lists with the same ids position by
      position find the same position. */
  lemma IndexOfSameIds(u: Users, v: Users, id: int)
    requires |u.accounts| == |v.accounts|
    requires forall k :: 0 <= k < |u.accounts| ==> u.accounts[k].id == v.accounts[k].id
    ensures IndexOf(u, id) == IndexOf(v, id)
  {
  }

  /** adicionarAmizade is idempotent: repeating it changes nothing more. */
  lemma {:induction false} AddFriendshipIdempotent(u: Users, id1: int, id2: int)
    requires AddFriendship(u, id1, id2).Success?
    ensures var v := AddFriendship(u, id1, id2).value;
            AddFriendship(v, id1, id2) == Success(v)
  {
    var v := AddFriendship(u, id1, id2).value;
    if id1 != id2 {
      IndexOfSameIds(u, v, id1);
      IndexOfSameIds(u, v, id2);
      var i, j := IndexOf(u, id1).value, IndexOf(u, id2).value;
      var w := AddFriendship(v, id1, id2).value;
      assert id2 in v.accounts[i].friends && id1 in v.accounts[j].friends;
      forall k | 0 <= k < |v.accounts| ensures w.accounts[k] == v.accounts[k] {
      }
      assert w.accounts == v.accounts;
    }
  }
}
