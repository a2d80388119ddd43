/** Sequences of account-registry calls: the counter only grows, every id
    handed out is fresh (never one already stored, never one handed out
    before, even after deletions), and the invariants hold throughout. */
module AccountHistory {
  import opened Wrappers
  import opened Errors
  import opened Accounts
  import opened AccountRegistry
  import opened AccountInvariants

  /** One mutating call on the registry. */
  datatype Op =
    | RegisterOp(draft: Account)
    | UpdateOp(arg: Option<Account>)
    | DeleteOp(id: int)
    | AddFriendshipOp(id1: int, id2: int)
    | RemoveFriendshipOp(id1: int, id2: int)
    | AttachPostOp(who: Option<int>, post: Option<int>)

  /** The registry after one call, and the id it handed out: exactly a
      successful cadastrar hands one out. A call that throws leaves the
      registry as the exception left it. */
  function Step(u: Users, op: Op): (r: (Users, Option<int>))
    ensures u.nextId <= r.0.nextId <= u.nextId + 1
    ensures r.1.Some? ==> r.1.value == u.nextId && r.0.nextId == u.nextId + 1
    ensures r.1.Some? <==> op.RegisterOp? && Register(u, op.draft).outcome.Success?
    ensures op.RegisterOp? ==> r.0 == Register(u, op.draft).users
    ensures !op.RegisterOp? ==> r.0.nextId == u.nextId
  {
    match op
    case RegisterOp(draft) =>
      var reg := Register(u, draft);
      (reg.users, if reg.outcome.Success? then Some(reg.outcome.value) else None)
    case UpdateOp(arg) =>
      (if Update(u, arg).Success? then Update(u, arg).value.0 else u, None)
    case DeleteOp(id) =>
      (if Delete(u, id).Success? then Delete(u, id).value.0 else u, None)
    case AddFriendshipOp(id1, id2) =>
      (if AddFriendship(u, id1, id2).Success? then AddFriendship(u, id1, id2).value else u, None)
    case RemoveFriendshipOp(id1, id2) =>
      (if RemoveFriendship(u, id1, id2).Success? then RemoveFriendship(u, id1, id2).value else u, None)
    case AttachPostOp(who, post) =>
      (if AttachPost(u, who, post).Success? then AttachPost(u, who, post).value else u, None)
  }

  /** Every call keeps the registry well formed. */
  lemma {:induction false} StepKeepsWellFormed(u: Users, op: Op)
    requires WellFormed(u)
    ensures WellFormed(Step(u, op).0)
  {
    match op
    case RegisterOp(draft) => RegisterKeepsWellFormed(u, draft);
    case UpdateOp(arg) => UpdateKeepsWellFormed(u, arg);
    case DeleteOp(id) => DeleteKeepsWellFormed(u, id);
    case AddFriendshipOp(id1, id2) => AddFriendshipKeepsWellFormed(u, id1, id2);
    case RemoveFriendshipOp(id1, id2) => RemoveFriendshipKeepsWellFormed(u, id1, id2);
    case AttachPostOp(who, post) => AttachPostKeepsWellFormed(u, who, post);
  }

  /** Ids strictly increase along the sequence. */
  predicate StrictlyIncreasing(s: seq<int>) {
    forall a, b :: 0 <= a < b < |s| ==> s[a] < s[b]
  }

  /** The registry after a sequence of calls, and the ids handed out in
      order. Ids are drawn from the counter, so they strictly increase and
      all lie between the starting and the final counter. */
  function Run(u: Users, ops: seq<Op>): (r: (Users, seq<int>))
    ensures u.nextId <= r.0.nextId
    ensures forall k :: 0 <= k < |r.1| ==> u.nextId <= r.1[k] < r.0.nextId
    ensures StrictlyIncreasing(r.1)
    decreases |ops|
  {
    if ops == [] then (u, [])
    else
      var (v, id) := Step(u, ops[0]);
      var (w, ids) := Run(v, ops[1..]);
      (w, if id.Some? then [id.value] + ids else ids)
  }

  /** Any sequence of calls keeps the registry well formed. */
  lemma {:induction false} RunKeepsWellFormed(u: Users, ops: seq<Op>)
    requires WellFormed(u)
    ensures WellFormed(Run(u, ops).0)
    decreases |ops|
  {
    if ops != [] {
      StepKeepsWellFormed(u, ops[0]);
      RunKeepsWellFormed(Step(u, ops[0]).0, ops[1..]);
    }
  }

  /** An id handed out by any sequence of calls on a well formed registry
      differs from every id stored at the start, including the ids of
      accounts that are later deleted. */
  lemma {:induction false} IdsNeverReused(u: Users, ops: seq<Op>)
    requires WellFormed(u)
    ensures forall k, i :: 0 <= k < |Run(u, ops).1| && 0 <= i < |u.accounts| ==>
              Run(u, ops).1[k] != u.accounts[i].id.value
  {
    var ids := Run(u, ops).1;
    forall k, i | 0 <= k < |ids| && 0 <= i < |u.accounts| ensures ids[k] != u.accounts[i].id.value {
      assert u.accounts[i].id.value < u.nextId <= ids[k];
    }
  }

  /** From the empty registry the ids handed out start at 1 and never repeat. */
  lemma {:induction false} IdsFromOne(ops: seq<Op>)
    ensures var ids := Run(Empty(), ops).1;
            && (forall k :: 0 <= k < |ids| ==> 1 <= ids[k])
            && (forall a, b :: 0 <= a < |ids| && 0 <= b < |ids| && a != b ==> ids[a] != ids[b])
  {
    var ids := Run(Empty(), ops).1;
    forall a, b | 0 <= a < |ids| && 0 <= b < |ids| && a != b ensures ids[a] != ids[b] {
      if a < b { assert ids[a] < ids[b]; } else { assert ids[b] < ids[a]; }
    }
  }

  /** The calls that keep friendship well kept: registering an account with
      no friends, and updating with the stored friend list. */
  predicate SafeOp(u: Users, op: Op) {
    match op
    case RegisterOp(draft) => draft.friends == []
    case UpdateOp(arg) => KeepsFriends(u, arg)
    case _ => true
  }

  /** Every call of the sequence is safe in the registry it is applied to. */
  predicate SafeRun(u: Users, ops: seq<Op>)
    decreases |ops|
  {
    ops == [] || (SafeOp(u, ops[0]) && SafeRun(Step(u, ops[0]).0, ops[1..]))
  }

  lemma {:induction false} StepKeepsFriendly(u: Users, op: Op)
    requires WellFormed(u) && Friendly(u) && SafeOp(u, op)
    ensures Friendly(Step(u, op).0)
  {
    match op
    case RegisterOp(draft) => RegisterKeepsFriendly(u, draft);
    case UpdateOp(arg) => UpdateKeepsFriendly(u, arg);
    case DeleteOp(id) => DeleteKeepsFriendly(u, id);
    case AddFriendshipOp(id1, id2) => AddFriendshipKeepsFriendly(u, id1, id2);
    case RemoveFriendshipOp(id1, id2) => RemoveFriendshipKeepsFriendly(u, id1, id2);
    case AttachPostOp(who, post) => AttachPostKeepsFriendly(u, who, post);
  }

  /** Along a safe sequence of calls friendship stays symmetric, duplicate
      free and never self-referential. */
  lemma {:induction false} RunKeepsFriendly(u: Users, ops: seq<Op>)
    requires WellFormed(u) && Friendly(u) && SafeRun(u, ops)
    ensures Friendly(Run(u, ops).0)
    decreases |ops|
  {
    if ops != [] {
      StepKeepsFriendly(u, ops[0]);
      StepKeepsWellFormed(u, ops[0]);
      RunKeepsFriendly(Step(u, ops[0]).0, ops[1..]);
    }
  }

  /** The empty registry satisfies both invariants. */
  lemma EmptyIsWellKept()
    ensures WellFormed(Empty()) && Friendly(Empty())
  {
  }
}
