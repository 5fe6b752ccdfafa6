/**
 * Membership rules of the group handlers: creating a group, issuing invite
 * codes, the join-request queue with admin approval or denial, leaving,
 * kicking and deleting a group. Each function is one handler's effect on the
 * groups dict, with its answer; the lemmas show that every handler keeps the
 * group invariant (admin is a member, members and requests are disjoint and
 * duplicate-free).
 */
module Membership {
  import opened Seqs
  import opened Text
  import opened Domain

  /** The record `create_group` stores: the creator is admin and only member. */
  function NewGroup(user: string, code: string, name: string, description: string, image: string): (g: Group)
    ensures WellFormed(g)
    ensures g.admin == user && g.members == [user] && g.inviteCodes == [code]
    ensures g.posts == [] && g.requests == [] && g.pool == None
  {
    Group(user, [code], [user], [], name, description, image, [], None)
  }

  /**
   * `create_group`: stores the new group under the fresh id (a dict
   * assignment, so an existing id would be overwritten in place).
   */
  function CreateGroup(gs: Store, user: string, gid: string, code: string,
                       name: string, description: string, image: string): (r: Store)
    ensures Lookup(r, gid) == Some(NewGroup(user, code, name, description, image))
    ensures forall other :: other != gid ==> Lookup(r, other) == Lookup(gs, other)
    ensures Ids(r) == if gid in Ids(gs) then Ids(gs) else Ids(gs) + [gid]
  {
    Put(gs, gid, NewGroup(user, code, name, description, image))
  }

  /** `generate_invite`: the admin adds one more valid code; older codes stay valid. */
  function GenerateInvite(gs: Store, gid: string, caller: string, code: string): (r: Reply)
    ensures r.outcome == Done || r.outcome == Unauthorized
    ensures r.outcome == Unauthorized <==> !IsAdmin(gs, gid, caller)
    ensures r.outcome == Unauthorized ==> r.groups == gs
    ensures r.outcome == Done ==>
      ChangedOnly(gs, r.groups, gid) && Lookup(gs, gid).Some? && Lookup(r.groups, gid).Some?
    ensures r.outcome == Done ==>
      var g, h := Lookup(gs, gid).value, Lookup(r.groups, gid).value;
      && h.inviteCodes == g.inviteCodes + [code]
      && h == g.(inviteCodes := h.inviteCodes)
  {
    match Lookup(gs, gid)
    case None => Reply(gs, Unauthorized)
    case Some(g) =>
      if g.admin != caller then Reply(gs, Unauthorized)
      else Reply(Put(gs, gid, g.(inviteCodes := g.inviteCodes + [code])), Done)
  }

  /** Position of the first group, in dict order, that accepts the code; -1 if none does. */
  function FirstWithCode(gs: Store, code: string): (i: int)
    ensures -1 <= i < |gs|
    ensures i >= 0 ==> code in gs[i].group.inviteCodes
    ensures forall k :: 0 <= k < |gs| && (i < 0 || k < i) ==> code !in gs[k].group.inviteCodes
  {
    if gs == [] then -1
    else if code in gs[0].group.inviteCodes then 0
    else
      var k := FirstWithCode(gs[1..], code);
      if k < 0 then -1 else k + 1
  }

  /** The caller is a member of, or already waiting for, the group. */
  predicate Involved(g: Group, user: string) {
    user in g.members || user in g.requests
  }

  /**
   * `join_group`: the stripped code selects the FIRST group holding it; a
   * caller already involved there is refused even if a later group holds the
   * same code; otherwise the caller joins that group's request queue.
   */
  function Join(gs: Store, user: string, codeInput: string): (r: Reply)
    ensures r.outcome == Done || r.outcome == InvalidCode || r.outcome == AlreadyJoined
    ensures r.outcome == InvalidCode <==>
      forall k :: 0 <= k < |gs| ==> Strip(codeInput) !in gs[k].group.inviteCodes
    ensures r.outcome != Done ==> r.groups == gs
    ensures
      var i := FirstWithCode(gs, Strip(codeInput));
      && (r.outcome == AlreadyJoined <==> i >= 0 && Involved(gs[i].group, user))
      && (r.outcome == Done ==>
            && 0 <= i
            && |r.groups| == |gs|
            && r.groups[i].id == gs[i].id
            && r.groups[i].group == gs[i].group.(requests := gs[i].group.requests + [user])
            && forall k :: 0 <= k < |gs| && k != i ==> r.groups[k] == gs[k])
  {
    var i := FirstWithCode(gs, Strip(codeInput));
    if i < 0 then Reply(gs, InvalidCode)
    else
      var g := gs[i].group;
      if Involved(g, user) then Reply(gs, AlreadyJoined)
      else Reply(gs[i := Entry(gs[i].id, g.(requests := g.requests + [user]))], Done)
  }

  /** The target waits in the request queue of the group. */
  predicate Pending(gs: Store, gid: string, target: string) {
    Lookup(gs, gid).Some? && target in Lookup(gs, gid).value.requests
  }

  /**
   * `approve_user`: only the admin, and only for a pending target; the target
   * is appended to the members and its first request is removed. In every
   * other case nothing changes.
   */
  function Approve(gs: Store, gid: string, caller: string, target: string): (r: Store)
    ensures r == gs <==> !(IsAdmin(gs, gid, caller) && Pending(gs, gid, target))
    ensures r != gs ==>
      ChangedOnly(gs, r, gid) && Lookup(gs, gid).Some? && Lookup(r, gid).Some?
    ensures r != gs ==>
      var g, h := Lookup(gs, gid).value, Lookup(r, gid).value;
      && h.members == g.members + [target]
      && h.requests == RemoveFirst(g.requests, target)
      && h == g.(members := h.members, requests := h.requests)
  {
    match Lookup(gs, gid)
    case None => gs
    case Some(g) =>
      if g.admin == caller && target in g.requests then
        var r := Put(gs, gid, g.(members := g.members + [target], requests := RemoveFirst(g.requests, target)));
        assert Lookup(r, gid) != Lookup(gs, gid) by {
          assert |Lookup(r, gid).value.members| != |g.members|;
        }
        r
      else gs
  }

  /** `deny_user`: like approval, but the target only leaves the request queue. */
  function Deny(gs: Store, gid: string, caller: string, target: string): (r: Store)
    ensures r == gs <==> !(IsAdmin(gs, gid, caller) && Pending(gs, gid, target))
    ensures r != gs ==>
      ChangedOnly(gs, r, gid) && Lookup(gs, gid).Some? && Lookup(r, gid).Some?
    ensures r != gs ==>
      var g, h := Lookup(gs, gid).value, Lookup(r, gid).value;
      && h.requests == RemoveFirst(g.requests, target)
      && h == g.(requests := h.requests)
  {
    match Lookup(gs, gid)
    case None => gs
    case Some(g) =>
      if g.admin == caller && target in g.requests then
        var r := Put(gs, gid, g.(requests := RemoveFirst(g.requests, target)));
        assert Lookup(r, gid) != Lookup(gs, gid) by {
          assert |Lookup(r, gid).value.requests| != |g.requests|;
        }
        r
      else gs
  }

  /** `leave_group`: non-members and the admin are refused; anyone else is removed once. */
  function Leave(gs: Store, gid: string, user: string): (r: Reply)
    ensures r.outcome == NotMember <==> !IsMember(gs, gid, user)
    ensures r.outcome == AdminCannotLeave <==> IsMember(gs, gid, user) && IsAdmin(gs, gid, user)
    ensures r.outcome == Done <==> IsMember(gs, gid, user) && !IsAdmin(gs, gid, user)
    ensures r.outcome != Done ==> r.groups == gs
    ensures r.outcome == Done ==>
      ChangedOnly(gs, r.groups, gid) && Lookup(gs, gid).Some? && Lookup(r.groups, gid).Some?
    ensures r.outcome == Done ==>
      var g, h := Lookup(gs, gid).value, Lookup(r.groups, gid).value;
      && h.members == RemoveFirst(g.members, user)
      && h == g.(members := h.members)
  {
    match Lookup(gs, gid)
    case None => Reply(gs, NotMember)
    case Some(g) =>
      if user !in g.members then Reply(gs, NotMember)
      else if g.admin == user then Reply(gs, AdminCannotLeave)
      else Reply(Put(gs, gid, g.(members := RemoveFirst(g.members, user))), Done)
  }

  /**
   * `kick_member`: checked in this order: the group exists, the caller is its
   * admin, the target is not the caller, the target is a member. Then the
   * target is removed once.
   */
  function Kick(gs: Store, gid: string, caller: string, member: string): (r: Reply)
    ensures r.outcome == GroupNotFound <==> Lookup(gs, gid).None?
    ensures r.outcome == Unauthorized <==> Lookup(gs, gid).Some? && !IsAdmin(gs, gid, caller)
    ensures r.outcome == SelfKick <==> IsAdmin(gs, gid, caller) && member == caller
    ensures r.outcome == NotMember <==>
      IsAdmin(gs, gid, caller) && member != caller && !IsMember(gs, gid, member)
    ensures r.outcome == Done <==>
      IsAdmin(gs, gid, caller) && member != caller && IsMember(gs, gid, member)
    ensures r.outcome != Done ==> r.groups == gs
    ensures r.outcome == Done ==>
      ChangedOnly(gs, r.groups, gid) && Lookup(gs, gid).Some? && Lookup(r.groups, gid).Some?
    ensures r.outcome == Done ==>
      var g, h := Lookup(gs, gid).value, Lookup(r.groups, gid).value;
      && h.members == RemoveFirst(g.members, member)
      && h == g.(members := h.members)
  {
    match Lookup(gs, gid)
    case None => Reply(gs, GroupNotFound)
    case Some(g) =>
      if g.admin != caller then Reply(gs, Unauthorized)
      else if member == caller then Reply(gs, SelfKick)
      else if member !in g.members then Reply(gs, NotMember)
      else Reply(Put(gs, gid, g.(members := RemoveFirst(g.members, member))), Done)
  }

  /**
   * `delete_group`: the admin must re-enter a password whose hash matches the
   * stored one; the group's entry is then taken out and the other groups keep
   * their dict order. A caller missing from the users dict makes the handler fail
   * with a KeyError before anything is saved.
   */
  function DeleteGroup(gs: Store, users: map<string, User>, gid: string, caller: string,
                       password: string, hash: string -> string): (r: Reply)
    ensures r.outcome == GroupNotFound <==> Lookup(gs, gid).None?
    ensures r.outcome == Unauthorized <==> Lookup(gs, gid).Some? && !IsAdmin(gs, gid, caller)
    ensures r.outcome == Crashed <==> IsAdmin(gs, gid, caller) && caller !in users
    ensures r.outcome == BadPassword <==>
      IsAdmin(gs, gid, caller) && caller in users && users[caller].passwordHash != hash(password)
    ensures r.outcome == Done <==>
      IsAdmin(gs, gid, caller) && caller in users && users[caller].passwordHash == hash(password)
    ensures r.outcome != Done ==> r.groups == gs
    ensures r.outcome == Done ==>
      && Lookup(r.groups, gid).None?
      && (forall other :: other != gid ==> Lookup(r.groups, other) == Lookup(gs, other))
      && (forall x :: x in Ids(r.groups) <==> x in Ids(gs) && x != gid)
    ensures r.outcome == Done && UniqueIds(gs) ==>
      0 <= IndexOf(gs, gid) && r.groups == RemoveAt(gs, IndexOf(gs, gid))
  {
    match Lookup(gs, gid)
    case None => Reply(gs, GroupNotFound)
    case Some(g) =>
      if g.admin != caller then Reply(gs, Unauthorized)
      else if caller !in users then Reply(gs, Crashed)
      else if users[caller].passwordHash != hash(password) then Reply(gs, BadPassword)
      else
        RemoveIdOrder(gs, gid);
        Reply(RemoveId(gs, gid), Done)
  }

  // ---------------------------------------------------------------------
  // The group invariant is kept by every membership handler.

  lemma CreateKeepsOk(gs: Store, user: string, gid: string, code: string,
                      name: string, description: string, image: string)
    requires StoreOk(gs)
    ensures StoreOk(CreateGroup(gs, user, gid, code, name, description, image))
  {
    PutKeepsOk(gs, gid, NewGroup(user, code, name, description, image));
  }

  lemma InviteKeepsOk(gs: Store, gid: string, caller: string, code: string)
    requires StoreOk(gs)
    ensures StoreOk(GenerateInvite(gs, gid, caller, code).groups)
  {
    if IsAdmin(gs, gid, caller) {
      var g := Lookup(gs, gid).value;
      PutSameMembershipKeepsOk(gs, gid, g.(inviteCodes := g.inviteCodes + [code]));
    }
  }

  lemma {:induction false} JoinKeepsOk(gs: Store, user: string, codeInput: string)
    requires StoreOk(gs)
    ensures StoreOk(Join(gs, user, codeInput).groups)
  {
    var r := Join(gs, user, codeInput);
    if r.outcome == Done {
      var i := FirstWithCode(gs, Strip(codeInput));
      var g := gs[i].group;
      var h := r.groups[i].group;
      assert WellFormed(g);
      assert forall k :: 0 <= k < |gs| ==> r.groups[k].id == gs[k].id;
      assert NoDup(h.requests) by {
        forall a, b | 0 <= a < b < |h.requests| ensures h.requests[a] != h.requests[b] {
          if b == |g.requests| {
            assert h.requests[a] == g.requests[a];
          }
        }
      }
    }
  }

  /**
   * A successful join followed by the admin's approval of that group makes
   * the caller a member there, and nothing is left pending for them.
   */
  lemma JoinThenApprove(gs: Store, user: string, codeInput: string)
    requires StoreOk(gs)
    requires Join(gs, user, codeInput).outcome == Done
    ensures
      var i := FirstWithCode(gs, Strip(codeInput));
      var joined := Join(gs, user, codeInput).groups;
      && 0 <= i < |gs|
      && Pending(joined, gs[i].id, user)
      && IsAdmin(joined, gs[i].id, gs[i].group.admin)
      && IsMember(Approve(joined, gs[i].id, gs[i].group.admin, user), gs[i].id, user)
      && !Pending(Approve(joined, gs[i].id, gs[i].group.admin, user), gs[i].id, user)
  {
    var i := FirstWithCode(gs, Strip(codeInput));
    var joined := Join(gs, user, codeInput).groups;
    JoinKeepsOk(gs, user, codeInput);
    var gid := gs[i].id;
    assert joined[i].id == gid;
    IndexOfAt(joined, gid, i);
    assert Lookup(joined, gid) == Some(joined[i].group);
    ApproveKeepsOk(joined, gid, gs[i].group.admin, user);
  }

  /** An admitted user is a member afterwards and no longer pending. */
  lemma {:induction false} ApproveKeepsOk(gs: Store, gid: string, caller: string, target: string)
    requires StoreOk(gs)
    ensures StoreOk(Approve(gs, gid, caller, target))
    ensures IsAdmin(gs, gid, caller) && Pending(gs, gid, target) ==>
      IsMember(Approve(gs, gid, caller, target), gid, target)
      && !Pending(Approve(gs, gid, caller, target), gid, target)
  {
    if IsAdmin(gs, gid, caller) && Pending(gs, gid, target) {
      var g := Lookup(gs, gid).value;
      LookupWellFormed(gs, gid);
      RemoveFirstNoDup(g.requests, target);
      var h := g.(members := g.members + [target], requests := RemoveFirst(g.requests, target));
      assert NoDup(h.members) by {
        forall a, b | 0 <= a < b < |h.members| ensures h.members[a] != h.members[b] {
          if b == |g.members| {
            assert h.members[a] == g.members[a];
          }
        }
      }
      assert WellFormed(h);
      PutKeepsOk(gs, gid, h);
    }
  }

  /** A denied user is no longer pending and did not become a member. */
  lemma {:induction false} DenyKeepsOk(gs: Store, gid: string, caller: string, target: string)
    requires StoreOk(gs)
    ensures StoreOk(Deny(gs, gid, caller, target))
    ensures !Pending(Deny(gs, gid, caller, target), gid, target)
      || !(IsAdmin(gs, gid, caller) && Pending(gs, gid, target))
    ensures IsMember(Deny(gs, gid, caller, target), gid, target) == IsMember(gs, gid, target)
  {
    if IsAdmin(gs, gid, caller) && Pending(gs, gid, target) {
      var g := Lookup(gs, gid).value;
      LookupWellFormed(gs, gid);
      RemoveFirstNoDup(g.requests, target);
      PutKeepsOk(gs, gid, g.(requests := RemoveFirst(g.requests, target)));
    }
  }

  /** After leaving, the user is no member; the admin is still one. */
  lemma {:induction false} LeaveKeepsOk(gs: Store, gid: string, user: string)
    requires StoreOk(gs)
    ensures StoreOk(Leave(gs, gid, user).groups)
    ensures Leave(gs, gid, user).outcome == Done ==> !IsMember(Leave(gs, gid, user).groups, gid, user)
  {
    if IsMember(gs, gid, user) && !IsAdmin(gs, gid, user) {
      var g := Lookup(gs, gid).value;
      LookupWellFormed(gs, gid);
      RemoveFirstNoDup(g.members, user);
      PutKeepsOk(gs, gid, g.(members := RemoveFirst(g.members, user)));
    }
  }

  /** After a kick, the target is no member; the admin is still one. */
  lemma {:induction false} KickKeepsOk(gs: Store, gid: string, caller: string, member: string)
    requires StoreOk(gs)
    ensures StoreOk(Kick(gs, gid, caller, member).groups)
    ensures Kick(gs, gid, caller, member).outcome == Done ==>
      !IsMember(Kick(gs, gid, caller, member).groups, gid, member)
  {
    if IsAdmin(gs, gid, caller) && member != caller && IsMember(gs, gid, member) {
      var g := Lookup(gs, gid).value;
      LookupWellFormed(gs, gid);
      RemoveFirstNoDup(g.members, member);
      PutKeepsOk(gs, gid, g.(members := RemoveFirst(g.members, member)));
    }
  }

  lemma DeleteKeepsOk(gs: Store, users: map<string, User>, gid: string, caller: string,
                      password: string, hash: string -> string)
    requires StoreOk(gs)
    ensures StoreOk(DeleteGroup(gs, users, gid, caller, password, hash).groups)
  {
    RemoveIdKeepsOk(gs, gid);
  }
}
