/**
 * The contribution pool of a group: the admin sets one up (replacing any
 * earlier pool), anyone may pledge an amount, and the admin approves a
 * pledge by position, optionally correcting its amount. The group id is
 * used as a plain dict key here, so an unknown id fails with a KeyError.
 */
module Ledger {
  import opened Domain

  /** `setup_pool`: admin only; any earlier pool and its contributions are discarded. */
  function SetupPool(gs: Store, gid: string, caller: string, name: string, target: real): (r: Reply)
    ensures r.outcome == Crashed <==> Lookup(gs, gid).None?
    ensures r.outcome == Unauthorized <==> Lookup(gs, gid).Some? && !IsAdmin(gs, gid, caller)
    ensures r.outcome == Done <==> IsAdmin(gs, gid, caller)
    ensures r.outcome != Done ==> r.groups == gs
    ensures r.outcome == Done ==>
      ChangedOnly(gs, r.groups, gid) && Lookup(r.groups, gid).Some?
    ensures r.outcome == Done ==>
      var g, h := Lookup(gs, gid).value, Lookup(r.groups, gid).value;
      && h.pool == Some(Pool(name, target, []))
      && h == g.(pool := h.pool)
  {
    match Lookup(gs, gid)
    case None => Reply(gs, Crashed)
    case Some(g) =>
      if g.admin != caller then Reply(gs, Unauthorized)
      else Reply(Put(gs, gid, g.(pool := Some(Pool(name, target, [])))), Done)
  }

  /**
   * `contribute`: appends one unapproved pledge when the group has a pool.
   * Neither the amount nor the caller's membership is checked.
   */
  function Contribute(gs: Store, gid: string, user: string, amount: real): (r: Reply)
    ensures r.outcome == Crashed <==> Lookup(gs, gid).None?
    ensures r.outcome == NoPool <==> Lookup(gs, gid).Some? && Lookup(gs, gid).value.pool.None?
    ensures r.outcome == Done <==> Lookup(gs, gid).Some? && Lookup(gs, gid).value.pool.Some?
    ensures r.outcome != Done ==> r.groups == gs
    ensures r.outcome == Done ==>
      ChangedOnly(gs, r.groups, gid) && Lookup(r.groups, gid).Some? && Lookup(r.groups, gid).value.pool.Some?
    ensures r.outcome == Done ==>
      var g, h := Lookup(gs, gid).value, Lookup(r.groups, gid).value;
      var p, q := g.pool.value, h.pool.value;
      && q.contributions == p.contributions + [Contribution(user, amount, false)]
      && q == p.(contributions := q.contributions)
      && h == g.(pool := h.pool)
  {
    match Lookup(gs, gid)
    case None => Reply(gs, Crashed)
    case Some(g) =>
      match g.pool
      case None => Reply(gs, NoPool)
      case Some(p) =>
        Reply(Put(gs, gid, g.(pool := Some(p.(contributions := p.contributions + [Contribution(user, amount, false)])))), Done)
  }

  /**
   * `approve_contrib`: checked in this order: the group exists, the caller is
   * its admin, the group has a pool (a missing one is a KeyError), the index
   * addresses a pledge. That pledge gets the approved amount and is marked
   * approved, even if it already was; every other pledge stays as it was.
   */
  function ApproveContribution(gs: Store, gid: string, caller: string, index: int,
                               edit: Option<real>): (r: Reply)
    ensures r.outcome == Unauthorized <==> Lookup(gs, gid).Some? && !IsAdmin(gs, gid, caller)
    ensures r.outcome == Crashed <==>
      Lookup(gs, gid).None? || (IsAdmin(gs, gid, caller) && Lookup(gs, gid).value.pool.None?)
    ensures r.outcome == InvalidIndex <==>
      IsAdmin(gs, gid, caller) && Lookup(gs, gid).value.pool.Some?
      && !(0 <= index < |Lookup(gs, gid).value.pool.value.contributions|)
    ensures r.outcome == Done <==>
      IsAdmin(gs, gid, caller) && Lookup(gs, gid).value.pool.Some?
      && 0 <= index < |Lookup(gs, gid).value.pool.value.contributions|
    ensures r.outcome != Done ==> r.groups == gs
    ensures r.outcome == Done ==>
      ChangedOnly(gs, r.groups, gid) && Lookup(r.groups, gid).Some? && Lookup(r.groups, gid).value.pool.Some?
    ensures r.outcome == Done ==>
      && Lookup(gs, gid).Some? && Lookup(gs, gid).value.pool.Some?
      && 0 <= index < |Lookup(gs, gid).value.pool.value.contributions|
      && Lookup(r.groups, gid).Some? && Lookup(r.groups, gid).value.pool.Some?
      && var g, h := Lookup(gs, gid).value, Lookup(r.groups, gid).value;
      var p, q := g.pool.value, h.pool.value;
      var c := p.contributions[index];
      && |q.contributions| == |p.contributions|
      && q.contributions[index] == Contribution(c.user, if edit.Some? then edit.value else c.amount, true)
      && (forall k :: 0 <= k < |p.contributions| && k != index ==> q.contributions[k] == p.contributions[k])
      && q == p.(contributions := q.contributions)
      && h == g.(pool := h.pool)
  {
    match Lookup(gs, gid)
    case None => Reply(gs, Crashed)
    case Some(g) =>
      if g.admin != caller then Reply(gs, Unauthorized)
      else
        match g.pool
        case None => Reply(gs, Crashed)
        case Some(p) =>
          if index < 0 || index >= |p.contributions| then Reply(gs, InvalidIndex)
          else
            var c := p.contributions[index];
            var newAmount := if edit.Some? then edit.value else c.amount;
            var c' := if newAmount != c.amount then c.(amount := newAmount) else c;
            var c'' := c'.(approved := true);
            Reply(Put(gs, gid, g.(pool := Some(p.(contributions := p.contributions[index := c''])))), Done)
  }

  /** Approving the same pledge again with the same arguments changes nothing more. */
  lemma ApproveContributionIdempotent(gs: Store, gid: string, caller: string, index: int, edit: Option<real>)
    ensures
      var once := ApproveContribution(gs, gid, caller, index, edit).groups;
      ApproveContribution(once, gid, caller, index, edit).groups == once
  {
    var r := ApproveContribution(gs, gid, caller, index, edit);
    if r.outcome == Done {
      var h := Lookup(r.groups, gid).value;
      var q := h.pool.value;
      var c := q.contributions[index];
      assert (if edit.Some? then edit.value else c.amount) == c.amount;
      assert q.contributions[index := c] == q.contributions;
      assert IsAdmin(r.groups, gid, caller);
      assert Put(r.groups, gid, h) == r.groups by {
        PutExisting(r.groups, gid, h);
      }
    }
  }

  /**
   * The admin approving the pledge just made: the pool ends with that pledge,
   * approved, at the corrected amount; nothing else in the group changes.
   */
  lemma ApproveNewPledge(gs: Store, gid: string, admin: string, user: string, amount: real,
                         edit: Option<real>)
    requires IsAdmin(gs, gid, admin) && Lookup(gs, gid).value.pool.Some?
    ensures
      var g := Lookup(gs, gid).value;
      var p := g.pool.value;
      var pledged := Contribute(gs, gid, user, amount);
      var approved := ApproveContribution(pledged.groups, gid, admin, |p.contributions|, edit);
      var c := Contribution(user, if edit.Some? then edit.value else amount, true);
      && approved.outcome == Done
      && Lookup(approved.groups, gid) == Some(g.(pool := Some(p.(contributions := p.contributions + [c]))))
  {
    var g := Lookup(gs, gid).value;
    var p := g.pool.value;
    var pledged := Contribute(gs, gid, user, amount);
    var q := Lookup(pledged.groups, gid).value.pool.value;
    assert q.contributions == p.contributions + [Contribution(user, amount, false)];
    assert IsAdmin(pledged.groups, gid, admin);
    var n := |p.contributions|;
    var approved := ApproveContribution(pledged.groups, gid, admin, n, edit);
    var c := Contribution(user, if edit.Some? then edit.value else amount, true);
    var q2 := Lookup(approved.groups, gid).value.pool.value;
    assert q2.contributions == p.contributions + [c] by {
      assert |q2.contributions| == n + 1;
      forall k | 0 <= k < n + 1 ensures q2.contributions[k] == (p.contributions + [c])[k] {
        if k < n {
          assert q2.contributions[k] == q.contributions[k];
        }
      }
    }
  }

  // ---------------------------------------------------------------------
  // Pool handlers leave the membership lists alone, so they keep the invariant.

  lemma SetupPoolKeepsOk(gs: Store, gid: string, caller: string, name: string, target: real)
    requires StoreOk(gs)
    ensures StoreOk(SetupPool(gs, gid, caller, name, target).groups)
  {
    if IsAdmin(gs, gid, caller) {
      var g := Lookup(gs, gid).value;
      PutSameMembershipKeepsOk(gs, gid, g.(pool := Some(Pool(name, target, []))));
    }
  }

  lemma ContributeKeepsOk(gs: Store, gid: string, user: string, amount: real)
    requires StoreOk(gs)
    ensures StoreOk(Contribute(gs, gid, user, amount).groups)
  {
    var r := Contribute(gs, gid, user, amount);
    if r.outcome == Done {
      var g := Lookup(gs, gid).value;
      PutSameMembershipKeepsOk(gs, gid, g.(pool := Lookup(r.groups, gid).value.pool));
    }
  }

  lemma ApproveContributionKeepsOk(gs: Store, gid: string, caller: string, index: int, edit: Option<real>)
    requires StoreOk(gs)
    ensures StoreOk(ApproveContribution(gs, gid, caller, index, edit).groups)
  {
    var r := ApproveContribution(gs, gid, caller, index, edit);
    if r.outcome == Done {
      var g := Lookup(gs, gid).value;
      PutSameMembershipKeepsOk(gs, gid, g.(pool := Lookup(r.groups, gid).value.pool));
    }
  }
}
