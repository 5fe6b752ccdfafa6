/**
 * The application state and one method per request handler. The state is
 * the groups dict (kept in insertion order, which `join_group` depends on)
 * and the users dict. Each handler loads the file or files it needs, and a
 * handler that changes something saves the file it changed. A method here
 * updates the fields to what the matching pure function computes from the
 * old state, and keeps the store invariants; one that only reads (login,
 * dashboard) has no modifies clause.
 * The logged-in user name, uploaded file names, fresh ids and codes and the
 * clock are parameters.
 */
module WebApp {
  import opened Text
  import opened Domain
  import Membership
  import Content
  import Ledger
  import Accounts

  class App {
    /** `groups.json`, in dict order. */
    var groups: Store
    /** `users.json`. */
    var users: map<string, User>
    /** The password hash (SHA-256 hex digest in the source). */
    const hash: string -> string

    /** Unique group ids, every group well formed, every user key lowercase. */
    ghost predicate Valid()
      reads this
    {
      StoreOk(groups) && KeysLower(users)
    }

    /** Both JSON files absent: `load_data` yields empty dicts. */
    constructor (hash: string -> string)
      ensures Valid()
      ensures groups == [] && users == map[] && this.hash == hash
    {
      groups := [];
      users := map[];
      this.hash := hash;
    }

    // ---------------------------------------------------------------
    // Accounts

    method Register(input: string, password: string) returns (outcome: Outcome)
      requires Valid()
      modifies this
      ensures Valid()
      ensures var r := Accounts.Register(old(users), input, password, hash);
        users == r.users && outcome == r.outcome
      ensures groups == old(groups)
    {
      var r := Accounts.Register(users, input, password, hash);
      users := r.users;
      outcome := r.outcome;
    }

    /** The session user name on success; changes nothing. */
    method Login(input: string, password: string) returns (who: Option<string>)
      requires Valid()
      ensures who == Accounts.Login(users, input, password, hash)
      ensures who.Some? ==> who.value in users && who.value == Accounts.NameKey(input)
    {
      who := Accounts.Login(users, input, password, hash);
    }

    /** Returns the session user name afterwards, which a rename changes. */
    method Profile(username: string, realName: string, newUsername: string, newPassword: string,
                   image: Option<string>) returns (session: string, outcome: Outcome)
      requires Valid()
      modifies this
      ensures Valid()
      ensures var r := Accounts.Profile(old(users), username, realName, newUsername, newPassword, image, hash);
        users == r.users && session == r.username && outcome == r.outcome
      ensures groups == old(groups)
    {
      var r := Accounts.Profile(users, username, realName, newUsername, newPassword, image, hash);
      users := r.users;
      session := r.username;
      outcome := r.outcome;
    }

    // ---------------------------------------------------------------
    // Membership

    method CreateGroup(user: string, gid: string, code: string, name: string, description: string,
                       image: string)
      requires Valid()
      modifies this
      ensures Valid()
      ensures groups == Membership.CreateGroup(old(groups), user, gid, code, name, description, image)
      ensures users == old(users)
    {
      Membership.CreateKeepsOk(groups, user, gid, code, name, description, image);
      groups := Membership.CreateGroup(groups, user, gid, code, name, description, image);
    }

    method GenerateInvite(gid: string, caller: string, code: string) returns (outcome: Outcome)
      requires Valid()
      modifies this
      ensures Valid()
      ensures var r := Membership.GenerateInvite(old(groups), gid, caller, code);
        groups == r.groups && outcome == r.outcome
      ensures users == old(users)
    {
      Membership.InviteKeepsOk(groups, gid, caller, code);
      var r := Membership.GenerateInvite(groups, gid, caller, code);
      groups := r.groups;
      outcome := r.outcome;
    }

    /**
     * `join_group`: scans the groups in dict order for the first holding the
     * stripped code, then files a join request there unless the user is
     * already a member or pending.
     */
    method JoinGroup(user: string, codeInput: string) returns (outcome: Outcome)
      requires Valid()
      modifies this
      ensures Valid()
      ensures var r := Membership.Join(old(groups), user, codeInput);
        groups == r.groups && outcome == r.outcome
      ensures users == old(users)
    {
      Membership.JoinKeepsOk(groups, user, codeInput);
      var code := Strip(codeInput);
      var i := 0;
      while i < |groups| && code !in groups[i].group.inviteCodes
        invariant 0 <= i <= |groups|
        invariant forall k :: 0 <= k < i ==> code !in groups[k].group.inviteCodes
      {
        i := i + 1;
      }
      if i == |groups| {
        return InvalidCode;
      }
      assert Membership.FirstWithCode(groups, code) == i;
      var g := groups[i].group;
      if user in g.members || user in g.requests {
        return AlreadyJoined;
      }
      groups := groups[i := Entry(groups[i].id, g.(requests := g.requests + [user]))];
      outcome := Done;
    }

    method ApproveUser(gid: string, caller: string, target: string)
      requires Valid()
      modifies this
      ensures Valid()
      ensures groups == Membership.Approve(old(groups), gid, caller, target)
      ensures users == old(users)
    {
      Membership.ApproveKeepsOk(groups, gid, caller, target);
      groups := Membership.Approve(groups, gid, caller, target);
    }

    method DenyUser(gid: string, caller: string, target: string)
      requires Valid()
      modifies this
      ensures Valid()
      ensures groups == Membership.Deny(old(groups), gid, caller, target)
      ensures users == old(users)
    {
      Membership.DenyKeepsOk(groups, gid, caller, target);
      groups := Membership.Deny(groups, gid, caller, target);
    }

    method LeaveGroup(gid: string, user: string) returns (outcome: Outcome)
      requires Valid()
      modifies this
      ensures Valid()
      ensures var r := Membership.Leave(old(groups), gid, user);
        groups == r.groups && outcome == r.outcome
      ensures users == old(users)
    {
      Membership.LeaveKeepsOk(groups, gid, user);
      var r := Membership.Leave(groups, gid, user);
      groups := r.groups;
      outcome := r.outcome;
    }

    method KickMember(gid: string, caller: string, member: string) returns (outcome: Outcome)
      requires Valid()
      modifies this
      ensures Valid()
      ensures var r := Membership.Kick(old(groups), gid, caller, member);
        groups == r.groups && outcome == r.outcome
      ensures users == old(users)
    {
      Membership.KickKeepsOk(groups, gid, caller, member);
      var r := Membership.Kick(groups, gid, caller, member);
      groups := r.groups;
      outcome := r.outcome;
    }

    method DeleteGroup(gid: string, caller: string, password: string) returns (outcome: Outcome)
      requires Valid()
      modifies this
      ensures Valid()
      ensures var r := Membership.DeleteGroup(old(groups), old(users), gid, caller, password, hash);
        groups == r.groups && outcome == r.outcome
      ensures users == old(users)
    {
      Membership.DeleteKeepsOk(groups, users, gid, caller, password, hash);
      var r := Membership.DeleteGroup(groups, users, gid, caller, password, hash);
      groups := r.groups;
      outcome := r.outcome;
    }

    // ---------------------------------------------------------------
    // Content

    /** What the dashboard shows; changes nothing. */
    method Dashboard(user: string, remembered: Option<string>, page: int) returns (v: Content.Dashboard)
      requires Valid() && page >= 1
      ensures v == Content.DashboardView(groups, user, remembered, page)
      ensures v.Board? ==> |v.posts| <= Content.PerPage && v.total == |v.group.posts|
    {
      v := Content.DashboardView(groups, user, remembered, page);
    }

    method PostMessage(gid: string, user: string, title: string, description: string,
                       uploads: seq<Content.Upload>, now: int) returns (outcome: Outcome)
      requires Valid()
      modifies this
      ensures Valid()
      ensures var r := Content.PostMessage(old(groups), gid, user, title, description, uploads, now);
        groups == r.groups && outcome == r.outcome
      ensures users == old(users)
    {
      Content.PostKeepsOk(groups, gid, user, title, description, uploads, now);
      var r := Content.PostMessage(groups, gid, user, title, description, uploads, now);
      groups := r.groups;
      outcome := r.outcome;
    }

    /** `view_post` submitting a comment on the post at display index `display`. */
    method CommentOnPost(gid: string, display: int, user: string, text: string, anonymous: bool,
                         now: int) returns (outcome: Outcome)
      requires Valid()
      modifies this
      ensures Valid()
      ensures var r := Content.AddComment(old(groups), gid, display, user, text, anonymous, now);
        groups == r.groups && outcome == r.outcome
      ensures users == old(users)
    {
      Content.CommentKeepsOk(groups, gid, display, user, text, anonymous, now);
      var r := Content.AddComment(groups, gid, display, user, text, anonymous, now);
      groups := r.groups;
      outcome := r.outcome;
    }

    method DeletePost(gid: string, caller: string, index: int) returns (outcome: Outcome)
      requires Valid()
      modifies this
      ensures Valid()
      ensures var r := Content.DeletePost(old(groups), gid, caller, index);
        groups == r.groups && outcome == r.outcome
      ensures users == old(users)
    {
      Content.DeletePostKeepsOk(groups, gid, caller, index);
      var r := Content.DeletePost(groups, gid, caller, index);
      groups := r.groups;
      outcome := r.outcome;
    }

    // ---------------------------------------------------------------
    // Pool ledger

    method SetupPool(gid: string, caller: string, name: string, target: real) returns (outcome: Outcome)
      requires Valid()
      modifies this
      ensures Valid()
      ensures var r := Ledger.SetupPool(old(groups), gid, caller, name, target);
        groups == r.groups && outcome == r.outcome
      ensures users == old(users)
    {
      Ledger.SetupPoolKeepsOk(groups, gid, caller, name, target);
      var r := Ledger.SetupPool(groups, gid, caller, name, target);
      groups := r.groups;
      outcome := r.outcome;
    }

    method Contribute(gid: string, user: string, amount: real) returns (outcome: Outcome)
      requires Valid()
      modifies this
      ensures Valid()
      ensures var r := Ledger.Contribute(old(groups), gid, user, amount);
        groups == r.groups && outcome == r.outcome
      ensures users == old(users)
    {
      Ledger.ContributeKeepsOk(groups, gid, user, amount);
      var r := Ledger.Contribute(groups, gid, user, amount);
      groups := r.groups;
      outcome := r.outcome;
    }

    method ApproveContribution(gid: string, caller: string, index: int, edit: Option<real>)
      returns (outcome: Outcome)
      requires Valid()
      modifies this
      ensures Valid()
      ensures var r := Ledger.ApproveContribution(old(groups), gid, caller, index, edit);
        groups == r.groups && outcome == r.outcome
      ensures users == old(users)
    {
      Ledger.ApproveContributionKeepsOk(groups, gid, caller, index, edit);
      var r := Ledger.ApproveContribution(groups, gid, caller, index, edit);
      groups := r.groups;
      outcome := r.outcome;
    }
  }

  /**
   * A rename does not touch the groups: the admin who renames loses the
   * admin role under the new name, and whoever registers the old name next
   * logs in as that group's admin.
   */
  lemma RenameOrphansAdminRole(gs: Store, users: map<string, User>, gid: string, admin: string,
                               realName: string, newUsername: string, newPassword: string,
                               image: Option<string>, hash: string -> string,
                               stranger: string, strangerPassword: string)
    requires KeysLower(users) && IsAdmin(gs, gid, admin) && admin != ""
    requires Accounts.Profile(users, admin, realName, newUsername, newPassword, image, hash).outcome == Done
    requires Accounts.Renaming(admin, newUsername)
    requires Accounts.NameKey(stranger) == admin
    ensures
      var p := Accounts.Profile(users, admin, realName, newUsername, newPassword, image, hash);
      var reg := Accounts.Register(p.users, stranger, strangerPassword, hash);
      && !IsAdmin(gs, gid, p.username)
      && Ledger.SetupPool(gs, gid, p.username, "", 0.0).outcome == Unauthorized
      && reg.outcome == Done
      && Accounts.Login(reg.users, stranger, strangerPassword, hash) == Some(admin)
      && IsAdmin(gs, gid, admin)
  {
    var p := Accounts.Profile(users, admin, realName, newUsername, newPassword, image, hash);
    assert p.username != admin;
    Accounts.RenameFreesOldName(users, admin, realName, newUsername, newPassword, image, hash,
                                stranger, strangerPassword);
  }

  /**
   * A pool with target 100.0 and no pledges: bob pledges 20.0, the admin
   * approves it as 25.0, and the one pledge reads bob, 25.0, approved.
   */
  lemma PoolScenario(gs: Store, gid: string, admin: string, name: string)
    requires IsAdmin(gs, gid, admin)
    requires Lookup(gs, gid).value.pool == Some(Pool(name, 100.0, []))
    ensures
      var pledged := Ledger.Contribute(gs, gid, "bob", 20.0);
      var approved := Ledger.ApproveContribution(pledged.groups, gid, admin, 0, Some(25.0));
      && pledged.outcome == Done
      && approved.outcome == Done
      && Lookup(approved.groups, gid) ==
           Some(Lookup(gs, gid).value.(pool := Some(Pool(name, 100.0, [Contribution("bob", 25.0, true)]))))
  {
    Ledger.ApproveNewPledge(gs, gid, admin, "bob", 20.0, Some(25.0));
    assert [] + [Contribution("bob", 25.0, true)] == [Contribution("bob", 25.0, true)];
  }
}
