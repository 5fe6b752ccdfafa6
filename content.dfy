/**
 * Content rules: posts are stored oldest first and shown newest first, five
 * to a page. A display index i addresses storage position |posts| - 1 - i;
 * deleting a post uses the raw storage position.
 */
module Content {
  import opened Seqs
  import opened Text
  import opened Domain

  /** Posts per dashboard page. */
  const PerPage: nat := 5

  /** At most this many uploads of one post are considered. */
  const MaxImages: nat := 4

  /** The author recorded for an anonymous comment; it is not lowercase, so no user key equals it. */
  const AnonymousAuthor: string := "Anonymous"

  /**
   * One uploaded file as the upload layer presents it: the name it would be
   * stored under and whether it passed the non-empty / extension check.
   */
  datatype Upload = Upload(storedName: string, allowed: bool)

  function Min(a: int, b: int): int { if a < b then a else b }

  /** The stored names of the allowed uploads, in order. */
  function AllowedNames(us: seq<Upload>): (r: seq<string>)
    ensures |r| <= |us|
    ensures forall n :: n in r <==> exists k :: 0 <= k < |us| && us[k].allowed && us[k].storedName == n
  {
    if us == [] then []
    else
      var tail := AllowedNames(us[1..]);
      assert forall k :: 0 < k < |us| ==> us[k] == us[1..][k - 1];
      if us[0].allowed then [us[0].storedName] + tail else tail
  }

  /** The filter keeps upload order: filtering a concatenation concatenates the results. */
  lemma {:induction false} AllowedNamesAppend(a: seq<Upload>, b: seq<Upload>)
    ensures AllowedNames(a + b) == AllowedNames(a) + AllowedNames(b)
  {
    if a == [] {
      assert a + b == b;
    } else {
      assert (a + b)[0] == a[0] && (a + b)[1..] == a[1..] + b;
      AllowedNamesAppend(a[1..], b);
    }
  }

  /** `post_message` keeps the allowed files among the first four uploads only. */
  function KeptImages(uploads: seq<Upload>): (r: seq<string>)
    ensures |r| <= MaxImages
    ensures forall n :: n in r <==>
      exists k :: 0 <= k < Min(|uploads|, MaxImages) && uploads[k].allowed && uploads[k].storedName == n
    ensures |uploads| <= MaxImages ==> r == AllowedNames(uploads)
  {
    assert |uploads| <= MaxImages ==> uploads[..|uploads|] == uploads;
    AllowedNames(uploads[..Min(|uploads|, MaxImages)])
  }

  /** Uploads after the fourth never affect which images a post keeps. */
  lemma KeptImagesIgnoresRest(a: seq<Upload>, b: seq<Upload>)
    requires |a| >= MaxImages
    ensures KeptImages(a + b) == KeptImages(a)
  {
    assert (a + b)[..MaxImages] == a[..MaxImages];
  }

  /**
   * `post_message`: an empty title or description after stripping is refused
   * first; then the group must exist and the author must be a member. The
   * new post goes at the end of storage order with no comments.
   */
  function PostMessage(gs: Store, gid: string, user: string, title: string, description: string,
                       uploads: seq<Upload>, now: int): (r: Reply)
    ensures r.outcome == InvalidInput <==> AllSpace(title) || AllSpace(description)
    ensures r.outcome == PostRejected <==>
      !AllSpace(title) && !AllSpace(description) && !IsMember(gs, gid, user)
    ensures r.outcome == Done <==>
      !AllSpace(title) && !AllSpace(description) && IsMember(gs, gid, user)
    ensures r.outcome != Done ==> r.groups == gs
    ensures r.outcome == Done ==>
      ChangedOnly(gs, r.groups, gid) && Lookup(gs, gid).Some? && Lookup(r.groups, gid).Some?
    ensures r.outcome == Done ==>
      var g, h := Lookup(gs, gid).value, Lookup(r.groups, gid).value;
      && h.posts == g.posts + [Post(user, Strip(title), Strip(description), KeptImages(uploads), now, [])]
      && h == g.(posts := h.posts)
  {
    var t, d := Strip(title), Strip(description);
    if t == [] || d == [] then Reply(gs, InvalidInput)
    else
      match Lookup(gs, gid)
      case None => Reply(gs, PostRejected)
      case Some(g) =>
        if user !in g.members then Reply(gs, PostRejected)
        else Reply(Put(gs, gid, g.(posts := g.posts + [Post(user, t, d, KeptImages(uploads), now, [])])), Done)
  }

  /**
   * The posts `dashboard` shows on a page (1-based): display order is newest
   * first, and the page holds display positions (page-1)*5 up to page*5,
   * clipped to the number of posts.
   */
  function Page(posts: seq<Post>, page: int): (r: seq<Post>)
    requires page >= 1
    ensures |r| <= PerPage
    ensures r == [] <==> (page - 1) * PerPage >= |posts|
    ensures (page - 1) * PerPage < |posts| ==> |r| == Min(PerPage, |posts| - (page - 1) * PerPage)
    ensures forall k :: 0 <= k < |r| ==> r[k] == posts[|posts| - 1 - ((page - 1) * PerPage + k)]
  {
    var all := Reverse(posts);
    var start := (page - 1) * PerPage;
    var end := start + PerPage;
    all[Min(start, |all|)..Min(end, |all|)]
  }

  /** Every display index lands on exactly the page and slot the paging arithmetic names. */
  lemma DisplayIndexOnPage(posts: seq<Post>, i: int)
    requires 0 <= i < |posts|
    ensures i % PerPage < |Page(posts, i / PerPage + 1)|
    ensures Page(posts, i / PerPage + 1)[i % PerPage] == posts[|posts| - 1 - i]
  {
    var p := i / PerPage + 1;
    assert (p - 1) * PerPage + i % PerPage == i;
  }

  /** Position k holds the first group, in dict order, that lists the user as a member. */
  predicate FirstMemberAt(gs: Store, user: string, k: int) {
    0 <= k < |gs| && user in gs[k].group.members && forall j :: 0 <= j < k ==> user !in gs[j].group.members
  }

  /**
   * The groups the user belongs to, in dict order (the `user_groups`
   * comprehension); the first of them is the first group in dict order that
   * lists the user.
   */
  function MemberGroups(gs: Store, user: string): (r: Store)
    ensures |r| <= |gs|
    ensures forall e :: e in r <==> e in gs && user in e.group.members
    ensures r != [] ==> exists k :: FirstMemberAt(gs, user, k) && r[0] == gs[k]
  {
    if gs == [] then []
    else
      var tail := MemberGroups(gs[1..], user);
      assert forall e :: e in gs <==> e == gs[0] || e in gs[1..];
      if user in gs[0].group.members then
        assert FirstMemberAt(gs, user, 0);
        [gs[0]] + tail
      else
        assert tail != [] ==> exists k :: FirstMemberAt(gs, user, k) && tail[0] == gs[k] by {
          if tail != [] {
            var t := gs[1..];
            var k :| FirstMemberAt(t, user, k) && tail[0] == t[k];
            assert t[k] == gs[k + 1];
            forall j | 0 <= j < k + 1 ensures user !in gs[j].group.members {
              if j > 0 {
                assert gs[j] == t[j - 1];
              }
            }
            assert FirstMemberAt(gs, user, k + 1);
          }
        }
        tail
  }

  /** The filter keeps dict order: filtering a concatenation concatenates the results. */
  lemma {:induction false} MemberGroupsAppend(a: Store, b: Store, user: string)
    ensures MemberGroups(a + b, user) == MemberGroups(a, user) + MemberGroups(b, user)
  {
    if a == [] {
      assert a + b == b;
    } else {
      assert (a + b)[0] == a[0] && (a + b)[1..] == a[1..] + b;
      MemberGroupsAppend(a[1..], b, user);
    }
  }

  /** What the dashboard shows. */
  datatype Dashboard =
    | NoGroups
    | Board(userGroups: Store, active: string, group: Group, posts: seq<Post>,
            total: nat, requests: seq<string>)

  /**
   * `dashboard`: the active group is the remembered one if the user is still
   * a member of it, otherwise the first of the user's groups; only the admin
   * sees the pending requests. Nothing is changed.
   */
  function DashboardView(gs: Store, user: string, remembered: Option<string>, page: int): (v: Dashboard)
    requires page >= 1
    ensures v.NoGroups? <==> forall k :: 0 <= k < |gs| ==> user !in gs[k].group.members
    ensures v.Board? ==>
      && v.userGroups == MemberGroups(gs, user)
      && Entry(v.active, v.group) in gs
      && user in v.group.members
      && (remembered.Some? && remembered.value in Ids(v.userGroups) ==> v.active == remembered.value)
      && (remembered.None? || remembered.value !in Ids(v.userGroups) ==> v.active == v.userGroups[0].id)
      && v.posts == Page(v.group.posts, page)
      && v.total == |v.group.posts|
      && v.requests == (if v.group.admin == user then v.group.requests else [])
  {
    var ug := MemberGroups(gs, user);
    if ug == [] then
      assert forall k :: 0 <= k < |gs| ==> gs[k] !in ug;
      NoGroups
    else
      assert ug[0] in gs;
      var active := if remembered.Some? && remembered.value in Ids(ug) then remembered.value else ug[0].id;
      assert active == ug[0].id ==> active in Ids(ug);
      var g := Lookup(ug, active).value;
      Board(ug, active, g, Page(g.posts, page), |g.posts|, if g.admin == user then g.requests else [])
  }

  /** Storage position of display index i among n posts. */
  function StorageIndex(n: nat, i: nat): (s: nat)
    requires i < n
    ensures s < n && n - 1 - s == i
  {
    n - 1 - i
  }

  /**
   * The comment step of `view_post` on a post list: take the post shown at
   * display index `display` (newest first), append the comment, and write
   * the post back at storage position |posts| - 1 - display.
   */
  function CommentAt(posts: seq<Post>, display: nat, c: Comment): (r: seq<Post>)
    requires display < |posts|
    ensures |r| == |posts|
    ensures var s := |posts| - 1 - display;
      && r[s] == posts[s].(comments := posts[s].comments + [c])
      && forall k :: 0 <= k < |posts| && k != s ==> r[k] == posts[k]
  {
    var view := Reverse(posts);
    var post := view[display];
    var post' := post.(comments := post.comments + [c]);
    var s := StorageIndex(|posts|, display);
    posts[s := post']
  }

  /**
   * The commented post is the one shown at that display index: in the
   * newest-first view exactly position `display` gains the comment.
   */
  lemma CommentLandsOnDisplayedPost(posts: seq<Post>, display: nat, c: Comment)
    requires display < |posts|
    ensures
      var view := Reverse(posts);
      Reverse(CommentAt(posts, display, c)) == view[display := view[display].(comments := view[display].comments + [c])]
  {
    var s := |posts| - 1 - display;
    var post' := posts[s].(comments := posts[s].comments + [c]);
    assert CommentAt(posts, display, c) == posts[s := post'];
    ReverseUpdate(posts, display, post');
  }

  /**
   * `view_post` with a comment: the group must exist and the display index
   * must address a post (checked against the current count); an empty
   * stripped comment only re-renders the page. Otherwise the comment, with
   * the sentinel author when anonymity is asked for, is added by CommentAt.
   * No membership check.
   */
  function AddComment(gs: Store, gid: string, display: int, user: string, text: string,
                      anonymous: bool, now: int): (r: Reply)
    ensures r.outcome == GroupNotFound <==> Lookup(gs, gid).None?
    ensures r.outcome == PostNotFound <==>
      Lookup(gs, gid).Some? && !(0 <= display < |Lookup(gs, gid).value.posts|)
    ensures r.outcome == Rendered <==>
      Lookup(gs, gid).Some? && 0 <= display < |Lookup(gs, gid).value.posts| && AllSpace(text)
    ensures r.outcome == Done <==>
      Lookup(gs, gid).Some? && 0 <= display < |Lookup(gs, gid).value.posts| && !AllSpace(text)
    ensures r.outcome != Done ==> r.groups == gs
    ensures r.outcome == Done ==> ChangedOnly(gs, r.groups, gid)
    ensures r.outcome == Done ==>
      && Lookup(gs, gid).Some?
      && 0 <= display < |Lookup(gs, gid).value.posts|
      && var g := Lookup(gs, gid).value;
      Lookup(r.groups, gid) == Some(g.(posts := CommentAt(g.posts, display,
        Comment(if anonymous then AnonymousAuthor else user, Strip(text), now))))
  {
    match Lookup(gs, gid)
    case None => Reply(gs, GroupNotFound)
    case Some(g) =>
      if display < 0 || display >= |g.posts| then Reply(gs, PostNotFound)
      else
        var content := Strip(text);
        if content == [] then Reply(gs, Rendered)
        else
          var c := Comment(if anonymous then AnonymousAuthor else user, content, now);
          Reply(Put(gs, gid, g.(posts := CommentAt(g.posts, display, c))), Done)
  }

  /**
   * An anonymous comment cannot be attributed to anyone: the sentinel author
   * has a capital letter, so no (lowercase) user key equals it.
   */
  lemma AnonymousIsNoUser(users: map<string, User>)
    requires KeysLower(users)
    ensures AnonymousAuthor !in users
  {
    assert Lower(AnonymousAuthor)[0] == 'a';
  }

  /**
   * `delete_post`: admin only; the index is a raw STORAGE position (oldest
   * first), checked against the current count, and that post is popped.
   */
  function DeletePost(gs: Store, gid: string, caller: string, index: int): (r: Reply)
    ensures r.outcome == GroupNotFound <==> Lookup(gs, gid).None?
    ensures r.outcome == Unauthorized <==> Lookup(gs, gid).Some? && !IsAdmin(gs, gid, caller)
    ensures r.outcome == InvalidIndex <==>
      IsAdmin(gs, gid, caller) && !(0 <= index < |Lookup(gs, gid).value.posts|)
    ensures r.outcome == Done <==>
      IsAdmin(gs, gid, caller) && 0 <= index < |Lookup(gs, gid).value.posts|
    ensures r.outcome != Done ==> r.groups == gs
    ensures r.outcome == Done ==>
      ChangedOnly(gs, r.groups, gid) && Lookup(r.groups, gid).Some?
    ensures r.outcome == Done ==>
      var g, h := Lookup(gs, gid).value, Lookup(r.groups, gid).value;
      && h.posts == RemoveAt(g.posts, index)
      && h == g.(posts := h.posts)
  {
    match Lookup(gs, gid)
    case None => Reply(gs, GroupNotFound)
    case Some(g) =>
      if g.admin != caller then Reply(gs, Unauthorized)
      else if index < 0 || index >= |g.posts| then Reply(gs, InvalidIndex)
      else Reply(Put(gs, gid, g.(posts := RemoveAt(g.posts, index))), Done)
  }

  /**
   * In the newest-first view, deleting storage position j removes display
   * position |posts| - 1 - j; the posts before and after it keep their
   * relative order.
   */
  lemma DeletePostDisplay(gs: Store, gid: string, caller: string, index: int)
    requires DeletePost(gs, gid, caller, index).outcome == Done
    ensures
      var g := Lookup(gs, gid).value;
      var h := Lookup(DeletePost(gs, gid, caller, index).groups, gid).value;
      Reverse(h.posts) == RemoveAt(Reverse(g.posts), |g.posts| - 1 - index)
  {
    var g := Lookup(gs, gid).value;
    ReverseRemoveAt(g.posts, index);
  }

  // ---------------------------------------------------------------------
  // Content handlers leave the membership lists alone, so they keep the invariant.

  lemma PostKeepsOk(gs: Store, gid: string, user: string, title: string, description: string,
                    uploads: seq<Upload>, now: int)
    requires StoreOk(gs)
    ensures StoreOk(PostMessage(gs, gid, user, title, description, uploads, now).groups)
  {
    var r := PostMessage(gs, gid, user, title, description, uploads, now);
    if r.outcome == Done {
      var g := Lookup(gs, gid).value;
      PutSameMembershipKeepsOk(gs, gid, g.(posts := g.posts + [Post(user, Strip(title), Strip(description), KeptImages(uploads), now, [])]));
    }
  }

  lemma CommentKeepsOk(gs: Store, gid: string, display: int, user: string, text: string,
                       anonymous: bool, now: int)
    requires StoreOk(gs)
    ensures StoreOk(AddComment(gs, gid, display, user, text, anonymous, now).groups)
  {
    var r := AddComment(gs, gid, display, user, text, anonymous, now);
    if r.outcome == Done {
      var g := Lookup(gs, gid).value;
      PutSameMembershipKeepsOk(gs, gid, g.(posts := Lookup(r.groups, gid).value.posts));
    }
  }

  lemma DeletePostKeepsOk(gs: Store, gid: string, caller: string, index: int)
    requires StoreOk(gs)
    ensures StoreOk(DeletePost(gs, gid, caller, index).groups)
  {
    var r := DeletePost(gs, gid, caller, index);
    if r.outcome == Done {
      var g := Lookup(gs, gid).value;
      PutSameMembershipKeepsOk(gs, gid, g.(posts := RemoveAt(g.posts, index)));
    }
  }
}
