/**
 * The records the web application keeps in its two JSON collections, and the
 * group collection itself: a Python dict, so an ORDERED sequence of
 * (group id, group) entries with dict lookup, assignment and deletion.
 */
module Domain {
  import opened Seqs
  import opened Text

  datatype Option<T> = None | Some(value: T)

  /** A comment on a post; `author` is a user key or the anonymous sentinel. */
  datatype Comment = Comment(author: string, content: string, timestamp: int)

  /** A post; `images` are stored upload names. */
  datatype Post = Post(author: string, title: string, description: string,
                       images: seq<string>, timestamp: int, comments: seq<Comment>)

  /** One pledge to a pool; amounts are abstract numbers. */
  datatype Contribution = Contribution(user: string, amount: real, approved: bool)

  datatype Pool = Pool(name: string, target: real, contributions: seq<Contribution>)

  /** A group record; `pool` is absent until the admin sets one up. */
  datatype Group = Group(
    admin: string,
    inviteCodes: seq<string>,
    members: seq<string>,
    posts: seq<Post>,
    name: string,
    description: string,
    image: string,
    requests: seq<string>,
    pool: Option<Pool>)

  /** A registered user, stored under its lowercased name. */
  datatype User = User(passwordHash: string, profileImage: string, realName: string)

  /** One key/value pair of the groups dict. */
  datatype Entry = Entry(id: string, group: Group)

  /** The groups dict in insertion order. */
  type Store = seq<Entry>

  /**
   * What a handler answers. `Done` means the change was saved; `Crashed`
   * stands for an unhandled KeyError, after which nothing is saved.
   */
  datatype Outcome =
    | Done
    | Rendered
    | GroupNotFound
    | Unauthorized
    | InvalidCode
    | AlreadyJoined
    | NotMember
    | AdminCannotLeave
    | SelfKick
    | BadPassword
    | InvalidInput
    | PostRejected
    | PostNotFound
    | InvalidIndex
    | NoPool
    | UserExists
    | Crashed

  /** The groups after a handler, and its answer. */
  datatype Reply = Reply(groups: Store, outcome: Outcome)

  /** The keys of the dict, in order. */
  function Ids(gs: Store): (r: seq<string>)
    ensures |r| == |gs|
    ensures forall k :: 0 <= k < |gs| ==> r[k] == gs[k].id
  {
    if gs == [] then [] else [gs[0].id] + Ids(gs[1..])
  }

  /** Dict keys are unique. */
  predicate UniqueIds(gs: Store) {
    forall i, j :: 0 <= i < j < |gs| ==> gs[i].id != gs[j].id
  }

  /** Position of key id, or -1 when absent. */
  function IndexOf(gs: Store, id: string): (i: int)
    ensures -1 <= i < |gs|
    ensures i >= 0 ==> gs[i].id == id && forall k :: 0 <= k < i ==> gs[k].id != id
    ensures i < 0 <==> id !in Ids(gs)
  {
    if gs == [] then -1
    else if gs[0].id == id then 0
    else
      var k := IndexOf(gs[1..], id);
      assert Ids(gs) == [gs[0].id] + Ids(gs[1..]);
      if k < 0 then -1 else k + 1
  }

  /** IndexOf is determined by the first position holding the key. */
  lemma IndexOfAt(gs: Store, id: string, i: int)
    requires -1 <= i < |gs|
    requires i >= 0 ==> gs[i].id == id
    requires forall k :: 0 <= k < |gs| && (i < 0 || k < i) ==> gs[k].id != id
    ensures IndexOf(gs, id) == i
  {
  }

  /** Python's `groups.get(id)`. */
  function Lookup(gs: Store, id: string): (r: Option<Group>)
    ensures r.Some? <==> id in Ids(gs)
    ensures r.Some? ==> Entry(id, r.value) in gs
  {
    var i := IndexOf(gs, id);
    if i < 0 then None else Some(gs[i].group)
  }

  /** Python's `groups[id] = g`: overwrite in place, or append a new key. */
  function Put(gs: Store, id: string, g: Group): (r: Store)
    ensures Lookup(r, id) == Some(g)
    ensures forall other :: other != id ==> Lookup(r, other) == Lookup(gs, other)
    ensures Ids(r) == if id in Ids(gs) then Ids(gs) else Ids(gs) + [id]
    ensures UniqueIds(gs) ==> UniqueIds(r)
  {
    var i := IndexOf(gs, id);
    var r := if i < 0 then gs + [Entry(id, g)] else gs[i := Entry(id, g)];
    PutIds(gs, id, g, i, r);
    PutLookups(gs, id, g, i, r);
    r
  }

  /** The key order after an assignment. */
  lemma PutIds(gs: Store, id: string, g: Group, i: int, r: Store)
    requires i == IndexOf(gs, id)
    requires r == if i < 0 then gs + [Entry(id, g)] else gs[i := Entry(id, g)]
    ensures Ids(r) == if id in Ids(gs) then Ids(gs) else Ids(gs) + [id]
    ensures UniqueIds(gs) ==> UniqueIds(r)
  {
    assert forall k :: 0 <= k < |gs| ==> r[k].id == gs[k].id;
    assert Ids(r) == if i < 0 then Ids(gs) + [id] else Ids(gs);
  }

  /** What lookups see after an assignment. */
  lemma PutLookups(gs: Store, id: string, g: Group, i: int, r: Store)
    requires i == IndexOf(gs, id)
    requires r == if i < 0 then gs + [Entry(id, g)] else gs[i := Entry(id, g)]
    ensures Lookup(r, id) == Some(g)
    ensures forall other :: other != id ==> Lookup(r, other) == Lookup(gs, other)
  {
    IndexOfAt(r, id, if i < 0 then |gs| else i);
    forall other | other != id ensures Lookup(r, other) == Lookup(gs, other) {
      PutLookupOther(gs, id, g, i, r, other);
    }
  }

  lemma PutLookupOther(gs: Store, id: string, g: Group, i: int, r: Store, other: string)
    requires i == IndexOf(gs, id) && other != id
    requires r == if i < 0 then gs + [Entry(id, g)] else gs[i := Entry(id, g)]
    ensures Lookup(r, other) == Lookup(gs, other)
  {
    var j := IndexOf(gs, other);
    assert forall k :: 0 <= k < |gs| ==> r[k].id == gs[k].id;
    IndexOfAt(r, other, j);
    assert j >= 0 ==> r[j] == gs[j];
  }

  /** Assigning a key the value it already holds leaves the dict as it was. */
  lemma PutExisting(gs: Store, id: string, g: Group)
    requires Lookup(gs, id) == Some(g)
    ensures Put(gs, id, g) == gs
  {
    var i := IndexOf(gs, id);
    assert gs[i] == Entry(id, g);
    assert gs[i := Entry(id, g)] == gs;
  }

  /** Python's `del groups[id]`: every other key keeps its value and its order. */
  function RemoveId(gs: Store, id: string): (r: Store)
    ensures Lookup(r, id) == None
    ensures forall other :: other != id ==> Lookup(r, other) == Lookup(gs, other)
    ensures forall x :: x in Ids(r) <==> x in Ids(gs) && x != id
    ensures UniqueIds(gs) ==> UniqueIds(r)
  {
    if gs == [] then []
    else
      var tail := RemoveId(gs[1..], id);
      var r := if gs[0].id == id then tail else [gs[0]] + tail;
      assert Ids(gs) == [gs[0].id] + Ids(gs[1..]);
      assert gs[0].id != id ==> Ids(r) == [gs[0].id] + Ids(tail);
      assert IndexOf(r, id) == -1;
      forall other | other != id ensures Lookup(r, other) == Lookup(gs, other) {
        RemoveIdStepLookup(gs, id, tail, r, other);
      }
      RemoveIdStepUnique(gs, id, tail, r);
      r
  }

  /**
   * Deletion keeps the order of the remaining keys: an absent key leaves the
   * dict as it was, and with unique keys exactly the entry at the key's
   * position is taken out.
   */
  lemma {:induction false} RemoveIdOrder(gs: Store, id: string)
    ensures IndexOf(gs, id) < 0 ==> RemoveId(gs, id) == gs
    ensures UniqueIds(gs) && IndexOf(gs, id) >= 0 ==> RemoveId(gs, id) == RemoveAt(gs, IndexOf(gs, id))
  {
    if gs != [] {
      var t := gs[1..];
      RemoveIdOrder(t, id);
      RemoveIdUnfold(gs, id);
      if gs[0].id == id {
        RemoveIdOrderHead(gs, id);
      } else {
        RemoveIdOrderSkip(gs, id, RemoveId(t, id));
      }
    }
  }

  /** The key sits at the front: with unique keys the rest is the tail, unchanged. */
  lemma RemoveIdOrderHead(gs: Store, id: string)
    requires gs != [] && gs[0].id == id
    requires IndexOf(gs[1..], id) < 0 ==> RemoveId(gs[1..], id) == gs[1..]
    requires RemoveId(gs, id) == RemoveId(gs[1..], id)
    ensures UniqueIds(gs) ==> RemoveId(gs, id) == RemoveAt(gs, 0)
  {
    if UniqueIds(gs) {
      UniqueTail(gs);
      assert IndexOf(gs[1..], id) < 0;
      assert RemoveAt(gs, 0) == gs[1..];
    }
  }

  /** The front entry holds another key: it stays in front of the tail's result rt. */
  lemma RemoveIdOrderSkip(gs: Store, id: string, rt: Store)
    requires gs != [] && gs[0].id != id
    requires IndexOf(gs[1..], id) < 0 ==> rt == gs[1..]
    requires UniqueIds(gs[1..]) && IndexOf(gs[1..], id) >= 0 ==> rt == RemoveAt(gs[1..], IndexOf(gs[1..], id))
    ensures IndexOf(gs, id) < 0 ==> [gs[0]] + rt == gs
    ensures UniqueIds(gs) && IndexOf(gs, id) >= 0 ==> [gs[0]] + rt == RemoveAt(gs, IndexOf(gs, id))
  {
    var t := gs[1..];
    IndexOfCons(gs, id);
    var k := IndexOf(t, id);
    if k < 0 {
      assert rt == t && IndexOf(gs, id) == -1;
      assert [gs[0]] + t == gs;
    } else {
      assert IndexOf(gs, id) == k + 1;
      if UniqueIds(gs) {
        UniqueTail(gs);
        assert rt == RemoveAt(t, k);
        ConsRemoveAt(gs, k);
      }
    }
  }

  /** One step of RemoveId. */
  lemma RemoveIdUnfold(gs: Store, id: string)
    requires gs != []
    ensures RemoveId(gs, id) == if gs[0].id == id then RemoveId(gs[1..], id) else [gs[0]] + RemoveId(gs[1..], id)
  {
  }

  /** One step of IndexOf past a head holding another key. */
  lemma IndexOfCons(gs: Store, id: string)
    requires gs != [] && gs[0].id != id
    ensures IndexOf(gs, id) == if IndexOf(gs[1..], id) < 0 then -1 else IndexOf(gs[1..], id) + 1
  {
  }

  /** Removing position k of the tail is removing position k + 1 of the whole. */
  lemma ConsRemoveAt(gs: Store, k: nat)
    requires k < |gs| - 1
    ensures [gs[0]] + RemoveAt(gs[1..], k) == RemoveAt(gs, k + 1)
  {
    assert gs[1..][..k] == gs[1..k + 1];
    assert gs[1..][k + 1..] == gs[k + 2..];
  }

  /** A lookup in a store with one more entry at the front. */
  lemma LookupCons(e: Entry, t: Store, other: string)
    ensures Lookup([e] + t, other) == if e.id == other then Some(e.group) else Lookup(t, other)
  {
    assert ([e] + t)[1..] == t;
  }

  /** One lookup across the inductive step of RemoveId. */
  lemma RemoveIdStepLookup(gs: Store, id: string, tail: Store, r: Store, other: string)
    requires gs != [] && other != id
    requires Lookup(tail, other) == Lookup(gs[1..], other)
    requires r == if gs[0].id == id then tail else [gs[0]] + tail
    ensures Lookup(r, other) == Lookup(gs, other)
  {
    assert gs == [gs[0]] + gs[1..];
    LookupCons(gs[0], gs[1..], other);
    if gs[0].id != id {
      LookupCons(gs[0], tail, other);
    }
  }

  /** The tail of a store with unique keys has unique keys and lacks the head's key. */
  lemma UniqueTail(gs: Store)
    requires gs != [] && UniqueIds(gs)
    ensures UniqueIds(gs[1..]) && gs[0].id !in Ids(gs[1..])
  {
    var t := gs[1..];
    forall i, j | 0 <= i < j < |t| ensures t[i].id != t[j].id {
      assert t[i] == gs[i + 1] && t[j] == gs[j + 1];
    }
    forall k | 0 <= k < |t| ensures Ids(t)[k] != gs[0].id {
      assert t[k] == gs[k + 1];
    }
  }

  /** Putting an entry with a fresh key in front keeps keys unique. */
  lemma UniqueCons(e: Entry, t: Store)
    requires UniqueIds(t) && e.id !in Ids(t)
    ensures UniqueIds([e] + t)
  {
    var r := [e] + t;
    forall i, j | 0 <= i < j < |r| ensures r[i].id != r[j].id {
      assert r[j] == t[j - 1];
      if i == 0 {
        assert Ids(t)[j - 1] == t[j - 1].id;
      } else {
        assert r[i] == t[i - 1];
      }
    }
  }

  /** Key uniqueness across the inductive step of RemoveId. */
  lemma RemoveIdStepUnique(gs: Store, id: string, tail: Store, r: Store)
    requires gs != []
    requires forall x :: x in Ids(tail) <==> x in Ids(gs[1..]) && x != id
    requires UniqueIds(gs[1..]) ==> UniqueIds(tail)
    requires r == if gs[0].id == id then tail else [gs[0]] + tail
    ensures UniqueIds(gs) ==> UniqueIds(r)
  {
    if UniqueIds(gs) {
      UniqueTail(gs);
      if gs[0].id != id {
        UniqueCons(gs[0], tail);
      }
    }
  }

  /**
   * The group invariant: the admin is a member, nobody is both a member and
   * pending, and neither list holds a name twice.
   */
  predicate WellFormed(g: Group) {
    && g.admin in g.members
    && NoDup(g.members)
    && NoDup(g.requests)
    && forall u :: u in g.members ==> u !in g.requests
  }

  /** The store invariant: unique keys and every group well formed. */
  predicate StoreOk(gs: Store) {
    UniqueIds(gs) && forall k :: 0 <= k < |gs| ==> WellFormed(gs[k].group)
  }

  /** Every group found by key in a good store is well formed. */
  lemma LookupWellFormed(gs: Store, id: string)
    requires StoreOk(gs) && Lookup(gs, id).Some?
    ensures WellFormed(Lookup(gs, id).value)
  {
  }

  /** Assigning a well-formed group under any key keeps the store good. */
  lemma {:induction false} PutKeepsOk(gs: Store, id: string, g: Group)
    requires StoreOk(gs) && WellFormed(g)
    ensures StoreOk(Put(gs, id, g))
  {
    var i := IndexOf(gs, id);
    var r := Put(gs, id, g);
    assert r == if i < 0 then gs + [Entry(id, g)] else gs[i := Entry(id, g)];
    forall k | 0 <= k < |r| ensures WellFormed(r[k].group) {
      if k < |gs| && k != i {
        assert r[k] == gs[k];
      }
    }
  }

  /** Deleting a key keeps the store good. */
  lemma {:induction false} RemoveIdKeepsOk(gs: Store, id: string)
    requires StoreOk(gs)
    ensures StoreOk(RemoveId(gs, id))
  {
    if gs != [] {
      assert StoreOk(gs[1..]) by {
        forall i, j | 0 <= i < j < |gs[1..]| ensures gs[1..][i].id != gs[1..][j].id {
          assert gs[i + 1].id != gs[j + 1].id;
        }
      }
      RemoveIdKeepsOk(gs[1..], id);
      var tail := RemoveId(gs[1..], id);
      var r := RemoveId(gs, id);
      assert r == if gs[0].id == id then tail else [gs[0]] + tail;
      forall k | 0 <= k < |r| ensures WellFormed(r[k].group) {
        if gs[0].id != id && k > 0 {
          assert r[k] == tail[k - 1];
        }
      }
    }
  }

  /** The caller administers the group with this key. */
  predicate IsAdmin(gs: Store, id: string, user: string) {
    Lookup(gs, id).Some? && Lookup(gs, id).value.admin == user
  }

  /** The user is listed as a member of the group. */
  predicate IsMember(gs: Store, id: string, user: string) {
    Lookup(gs, id).Some? && user in Lookup(gs, id).value.members
  }

  /**
   * Replacing a group by one with the same admin, members and requests (a
   * change to its posts, codes or pool) keeps the store good.
   */
  lemma PutSameMembershipKeepsOk(gs: Store, id: string, g: Group)
    requires StoreOk(gs) && Lookup(gs, id).Some?
    requires g.admin == Lookup(gs, id).value.admin
    requires g.members == Lookup(gs, id).value.members
    requires g.requests == Lookup(gs, id).value.requests
    ensures StoreOk(Put(gs, id, g))
  {
    LookupWellFormed(gs, id);
    PutKeepsOk(gs, id, g);
  }

  /** Every key of the users dict is already lowercase, as register and rename store them. */
  predicate KeysLower(users: map<string, User>) {
    forall u :: u in users ==> Lower(u) == u
  }

  /** Only the group under key id may differ; the key order is unchanged. */
  ghost predicate ChangedOnly(gs: Store, r: Store, id: string) {
    Ids(r) == Ids(gs) && forall other :: other != id ==> Lookup(r, other) == Lookup(gs, other)
  }
}
