# Group collaboration app: a Dafny model of its domain logic

The application is a small Flask web app. Users register and log in.
They create groups, hand out invite codes, and queue join requests that the
group's admin approves or denies. Members post messages with up to four
images, comment on posts (optionally anonymously), and pledge money to a
group pool that the admin sets up and approves pledge by pledge. The state
is two JSON dicts, groups and users. Each request handler loads the file or
files it needs, and only the handlers that change something save, and only
the file they change (`WebAPP/app.py:22-30`).

This project models the domain logic inside those handlers:

- `seqs.dfy` (`Seqs`): the list operations the handlers use.
  - `list.remove` drops only the first occurrence.
  - `reversed` and `list.pop(i)`.
  - The no-duplicates property.
- `text.dfy` (`Text`): `str.strip()` and `str.lower()` on form input.
- `domain.dfy` (`Domain`): the records and the groups dict.
  - The dict is an ordered sequence of (id, group) entries, because `join_group` depends on insertion order.
  - Dict lookup, assignment and deletion, with their laws.
  - The group invariant: the admin is a member, nobody is both a member and pending, and neither list holds a name twice.
- `membership.dfy` (`Membership`): creating a group, invite codes, the join-request queue, approve, deny, leave, kick and delete group.
- `content.dfy` (`Content`): posting, the newest-first dashboard with five posts per page, commenting by display index, and deleting a post by storage index.
- `ledger.dfy` (`Ledger`): the contribution pool.
- `accounts.dfy` (`Accounts`): the users dict, written by register and profile and read by login.
  - Keys are lowercased names. Duplicates are detected ignoring case.
- `webapp.dfy` (`WebApp`): class `App` holds the two dicts as fields, with one method per handler.
  - Each method updates the fields to what the matching pure function computes from the old state, and keeps the store invariant `Valid()`.
  - `JoinGroup` keeps the source's first-match `for` loop as a `while` loop proved against `Membership.Join`.

Each handler's answer is an `Outcome`:

- `Done`: the change was saved.
- A named refusal, such as `Unauthorized` or `AlreadyJoined`.
- `Crashed`: the handler raises a KeyError, so nothing is saved.

The logged-in user, fresh group ids and invite codes, the clock, the password hash and the upload results are all parameters.

Where the code and the system's documented design differ, the model follows the code:

- `delete_post` pops the raw storage index (`WebAPP/app.py:409`), not a display index.
- `contribute` accepts any amount, including zero and negative amounts (`WebAPP/app.py:359-369`).
- `setup_pool` accepts any target (`WebAPP/app.py:341-351`).
- `setup_pool`, `contribute` and `approve_contrib` index the groups dict directly, so an unknown group id is a KeyError (`Crashed`).
- `approve_contrib` on a group without a pool is also a KeyError.
- Approve and deny on a non-pending target change nothing and report nothing (`WebAPP/app.py:252, 262`).
- `join_group` takes the first group in dict insertion order that holds the code (`WebAPP/app.py:238`).
- Commenting through `view_post` does not check membership (`WebAPP/app.py:303-331`).
- A profile rename moves the user record to the new key (`WebAPP/app.py:480`) and updates no group.
  - A renamed admin therefore loses the admin role.
  - Whoever registers the old name next becomes that group's admin; `WebApp.RenameOrphansAdminRole` proves this.

## Model

| member | source | states |
|---|---|---|
| Seqs.RemoveAt | WebAPP/app.py:409 | `list.pop(k)`: one element shorter; elements before k are kept, elements after k shift down by one. |
| Seqs.RemoveFirst | WebAPP/app.py:254 | `list.remove(x)` on an x that is present: the result is the list without x's first occurrence, everything else in order. For an absent x the model returns the list unchanged; see "## Left out". |
| Seqs.RemoveFirstMultiset | WebAPP/app.py:254 | Removing takes exactly one copy of x out of the multiset of elements. |
| Seqs.RemoveFirstNoDup | WebAPP/app.py:421 | On a duplicate-free list, `remove(x)` keeps it duplicate-free, takes x out completely, and keeps every other element. |
| Seqs.Reverse | WebAPP/app.py:163 | `reversed`: position k of the result is position n-1-k of the input. |
| Seqs.ReverseReverse | WebAPP/app.py:163 | Reversing twice gives the original order back. |
| Seqs.ReverseRemoveAt | WebAPP/app.py:409 | Popping storage position j removes display position n-1-j from the newest-first view, and the rest of the view keeps its order. |
| Seqs.ReverseUpdate | WebAPP/app.py:329-330 | Writing storage position n-1-i writes display position i of the reversed view, and nothing else. |
| Text.Strip | WebAPP/app.py:236 | `str.strip()`: the result is the input with a whitespace-only prefix and suffix cut off. It is empty exactly when the input is all whitespace; otherwise its first and last characters are not whitespace, so the cut is the longest one. |
| Text.StripIdempotent | WebAPP/app.py:83 | Stripping twice is stripping once. |
| Text.Lower | WebAPP/app.py:84 | `str.lower()` maps each character and keeps the length. |
| Text.LowerIdempotent | WebAPP/app.py:64 | Lowercasing a lowercased name changes nothing. |
| Domain.IndexOf | WebAPP/app.py:113 | The position of a key is the first one holding it; -1 means the key is absent from the dict. |
| Domain.Lookup | WebAPP/app.py:251 | `id in groups` / `groups[id]`: a value is found exactly when the key is in the dict, and the found entry is in the dict. |
| Domain.Put | WebAPP/app.py:218 | `groups[id] = g`: the key then maps to g and every other key is unchanged; an existing key keeps its place and a new key goes last; keys stay unique. |
| Domain.PutExisting | WebAPP/app.py:218 | Assigning a key the value it already holds leaves the dict as it was. |
| Domain.RemoveId | WebAPP/app.py:123 | `del groups[id]`: the key is gone, every other key maps as before and stays in the dict, and keys stay unique. |
| Domain.RemoveIdOrder | WebAPP/app.py:123 | Deletion keeps the order of the remaining keys: an absent key leaves the dict unchanged, and with unique keys exactly the entry at the key's position is removed. |
| Domain.PutKeepsOk | WebAPP/app.py:218-227 | Assigning a well-formed group keeps every group well formed and the keys unique. |
| Domain.RemoveIdKeepsOk | WebAPP/app.py:123 | Deleting a group keeps the store invariant. |
| Domain.PutSameMembershipKeepsOk | WebAPP/app.py:347 | Replacing a group by one with the same admin, members and requests keeps the store invariant. |
| Membership.NewGroup | WebAPP/app.py:218-227 | A new group has the creator as admin and only member, exactly one invite code, no posts, requests or pool, and is well formed. |
| Membership.CreateGroup | WebAPP/app.py:218-227 | The new id maps to the new group; every other group is unchanged; the id is appended to the key order unless it already existed. |
| Membership.GenerateInvite | WebAPP/app.py:448-452 | Refused (nothing changes) exactly when the caller is not the admin of an existing group. Otherwise exactly one code is appended, all earlier codes are kept, and no other field or group changes. |
| Membership.FirstWithCode | WebAPP/app.py:238-239 | The first group in dict order that holds the code, or -1 if no group holds it. |
| Membership.Join | WebAPP/app.py:236-245 | InvalidCode exactly when no group holds the stripped code. AlreadyJoined exactly when the caller is a member of, or pending at, the first group holding it, even if a later group also holds the code. Otherwise the caller is appended to that group's requests only. |
| Membership.Approve | WebAPP/app.py:251-255 | The store changes exactly when the caller is the admin and the target is pending. Then the target is appended to members, its first request is removed, and nothing else changes. |
| Membership.Deny | WebAPP/app.py:261-264 | The store changes exactly when the caller is the admin and the target is pending. Then only the target's first request is removed. |
| Membership.Leave | WebAPP/app.py:417-422 | Refuses non-members (NotMember) and the admin (AdminCannotLeave). Otherwise removes the user's first occurrence from members and nothing else. |
| Membership.Kick | WebAPP/app.py:431-441 | Checks in order: group not found, caller not the admin, self-kick, target not a member; each refusal changes nothing. Otherwise removes the member's first occurrence. |
| Membership.DeleteGroup | WebAPP/app.py:113-123 | Outcomes by case: missing group; caller not the admin; caller not in the users dict (KeyError); wrong password. On a matching password hash, exactly that group's entry is removed; every other group is kept, in dict order. |
| Membership.JoinThenApprove | WebAPP/app.py:238-254 | After a successful join, the caller is pending at the chosen group. The admin's approval then makes the caller a member and leaves nothing pending for them. |
| Membership.CreateKeepsOk | WebAPP/app.py:218-227 | Creating a group keeps the invariant. |
| Membership.InviteKeepsOk | WebAPP/app.py:452 | Issuing a code keeps the invariant. |
| Membership.JoinKeepsOk | WebAPP/app.py:240-242 | The already-involved guard keeps members and requests disjoint and requests duplicate-free. |
| Membership.ApproveKeepsOk | WebAPP/app.py:253-254 | Approval keeps the invariant; the approved target becomes a member and is no longer pending. |
| Membership.DenyKeepsOk | WebAPP/app.py:263 | Denial keeps the invariant. |
| Membership.LeaveKeepsOk | WebAPP/app.py:419-421 | Leaving keeps the invariant, because the admin cannot leave. |
| Membership.KickKeepsOk | WebAPP/app.py:434-440 | Kicking keeps the invariant, because the admin cannot kick themselves. |
| Membership.DeleteKeepsOk | WebAPP/app.py:123 | Deleting a group keeps the invariant. |
| Content.AllowedNames | WebAPP/app.py:280-283 | A name is kept exactly when an upload that passed the extension check carries it, and there are never more names than uploads. |
| Content.AllowedNamesAppend | WebAPP/app.py:279-283 | The filter keeps upload order: filtering a concatenation concatenates the filtered parts. |
| Content.KeptImages | WebAPP/app.py:279-283 | At most four image names are kept, all taken from the first four uploads. With four uploads or fewer, the result is AllowedNames of all of them. |
| Content.KeptImagesIgnoresRest | WebAPP/app.py:279 | Uploads after the fourth never change which images a post keeps. |
| Content.PostMessage | WebAPP/app.py:271-298 | InvalidInput exactly when the stripped title or description is empty. Otherwise the post is refused unless the author is a member of an existing group. Then exactly one post is appended: stripped text, the kept images, no comments. Nothing else changes. |
| Content.Page | WebAPP/app.py:160-167 | At most five posts. Empty exactly when (page-1)*5 >= N; otherwise min(5, N-(page-1)*5) posts. Slot k shows storage position N-1-((page-1)*5+k). |
| Content.DisplayIndexOnPage | WebAPP/app.py:163-167 | Display index i shows on page i/5+1, in slot i%5, as the post at storage position N-1-i. |
| Content.MemberGroups | WebAPP/app.py:146 | The caller's groups are exactly the entries that list the caller as a member. The first of them is the first group in dict order that lists the caller. |
| Content.MemberGroupsAppend | WebAPP/app.py:146 | The filter keeps dict order: filtering a concatenation concatenates the filtered parts. |
| Content.DashboardView | WebAPP/app.py:146-169 | Shows no groups exactly when the user is in none. Otherwise: the remembered group if the user is still in it, else the first of the user's groups; the page of its posts; the total count; the requests for the admin only. |
| Content.StorageIndex | WebAPP/app.py:329 | Display index i among n posts is storage position n-1-i, which is within range. |
| Content.CommentAt | WebAPP/app.py:316-330 | The post at storage position N-1-i gains exactly the one comment, and all other posts are untouched. |
| Content.CommentLandsOnDisplayedPost | WebAPP/app.py:311-330 | In the newest-first view, exactly display position i gains the comment. |
| Content.AddComment | WebAPP/app.py:308-331 | Outcomes by case: missing group; display index out of range (checked against the current count); empty stripped text (only a re-render). Otherwise the comment (author `Anonymous` when asked, else the caller) is added by CommentAt, and only that group changes. |
| Content.AnonymousIsNoUser | WebAPP/app.py:324 | With lowercase user keys, the anonymous author name is no user key. |
| Content.DeletePost | WebAPP/app.py:402-409 | Outcomes by case: missing group; caller not the admin; storage index out of range. Otherwise exactly that storage position is removed from the posts, and nothing else changes. |
| Content.DeletePostDisplay | WebAPP/app.py:409 | In the newest-first view, deleting storage position j removes display position N-1-j, and the other posts keep their relative order. |
| Content.PostKeepsOk | WebAPP/app.py:289 | Posting keeps the invariant. |
| Content.CommentKeepsOk | WebAPP/app.py:330 | Commenting keeps the invariant. |
| Content.DeletePostKeepsOk | WebAPP/app.py:409 | Deleting a post keeps the invariant. |
| Ledger.SetupPool | WebAPP/app.py:341-351 | KeyError on an unknown group; refused for a non-admin. Otherwise the pool is replaced by {name, target, no contributions}, and nothing else changes. |
| Ledger.Contribute | WebAPP/app.py:362-369 | KeyError on an unknown group; NoPool when there is no pool. Otherwise exactly one unapproved pledge (caller, amount) is appended, and nothing else changes. |
| Ledger.ApproveContribution | WebAPP/app.py:379-389 | Checks in order: unknown group (KeyError); non-admin; missing pool (KeyError); index out of range. Otherwise that pledge gets the approved amount and `approved = true`, the count and every other pledge are unchanged. |
| Ledger.ApproveContributionIdempotent | WebAPP/app.py:386-389 | Repeating an approval with the same arguments changes nothing more. |
| Ledger.ApproveNewPledge | WebAPP/app.py:365-389 | A pledge followed by the admin's approval of it leaves the pool ending in that pledge, approved, at the corrected amount (or the original amount if none was given). |
| Ledger.SetupPoolKeepsOk | WebAPP/app.py:347 | Setting up a pool keeps the invariant. |
| Ledger.ContributeKeepsOk | WebAPP/app.py:365 | Pledging keeps the invariant. |
| Ledger.ApproveContributionKeepsOk | WebAPP/app.py:388-389 | Approving a pledge keeps the invariant. |
| Accounts.NameTakenIsKey | WebAPP/app.py:89 | With lowercase keys, the case-insensitive duplicate scan is a plain key test. |
| Accounts.NameKey | WebAPP/app.py:83-84 | The storage key is lowercase; it is empty exactly when the typed name is all whitespace. |
| Accounts.Register | WebAPP/app.py:83-96 | Refused exactly when some stored name equals the key ignoring case. Otherwise the key maps to {hash, no picture, trimmed name as typed}, every old account is kept, and keys stay lowercase. |
| Accounts.Login | WebAPP/app.py:64-70 | Succeeds exactly when an account with a non-empty name matches the trimmed input ignoring case and the password hashes to its stored hash; the session user is that key. |
| Accounts.RegisterThenLogin | WebAPP/app.py:64-96 | A registered name logs in under any letter case and surrounding spacing of it. |
| Accounts.RegisterRefusesCaseVariant | WebAPP/app.py:89 | Once a name is registered, every case variant of it is refused. |
| Accounts.Profile | WebAPP/app.py:466-494 | A rename to a name taken in any case is refused; an unknown session user is a KeyError. Otherwise the account moves to the new lowercase key and the session follows it, freeing the old key. A non-empty password is rehashed and an accepted upload replaces the picture. The display name ends as the submitted real name (line 494 overrides line 481). Every other account is kept, and keys stay lowercase. |
| Accounts.RenameFreesOldName | WebAPP/app.py:473-480 | After a rename, someone else can register the old name and log in under it. |
| WebApp.App.constructor | WebAPP/app.py:22-24 | No saved files: both dicts start empty. |
| WebApp.App.Register | WebAPP/app.py:78-99 | Changes the users dict as `Accounts.Register` does and keeps `Valid()`. |
| WebApp.App.Login | WebAPP/app.py:59-76 | Changes nothing; the session user is the matched lowercase key. |
| WebApp.App.Profile | WebAPP/app.py:461-497 | Changes users and the session name as `Accounts.Profile` does, keeps `Valid()`, and leaves the groups alone. |
| WebApp.App.CreateGroup | WebAPP/app.py:199-231 | Changes the groups as `Membership.CreateGroup` does and keeps `Valid()`. |
| WebApp.App.GenerateInvite | WebAPP/app.py:444-455 | Changes the groups as `Membership.GenerateInvite` does and keeps `Valid()`. |
| WebApp.App.JoinGroup | WebAPP/app.py:233-245 | The first-match scan loop produces exactly `Membership.Join`'s groups and outcome, and keeps `Valid()`. |
| WebApp.App.ApproveUser | WebAPP/app.py:247-256 | Changes the groups as `Membership.Approve` does and keeps `Valid()`. |
| WebApp.App.DenyUser | WebAPP/app.py:257-265 | Changes the groups as `Membership.Deny` does and keeps `Valid()`. |
| WebApp.App.LeaveGroup | WebAPP/app.py:413-425 | Changes the groups as `Membership.Leave` does and keeps `Valid()`. |
| WebApp.App.KickMember | WebAPP/app.py:427-442 | Changes the groups as `Membership.Kick` does and keeps `Valid()`. |
| WebApp.App.DeleteGroup | WebAPP/app.py:107-129 | Changes the groups as `Membership.DeleteGroup` does and keeps `Valid()`. |
| WebApp.App.Dashboard | WebAPP/app.py:141-185 | Changes nothing; shows at most five posts and the full post count. |
| WebApp.App.PostMessage | WebAPP/app.py:268-299 | Changes the groups as `Content.PostMessage` does and keeps `Valid()`. |
| WebApp.App.CommentOnPost | WebAPP/app.py:301-334 | Changes the groups as `Content.AddComment` does and keeps `Valid()`. |
| WebApp.App.DeletePost | WebAPP/app.py:398-411 | Changes the groups as `Content.DeletePost` does and keeps `Valid()`. |
| WebApp.App.SetupPool | WebAPP/app.py:336-354 | Changes the groups as `Ledger.SetupPool` does and keeps `Valid()`. |
| WebApp.App.Contribute | WebAPP/app.py:356-372 | Changes the groups as `Ledger.Contribute` does and keeps `Valid()`. |
| WebApp.App.ApproveContribution | WebAPP/app.py:374-392 | Changes the groups as `Ledger.ApproveContribution` does and keeps `Valid()`. |
| WebApp.RenameOrphansAdminRole | WebAPP/app.py:473-484 | An admin who renames is no longer admin under the new name, and their `setup_pool` is refused. A stranger who registers the old name logs in as that group's admin. |
| WebApp.PoolScenario | WebAPP/app.py:356-392 | Pool with target 100.0: bob pledges 20.0 and the admin approves it as 25.0. The pool then holds one pledge: bob, 25.0, approved. |

## Left out

- Seqs.RemoveFirst: Python's `list.remove(x)` raises ValueError when x is absent. Every handler that removes checks membership first (`WebAPP/app.py:252, 262, 417, 438`), so no handler reaches that case, and the model returns the list unchanged there instead of raising.
- Flask routing, the `before_request` login gate, sessions (`active_group`, `last_invite`), `flash`, redirects, templates and HTML messages. Outcomes are an enumeration instead; the remembered active group is an input to the dashboard.
- Routes with no domain logic (`index`, `about`, `logout`, `create_post`, `uploaded_file`, `select_group`), and the GET branches that only render a form.
- JSON persistence (`load_data`/`save_data`, `WebAPP/app.py:22-30`): the dicts live in the fields of `App`. Each request loads and saves whole files, so concurrent last-writer-wins races between requests are not modelled.
- SHA-256 (`WebAPP/app.py:32-36`): the hash is an uninterpreted function `hash: string -> string`.
- `secrets.token_hex` ids and codes, and `time.time()` timestamps: these are inputs.
- File uploads, `allowed_file` and `secure_filename` (`WebAPP/app.py:41-42, 214-216, 279-283, 489-492`). An upload is an `Upload(storedName, allowed)`. A profile picture is an optional stored name. A group image is a string input.
- Python float parsing and float comparison of amounts and targets (`WebAPP/app.py:345, 359, 386`). Amounts are Dafny `real`s, and a malformed number (ValueError) is not modelled.
- `datetimeformat` (`WebAPP/app.py:55-57`) and the unreachable lines `WebAPP/app.py:394-395`.
- Content.Page: requires page >= 1, so Python's slicing for page <= 0 and a non-numeric page parameter are not modelled.
- Text.Lower: maps ASCII letters only. Unicode case mapping is not modelled, so names differing only in non-ASCII case are treated as distinct.
- Accounts.Login: requires the users dict's keys to be lowercase. The model's map is unordered, so Python's "first matching key in dict order" is captured only under that invariant, which register and rename keep; with it there is at most one match.
- Dict `setdefault` calls on `posts`, `requests` and `invite_codes`: every stored group has these fields from creation, so the defaults never apply.
