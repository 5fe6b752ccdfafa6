/**
 * The user registry: a dict from lowercased user name to the account
 * record, written by `register` and by the rename in `profile`, read by
 * `login`. `register` and `login` trim the typed name and compare it
 * case-insensitively; the rename in `profile` compares case-insensitively
 * but does not trim the new name.
 */
module Accounts {
  import opened Text
  import opened Domain

  type Users = map<string, User>

  /** The users dict after a handler, the session's user name, and the handler's answer. */
  datatype Session = Session(users: Users, username: string, outcome: Outcome)

  /** Some stored name lowercases to key: the duplicate test of `register` and `profile`. */
  predicate NameTaken(users: Users, key: string) {
    exists u :: u in users && Lower(u) == key
  }

  /** With lowercase keys, the case-insensitive duplicate test is a plain key test. */
  lemma NameTakenIsKey(users: Users, key: string)
    requires KeysLower(users) && Lower(key) == key
    ensures NameTaken(users, key) <==> key in users
  {
    if key in users {
      assert Lower(key) == key;
    }
  }

  /** The key a typed name is stored and looked up under. */
  function NameKey(input: string): (k: string)
    ensures Lower(k) == k
    ensures k == [] <==> AllSpace(input)
  {
    LowerIdempotent(Strip(input));
    Lower(Strip(input))
  }

  /**
   * `register`: refuses a name that is taken in any letter case; otherwise
   * stores a fresh account under the lowercased key, keeping the trimmed
   * name as typed for display. Every other account is left as it was.
   */
  function Register(users: Users, input: string, password: string, hash: string -> string): (r: Session)
    ensures r.outcome == UserExists <==> NameTaken(users, NameKey(input))
    ensures r.outcome == Done <==> !NameTaken(users, NameKey(input))
    ensures r.outcome == UserExists ==> r.users == users
    ensures r.outcome == Done ==>
      && NameKey(input) !in users
      && NameKey(input) in r.users
      && r.users[NameKey(input)] == User(hash(password), "", Strip(input))
      && r.users.Keys == users.Keys + {NameKey(input)}
      && forall u :: u in users ==> r.users[u] == users[u]
    ensures KeysLower(users) ==> KeysLower(r.users)
  {
    var key := NameKey(input);
    if NameTaken(users, key) then Session(users, "", UserExists)
    else
      assert key in users ==> Lower(key) == key;
      Session(users[key := User(hash(password), "", Strip(input))], "", Done)
  }

  /**
   * `login`: the first stored name that lowercases to the trimmed, lowercased
   * input, provided that name is not empty (an empty string is false in
   * Python) and the password hashes to the stored hash. The dict is modelled
   * unordered, so the lowercase-key invariant is required to make that first
   * match the only one.
   */
  function Login(users: Users, input: string, password: string, hash: string -> string): (r: Option<string>)
    requires KeysLower(users)
    ensures r.Some? <==>
      exists u :: u in users && u != "" && Lower(u) == NameKey(input) && users[u].passwordHash == hash(password)
    ensures r.Some? ==>
      r.value in users && Lower(r.value) == NameKey(input) && users[r.value].passwordHash == hash(password)
    ensures AllSpace(input) ==> r.None?
  {
    var name := NameKey(input);
    if name != "" && name in users && users[name].passwordHash == hash(password) then Some(name)
    else
      assert forall u :: u in users && Lower(u) == name ==> u == name;
      None
  }

  /** Registering a name lets its owner log in under any letter case and spacing of it. */
  lemma RegisterThenLogin(users: Users, input: string, password: string, hash: string -> string, typed: string)
    requires KeysLower(users)
    requires Register(users, input, password, hash).outcome == Done
    requires !AllSpace(input)
    requires NameKey(typed) == NameKey(input)
    ensures Login(Register(users, input, password, hash).users, typed, password, hash) == Some(NameKey(input))
  {
    var r := Register(users, input, password, hash);
    var key := NameKey(input);
    assert key in r.users && key != "" && r.users[key].passwordHash == hash(password);
  }

  /** Once a name is registered, every case variant of it is refused. */
  lemma RegisterRefusesCaseVariant(users: Users, input: string, password: string, hash: string -> string,
                                   other: string, otherPassword: string)
    requires Register(users, input, password, hash).outcome == Done
    requires NameKey(other) == NameKey(input)
    ensures Register(Register(users, input, password, hash).users, other, otherPassword, hash).outcome == UserExists
  {
    var r := Register(users, input, password, hash);
    var key := NameKey(input);
    assert key in r.users && Lower(key) == key;
  }

  /** The rename branch of `profile` is taken: a non-empty new name differing from the current one ignoring case. */
  predicate Renaming(username: string, newUsername: string) {
    newUsername != "" && Lower(newUsername) != Lower(username)
  }

  /**
   * `profile` (POST), in the source's order: a rename to a name taken in any
   * case is refused before anything else; then the session's account must
   * exist (otherwise a KeyError); a rename moves the account to the new
   * lowercase key and the session follows it; a non-empty password is
   * rehashed; an accepted upload replaces the picture; finally the display
   * name is set to the submitted real name, overriding the one the rename set.
   */
  function Profile(users: Users, username: string, realName: string, newUsername: string,
                   newPassword: string, image: Option<string>, hash: string -> string): (r: Session)
    ensures r.outcome == UserExists <==>
      Renaming(username, newUsername) && NameTaken(users, Lower(newUsername))
    ensures r.outcome == Crashed <==>
      !(Renaming(username, newUsername) && NameTaken(users, Lower(newUsername))) && username !in users
    ensures r.outcome == Done <==>
      !(Renaming(username, newUsername) && NameTaken(users, Lower(newUsername))) && username in users
    ensures r.outcome != Done ==> r.users == users && r.username == username
    ensures r.outcome == Done ==>
      && r.username == (if Renaming(username, newUsername) then Lower(newUsername) else username)
      && r.username in r.users
      && r.users[r.username].realName == realName
      && r.users[r.username].passwordHash ==
           (if newPassword != "" then hash(newPassword) else users[username].passwordHash)
      && r.users[r.username].profileImage ==
           (if image.Some? then image.value else users[username].profileImage)
    ensures r.outcome == Done && Renaming(username, newUsername) ==>
      username !in r.users && r.users.Keys == users.Keys - {username} + {r.username}
    ensures r.outcome == Done && !Renaming(username, newUsername) ==> r.users.Keys == users.Keys
    ensures r.outcome == Done ==>
      forall u :: u in users && u != username ==> u in r.users && r.users[u] == users[u]
    ensures KeysLower(users) ==> KeysLower(r.users)
  {
    var renaming := Renaming(username, newUsername);
    if renaming && NameTaken(users, Lower(newUsername)) then Session(users, username, UserExists)
    else if username !in users then Session(users, username, Crashed)
    else
      var key := if renaming then Lower(newUsername) else username;
      LowerIdempotent(newUsername);
      assert renaming ==> key != username && key !in users;
      var moved := if renaming then (users - {username})[key := users[username].(realName := newUsername)] else users;
      var rec := moved[key];
      var withPassword := if newPassword != "" then rec.(passwordHash := hash(newPassword)) else rec;
      var withImage := if image.Some? then withPassword.(profileImage := image.value) else withPassword;
      Session(moved[key := withImage.(realName := realName)], key, Done)
  }

  /**
   * After a rename the old key is free again: someone else can register it
   * and then log in under it with their own password.
   */
  lemma RenameFreesOldName(users: Users, username: string, realName: string, newUsername: string,
                           newPassword: string, image: Option<string>, hash: string -> string,
                           stranger: string, strangerPassword: string)
    requires KeysLower(users)
    requires Profile(users, username, realName, newUsername, newPassword, image, hash).outcome == Done
    requires Renaming(username, newUsername)
    requires username != "" && NameKey(stranger) == username
    ensures
      var renamed := Profile(users, username, realName, newUsername, newPassword, image, hash).users;
      var reg := Register(renamed, stranger, strangerPassword, hash);
      && reg.outcome == Done
      && Login(reg.users, stranger, strangerPassword, hash) == Some(username)
  {
    var p := Profile(users, username, realName, newUsername, newPassword, image, hash);
    NameTakenIsKey(p.users, username);
    var reg := Register(p.users, stranger, strangerPassword, hash);
    assert !AllSpace(stranger);
    RegisterThenLogin(p.users, stranger, strangerPassword, hash, stranger);
  }
}
