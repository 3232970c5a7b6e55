/**
 * The user service (controllers/userController.js). Every operation reads
 * the whole collection from the users file, changes it in memory (push,
 * indexed replace, splice) and writes it back whole.
 *
 * The error contracts differ on purpose: creation and update raise (here a
 * `Failure` result), deletion answers `false`, and the reads answer `[]` or
 * nothing.
 */
module UserController {
  import opened Records
  import opened FileUtils

  /** The role every created record gets. */
  const DefaultRole: string := "utilisateur"

  /** The errors `createUser` and `updateUser` raise. */
  datatype ControllerError =
    | CreationFailed   // "Impossible de créer l'utilisateur"
    | UpdateFailed     // "Impossible de modifier l'utilisateur", for a missing id as for a failed write

  /** `getAllUsers`: the collection as read; `readUsersFile` never raises, so neither does this. */
  method GetAllUsers(f: UsersFile) returns (users: seq<User>)
    modifies f`content
    ensures users == Read(old(f.content), f.writable).users
    ensures f.content == Read(old(f.content), f.writable).after
  {
    users := f.ReadUsersFile();
  }

  /** `getUserById`: the first record with that id, or nothing. */
  method GetUserById(f: UsersFile, id: int) returns (u: Option<User>)
    modifies f`content
    ensures u == Find(Read(old(f.content), f.writable).users, HasId(id))
    ensures f.content == Read(old(f.content), f.writable).after
  {
    var users := f.ReadUsersFile();
    u := Find(users, HasId(id));
  }

  /**
   * `createUser`: appends a record with a fresh id and the default role and
   * persists the collection; a failed write raises.
   */
  method CreateUser(f: UsersFile, nom: string, email: string) returns (r: Result<User, ControllerError>)
    modifies f`content
    ensures var before := Read(old(f.content), f.writable).users;
      && (r.Success? <==> f.writable)
      && (r.Success? ==>
            && r.value == User(GenerateNewId(before), nom, email, DefaultRole)
            && (forall u | u in before :: u.id < r.value.id)
            && f.content == Users(before + [r.value]))
      && (r.Failure? ==> r.error == CreationFailed && f.content == old(f.content))
  {
    var users := f.ReadUsersFile();
    var newUser := User(GenerateNewId(users), nom, email, DefaultRole);
    users := users + [newUser];
    var ok := f.WriteUsersFile(users);
    if !ok {
      return Failure(CreationFailed);
    }
    return Success(newUser);
  }

  /**
   * `updateUser`: replaces `nom` and `email` of the first record with that id,
   * keeping its id and role, and persists the collection. An unknown id
   * raises before anything is written; so does a failed write.
   */
  method UpdateUser(f: UsersFile, id: int, nom: string, email: string) returns (r: Result<User, ControllerError>)
    modifies f`content
    ensures var read := Read(old(f.content), f.writable);
            var k := FindIndex(read.users, HasId(id));
      && (r.Success? <==> 0 <= k && f.writable)
      && (r.Success? ==>
            && r.value == read.users[k].(nom := nom, email := email)
            && f.content == Users(read.users[k := r.value]))
      && (r.Failure? ==> r.error == UpdateFailed && f.content == read.after)
  {
    var users := f.ReadUsersFile();
    var k := FindIndex(users, HasId(id));
    if k == -1 {
      return Failure(UpdateFailed);
    }
    users := users[k := users[k].(nom := nom, email := email)];
    var ok := f.WriteUsersFile(users);
    if !ok {
      return Failure(UpdateFailed);
    }
    return Success(users[k]);
  }

  /**
   * `deleteUser`: splices out the first record with that id and persists the
   * collection. An unknown id, like a failed write, answers `false`.
   */
  method DeleteUser(f: UsersFile, id: int) returns (deleted: bool)
    modifies f`content
    ensures var read := Read(old(f.content), f.writable);
            var k := FindIndex(read.users, HasId(id));
      && (deleted <==> 0 <= k && f.writable)
      && (deleted ==> f.content == Users(read.users[..k] + read.users[k + 1..]))
      && (!deleted ==> f.content == read.after)
  {
    var users := f.ReadUsersFile();
    var k := FindIndex(users, HasId(id));
    if k == -1 {
      return false;
    }
    users := users[..k] + users[k + 1..];
    deleted := f.WriteUsersFile(users);
  }

  /** A record just appended with a fresh id is what a lookup by that id finds. */
  lemma CreatedIsFound(us: seq<User>, u: User)
    requires forall v | v in us :: v.id < u.id
    ensures Find(us + [u], HasId(u.id)) == Some(u)
  {
    var all := us + [u];
    assert all[|us|] == u;
    assert forall j | 0 <= j < |us| :: all[j] in us;
  }

  /** A record written over the first one with its id is what a lookup by that id finds. */
  lemma UpdatedIsFound(us: seq<User>, k: int, u: User)
    requires 0 <= k < |us| && FindIndex(us, HasId(u.id)) == k
    ensures Find(us[k := u], HasId(u.id)) == Some(u)
  {
    var all := us[k := u];
    assert forall j | 0 <= j < k :: all[j] == us[j] && !HasId(u.id)(all[j]);
    FindIndexIsFirst(all, HasId(u.id), k);
  }

  /** Once the first record with an id is spliced out, no record with that id remains. */
  lemma DeletedIsGone(us: seq<User>, k: int)
    requires IdsUnique(us) && 0 <= k < |us|
    ensures Find(us[..k] + us[k + 1..], HasId(us[k].id)) == None
  {
    var rest := us[..k] + us[k + 1..];
    forall j | 0 <= j < |rest|
      ensures rest[j].id != us[k].id
    {
      if j < k {
        assert rest[j] == us[j];
      } else {
        assert rest[j] == us[j + 1];
      }
    }
  }

  /** Replacing `nom` and `email` of record `k` keeps the length, the record's id and role, and every other record. */
  lemma ReplaceKeepsOthers(us: seq<User>, k: int, nom: string, email: string)
    requires 0 <= k < |us|
    ensures var after := us[k := us[k].(nom := nom, email := email)];
      && |after| == |us|
      && after[k] == User(us[k].id, nom, email, us[k].role)
      && forall j | 0 <= j < |us| && j != k :: after[j] == us[j]
  {
  }

  /** Splicing out index `k` shortens the collection by one and keeps the others in order. */
  lemma SpliceKeepsOrder(us: seq<User>, k: int)
    requires 0 <= k < |us|
    ensures |us[..k] + us[k + 1..]| == |us| - 1
    ensures forall j | 0 <= j < |us| - 1 :: (us[..k] + us[k + 1..])[j] == if j < k then us[j] else us[j + 1]
  {
  }
}
