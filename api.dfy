/**
 * The `/api/users` handlers of index.js. Each is a fixed chain of checks
 * that ends in a status code. A route is stated twice: as a function from the
 * users file to an `Outcome` (the answer and the file afterwards), and as a
 * method that runs the handler through the controller on a `UsersFile` and
 * is proved to agree with that function. Apart from the seed written by a
 * first read, only the last step of a route changes the file.
 *
 * This is where the collection invariant (ids pairwise distinct, e-mails
 * pairwise distinct) is kept: POST and PUT refuse an e-mail already in use
 * by another record, and new ids come from `GenerateNewId`.
 */
module Api {
  import opened Records
  import opened FileUtils
  import opened EmailFormat
  import UserController

  datatype Body = UserBody(user: User) | UserList(users: seq<User>) | Message(text: string)

  datatype Response = Response(status: int, body: Body)

  const FieldsRequired: string := "Le nom et l'email sont requis"
  const InvalidEmail: string := "Format d'email invalide"
  const EmailTaken: string := "Un utilisateur avec cet email existe déjà"
  const EmailTakenByOther: string := "Un autre utilisateur utilise déjà cet email"
  const UserNotFound: string := "Utilisateur non trouvé"
  const InternalError: string := "Erreur interne du serveur"
  const DeleteFailed: string := "Erreur lors de la suppression"
  const Deleted: string := "Utilisateur supprimé avec succès"

  /** A body field passes `!field` being false: it is there and is not the empty string. */
  predicate Present(field: Option<string>) {
    field.Some? && field.value != ""
  }

  /** Both fields are present and the address has the expected format: the 400 checks pass. */
  predicate PassesChecks(nom: Option<string>, email: Option<string>) {
    Present(nom) && Present(email) && IsEmailFormat(email.value)
  }

  /** The invariant of a persisted collection; files that hold no array read as `[]`. */
  ghost predicate StoreWellFormed(file: FileState) {
    file.Users? ==> WellFormed(file.users)
  }

  /** The e-mail is used by some record. */
  ghost predicate EmailInUse(us: seq<User>, email: string) {
    exists j | 0 <= j < |us| :: us[j].email == email
  }

  /** The e-mail is used by a record whose id is not `id`. */
  ghost predicate EmailUsedByOther(us: seq<User>, email: string, id: int) {
    exists j | 0 <= j < |us| :: us[j].email == email && us[j].id != id
  }

  // ---------------------------------------------------------------------------
  // The invariant across reads and the three kinds of change

  /** Reading a well-formed store yields a well-formed collection (the seed is one). */
  lemma ReadKeepsWellFormed(file: FileState, writable: bool)
    requires StoreWellFormed(file)
    ensures WellFormed(Read(file, writable).users)
    ensures StoreWellFormed(Read(file, writable).after)
  {
    SeedWellFormed();
  }

  /** Appending a record whose id exceeds every id and whose e-mail is unused keeps the invariant. */
  lemma AppendKeepsWellFormed(us: seq<User>, u: User)
    requires WellFormed(us)
    requires forall v | v in us :: v.id < u.id
    requires !EmailInUse(us, u.email)
    ensures WellFormed(us + [u])
  {
    var all := us + [u];
    assert forall j | 0 <= j < |us| :: all[j] == us[j] && all[j] in us;
  }

  /** Changing `nom` and `email` of record `k`, to an e-mail no other id holds, keeps the invariant. */
  lemma ReplaceKeepsWellFormed(us: seq<User>, k: int, nom: string, email: string)
    requires WellFormed(us) && 0 <= k < |us|
    requires !EmailUsedByOther(us, email, us[k].id)
    ensures WellFormed(us[k := us[k].(nom := nom, email := email)])
  {
    var all := us[k := us[k].(nom := nom, email := email)];
    forall a, b | 0 <= a < b < |all|
      ensures all[a].id != all[b].id && all[a].email != all[b].email
    {
      if a == k {
        assert us[b].id != us[k].id;
      } else if b == k {
        assert us[a].id != us[k].id;
      }
    }
  }

  /** Splicing a record out keeps the invariant. */
  lemma RemoveKeepsWellFormed(us: seq<User>, k: int)
    requires WellFormed(us) && 0 <= k < |us|
    ensures WellFormed(us[..k] + us[k + 1..])
  {
    var rest := us[..k] + us[k + 1..];
    assert forall j | 0 <= j < |rest| :: rest[j] == if j < k then us[j] else us[j + 1];
  }

  /** A record that keeps its own e-mail is not in conflict with anyone. */
  lemma OwnEmailIsNoConflict(us: seq<User>, k: int)
    requires WellFormed(us) && 0 <= k < |us|
    ensures !EmailUsedByOther(us, us[k].email, us[k].id)
  {
  }

  /** Every e-mail of the seed passes the format check. */
  lemma SeedEmailsWellFormatted()
    ensures forall u | u in DefaultUsers :: IsEmailFormat(u.email) && MatchesEmailPattern(u.email)
  {
    SeedEmailsMatch();
  }

  /** Every e-mail of the seed matches the regular expression. */
  lemma SeedEmailsMatch()
    ensures forall k | 0 <= k < |DefaultUsers| :: MatchesEmailPattern(DefaultUsers[k].email)
  {
    SeedEmailsMatch03();
    SeedEmailsMatch35();
    SeedEmailsMatch58();
    SeedEmailsMatch810();
  }

  lemma SeedEmailsMatch03()
    ensures forall k | 0 <= k < 3 :: MatchesEmailPattern(DefaultUsers[k].email)
  {
    SeedEmailsLow();
    SeedAddress1();
    SeedAddress2();
    SeedAddress3();
  }

  lemma SeedEmailsMatch35()
    ensures forall k | 3 <= k < 5 :: MatchesEmailPattern(DefaultUsers[k].email)
  {
    SeedEmailsLow();
    SeedAddress4();
    SeedAddress5();
  }

  lemma SeedEmailsMatch58()
    ensures forall k | 5 <= k < 8 :: MatchesEmailPattern(DefaultUsers[k].email)
  {
    SeedEmailsHigh();
    SeedAddress6();
    SeedAddress7();
    SeedAddress8();
  }

  lemma SeedEmailsMatch810()
    ensures forall k | 8 <= k < 10 :: MatchesEmailPattern(DefaultUsers[k].email)
  {
    SeedEmailsHigh();
    SeedAddress9();
    SeedAddress10();
  }

  // One lemma per seed address keeps each proof about a string literal small.
  lemma SeedAddress1() ensures MatchesEmailPattern("jean.dupont@email.com") { ShapedAddress("jean.dupont@email.com", 11, 17); }
  lemma SeedAddress2() ensures MatchesEmailPattern("marie.martin@email.com") { ShapedAddress("marie.martin@email.com", 12, 18); }
  lemma SeedAddress3() ensures MatchesEmailPattern("pierre.durand@email.com") { ShapedAddress("pierre.durand@email.com", 13, 19); }
  lemma SeedAddress4() ensures MatchesEmailPattern("sophie.bernard@email.com") { ShapedAddress("sophie.bernard@email.com", 14, 20); }
  lemma SeedAddress5() ensures MatchesEmailPattern("lucas.petit@email.com") { ShapedAddress("lucas.petit@email.com", 11, 17); }
  lemma SeedAddress6() ensures MatchesEmailPattern("emma.roux@email.com") { ShapedAddress("emma.roux@email.com", 9, 15); }
  lemma SeedAddress7() ensures MatchesEmailPattern("thomas.moreau@email.com") { ShapedAddress("thomas.moreau@email.com", 13, 19); }
  lemma SeedAddress8() ensures MatchesEmailPattern("julie.simon@email.com") { ShapedAddress("julie.simon@email.com", 11, 17); }
  lemma SeedAddress9() ensures MatchesEmailPattern("nicolas.michel@email.com") { ShapedAddress("nicolas.michel@email.com", 14, 20); }
  lemma SeedAddress10() ensures MatchesEmailPattern("camille.garcia@email.com") { ShapedAddress("camille.garcia@email.com", 14, 20); }

  // ---------------------------------------------------------------------------
  // What each route answers

  /** A route's HTTP answer and the users file once the route has run. */
  datatype Outcome = Outcome(resp: Response, after: FileState)

  /** GET /api/users (index.js lines 29-37): 200 with the collection as read; the read may seed the file. */
  function ListRoute(file: FileState, writable: bool): (o: Outcome)
    ensures o.resp.status == 200 && o.resp.body.UserList?
    ensures o.after.Users? ==> o.resp.body.users == o.after.users
    ensures !o.after.Users? ==> o.resp.body.users == []
    ensures file != Missing ==> o.after == file
    ensures o.after == Read(file, writable).after && o.resp.body.users == Read(file, writable).users
  {
    var read := Read(file, writable);
    Outcome(Response(200, UserList(read.users)), read.after)
  }

  /** GET /api/users/:id (index.js lines 39-53): 404 when no record has the id, else 200 with the first that has it. */
  function GetRoute(file: FileState, writable: bool, id: int): (o: Outcome)
    ensures o.after == Read(file, writable).after
    ensures var us := Read(file, writable).users;
      && (o.resp.status == 404 <==> forall j | 0 <= j < |us| :: us[j].id != id)
      && (o.resp.status == 404 ==> o.resp.body == Message(UserNotFound))
      && (o.resp.status != 404 ==>
            && o.resp.status == 200
            && exists k | 0 <= k < |us| :: o.resp.body == UserBody(us[k]) && us[k].id == id
                 && forall j | 0 <= j < k :: us[j].id != id)
  {
    var read := Read(file, writable);
    match Find(read.users, HasId(id))
    case None => Outcome(Response(404, Message(UserNotFound)), read.after)
    case Some(u) => Outcome(Response(200, UserBody(u)), read.after)
  }

  /**
   * POST /api/users (index.js lines 55-89): 400 for a missing field or a bad
   * address, 409 for an address in use, 201 with the created record, or 500
   * when the write fails.
   */
  function PostRoute(file: FileState, writable: bool, nom: Option<string>, email: Option<string>): (o: Outcome)
    ensures !Present(nom) || !Present(email) ==> o == Outcome(Response(400, Message(FieldsRequired)), file)
    ensures Present(nom) && Present(email) && !IsEmailFormat(email.value) ==>
      o == Outcome(Response(400, Message(InvalidEmail)), file)
    ensures var read := Read(file, writable);
            PassesChecks(nom, email) && EmailInUse(read.users, email.value) ==>
      o == Outcome(Response(409, Message(EmailTaken)), read.after)
    ensures var read := Read(file, writable);
            PassesChecks(nom, email) && !EmailInUse(read.users, email.value) && !writable ==>
      o == Outcome(Response(500, Message(InternalError)), file)
    ensures var read := Read(file, writable);
            PassesChecks(nom, email) && !EmailInUse(read.users, email.value) && writable ==>
      && o.resp.status == 201 && o.resp.body.UserBody?
      && var u := o.resp.body.user;
      && u.nom == nom.value && u.email == email.value && u.role == UserController.DefaultRole
      && u.id == GenerateNewId(read.users) && (forall v | v in read.users :: v.id < u.id)
      && o.after == Users(read.users + [u])
  {
    if !Present(nom) || !Present(email) then Outcome(Response(400, Message(FieldsRequired)), file)
    else if !IsEmailFormat(email.value) then Outcome(Response(400, Message(InvalidEmail)), file)
    else
      var read := Read(file, writable);
      if Find(read.users, HasEmail(email.value)).Some? then Outcome(Response(409, Message(EmailTaken)), read.after)
      else if !writable then Outcome(Response(500, Message(InternalError)), read.after)
      else
        var u := User(GenerateNewId(read.users), nom.value, email.value, UserController.DefaultRole);
        Outcome(Response(201, UserBody(u)), Users(read.users + [u]))
  }

  /**
   * PUT /api/users/:id (index.js lines 91-136): the field check and the
   * format check (400), then the target's existence (404), then the address
   * being held by a different id (409); only then is the record updated
   * (200), or 500 when the write fails.
   */
  function PutRoute(file: FileState, writable: bool, id: int, nom: Option<string>, email: Option<string>): (o: Outcome)
    ensures !Present(nom) || !Present(email) ==> o == Outcome(Response(400, Message(FieldsRequired)), file)
    ensures Present(nom) && Present(email) && !IsEmailFormat(email.value) ==>
      o == Outcome(Response(400, Message(InvalidEmail)), file)
    ensures var read := Read(file, writable);
            PassesChecks(nom, email) && (forall j | 0 <= j < |read.users| :: read.users[j].id != id) ==>
      o == Outcome(Response(404, Message(UserNotFound)), read.after)
    ensures var read := Read(file, writable);
            var k := FindIndex(read.users, HasId(id));
            PassesChecks(nom, email) && 0 <= k ==>
      if EmailUsedByOther(read.users, email.value, id) then
        o == Outcome(Response(409, Message(EmailTakenByOther)), read.after)
      else if !writable then
        o == Outcome(Response(500, Message(InternalError)), file)
      else
        && o.resp.status == 200 && o.resp.body.UserBody?
        && var u := o.resp.body.user;
        && u.id == id && u.role == read.users[k].role && u.nom == nom.value && u.email == email.value
        && o.after == Users(read.users[k := u])
  {
    if !Present(nom) || !Present(email) then Outcome(Response(400, Message(FieldsRequired)), file)
    else if !IsEmailFormat(email.value) then Outcome(Response(400, Message(InvalidEmail)), file)
    else
      var read := Read(file, writable);
      var k := FindIndex(read.users, HasId(id));
      NoIdIsMinusOne(read.users, id);
      if k == -1 then Outcome(Response(404, Message(UserNotFound)), read.after)
      else if Find(read.users, HeldByOther(email.value, id)).Some? then
        Outcome(Response(409, Message(EmailTakenByOther)), read.after)
      else if !writable then Outcome(Response(500, Message(InternalError)), read.after)
      else
        var u := read.users[k].(nom := nom.value, email := email.value);
        Outcome(Response(200, UserBody(u)), Users(read.users[k := u]))
  }

  /**
   * DELETE /api/users/:id (index.js lines 138-160): 404 when no record has
   * the id, 500 when `deleteUser` answers `false`, else 200 and the first
   * record with the id is gone.
   */
  function DeleteRoute(file: FileState, writable: bool, id: int): (o: Outcome)
    ensures var read := Read(file, writable);
            FindIndex(read.users, HasId(id)) == -1 ==>
      o == Outcome(Response(404, Message(UserNotFound)), read.after)
    ensures var read := Read(file, writable);
            var k := FindIndex(read.users, HasId(id));
            0 <= k ==>
      if !writable then
        o == Outcome(Response(500, Message(DeleteFailed)), file)
      else
        o == Outcome(Response(200, Message(Deleted)), Users(read.users[..k] + read.users[k + 1..]))
  {
    var read := Read(file, writable);
    var k := FindIndex(read.users, HasId(id));
    if k == -1 then Outcome(Response(404, Message(UserNotFound)), read.after)
    else if !writable then Outcome(Response(500, Message(DeleteFailed)), read.after)
    else Outcome(Response(200, Message(Deleted)), Users(read.users[..k] + read.users[k + 1..]))
  }

  /** DELETE answers 404, changing nothing but a missing file's seed, exactly when no record carries the id. */
  lemma DeleteUnknownIdIs404(file: FileState, writable: bool, id: int)
    ensures var read := Read(file, writable);
      && ((forall j | 0 <= j < |read.users| :: read.users[j].id != id) <==> DeleteRoute(file, writable, id).resp.status == 404)
      && (DeleteRoute(file, writable, id).resp.status == 404 ==> DeleteRoute(file, writable, id).after == read.after)
  {
    NoIdIsMinusOne(Read(file, writable).users, id);
  }

  // ---------------------------------------------------------------------------
  // The invariant across every route

  /** Neither GET route changes a well-formed store into an ill-formed one. */
  lemma GetRoutesKeepWellFormed(file: FileState, writable: bool, id: int)
    requires StoreWellFormed(file)
    ensures StoreWellFormed(ListRoute(file, writable).after)
    ensures StoreWellFormed(GetRoute(file, writable, id).after)
  {
    ReadKeepsWellFormed(file, writable);
  }

  /** POST keeps ids and e-mails pairwise distinct. */
  lemma PostKeepsWellFormed(file: FileState, writable: bool, nom: Option<string>, email: Option<string>)
    requires StoreWellFormed(file)
    ensures StoreWellFormed(PostRoute(file, writable, nom, email).after)
  {
    var o := PostRoute(file, writable, nom, email);
    var read := Read(file, writable);
    ReadKeepsWellFormed(file, writable);
    if o.resp.status == 201 {
      AppendKeepsWellFormed(read.users, o.resp.body.user);
    }
  }

  /** PUT keeps ids and e-mails pairwise distinct. */
  lemma PutKeepsWellFormed(file: FileState, writable: bool, id: int, nom: Option<string>, email: Option<string>)
    requires StoreWellFormed(file)
    ensures StoreWellFormed(PutRoute(file, writable, id, nom, email).after)
  {
    var o := PutRoute(file, writable, id, nom, email);
    var read := Read(file, writable);
    ReadKeepsWellFormed(file, writable);
    if o.resp.status == 200 {
      ReplaceKeepsWellFormed(read.users, FindIndex(read.users, HasId(id)), nom.value, email.value);
    }
  }

  /** DELETE keeps ids and e-mails pairwise distinct. */
  lemma DeleteKeepsWellFormed(file: FileState, writable: bool, id: int)
    requires StoreWellFormed(file)
    ensures StoreWellFormed(DeleteRoute(file, writable, id).after)
  {
    var read := Read(file, writable);
    var k := FindIndex(read.users, HasId(id));
    ReadKeepsWellFormed(file, writable);
    if 0 <= k && writable {
      RemoveKeepsWellFormed(read.users, k);
    }
  }

  // ---------------------------------------------------------------------------
  // Refusals change no record

  /**
   * A POST that did not create a record leaves the collection as it was read;
   * the file itself changes only if it was missing and the seed got written.
   */
  lemma PostRefusalKeepsRecords(file: FileState, writable: bool, nom: Option<string>, email: Option<string>)
    ensures var o := PostRoute(file, writable, nom, email);
            o.resp.status != 201 ==>
      && Read(o.after, writable).users == Read(file, writable).users
      && (file != Missing ==> o.after == file)
  {
    ReadIdempotent(file, writable);
  }

  /** A PUT that did not answer 200 leaves the collection as it was read. */
  lemma PutRefusalKeepsRecords(file: FileState, writable: bool, id: int, nom: Option<string>, email: Option<string>)
    ensures var o := PutRoute(file, writable, id, nom, email);
            o.resp.status != 200 ==>
      && Read(o.after, writable).users == Read(file, writable).users
      && (file != Missing ==> o.after == file)
  {
    ReadIdempotent(file, writable);
  }

  /** A DELETE that did not answer 200 leaves the collection as it was read. */
  lemma DeleteRefusalKeepsRecords(file: FileState, writable: bool, id: int)
    ensures var o := DeleteRoute(file, writable, id);
            o.resp.status != 200 ==>
      && Read(o.after, writable).users == Read(file, writable).users
      && (file != Missing ==> o.after == file)
  {
    ReadIdempotent(file, writable);
  }

  /** In a well-formed store, a PUT that resubmits the record's own e-mail is never refused as a conflict. */
  lemma PutOwnEmailIsNoConflict(file: FileState, writable: bool, id: int, nom: Option<string>)
    requires StoreWellFormed(file)
    requires var us := Read(file, writable).users;
             var k := FindIndex(us, HasId(id));
             0 <= k && PassesChecks(nom, Some(us[k].email))
    ensures PutRoute(file, writable, id, nom, Some(Read(file, writable).users[FindIndex(Read(file, writable).users, HasId(id))].email)).resp.status != 409
  {
    var us := Read(file, writable).users;
    var k := FindIndex(us, HasId(id));
    ReadKeepsWellFormed(file, writable);
    OwnEmailIsNoConflict(us, k);
    assert us[k].id == id;
  }

  // ---------------------------------------------------------------------------
  // Routes in sequence

  /** A record just created by POST is what GET /api/users/:id answers for its id. */
  lemma PostThenGet(file: FileState, writable: bool, nom: Option<string>, email: Option<string>)
    requires PostRoute(file, writable, nom, email).resp.status == 201
    ensures var o := PostRoute(file, writable, nom, email);
            GetRoute(o.after, writable, o.resp.body.user.id) == Outcome(Response(200, o.resp.body), o.after)
  {
    var o := PostRoute(file, writable, nom, email);
    PostSucceeded(file, writable, nom, email);
    GetAfterAppend(Read(file, writable).users, o.resp.body.user, writable);
  }

  /** What a POST that answered 201 leaves behind: the new record, above every id, appended. */
  lemma PostSucceeded(file: FileState, writable: bool, nom: Option<string>, email: Option<string>)
    requires PostRoute(file, writable, nom, email).resp.status == 201
    ensures var us := Read(file, writable).users;
            var o := PostRoute(file, writable, nom, email);
      && o.resp.body.UserBody?
      && (forall v | v in us :: v.id < o.resp.body.user.id)
      && o.after == Users(us + [o.resp.body.user])
  {
    assert PassesChecks(nom, email) && !EmailInUse(Read(file, writable).users, email.value) && writable;
  }

  /** Appending a record with an id above every other makes GET for that id answer with it. */
  lemma GetAfterAppend(us: seq<User>, u: User, writable: bool)
    requires forall v | v in us :: v.id < u.id
    ensures GetRoute(Users(us + [u]), writable, u.id) == Outcome(Response(200, UserBody(u)), Users(us + [u]))
  {
    UserController.CreatedIsFound(us, u);
  }

  /** In a well-formed store, once DELETE has answered 200 a GET for that id answers 404. */
  lemma DeleteThenGet(file: FileState, writable: bool, id: int)
    requires StoreWellFormed(file)
    requires DeleteRoute(file, writable, id).resp.status == 200
    ensures var o := DeleteRoute(file, writable, id);
            GetRoute(o.after, writable, id) == Outcome(Response(404, Message(UserNotFound)), o.after)
  {
    var read := Read(file, writable);
    var k := FindIndex(read.users, HasId(id));
    ReadKeepsWellFormed(file, writable);
    UserController.DeletedIsGone(read.users, k);
  }

  /** A PUT that answered 200 is seen by a following GET for that id. */
  lemma PutThenGet(file: FileState, writable: bool, id: int, nom: Option<string>, email: Option<string>)
    requires PutRoute(file, writable, id, nom, email).resp.status == 200
    ensures var o := PutRoute(file, writable, id, nom, email);
            GetRoute(o.after, writable, id) == Outcome(Response(200, o.resp.body), o.after)
  {
    var us := Read(file, writable).users;
    var o := PutRoute(file, writable, id, nom, email);
    PutSucceeded(file, writable, id, nom, email);
    GetAfterReplace(us, FindIndex(us, HasId(id)), o.resp.body.user, writable);
  }

  /** Putting a record with the same id at the id's first index makes GET answer with it. */
  lemma GetAfterReplace(us: seq<User>, k: int, u: User, writable: bool)
    requires 0 <= k < |us| && FindIndex(us, HasId(u.id)) == k
    ensures GetRoute(Users(us[k := u]), writable, u.id) == Outcome(Response(200, UserBody(u)), Users(us[k := u]))
  {
    UserController.UpdatedIsFound(us, k, u);
  }

  /** What a PUT that answered 200 leaves behind: the record at the id's first index replaced. */
  lemma PutSucceeded(file: FileState, writable: bool, id: int, nom: Option<string>, email: Option<string>)
    requires PutRoute(file, writable, id, nom, email).resp.status == 200
    ensures var us := Read(file, writable).users;
            var k := FindIndex(us, HasId(id));
            var o := PutRoute(file, writable, id, nom, email);
      && 0 <= k && o.resp.body.UserBody? && o.resp.body.user.id == id
      && o.after == Users(us[k := o.resp.body.user])
  {
    assert PassesChecks(nom, email);
  }

  // ---------------------------------------------------------------------------
  // The handlers, on the users file

  /** The GET /api/users handler: answers and updates the file as `ListRoute` says. */
  method ListUsers(f: UsersFile) returns (resp: Response)
    modifies f`content
    ensures Outcome(resp, f.content) == ListRoute(old(f.content), f.writable)
  {
    var users := UserController.GetAllUsers(f);
    resp := Response(200, UserList(users));
  }

  /** The GET /api/users/:id handler, through `getUserById`. */
  method GetUser(f: UsersFile, id: int) returns (resp: Response)
    modifies f`content
    ensures Outcome(resp, f.content) == GetRoute(old(f.content), f.writable, id)
  {
    var user := UserController.GetUserById(f, id);
    if user.None? {
      resp := Response(404, Message(UserNotFound));
    } else {
      resp := Response(200, UserBody(user.value));
    }
  }

  /** The POST /api/users handler, through `getAllUsers` and `createUser`. */
  method PostUser(f: UsersFile, nom: Option<string>, email: Option<string>) returns (resp: Response)
    modifies f`content
    ensures Outcome(resp, f.content) == PostRoute(old(f.content), f.writable, nom, email)
  {
    if !Present(nom) || !Present(email) {
      return Response(400, Message(FieldsRequired));
    }
    if !IsEmailFormat(email.value) {
      return Response(400, Message(InvalidEmail));
    }
    ReadIdempotent(f.content, f.writable);
    var users := UserController.GetAllUsers(f);
    if Find(users, HasEmail(email.value)).Some? {
      return Response(409, Message(EmailTaken));
    }
    var created := UserController.CreateUser(f, nom.value, email.value);
    if created.Failure? {
      return Response(500, Message(InternalError));
    }
    return Response(201, UserBody(created.value));
  }

  /** The PUT /api/users/:id handler, through `getUserById`, `getAllUsers` and `updateUser`. */
  method PutUser(f: UsersFile, id: int, nom: Option<string>, email: Option<string>) returns (resp: Response)
    modifies f`content
    ensures Outcome(resp, f.content) == PutRoute(old(f.content), f.writable, id, nom, email)
  {
    if !Present(nom) || !Present(email) {
      return Response(400, Message(FieldsRequired));
    }
    if !IsEmailFormat(email.value) {
      return Response(400, Message(InvalidEmail));
    }
    ReadIdempotent(f.content, f.writable);
    var existing := UserController.GetUserById(f, id);
    if existing.None? {
      return Response(404, Message(UserNotFound));
    }
    var users := UserController.GetAllUsers(f);
    if Find(users, HeldByOther(email.value, id)).Some? {
      return Response(409, Message(EmailTakenByOther));
    }
    var updated := UserController.UpdateUser(f, id, nom.value, email.value);
    if updated.Failure? {
      return Response(500, Message(InternalError));
    }
    return Response(200, UserBody(updated.value));
  }

  /** The DELETE /api/users/:id handler, through `getUserById` and `deleteUser`. */
  method DeleteUser(f: UsersFile, id: int) returns (resp: Response)
    modifies f`content
    ensures Outcome(resp, f.content) == DeleteRoute(old(f.content), f.writable, id)
  {
    ReadIdempotent(f.content, f.writable);
    var existing := UserController.GetUserById(f, id);
    if existing.None? {
      return Response(404, Message(UserNotFound));
    }
    var deleted := UserController.DeleteUser(f, id);
    if !deleted {
      return Response(500, Message(DeleteFailed));
    }
    return Response(200, Message(Deleted));
  }
}
