/**
 * The record store (utils/fileUtils.js): the persisted users file, read and
 * written whole, and the allocation of fresh ids.
 *
 * The file's text is abstracted to what `readUsersFile` can tell apart: no
 * file, a JSON document that is not an array, text that does not parse, or
 * an array of records. Whether the disk accepts writes is a fact of the
 * environment, kept in the `writable` field.
 */
module FileUtils {
  import opened Records

  datatype FileState = Missing | NotAnArray | Unparsable | Users(users: seq<User>)

  /** What one call of `readUsersFile` returns, and the file afterwards. */
  datatype ReadOutcome = ReadOutcome(users: seq<User>, after: FileState)

  /** The ten records written when no users file exists. */
  const DefaultUsers: seq<User> := [
    User(1, "Jean Dupont", "jean.dupont@email.com", "admin"),
    User(2, "Marie Martin", "marie.martin@email.com", "modérateur"),
    User(3, "Pierre Durand", "pierre.durand@email.com", "utilisateur"),
    User(4, "Sophie Bernard", "sophie.bernard@email.com", "utilisateur"),
    User(5, "Lucas Petit", "lucas.petit@email.com", "utilisateur"),
    User(6, "Emma Roux", "emma.roux@email.com", "utilisateur"),
    User(7, "Thomas Moreau", "thomas.moreau@email.com", "utilisateur"),
    User(8, "Julie Simon", "julie.simon@email.com", "utilisateur"),
    User(9, "Nicolas Michel", "nicolas.michel@email.com", "utilisateur"),
    User(10, "Camille Garcia", "camille.garcia@email.com", "utilisateur")
  ]

  /**
   * `readUsersFile`: a missing file is created with the seed (if the write
   * fails, the error is caught and the read yields `[]`); a document that is
   * not an array, or does not parse, reads as `[]`. It never raises.
   */
  function Read(file: FileState, writable: bool): (r: ReadOutcome)
    ensures r.after.Users? ==> r.users == r.after.users
    ensures !r.after.Users? ==> r.users == []
    ensures file != Missing ==> r.after == file
    ensures file == Missing ==> r.after == if writable then Users(DefaultUsers) else Missing
  {
    match file
    case Missing => if writable then ReadOutcome(DefaultUsers, Users(DefaultUsers)) else ReadOutcome([], Missing)
    case NotAnArray => ReadOutcome([], file)
    case Unparsable => ReadOutcome([], file)
    case Users(us) => ReadOutcome(us, file)
  }

  /** `Math.max(...users.map(user => user.id))` */
  function MaxId(us: seq<User>): (m: int)
    requires |us| > 0
    ensures forall u | u in us :: u.id <= m
    ensures exists u | u in us :: u.id == m
  {
    if |us| == 1 then us[0].id
    else
      var rest := MaxId(us[1..]);
      assert forall u | u in us[1..] :: u in us;
      if us[0].id > rest then us[0].id else rest
  }

  /** `generateNewId`: one more than the largest id, or 1 for an empty collection. */
  function GenerateNewId(us: seq<User>): (id: int)
    ensures |us| == 0 ==> id == 1
    ensures forall u | u in us :: u.id < id
    ensures |us| > 0 ==> exists u | u in us :: id == u.id + 1
    ensures (forall u | u in us :: u.id >= 0) ==> id >= 1
  {
    if |us| == 0 then 1 else MaxId(us) + 1
  }

  /** The seed has ids 1 to 10 in order and is a well-formed collection. */
  lemma SeedWellFormed()
    ensures |DefaultUsers| == 10
    ensures forall k | 0 <= k < |DefaultUsers| :: DefaultUsers[k].id == k + 1
    ensures WellFormed(DefaultUsers)
  {
    SeedEmailsDistinct();
  }

  /** No two seed records share an e-mail. */
  lemma SeedEmailsDistinct()
    ensures EmailsUnique(DefaultUsers)
  {
    SeedEmailsLow();
    SeedEmailsHigh();
  }

  /** The seed's addresses, read off the constant. */
  lemma SeedEmailsLow()
    ensures DefaultUsers[0].email == "jean.dupont@email.com"
         && DefaultUsers[1].email == "marie.martin@email.com"
         && DefaultUsers[2].email == "pierre.durand@email.com"
         && DefaultUsers[3].email == "sophie.bernard@email.com"
         && DefaultUsers[4].email == "lucas.petit@email.com"
  {
  }

  lemma SeedEmailsHigh()
    ensures DefaultUsers[5].email == "emma.roux@email.com"
         && DefaultUsers[6].email == "thomas.moreau@email.com"
         && DefaultUsers[7].email == "julie.simon@email.com"
         && DefaultUsers[8].email == "nicolas.michel@email.com"
         && DefaultUsers[9].email == "camille.garcia@email.com"
  {
  }

  /** Writing `us` and reading back yields `us`, and the read leaves the file as written. */
  lemma ReadAfterWrite(us: seq<User>, writable: bool)
    ensures Read(Users(us), writable) == ReadOutcome(us, Users(us))
  {
  }

  /** A second read returns what the first returned and changes nothing more. */
  lemma ReadIdempotent(file: FileState, writable: bool)
    ensures var first := Read(file, writable);
            Read(first.after, writable) == first
  {
  }

  /** The persisted users file. */
  class UsersFile {
    var content: FileState
    var writable: bool

    constructor (content: FileState, writable: bool)
      ensures this.content == content && this.writable == writable
    {
      this.content := content;
      this.writable := writable;
    }

    /** `readUsersFile` (utils/fileUtils.js lines 11-54). */
    method ReadUsersFile() returns (users: seq<User>)
      modifies this`content
      ensures users == Read(old(content), writable).users
      ensures content == Read(old(content), writable).after
    {
      match content
      case Missing =>
        var ok := WriteUsersFile(DefaultUsers);
        users := if ok then DefaultUsers else [];
      case NotAnArray =>
        users := [];
      case Unparsable =>
        users := [];
      case Users(us) =>
        users := us;
    }

    /**
     * `writeUsersFile` (utils/fileUtils.js lines 60-80): replaces the whole
     * file, or reports failure (the source throws) and leaves it as it was.
     */
    method WriteUsersFile(users: seq<User>) returns (ok: bool)
      modifies this`content
      ensures ok == writable
      ensures content == if ok then Users(users) else old(content)
    {
      ok := writable;
      if ok {
        content := Users(users);
      }
    }
  }
}
