/**
 * The one entity of the system, a user record `{id, nom, email, role}`,
 * the lookups the code performs on a sequence of them (`Array.prototype.find`
 * and `findIndex`), and the two collection invariants: ids are pairwise
 * distinct and e-mails are pairwise distinct.
 */
module Records {

  datatype User = User(id: int, nom: string, email: string, role: string)

  datatype Option<T> = None | Some(value: T)

  datatype Result<T, E> = Success(value: T) | Failure(error: E)

  /** `users.findIndex(p)`: the index of the first record satisfying `p`, or -1. */
  function FindIndex(us: seq<User>, p: User -> bool): (k: int)
    ensures -1 <= k < |us|
    ensures k == -1 <==> forall j | 0 <= j < |us| :: !p(us[j])
    ensures 0 <= k ==> p(us[k]) && forall j | 0 <= j < k :: !p(us[j])
  {
    if us == [] then -1
    else if p(us[0]) then 0
    else
      var k := FindIndex(us[1..], p);
      assert forall j | 1 <= j < |us| :: us[j] == us[1..][j - 1];
      if k == -1 then -1 else k + 1
  }

  /** The first index satisfying `p` is what `FindIndex` answers. */
  lemma FindIndexIsFirst(us: seq<User>, p: User -> bool, k: int)
    requires 0 <= k < |us| && p(us[k])
    requires forall j | 0 <= j < k :: !p(us[j])
    ensures FindIndex(us, p) == k
  {
  }

  /** `findIndex` by id answers -1 exactly when no record carries the id. */
  lemma NoIdIsMinusOne(us: seq<User>, id: int)
    ensures FindIndex(us, HasId(id)) == -1 <==> forall j | 0 <= j < |us| :: us[j].id != id
  {
    assert forall j | 0 <= j < |us| :: HasId(id)(us[j]) == (us[j].id == id);
  }

  /** `users.find(p)`: the first record satisfying `p`, or nothing. */
  function Find(us: seq<User>, p: User -> bool): (r: Option<User>)
    ensures r.None? <==> forall j | 0 <= j < |us| :: !p(us[j])
    ensures r.Some? ==> exists k | 0 <= k < |us| :: us[k] == r.value && p(us[k]) && forall j | 0 <= j < k :: !p(us[j])
  {
    var k := FindIndex(us, p);
    if k == -1 then None else Some(us[k])
  }

  /** `user => user.id === id` */
  function HasId(id: int): User -> bool {
    (u: User) => u.id == id
  }

  /** `user => user.email === email` */
  function HasEmail(email: string): User -> bool {
    (u: User) => u.email == email
  }

  /** `user => user.email === email && user.id !== id` */
  function HeldByOther(email: string, id: int): User -> bool {
    (u: User) => u.email == email && u.id != id
  }

  ghost predicate IdsUnique(us: seq<User>) {
    forall a, b | 0 <= a < b < |us| :: us[a].id != us[b].id
  }

  ghost predicate EmailsUnique(us: seq<User>) {
    forall a, b | 0 <= a < b < |us| :: us[a].email != us[b].email
  }

  /** The collection invariant the REST layer maintains. */
  ghost predicate WellFormed(us: seq<User>) {
    IdsUnique(us) && EmailsUnique(us)
  }
}
