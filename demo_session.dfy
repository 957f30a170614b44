/**
 * The demo personas and the "current demo user" session kept in the
 * browser's local storage.
 */
module DemoSession {
  import opened Wrappers

  /** A demo persona: the fields every persona has. */
  datatype User = User(
    id: string,
    kind: string,
    username: string,
    name: string,
    role: string,
    email: string,
    personalNumber: string)

  /** The employer persona, also the default current user. */
  const AnneEmployer := User(
    "anne-dept-manager", "employer", "anne_avdelingsleder", "Anne Avdelingsleder",
    "department_manager", "anne@gran.kommune.no", "15067512345")

  /** The worker persona. */
  const ThomasWorker := User(
    "thomas-nurse", "worker", "thomas_sykepleier", "Thomas Sykepleier",
    "nurse", "thomas@helsepersonell.no", "12088512345")

  const DemoUsers: seq<User> := [AnneEmployer, ThomasWorker]

  /** No two demo users share an id. */
  ghost predicate DistinctIds(users: seq<User>)
  {
    forall i, j :: 0 <= i < j < |users| ==> users[i].id != users[j].id
  }

  /** The first user in the list with the given id, if any. */
  function FindById(users: seq<User>, id: string): (r: Option<User>)
    ensures r.Some? ==> r.value in users && r.value.id == id
    ensures r.None? <==> forall u :: u in users ==> u.id != id
  {
    if users == [] then None
    else if users[0].id == id then Some(users[0])
    else FindById(users[1..], id)
  }

  /** With distinct ids, looking up the id of any listed user finds that user. */
  lemma {:induction false} FindByIdUnambiguous(users: seq<User>, i: int)
    requires DistinctIds(users) && 0 <= i < |users|
    ensures FindById(users, users[i].id) == Some(users[i])
  {
    if i > 0 {
      assert users[0].id != users[i].id;
      var rest := users[1..];
      assert DistinctIds(rest) by {
        forall a, b | 0 <= a < b < |rest| ensures rest[a].id != rest[b].id {
          assert rest[a] == users[a + 1] && rest[b] == users[b + 1];
        }
      }
      FindByIdUnambiguous(rest, i - 1);
    }
  }

  lemma DemoIdsDistinct()
    ensures DistinctIds(DemoUsers)
  {
  }

  /** The demo user with this id, or None. */
  function GetUserById(id: string): (r: Option<User>)
    ensures r.Some? <==> exists u :: u in DemoUsers && u.id == id
    ensures r.Some? ==> r.value in DemoUsers && r.value.id == id
  {
    FindById(DemoUsers, id)
  }

  /** Every demo user, each one found again by its id. */
  function GetAllUsers(): (r: seq<User>)
    ensures |r| == |DemoUsers|
    ensures forall u :: u in r <==> u in DemoUsers
    ensures forall i :: 0 <= i < |r| ==> GetUserById(r[i].id) == Some(r[i])
  {
    DemoIdsDistinct();
    forall i | 0 <= i < |DemoUsers|
      ensures GetUserById(DemoUsers[i].id) == Some(DemoUsers[i])
    {
      FindByIdUnambiguous(DemoUsers, i);
    }
    DemoUsers
  }

  /**
   * The session: the one local-storage slot holding the current user's id
   * (None when nothing is stored), and whether local storage can be used at
   * all (reads and writes to it throw when it cannot).
   */
  class Session {
    var stored: Option<string>
    var storageAvailable: bool

    constructor (storageAvailable: bool)
      ensures stored == None && this.storageAvailable == storageAvailable
    {
      stored := None;
      this.storageAvailable := storageAvailable;
    }

    /** The stored id; the default employer's id when storage fails or holds nothing or "". */
    function StoredUserId(): (id: string)
      reads this
      ensures id != ""
      ensures storageAvailable && stored.Some? && stored.value != "" ==> id == stored.value
      ensures !(storageAvailable && stored.Some? && stored.value != "") ==> id == AnneEmployer.id
    {
      if storageAvailable && stored.Some? && stored.value != "" then stored.value else AnneEmployer.id
    }

    /** The user the stored id names, falling back to the default employer. */
    function CurrentUser(): (u: User)
      reads this
      ensures u in DemoUsers
      ensures GetUserById(StoredUserId()).Some? ==> u.id == StoredUserId()
      ensures GetUserById(StoredUserId()).None? ==> u == AnneEmployer
    {
      match GetUserById(StoredUserId())
      case Some(user) => user
      case None => AnneEmployer
    }

    /** Store a known id; an unknown id is ignored, and a failing store leaves the slot as it was. */
    method SetCurrentUser(id: string)
      modifies this
      ensures storageAvailable == old(storageAvailable)
      ensures GetUserById(id).None? ==> stored == old(stored)
      ensures GetUserById(id).Some? && storageAvailable ==> stored == Some(id)
      ensures GetUserById(id).Some? && !storageAvailable ==> stored == old(stored)
      ensures GetUserById(id).Some? && storageAvailable ==> CurrentUser() == GetUserById(id).value
    {
      var user := GetUserById(id);
      if user.None? {
        return;
      }
      if storageAvailable {
        stored := Some(id);
      }
      UserIdNotEmpty(id);
    }
  }

  /** Every demo id is non-empty, so a stored demo id is never replaced by the default. */
  lemma UserIdNotEmpty(id: string)
    ensures GetUserById(id).Some? ==> id != ""
  {
  }

  /** A fresh session, and a session whose stored id names no demo user, both show the default employer. */
  lemma DefaultUser(s: Session, unknownId: string)
    requires s.stored == None || (s.stored == Some(unknownId) && GetUserById(unknownId).None?)
    ensures s.CurrentUser() == AnneEmployer
  {
  }
}
