/**
 * server/storage.ts: `MemStorage`, the in-memory store behind the server's
 * storage interface. Users and name lists sit in two maps keyed by ids taken
 * from two counters that start at 1 and only ever grow (unbounded integers
 * here), so an id is never handed out twice, even after its name list was
 * deleted. The interface's
 * promises resolve immediately, so each operation is one sequential step
 * here; `new Date()` is the injected timestamp `now`.
 */
module Storage {
  import opened Wrappers

  datatype User = User(id: int, username: string, password: string)
  datatype InsertUser = InsertUser(username: string, password: string)

  datatype NameList = NameList(id: int, names: seq<string>, createdAt: int)
  datatype InsertNameList = InsertNameList(names: seq<string>)

  /**
   * The smallest key in `[lo, hi)` of a user with `username`. Users are
   * only ever added, under increasing ids, so the map's insertion order is the
   * order of its keys.
   */
  function FirstKeyWith(users: map<int, User>, username: string, lo: int, hi: int): (r: Option<int>)
    ensures r.Some? ==> lo <= r.value < hi && r.value in users && users[r.value].username == username
    ensures r.Some? ==> (forall j :: lo <= j < r.value && j in users ==> users[j].username != username)
    ensures r.None? ==> (forall j :: lo <= j < hi && j in users ==> users[j].username != username)
    decreases hi - lo
  {
    if lo >= hi then None
    else if lo in users && users[lo].username == username then Some(lo)
    else FirstKeyWith(users, username, lo + 1, hi)
  }

  class MemStorage {
    var users: map<int, User>
    var nameLists: map<int, NameList>
    var currentUserId: int
    var currentNameListId: int

    /**
     * Every id handed out lies below its counter; each record carries the id
     * it is stored under; users are never removed, so their ids are exactly
     * `1 .. currentUserId - 1`.
     */
    ghost predicate Valid()
      reads this
    {
      && currentUserId >= 1 && currentNameListId >= 1
      && (forall id :: id in users <==> 1 <= id < currentUserId)
      && (forall id :: id in users ==> users[id].id == id)
      && (forall id :: id in nameLists ==> 1 <= id < currentNameListId && nameLists[id].id == id)
    }

    constructor ()
      ensures Valid()
      ensures users == map[] && nameLists == map[]
      ensures currentUserId == 1 && currentNameListId == 1
    {
      users := map[];
      nameLists := map[];
      currentUserId := 1;
      currentNameListId := 1;
    }

    /** getUser: the user stored under `id`, if any. */
    function GetUser(id: int): (r: Option<User>)
      requires Valid()
      reads this
      ensures r.Some? <==> 1 <= id < currentUserId
      ensures r.Some? ==> r.value == users[id] && r.value.id == id
    {
      if id in users then Some(users[id]) else None
    }

    /**
     * getUserByUsername: the first user, in insertion order, with that
     * username; none when no user has it.
     */
    function GetUserByUsername(username: string): (r: Option<User>)
      requires Valid()
      reads this
      ensures r.Some? ==> r.value.username == username && r.value.id in users && users[r.value.id] == r.value
      ensures r.Some? ==> forall j :: j in users && j < r.value.id ==> users[j].username != username
      ensures r.None? <==> forall j :: j in users ==> users[j].username != username
    {
      match FirstKeyWith(users, username, 1, currentUserId)
      case Some(id) => Some(users[id])
      case None => None
    }

    /** createUser: stores the user under the next user id, which no user had before. */
    method CreateUser(insertUser: InsertUser) returns (user: User)
      requires Valid()
      modifies this
      ensures Valid()
      ensures user == User(old(currentUserId), insertUser.username, insertUser.password)
      ensures user.id !in old(users)
      ensures currentUserId == old(currentUserId) + 1
      ensures users == old(users)[user.id := user]
      ensures GetUser(user.id) == Some(user)
      ensures nameLists == old(nameLists) && currentNameListId == old(currentNameListId)
    {
      var id := currentUserId;
      currentUserId := currentUserId + 1;
      user := User(id, insertUser.username, insertUser.password);
      users := users[id := user];
    }

    /** getNameList: the name list stored under `id`, if any. */
    function GetNameList(id: int): (r: Option<NameList>)
      requires Valid()
      reads this
      ensures r.Some? <==> id in nameLists
      ensures r.Some? ==> r.value == nameLists[id] && r.value.id == id && id < currentNameListId
    {
      if id in nameLists then Some(nameLists[id]) else None
    }

    /**
     * createNameList: stores the names under the next name-list id, stamped
     * with `now`. The id was never used before, not even by a list since
     * deleted, and every other list stays as it was.
     */
    method CreateNameList(insertNameList: InsertNameList, now: int) returns (nameList: NameList)
      requires Valid()
      modifies this
      ensures Valid()
      ensures nameList == NameList(old(currentNameListId), insertNameList.names, now)
      ensures nameList.id !in old(nameLists)
      ensures currentNameListId == old(currentNameListId) + 1
      ensures nameLists == old(nameLists)[nameList.id := nameList]
      ensures GetNameList(nameList.id) == Some(nameList)
      ensures users == old(users) && currentUserId == old(currentUserId)
    {
      var id := currentNameListId;
      currentNameListId := currentNameListId + 1;
      nameList := NameList(id, insertNameList.names, now);
      nameLists := nameLists[id := nameList];
    }

    /**
     * updateNameList: on an absent id, nothing and no change; otherwise the
     * stored list keeps its id and creation time and takes the new names.
     */
    method UpdateNameList(id: int, updateNameList: InsertNameList) returns (r: Option<NameList>)
      requires Valid()
      modifies this
      ensures Valid()
      ensures id !in old(nameLists) ==> r == None && nameLists == old(nameLists)
      ensures id in old(nameLists) ==>
        && r == Some(NameList(id, updateNameList.names, old(nameLists)[id].createdAt))
        && nameLists == old(nameLists)[id := r.value]
      ensures users == old(users) && currentUserId == old(currentUserId)
      ensures currentNameListId == old(currentNameListId)
    {
      if id !in nameLists {
        return None;
      }
      var existing := nameLists[id];
      var updated := existing.(names := updateNameList.names);
      nameLists := nameLists[id := updated];
      r := Some(updated);
    }

    /**
     * deleteNameList: reports whether the id was present; afterwards it is
     * absent and every other list is unchanged. The counter is not lowered.
     */
    method DeleteNameList(id: int) returns (existed: bool)
      requires Valid()
      modifies this
      ensures Valid()
      ensures existed <==> id in old(nameLists)
      ensures nameLists == old(nameLists) - {id}
      ensures GetNameList(id) == None
      ensures users == old(users) && currentUserId == old(currentUserId)
      ensures currentNameListId == old(currentNameListId)
    {
      existed := id in nameLists;
      nameLists := nameLists - {id};
    }
  }
}
