/**
 * The request table and the user table the registration workflow reads and
 * writes, and the DAO operations on requests: create, getById,
 * getPendingRequests and update. Persisting checks what the table enforces:
 * a fresh primary key, the non-null columns and the column lengths.
 */
module RegistrationDao {
  import opened Wrappers
  import opened RegistrationEntity

  /** A row of the user table, as far as the workflow writes it. */
  datatype User = User(username: string, password: string, email: string, roleId: string,
                       storageQuota: int, onboarding: bool, deleted: bool)

  datatype DaoError =
    | AlreadyExistingUsername   // the RuntimeException message create throws
    | PersistError              // the database refuses the row

  /** A live (not deleted) user has this username. */
  predicate UsernameTaken(users: seq<User>, username: string) {
    exists i :: 0 <= i < |users| && !users[i].deleted && users[i].username == username
  }

  /** createDate ascending. */
  predicate SortedByCreateDate(rows: seq<Row>) {
    forall i, j :: 0 <= i < j < |rows| ==> rows[i].createDate <= rows[j].createDate
  }

  /** Inserts a row before the first row created later. */
  function Insert(rows: seq<Row>, row: Row): seq<Row> {
    if rows == [] then [row]
    else if row.createDate <= rows[0].createDate then [row] + rows
    else [rows[0]] + Insert(rows[1..], row)
  }

  /** Inserting adds exactly the new row. */
  lemma {:induction false} InsertAdds(rows: seq<Row>, row: Row)
    ensures multiset(Insert(rows, row)) == multiset(rows) + multiset{row}
  {
    if rows != [] && row.createDate > rows[0].createDate {
      InsertAdds(rows[1..], row);
      assert rows == [rows[0]] + rows[1..];
    }
  }

  /** Inserting into a sorted list keeps it sorted. */
  lemma {:induction false} InsertSorted(rows: seq<Row>, row: Row)
    requires SortedByCreateDate(rows)
    ensures SortedByCreateDate(Insert(rows, row))
  {
    if rows != [] && row.createDate > rows[0].createDate {
      var tail := Insert(rows[1..], row);
      InsertSorted(rows[1..], row);
      InsertAdds(rows[1..], row);
      forall k | 0 <= k < |tail|
        ensures rows[0].createDate <= tail[k].createDate
      {
        assert tail[k] in multiset(tail);
        if tail[k] != row {
          assert tail[k] in multiset(rows[1..]);
          assert tail[k] in rows[1..];
        }
      }
      var r := [rows[0]] + tail;
      forall i, j | 0 <= i < j < |r|
        ensures r[i].createDate <= r[j].createDate
      {
        if i == 0 {
          assert r[j] == tail[j - 1];
        } else {
          assert r[i] == tail[i - 1] && r[j] == tail[j - 1];
        }
      }
    }
  }

  /** The pending rows of a table. */
  function PendingRows(requests: map<string, Row>): (s: set<Row>)
    ensures forall r :: r in s <==> r in requests.Values && r.status == Pending
  {
    set r | r in requests.Values && r.status == Pending
  }

  class Database {
    var requests: map<string, Row>
    var users: seq<User>

    /** Every row is stored under its own id and fits its columns. */
    ghost predicate Valid()
      reads this
    {
      forall id :: id in requests ==> requests[id].id == id && Fits(requests[id])
    }

    constructor (users0: seq<User>)
      ensures Valid() && requests == map[] && users == users0
    {
      requests := map[];
      users := users0;
    }

    /** What the table accepts as a new or updated row. */
    static predicate Storable(row: Option<Row>) {
      row.Some? && Fits(row.value)
    }

    /**
     * `create`: the request gets the new id (a random UUID, `newId`) first; a
     * live user with the same username fails AlreadyExistingUsername without
     * storing anything; otherwise the request gets the creation date and
     * status PENDING and is stored under its id, which is returned. Other
     * requests are not consulted, so two pending requests may share a username.
     */
    method Create(request: UserRegistrationRequest, newId: string, now: int) returns (r: Result<string, DaoError>)
      requires Valid()
      modifies this`requests, request`id, request`createDate, request`status
      ensures Valid()
      ensures request.id == Some(newId)
      ensures r == Failure(AlreadyExistingUsername) <==>
        request.username.Some? && UsernameTaken(users, request.username.value)
      ensures r.Success? <==>
        && !(request.username.Some? && UsernameTaken(users, request.username.value))
        && newId !in old(requests)
        && Storable(request.Snapshot())
      ensures r != Failure(AlreadyExistingUsername) ==> request.createDate == Some(now) && request.status == Some(Pending)
      ensures r.Success? ==>
        && r.value == newId
        && requests == old(requests)[newId := request.Snapshot().value]
      ensures r.Failure? ==> requests == old(requests)
    {
      request.SetId(Some(newId));
      if request.username.Some? && UsernameTaken(users, request.username.value) {
        return Failure(AlreadyExistingUsername);
      }
      request.SetCreateDate(Some(now));
      request.SetStatus(Some(Pending));
      var row := request.Snapshot();
      if newId in requests || !Storable(row) {
        return Failure(PersistError);
      }
      requests := requests[newId := row.value];
      return Success(newId);
    }

    /** `getById`: the stored request with that id, or null. */
    function GetById(id: string): (r: Option<Row>)
      reads this
      ensures r.Some? <==> id in requests
      ensures r.Some? ==> r.value == requests[id]
    {
      if id in requests then Some(requests[id]) else None
    }

    /** `getPendingRequests`: exactly the PENDING requests, each once, by createDate ascending. */
    method GetPendingRequests() returns (list: seq<Row>)
      requires Valid()
      ensures SortedByCreateDate(list)
      ensures multiset(list) == multiset(PendingRows(requests))
    {
      list := [];
      var todo := requests.Keys;
      ghost var seen: set<Row> := {};
      while todo != {}
        invariant todo <= requests.Keys
        invariant SortedByCreateDate(list)
        invariant forall r :: r in seen <==> r in requests.Values && r.status == Pending && r.id !in todo
        invariant multiset(list) == multiset(seen)
        decreases |todo|
      {
        var id :| id in todo;
        var row := requests[id];
        if row.status == Pending {
          InsertSorted(list, row);
          InsertAdds(list, row);
          list := Insert(list, row);
          seen := seen + {row};
        }
        todo := todo - {id};
      }
      assert seen == PendingRows(requests);
    }

    /**
     * `update`: stamps the processing date, the processing user and the
     * comment on the request and merges it: the stored row becomes the
     * request as the caller left it.
     */
    method Update(request: UserRegistrationRequest, userId: Option<string>, comment: Option<string>, now: int)
      returns (r: Outcome<DaoError>)
      requires Valid()
      modifies this`requests, request`processDate, request`processUserId, request`processComment
      ensures Valid()
      ensures request.processDate == Some(now) && request.processUserId == userId && request.processComment == comment
      ensures r.Pass? <==> Storable(request.Snapshot())
      ensures r.Pass? ==> requests == old(requests)[request.id.value := request.Snapshot().value]
      ensures r.Fail? ==> requests == old(requests) && r.error == PersistError
    {
      request.SetProcessDate(Some(now));
      request.SetProcessUserId(userId);
      request.SetProcessComment(comment);
      var row := request.Snapshot();
      if !Storable(row) {
        return Fail(PersistError);
      }
      requests := requests[row.value.id := row.value];
      return Pass;
    }

    /**
     * `UserDao.create` as the workflow relies on it: a username already used
     * by a live user is refused, otherwise the user is added.
     */
    method CreateUser(user: User) returns (r: Outcome<DaoError>)
      modifies this`users
      ensures r.Fail? <==> UsernameTaken(old(users), user.username)
      ensures r.Fail? ==> users == old(users) && r.error == AlreadyExistingUsername
      ensures r.Pass? ==> users == old(users) + [user]
    {
      if UsernameTaken(users, user.username) {
        return Fail(AlreadyExistingUsername);
      }
      users := users + [user];
      return Pass;
    }
  }
}
