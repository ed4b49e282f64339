/**
 * The user registration REST resource: `create` (form validation, then the
 * DAO, with its failures mapped to API errors), `get` (the pending requests,
 * for administrators) and `process` (approve or reject a request).
 *
 * One request runs in one transaction: when an operation ends in an error,
 * nothing it wrote to the tables is kept.
 */
module RegistrationResource {
  import opened Wrappers
  import opened Decimal
  import opened RegistrationEntity
  import opened RegistrationDao

  datatype ApiError =
    | Forbidden                 // not authenticated, or not an administrator
    | ValidationError           // a form field out of bounds, or an unknown action
    | AlreadyExistingUsername   // client error: the login is used by a live user
    | UnknownError              // server error: any other persistence failure
    | RequestNotFound           // no request with that id
    | ServerFailure             // an exception the resource does not catch

  /** The authenticated user, if any. */
  datatype Caller = Caller(id: string, admin: bool)

  /** Authenticated and holding the ADMIN base function. */
  predicate IsAdmin(caller: Option<Caller>) {
    caller.Some? && caller.value.admin
  }

  // ---------------------------------------------------------------------
  // Form validation
  // ---------------------------------------------------------------------

  /** `Character.isWhitespace`. */
  predicate IsWhitespace(c: char) {
    || c == ' ' || '\t' <= c <= '\r' || '\U{1C}' <= c <= '\U{1F}'
    || c == '\U{1680}' || '\U{2000}' <= c <= '\U{2006}' || '\U{2008}' <= c <= '\U{200A}'
    || c == '\U{2028}' || c == '\U{2029}' || c == '\U{205F}' || c == '\U{3000}'
  }

  /** The length of the whitespace run that starts the string. */
  function LeadingSpace(s: string): (k: nat)
    ensures k <= |s|
    ensures k < |s| ==> !IsWhitespace(s[k])
  {
    if s != [] && IsWhitespace(s[0]) then 1 + LeadingSpace(s[1..]) else 0
  }

  /** The length of the whitespace run that ends the string. */
  function TrailingSpace(s: string): (k: nat)
    ensures k <= |s|
    ensures k < |s| ==> !IsWhitespace(s[|s| - k - 1])
  {
    if s != [] && IsWhitespace(s[|s| - 1]) then 1 + TrailingSpace(s[..|s| - 1]) else 0
  }

  /** `StringUtils.strip`: whitespace removed from both ends. */
  function Strip(s: string): string {
    var t := s[LeadingSpace(s)..];
    t[..|t| - TrailingSpace(t)]
  }

  /** A stripped string is a slice of the input that starts and ends with non-whitespace. */
  lemma StripSpec(s: string)
    ensures Strip(s) == [] || (!IsWhitespace(Strip(s)[0]) && !IsWhitespace(Strip(s)[|Strip(s)| - 1]))
    ensures exists i, j :: 0 <= i <= j <= |s| && Strip(s) == s[i..j]
  {
    var i := LeadingSpace(s);
    var t := s[i..];
    var j := |t| - TrailingSpace(t);
    assert Strip(s) == s[i..i + j];
    if Strip(s) != [] {
      assert Strip(s)[0] == t[0];
      assert Strip(s)[|Strip(s)| - 1] == t[j - 1];
    }
  }

  /** A string without surrounding whitespace is left as it is. */
  lemma StripClean(s: string)
    requires s == [] || (!IsWhitespace(s[0]) && !IsWhitespace(s[|s| - 1]))
    ensures Strip(s) == s
  {
    assert LeadingSpace(s) == 0;
    assert s[0..] == s;
    assert TrailingSpace(s) == 0;
  }

  /** Stripping twice is stripping once. */
  lemma StripIdempotent(s: string)
    ensures Strip(Strip(s)) == Strip(s)
  {
    StripSpec(s);
    StripClean(Strip(s));
  }

  /**
   * `ValidationUtil.validateLength`: the value is stripped; a nullable field
   * that is null or blank is accepted as it is; otherwise it must be set and
   * its stripped length must lie within [min, max]. The stripped value is
   * what the caller goes on with.
   */
  function ValidateLength(s: Option<string>, min: nat, max: nat, nullable: bool): (r: Result<Option<string>, ApiError>)
    ensures r.Success? <==>
      || (nullable && (s.None? || Strip(s.value) == []))
      || (s.Some? && min <= |Strip(s.value)| <= max)
    ensures r.Success? ==> r.value == (if s.None? then None else Some(Strip(s.value)))
    ensures r.Success? && !nullable ==> r.value.Some? && min <= |r.value.value| <= max
    ensures r.Failure? ==> r.error == ValidationError
  {
    var t := if s.None? then None else Some(Strip(s.value));
    if nullable && (t.None? || t.value == []) then Success(t)
    else if t.None? then Failure(ValidationError)
    else if |t.value| < min then Failure(ValidationError)
    else if |t.value| > max then Failure(ValidationError)
    else Success(t)
  }

  /** A value that passed validation passes again unchanged. */
  lemma ValidateLengthIdempotent(s: Option<string>, min: nat, max: nat, nullable: bool)
    requires ValidateLength(s, min, max, nullable).Success?
    ensures var v := ValidateLength(s, min, max, nullable).value;
      ValidateLength(v, min, max, nullable) == Success(v)
  {
    if s.Some? {
      StripIdempotent(s.value);
    }
  }

  // ---------------------------------------------------------------------
  // create
  // ---------------------------------------------------------------------

  /**
   * The registration form passes validation: username 3..50 characters in
   * the username format, password 8..50, e-mail 1..100 in the e-mail format,
   * each after stripping. The two formats belong to ValidationUtil and are
   * parameters.
   */
  predicate FormValid(username: Option<string>, password: Option<string>, email: Option<string>,
                      validUsername: string -> bool, validEmail: string -> bool)
  {
    && ValidateLength(username, 3, 50, false).Success? && validUsername(Strip(username.value))
    && ValidateLength(password, 8, 50, false).Success?
    && ValidateLength(email, 1, 100, false).Success? && validEmail(Strip(email.value))
  }

  /** The stripped username, password and e-mail of a valid form. */
  function ValidateForm(username: Option<string>, password: Option<string>, email: Option<string>,
                        validUsername: string -> bool, validEmail: string -> bool)
    : (r: Result<(string, string, string), ApiError>)
    ensures r.Success? <==> FormValid(username, password, email, validUsername, validEmail)
    ensures r.Success? ==> r.value == (Strip(username.value), Strip(password.value), Strip(email.value))
    ensures r.Success? ==> 3 <= |r.value.0| <= 50 && 8 <= |r.value.1| <= 50 && 1 <= |r.value.2| <= 100
    ensures r.Failure? ==> r.error == ValidationError
  {
    var u := ValidateLength(username, 3, 50, false);
    var p := ValidateLength(password, 8, 50, false);
    var e := ValidateLength(email, 1, 100, false);
    if u.Failure? || !validUsername(u.value.value) || p.Failure? || e.Failure? || !validEmail(e.value.value) then
      Failure(ValidationError)
    else
      Success((u.value.value, p.value.value, e.value.value))
  }

  /** The row a valid form is stored as. */
  function NewRequestRow(id: string, username: string, password: string, email: string, now: int): (row: Row)
    ensures row.status == Pending && row.processDate.None? && row.processUserId.None? && row.processComment.None?
  {
    Row(id, Strip(username), Strip(email), Strip(password), Pending, now, None, None, None)
  }

  /** Every request in the table is PENDING, APPROVED or REJECTED. */
  predicate StatusesKnown(requests: map<string, Row>) {
    forall id :: id in requests ==> KnownStatus(requests[id].status)
  }

  /**
   * `create`: an invalid form is a ValidationError; a username held by a
   * live user is the client error AlreadyExistingUsername; any other failure
   * of the DAO is UnknownError. Otherwise the request is stored as PENDING
   * under `newId`, the random id the DAO draws.
   */
  method Create(db: Database, username: Option<string>, password: Option<string>, email: Option<string>,
                validUsername: string -> bool, validEmail: string -> bool, newId: string, now: int)
    returns (r: Outcome<ApiError>)
    requires db.Valid()
    modifies db`requests
    ensures db.Valid()
    ensures r == Fail(ValidationError) <==> !FormValid(username, password, email, validUsername, validEmail)
    ensures r == Fail(ApiError.AlreadyExistingUsername) <==>
      FormValid(username, password, email, validUsername, validEmail) && UsernameTaken(db.users, Strip(username.value))
    ensures r.Pass? <==>
      && FormValid(username, password, email, validUsername, validEmail)
      && !UsernameTaken(db.users, Strip(username.value))
      && newId !in old(db.requests) && |newId| <= IdLength
    ensures r.Pass? ==>
      db.requests == old(db.requests)[newId := NewRequestRow(newId, username.value, password.value, email.value, now)]
    ensures r.Fail? ==> db.requests == old(db.requests)
    ensures r.Fail? ==> r.error == ValidationError || r.error == ApiError.AlreadyExistingUsername || r.error == UnknownError
    ensures StatusesKnown(old(db.requests)) ==> StatusesKnown(db.requests)
  {
    var form := ValidateForm(username, password, email, validUsername, validEmail);
    if form.Failure? {
      return Fail(ValidationError);
    }
    var (u, p, e) := form.value;

    r := StoreRequest(db, u, p, e, newId, now);
  }

  /**
   * The second half of `create`: a new request entity holding the stripped
   * fields is handed to the DAO, and the DAO's errors become the resource's.
   */
  method StoreRequest(db: Database, u: string, p: string, e: string, newId: string, now: int)
    returns (r: Outcome<ApiError>)
    requires db.Valid()
    requires |u| <= UsernameLength && |p| <= PasswordLength && |e| <= EmailLength
    modifies db`requests
    ensures db.Valid()
    ensures r == Fail(ApiError.AlreadyExistingUsername) <==> UsernameTaken(db.users, u)
    ensures r.Pass? <==> !UsernameTaken(db.users, u) && newId !in old(db.requests) && |newId| <= IdLength
    ensures r.Pass? ==> db.requests == old(db.requests)[newId := Row(newId, u, e, p, Pending, now, None, None, None)]
    ensures r.Fail? ==> db.requests == old(db.requests)
    ensures r.Fail? ==> r.error == ApiError.AlreadyExistingUsername || r.error == UnknownError
  {
    var request := new UserRegistrationRequest();
    request.SetUsername(Some(u));
    request.SetPassword(Some(p));
    request.SetEmail(Some(e));
    var created := db.Create(request, newId, now);
    if created.Failure? {
      if created.error == DaoError.AlreadyExistingUsername {
        return Fail(ApiError.AlreadyExistingUsername);
      }
      return Fail(UnknownError);
    }
    return Pass;
  }

  // ---------------------------------------------------------------------
  // get
  // ---------------------------------------------------------------------

  /** What `get` lists of a request. */
  datatype RequestView = RequestView(id: string, username: string, email: string, createDate: int)

  function View(row: Row): RequestView {
    RequestView(row.id, row.username, row.email, row.createDate)
  }

  /**
   * `get`: Forbidden unless the caller is an administrator; otherwise one
   * entry per PENDING request, oldest first.
   */
  method Get(db: Database, caller: Option<Caller>) returns (r: Result<seq<RequestView>, ApiError>)
    requires db.Valid()
    ensures r.Failure? <==> !IsAdmin(caller)
    ensures r.Failure? ==> r.error == Forbidden
    ensures r.Success? ==> |r.value| == |PendingRows(db.requests)|
    ensures r.Success? ==> forall i, j :: 0 <= i < j < |r.value| ==> r.value[i].createDate <= r.value[j].createDate
    ensures r.Success? ==> forall v :: v in r.value <==> exists row :: row in PendingRows(db.requests) && View(row) == v
  {
    if !IsAdmin(caller) {
      return Failure(Forbidden);
    }
    var list := db.GetPendingRequests();
    var views: seq<RequestView> := [];
    for i := 0 to |list|
      invariant |views| == i
      invariant forall k :: 0 <= k < i ==> views[k] == View(list[k])
    {
      views := views + [View(list[i])];
    }
    assert |multiset(list)| == |list|;
    forall v
      ensures v in views <==> exists row :: row in PendingRows(db.requests) && View(row) == v
    {
      if v in views {
        var k :| 0 <= k < |views| && views[k] == v;
        assert list[k] in multiset(list);
      }
      if exists row :: row in PendingRows(db.requests) && View(row) == v {
        var row :| row in PendingRows(db.requests) && View(row) == v;
        assert row in multiset(list);
        var k :| 0 <= k < |list| && list[k] == row;
        assert views[k] == v;
      }
    }
    return Success(views);
  }

  // ---------------------------------------------------------------------
  // process
  // ---------------------------------------------------------------------

  /** The storage quota of a new user when the environment variable is unset or empty. */
  const DefaultQuota: int := 1073741824

  /**
   * The storage quota an approved user gets: the default for an unset or
   * empty environment value, otherwise `Long.parseLong` of it, which fails
   * (None) on anything that is not a 64-bit decimal.
   */
  function QuotaFrom(env: Option<string>): (q: Option<int>)
    ensures env.None? || env.value == [] ==> q == Some(DefaultQuota)
    ensures q.Some? ==> LongMin <= q.value <= LongMax
  {
    if env.None? || env.value == [] then Some(DefaultQuota) else ParseLong(env.value)
  }

  /** A quota written out in decimal is the quota the user gets. */
  lemma QuotaFromDecimal(n: nat)
    requires n <= LongMax
    ensures QuotaFrom(Some(DecimalString(n))) == Some(n)
  {
    ParseLongOfDecimal(n);
  }

  /** The stored request after processing. */
  function ProcessedRow(row: Row, status: string, now: int, userId: string, comment: Option<string>): (r: Row)
    ensures r.id == row.id && r.username == row.username && r.email == row.email
    ensures r.password == row.password && r.createDate == row.createDate
    ensures r.status == status && r.processDate == Some(now)
    ensures r.processUserId == Some(userId) && r.processComment == comment
  {
    row.(status := status, processDate := Some(now), processUserId := Some(userId), processComment := comment)
  }

  /** The user an approved request becomes. */
  function ApprovedUser(row: Row, roleId: string, quota: int): (u: User)
    ensures u.username == row.username && u.password == row.password && u.email == row.email
    ensures u.roleId == roleId && u.storageQuota == quota && u.onboarding && !u.deleted
  {
    User(row.username, row.password, row.email, roleId, quota, true, false)
  }

  /** The two actions `process` knows. */
  predicate KnownAction(act: string) {
    act == "approve" || act == "reject"
  }

  /**
   * The approve/reject step of `process`: "approve" creates the user and
   * marks the request APPROVED, "reject" marks it REJECTED, anything else is
   * a ValidationError. An unparsable quota is an exception the resource does
   * not catch; a refused user is UnknownError. A failure changes nothing.
   */
  method ApplyAction(db: Database, request: UserRegistrationRequest, row: Row, act: string,
                     quotaEnv: Option<string>, defaultRoleId: string)
    returns (r: Outcome<ApiError>)
    requires request.Snapshot() == Some(row)
    modifies db`users, request`status
    ensures !KnownAction(act) ==> r == Fail(ValidationError)
    ensures act == "approve" && QuotaFrom(quotaEnv).None? ==> r == Fail(ServerFailure)
    ensures act == "approve" && QuotaFrom(quotaEnv).Some? && UsernameTaken(old(db.users), row.username) ==>
      r == Fail(UnknownError)
    ensures r.Pass? <==>
      KnownAction(act) && (act == "approve" ==> QuotaFrom(quotaEnv).Some? && !UsernameTaken(old(db.users), row.username))
    ensures r.Pass? ==> request.Snapshot() == Some(row.(status := if act == "approve" then Approved else Rejected))
    ensures r.Pass? && act == "approve" ==>
      db.users == old(db.users) + [ApprovedUser(row, defaultRoleId, QuotaFrom(quotaEnv).value)]
    ensures r.Pass? && act == "reject" ==> db.users == old(db.users)
    ensures r.Fail? ==> db.users == old(db.users)
  {
    if act == "approve" {
      var quota := QuotaFrom(quotaEnv);
      if quota.None? {
        return Fail(ServerFailure);
      }
      var userCreated := db.CreateUser(ApprovedUser(row, defaultRoleId, quota.value));
      if userCreated.Fail? {
        return Fail(UnknownError);
      }
      request.SetStatus(Some(Approved));
    } else if act == "reject" {
      request.SetStatus(Some(Rejected));
    } else {
      return Fail(ValidationError);
    }
    return Pass;
  }

  /**
   * `process`: Forbidden unless the caller is an administrator; the action
   * (1..20) and the optional comment (at most 500) are validated; an unknown
   * id is RequestNotFound. "approve" creates the user (default role
   * `defaultRoleId`, quota from `quotaEnv`, onboarding) and marks the request
   * APPROVED; "reject" marks it REJECTED; any other action is a
   * ValidationError. The request is then stamped with the caller and the
   * comment. Its current status is never looked at, so a processed request
   * can be processed again.
   */
  method Process(db: Database, caller: Option<Caller>, id: string, action: Option<string>, comment: Option<string>,
                 quotaEnv: Option<string>, defaultRoleId: string, now: int)
    returns (r: Outcome<ApiError>)
    requires db.Valid()
    modifies db
    ensures db.Valid()
    ensures !IsAdmin(caller) ==> r == Fail(Forbidden)
    ensures IsAdmin(caller) && (ValidateLength(action, 1, 20, false).Failure? || ValidateLength(comment, 0, 500, true).Failure?) ==>
      r == Fail(ValidationError)
    ensures (&& IsAdmin(caller) && ValidateLength(action, 1, 20, false).Success?
             && ValidateLength(comment, 0, 500, true).Success? && id !in old(db.requests)) ==>
      r == Fail(RequestNotFound)
    ensures r.Pass? <==>
      && IsAdmin(caller)
      && ValidateLength(action, 1, 20, false).Success?
      && ValidateLength(comment, 0, 500, true).Success?
      && id in old(db.requests)
      && KnownAction(Strip(action.value))
      && (Strip(action.value) == "approve" ==>
            QuotaFrom(quotaEnv).Some? && !UsernameTaken(old(db.users), old(db.requests)[id].username))
      && |caller.value.id| <= ProcessUserIdLength
    ensures r.Pass? ==>
      var row := old(db.requests)[id];
      var approve := Strip(action.value) == "approve";
      && db.requests == old(db.requests)[id := ProcessedRow(row, if approve then Approved else Rejected, now,
                                                           caller.value.id, ValidateLength(comment, 0, 500, true).value)]
      && db.users == if approve then old(db.users) + [ApprovedUser(row, defaultRoleId, QuotaFrom(quotaEnv).value)]
                     else old(db.users)
    ensures (&& IsAdmin(caller) && ValidateLength(action, 1, 20, false).Success?
             && ValidateLength(comment, 0, 500, true).Success? && id in old(db.requests)) ==>
      var act := Strip(action.value);
      && (!KnownAction(act) ==> r == Fail(ValidationError))
      && (act == "approve" && QuotaFrom(quotaEnv).None? ==> r == Fail(ServerFailure))
      && (act == "approve" && QuotaFrom(quotaEnv).Some? && UsernameTaken(old(db.users), old(db.requests)[id].username) ==>
            r == Fail(UnknownError))
    ensures r.Fail? ==> db.requests == old(db.requests) && db.users == old(db.users)
    ensures StatusesKnown(old(db.requests)) ==> StatusesKnown(db.requests)
  {
    if !IsAdmin(caller) {
      return Fail(Forbidden);
    }
    var a := ValidateLength(action, 1, 20, false);
    if a.Failure? {
      return Fail(ValidationError);
    }
    var c := ValidateLength(comment, 0, 500, true);
    if c.Failure? {
      return Fail(ValidationError);
    }
    var stored := db.GetById(id);
    if stored.None? {
      return Fail(RequestNotFound);
    }
    r := Settle(db, stored.value, a.value.value, c.value, caller.value.id, quotaEnv, defaultRoleId, now);
  }

  /**
   * The second half of `process`, on a stored request: the action is
   * applied and the request stamped and merged; when the merge fails the
   * transaction is rolled back, the new user included.
   */
  method Settle(db: Database, row: Row, act: string, comment: Option<string>, userId: string,
                quotaEnv: Option<string>, defaultRoleId: string, now: int)
    returns (r: Outcome<ApiError>)
    requires db.Valid() && row.id in db.requests && db.requests[row.id] == row
    requires comment.Some? ==> |comment.value| <= ProcessCommentLength
    modifies db
    ensures db.Valid()
    ensures !KnownAction(act) ==> r == Fail(ValidationError)
    ensures act == "approve" && QuotaFrom(quotaEnv).None? ==> r == Fail(ServerFailure)
    ensures act == "approve" && QuotaFrom(quotaEnv).Some? && UsernameTaken(old(db.users), row.username) ==>
      r == Fail(UnknownError)
    ensures r.Pass? <==>
      && KnownAction(act)
      && (act == "approve" ==> QuotaFrom(quotaEnv).Some? && !UsernameTaken(old(db.users), row.username))
      && |userId| <= ProcessUserIdLength
    ensures r.Fail? ==> r.error == ValidationError || r.error == ServerFailure || r.error == UnknownError
    ensures r.Pass? ==>
      var approve := act == "approve";
      && db.requests == old(db.requests)[row.id := ProcessedRow(row, if approve then Approved else Rejected, now,
                                                               userId, comment)]
      && db.users == if approve then old(db.users) + [ApprovedUser(row, defaultRoleId, QuotaFrom(quotaEnv).value)]
                     else old(db.users)
    ensures r.Fail? ==> db.requests == old(db.requests) && db.users == old(db.users)
  {
    var request := new UserRegistrationRequest.FromRow(row);
    var usersBefore := db.users;

    var applied := ApplyAction(db, request, row, act, quotaEnv, defaultRoleId);
    if applied.Fail? {
      return applied;
    }

    var updated := db.Update(request, Some(userId), comment, now);
    if updated.Fail? {
      db.users := usersBefore;  // the transaction is rolled back
      return Fail(ServerFailure);
    }
    return Pass;
  }
}
