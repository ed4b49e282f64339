/**
 * The user registration request: a mutable record whose setters each update
 * one field, and the row it is stored as in T_USER_REGISTRATION_REQUEST,
 * with the column bounds of that table. Dates are milliseconds.
 */
module RegistrationEntity {
  import opened Wrappers

  const Pending: string := "PENDING"
  const Approved: string := "APPROVED"
  const Rejected: string := "REJECTED"

  /** The three statuses a request can be in. */
  predicate KnownStatus(s: string) {
    s == Pending || s == Approved || s == Rejected
  }

  /** A stored request: the non-null columns are plain values, the nullable ones options. */
  datatype Row = Row(
    id: string,
    username: string,
    email: string,
    password: string,
    status: string,
    createDate: int,
    processDate: Option<int>,
    processUserId: Option<string>,
    processComment: Option<string>)

  /** The column lengths of the table. */
  const IdLength: nat := 36
  const UsernameLength: nat := 50
  const EmailLength: nat := 100
  const PasswordLength: nat := 100
  const StatusLength: nat := 20
  const ProcessUserIdLength: nat := 36
  const ProcessCommentLength: nat := 500

  /** Every column holds a value no longer than the column allows. */
  predicate Fits(row: Row) {
    && |row.id| <= IdLength
    && |row.username| <= UsernameLength
    && |row.email| <= EmailLength
    && |row.password| <= PasswordLength
    && |row.status| <= StatusLength
    && (row.processUserId.Some? ==> |row.processUserId.value| <= ProcessUserIdLength)
    && (row.processComment.Some? ==> |row.processComment.value| <= ProcessCommentLength)
  }

  /** Every status fits its column. */
  lemma KnownStatusFits(s: string)
    requires KnownStatus(s)
    ensures |s| <= StatusLength
  {
  }

  class UserRegistrationRequest {
    var id: Option<string>
    var username: Option<string>
    var email: Option<string>
    var password: Option<string>
    var status: Option<string>
    var createDate: Option<int>
    var processDate: Option<int>
    var processUserId: Option<string>
    var processComment: Option<string>

    /** A new request has every field null. */
    constructor ()
      ensures id.None? && username.None? && email.None? && password.None? && status.None?
      ensures createDate.None? && processDate.None? && processUserId.None? && processComment.None?
    {
      id := None;
      username := None;
      email := None;
      password := None;
      status := None;
      createDate := None;
      processDate := None;
      processUserId := None;
      processComment := None;
    }

    /** A request holding a stored row, as the entity manager hands it out. */
    constructor FromRow(row: Row)
      ensures Snapshot() == Some(row)
    {
      id := Some(row.id);
      username := Some(row.username);
      email := Some(row.email);
      password := Some(row.password);
      status := Some(row.status);
      createDate := Some(row.createDate);
      processDate := row.processDate;
      processUserId := row.processUserId;
      processComment := row.processComment;
    }

    method SetId(v: Option<string>)
      modifies this`id
      ensures id == v
    {
      id := v;
    }

    method SetUsername(v: Option<string>)
      modifies this`username
      ensures username == v
    {
      username := v;
    }

    method SetEmail(v: Option<string>)
      modifies this`email
      ensures email == v
    {
      email := v;
    }

    method SetPassword(v: Option<string>)
      modifies this`password
      ensures password == v
    {
      password := v;
    }

    method SetStatus(v: Option<string>)
      modifies this`status
      ensures status == v
    {
      status := v;
    }

    method SetCreateDate(v: Option<int>)
      modifies this`createDate
      ensures createDate == v
    {
      createDate := v;
    }

    method SetProcessDate(v: Option<int>)
      modifies this`processDate
      ensures processDate == v
    {
      processDate := v;
    }

    method SetProcessUserId(v: Option<string>)
      modifies this`processUserId
      ensures processUserId == v
    {
      processUserId := v;
    }

    method SetProcessComment(v: Option<string>)
      modifies this`processComment
      ensures processComment == v
    {
      processComment := v;
    }

    /** The row the request is stored as; None while a non-null column is still null. */
    function Snapshot(): (r: Option<Row>)
      reads this
      ensures r.Some? <==>
        id.Some? && username.Some? && email.Some? && password.Some? && status.Some? && createDate.Some?
      ensures r.Some? ==>
        && Some(r.value.id) == id && Some(r.value.username) == username && Some(r.value.email) == email
        && Some(r.value.password) == password && Some(r.value.status) == status
        && Some(r.value.createDate) == createDate && r.value.processDate == processDate
        && r.value.processUserId == processUserId && r.value.processComment == processComment
    {
      if id.Some? && username.Some? && email.Some? && password.Some? && status.Some? && createDate.Some? then
        Some(Row(id.value, username.value, email.value, password.value, status.value, createDate.value,
                 processDate, processUserId, processComment))
      else None
    }
  }
}
