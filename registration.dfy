/**
 * POST /register: check the username, then the email, hash the password,
 * INSERT the row, re-select it by its new id and answer with a token and the
 * public projection.  Any thrown error becomes one generic 500.
 */
module Registration {
  import opened Options
  import opened Credentials
  import opened Wire
  import opened Users

  datatype RegisterRequest = RegisterRequest(username: string, email: string, password: string)

  /** The steps of the handler that can throw (a store query, bcrypt, or the token signer). */
  datatype RegisterStep = FindUsername | FindEmail | HashPassword | InsertUser | ReselectUser | SignToken

  /** What the handler answers and what the users table holds afterwards. */
  datatype Outcome = Outcome(response: Response, table: Table)

  const ServerError := Response(500, Message(RegistrationFailed))

  /** The row a successful registration adds: the values the columns keep, and the password's hash. */
  function NewRow(t: Table, kdf: Kdf, salt: Salt, req: RegisterRequest): UserRow
    requires FitsColumns(t, req.username, req.email)
  {
    InsertedRow(t, req.username, req.email, Hash(kdf, req.password, salt))
  }

  /** The checks the INSERT makes beyond the handler's own: the row fits and its kept keys are free. */
  predicate Insertable(t: Table, collation: Collation, req: RegisterRequest)
  {
    FitsColumns(t, req.username, req.email) && KeysFree(t.rows, collation, Stored(req.username), Stored(req.email))
  }

  /**
   * Whether the handler gets as far as `step`: the email lookup once the
   * username is free, bcrypt and the INSERT once the email is free too, and the
   * re-select and the signing once the INSERT accepts the row.
   */
  predicate Reaches(t: Table, collation: Collation, req: RegisterRequest, step: RegisterStep)
  {
    match step
    case FindUsername => true
    case FindEmail => FindByUsername(t.rows, collation, req.username).None?
    case HashPassword | InsertUser =>
      FindByUsername(t.rows, collation, req.username).None? && FindByEmail(t.rows, collation, req.email).None?
    case ReselectUser | SignToken =>
      FindByUsername(t.rows, collation, req.username).None? && FindByEmail(t.rows, collation, req.email).None?
      && Insertable(t, collation, req)
  }

  /**
   * The register handler over a table value.  `salt` is the random bcrypt salt;
   * `fault` names the step that throws, if it is reached.  Writes made before
   * the failing step stay in the table.
   */
  function RegisterOutcome(t: Table, collation: Collation, kdf: Kdf, sign: Signer, salt: Salt,
                           req: RegisterRequest, fault: Option<RegisterStep>): (o: Outcome)
    ensures o.response.status in {201, 400, 500}
    ensures o.response.status == 400 ==>
              o.table == t && o.response.body in {Message(UsernameTaken), Message(EmailTaken)}
    ensures o.response.status == 500 ==>
              o.response == ServerError &&
              ((fault.Some? && Reaches(t, collation, req, fault.value)) ||
               (Reaches(t, collation, req, InsertUser) && !Insertable(t, collation, req)))
    ensures fault.Some? && Reaches(t, collation, req, fault.value) ==> o.response == ServerError
    ensures fault.Some? && fault.value in {FindUsername, FindEmail, HashPassword, InsertUser} ==> o.table == t
    ensures o.table == t ||
              (FitsColumns(t, req.username, req.email) && o.table == Table(t.rows + [NewRow(t, kdf, salt, req)], t.nextId + 1))
    ensures o.response.status == 201 ==>
              fault.None? && FitsColumns(t, req.username, req.email) &&
              o.table == Table(t.rows + [NewRow(t, kdf, salt, req)], t.nextId + 1)
  {
    if fault == Some(FindUsername) then Outcome(ServerError, t)
    else if FindByUsername(t.rows, collation, req.username).Some? then
      Outcome(Response(400, Message(UsernameTaken)), t)
    else if fault == Some(FindEmail) then Outcome(ServerError, t)
    else if FindByEmail(t.rows, collation, req.email).Some? then
      Outcome(Response(400, Message(EmailTaken)), t)
    else if fault == Some(HashPassword) || fault == Some(InsertUser) then Outcome(ServerError, t)
    else match Insert(t, collation, req.username, req.email, Hash(kdf, req.password, salt))
      // the store refuses a row too wide for its columns, or one whose cut-down key collides
      case None => Outcome(ServerError, t)
      case Some(t') =>
        assert FitsColumns(t, req.username, req.email);
        assert t' == Table(t.rows + [NewRow(t, kdf, salt, req)], t.nextId + 1);
        if fault == Some(ReselectUser) then Outcome(ServerError, t')
        else match FindById(t'.rows, t.nextId)
          // reading `user.id` of a missing row throws; in a well-formed table the new row is found
          case None => Outcome(ServerError, t')
          case Some(user) =>
            // the only step left that can throw is signing the token
            match fault
            case Some(_) => Outcome(ServerError, t')
            case None => Outcome(Response(201, Session(sign(Claims(user.id)), Project(user))), t')
  }

  /** When both checks pass and the INSERT accepts the row, re-selecting by the new id finds it. */
  lemma InsertThenReselect(t: Table, collation: Collation, kdf: Kdf, salt: Salt, req: RegisterRequest)
    requires WellFormed(t, collation)
    requires KeysFree(t.rows, collation, req.username, req.email)
    requires Insertable(t, collation, req)
    ensures FindByUsername(t.rows, collation, req.username).None?
    ensures FindByEmail(t.rows, collation, req.email).None?
    ensures Insert(t, collation, req.username, req.email, Hash(kdf, req.password, salt))
              == Some(Table(t.rows + [NewRow(t, kdf, salt, req)], t.nextId + 1))
    ensures FindById(t.rows + [NewRow(t, kdf, salt, req)], t.nextId) == Some(NewRow(t, kdf, salt, req))
  {
    FindAppendedById(t, collation, NewRow(t, kdf, salt, req));
  }

  /** A taken username is reported whatever the email, and nothing is written. */
  lemma UsernameConflict(t: Table, collation: Collation, kdf: Kdf, sign: Signer, salt: Salt,
                         req: RegisterRequest, fault: Option<RegisterStep>)
    requires fault != Some(FindUsername)
    requires exists u :: u in t.rows && collation(u.username) == collation(req.username)
    ensures RegisterOutcome(t, collation, kdf, sign, salt, req, fault)
              == Outcome(Response(400, Message(UsernameTaken)), t)
  {
  }

  /** A free username with a taken email is reported as such, and nothing is written. */
  lemma EmailConflict(t: Table, collation: Collation, kdf: Kdf, sign: Signer, salt: Salt,
                      req: RegisterRequest, fault: Option<RegisterStep>)
    requires fault != Some(FindUsername) && fault != Some(FindEmail)
    requires forall u :: u in t.rows ==> collation(u.username) != collation(req.username)
    requires exists u :: u in t.rows && collation(u.email) == collation(req.email)
    ensures RegisterOutcome(t, collation, kdf, sign, salt, req, fault)
              == Outcome(Response(400, Message(EmailTaken)), t)
  {
  }

  /**
   * With both keys free, the row accepted and no failure, exactly the new row is
   * added, holding the kept username and email and the hash of the password, and
   * the answer is 201 with a token over the new id and the new row's public
   * projection.  A username or email of at most 255 characters is kept as given.
   */
  lemma RegisterSucceeds(t: Table, collation: Collation, kdf: Kdf, sign: Signer, salt: Salt,
                         req: RegisterRequest)
    requires WellFormed(t, collation)
    requires KeysFree(t.rows, collation, req.username, req.email)
    requires Insertable(t, collation, req)
    ensures var o := RegisterOutcome(t, collation, kdf, sign, salt, req, None);
            && o.table.rows == t.rows + [UserRow(t.nextId, Stored(req.username), Stored(req.email),
                                                 Hash(kdf, req.password, salt))]
            && o.response == Response(201, Session(sign(Claims(t.nextId)),
                                                   PublicUser(t.nextId, Stored(req.username), Stored(req.email))))
  {
    InsertThenReselect(t, collation, kdf, salt, req);
  }

  /**
   * Every failing step the handler reaches answers the generic 500.  Failures
   * before the INSERT leave the table as it was; failures after it (re-selecting
   * the row, signing the token) leave the new row in place although the caller
   * is told registration failed.
   */
  lemma RegisterServerError(t: Table, collation: Collation, kdf: Kdf, sign: Signer, salt: Salt,
                            req: RegisterRequest, step: RegisterStep)
    requires Reaches(t, collation, req, step)
    ensures var o := RegisterOutcome(t, collation, kdf, sign, salt, req, Some(step));
            && o.response == ServerError
            && (o.table == t <==> step in {FindUsername, FindEmail, HashPassword, InsertUser})
            && (o.table != t ==> o.table == Table(t.rows + [NewRow(t, kdf, salt, req)], t.nextId + 1))
  {
    if step in {ReselectUser, SignToken} {
      var o := RegisterOutcome(t, collation, kdf, sign, salt, req, Some(step));
      assert Insert(t, collation, req.username, req.email, Hash(kdf, req.password, salt)).Some?;
      assert |o.table.rows| == |t.rows| + 1;
    }
  }

  /**
   * A row the INSERT refuses passes both checks and gets the generic 500 with
   * nothing written.  That happens when a username or email would lose more
   * than trailing spaces to its column, when the id range is exhausted, or when
   * the cut-down username or email collides although the given one did not.
   */
  lemma RegisterInsertRefused(t: Table, collation: Collation, kdf: Kdf, sign: Signer, salt: Salt,
                              req: RegisterRequest)
    requires KeysFree(t.rows, collation, req.username, req.email)
    requires !Insertable(t, collation, req)
    ensures RegisterOutcome(t, collation, kdf, sign, salt, req, None) == Outcome(ServerError, t)
  {
    var inserted := Insert(t, collation, req.username, req.email, Hash(kdf, req.password, salt));
    assert inserted.None?;
  }

  /** Registration keeps ids, usernames and emails unique. */
  lemma RegisterPreservesUniqueness(t: Table, collation: Collation, kdf: Kdf, sign: Signer, salt: Salt,
                                    req: RegisterRequest, fault: Option<RegisterStep>)
    requires WellFormed(t, collation)
    ensures WellFormed(RegisterOutcome(t, collation, kdf, sign, salt, req, fault).table, collation)
  {
    var o := RegisterOutcome(t, collation, kdf, sign, salt, req, fault);
    if o.table != t {
      // only a successful INSERT changes the table, and the store checked the UNIQUE keys
      var inserted := Insert(t, collation, req.username, req.email, Hash(kdf, req.password, salt));
      assert inserted.Some? && o.table == inserted.value;
    }
  }

  /** The users table, owned by the handler that inserts into it. */
  class UserStore {
    const collation: Collation
    var rows: seq<UserRow>
    var nextId: int

    function Contents(): Table
      reads this
    {
      Table(rows, nextId)
    }

    predicate Valid()
      reads this
    {
      WellFormed(Contents(), collation)
    }

    /** `CREATE TABLE users`: empty, ids starting at 1. */
    constructor (collation: Collation)
      ensures Valid() && this.collation == collation
      ensures rows == [] && nextId == 1
    {
      this.collation := collation;
      rows := [];
      nextId := 1;
    }

    method Register(kdf: Kdf, sign: Signer, salt: Salt, req: RegisterRequest, fault: Option<RegisterStep>)
      returns (response: Response)
      requires Valid()
      modifies this
      ensures Valid()
      ensures Outcome(response, Contents()) == RegisterOutcome(old(Contents()), collation, kdf, sign, salt, req, fault)
    {
      if fault == Some(FindUsername) {
        return ServerError;
      }
      var userByUsername := FindByUsername(rows, collation, req.username);
      if userByUsername.Some? {
        return Response(400, Message(UsernameTaken));
      }
      if fault == Some(FindEmail) {
        return ServerError;
      }
      var userByEmail := FindByEmail(rows, collation, req.email);
      if userByEmail.Some? {
        return Response(400, Message(EmailTaken));
      }
      if fault == Some(HashPassword) {
        return ServerError;
      }
      var hashedPassword := Hash(kdf, req.password, salt);
      if fault == Some(InsertUser) {
        return ServerError;
      }
      var inserted := Insert(Contents(), collation, req.username, req.email, hashedPassword);
      if inserted.None? {
        return ServerError;
      }
      var insertId := nextId;
      rows, nextId := inserted.value.rows, inserted.value.nextId;
      if fault == Some(ReselectUser) {
        return ServerError;
      }
      var user := FindById(rows, insertId);
      if user.None? {
        return ServerError;
      }
      if fault.Some? {
        // the only step left that can throw is signing the token
        return ServerError;
      }
      var token := sign(Claims(user.value.id));
      response := Response(201, Session(token, Project(user.value)));
    }
  }
}
