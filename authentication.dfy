/**
 * POST /login: look the user up by username, compare the password with the
 * stored hash and answer with a token and the public projection.  It reads
 * the users table and writes nothing.
 */
module Authentication {
  import opened Options
  import opened Credentials
  import opened Wire
  import opened Users
  import opened Registration

  datatype LoginRequest = LoginRequest(username: string, password: string)

  /** The steps of the handler that can throw. */
  datatype LoginStep = FindUser | ComparePassword | SignLoginToken

  const Unauthorized := Response(401, Message(InvalidCredentials))

  /** The login handler over a table value; `fault` names the step that throws, if it is reached. */
  function Login(t: Table, collation: Collation, kdf: Kdf, sign: Signer,
                 req: LoginRequest, fault: Option<LoginStep>): (r: Response)
    ensures r.status in {200, 401, 500}
    ensures r.status == 401 ==> r == Unauthorized
    ensures var found := FindByUsername(t.rows, collation, req.username);
            r.status == 500 ==>
              r == Response(500, Message(LoginFailed)) &&
              (fault == Some(FindUser) ||
               (found.Some? && (fault == Some(ComparePassword) ||
                                (fault == Some(SignLoginToken) && Verify(kdf, req.password, found.value.password)))))
    ensures var found := FindByUsername(t.rows, collation, req.username);
            r.status == 200 <==> fault.None? && found.Some? && Verify(kdf, req.password, found.value.password)
    ensures var found := FindByUsername(t.rows, collation, req.username);
            r.status == 200 ==> r.body == Session(sign(Claims(found.value.id)), Project(found.value))
    ensures fault == Some(FindUser) ==> r == Response(500, Message(LoginFailed))
    ensures var found := FindByUsername(t.rows, collation, req.username);
            fault == Some(ComparePassword) && found.Some? ==> r == Response(500, Message(LoginFailed))
    ensures var found := FindByUsername(t.rows, collation, req.username);
            fault == Some(SignLoginToken) && found.Some? && Verify(kdf, req.password, found.value.password) ==>
              r == Response(500, Message(LoginFailed))
  {
    if fault == Some(FindUser) then Response(500, Message(LoginFailed))
    else match FindByUsername(t.rows, collation, req.username)
      case None => Unauthorized
      case Some(user) =>
        if fault == Some(ComparePassword) then Response(500, Message(LoginFailed))
        else if !Verify(kdf, req.password, user.password) then Unauthorized
        else
          // the only step left that can throw is signing the token
          match fault
          case Some(step) => assert step == SignLoginToken; Response(500, Message(LoginFailed))
          case None => Response(200, Session(sign(Claims(user.id)), Project(user)))
  }

  /**
   * An unknown username and a known username with a wrong password get the same
   * answer, so the answer does not tell which usernames exist.
   */
  lemma FailuresIndistinguishable(t: Table, collation: Collation, kdf: Kdf, sign: Signer,
                                  unknown: LoginRequest, wrong: LoginRequest)
    requires forall u :: u in t.rows ==> collation(u.username) != collation(unknown.username)
    requires exists u :: u in t.rows && collation(u.username) == collation(wrong.username)
                         && !Verify(kdf, wrong.password, u.password)
    requires WellFormed(t, collation)
    ensures Login(t, collation, kdf, sign, unknown, None) == Unauthorized
    ensures Login(t, collation, kdf, sign, wrong, None) == Unauthorized
  {
    var u :| u in t.rows && collation(u.username) == collation(wrong.username)
             && !Verify(kdf, wrong.password, u.password);
    var found := FindByUsername(t.rows, collation, wrong.username);
    // the UNIQUE username makes the row found the row that fails verification
    assert found.value == u by {
      var i :| 0 <= i < |t.rows| && t.rows[i] == found.value;
      var j :| 0 <= j < |t.rows| && t.rows[j] == u;
      assert i == j;
    }
  }

  /**
   * Registering and then logging in with the password and the username
   * registration answered with succeeds for the new id.  That username is the
   * one given unless trailing spaces past the column width were cut off.  The
   * two tokens are signed at different instants, so each request has its own
   * signer.
   */
  lemma RegisterThenLogin(t: Table, collation: Collation, kdf: Kdf, sign: Signer, signLogin: Signer,
                          salt: Salt, req: RegisterRequest)
    requires WellFormed(t, collation)
    requires RegisterOutcome(t, collation, kdf, sign, salt, req, None).response.status == 201
    ensures var o := RegisterOutcome(t, collation, kdf, sign, salt, req, None);
            && o.response.body.user.id == t.nextId
            && FitsVarchar(req.username)
            && o.response.body.user.username == Stored(req.username)
            && Login(o.table, collation, kdf, signLogin, LoginRequest(o.response.body.user.username, req.password), None)
                 == Response(200, Session(signLogin(Claims(t.nextId)), o.response.body.user))
  {
    assert FindByUsername(t.rows, collation, req.username).None?;
    assert FindByEmail(t.rows, collation, req.email).None?;
    assert Insertable(t, collation, req);
    var row := NewRow(t, kdf, salt, req);
    RegisterSucceeds(t, collation, kdf, sign, salt, req);
    assert FindByUsername(t.rows, collation, row.username).None?;
    FindAppendedByUsername(t.rows, collation, row);
  }
}
