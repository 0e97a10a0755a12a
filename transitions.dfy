/**
 * What each request handler of modules/api/v1/serializers.py does to the three
 * tables, as functions from the tables before the request to the outcome and
 * the tables after it, together with the properties the handlers promise.
 *
 * Confirmation expiry appears nowhere in these functions: no handler reads
 * `expired`.
 */
module Transitions {
  import opened Wrappers
  import opened Models
  import opened Managers
  import opened Exceptions
  import opened Tokens

  /** The three tables: users by email, confirmation rows, token keys by user email. */
  datatype Db = Db(users: map<string, User>, rows: seq<Confirmation>, tokens: map<string, string>)

  /**
   * The invariant of the tables: every schema constraint holds and no row or
   * token refers to a missing user.
   */
  ghost predicate Consistent(db: Db)
  {
    && UsersKeyed(db.users)
    && ConfirmationsValid(db.rows)
    && (forall i :: 0 <= i < |db.rows| ==> db.rows[i].user in db.users)
    && db.tokens.Keys <= db.users.Keys
    && KeysUnique(db.tokens)
  }

  /** How a request fails: an API error raised by the handler, or an unhandled manager error. */
  datatype Failure = ApiError(kind: ErrorKind, details: string) | ServerError(cause: ManagerError)

  /** The outcome of a request and the tables after it. */
  datatype Step<T> = Step(result: Result<T, Failure>, db: Db)

  const USER_NOT_FOUND: string := "User not found"
  const CODES_NOT_MATCH: string := "Codes don't match"
  const PASSWORD_INCORRECT: string := "Password incorrect"
  const USER_INACTIVE: string := "User not active"

  /** The response body an API failure evidently should carry (see Exceptions.FreshDetail). */
  function ErrorBody(f: Failure): (body: map<string, string>)
    requires f.ApiError?
    ensures WellFormedDetail(body)
    ensures f.details != "" ==> body[DETAILS_KEY] == f.details
  {
    FreshDetail(f.kind, Some(f.details), None)
  }

  /** An inserted user row keeps the invariant, provided the email is new. */
  lemma AddUserKeepsConsistent(db: Db, u: User)
    requires Consistent(db) && u.email !in db.users
    ensures Consistent(db.(users := db.users[u.email := u]))
  {
  }

  /** Adding a confirmation for an existing user keeps the invariant. */
  lemma AddRowKeepsConsistent(db: Db, c: Confirmation)
    requires Consistent(db) && c.user in db.users
    requires ConfirmationsValid(db.rows + [c])
    ensures Consistent(db.(rows := db.rows + [c]))
  {
    assert forall i :: 0 <= i < |db.rows| ==> (db.rows + [c])[i] == db.rows[i];
  }

  // ---------------------------------------------------------------------------
  // RegistrationSerializer.create
  // ---------------------------------------------------------------------------

  /**
   * Registration: create the user from the validated fields, then one
   * confirmation for that user. A failed confirmation insert does not undo
   * the user insert.
   */
  function Register(db: Db, email: string, password: string, name: string, surname: string,
                    now: int, attempts: seq<seq<nat>>): (s: Step<User>)
    ensures Consistent(db) ==> Consistent(s.db)
    ensures s.db.tokens == db.tokens
  {
    match UserCreate(db.users, email, password, UserFields(Some(name), Some(surname), None, None, None))
    case Failure(e) => Step(Failure(ServerError(e)), db)
    case Success(u) =>
      var withUser := db.(users := db.users[u.email := u]);
      match ConfirmationCreate(db.rows, u.email, now, attempts)
      case Failure(e) =>
        assert Consistent(db) ==> Consistent(withUser) by {
          if Consistent(db) { AddUserKeepsConsistent(db, u); }
        }
        Step(Failure(ServerError(e)), withUser)
      case Success(c) =>
        var after := withUser.(rows := db.rows + [c]);
        assert Consistent(db) ==> Consistent(after) by {
          if Consistent(db) {
            AddUserKeepsConsistent(db, u);
            AddRowKeepsConsistent(withUser, c);
          }
        }
        Step(Success(u), after)
  }

  /**
   * When registration succeeds: exactly when the normalized email is new and
   * the confirmation insert for it succeeds. A duplicate email fails with an
   * integrity error, any other failure is the insert's own, and a success
   * appends exactly the row the insert created.
   */
  lemma RegisterOutcome(db: Db, email: string, password: string, name: string, surname: string,
                        now: int, attempts: seq<seq<nat>>)
    ensures var s, key := Register(db, email, password, name, surname, now, attempts), NormalizeEmail(email);
            var created := ConfirmationCreate(db.rows, key, now, attempts);
            && (s.result.Success? <==> key !in db.users && created.Success?)
            && (s.result.Failure? ==>
                  s.result.error == ServerError(if key in db.users then IntegrityError else created.error))
            && (s.result.Success? ==> s.db.rows == db.rows + [created.value])
  {
    var fields := UserFields(Some(name), Some(surname), None, None, None);
    var made := UserCreate(db.users, email, password, fields);
    if made.Success? {
      assert made.value.email == NormalizeEmail(email);
    }
  }

  /**
   * A successful registration stores exactly one new user, inactive and
   * unprivileged, who accepts the given password; it adds exactly one
   * confirmation row, and that row is the new user's only one.
   */
  lemma RegisterEffects(db: Db, email: string, password: string, name: string, surname: string,
                        now: int, attempts: seq<seq<nat>>)
    requires Consistent(db)
    requires Register(db, email, password, name, surname, now, attempts).result.Success?
    ensures var s := Register(db, email, password, name, surname, now, attempts);
            var u := s.result.value;
            && u.email == NormalizeEmail(email) && u.email !in db.users
            && !u.isActive && !u.isStaff && !u.isSuperuser
            && u.name == name && u.surname == surname
            && CheckPassword(u.password, password)
            && s.db.users == db.users[u.email := u]
            && |s.db.rows| == |db.rows| + 1 && s.db.rows[..|db.rows|] == db.rows
            && s.db.rows[|db.rows|].user == u.email
            && OwnedBy(s.db.rows, u.email) == [s.db.rows[|db.rows|]]
  {
    var s := Register(db, email, password, name, surname, now, attempts);
    var u := s.result.value;
    var c := s.db.rows[|db.rows|];
    assert s.db.rows == db.rows + [c];
    OwnedByNewUser(db.rows, c, u.email);
  }

  /** A user with no rows owns exactly the row appended for them. */
  lemma {:induction false} OwnedByNewUser(rows: seq<Confirmation>, c: Confirmation, user: string)
    requires forall i :: 0 <= i < |rows| ==> rows[i].user != user
    requires c.user == user
    ensures OwnedBy(rows + [c], user) == [c]
  {
    if rows == [] {
      assert OwnedBy([c][1..], user) == [];
    } else {
      assert (rows + [c])[1..] == rows[1..] + [c];
      OwnedByNewUser(rows[1..], c, user);
    }
  }

  /**
   * A failed registration leaves the confirmations and tokens as they were. A
   * duplicate email changes nothing; for a new email the user insert has
   * already happened, so the new user stays in the table.
   */
  lemma RegisterFailureAddsNoRow(db: Db, email: string, password: string, name: string, surname: string,
                                 now: int, attempts: seq<seq<nat>>)
    requires Register(db, email, password, name, surname, now, attempts).result.Failure?
    ensures var s := Register(db, email, password, name, surname, now, attempts);
            s.db.rows == db.rows && s.db.tokens == db.tokens
            && s.result.error.ServerError?
            && (s.result.error.cause == IntegrityError && NormalizeEmail(email) in db.users ==> s.db == db)
    ensures var s, key := Register(db, email, password, name, surname, now, attempts), NormalizeEmail(email);
            key !in db.users ==>
              s.db.users == db.users[key := NewUser(email, password, UserFields(Some(name), Some(surname), None, None, None))]
  {
  }

  // ---------------------------------------------------------------------------
  // VerificationSerializer.validate and RestorePasswordSerializer.validate
  // ---------------------------------------------------------------------------

  /**
   * Verification: find the row by code, activate its user, delete the row.
   * Whether the row has expired is not looked at.
   */
  function Verify(db: Db, code: string): (s: Step<()>)
    requires Consistent(db)
    ensures Consistent(s.db)
    ensures s.db.tokens == db.tokens
    ensures s.result.Failure? ==> s.db == db
  {
    match FindByCode(db.rows, code)
    case None => Step(Failure(ApiError(NotFound, USER_NOT_FOUND)), db)
    case Some(i) =>
      var verification := db.rows[i];
      if verification.code != code then Step(Failure(ApiError(Conflict, CODES_NOT_MATCH)), db)
      else
        var user := db.users[verification.user].(isActive := true);
        var after := db.(users := db.users[user.email := user], rows := RemoveRecord(db.rows, verification));
        assert Consistent(after) by { ConsumeKeepsConsistent(db, i, user); }
        Step(Success(()), after)
  }

  /**
   * Restore-password change: find the row by code, give its user the new
   * password, delete the row.
   */
  function RestoreChange(db: Db, code: string, password: string): (s: Step<()>)
    requires Consistent(db)
    ensures Consistent(s.db)
    ensures s.db.tokens == db.tokens
    ensures s.result.Failure? ==> s.db == db
  {
    match FindByCode(db.rows, code)
    case None => Step(Failure(ApiError(NotFound, USER_NOT_FOUND)), db)
    case Some(i) =>
      var verification := db.rows[i];
      if verification.code != code then Step(Failure(ApiError(Conflict, CODES_NOT_MATCH)), db)
      else
        var user := db.users[verification.user].(password := SetPassword(password));
        var after := db.(users := db.users[user.email := user], rows := RemoveRecord(db.rows, verification));
        assert Consistent(after) by { ConsumeKeepsConsistent(db, i, user); }
        Step(Success(()), after)
  }

  /** Rewriting the owner of row i and deleting row i keeps the invariant. */
  lemma ConsumeKeepsConsistent(db: Db, i: nat, user: User)
    requires Consistent(db) && i < |db.rows|
    requires user.email == db.rows[i].user
    ensures RemoveRecord(db.rows, db.rows[i]) == db.rows[..i] + db.rows[i + 1..]
    ensures Consistent(db.(users := db.users[user.email := user], rows := RemoveRecord(db.rows, db.rows[i])))
  {
    RemoveUniqueRecord(db.rows, i);
    RemoveAtKeepsValid(db.rows, i);
    var rest := db.rows[..i] + db.rows[i + 1..];
    assert forall k :: 0 <= k < |rest| ==> rest[k] == db.rows[if k < i then k else k + 1];
  }

  /** A code held by no row: both code handlers fail with NotFound and change nothing. */
  lemma UnknownCodeNotFound(db: Db, code: string, password: string)
    requires Consistent(db) && !CodeInUse(db.rows, code)
    ensures Verify(db, code) == Step(Failure(ApiError(NotFound, USER_NOT_FOUND)), db)
    ensures RestoreChange(db, code, password) == Step(Failure(ApiError(NotFound, USER_NOT_FOUND)), db)
  {
  }

  /**
   * The "codes don't match" branch is dead: the row was looked up by an equal
   * code, so neither code handler ever raises Conflict.
   */
  lemma CodesNeverMismatch(db: Db, code: string, password: string)
    requires Consistent(db)
    ensures Verify(db, code).result != Failure(ApiError(Conflict, CODES_NOT_MATCH))
    ensures RestoreChange(db, code, password).result != Failure(ApiError(Conflict, CODES_NOT_MATCH))
    ensures Verify(db, code).result.Failure? ==> Verify(db, code).result.error.kind == NotFound
    ensures RestoreChange(db, code, password).result.Failure? ==>
              RestoreChange(db, code, password).result.error.kind == NotFound
  {
  }

  /**
   * Verifying an existing code, live or expired: its owner becomes active and
   * nothing else about any user changes; exactly that row is deleted and the
   * other rows stay in order; a second verification with the same code then
   * fails with NotFound and changes nothing.
   */
  lemma VerifyConsumesCode(db: Db, i: nat)
    requires Consistent(db) && i < |db.rows|
    ensures var s := Verify(db, db.rows[i].code);
            var owner := db.rows[i].user;
            && s.result == Success(())
            && s.db.users == db.users[owner := db.users[owner].(isActive := true)]
            && s.db.rows == db.rows[..i] + db.rows[i + 1..]
            && Verify(s.db, db.rows[i].code) == Step(Failure(ApiError(NotFound, USER_NOT_FOUND)), s.db)
  {
    var code := db.rows[i].code;
    FindByCodeUnique(db.rows, code, i);
    ConsumeKeepsConsistent(db, i, db.users[db.rows[i].user].(isActive := true));
    RemoveAtKeepsValid(db.rows, i);
  }

  /** An expired confirmation still verifies: `active()` excludes it, yet the handler accepts it. */
  lemma VerifyIgnoresExpiry(db: Db, i: nat, now: int)
    requires Consistent(db) && i < |db.rows|
    requires db.rows[i].expired <= now
    ensures db.rows[i] !in ActiveAt(db.rows, now)
    ensures Verify(db, db.rows[i].code).result == Success(())
  {
    VerifyConsumesCode(db, i);
  }

  /**
   * Restoring the password with an existing code: its owner now accepts
   * exactly the new password, nothing else about the owner changes, exactly
   * that row is deleted, and the code cannot be used again.
   */
  lemma RestoreChangeConsumesCode(db: Db, i: nat, password: string)
    requires Consistent(db) && i < |db.rows|
    ensures var s := RestoreChange(db, db.rows[i].code, password);
            var owner := db.rows[i].user;
            && s.result == Success(())
            && s.db.users == db.users[owner := db.users[owner].(password := SetPassword(password))]
            && (forall attempt :: CheckPassword(s.db.users[owner].password, attempt) <==> attempt == password)
            && s.db.rows == db.rows[..i] + db.rows[i + 1..]
            && RestoreChange(s.db, db.rows[i].code, password).result == Failure(ApiError(NotFound, USER_NOT_FOUND))
  {
    var code := db.rows[i].code;
    FindByCodeUnique(db.rows, code, i);
    ConsumeKeepsConsistent(db, i, db.users[db.rows[i].user].(password := SetPassword(password)));
    RemoveAtKeepsValid(db.rows, i);
  }

  // ---------------------------------------------------------------------------
  // ReverificationSerializer.validate and RestorePasswordRequestSerializer.validate
  // ---------------------------------------------------------------------------

  /**
   * Reverification and the restore-password request do the same to the
   * tables: look the user up by the exact email and create one confirmation
   * for them. They differ only in the email sent.
   */
  function IssueCode(db: Db, email: string, now: int, attempts: seq<seq<nat>>): (s: Step<()>)
    requires Consistent(db)
    ensures Consistent(s.db)
    ensures s.db.users == db.users && s.db.tokens == db.tokens
    ensures s.result.Failure? ==> s.db == db
    ensures s.result.Success? <==> email in db.users && ConfirmationCreate(db.rows, email, now, attempts).Success?
    ensures email !in db.users ==> s.result == Failure(ApiError(NotFound, USER_NOT_FOUND))
    ensures email in db.users && s.result.Failure? ==>
              s.result.error == ServerError(ConfirmationCreate(db.rows, email, now, attempts).error)
    ensures s.result.Success? ==> s.db.rows == db.rows + [ConfirmationCreate(db.rows, email, now, attempts).value]
  {
    if email !in db.users then Step(Failure(ApiError(NotFound, USER_NOT_FOUND)), db)
    else
      var user := db.users[email];
      match ConfirmationCreate(db.rows, user.email, now, attempts)
      case Failure(e) => Step(Failure(ServerError(e)), db)
      case Success(c) =>
        AddRowKeepsConsistent(db, c);
        Step(Success(()), db.(rows := db.rows + [c]))
  }

  /**
   * An unknown email fails with NotFound and creates no row; for a known
   * email a success adds exactly one row, owned by that user and live for
   * LIFETIME from now.
   */
  lemma IssueCodeEffects(db: Db, email: string, now: int, attempts: seq<seq<nat>>)
    requires Consistent(db)
    ensures email !in db.users ==>
              IssueCode(db, email, now, attempts) == Step(Failure(ApiError(NotFound, USER_NOT_FOUND)), db)
    ensures IssueCode(db, email, now, attempts).result.Success? ==>
              var rows := IssueCode(db, email, now, attempts).db.rows;
              && email in db.users
              && |rows| == |db.rows| + 1 && rows[..|db.rows|] == db.rows
              && rows[|db.rows|].user == email && rows[|db.rows|].expired == now + LIFETIME
              && |OwnedBy(rows, email)| == |OwnedBy(db.rows, email)| + 1
  {
    var s := IssueCode(db, email, now, attempts);
    if s.result.Success? {
      var c := s.db.rows[|db.rows|];
      assert s.db.rows == db.rows + [c];
      OwnedByAppend(db.rows, c, email);
    }
  }

  /** Appending a row of `user` adds one to the rows `for_user` returns. */
  lemma {:induction false} OwnedByAppend(rows: seq<Confirmation>, c: Confirmation, user: string)
    requires c.user == user
    ensures OwnedBy(rows + [c], user) == OwnedBy(rows, user) + [c]
  {
    if rows == [] {
      assert OwnedBy([c][1..], user) == [];
    } else {
      assert (rows + [c])[1..] == rows[1..] + [c];
      OwnedByAppend(rows[1..], c, user);
    }
  }

  // ---------------------------------------------------------------------------
  // ChangePasswordSerializer
  // ---------------------------------------------------------------------------

  /**
   * Change password for the authenticated user: `validate_current_password`
   * rejects a wrong current password with Conflict; `update` then stores the
   * new one.
   */
  function ChangePassword(db: Db, email: string, currentPassword: string, password: string)
    : (s: Step<User>)
    requires Consistent(db) && email in db.users
    ensures Consistent(s.db)
    ensures s.db.rows == db.rows && s.db.tokens == db.tokens
    ensures !CheckPassword(db.users[email].password, currentPassword) ==>
              s == Step(Failure(ApiError(Conflict, PASSWORD_INCORRECT)), db)
    ensures CheckPassword(db.users[email].password, currentPassword) ==>
              && s.result.Success?
              && s.db.users == db.users[email := db.users[email].(password := SetPassword(password))]
  {
    var instance := db.users[email];
    if !CheckPassword(instance.password, currentPassword) then
      Step(Failure(ApiError(Conflict, PASSWORD_INCORRECT)), db)
    else
      var updated := instance.(password := SetPassword(password));
      Step(Success(updated), db.(users := db.users[email := updated]))
  }

  // ---------------------------------------------------------------------------
  // AuthenticationSerializer.validate
  // ---------------------------------------------------------------------------

  /**
   * Authentication: an unknown email and a wrong password both fail with
   * NotFound; an inactive user fails with Forbidden; otherwise the user's
   * token key is returned, created on the first login.
   */
  function Authenticate(db: Db, email: string, password: string, freshKey: string): (s: Step<string>)
    ensures s.db.users == db.users && s.db.rows == db.rows
    ensures Consistent(db) && freshKey !in db.tokens.Values ==> Consistent(s.db)
    ensures s.result.Failure? ==> s.db == db
    ensures s.result.Success? ==> s.db.tokens == db.tokens[email := s.result.value]
  {
    if email !in db.users || !CheckPassword(db.users[email].password, password) then
      Step(Failure(ApiError(NotFound, USER_NOT_FOUND)), db)
    else if !db.users[email].isActive then
      Step(Failure(ApiError(Forbidden, USER_INACTIVE)), db)
    else
      var key := KeyFor(db.tokens, email, freshKey);
      assert Consistent(db) && freshKey !in db.tokens.Values ==> KeysUnique(db.tokens[email := key]) by {
        if Consistent(db) && freshKey !in db.tokens.Values { GetOrCreateTable(db.tokens, email, freshKey); }
      }
      Step(Success(key), db.(tokens := db.tokens[email := key]))
  }

  /**
   * The outcomes of authentication, case by case, and the same token on a
   * repeated login, which then changes nothing.
   */
  lemma AuthenticateOutcomes(db: Db, email: string, password: string, freshKey: string, freshKey': string)
    requires Consistent(db)
    ensures email !in db.users ==>
              Authenticate(db, email, password, freshKey).result == Failure(ApiError(NotFound, USER_NOT_FOUND))
    ensures email in db.users && !CheckPassword(db.users[email].password, password) ==>
              Authenticate(db, email, password, freshKey).result == Failure(ApiError(NotFound, USER_NOT_FOUND))
    ensures email in db.users && CheckPassword(db.users[email].password, password) && !db.users[email].isActive ==>
              Authenticate(db, email, password, freshKey).result == Failure(ApiError(Forbidden, USER_INACTIVE))
    ensures email in db.users && CheckPassword(db.users[email].password, password) && db.users[email].isActive ==>
              var first := Authenticate(db, email, password, freshKey);
              var second := Authenticate(first.db, email, password, freshKey');
              && first.result.Success?
              && (email in db.tokens ==> first.result.value == db.tokens[email] && first.db == db)
              && (email !in db.tokens ==>
                    first.result.value == freshKey && first.db == db.(tokens := db.tokens[email := freshKey]))
              && second.result == first.result
              && second.db == first.db
  {
    if email in db.users && CheckPassword(db.users[email].password, password) && db.users[email].isActive {
      var first := Authenticate(db, email, password, freshKey);
      assert first.db.tokens[email := first.db.tokens[email]] == first.db.tokens;
      if email in db.tokens {
        assert db.tokens[email := db.tokens[email]] == db.tokens;
      }
    }
  }

  /**
   * The response a login with the right password but an inactive account
   * gets: status 403 with the "User not active" message in its body.
   */
  lemma InactiveLoginResponse(db: Db, email: string, password: string, freshKey: string)
    requires email in db.users && CheckPassword(db.users[email].password, password)
    requires !db.users[email].isActive
    ensures var r := Authenticate(db, email, password, freshKey).result;
            && r.Failure? && r.error.ApiError?
            && StatusCode(r.error.kind) == 403
            && ErrorBody(r.error)[DETAILS_KEY] == USER_INACTIVE
            && ErrorBody(r.error)[STATUS_KEY] == ERROR
  {
  }

  /**
   * Password round trips: after a password change or a restore, logging in
   * with the new password gets past the password check and the old one, if
   * different, no longer does.
   */
  lemma NewPasswordAuthenticates(db: Db, email: string, currentPassword: string, password: string,
                                 freshKey: string)
    requires Consistent(db) && email in db.users
    requires CheckPassword(db.users[email].password, currentPassword)
    ensures var s := ChangePassword(db, email, currentPassword, password);
            && Authenticate(s.db, email, password, freshKey).result != Failure(ApiError(NotFound, USER_NOT_FOUND))
            && (currentPassword != password ==>
                Authenticate(s.db, email, currentPassword, freshKey).result == Failure(ApiError(NotFound, USER_NOT_FOUND)))
  {
  }

  // ---------------------------------------------------------------------------
  // End to end
  // ---------------------------------------------------------------------------

  /**
   * Register with an already-normalized email, verify the code that was
   * issued, then log in: the login yields a token, and the code cannot be
   * verified a second time. Before verification the same login is Forbidden.
   */
  lemma RegisterVerifyLogin(db: Db, email: string, password: string, name: string, surname: string,
                            now: int, attempts: seq<seq<nat>>, freshKey: string)
    requires Consistent(db) && NormalizeEmail(email) == email
    requires Register(db, email, password, name, surname, now, attempts).result.Success?
    ensures var registered := Register(db, email, password, name, surname, now, attempts).db;
            && registered.rows != []
            && var code := registered.rows[|registered.rows| - 1].code;
            var verified := Verify(registered, code);
            && Authenticate(registered, email, password, freshKey).result == Failure(ApiError(Forbidden, USER_INACTIVE))
            && verified.result == Success(())
            && Verify(verified.db, code).result == Failure(ApiError(NotFound, USER_NOT_FOUND))
            && Authenticate(verified.db, email, password, freshKey).result.Success?
  {
    var first := Register(db, email, password, name, surname, now, attempts);
    RegisterEffects(db, email, password, name, surname, now, attempts);
    var registered := first.db;
    var u := first.result.value;
    assert u.email == email;
    assert registered.users[email] == u;
    var i := |registered.rows| - 1;
    assert registered.rows[i].user == email;
    assert Authenticate(registered, email, password, freshKey).result == Failure(ApiError(Forbidden, USER_INACTIVE));
    VerifyConsumesCode(registered, i);
    var verified := Verify(registered, registered.rows[i].code);
    assert verified.db.users[email] == u.(isActive := true);
    assert Authenticate(verified.db, email, password, freshKey).result.Success?;
  }

  /**
   * Registration stores the normalized address, while reverification, the
   * restore request and login look the address up exactly as given. An
   * address that normalization changes, such as one with capitals in its
   * domain, is therefore unknown to those three handlers right after it was
   * registered.
   */
  lemma RegisteredAddressNotFoundAsTyped(db: Db, email: string, password: string, name: string, surname: string,
                                         now: int, attempts: seq<seq<nat>>, freshKey: string,
                                         later: int, laterAttempts: seq<seq<nat>>)
    requires Consistent(db) && email !in db.users && NormalizeEmail(email) != email
    requires Register(db, email, password, name, surname, now, attempts).result.Success?
    ensures var registered := Register(db, email, password, name, surname, now, attempts).db;
            && NormalizeEmail(email) in registered.users && email !in registered.users
            && IssueCode(registered, email, later, laterAttempts).result == Failure(ApiError(NotFound, USER_NOT_FOUND))
            && Authenticate(registered, email, password, freshKey).result == Failure(ApiError(NotFound, USER_NOT_FOUND))
  {
    RegisterEffects(db, email, password, name, surname, now, attempts);
  }

  /**
   * Such addresses exist: an address with no whitespace at its ends and a
   * capital letter in its domain is stored with that domain lower-cased, so
   * the stored key differs from the address as typed.
   */
  lemma CapitalDomainIsLowered(name: string, domain: string, k: nat)
    requires name == [] || !IsSpace(name[0])
    requires domain == [] || !IsSpace(domain[|domain| - 1])
    requires forall j :: 0 <= j < |domain| ==> domain[j] != '@'
    requires k < |domain| && 'A' <= domain[k] <= 'Z'
    ensures NormalizeEmail(name + "@" + domain) == name + "@" + LowerAll(domain)
    ensures NormalizeEmail(name + "@" + domain) != name + "@" + domain
  {
    JoinedNormalized(name, domain);
    LoweredDomainDiffers(name, domain, k);
  }

  /** Normalizing an address joined at an '@' lower-cases the part after it. */
  lemma JoinedNormalized(name: string, domain: string)
    requires name == [] || !IsSpace(name[0])
    requires domain == [] || !IsSpace(domain[|domain| - 1])
    requires forall j :: 0 <= j < |domain| ==> domain[j] != '@'
    ensures NormalizeEmail(name + "@" + domain) == name + "@" + LowerAll(domain)
  {
    JoinedIsStripped(name, domain);
    JoinAtShape(name, domain);
  }

  /** A domain with a capital letter changes when lower-cased, and so does the address. */
  lemma LoweredDomainDiffers(name: string, domain: string, k: nat)
    requires k < |domain| && 'A' <= domain[k] <= 'Z'
    ensures name + "@" + LowerAll(domain) != name + "@" + domain
  {
    var lowered := LowerAll(domain);
    CapitalIsLowered(domain[k]);
    var p := |name| + 1 + k;
    assert (name + "@" + lowered)[p] == lowered[k] != domain[k];
    assert (name + "@" + domain)[p] == domain[k];
  }
}
