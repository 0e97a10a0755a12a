/**
 * The request handlers of modules/api/v1/serializers.py, step by step over
 * the three managers. Each handler is proved to leave the tables exactly as
 * the corresponding function of module Transitions says, and to keep the
 * tables' invariant. Sending email is I/O and is not modelled.
 */
module Serializers {
  import opened Wrappers
  import opened Models
  import opened Managers
  import opened Exceptions
  import opened Tokens
  import opened Transitions

  /** The managers the handlers reach through `objects`. */
  class Store {
    const users: UserManager
    const confirmations: ConfirmationManager
    const tokens: TokenManager

    /** The tables as one value. */
    function State(): Db
      reads this, users, confirmations, tokens
    {
      Db(users.users, confirmations.rows, tokens.keys)
    }

    ghost predicate Valid()
      reads this, users, confirmations, tokens
    {
      users.Valid() && confirmations.Valid() && tokens.Valid() && Consistent(State())
    }

    constructor ()
      ensures Valid() && State() == Db(map[], [], map[])
      ensures fresh(users) && fresh(confirmations) && fresh(tokens)
    {
      users := new UserManager();
      confirmations := new ConfirmationManager();
      tokens := new TokenManager();
    }
  }

  /** `RegistrationSerializer.create`. */
  method Registration(store: Store, email: string, password: string, name: string, surname: string,
                      now: int, attempts: seq<seq<nat>>) returns (r: Result<User, Failure>)
    requires store.Valid()
    modifies store.users, store.confirmations
    ensures Step(r, store.State()) == Register(old(store.State()), email, password, name, surname, now, attempts)
    ensures store.Valid()
  {
    ghost var db := store.State();
    var created := store.users.CreateUser(email, password, UserFields(Some(name), Some(surname), None, None, None));
    if created.Failure? {
      assert store.users.users == db.users && store.confirmations.rows == db.rows;
      return Failure(ServerError(created.error));
    }
    var user := created.value;
    assert store.users.users == db.users[user.email := user] && store.confirmations.rows == db.rows;
    var verification := store.confirmations.Create(user.email, now, attempts);
    if verification.Failure? {
      assert store.confirmations.rows == db.rows;
      return Failure(ServerError(verification.error));
    }
    assert store.confirmations.rows == db.rows + [verification.value];
    r := Success(user);
  }

  /** `VerificationSerializer.validate`. */
  method Verification(store: Store, code: string) returns (r: Result<(), Failure>)
    requires store.Valid()
    modifies store.users, store.confirmations
    ensures Step(r, store.State()) == Verify(old(store.State()), code)
    ensures store.Valid()
  {
    var found := store.confirmations.GetByCode(code);
    if found.None? {
      return Failure(ApiError(NotFound, USER_NOT_FOUND));
    }
    var verification := store.confirmations.rows[found.value];
    if verification.code != code {
      assert false;
    }
    var user := store.users.users[verification.user];
    user := user.(isActive := true);
    store.users.Save(user);
    store.confirmations.Delete(verification);
    r := Success(());
  }

  /** `ReverificationSerializer.validate`. */
  method Reverification(store: Store, email: string, now: int, attempts: seq<seq<nat>>)
    returns (r: Result<(), Failure>)
    requires store.Valid()
    modifies store.confirmations
    ensures Step(r, store.State()) == IssueCode(old(store.State()), email, now, attempts)
    ensures store.Valid()
  {
    var user := store.users.Get(email);
    if user.None? {
      return Failure(ApiError(NotFound, USER_NOT_FOUND));
    }
    var verification := store.confirmations.Create(user.value.email, now, attempts);
    if verification.Failure? {
      return Failure(ServerError(verification.error));
    }
    r := Success(());
  }

  /** `RestorePasswordRequestSerializer.validate`. */
  method RestorePasswordRequest(store: Store, email: string, now: int, attempts: seq<seq<nat>>)
    returns (r: Result<(), Failure>)
    requires store.Valid()
    modifies store.confirmations
    ensures Step(r, store.State()) == IssueCode(old(store.State()), email, now, attempts)
    ensures store.Valid()
  {
    var user := store.users.Get(email);
    if user.None? {
      return Failure(ApiError(NotFound, USER_NOT_FOUND));
    }
    var verification := store.confirmations.Create(user.value.email, now, attempts);
    if verification.Failure? {
      return Failure(ServerError(verification.error));
    }
    r := Success(());
  }

  /** `RestorePasswordSerializer.validate`. */
  method RestorePassword(store: Store, code: string, password: string) returns (r: Result<(), Failure>)
    requires store.Valid()
    modifies store.users, store.confirmations
    ensures Step(r, store.State()) == RestoreChange(old(store.State()), code, password)
    ensures store.Valid()
  {
    var found := store.confirmations.GetByCode(code);
    if found.None? {
      return Failure(ApiError(NotFound, USER_NOT_FOUND));
    }
    var verification := store.confirmations.rows[found.value];
    if verification.code != code {
      assert false;
    }
    var user := store.users.users[verification.user];
    user := user.(password := SetPassword(password));
    store.users.Save(user);
    store.confirmations.Delete(verification);
    r := Success(());
  }

  /**
   * `ChangePasswordSerializer`: `validate_current_password`, then `update`
   * on the authenticated user's row.
   */
  method ChangeUserPassword(store: Store, email: string, currentPassword: string, password: string)
    returns (r: Result<User, Failure>)
    requires store.Valid() && email in store.users.users
    modifies store.users
    ensures Step(r, store.State()) == ChangePassword(old(store.State()), email, currentPassword, password)
    ensures store.Valid()
  {
    var instance := store.users.users[email];
    if !CheckPassword(instance.password, currentPassword) {
      return Failure(ApiError(Conflict, PASSWORD_INCORRECT));
    }
    instance := instance.(password := SetPassword(password));
    store.users.Save(instance);
    r := Success(instance);
  }

  /**
   * `AuthenticationSerializer.validate`: `freshKey` is the key a newly
   * created token would get.
   */
  method Authentication(store: Store, email: string, password: string, freshKey: string)
    returns (r: Result<string, Failure>)
    requires store.Valid() && freshKey !in store.tokens.keys.Values
    modifies store.tokens
    ensures Step(r, store.State()) == Authenticate(old(store.State()), email, password, freshKey)
    ensures store.Valid()
  {
    var user := store.users.Get(email);
    if user.None? || !CheckPassword(user.value.password, password) {
      return Failure(ApiError(NotFound, USER_NOT_FOUND));
    }
    if !user.value.isActive {
      return Failure(ApiError(Forbidden, USER_INACTIVE));
    }
    var key, created := store.tokens.GetOrCreate(user.value.email, freshKey);
    r := Success(key);
  }
}
