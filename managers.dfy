/**
 * The model managers of modules/users/managers.py: UserManager, which creates
 * users, and ConfirmationManager, which draws confirmation codes, inserts
 * confirmation rows and answers the `active` and `for_user` queries.
 *
 * The random source of `get_random_string` is an oracle: `attempts[k]` holds
 * the indices into the alphabet drawn on the k-th pass of the retry loop, and
 * the loop gives up when the oracle has no more attempts to offer.
 */
module Managers {
  import opened Wrappers
  import opened Models

  /** Why a manager call failed. */
  datatype ManagerError =
    | IntegrityError   // the database rejected the insert: a unique column collided
    | OutOfDraws       // the oracle ran out of attempts before the retry loop accepted a code
    | TypeError        // a keyword argument was passed twice

  // ---------------------------------------------------------------------------
  // normalize_email (BaseUserManager.normalize_email of the framework)
  // ---------------------------------------------------------------------------

  /** The characters Python's `str.strip` removes, restricted to ASCII. */
  predicate IsSpace(c: char)
  {
    c == ' ' || ('\U{9}' <= c <= '\U{D}') || ('\U{1C}' <= c <= '\U{1F}')
  }

  /** `s.lstrip()`; `StripLeftRemovesSpace` shows that only whitespace goes. */
  function StripLeft(s: string): (r: string)
    ensures |r| <= |s| && r == s[|s| - |r|..]
    ensures r != [] ==> !IsSpace(r[0])
    ensures s == [] || !IsSpace(s[0]) ==> r == s
  {
    if s != [] && IsSpace(s[0]) then StripLeft(s[1..]) else s
  }

  /** `s.rstrip()`; `StripRightRemovesSpace` shows that only whitespace goes. */
  function StripRight(s: string): (r: string)
    ensures |r| <= |s| && r == s[..|r|]
    ensures r != [] ==> !IsSpace(r[|r| - 1])
    ensures s == [] || !IsSpace(s[|s| - 1]) ==> r == s
  {
    if s != [] && IsSpace(s[|s| - 1]) then StripRight(s[..|s| - 1]) else s
  }

  /** `s.strip()`: no whitespace at either end, and a string without any is left alone. */
  function Strip(s: string): (r: string)
    ensures r != [] ==> !IsSpace(r[0]) && !IsSpace(r[|r| - 1])
    ensures s == [] || (!IsSpace(s[0]) && !IsSpace(s[|s| - 1])) ==> r == s
  {
    var left := StripLeft(s);
    var r := StripRight(left);
    assert r != [] ==> r[0] == left[0];
    r
  }

  /** `lstrip` removes whitespace only: everything before the result is whitespace. */
  lemma {:induction false} StripLeftRemovesSpace(s: string)
    ensures forall j :: 0 <= j < |s| - |StripLeft(s)| ==> IsSpace(s[j])
  {
    if s != [] && IsSpace(s[0]) {
      StripLeftRemovesSpace(s[1..]);
      assert forall j :: 1 <= j < |s| ==> s[j] == s[1..][j - 1];
    }
  }

  /** `rstrip` removes whitespace only: everything after the result is whitespace. */
  lemma {:induction false} StripRightRemovesSpace(s: string)
    ensures forall j :: |StripRight(s)| <= j < |s| ==> IsSpace(s[j])
  {
    if s != [] && IsSpace(s[|s| - 1]) {
      StripRightRemovesSpace(s[..|s| - 1]);
      assert forall j :: 0 <= j < |s| - 1 ==> s[j] == s[..|s| - 1][j];
    }
  }

  /** The position of the last '@', where `rsplit('@', 1)` cuts. */
  function LastAt(s: string): (r: Option<nat>)
    ensures r.Some? ==> r.value < |s| && s[r.value] == '@'
    ensures r.Some? ==> forall j :: r.value < j < |s| ==> s[j] != '@'
    ensures r.None? ==> forall j :: 0 <= j < |s| ==> s[j] != '@'
  {
    if s == [] then None
    else if s[|s| - 1] == '@' then Some(|s| - 1)
    else LastAt(s[..|s| - 1])
  }

  /** `str.lower` on one character, restricted to ASCII letters. */
  function Lower(c: char): (r: char)
    ensures IsSpace(r) <==> IsSpace(c)
    ensures r == '@' <==> c == '@'
    ensures !('A' <= r <= 'Z')
  {
    if 'A' <= c <= 'Z' then (c as int + 32) as char else c
  }

  /** A capital letter is changed by lower-casing. */
  lemma CapitalIsLowered(c: char)
    requires 'A' <= c <= 'Z'
    ensures Lower(c) != c && 'a' <= Lower(c) <= 'z'
  {
  }

  /** `str.lower` on a string. */
  function LowerAll(s: string): (r: string)
    ensures |r| == |s| && forall i :: 0 <= i < |s| ==> r[i] == Lower(s[i])
  {
    seq(|s|, i requires 0 <= i < |s| => Lower(s[i]))
  }

  /**
   * `normalize_email`: when the stripped address contains an '@', the part
   * after the last '@' is lower-cased and the stripped result returned;
   * otherwise the address is returned exactly as given.
   */
  function NormalizeEmail(email: string): string
  {
    var t := Strip(email);
    match LastAt(t)
    case None => email
    case Some(i) => t[..i] + "@" + LowerAll(t[i + 1..])
  }

  /**
   * What normalization does: an address whose stripped form has no '@' is kept
   * as given; otherwise the result is the stripped address with the same local
   * part, the same last '@', and a domain with every ASCII capital lowered.
   */
  lemma NormalizeEmailShape(email: string)
    ensures var t := Strip(email);
            LastAt(t).None? ==> NormalizeEmail(email) == email
    ensures var t, r := Strip(email), NormalizeEmail(email);
            LastAt(t).Some? ==>
              var i := LastAt(t).value;
              && |r| == |t| && r[..i] == t[..i] && LastAt(r) == Some(i)
              && forall j :: i < j < |r| ==> r[j] == Lower(t[j]) && !('A' <= r[j] <= 'Z')
  {
    var t := Strip(email);
    if LastAt(t).Some? {
      var i := LastAt(t).value;
      assert NormalizeEmail(email) == t[..i] + "@" + LowerAll(t[i + 1..]);
      LowerDomainShape(t, i);
    }
  }

  /** Lower-casing what follows the last '@' of `t`, at position `i`. */
  lemma LowerDomainShape(t: string, i: nat)
    requires i < |t| && t[i] == '@'
    requires forall j :: i < j < |t| ==> t[j] != '@'
    ensures var r := t[..i] + "@" + LowerAll(t[i + 1..]);
            && |r| == |t| && r[..i] == t[..i] && LastAt(r) == Some(i)
            && forall j :: i < j < |r| ==> r[j] == Lower(t[j]) && !('A' <= r[j] <= 'Z')
  {
    var tail := t[i + 1..];
    var domain := LowerAll(tail);
    forall j | 0 <= j < |domain|
      ensures domain[j] != '@' && domain[j] == Lower(t[i + 1 + j])
    {
      assert tail[j] == t[i + 1 + j];
    }
    JoinAtShape(t[..i], domain);
  }

  /** An address joined at an '@' has no whitespace to strip when its two halves have none at the ends. */
  lemma JoinedIsStripped(name: string, domain: string)
    requires name == [] || !IsSpace(name[0])
    requires domain == [] || !IsSpace(domain[|domain| - 1])
    ensures Strip(name + "@" + domain) == name + "@" + domain
  {
    var e := name + "@" + domain;
    assert name != [] ==> e[0] == name[0];
    assert name == [] ==> e[0] == '@';
    assert e[|e| - 1] == if domain == [] then '@' else domain[|domain| - 1];
  }

  /** An address joined at an '@' that its domain does not contain. */
  lemma JoinAtShape(name: string, domain: string)
    requires forall j :: 0 <= j < |domain| ==> domain[j] != '@'
    ensures var e := name + "@" + domain;
            && |e| == |name| + 1 + |domain| && e[..|name|] == name && e[|name| + 1..] == domain
            && LastAt(e) == Some(|name|)
            && forall j :: |name| < j < |e| ==> e[j] == domain[j - |name| - 1]
  {
    var e := name + "@" + domain;
    forall j | |name| < j < |e|
      ensures e[j] == domain[j - |name| - 1]
    {
    }
    assert e[..|name|] == name;
    assert e[|name| + 1..] == domain;
    LastAtIs(e, |name|);
  }

  /** `LastAt` finds an '@' that no later '@' follows. */
  lemma LastAtIs(s: string, k: nat)
    requires k < |s| && s[k] == '@'
    requires forall j :: k < j < |s| ==> s[j] != '@'
    ensures LastAt(s) == Some(k)
  {
  }

  /** A string already lower-cased is left alone by `LowerAll`. */
  lemma LowerAllFixed(s: string)
    requires forall j :: 0 <= j < |s| ==> Lower(s[j]) == s[j]
    ensures LowerAll(s) == s
  {
  }

  /** An address of the form a normalized one has is its own normalization. */
  lemma NormalFormIsFixed(name: string, domain: string)
    requires name == [] || !IsSpace(name[0])
    requires domain == [] || !IsSpace(domain[|domain| - 1])
    requires forall j :: 0 <= j < |domain| ==> domain[j] != '@' && Lower(domain[j]) == domain[j]
    ensures NormalizeEmail(name + "@" + domain) == name + "@" + domain
  {
    JoinedIsStripped(name, domain);
    JoinAtShape(name, domain);
    LowerAllFixed(domain);
  }

  /** The two halves `normalize_email` produces around the last '@' have the normal form. */
  lemma NormalizedHalves(t: string, i: nat)
    requires t != [] ==> !IsSpace(t[0]) && !IsSpace(t[|t| - 1])
    requires i < |t| && t[i] == '@'
    requires forall j :: i < j < |t| ==> t[j] != '@'
    ensures var name, domain := t[..i], LowerAll(t[i + 1..]);
            && (name == [] || !IsSpace(name[0]))
            && (domain == [] || !IsSpace(domain[|domain| - 1]))
            && forall j :: 0 <= j < |domain| ==> domain[j] != '@' && Lower(domain[j]) == domain[j]
  {
    var tail := t[i + 1..];
    var name, domain := t[..i], LowerAll(tail);
    assert name != [] ==> name[0] == t[0];
    assert domain != [] ==> domain[|domain| - 1] == Lower(t[|t| - 1]);
    forall j | 0 <= j < |domain|
      ensures domain[j] != '@' && Lower(domain[j]) == domain[j]
    {
      assert tail[j] == t[i + 1 + j];
    }
  }

  /** Normalizing an address that is already normalized changes nothing. */
  lemma NormalizeEmailIdempotent(email: string)
    ensures NormalizeEmail(NormalizeEmail(email)) == NormalizeEmail(email)
  {
    var t := Strip(email);
    var at := LastAt(t);
    if at.Some? {
      var i := at.value;
      NormalizedHalves(t, i);
      NormalFormIsFixed(t[..i], LowerAll(t[i + 1..]));
      assert NormalizeEmail(email) == t[..i] + "@" + LowerAll(t[i + 1..]);
    }
  }

  // ---------------------------------------------------------------------------
  // Users
  // ---------------------------------------------------------------------------

  /** The keyword arguments a user may be created with; `None` means not passed. */
  datatype UserFields = UserFields(
    name: Option<string>,
    surname: Option<string>,
    isActive: Option<bool>,
    isStaff: Option<bool>,
    isSuperuser: Option<bool>)

  /** No keyword arguments beyond email and password. */
  const NoFields: UserFields := UserFields(None, None, None, None, None)

  /** The value of an optional keyword argument, or the field's default. */
  function OrDefault<T>(o: Option<T>, default: T): T
  {
    match o
    case Some(v) => v
    case None => default
  }

  /** A boolean field: the value passed, or the `default=False` of models.py. */
  function FlagOrFalse(o: Option<bool>): (b: bool)
    ensures b <==> o == Some(true)
  {
    match o
    case Some(v) => v
    case None => false
  }

  /**
   * The instance `self.model(email=normalize_email(email), **kwargs)` after
   * `set_password(password)`: names default to the empty string and every flag
   * to false (models.py declares `default=False` for all three).
   */
  function NewUser(email: string, password: string, fields: UserFields): (u: User)
    ensures u.email == NormalizeEmail(email)
    ensures forall attempt :: CheckPassword(u.password, attempt) <==> attempt == password
    ensures u.isActive <==> fields.isActive == Some(true)
    ensures u.isStaff <==> fields.isStaff == Some(true)
    ensures u.isSuperuser <==> fields.isSuperuser == Some(true)
  {
    var key := NormalizeEmail(email);
    var credential := SetPassword(password);
    User(key, OrDefault(fields.name, ""), OrDefault(fields.surname, ""),
         FlagOrFalse(fields.isActive), FlagOrFalse(fields.isStaff),
         FlagOrFalse(fields.isSuperuser), credential)
  }

  /**
   * `UserManager.create` on the users table: the insert fails on the unique
   * email column when the normalized address is already stored.
   */
  function UserCreate(users: map<string, User>, email: string, password: string, fields: UserFields)
    : (r: Result<User, ManagerError>)
    ensures r.Success? <==> NormalizeEmail(email) !in users
    ensures r.Failure? ==> r.error == IntegrityError
    ensures r.Success? ==> r.value == NewUser(email, password, fields)
  {
    var u := NewUser(email, password, fields);
    if u.email in users then Failure(IntegrityError) else Success(u)
  }

  /**
   * After a successful create the table holds exactly one more user, keyed by
   * its email and accepting the given password, and no other user changed.
   */
  lemma UserCreateAddsOne(users: map<string, User>, email: string, password: string, fields: UserFields)
    requires UsersKeyed(users)
    requires UserCreate(users, email, password, fields).Success?
    ensures var u := UserCreate(users, email, password, fields).value;
            var after := users[u.email := u];
            && after.Keys == users.Keys + {u.email}
            && |after| == |users| + 1
            && (forall e :: e in users ==> after[e] == users[e])
            && UsersKeyed(after)
            && CheckPassword(after[u.email].password, password)
  {
    var u := UserCreate(users, email, password, fields).value;
    InsertNewUser(users, u);
  }

  /** Storing a user under a new email grows the table by that one entry. */
  lemma InsertNewUser(users: map<string, User>, u: User)
    requires UsersKeyed(users) && u.email !in users
    ensures var after := users[u.email := u];
            && after.Keys == users.Keys + {u.email}
            && |after| == |users| + 1
            && (forall e :: e in users ==> after[e] == users[e])
            && UsersKeyed(after)
            && after[u.email] == u
  {
    var after := users[u.email := u];
    assert after.Keys == users.Keys + {u.email};
  }

  /**
   * `create_superuser`: adds `is_staff`, `is_superuser` and `is_active` set to
   * true; passing any of the three again is a duplicated keyword.
   */
  function SuperuserFields(fields: UserFields): (r: Result<UserFields, ManagerError>)
    ensures r.Failure? <==> fields.isActive.Some? || fields.isStaff.Some? || fields.isSuperuser.Some?
    ensures r.Success? ==> r.value.isActive == r.value.isStaff == r.value.isSuperuser == Some(true)
    ensures r.Success? ==> r.value.name == fields.name && r.value.surname == fields.surname
  {
    if fields.isActive.Some? || fields.isStaff.Some? || fields.isSuperuser.Some? then
      Failure(TypeError)
    else
      Success(fields.(isActive := Some(true), isStaff := Some(true), isSuperuser := Some(true)))
  }

  // ---------------------------------------------------------------------------
  // Confirmation codes
  // ---------------------------------------------------------------------------

  /** `length or Confirmation.CODE_LENGTH`: a missing or zero length means the default. */
  function EffectiveLength(length: Option<int>): (r: int)
    ensures r != 0
    ensures length.Some? && length.value != 0 ==> r == length.value
    ensures length.None? || length.value == 0 ==> r == CODE_LENGTH
  {
    if length.Some? && length.value != 0 then length.value else CODE_LENGTH
  }

  /** `letters or Confirmation.CODE_LETTERS`: a missing or empty alphabet means the default. */
  function EffectiveLetters(letters: Option<string>): (r: string)
    ensures r != ""
    ensures letters.Some? && letters.value != "" ==> r == letters.value
    ensures letters.None? || letters.value == "" ==> r == CODE_LETTERS
  {
    if letters.Some? && letters.value != "" then letters.value else CODE_LETTERS
  }

  /** The oracle's i-th pick, zero once the picks are used up. */
  function Pick(picks: seq<nat>, i: int): nat
  {
    if 0 <= i < |picks| then picks[i] else 0
  }

  /**
   * `get_random_string(length, letters)` with its random choices taken from
   * `picks`: `length` characters of the alphabet, none for a negative length.
   */
  function RandomString(length: int, letters: string, picks: seq<nat>): (r: string)
    requires letters != ""
    ensures |r| == if length < 0 then 0 else length
    ensures forall i :: 0 <= i < |r| ==> r[i] in letters
  {
    seq(if length < 0 then 0 else length, i requires 0 <= i => letters[Pick(picks, i) % |letters|])
  }

  /** `filter(code=code, user=user).exists()`. */
  predicate CodeTakenBy(rows: seq<Confirmation>, code: string, user: string)
  {
    exists i :: 0 <= i < |rows| && rows[i].code == code && rows[i].user == user
  }

  /** Some row, of any user, already holds the code. */
  predicate CodeInUse(rows: seq<Confirmation>, code: string)
  {
    exists i :: 0 <= i < |rows| && rows[i].code == code
  }

  /** The exit test of the retry loop: a non-empty code this user does not hold yet. */
  predicate Acceptable(rows: seq<Confirmation>, code: string, user: string)
  {
    code != "" && !CodeTakenBy(rows, code, user)
  }

  /** The k-th draw of the retry loop. */
  function Draw(length: int, letters: string, attempts: seq<seq<nat>>, k: int): string
    requires letters != "" && 0 <= k < |attempts|
  {
    RandomString(length, letters, attempts[k])
  }

  /** The loop rejects draws 0 to k - 1 and accepts draw k. */
  ghost predicate AcceptedAt(rows: seq<Confirmation>, user: string, length: int, letters: string,
                             attempts: seq<seq<nat>>, k: int)
    requires letters != ""
  {
    && 0 <= k < |attempts|
    && Acceptable(rows, Draw(length, letters, attempts, k), user)
    && forall j :: 0 <= j < k ==> !Acceptable(rows, Draw(length, letters, attempts, j), user)
  }

  /**
   * The code `generate_code` settles on: the first draw the loop accepts. It is
   * non-empty, has the requested length, uses only the alphabet and is held by
   * no row of the same user; every earlier draw was rejected. `None` when no
   * attempt is accepted.
   */
  function FirstFreeCode(rows: seq<Confirmation>, user: string, length: int, letters: string,
                         attempts: seq<seq<nat>>): (r: Option<string>)
    requires letters != ""
    ensures r.Some? ==> r.value != "" && |r.value| == length
    ensures r.Some? ==> forall i :: 0 <= i < |r.value| ==> r.value[i] in letters
    ensures r.Some? ==> !CodeTakenBy(rows, r.value, user)
    ensures r.Some? ==>
      exists k :: AcceptedAt(rows, user, length, letters, attempts, k) && r.value == Draw(length, letters, attempts, k)
    ensures r.None? ==>
      forall k :: 0 <= k < |attempts| ==> !Acceptable(rows, Draw(length, letters, attempts, k), user)
    decreases |attempts|
  {
    if attempts == [] then None
    else
      var code := RandomString(length, letters, attempts[0]);
      if Acceptable(rows, code, user) then
        assert AcceptedAt(rows, user, length, letters, attempts, 0);
        Some(code)
      else
        var rest := FirstFreeCode(rows, user, length, letters, attempts[1..]);
        assert forall k :: 1 <= k < |attempts| ==>
          Draw(length, letters, attempts, k) == Draw(length, letters, attempts[1..], k - 1);
        assert rest.Some? ==>
          exists k :: AcceptedAt(rows, user, length, letters, attempts, k) && rest.value == Draw(length, letters, attempts, k)
        by {
          if rest.Some? {
            var k' :| AcceptedAt(rows, user, length, letters, attempts[1..], k')
                      && rest.value == Draw(length, letters, attempts[1..], k');
            assert AcceptedAt(rows, user, length, letters, attempts, k' + 1);
          }
        }
        rest
  }

  /**
   * `ConfirmationManager.create` on the confirmations table: draw a code for
   * the user, stamp `expired = now + LIFETIME` and insert. The loop only avoids
   * the user's own codes, so a code held by another user's row makes the
   * insert fail on the unique code column.
   */
  function ConfirmationCreate(rows: seq<Confirmation>, user: string, now: int, attempts: seq<seq<nat>>)
    : (r: Result<Confirmation, ManagerError>)
    ensures r.Success? ==> r.value.user == user && r.value.expired == now + LIFETIME
    ensures r.Success? ==> |r.value.code| == CODE_LENGTH
                           && forall i :: 0 <= i < |r.value.code| ==> r.value.code[i] in CODE_LETTERS
    ensures r.Success? ==> !CodeInUse(rows, r.value.code)
    ensures r.Success? && ConfirmationsValid(rows) ==> ConfirmationsValid(rows + [r.value])
    ensures r.Failure? ==> r.error != TypeError
  {
    match FirstFreeCode(rows, user, EffectiveLength(None), EffectiveLetters(None), attempts)
    case None => Failure(OutOfDraws)
    case Some(code) =>
      if CodeInUse(rows, code) then Failure(IntegrityError)
      else
        var c := Confirmation(user, code, now + LIFETIME);
        assert (rows + [c])[|rows|] == c;
        Success(c)
  }

  /**
   * Which outcome `create` has, decided by the code the retry loop settles on:
   * a row carrying that code when no row holds it; an integrity error exactly
   * when some row, necessarily another user's, already holds it; no row when
   * the loop accepted no draw.
   */
  lemma ConfirmationCreateOutcome(rows: seq<Confirmation>, user: string, now: int, attempts: seq<seq<nat>>)
    ensures var r, drawn := ConfirmationCreate(rows, user, now, attempts),
                            FirstFreeCode(rows, user, CODE_LENGTH, CODE_LETTERS, attempts);
            && (r.Success? <==> drawn.Some? && !CodeInUse(rows, drawn.value))
            && (r.Success? ==> r.value == Confirmation(user, drawn.value, now + LIFETIME))
            && (r == Failure(IntegrityError) <==> drawn.Some? && CodeInUse(rows, drawn.value))
            && (r == Failure(IntegrityError) ==>
                  exists i :: 0 <= i < |rows| && rows[i].code == drawn.value && rows[i].user != user)
            && (r == Failure(OutOfDraws) <==> drawn.None?)
  {
  }

  /** `filter(expired__gt=now)`: the rows still live at `now`, in table order. */
  function ActiveAt(rows: seq<Confirmation>, now: int): (r: seq<Confirmation>)
    ensures |r| <= |rows|
    ensures forall c :: c in r <==> c in rows && c.expired > now
  {
    if rows == [] then []
    else if rows[0].expired > now then [rows[0]] + ActiveAt(rows[1..], now)
    else ActiveAt(rows[1..], now)
  }

  /** `filter(user=user)`: the rows owned by `user`, in table order. */
  function OwnedBy(rows: seq<Confirmation>, user: string): (r: seq<Confirmation>)
    ensures |r| <= |rows|
    ensures forall c :: c in r <==> c in rows && c.user == user
  {
    if rows == [] then []
    else if rows[0].user == user then [rows[0]] + OwnedBy(rows[1..], user)
    else OwnedBy(rows[1..], user)
  }

  /** `filter(expired__gt=now)` keeps every live row as often as the table holds it, and no other row. */
  lemma {:induction false} ActiveAtCounts(rows: seq<Confirmation>, now: int)
    ensures forall c :: multiset(ActiveAt(rows, now))[c] == if c.expired > now then multiset(rows)[c] else 0
  {
    if rows != [] {
      assert rows == [rows[0]] + rows[1..];
      ActiveAtCounts(rows[1..], now);
    }
  }

  /** `filter(user=user)` keeps every row of the user as often as the table holds it, and no other row. */
  lemma {:induction false} OwnedByCounts(rows: seq<Confirmation>, user: string)
    ensures forall c :: multiset(OwnedBy(rows, user))[c] == if c.user == user then multiset(rows)[c] else 0
  {
    if rows != [] {
      assert rows == [rows[0]] + rows[1..];
      OwnedByCounts(rows[1..], user);
    }
  }

  /** `get(code=code)`: the position of the row holding the code, if any. */
  function FindByCode(rows: seq<Confirmation>, code: string): (r: Option<nat>)
    ensures r.Some? ==> r.value < |rows| && rows[r.value].code == code
    ensures r.None? <==> !CodeInUse(rows, code)
  {
    if rows == [] then None
    else if rows[0].code == code then Some(0)
    else match FindByCode(rows[1..], code)
      case None => None
      case Some(i) => Some(i + 1)
  }

  /** With unique codes, the row a code finds is the only row holding it. */
  lemma FindByCodeUnique(rows: seq<Confirmation>, code: string, i: nat)
    requires CodesUnique(rows)
    requires i < |rows| && rows[i].code == code
    ensures FindByCode(rows, code) == Some(i)
  {
  }

  /** `delete()` of a row: every row equal to `c` leaves the table, in place. */
  function RemoveRecord(rows: seq<Confirmation>, c: Confirmation): (r: seq<Confirmation>)
    ensures |r| <= |rows|
    ensures forall x :: x in r <==> x in rows && x != c
  {
    if rows == [] then []
    else if rows[0] == c then RemoveRecord(rows[1..], c)
    else [rows[0]] + RemoveRecord(rows[1..], c)
  }

  /** Deleting a row with a unique code removes exactly that row and keeps the order of the rest. */
  lemma {:induction false} RemoveUniqueRecord(rows: seq<Confirmation>, i: nat)
    requires CodesUnique(rows)
    requires i < |rows|
    ensures RemoveRecord(rows, rows[i]) == rows[..i] + rows[i + 1..]
  {
    if i == 0 {
      assert rows[1..] == rows[..0] + rows[1..];
      RemoveAbsent(rows[1..], rows[0]);
    } else {
      assert rows[0] != rows[i];
      RemoveUniqueRecord(rows[1..], i - 1);
      assert rows[1..][i - 1] == rows[i];
      assert rows[..i] + rows[i + 1..] == [rows[0]] + (rows[1..][..i - 1] + rows[1..][i..]);
    }
  }

  /** Deleting a record that is not in the table leaves the table as it is. */
  lemma {:induction false} RemoveAbsent(rows: seq<Confirmation>, c: Confirmation)
    requires c !in rows
    ensures RemoveRecord(rows, c) == rows
  {
    if rows != [] {
      RemoveAbsent(rows[1..], c);
    }
  }

  /** Removing one row keeps every constraint of the confirmations table. */
  lemma RemoveAtKeepsValid(rows: seq<Confirmation>, i: nat)
    requires ConfirmationsValid(rows)
    requires i < |rows|
    ensures ConfirmationsValid(rows[..i] + rows[i + 1..])
    ensures !CodeInUse(rows[..i] + rows[i + 1..], rows[i].code)
  {
    var after := rows[..i] + rows[i + 1..];
    assert forall k :: 0 <= k < |after| ==> after[k] == rows[if k < i then k else k + 1];
  }

  // ---------------------------------------------------------------------------
  // The managers
  // ---------------------------------------------------------------------------

  /** `User.objects`: the users table, keyed by email. */
  class UserManager {
    var users: map<string, User>

    ghost predicate Valid()
      reads this
    {
      UsersKeyed(users)
    }

    constructor ()
      ensures Valid() && users == map[]
    {
      users := map[];
    }

    /** `get(email=email)`: exact lookup, without normalizing the address. */
    function Get(email: string): (r: Option<User>)
      reads this
      ensures r.Some? <==> email in users
      ensures r.Some? ==> r.value == users[email]
    {
      if email in users then Some(users[email]) else None
    }

    /** `user.save()` of an instance: its row is written under its email. */
    method Save(u: User)
      requires Valid()
      modifies this
      ensures Valid()
      ensures users == old(users)[u.email := u]
    {
      users := users[u.email := u];
    }

    /** `create`: build the instance, set its password, save it. */
    method Create(email: string, password: string, fields: UserFields)
      returns (r: Result<User, ManagerError>)
      requires Valid()
      modifies this
      ensures Valid()
      ensures r == UserCreate(old(users), email, password, fields)
      ensures users == if r.Success? then old(users)[r.value.email := r.value] else old(users)
    {
      var u := User(NormalizeEmail(email), OrDefault(fields.name, ""), OrDefault(fields.surname, ""),
                    FlagOrFalse(fields.isActive), FlagOrFalse(fields.isStaff),
                    FlagOrFalse(fields.isSuperuser), Hashed(""));
      u := u.(password := SetPassword(password));
      if u.email in users {
        r := Failure(IntegrityError);
      } else {
        Save(u);
        r := Success(u);
      }
    }

    /** `create_user`: the same as `create`. */
    method CreateUser(email: string, password: string, fields: UserFields)
      returns (r: Result<User, ManagerError>)
      requires Valid()
      modifies this
      ensures Valid()
      ensures r == UserCreate(old(users), email, password, fields)
      ensures users == if r.Success? then old(users)[r.value.email := r.value] else old(users)
    {
      r := Create(email, password, fields);
    }

    /** `create_superuser`: a user that is staff, superuser and active. */
    method CreateSuperuser(email: string, password: string, fields: UserFields)
      returns (r: Result<User, ManagerError>)
      requires Valid()
      modifies this
      ensures Valid()
      ensures r == if SuperuserFields(fields).Failure? then Failure(TypeError)
                   else UserCreate(old(users), email, password, SuperuserFields(fields).value)
      ensures r.Success? ==> r.value.isStaff && r.value.isSuperuser && r.value.isActive
      ensures r.Success? ==> HasPerm(r.value, "") && CheckPassword(r.value.password, password)
      ensures r.Success? ==> r.value.email !in old(users) && users == old(users)[r.value.email := r.value]
      ensures r.Failure? ==> users == old(users)
    {
      var super := SuperuserFields(fields);
      if super.Failure? {
        r := Failure(super.error);
      } else {
        r := CreateUser(email, password, super.value);
      }
    }
  }

  /** `Confirmation.objects`: the confirmations table, in insertion order. */
  class ConfirmationManager {
    var rows: seq<Confirmation>

    ghost predicate Valid()
      reads this
    {
      ConfirmationsValid(rows)
    }

    constructor ()
      ensures Valid() && rows == []
    {
      rows := [];
    }

    /**
     * `generate_code`: redraw until the code is non-empty and no row of the
     * same user holds it. It only reads the table.
     */
    method GenerateCode(user: string, length: Option<int>, letters: Option<string>,
                        attempts: seq<seq<nat>>) returns (r: Option<string>)
      ensures r == FirstFreeCode(rows, user, EffectiveLength(length), EffectiveLetters(letters), attempts)
      ensures r.Some? ==> r.value != "" && |r.value| == EffectiveLength(length)
      ensures r.Some? ==> forall i :: 0 <= i < |r.value| ==> r.value[i] in EffectiveLetters(letters)
      ensures r.Some? ==> !CodeTakenBy(rows, r.value, user)
    {
      var len := EffectiveLength(length);
      var alphabet := EffectiveLetters(letters);
      var code := "";
      var k := 0;
      while code == "" || CodeTakenBy(rows, code, user)
        invariant 0 <= k <= |attempts|
        invariant !Acceptable(rows, code, user) ==>
          FirstFreeCode(rows, user, len, alphabet, attempts) == FirstFreeCode(rows, user, len, alphabet, attempts[k..])
        invariant Acceptable(rows, code, user) ==>
          FirstFreeCode(rows, user, len, alphabet, attempts) == Some(code)
        decreases |attempts| - k
      {
        if k == |attempts| {
          return None;
        }
        code := RandomString(len, alphabet, attempts[k]);
        assert attempts[k..][1..] == attempts[k + 1..];
        k := k + 1;
      }
      r := Some(code);
    }

    /** `create(user)`: a new row with a generated code that lives for LIFETIME. */
    method Create(user: string, now: int, attempts: seq<seq<nat>>)
      returns (r: Result<Confirmation, ManagerError>)
      requires Valid()
      modifies this
      ensures Valid()
      ensures r == ConfirmationCreate(old(rows), user, now, attempts)
      ensures rows == if r.Success? then old(rows) + [r.value] else old(rows)
    {
      var code := GenerateCode(user, None, None, attempts);
      if code.None? {
        return Failure(OutOfDraws);
      }
      var instance := Confirmation(user, code.value, now + LIFETIME);
      if CodeInUse(rows, instance.code) {
        return Failure(IntegrityError);
      }
      rows := rows + [instance];
      r := Success(instance);
    }

    /** `active()`: the rows whose expiry lies strictly after `now`. */
    function Active(now: int): (r: seq<Confirmation>)
      reads this
      ensures forall c :: c in r <==> c in rows && c.expired > now
    {
      ActiveAt(rows, now)
    }

    /** `for_user(user)`: the rows belonging to `user`. */
    function ForUser(user: string): (r: seq<Confirmation>)
      reads this
      ensures forall c :: c in r <==> c in rows && c.user == user
    {
      OwnedBy(rows, user)
    }

    /** `get(code=code)`. */
    function GetByCode(code: string): (r: Option<nat>)
      reads this
      ensures r.Some? ==> r.value < |rows| && rows[r.value].code == code
      ensures r.None? <==> !CodeInUse(rows, code)
    {
      FindByCode(rows, code)
    }

    /** `delete()` of a row read from the table. */
    method Delete(c: Confirmation)
      requires Valid()
      modifies this
      ensures rows == RemoveRecord(old(rows), c)
      ensures Valid()
    {
      if i :| 0 <= i < |rows| && rows[i] == c {
        RemoveUniqueRecord(rows, i);
        RemoveAtKeepsValid(rows, i);
      } else {
        RemoveAbsent(rows, c);
      }
      rows := RemoveRecord(rows, c);
    }
  }
}
