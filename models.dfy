/**
 * The database models of modules/users/models.py: the user row, the
 * confirmation row, the constants of the confirmation model and the
 * constraints the schema declares on both tables.
 */
module Models {

  /** Confirmation.CODE_LENGTH: the number of characters of a code by default. */
  const CODE_LENGTH: int := 6

  /** Confirmation.CODE_LETTERS, Python's `string.digits`. */
  const CODE_LETTERS: string := "0123456789"

  /** The `max_length` of the code column. */
  const CODE_MAX_LENGTH: nat := 32

  /** Confirmation.LIFETIME, seven days; clock values are whole seconds. */
  const LIFETIME: int := 7 * 24 * 60 * 60

  /**
   * A stored password credential. The hasher is abstract: all that the model
   * relies on is that a credential accepts exactly the password it was made from.
   */
  datatype Credential = Hashed(digestOf: string)

  /** `set_password`: the credential stored for a plaintext password. */
  function SetPassword(raw: string): (c: Credential)
    ensures forall attempt :: CheckPassword(c, attempt) <==> attempt == raw
  {
    Hashed(raw)
  }

  /** `check_password`: does the plaintext match the credential? */
  predicate CheckPassword(c: Credential, attempt: string)
  {
    c.digestOf == attempt
  }

  /** A row of the users table (models.py, class User). */
  datatype User = User(
    email: string,
    name: string,
    surname: string,
    isActive: bool,
    isStaff: bool,
    isSuperuser: bool,
    password: Credential)

  /** `get_short_name`. */
  function GetShortName(u: User): string
  {
    u.name
  }

  /** `get_full_name`: the short name, one space, then the surname. */
  function GetFullName(u: User): (r: string)
    ensures |r| == |GetShortName(u)| + 1 + |u.surname|
    ensures r[..|GetShortName(u)|] == GetShortName(u)
    ensures r[|GetShortName(u)|] == ' '
    ensures r[|GetShortName(u)| + 1..] == u.surname
  {
    u.name + " " + u.surname
  }

  /** `has_perm`: the permission asked for and the object are ignored. */
  predicate HasPerm(u: User, perm: string)
  {
    u.isStaff
  }

  /** `has_module_perms`: the application label is ignored. */
  predicate HasModulePerms(u: User, appLabel: string)
  {
    u.isStaff
  }

  /**
   * Both permission checks answer with the staff flag alone: the superuser flag
   * grants nothing by itself, and the permission or label asked for is irrelevant.
   */
  lemma PermissionsAreStaffFlag(u: User, perm: string, appLabel: string)
    ensures HasPerm(u, perm) <==> u.isStaff
    ensures HasModulePerms(u, appLabel) <==> HasPerm(u, perm)
    ensures u.isSuperuser && !u.isStaff ==> !HasPerm(u, perm)
  {
  }

  /** A row of the confirmations table; `user` is the owner's email. */
  datatype Confirmation = Confirmation(user: string, code: string, expired: int)

  /** The users table is keyed by email, so emails are unique across users. */
  ghost predicate UsersKeyed(users: map<string, User>)
  {
    forall e :: e in users ==> users[e].email == e
  }

  /** `unique=True` on the code column. */
  ghost predicate CodesUnique(rows: seq<Confirmation>)
  {
    forall i, j :: 0 <= i < j < |rows| ==> rows[i].code != rows[j].code
  }

  /** `unique_together = ('user', 'code')`. */
  ghost predicate PairsUnique(rows: seq<Confirmation>)
  {
    forall i, j :: 0 <= i < j < |rows| ==>
      rows[i].user != rows[j].user || rows[i].code != rows[j].code
  }

  /** `max_length=32` on the code column. */
  ghost predicate CodesFit(rows: seq<Confirmation>)
  {
    forall i :: 0 <= i < |rows| ==> |rows[i].code| <= CODE_MAX_LENGTH
  }

  /** The confirmations table obeys every constraint the schema declares on it. */
  ghost predicate ConfirmationsValid(rows: seq<Confirmation>)
  {
    CodesUnique(rows) && PairsUnique(rows) && CodesFit(rows)
  }

  /** Global code uniqueness is the stronger constraint: it implies the pair constraint. */
  lemma CodesUniqueGivesPairsUnique(rows: seq<Confirmation>)
    requires CodesUnique(rows)
    ensures PairsUnique(rows)
  {
  }

  /** The default code is non-empty, fits the column and is drawn from ten digits. */
  lemma DefaultCodeShape()
    ensures 0 < CODE_LENGTH <= CODE_MAX_LENGTH
    ensures |CODE_LETTERS| == 10
    ensures forall i :: 0 <= i < |CODE_LETTERS| ==> '0' <= CODE_LETTERS[i] <= '9'
    ensures LIFETIME == 604800
  {
  }
}
