/** Users: the entity, its two wire forms, password handling, the field
    validators, and the `users` table with the statements the user store
    runs against it. */
module Users {
  import opened Models
  import opened Validation

  /** The password of a user: the plaintext while it is known (after `Set`)
      and the bcrypt hash, which is nil until set or read back. */
  datatype Password = Password(plaintext: Option<Bytes>, hash: Option<Bytes>)

  const NoPassword: Password := Password(None, None)

  /** `User`; `createdAt` is a timestamp in which 0 is Go's zero time. */
  datatype User = User(
    id: int,
    createdAt: int,
    name: Bytes,
    email: Bytes,
    password: Password,
    phone: Bytes,
    activated: bool,
    cod: int,
    version: int,
    deleted: bool)

  /** `UserDTO`: the wire form of a user. */
  datatype UserDTO = UserDTO(id: int, name: Bytes, email: Bytes, phone: Bytes, activated: bool, cod: int)

  /** `UserSaveDTO`: the registration form. */
  datatype UserSaveDTO = UserSaveDTO(name: Bytes, email: Bytes, phone: Bytes, password: Bytes)

  /** A user with only its id filled in, as the category queries attach owners. */
  function UserRef(id: int): User
  {
    User(id, 0, [], [], NoPassword, [], false, 0, 0, false)
  }

  /** The user as it survives a trip through the wire form: the fields the
      DTO lacks are back at their zero values. */
  function WireFields(u: User): User
  {
    u.(createdAt := 0, password := NoPassword, version := 0, deleted := false)
  }

  // ---------------------------------------------------------------------
  // Mappers

  /** `User.ToDTO`: the DTO carries the user's ID, Name, Email, Phone,
      Activated and Cod, and nothing else of it. */
  function UserToDTO(u: User): (d: UserDTO)
    ensures d.id == u.id && d.name == u.name && d.email == u.email
    ensures d.phone == u.phone && d.activated == u.activated && d.cod == u.cod
  {
    UserDTO(u.id, u.name, u.email, u.phone, u.activated, u.cod)
  }

  /** `UserDTO.ToModel`. Converting back to the wire form gives the DTO
      unchanged, and the fields the DTO lacks are zero. */
  function UserDTOToModel(d: UserDTO): (u: User)
    ensures u == WireFields(u)
    ensures UserToDTO(u) == d
  {
    User(d.id, 0, d.name, d.email, NoPassword, d.phone, d.activated, d.cod, 0, false)
  }

  /** Entity -> wire -> entity keeps ID, Name, Email, Phone, Activated and Cod
      and resets every other field to its zero value. */
  lemma UserWireRoundTrip(u: User)
    ensures UserDTOToModel(UserToDTO(u)) == WireFields(u)
    ensures UserToDTO(WireFields(u)) == UserToDTO(u)
  {
  }

  /** `password.Set`: on success the plaintext and its hash are both stored;
      when hashing fails (`None`) the password is left as it was. The hash
      function is a parameter: bcrypt is not modelled. */
  function SetPassword(plaintext: Bytes, bcrypt: Bytes -> Option<Bytes>): (p: Option<Password>)
    ensures p.Some? <==> bcrypt(plaintext).Some?
    ensures p.Some? ==> p.value.plaintext == Some(plaintext) && p.value.hash == bcrypt(plaintext)
  {
    match bcrypt(plaintext)
    case None => None
    case Some(h) => Some(Password(Some(plaintext), Some(h)))
  }

  /** What the bcrypt comparison of a stored hash against a plaintext reports. */
  datatype Comparison = Equal | Mismatched | CompareFailed

  /** `password.Matches`: true on a match, false on a mismatch, and an error
      (`None`) for any other failure of the comparison, which is a parameter. */
  function PasswordMatches(p: Password, plaintext: Bytes, compare: (Option<Bytes>, Bytes) -> Comparison): (r: Option<bool>)
    ensures r == Some(true) <==> compare(p.hash, plaintext) == Equal
    ensures r == Some(false) <==> compare(p.hash, plaintext) == Mismatched
    ensures r.None? <==> compare(p.hash, plaintext) == CompareFailed
  {
    match compare(p.hash, plaintext)
    case Equal => Some(true)
    case Mismatched => Some(false)
    case CompareFailed => None
  }

  /** `UserSaveDTO.ToModel`: copies name, email and phone, sets the password,
      and leaves every other field zero (not activated, `cod` 0); fails
      exactly when hashing fails. */
  function UserSaveDTOToModel(d: UserSaveDTO, bcrypt: Bytes -> Option<Bytes>): (r: Option<User>)
    ensures r.Some? <==> bcrypt(d.password).Some?
    ensures r.Some? ==> UserToDTO(r.value) == UserDTO(0, d.name, d.email, d.phone, false, 0)
    ensures r.Some? ==> r.value.password.plaintext == Some(d.password) && r.value.password.hash == bcrypt(d.password)
    ensures r.Some? ==> r.value.createdAt == 0 && r.value.version == 0 && !r.value.deleted
  {
    var user := User(0, 0, d.name, d.email, NoPassword, d.phone, false, 0, 0, false);
    match SetPassword(d.password, bcrypt)
    case None => None
    case Some(p) => Some(user.(password := p))
  }

  // ---------------------------------------------------------------------
  // Validation

  /** The checks of `ValidateEmail`. `matches` stands for the match against
      the validator's email pattern. */
  function EmailRules(email: Bytes, matches: Bytes -> bool): (rules: seq<Rule>)
    ensures AllHold(rules) <==> email != [] && matches(email)
  {
    var rules := [ Rule(email != [], "email", "must be provided"),
                   Rule(matches(email), "email", "must be a valid email address") ];
    assert AllHold(rules) ==> rules[0].ok && rules[1].ok;
    rules
  }

  /** The checks of `ValidatePasswordPlaintext`, on the byte length. */
  function PasswordRules(password: Bytes): (rules: seq<Rule>)
    ensures AllHold(rules) <==> password != [] && 8 <= |password| <= 72
  {
    var rules := [ Rule(password != [], "password", "must be provided"),
                   Rule(|password| >= 8, "password", "must be at least 8 bytes long"),
                   Rule(|password| <= 72, "password", "must not be more than 72 bytes long") ];
    assert AllHold(rules) ==> rules[0].ok && rules[1].ok && rules[2].ok;
    rules
  }

  /** The checks of `ValidateUser`; the password rules apply only while a
      plaintext is present. */
  function UserRules(u: User, matches: Bytes -> bool): (rules: seq<Rule>)
    ensures AllHold(rules) <==>
      && u.name != [] && |u.name| <= 500
      && u.phone != []
      && u.email != [] && matches(u.email)
      && (u.password.plaintext.Some? ==> u.password.plaintext.value != [] && 8 <= |u.password.plaintext.value| <= 72)
  {
    var own := [ Rule(u.name != [], "name", "must be provided"),
                 Rule(|u.name| <= 500, "name", "must not be more than 500 bytes long"),
                 Rule(u.phone != [], "phone", "must be provided") ];
    var pw := if u.password.plaintext.Some? then PasswordRules(u.password.plaintext.value) else [];
    assert AllHold(own) ==> own[0].ok && own[1].ok && own[2].ok;
    AllHoldConcat(own, EmailRules(u.email, matches));
    AllHoldConcat(own + EmailRules(u.email, matches), pw);
    own + EmailRules(u.email, matches) + pw
  }

  /** `ValidateEmail`: the validator stays valid exactly when it was valid
      and the email is non-empty and matches the pattern. */
  method ValidateEmail(v: Validator, email: Bytes, matches: Bytes -> bool)
    modifies v
    ensures v.errors == Apply(old(v.errors), EmailRules(email, matches))
    ensures v.NoErrors() <==> old(v.NoErrors()) && email != [] && matches(email)
  {
    ghost var start := v.errors;
    v.Check(email != [], "email", "must be provided");
    v.Check(matches(email), "email", "must be a valid email address");
    ghost var rules := EmailRules(email, matches);
    ApplyConcat(start, rules[..1], rules[1..]);
    assert rules[..1] + rules[1..] == rules;
    ApplyValidIff(start, rules);
  }

  /** `ValidatePasswordPlaintext`: the validator stays valid exactly when it
      was valid and the password is non-empty and 8 to 72 bytes long. */
  method ValidatePasswordPlaintext(v: Validator, password: Bytes)
    modifies v
    ensures v.errors == Apply(old(v.errors), PasswordRules(password))
    ensures v.NoErrors() <==> old(v.NoErrors()) && password != [] && 8 <= |password| <= 72
  {
    ghost var start := v.errors;
    ghost var rules := PasswordRules(password);
    v.Check(password != [], "password", "must be provided");
    v.Check(|password| >= 8, "password", "must be at least 8 bytes long");
    ApplyConcat(start, rules[..1], rules[1..2]);
    v.Check(|password| <= 72, "password", "must not be more than 72 bytes long");
    ApplyConcat(start, rules[..2], rules[2..]);
    assert rules[..1] + rules[1..2] == rules[..2];
    assert rules[..2] + rules[2..] == rules;
    ApplyValidIff(start, rules);
  }

  /** `ValidateUser`. A user without a password hash makes the source panic
      after the checks, so a hash is required. */
  method ValidateUser(v: Validator, u: User, matches: Bytes -> bool)
    requires u.password.hash.Some?
    modifies v
    ensures v.errors == Apply(old(v.errors), UserRules(u, matches))
    ensures v.NoErrors() <==>
      && old(v.NoErrors())
      && u.name != [] && |u.name| <= 500
      && u.phone != []
      && u.email != [] && matches(u.email)
      && (u.password.plaintext.Some? ==> u.password.plaintext.value != [] && 8 <= |u.password.plaintext.value| <= 72)
  {
    ghost var start := v.errors;
    ghost var own := [ Rule(u.name != [], "name", "must be provided"),
                       Rule(|u.name| <= 500, "name", "must not be more than 500 bytes long"),
                       Rule(u.phone != [], "phone", "must be provided") ];
    v.Check(u.name != [], "name", "must be provided");
    v.Check(|u.name| <= 500, "name", "must not be more than 500 bytes long");
    ApplyConcat(start, own[..1], own[1..2]);
    v.Check(u.phone != [], "phone", "must be provided");
    ApplyConcat(start, own[..2], own[2..]);
    assert own[..1] + own[1..2] == own[..2];
    assert own[..2] + own[2..] == own;
    ValidateEmail(v, u.email, matches);
    ApplyConcat(start, own, EmailRules(u.email, matches));
    ghost var pw: seq<Rule> := [];
    if u.password.plaintext.Some? {
      ValidatePasswordPlaintext(v, u.password.plaintext.value);
      pw := PasswordRules(u.password.plaintext.value);
    } else {
      assert Apply(v.errors, []) == v.errors;
    }
    ApplyConcat(start, own + EmailRules(u.email, matches), pw);
    assert UserRules(u, matches) == own + EmailRules(u.email, matches) + pw;
    ApplyValidIff(start, UserRules(u, matches));
  }

  // ---------------------------------------------------------------------
  // The users table

  /** A row of `users`. A nil password hash is stored as NULL. */
  datatype UserRow = UserRow(
    id: int,
    createdAt: int,
    name: Bytes,
    email: Bytes,
    phone: Bytes,
    cod: int,
    passwordHash: Option<Bytes>,
    activated: bool,
    version: int,
    deleted: bool)

  type UserRows = map<int, UserRow>

  /** Every row is stored under its own id. */
  ghost predicate KeyedById(rows: UserRows)
  {
    forall id :: id in rows ==> rows[id].id == id
  }

  /** Rows are keyed by id, and ids come from the serial below `nextId`. */
  ghost predicate WellKeyed(rows: UserRows, nextId: int)
  {
    KeyedById(rows) && forall id :: id in rows ==> 0 < id < nextId
  }

  /** The unique constraint on `email`, which covers deleted rows too. */
  ghost predicate UniqueEmails(rows: UserRows)
  {
    forall a, b :: a in rows && b in rows && rows[a].email == rows[b].email ==> a == b
  }

  /** Some row of `rows` holds `email`. */
  predicate EmailInUse(rows: UserRows, email: Bytes)
  {
    exists id :: id in rows && rows[id].email == email
  }

  /** The row `WHERE id = user.ID AND version = user.Version` of Update and Delete. */
  predicate VersionMatches(rows: UserRows, user: User)
  {
    user.id in rows && rows[user.id].version == user.version
  }

  /** The columns the lookups select, scanned into a fresh `User`: no
      plaintext, and `deleted` left at false. */
  function UserFromRow(r: UserRow): (u: User)
    ensures UserToDTO(u) == UserDTO(r.id, r.name, r.email, r.phone, r.activated, r.cod)
    ensures u.createdAt == r.createdAt && u.version == r.version
    ensures u.password.plaintext.None? && u.password.hash == r.passwordHash
    ensures !u.deleted
  {
    User(r.id, r.createdAt, r.name, r.email, Password(None, r.passwordHash), r.phone, r.activated, r.cod, r.version, false)
  }

  /** `UserModel.Insert` on the table contents: the INSERT with `deleted = false`
      and `RETURNING id, created_at, version`, or the unique-email violation. */
  function InsertUser(rows: UserRows, nextId: int, user: User, now: int): (res: (Result<User>, UserRows))
    ensures res.0.Err? <==> EmailInUse(rows, user.email)
    ensures res.0.Err? ==> res.0.error == ErrDuplicateEmail && res.1 == rows
    ensures res.0.Ok? ==> res.0.value == user.(id := nextId, createdAt := now, version := InitialVersion)
    ensures res.0.Ok? ==>
      && res.1.Keys == rows.Keys + {nextId}
      && (forall id :: id in rows && id != nextId ==> res.1[id] == rows[id])
      && UserFromRow(res.1[nextId]) == res.0.value.(password := Password(None, user.password.hash), deleted := false)
      && !res.1[nextId].deleted
  {
    if EmailInUse(rows, user.email) then
      (Err(ErrDuplicateEmail), rows)
    else
      var row := UserRow(nextId, now, user.name, user.email, user.phone, user.cod,
                         user.password.hash, user.activated, InitialVersion, false);
      (Ok(user.(id := nextId, createdAt := now, version := InitialVersion)), rows[nextId := row])
  }

  /** `UserModel.GetByEmail` on the table contents: the live row with that email. */
  ghost function FindByEmail(rows: UserRows, email: Bytes): (r: Result<User>)
    requires KeyedById(rows)
    ensures r.Ok? <==> exists id :: id in rows && rows[id].email == email && !rows[id].deleted
    ensures r.Err? ==> r.error == ErrRecordNotFound
    ensures r.Ok? ==> && r.value.id in rows && r.value == UserFromRow(rows[r.value.id])
                      && rows[r.value.id].email == email && !rows[r.value.id].deleted
  {
    if exists id :: id in rows && rows[id].email == email && !rows[id].deleted then
      var id :| id in rows && rows[id].email == email && !rows[id].deleted;
      Ok(UserFromRow(rows[id]))
    else
      Err(ErrRecordNotFound)
  }

  /** `UserModel.GetByCodAndEmail` on the table contents: the live row with
      that email and activation code. */
  ghost function FindByCodAndEmail(rows: UserRows, cod: int, email: Bytes): (r: Result<User>)
    requires KeyedById(rows)
    ensures r.Ok? <==> exists id :: id in rows && rows[id].email == email && !rows[id].deleted && rows[id].cod == cod
    ensures r.Err? ==> r.error == ErrRecordNotFound
    ensures r.Ok? ==> && r.value.id in rows && r.value == UserFromRow(rows[r.value.id])
                      && rows[r.value.id].email == email && !rows[r.value.id].deleted && r.value.cod == cod
  {
    if exists id :: id in rows && rows[id].email == email && !rows[id].deleted && rows[id].cod == cod then
      var id :| id in rows && rows[id].email == email && !rows[id].deleted && rows[id].cod == cod;
      Ok(UserFromRow(rows[id]))
    else
      Err(ErrRecordNotFound)
  }

  /** `UserModel.Update` on the table contents. The WHERE clause tests id and
      version only (not `deleted`); a match whose new email belongs to another
      row violates the unique constraint. */
  function UpdateUser(rows: UserRows, user: User): (res: (Result<User>, UserRows))
    ensures res.0 == Err(ErrEditConflict) <==> !VersionMatches(rows, user)
    ensures res.0 == Err(ErrDuplicateEmail) <==> VersionMatches(rows, user) && EmailInUse(rows - {user.id}, user.email)
    ensures res.0.Ok? <==> VersionMatches(rows, user) && !EmailInUse(rows - {user.id}, user.email)
    ensures res.0.Err? ==> res.1 == rows
    ensures res.0.Ok? ==>
      && res.0.value == user.(version := user.version + 1)
      && res.1.Keys == rows.Keys
      && (forall id :: id in rows && id != user.id ==> res.1[id] == rows[id])
      && res.1[user.id].version == rows[user.id].version + 1
      && res.1[user.id].createdAt == rows[user.id].createdAt
      && res.1[user.id].deleted == rows[user.id].deleted
      && res.1[user.id].name == user.name && res.1[user.id].email == user.email
      && res.1[user.id].cod == user.cod && res.1[user.id].phone == user.phone
      && res.1[user.id].passwordHash == user.password.hash && res.1[user.id].activated == user.activated
  {
    if !VersionMatches(rows, user) then
      (Err(ErrEditConflict), rows)
    else if EmailInUse(rows - {user.id}, user.email) then
      (Err(ErrDuplicateEmail), rows)
    else
      var was := rows[user.id];
      var row := was.(name := user.name, email := user.email, cod := user.cod, phone := user.phone,
                      passwordHash := user.password.hash, activated := user.activated,
                      version := was.version + 1);
      (Ok(user.(version := row.version)), rows[user.id := row])
  }

  /** `UserModel.Delete` on the table contents: a soft delete of the row with
      that id and version; no matching row is `ErrRecordNotFound`. */
  function DeleteUser(rows: UserRows, user: User): (res: (Outcome, UserRows))
    ensures res.0 == Done <==> VersionMatches(rows, user)
    ensures res.0 != Done ==> res.0 == Failed(ErrRecordNotFound) && res.1 == rows
    ensures res.0 == Done ==>
      && res.1.Keys == rows.Keys
      && (forall id :: id in rows && id != user.id ==> res.1[id] == rows[id])
      && res.1[user.id] == rows[user.id].(deleted := true)
  {
    if VersionMatches(rows, user) then
      (Done, rows[user.id := rows[user.id].(deleted := true)])
    else
      (Failed(ErrRecordNotFound), rows)
  }

  // ---------------------------------------------------------------------
  // Properties across statements

  /** Insert keeps the table's keys and the unique constraint on `email`. */
  lemma InsertUserKeepsInvariant(rows: UserRows, nextId: int, user: User, now: int)
    requires 0 < nextId && WellKeyed(rows, nextId) && UniqueEmails(rows)
    ensures var res := InsertUser(rows, nextId, user, now);
      WellKeyed(res.1, if res.0.Ok? then nextId + 1 else nextId) && UniqueEmails(res.1)
  {
    var res := InsertUser(rows, nextId, user, now);
    if res.0.Ok? {
      assert forall id :: id in rows ==> rows[id].email != user.email;
      assert nextId !in rows;
    }
  }

  /** Update keeps the unique constraint on `email` and the table's keys. */
  lemma UpdateUserKeepsInvariant(rows: UserRows, nextId: int, user: User)
    requires WellKeyed(rows, nextId) && UniqueEmails(rows)
    ensures WellKeyed(UpdateUser(rows, user).1, nextId) && UniqueEmails(UpdateUser(rows, user).1)
  {
    var res := UpdateUser(rows, user);
    if res.0.Ok? {
      assert forall id :: id in rows && id != user.id ==> id in rows - {user.id};
      assert forall id :: id in rows && id != user.id ==> rows[id].email != user.email;
    }
  }

  /** Delete keeps the unique constraint on `email` and the table's keys. */
  lemma DeleteUserKeepsInvariant(rows: UserRows, nextId: int, user: User)
    requires WellKeyed(rows, nextId) && UniqueEmails(rows)
    ensures WellKeyed(DeleteUser(rows, user).1, nextId) && UniqueEmails(DeleteUser(rows, user).1)
  {
  }

  /** Optimistic concurrency: once an update with version V has committed, a
      second update submitted with the same id and version V is an edit
      conflict and changes nothing. */
  lemma StaleUpdateConflicts(rows: UserRows, first: User, second: User)
    requires UpdateUser(rows, first).0.Ok?
    requires second.id == first.id && second.version == first.version
    ensures UpdateUser(UpdateUser(rows, first).1, second) == (Err(ErrEditConflict), UpdateUser(rows, first).1)
  {
    var after := UpdateUser(rows, first).1;
    assert after[first.id].version == first.version + 1;
  }

  /** Delete does not look at `deleted` and keeps the version, so deleting
      again with the same id and version matches again and changes nothing more. */
  lemma DeleteRepeats(rows: UserRows, user: User)
    requires DeleteUser(rows, user).0 == Done
    ensures DeleteUser(DeleteUser(rows, user).1, user) == (Done, DeleteUser(rows, user).1)
  {
    var after := DeleteUser(rows, user).1;
    assert after[user.id].version == user.version;
    assert after[user.id := after[user.id].(deleted := true)] == after;
  }

  /** A soft-deleted user is no longer found by email. */
  lemma DeletedUserNotFound(rows: UserRows, user: User)
    requires KeyedById(rows) && UniqueEmails(rows)
    requires DeleteUser(rows, user).0 == Done
    ensures FindByEmail(DeleteUser(rows, user).1, rows[user.id].email) == Err(ErrRecordNotFound)
  {
    var after := DeleteUser(rows, user).1;
    var email := rows[user.id].email;
    forall id | id in after && after[id].email == email
      ensures id == user.id
    {
      assert rows[id].email == rows[user.id].email;
    }
  }

  /** The unique constraint still counts a soft-deleted row: its email cannot
      be registered again. */
  lemma DeletedEmailStaysTaken(rows: UserRows, nextId: int, user: User, newcomer: User, now: int)
    requires DeleteUser(rows, user).0 == Done
    requires newcomer.email == rows[user.id].email
    ensures InsertUser(DeleteUser(rows, user).1, nextId, newcomer, now).0 == Err(ErrDuplicateEmail)
  {
    assert DeleteUser(rows, user).1[user.id].email == newcomer.email;
  }

  /** A freshly inserted user is found by its email, with exactly what Insert
      wrote back into it, minus the plaintext password. */
  lemma InsertThenFindByEmail(rows: UserRows, nextId: int, user: User, now: int)
    requires 0 < nextId && WellKeyed(rows, nextId) && UniqueEmails(rows)
    requires InsertUser(rows, nextId, user, now).0.Ok?
    ensures var (r, after) := InsertUser(rows, nextId, user, now);
      FindByEmail(after, user.email) == Ok(r.value.(password := Password(None, user.password.hash), deleted := false))
  {
    var (r, after) := InsertUser(rows, nextId, user, now);
    InsertUserKeepsInvariant(rows, nextId, user, now);
    assert after[nextId].email == user.email && !after[nextId].deleted;
    var found := FindByEmail(after, user.email);
    assert found.value.id == nextId by {
      assert after[found.value.id].email == after[nextId].email;
    }
  }

  // ---------------------------------------------------------------------
  // The store

  /** `UserModel`: the `users` table and the statements run against it. The
      caller's `*User` is modelled by the value each statement returns. */
  class UserTable {
    var rows: UserRows
    var nextId: int

    ghost predicate Valid()
      reads this
    {
      0 < nextId && WellKeyed(rows, nextId) && UniqueEmails(rows)
    }

    constructor ()
      ensures Valid() && rows == map[]
    {
      rows := map[];
      nextId := 1;
    }

    /** `UserModel.Insert`: on success the row is stored live and the user
        comes back with ID, CreatedAt and Version filled in. */
    method Insert(user: User, now: int) returns (r: Result<User>)
      requires Valid()
      modifies this
      ensures Valid()
      ensures (r, rows) == InsertUser(old(rows), old(nextId), user, now)
      ensures nextId == if r.Ok? then old(nextId) + 1 else old(nextId)
    {
      InsertUserKeepsInvariant(rows, nextId, user, now);
      if EmailInUse(rows, user.email) {
        r := Err(ErrDuplicateEmail);
        return;
      }
      var id := nextId;
      rows := rows[id := UserRow(id, now, user.name, user.email, user.phone, user.cod,
                                 user.password.hash, user.activated, InitialVersion, false)];
      nextId := nextId + 1;
      r := Ok(user.(id := id, createdAt := now, version := InitialVersion));
    }

    /** `UserModel.GetByEmail`. */
    method GetByEmail(email: Bytes) returns (r: Result<User>)
      requires Valid()
      ensures r == FindByEmail(rows, email)
    {
      if exists id | id in rows :: rows[id].email == email && !rows[id].deleted {
        var id :| id in rows && rows[id].email == email && !rows[id].deleted;
        r := Ok(UserFromRow(rows[id]));
        var spec := FindByEmail(rows, email);
        assert spec.value.id == id by {
          assert rows[spec.value.id].email == rows[id].email;
        }
      } else {
        r := Err(ErrRecordNotFound);
      }
    }

    /** `UserModel.GetByCodAndEmail`. */
    method GetByCodAndEmail(cod: int, email: Bytes) returns (r: Result<User>)
      requires Valid()
      ensures r == FindByCodAndEmail(rows, cod, email)
    {
      if exists id | id in rows :: rows[id].email == email && !rows[id].deleted && rows[id].cod == cod {
        var id :| id in rows && rows[id].email == email && !rows[id].deleted && rows[id].cod == cod;
        r := Ok(UserFromRow(rows[id]));
        var spec := FindByCodAndEmail(rows, cod, email);
        assert spec.value.id == id by {
          assert rows[spec.value.id].email == rows[id].email;
        }
      } else {
        r := Err(ErrRecordNotFound);
      }
    }

    /** `UserModel.Update`: on success the new version is written back into the user. */
    method Update(user: User) returns (r: Result<User>)
      requires Valid()
      modifies this
      ensures Valid() && nextId == old(nextId)
      ensures (r, rows) == UpdateUser(old(rows), user)
    {
      UpdateUserKeepsInvariant(rows, nextId, user);
      if !VersionMatches(rows, user) {
        r := Err(ErrEditConflict);
        return;
      }
      if EmailInUse(rows - {user.id}, user.email) {
        r := Err(ErrDuplicateEmail);
        return;
      }
      var was := rows[user.id];
      var version := was.version + 1;
      rows := rows[user.id := was.(name := user.name, email := user.email, cod := user.cod,
                                   phone := user.phone, passwordHash := user.password.hash,
                                   activated := user.activated, version := version)];
      r := Ok(user.(version := version));
    }

    /** `UserModel.Delete`. */
    method Delete(user: User) returns (r: Outcome)
      requires Valid()
      modifies this
      ensures Valid() && nextId == old(nextId)
      ensures (r, rows) == DeleteUser(old(rows), user)
    {
      DeleteUserKeepsInvariant(rows, nextId, user);
      if VersionMatches(rows, user) {
        rows := rows[user.id := rows[user.id].(deleted := true)];
        r := Done;
      } else {
        r := Failed(ErrRecordNotFound);
      }
    }
  }
}
