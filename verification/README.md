# meus_gastos data layer in Dafny

This project models the data layer (`internal/data`) of meus_gastos, a personal
expense tracker written in Go. The data layer has three parts:

- **Wire mappers** between entities and their JSON DTOs. These are users,
  categories, and the sparse transaction DTO, in which a field is present only
  when it is non-zero.
- **Field validators.** They report failures into a shared validator object.
  The validator keeps the first message recorded for each field and is valid
  while it has recorded nothing.
- **The user and category stores.** Each SQL statement they run is modelled on
  a table held as a map from id to row.

Modules:

- `Models` (`models.dfy`): byte strings, the store errors `ErrRecordNotFound`,
  `ErrEditConflict` and `ErrDuplicateEmail`, and result wrappers.
- `Validation` (`validation.dfy`): the validator as an accumulator of
  field → message pairs. Each `Check` call is a `Rule`, and `Apply` folds a
  sequence of rules into the error map.
- `Users` (`users.dfy`):
  - the user entity, its DTOs and the password;
  - the user validators;
  - the `users` table, with a pure function per statement (`InsertUser`,
    `FindByEmail`, `FindByCodAndEmail`, `UpdateUser`, `DeleteUser`);
  - the class `UserTable`, whose methods change the table exactly as those
    functions say.
- `Categories` (`categories.dfy`):
  - the category entity and DTO, and `ValidateCategory`;
  - the `categories` table and the class `CategoryTable`;
  - the listing, modelled as its SQL reads:
    - `Matching` is the WHERE clause over the rows in id order;
    - `SortRows` is `ORDER BY <column> <direction>, id ASC`, an insertion sort
      under the strict total order `Precedes`;
    - `Window` is `LIMIT/OFFSET`;
    - the scan loop reads the `count(*) OVER()` column from every result row.
- `Transactions` (`transactions.dfy`): the transaction entity and its
  presence-based DTO mapping.

How the Go program's features are represented:

- A Go `string` is a sequence of bytes, so `len` counts bytes.
- `time.Time` is an integer, with 0 as the zero time.
- A pointer that may be nil is an `Option`.
- When a store writes values back into the caller's `*User` or `*Category`,
  the model returns the updated entity instead.
- Things the shown code only calls into are passed in as function parameters:
  - `validator.Matches(_, EmailRX)` is `matches`;
  - bcrypt hashing and comparison are `bcrypt` and `compare`;
  - the full-text match `to_tsvector @@ plainto_tsquery` is `textMatch`;
  - `TypeCategoria`'s `String` and `TypeCategoriaFromString` are `typeName`
    and `typeFromString`.
- The sort column, direction, limit and offset that `Filters` computes are the
  fields of `Filters`.

## Model

| member | source | states |
|---|---|---|
| Validation.Validator.constructor | cmd/api/users.go:22 | a new validator has recorded nothing |
| Validation.Validator.NoErrors | cmd/api/users.go:24 | the validator is valid exactly when its error map has no entries |
| Validation.Validator.Check | internal/data/users.go:338-339 | a failed check records its message under its key unless that key already has one; a passing check changes nothing |
| Validation.RecordFirstWins | internal/data/users.go:338-339 | one check adds its field exactly when it fails, never replaces a message already recorded for the field, and records its own message for a field that had none |
| Validation.Apply | internal/data/users.go:348-358 | running a batch of checks only ever adds fields to the error map |
| Validation.AllHoldConcat | internal/data/users.go:348-358 | the checks of two batches all hold iff each batch's checks all hold |
| Validation.ApplyConcat | internal/data/users.go:348-358 | running two batches of checks one after the other records the same errors as running their concatenation |
| Validation.ApplyValidIff | internal/data/categories.go:180-186 | after a batch of checks the validator is valid iff it was valid before and every checked condition held |
| Validation.ApplyKeepsRecorded | internal/data/users.go:343-345 | a message already recorded for a field is never replaced by a later failure |
| Users.UserToDTO | internal/data/users.go:61-70 | the DTO carries the user's ID, Name, Email, Phone, Activated and Cod |
| Users.UserDTOToModel | internal/data/users.go:72-81 | the entity built from a DTO converts back to that same DTO, and every field the DTO lacks is zero |
| Users.UserWireRoundTrip | internal/data/users.go:61-81 | entity → DTO → entity keeps ID, Name, Email, Phone, Activated and Cod and zeroes CreatedAt, Password, Version and Deleted |
| Users.SetPassword | internal/data/users.go:364-373 | setting succeeds iff hashing succeeds; on success both the plaintext and its hash are stored |
| Users.PasswordMatches | internal/data/users.go:375-386 | true exactly on a hash match, false exactly on a mismatch, and an error exactly for any other comparison failure |
| Users.UserSaveDTOToModel | internal/data/users.go:83-96 | succeeds iff hashing succeeds; the user has the form's name, email and phone, ID 0, Cod 0, not activated, the password set from the form, and zero CreatedAt, Version and Deleted |
| Users.EmailRules | internal/data/users.go:337-340 | the email checks all hold iff the email is non-empty and matches the pattern |
| Users.PasswordRules | internal/data/users.go:342-346 | the password checks all hold iff the password is non-empty and 8 to 72 bytes long |
| Users.UserRules | internal/data/users.go:348-358 | the user checks all hold iff Name is non-empty and at most 500 bytes, Phone is non-empty, the email rules hold, and the password rules hold whenever a plaintext is present |
| Users.ValidateEmail | internal/data/users.go:337-340 | the validator records exactly the email rules' failures and stays valid iff it was valid and the email is non-empty and matches |
| Users.ValidatePasswordPlaintext | internal/data/users.go:342-346 | the validator records exactly the password rules' failures and stays valid iff it was valid and the password is non-empty and 8 to 72 bytes long |
| Users.ValidateUser | internal/data/users.go:348-362 | requires a password hash, since its absence panics; the validator stays valid iff it was valid and the conditions of `UserRules` hold |
| Users.UserFromRow | internal/data/users.go:110-120 | the scanned user has the row's wire columns, CreatedAt, Version and password hash, no plaintext, and Deleted false |
| Users.InsertUser | internal/data/users.go:170-205 | fails with ErrDuplicateEmail iff some row, deleted or not, already has the email, and then the table is unchanged; otherwise it adds one live row under the next id, leaves other rows alone, and writes back ID, CreatedAt and the initial Version |
| Users.FindByEmail | internal/data/users.go:207-241 | returns a user iff a non-deleted row has the email, and that user is the scanned row; otherwise ErrRecordNotFound |
| Users.FindByCodAndEmail | internal/data/users.go:98-132 | returns a user iff a non-deleted row has the email and the code, and that user is the scanned row; otherwise ErrRecordNotFound |
| Users.UpdateUser | internal/data/users.go:271-308 | ErrEditConflict iff no row has the id and version; ErrDuplicateEmail iff one does but another row holds the new email; otherwise it succeeds; on error the table is unchanged; on success the six columns are overwritten, version becomes old+1 and is written back, and created_at, deleted and other rows are unchanged |
| Users.DeleteUser | internal/data/users.go:310-335 | succeeds iff a row has the id and version, and then only sets its deleted flag; otherwise ErrRecordNotFound with the table unchanged |
| Users.InsertUserKeepsInvariant | internal/data/users.go:170-205 | Insert keeps rows keyed by their serial ids and emails unique |
| Users.UpdateUserKeepsInvariant | internal/data/users.go:271-308 | Update keeps rows keyed by their ids and emails unique |
| Users.DeleteUserKeepsInvariant | internal/data/users.go:310-335 | Delete keeps rows keyed by their ids and emails unique |
| Users.StaleUpdateConflicts | internal/data/users.go:271-303 | once an update has committed, another update carrying the same old version is an edit conflict that changes nothing |
| Users.DeleteRepeats | internal/data/users.go:310-332 | the WHERE clause ignores `deleted` and the version is kept, so a repeated Delete succeeds again and changes nothing more |
| Users.DeletedUserNotFound | internal/data/users.go:207-241 | after a successful Delete, looking the user up by email gives ErrRecordNotFound |
| Users.DeletedEmailStaysTaken | internal/data/users.go:195-200 | the email of a soft-deleted user still makes a new Insert fail with ErrDuplicateEmail |
| Users.InsertThenFindByEmail | internal/data/users.go:170-241 | a user just inserted is found by email with what Insert wrote back, without the plaintext |
| Users.UserTable.constructor | internal/data/users.go:53-55 | the store starts with an empty, well-formed table |
| Users.UserTable.Insert | internal/data/users.go:170-205 | result and new table are those of `InsertUser`; the table invariant is kept |
| Users.UserTable.GetByEmail | internal/data/users.go:207-241 | returns what `FindByEmail` states |
| Users.UserTable.GetByCodAndEmail | internal/data/users.go:98-132 | returns what `FindByCodAndEmail` states |
| Users.UserTable.Update | internal/data/users.go:271-308 | result and new table are those of `UpdateUser`; the table invariant is kept |
| Users.UserTable.Delete | internal/data/users.go:310-335 | result and new table are those of `DeleteUser`; the table invariant is kept |
| Categories.CategoryToDTO | internal/data/categories.go:36-45 | requires an owner, which is dereferenced; the DTO carries ID, CreatedAt, Name, Description and Color, and the owner's own DTO |
| Categories.CategoryDTOToModel | internal/data/categories.go:47-56 | requires an owner; the entity built from a DTO converts back to that same DTO, with Version 0 and Deleted false |
| Categories.CategoryWireRoundTrip | internal/data/categories.go:36-56 | entity → DTO → entity keeps ID, CreatedAt, Name, Description, Color and the owner's ID and wire fields, and resets Version to 0 and Deleted to false |
| Categories.CategoryRules | internal/data/categories.go:180-186 | the category checks all hold iff Name and Description are non-empty and at most 500 bytes and Color is non-empty |
| Categories.ValidateCategory | internal/data/categories.go:180-186 | the validator records exactly those checks' failures and stays valid iff it was valid and they all hold |
| Categories.RowToCategory | internal/data/categories.go:101-109 | the scanned category has the row's ID, CreatedAt, Name, Description, Color and Version, an owner with only the row's user id, and Deleted false |
| Categories.InsertCategory | internal/data/categories.go:58-85 | adds one row under the next id and leaves other rows alone; only ID and CreatedAt are written back into the category; the stored row has the new id, the owner's id, the initial version and is not deleted |
| Categories.FindCategory | internal/data/categories.go:87-121 | returns a category iff a row has the id, the caller as owner and is not deleted; the owner then has only its ID; otherwise ErrRecordNotFound |
| Categories.InsertCategoryKeepsSerial | internal/data/categories.go:58-63 | Insert keeps the table numbered 1..n with every row under its own id |
| Categories.InsertThenFind | internal/data/categories.go:58-121 | a category just inserted is found by its owner with the written-back values, and is not found for any other user |
| Categories.Precedes | internal/data/categories.go:129 | when the sort key ties, the row with the smaller id comes first, whatever the direction |
| Categories.LexLessIrreflexive | internal/data/categories.go:129 | no name sorts before itself |
| Categories.LexLessTransitive | internal/data/categories.go:129 | byte-wise name order is transitive |
| Categories.LexLessTotal | internal/data/categories.go:129 | of two different names, one sorts before the other |
| Categories.PrecedesIrreflexive | internal/data/categories.go:129 | no row precedes itself under `ORDER BY <column> <direction>, id ASC` |
| Categories.PrecedesTransitive | internal/data/categories.go:129 | the listing order is transitive |
| Categories.PrecedesTotal | internal/data/categories.go:129 | thanks to the id tiebreaker, any two rows with different ids are ordered one way or the other |
| Categories.InsertSorted | internal/data/categories.go:129 | inserting a row into an ordered run adds exactly that row |
| Categories.InsertSortedSorted | internal/data/categories.go:129 | inserting a row with a new id into a sorted run keeps it sorted |
| Categories.SortRows | internal/data/categories.go:129 | ordering the matching rows is a permutation of them |
| Categories.SortRowsSorted | internal/data/categories.go:129 | rows with distinct ids come out sorted by the requested key, then id |
| Categories.SortedUnique | internal/data/categories.go:129 | two sorted arrangements of the same rows are equal |
| Categories.OrderIsDetermined | internal/data/categories.go:129 | any sorted arrangement of the matching rows is exactly `SortRows`' result, so a page does not depend on how ties are broken |
| Categories.Visible | internal/data/categories.go:127-128 | a visible row is owned by the caller and not deleted; with an empty name those two conditions are all that is required |
| Categories.Matching | internal/data/categories.go:127-128 | every row returned is stored, owned by the caller, not deleted and matches the name, or the name is empty; ids strictly increase |
| Categories.MatchingComplete | internal/data/categories.go:127-128 | no row satisfying the WHERE clause is missed |
| Categories.Window | internal/data/categories.go:130 | at most `limit` rows, the ones from position `offset` on, and no fewer than are available |
| Categories.Page | internal/data/categories.go:130 | a page has at most `limit` rows |
| Categories.PageProperties | internal/data/categories.go:123-136 | a page has at most `limit` rows, each stored, owned by the caller, not deleted and matching the name; they are in the requested order and are the slice of the full ordering that starts at position `offset` |
| Categories.ResultSet | internal/data/categories.go:125 | at most `limit` rows, each carrying the number of rows that satisfy the WHERE clause, counted before OFFSET and LIMIT |
| Categories.ListCategories | internal/data/categories.go:123-178 | the categories are the page's rows in order, scanned with the owner's ID only; the total is the number of matching rows before paging when the page is non-empty and 0 when it is empty |
| Categories.InsertThenListed | internal/data/categories.go:58-130 | a category just inserted appears among its owner's matching rows for an empty name, and among no other user's |
| Categories.CategoryTable.constructor | internal/data/categories.go:32-34 | the store starts with an empty, serially numbered table |
| Categories.CategoryTable.Insert | internal/data/categories.go:58-85 | result and new table are those of `InsertCategory`; the serial numbering is kept |
| Categories.CategoryTable.GetByID | internal/data/categories.go:87-121 | returns what `FindCategory` states |
| Categories.CategoryTable.GetAll | internal/data/categories.go:123-178 | returns what `ListCategories` states for the current table |
| Transactions.TransactionToDTO | internal/data/transactions.go:27-72 | ID, Version, Description and Amount are present iff non-zero, and then carry the value; User and Category are present iff their pointers are non-nil, and then carry the converted value; Type is always present, and empty for the zero type |
| Transactions.TransactionDTOToModel | internal/data/transactions.go:74-119 | requires ID, Version, Description and Amount to be present, since they are dereferenced; copies them; User and Category are present iff present in the DTO; an absent Type gives the zero type; CreatedAt is zero and Deleted false |
| Transactions.ToDTOComplete | internal/data/transactions.go:33-61 | the DTO of a transaction can be converted back iff its ID, Version, Description and Amount are all non-zero |
| Transactions.TransactionRoundTrip | internal/data/transactions.go:27-119 | for non-zero ID, Version, Description and Amount, entity → DTO → entity keeps those four; User and Category come back iff they were there, as their own round trips give them; CreatedAt is zero and Deleted false |
| Transactions.TransactionKindRoundTrip | internal/data/transactions.go:28-31 | the type survives the round trip when the two string conversions are inverse on it; the zero type comes back as whatever the empty string converts to |
| Transactions.TransactionDTORoundTrip | internal/data/transactions.go:74-119 | a DTO with non-zero ID, Version, Description and Amount comes back through entity and DTO with the same ID, Version, Description, Amount, User and Category |

## Left out

- `UserModel.GetByID` and `UserModel.UpdateCodByEmail` (internal/data/users.go:134-168, 243-269): their SQL is malformed and describes no coherent operation. `GetByID` compares `email` with the id parameter; `UpdateCodByEmail` misspells `UPDATE` and binds `$1` to both cod and id.
- `User.IsAnonymous` (internal/data/users.go:57-59): it compares pointer identity with a package-level sentinel, and values have no identity.
- The transaction store, category Update and Delete, and the patch-merge helpers that the handlers call are not part of this model.
- `validator`, `Filters`, `Metadata`, `calculateMetadata` and `TypeCategoria` are not part of this model:
  - the validator is modelled abstractly, as an error map in which the first message per field wins;
  - the filters' sort column, direction, limit and offset are plain inputs;
  - the metadata computed from the total is not modelled.
- bcrypt is not modelled: hashing and comparison are function parameters, and the cost factor 12 is not represented.
- Context timeouts, `sql.DB`, driver failures, scan failures and the matching of driver error strings are not modelled. A store fails only with the three store errors.
- Name ordering is byte-wise. Database collations other than byte order are not modelled.
- The full-text match is an opaque `textMatch` parameter. The tokenisation done by `to_tsvector` and `plainto_tsquery` is not modelled.
- The schema is not shown. Assumptions made in its place:
  - a new row's version starts at 1;
  - the unique index on `email` covers soft-deleted rows too;
  - the `category_id` column the category queries select is the row id;
  - the category INSERT (internal/data/categories.go:60-61) does not set `deleted`, so the column defaults to false and a new category is live;
  - the `email` column compares byte for byte. A case-insensitive column such as `citext` would make emails differing only in case collide on Insert and match on lookup; `EmailInUse`, `UniqueEmails`, `FindByEmail` and `FindByCodAndEmail` treat them as different.
- The serial id advances only on a successful insert. A failed insert that consumes a sequence value is not modelled.
- Integer widths (`int64` ids, `int` version and cod) are unbounded in the model. Version overflow is not modelled.
- `Amount` is a real number. NaN and negative zero of `float64` are not modelled.
- Aliasing is not modelled. `toDTO` points the DTO's ID, Version, Description and Amount at the transaction's own fields. The model copies the values.
- Two behaviours of the code that callers might not expect, both modelled as written:
  - A repeated Delete with the same id and version succeeds again. The WHERE clause (internal/data/users.go:313-314) tests only id and version. `Users.DeleteRepeats` states this.
  - The category INSERT neither sets nor returns a version. The model gives the stored row the initial version and leaves the caller's Version as it was.
- Update in place of the caller's `*User` and `*Category` is not modelled. The updated entity is returned instead.
- `Categories.CategoryTable.GetAll`: returns the category list and the total, not the `Metadata` that `calculateMetadata` derives from the total.
- `Users.UserTable.GetByEmail`, `Users.FindByEmail` and the cod-and-email lookup require rows keyed by their ids; the table invariant supplies this.
- The Kotlin/Spring tree under `src/main/kotlin` is framework wiring and is not part of this model.
