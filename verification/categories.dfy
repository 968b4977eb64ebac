/** Categories: the entity and its wire form, the field validator, and the
    `categories` table with the statements the category store runs against
    it, including the paged, ordered listing. */
module Categories {
  import opened Models
  import opened Validation
  import opened Users

  /** `Category`; `user` is the owner pointer, which may be nil. */
  datatype Category = Category(
    id: int,
    createdAt: int,
    name: Bytes,
    description: Bytes,
    color: Bytes,
    user: Option<User>,
    deleted: bool,
    version: int)

  /** `CategoryDTO`: the wire form of a category. */
  datatype CategoryDTO = CategoryDTO(
    id: int,
    createdAt: int,
    name: Bytes,
    description: Bytes,
    color: Bytes,
    user: Option<UserDTO>)

  // ---------------------------------------------------------------------
  // Mappers

  /** `Category.ToDTO`; the owner is dereferenced, so it must be present. */
  function CategoryToDTO(c: Category): (d: CategoryDTO)
    requires c.user.Some?
    ensures d.id == c.id && d.createdAt == c.createdAt
    ensures d.name == c.name && d.description == c.description && d.color == c.color
    ensures d.user == Some(UserToDTO(c.user.value))
  {
    CategoryDTO(c.id, c.createdAt, c.name, c.description, c.color, Some(UserToDTO(c.user.value)))
  }

  /** `CategoryDTO.ToModel`; the owner is dereferenced, so it must be present.
      Converting back to the wire form gives the DTO unchanged. */
  function CategoryDTOToModel(d: CategoryDTO): (c: Category)
    requires d.user.Some?
    ensures c.user.Some? && c.version == 0 && !c.deleted
    ensures CategoryToDTO(c) == d
  {
    Category(d.id, d.createdAt, d.name, d.description, d.color, Some(UserDTOToModel(d.user.value)), false, 0)
  }

  /** Entity -> wire -> entity keeps ID, CreatedAt, Name, Description, Color
      and the owner's wire fields, and resets Version to 0 and Deleted to false. */
  lemma CategoryWireRoundTrip(c: Category)
    requires c.user.Some?
    ensures CategoryDTOToModel(CategoryToDTO(c)) == c.(version := 0, deleted := false, user := Some(WireFields(c.user.value)))
    ensures CategoryDTOToModel(CategoryToDTO(c)).user.value.id == c.user.value.id
  {
    UserWireRoundTrip(c.user.value);
  }

  // ---------------------------------------------------------------------
  // Validation

  /** The checks of `ValidateCategory`. */
  function CategoryRules(c: Category): (rules: seq<Rule>)
    ensures AllHold(rules) <==>
      && c.name != [] && |c.name| <= 500
      && c.description != [] && |c.description| <= 500
      && c.color != []
  {
    var rules := [ Rule(c.name != [], "name", "must be provided"),
                   Rule(|c.name| <= 500, "name", "must not be more than 500 bytes long"),
                   Rule(c.description != [], "description", "must be provided"),
                   Rule(|c.description| <= 500, "description", "must not be more than 500 bytes long"),
                   Rule(c.color != [], "color", "must be provided") ];
    assert AllHold(rules) ==> rules[0].ok && rules[1].ok && rules[2].ok && rules[3].ok && rules[4].ok;
    rules
  }

  /** `ValidateCategory`: the validator stays valid exactly when it was valid,
      Name and Description are non-empty and at most 500 bytes, and Color is
      non-empty. */
  method ValidateCategory(v: Validator, c: Category)
    modifies v
    ensures v.errors == Apply(old(v.errors), CategoryRules(c))
    ensures v.NoErrors() <==>
      && old(v.NoErrors())
      && c.name != [] && |c.name| <= 500
      && c.description != [] && |c.description| <= 500
      && c.color != []
  {
    ghost var start := v.errors;
    ghost var rules := CategoryRules(c);
    v.Check(c.name != [], "name", "must be provided");
    v.Check(|c.name| <= 500, "name", "must not be more than 500 bytes long");
    ApplyConcat(start, rules[..1], rules[1..2]);
    assert rules[..1] + rules[1..2] == rules[..2];
    v.Check(c.description != [], "description", "must be provided");
    ApplyConcat(start, rules[..2], rules[2..3]);
    assert rules[..2] + rules[2..3] == rules[..3];
    v.Check(|c.description| <= 500, "description", "must not be more than 500 bytes long");
    ApplyConcat(start, rules[..3], rules[3..4]);
    assert rules[..3] + rules[3..4] == rules[..4];
    v.Check(c.color != [], "color", "must be provided");
    ApplyConcat(start, rules[..4], rules[4..]);
    assert rules[..4] + rules[4..] == rules;
    ApplyValidIff(start, rules);
  }

  // ---------------------------------------------------------------------
  // The categories table

  /** A row of `categories`. */
  datatype CategoryRow = CategoryRow(
    id: int,
    createdAt: int,
    name: Bytes,
    description: Bytes,
    color: Bytes,
    userId: int,
    version: int,
    deleted: bool)

  type CategoryRows = map<int, CategoryRow>

  /** The serial has handed out ids 1..n, and every row is stored under its id.
      Rows are never removed: deletion is a flag. */
  ghost predicate Serial(rows: CategoryRows, n: nat)
  {
    && (forall id :: id in rows <==> 1 <= id <= n)
    && (forall id :: id in rows ==> rows[id].id == id)
  }

  /** Ids 1..n are present, each row under its own id. */
  ghost predicate Covers(rows: CategoryRows, n: nat)
  {
    forall id :: 1 <= id <= n ==> id in rows && rows[id].id == id
  }

  lemma SerialCovers(rows: CategoryRows, n: nat)
    requires Serial(rows, n)
    ensures Covers(rows, n)
  {
  }

  /** The columns the lookups select, scanned into a fresh `Category`: the
      owner has only its ID filled in and `Deleted` stays false. */
  function RowToCategory(r: CategoryRow): (c: Category)
    ensures c.id == r.id && c.createdAt == r.createdAt && c.version == r.version
    ensures c.name == r.name && c.description == r.description && c.color == r.color
    ensures c.user == Some(UserRef(r.userId)) && !c.deleted
  {
    Category(r.id, r.createdAt, r.name, r.description, r.color, Some(UserRef(r.userId)), false, r.version)
  }

  /** `CategoryModel.Insert` on the table contents: the row gets the next
      serial id, the current time, the default version and `deleted = false`,
      and only ID and CreatedAt are written back into the category. */
  function InsertCategory(rows: CategoryRows, nextId: int, c: Category, now: int): (res: (Category, CategoryRows))
    requires c.user.Some?
    ensures res.0 == c.(id := nextId, createdAt := now)
    ensures res.1.Keys == rows.Keys + {nextId}
    ensures forall id :: id in rows && id != nextId ==> res.1[id] == rows[id]
    ensures RowToCategory(res.1[nextId]) == res.0.(user := Some(UserRef(c.user.value.id)), version := InitialVersion, deleted := false)
    ensures res.1[nextId].id == nextId && res.1[nextId].userId == c.user.value.id
    ensures res.1[nextId].version == InitialVersion && !res.1[nextId].deleted
  {
    var row := CategoryRow(nextId, now, c.name, c.description, c.color, c.user.value.id, InitialVersion, false);
    (c.(id := nextId, createdAt := now), rows[nextId := row])
  }

  /** `CategoryModel.GetByID` on the table contents: the row with that id,
      owned by `userId` and not deleted; anything else is `ErrRecordNotFound`. */
  function FindCategory(rows: CategoryRows, id: int, userId: int): (r: Result<Category>)
    ensures r.Ok? <==> id in rows && rows[id].userId == userId && !rows[id].deleted
    ensures r.Err? ==> r.error == ErrRecordNotFound
    ensures r.Ok? ==> r.value == RowToCategory(rows[id]) && r.value.user == Some(UserRef(userId))
  {
    if id in rows && rows[id].userId == userId && !rows[id].deleted then
      Ok(RowToCategory(rows[id]))
    else
      Err(ErrRecordNotFound)
  }

  /** Insert keeps the serial numbering of the table. */
  lemma InsertCategoryKeepsSerial(rows: CategoryRows, n: nat, c: Category, now: int)
    requires c.user.Some? && Serial(rows, n)
    ensures Serial(InsertCategory(rows, n + 1, c, now).1, n + 1)
  {
  }

  /** A category just inserted is found by its owner, with the values Insert
      wrote back plus the default version, and by no one else. */
  lemma InsertThenFind(rows: CategoryRows, nextId: int, c: Category, now: int, userId: int)
    requires c.user.Some?
    ensures var (inserted, after) := InsertCategory(rows, nextId, c, now);
      FindCategory(after, nextId, userId) ==
        if userId == c.user.value.id
        then Ok(inserted.(user := Some(UserRef(userId)), version := InitialVersion, deleted := false))
        else Err(ErrRecordNotFound)
  {
  }

  // ---------------------------------------------------------------------
  // Ordering: `ORDER BY <column> <direction>, id ASC`

  /** The sort columns the listing allows. */
  datatype SortColumn = ById | ByName

  datatype Direction = Asc | Desc

  /** The values `filters.sortColumn()`, `sortDirection()`, `limit()` and
      `offset()` produce for the listing. */
  datatype Filters = Filters(sortColumn: SortColumn, sortDirection: Direction, limit: nat, offset: nat)

  /** Byte-wise lexicographic order on names. */
  predicate LexLess(a: Bytes, b: Bytes)
    decreases |a|
  {
    b != [] && (a == [] || a[0] < b[0] || (a[0] == b[0] && LexLess(a[1..], b[1..])))
  }

  lemma {:induction false} LexLessIrreflexive(a: Bytes)
    ensures !LexLess(a, a)
    decreases |a|
  {
    if a != [] {
      LexLessIrreflexive(a[1..]);
    }
  }

  lemma {:induction false} LexLessTransitive(a: Bytes, b: Bytes, c: Bytes)
    requires LexLess(a, b) && LexLess(b, c)
    ensures LexLess(a, c)
    decreases |a|
  {
    if a != [] && a[0] == b[0] && b[0] == c[0] {
      LexLessTransitive(a[1..], b[1..], c[1..]);
    }
  }

  lemma {:induction false} LexLessTotal(a: Bytes, b: Bytes)
    requires a != b
    ensures LexLess(a, b) || LexLess(b, a)
    decreases |a|
  {
    if a != [] && b != [] && a[0] == b[0] {
      assert a == [a[0]] + a[1..] && b == [b[0]] + b[1..];
      LexLessTotal(a[1..], b[1..]);
    }
  }

  /** The requested key puts `a` strictly before `b`. */
  predicate KeyBefore(a: CategoryRow, b: CategoryRow, col: SortColumn, dir: Direction)
  {
    match col
    case ById => if dir == Asc then a.id < b.id else b.id < a.id
    case ByName => if dir == Asc then LexLess(a.name, b.name) else LexLess(b.name, a.name)
  }

  /** The requested key ties. */
  predicate SameKey(a: CategoryRow, b: CategoryRow, col: SortColumn)
  {
    match col
    case ById => a.id == b.id
    case ByName => a.name == b.name
  }

  /** `a` comes before `b` under `ORDER BY <col> <dir>, id ASC`. */
  predicate Precedes(a: CategoryRow, b: CategoryRow, col: SortColumn, dir: Direction)
    ensures SameKey(a, b, col) ==> (Precedes(a, b, col, dir) <==> a.id < b.id)
  {
    LexLessIrreflexive(a.name);
    KeyBefore(a, b, col, dir) || (SameKey(a, b, col) && a.id < b.id)
  }

  lemma PrecedesIrreflexive(a: CategoryRow, col: SortColumn, dir: Direction)
    ensures !Precedes(a, a, col, dir)
  {
    LexLessIrreflexive(a.name);
  }

  lemma PrecedesTransitive(a: CategoryRow, b: CategoryRow, c: CategoryRow, col: SortColumn, dir: Direction)
    requires Precedes(a, b, col, dir) && Precedes(b, c, col, dir)
    ensures Precedes(a, c, col, dir)
  {
    if col == ByName {
      if dir == Asc {
        if LexLess(a.name, b.name) && LexLess(b.name, c.name) { LexLessTransitive(a.name, b.name, c.name); }
      } else {
        if LexLess(b.name, a.name) && LexLess(c.name, b.name) { LexLessTransitive(c.name, b.name, a.name); }
      }
    }
  }

  /** With the id tiebreaker, any two rows with different ids are ordered. */
  lemma PrecedesTotal(a: CategoryRow, b: CategoryRow, col: SortColumn, dir: Direction)
    requires a.id != b.id
    ensures Precedes(a, b, col, dir) || Precedes(b, a, col, dir)
  {
    if col == ByName && a.name != b.name {
      LexLessTotal(a.name, b.name);
    }
  }

  /** Every row comes before every later one. */
  predicate SortedBy(s: seq<CategoryRow>, col: SortColumn, dir: Direction)
  {
    forall i, j :: 0 <= i < j < |s| ==> Precedes(s[i], s[j], col, dir)
  }

  predicate DistinctIds(s: seq<CategoryRow>)
  {
    forall i, j :: 0 <= i < j < |s| ==> s[i].id != s[j].id
  }

  /** Inserts `x` before the first row it precedes. */
  function InsertSorted(x: CategoryRow, s: seq<CategoryRow>, col: SortColumn, dir: Direction): (r: seq<CategoryRow>)
    ensures multiset(r) == multiset(s) + multiset{x}
    decreases |s|
  {
    if s == [] then [x]
    else if Precedes(x, s[0], col, dir) then [x] + s
    else
      assert s == [s[0]] + s[1..];
      [s[0]] + InsertSorted(x, s[1..], col, dir)
  }

  lemma {:induction false} InsertSortedSorted(x: CategoryRow, s: seq<CategoryRow>, col: SortColumn, dir: Direction)
    requires SortedBy(s, col, dir)
    requires forall y :: y in s ==> y.id != x.id
    ensures SortedBy(InsertSorted(x, s, col, dir), col, dir)
    decreases |s|
  {
    if s == [] {
    } else if Precedes(x, s[0], col, dir) {
      forall k | 0 <= k < |s| ensures Precedes(x, s[k], col, dir) {
        if k > 0 { PrecedesTransitive(x, s[0], s[k], col, dir); }
      }
      var r := [x] + s;
      forall i, j | 0 <= i < j < |r| ensures Precedes(r[i], r[j], col, dir) {
        if i > 0 { assert r[i] == s[i - 1] && r[j] == s[j - 1]; }
        else { assert r[j] == s[j - 1]; }
      }
    } else {
      PrecedesTotal(x, s[0], col, dir);
      var rest := InsertSorted(x, s[1..], col, dir);
      InsertSortedSorted(x, s[1..], col, dir);
      forall k | 0 <= k < |rest| ensures Precedes(s[0], rest[k], col, dir) {
        assert rest[k] in multiset(rest);
        if rest[k] != x {
          assert rest[k] in multiset(s[1..]);
          var m :| 0 <= m < |s[1..]| && s[1..][m] == rest[k];
          assert s[m + 1] == rest[k];
        }
      }
      var r := [s[0]] + rest;
      forall i, j | 0 <= i < j < |r| ensures Precedes(r[i], r[j], col, dir) {
        if i > 0 { assert r[i] == rest[i - 1] && r[j] == rest[j - 1]; }
        else { assert r[j] == rest[j - 1]; }
      }
    }
  }

  /** The rows of `s` rearranged into `ORDER BY <col> <dir>, id ASC` order. */
  function SortRows(s: seq<CategoryRow>, col: SortColumn, dir: Direction): (r: seq<CategoryRow>)
    ensures multiset(r) == multiset(s)
    decreases |s|
  {
    if s == [] then []
    else
      assert s == [s[0]] + s[1..];
      InsertSorted(s[0], SortRows(s[1..], col, dir), col, dir)
  }

  lemma {:induction false} SortRowsSorted(s: seq<CategoryRow>, col: SortColumn, dir: Direction)
    requires DistinctIds(s)
    ensures SortedBy(SortRows(s, col, dir), col, dir)
    decreases |s|
  {
    if s != [] {
      var rest := SortRows(s[1..], col, dir);
      SortRowsSorted(s[1..], col, dir);
      forall y | y in rest ensures y.id != s[0].id {
        assert y in multiset(s[1..]);
        var m :| 0 <= m < |s[1..]| && s[1..][m] == y;
        assert s[m + 1] == y;
      }
      InsertSortedSorted(s[0], rest, col, dir);
    }
  }

  /** The id tiebreaker makes the order total: a sequence holding the same
      rows as `s` and sorted by `ORDER BY <col> <dir>, id ASC` is exactly
      `SortRows(s)`, so a page never depends on how ties are broken. */
  lemma {:induction false} OrderIsDetermined(s: seq<CategoryRow>, t: seq<CategoryRow>, col: SortColumn, dir: Direction)
    requires DistinctIds(s)
    requires multiset(t) == multiset(s) && SortedBy(t, col, dir)
    ensures t == SortRows(s, col, dir)
  {
    SortRowsSorted(s, col, dir);
    SortedUnique(t, SortRows(s, col, dir), col, dir);
  }

  /** Two sorted arrangements of the same rows start with the same row. */
  lemma SortedHeadsAgree(a: seq<CategoryRow>, b: seq<CategoryRow>, col: SortColumn, dir: Direction)
    requires SortedBy(a, col, dir) && SortedBy(b, col, dir) && multiset(a) == multiset(b) && a != []
    ensures b != [] && a[0] == b[0]
  {
    assert a[0] in multiset(b);
    assert b[0] in multiset(a);
    if a[0] != b[0] {
      var k :| 0 <= k < |b| && b[k] == a[0];
      var m :| 0 <= m < |a| && a[m] == b[0];
      assert Precedes(b[0], a[0], col, dir);
      assert Precedes(a[0], b[0], col, dir);
      PrecedesTransitive(a[0], b[0], a[0], col, dir);
      PrecedesIrreflexive(a[0], col, dir);
      assert false;
    }
  }

  lemma {:induction false} SortedUnique(a: seq<CategoryRow>, b: seq<CategoryRow>, col: SortColumn, dir: Direction)
    requires SortedBy(a, col, dir) && SortedBy(b, col, dir) && multiset(a) == multiset(b)
    ensures a == b
    decreases |a|
  {
    if a != [] {
      SortedHeadsAgree(a, b, col, dir);
      assert a == [a[0]] + a[1..] && b == [b[0]] + b[1..];
      assert multiset(a[1..]) == multiset(a) - multiset{a[0]};
      assert multiset(b[1..]) == multiset(b) - multiset{b[0]};
      SortedUnique(a[1..], b[1..], col, dir);
    }
  }

  // ---------------------------------------------------------------------
  // The listing: WHERE, then ORDER BY, then OFFSET/LIMIT

  /** The WHERE clause of the listing. `textMatch(column, query)` stands for
      the full-text match of the name against the query; an empty query
      bypasses it. */
  predicate Visible(r: CategoryRow, name: Bytes, userId: int, textMatch: (Bytes, Bytes) -> bool)
    ensures Visible(r, name, userId, textMatch) ==> r.userId == userId && !r.deleted
    ensures name == [] ==> (Visible(r, name, userId, textMatch) <==> r.userId == userId && !r.deleted)
  {
    (textMatch(r.name, name) || name == []) && r.userId == userId && !r.deleted
  }

  /** The rows with ids 1..n that satisfy the WHERE clause, in id order. */
  function Matching(rows: CategoryRows, n: nat, name: Bytes, userId: int, textMatch: (Bytes, Bytes) -> bool): (s: seq<CategoryRow>)
    requires Covers(rows, n)
    ensures forall i :: 0 <= i < |s| ==> 1 <= s[i].id <= n && rows[s[i].id] == s[i] && Visible(s[i], name, userId, textMatch)
    ensures forall i, j :: 0 <= i < j < |s| ==> s[i].id < s[j].id
    decreases n
  {
    if n == 0 then []
    else Matching(rows, n - 1, name, userId, textMatch) + (if Visible(rows[n], name, userId, textMatch) then [rows[n]] else [])
  }

  /** No row that satisfies the WHERE clause is missed. */
  lemma {:induction false} MatchingComplete(rows: CategoryRows, n: nat, name: Bytes, userId: int, textMatch: (Bytes, Bytes) -> bool, id: int)
    requires Covers(rows, n)
    requires 1 <= id <= n && Visible(rows[id], name, userId, textMatch)
    ensures rows[id] in Matching(rows, n, name, userId, textMatch)
    decreases n
  {
    if id < n {
      MatchingComplete(rows, n - 1, name, userId, textMatch, id);
    }
  }

  /** `LIMIT limit OFFSET offset`: the rows from position `offset` on, at most
      `limit` of them, and no fewer than are available. */
  function Window<T>(s: seq<T>, offset: nat, limit: nat): (w: seq<T>)
    ensures |w| <= limit
    ensures w != [] ==> offset + |w| <= |s|
    ensures |w| == limit || offset + |w| >= |s|
    ensures forall i :: 0 <= i < |w| ==> w[i] == s[offset + i]
  {
    if offset >= |s| then []
    else if offset + limit <= |s| then s[offset..offset + limit]
    else s[offset..]
  }

  /** The rows of one page of the listing: the matching rows, ordered, then windowed. */
  function Page(rows: CategoryRows, n: nat, name: Bytes, userId: int, filters: Filters, textMatch: (Bytes, Bytes) -> bool): (p: seq<CategoryRow>)
    requires Covers(rows, n)
    ensures |p| <= filters.limit
  {
    Window(SortRows(Matching(rows, n, name, userId, textMatch), filters.sortColumn, filters.sortDirection), filters.offset, filters.limit)
  }

  /** A page holds at most `limit` rows, each a stored row that satisfies the
      WHERE clause (so it is owned by the caller and not deleted), in the
      requested order, and it is the `offset`-th slice of the full ordering. */
  lemma PageProperties(rows: CategoryRows, n: nat, name: Bytes, userId: int, filters: Filters, textMatch: (Bytes, Bytes) -> bool)
    requires Covers(rows, n)
    ensures var p := Page(rows, n, name, userId, filters, textMatch);
      && |p| <= filters.limit
      && (forall i :: 0 <= i < |p| ==> 1 <= p[i].id <= n && rows[p[i].id] == p[i] && Visible(p[i], name, userId, textMatch))
      && SortedBy(p, filters.sortColumn, filters.sortDirection)
      && (forall i :: 0 <= i < |p| ==>
            p[i] == SortRows(Matching(rows, n, name, userId, textMatch), filters.sortColumn, filters.sortDirection)[filters.offset + i])
  {
    var matching := Matching(rows, n, name, userId, textMatch);
    var sorted := SortRows(matching, filters.sortColumn, filters.sortDirection);
    SortRowsSorted(matching, filters.sortColumn, filters.sortDirection);
    var p := Window(sorted, filters.offset, filters.limit);
    forall i | 0 <= i < |p| ensures p[i] in multiset(matching) {
      assert p[i] == sorted[filters.offset + i];
      assert p[i] in multiset(sorted);
    }
  }

  /** One row of the listing's result set: the `count(*) OVER()` column and the category columns. */
  datatype ResultRow = ResultRow(total: nat, row: CategoryRow)

  /** The result set of the listing's statement: every row of the page
      carries the number of rows that satisfy the WHERE clause, counted
      before OFFSET and LIMIT. */
  function ResultSet(rows: CategoryRows, n: nat, name: Bytes, userId: int, filters: Filters, textMatch: (Bytes, Bytes) -> bool): (rs: seq<ResultRow>)
    requires Covers(rows, n)
    ensures |rs| <= filters.limit
    ensures forall i :: 0 <= i < |rs| ==> rs[i].total == |Matching(rows, n, name, userId, textMatch)|
  {
    var total := |Matching(rows, n, name, userId, textMatch)|;
    var page := Page(rows, n, name, userId, filters, textMatch);
    seq(|page|, i requires 0 <= i < |page| => ResultRow(total, page[i]))
  }

  /** `CategoryModel.GetAll` on the table contents: runs the statement,
      then reads the result set row by row, appending each category and
      overwriting the total with the row's count. The categories are the
      page's rows, in order, and the total is the number of matching rows
      before paging, or 0 when the page is empty. */
  method ListCategories(rows: CategoryRows, n: nat, name: Bytes, userId: int, filters: Filters, textMatch: (Bytes, Bytes) -> bool)
    returns (categories: seq<Category>, totalRecords: nat)
    requires Covers(rows, n)
    ensures |categories| == |Page(rows, n, name, userId, filters, textMatch)|
    ensures forall i :: 0 <= i < |categories| ==>
      categories[i] == RowToCategory(Page(rows, n, name, userId, filters, textMatch)[i])
    ensures totalRecords == if categories == [] then 0 else |Matching(rows, n, name, userId, textMatch)|
  {
    var result := ResultSet(rows, n, name, userId, filters, textMatch);
    ghost var page := Page(rows, n, name, userId, filters, textMatch);
    ghost var total := |Matching(rows, n, name, userId, textMatch)|;
    assert |result| == |page| && forall k :: 0 <= k < |result| ==> result[k] == ResultRow(total, page[k]);
    totalRecords := 0;
    categories := [];
    var i := 0;
    while i < |result|
      invariant 0 <= i <= |result|
      invariant |categories| == i
      invariant forall k :: 0 <= k < i ==> categories[k] == RowToCategory(page[k])
      invariant totalRecords == if i == 0 then 0 else total
    {
      totalRecords := result[i].total;
      categories := categories + [RowToCategory(result[i].row)];
      i := i + 1;
    }
  }

  /** A category just inserted shows up in its owner's unfiltered listing
      (before paging), and in no other user's listing. */
  lemma InsertThenListed(rows: CategoryRows, n: nat, c: Category, now: int, userId: int, textMatch: (Bytes, Bytes) -> bool)
    requires c.user.Some? && Serial(rows, n)
    ensures var after := InsertCategory(rows, n + 1, c, now).1;
      Covers(after, n + 1) &&
      (after[n + 1] in Matching(after, n + 1, [], userId, textMatch) <==> userId == c.user.value.id)
  {
    var after := InsertCategory(rows, n + 1, c, now).1;
    InsertCategoryKeepsSerial(rows, n, c, now);
    if userId == c.user.value.id {
      MatchingComplete(after, n + 1, [], userId, textMatch, n + 1);
    }
  }

  // ---------------------------------------------------------------------
  // The store

  /** `CategoryModel`: the `categories` table and the statements run against
      it. The caller's `*Category` is modelled by the value Insert returns. */
  class CategoryTable {
    var rows: CategoryRows
    var nextId: int

    ghost predicate Valid()
      reads this
    {
      1 <= nextId && Serial(rows, nextId - 1)
    }

    constructor ()
      ensures Valid() && rows == map[]
    {
      rows := map[];
      nextId := 1;
    }

    /** `CategoryModel.Insert`. */
    method Insert(category: Category, now: int) returns (inserted: Category)
      requires Valid() && category.user.Some?
      modifies this
      ensures Valid() && nextId == old(nextId) + 1
      ensures (inserted, rows) == InsertCategory(old(rows), old(nextId), category, now)
    {
      InsertCategoryKeepsSerial(rows, nextId - 1, category, now);
      var id := nextId;
      rows := rows[id := CategoryRow(id, now, category.name, category.description, category.color,
                                     category.user.value.id, InitialVersion, false)];
      nextId := nextId + 1;
      inserted := category.(id := id, createdAt := now);
    }

    /** `CategoryModel.GetByID`. */
    method GetByID(id: int, userId: int) returns (r: Result<Category>)
      ensures r == FindCategory(rows, id, userId)
    {
      if id in rows && rows[id].userId == userId && !rows[id].deleted {
        r := Ok(RowToCategory(rows[id]));
      } else {
        r := Err(ErrRecordNotFound);
      }
    }

    /** `CategoryModel.GetAll`: one page of the caller's live categories
        whose names match the query, in the requested order, together with
        the number of matching categories before paging. */
    method GetAll(name: Bytes, userId: int, filters: Filters, textMatch: (Bytes, Bytes) -> bool)
      returns (categories: seq<Category>, totalRecords: nat)
      requires Valid()
      ensures |categories| == |Page(rows, nextId - 1, name, userId, filters, textMatch)|
      ensures forall i :: 0 <= i < |categories| ==>
        categories[i] == RowToCategory(Page(rows, nextId - 1, name, userId, filters, textMatch)[i])
      ensures totalRecords == if categories == [] then 0 else |Matching(rows, nextId - 1, name, userId, textMatch)|
    {
      var current, n := rows, nextId - 1;
      SerialCovers(current, n);
      categories, totalRecords := ListCategories(current, n, name, userId, filters, textMatch);
    }
  }
}
