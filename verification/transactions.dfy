/** Transactions: the entity and its sparse wire form, in which a field is
    present only when it carries a non-zero value. */
module Transactions {
  import opened Models
  import opened Users
  import opened Categories

  /** `TypeCategoria`, an integer enumeration whose zero value means "no type".
      Its string conversions are not part of this model and are passed in as
      parameters `typeName` (`String`) and `typeFromString`
      (`TypeCategoriaFromString`). */
  type TypeCategoria = int

  /** `Transaction`; `user` and `category` are pointers that may be nil.
      `Amount` is a `float64` that is only compared with zero and copied. */
  datatype Transaction = Transaction(
    id: int,
    createdAt: int,
    deleted: bool,
    version: int,
    user: Option<User>,
    category: Option<Category>,
    description: Bytes,
    amount: real,
    kind: TypeCategoria)

  /** `TransactionDTO`: every field is a pointer that may be nil. It has no
      CreatedAt and no Deleted field. */
  datatype TransactionDTO = TransactionDTO(
    id: Option<int>,
    version: Option<int>,
    user: Option<UserDTO>,
    category: Option<CategoryDTO>,
    description: Option<Bytes>,
    amount: Option<real>,
    kind: Option<Bytes>)

  /** `Category.ToDTO` dereferences the category's owner, so a category
      pointer can be converted only when it is nil or has an owner. */
  predicate CategoryConvertible(c: Option<Category>)
  {
    c.None? || c.value.user.Some?
  }

  /** `CategoryDTO.ToModel` dereferences the DTO's owner in the same way. */
  predicate CategoryDTOConvertible(c: Option<CategoryDTO>)
  {
    c.None? || c.value.user.Some?
  }

  /** `Transaction.toDTO`: ID, Version, Description and Amount are present
      exactly when they are non-zero; User and Category exactly when their
      pointers are non-nil; Type is always present, and empty when the type
      is the zero value. */
  function TransactionToDTO(t: Transaction, typeName: TypeCategoria -> Bytes): (d: TransactionDTO)
    requires CategoryConvertible(t.category)
    ensures d.id.Some? <==> t.id != 0
    ensures d.version.Some? <==> t.version != 0
    ensures d.description.Some? <==> t.description != []
    ensures d.amount.Some? <==> t.amount != 0.0
    ensures d.id.Some? ==> d.id.value == t.id
    ensures d.version.Some? ==> d.version.value == t.version
    ensures d.description.Some? ==> d.description.value == t.description
    ensures d.amount.Some? ==> d.amount.value == t.amount
    ensures d.user.Some? <==> t.user.Some?
    ensures d.category.Some? <==> t.category.Some?
    ensures d.user.Some? ==> d.user.value == UserToDTO(t.user.value)
    ensures d.category.Some? ==> d.category.value == CategoryToDTO(t.category.value)
    ensures d.kind.Some?
    ensures t.kind == 0 ==> d.kind.value == []
    ensures t.kind != 0 ==> d.kind.value == typeName(t.kind)
  {
    TransactionDTO(
      if t.id != 0 then Some(t.id) else None,
      if t.version != 0 then Some(t.version) else None,
      if t.user.Some? then Some(UserToDTO(t.user.value)) else None,
      if t.category.Some? then Some(CategoryToDTO(t.category.value)) else None,
      if t.description != [] then Some(t.description) else None,
      if t.amount != 0.0 then Some(t.amount) else None,
      Some(if t.kind != 0 then typeName(t.kind) else []))
  }

  /** The fields `TransactionDTO.toModel` dereferences unconditionally:
      converting a DTO that lacks one of them is a nil dereference. */
  predicate Complete(d: TransactionDTO)
  {
    d.id.Some? && d.version.Some? && d.description.Some? && d.amount.Some?
  }

  /** `TransactionDTO.toModel`: copies the four required fields, converts the
      user and category that are present, maps a present Type through
      `typeFromString` and an absent one to the zero type, and leaves
      CreatedAt at the zero time and Deleted false. */
  function TransactionDTOToModel(d: TransactionDTO, typeFromString: Bytes -> TypeCategoria): (t: Transaction)
    requires Complete(d) && CategoryDTOConvertible(d.category)
    ensures t.id == d.id.value && t.version == d.version.value
    ensures t.description == d.description.value && t.amount == d.amount.value
    ensures t.user.Some? <==> d.user.Some?
    ensures t.category.Some? <==> d.category.Some?
    ensures t.user.Some? ==> UserToDTO(t.user.value) == d.user.value
    ensures CategoryConvertible(t.category)
    ensures t.category.Some? ==> CategoryToDTO(t.category.value) == d.category.value
    ensures d.kind.None? ==> t.kind == 0
    ensures d.kind.Some? ==> t.kind == typeFromString(d.kind.value)
    ensures t.createdAt == 0 && !t.deleted
  {
    Transaction(
      d.id.value,
      0,
      false,
      d.version.value,
      if d.user.Some? then Some(UserDTOToModel(d.user.value)) else None,
      if d.category.Some? then Some(CategoryDTOToModel(d.category.value)) else None,
      d.description.value,
      d.amount.value,
      if d.kind.Some? then typeFromString(d.kind.value) else 0)
  }

  /** `toModel` can consume what `toDTO` produced exactly when ID, Version,
      Description and Amount are all non-zero; a transaction with any of them
      at its zero value yields a DTO that `toModel` cannot convert. */
  lemma ToDTOComplete(t: Transaction, typeName: TypeCategoria -> Bytes)
    requires CategoryConvertible(t.category)
    ensures Complete(TransactionToDTO(t, typeName)) <==>
      t.id != 0 && t.version != 0 && t.description != [] && t.amount != 0.0
  {
  }

  /** Entity -> wire -> entity: for a transaction with non-zero ID, Version,
      Description and Amount, those four fields come back unchanged, the user
      and category come back exactly when they were there (each as its own
      wire round trip gives it), CreatedAt becomes the zero time and Deleted
      false. */
  lemma TransactionRoundTrip(t: Transaction, typeName: TypeCategoria -> Bytes, typeFromString: Bytes -> TypeCategoria)
    requires CategoryConvertible(t.category)
    requires t.id != 0 && t.version != 0 && t.description != [] && t.amount != 0.0
    ensures CategoryDTOConvertible(TransactionToDTO(t, typeName).category)
    ensures var back := TransactionDTOToModel(TransactionToDTO(t, typeName), typeFromString);
      && back.id == t.id && back.version == t.version
      && back.description == t.description && back.amount == t.amount
      && (back.user.Some? <==> t.user.Some?)
      && (back.category.Some? <==> t.category.Some?)
      && (t.user.Some? ==> back.user == Some(WireFields(t.user.value)))
      && (t.category.Some? ==>
            back.category == Some(t.category.value.(version := 0, deleted := false, user := Some(WireFields(t.category.value.user.value)))))
      && back.createdAt == 0 && !back.deleted
  {
    if t.user.Some? {
      UserWireRoundTrip(t.user.value);
    }
    if t.category.Some? {
      CategoryWireRoundTrip(t.category.value);
    }
  }

  /** The type survives the round trip when the string conversions are
      inverse on it; the zero type comes back as whatever the empty string
      converts to. */
  lemma TransactionKindRoundTrip(t: Transaction, typeName: TypeCategoria -> Bytes, typeFromString: Bytes -> TypeCategoria)
    requires CategoryConvertible(t.category)
    requires t.id != 0 && t.version != 0 && t.description != [] && t.amount != 0.0
    ensures var back := TransactionDTOToModel(TransactionToDTO(t, typeName), typeFromString);
      && (t.kind != 0 && typeFromString(typeName(t.kind)) == t.kind ==> back.kind == t.kind)
      && (t.kind == 0 ==> back.kind == typeFromString([]))
  {
  }

  /** Wire -> entity -> wire: a DTO whose four required fields hold non-zero
      values comes back with the same ID, Version, Description, Amount, User
      and Category. */
  lemma TransactionDTORoundTrip(d: TransactionDTO, typeName: TypeCategoria -> Bytes, typeFromString: Bytes -> TypeCategoria)
    requires Complete(d) && CategoryDTOConvertible(d.category)
    requires d.id.value != 0 && d.version.value != 0 && d.description.value != [] && d.amount.value != 0.0
    ensures CategoryConvertible(TransactionDTOToModel(d, typeFromString).category)
    ensures var again := TransactionToDTO(TransactionDTOToModel(d, typeFromString), typeName);
      && again.id == d.id && again.version == d.version
      && again.description == d.description && again.amount == d.amount
      && again.user == d.user && again.category == d.category
  {
  }
}
