/** The stored documents and the request models that shape them.
 *
 *  A field that an update request can set to null holds an Option: the update
 *  models drop absent fields (exclude_unset) but keep an explicit null, and the
 *  store then holds null for that field.
 */
module Documents {
  import opened Ids
  import opened Maybe

  type Time = nat

  datatype NoteFormat = Markdown | Plain

  datatype Permission = Read | Edit

  datatype Role = AdminRole | UserRole

  /** One field of an update request: absent, an explicit null, or a value. */
  datatype Change<T> = Keep | SetNull | SetTo(value: T)

  /** The stored value of a field after `$set` with the request's field. */
  function Apply<T>(c: Change<T>, current: Option<T>): (r: Option<T>)
    ensures c.Keep? ==> r == current
    ensures c.SetNull? ==> r.None?
    ensures c.SetTo? ==> r == Some(c.value)
  {
    match c
    case Keep => current
    case SetNull => None
    case SetTo(v) => Some(v)
  }

  /** The value a Change would store, when it stores one: absent when the request
      leaves the field alone. */
  function Requested<T>(c: Change<T>): Option<Option<T>> {
    match c
    case Keep => None
    case SetNull => Some(None)
    case SetTo(v) => Some(Some(v))
  }

  /** Python truthiness of a request field that is present: `update_data[f]`. */
  predicate SetsTrue(c: Change<bool>) {
    c == SetTo(true)
  }

  datatype Note = Note(
    id: Oid,
    owner: Oid,
    title: Option<string>,
    content: Option<string>,
    format: Option<NoteFormat>,
    pinned: Option<bool>,
    tags: Option<seq<Oid>>,
    color: Option<string>,
    metadata: Option<map<string, string>>,
    createdAt: Time,
    updatedAt: Time)

  /** The note's tag list exists and contains `t` (the query `{"tags": t}`). */
  predicate HasTag(n: Note, t: Oid) {
    n.tags.Some? && t in n.tags.value
  }

  datatype Tag = Tag(
    id: Oid,
    owner: Oid,
    name: Option<string>,
    color: Option<string>,
    noteCount: int,
    createdAt: Time,
    updatedAt: Time)

  datatype Collection = Collection(
    id: Oid,
    owner: Oid,
    name: Option<string>,
    description: Option<string>,
    color: Option<string>,
    isDefault: Option<bool>,
    noteCount: int,
    createdAt: Time,
    updatedAt: Time)

  /** A row of collection_notes. */
  datatype Link = Link(id: Oid, collection: Oid, note: Oid, addedAt: Time)

  /** A row of shared_notes: a grant of access to a note. */
  datatype Share = Share(
    id: Oid,
    note: Oid,
    user: Oid,
    permission: Option<Permission>,
    createdAt: Time,
    updatedAt: Time)

  datatype User = User(
    id: Oid,
    email: Option<string>,
    username: Option<string>,
    hashedPassword: string,
    fullName: Option<string>,
    active: Option<bool>,
    role: Role,
    createdAt: Time,
    updatedAt: Time)

  // Request models (app/models). Field validation (lengths, e-mail syntax) belongs
  // to the request layer and is not part of this model.

  datatype NoteCreate = NoteCreate(
    title: string,
    content: string,
    format: NoteFormat,
    pinned: bool,
    tags: seq<string>,
    color: Option<string>,
    metadata: map<string, string>)

  datatype NoteUpdate = NoteUpdate(
    title: Change<string>,
    content: Change<string>,
    format: Change<NoteFormat>,
    pinned: Change<bool>,
    tags: Change<seq<string>>,
    color: Change<string>,
    metadata: Change<map<string, string>>)

  datatype TagCreate = TagCreate(name: string, color: Option<string>)

  datatype TagUpdate = TagUpdate(name: Change<string>, color: Change<string>)

  datatype CollectionCreate = CollectionCreate(
    name: string,
    description: Option<string>,
    color: Option<string>,
    isDefault: bool)

  datatype CollectionUpdate = CollectionUpdate(
    name: Change<string>,
    description: Change<string>,
    color: Change<string>,
    isDefault: Change<bool>)

  datatype UserCreate = UserCreate(
    email: string,
    username: string,
    isActive: bool,
    password: string,
    fullName: Option<string>)

  datatype UserUpdate = UserUpdate(
    email: Change<string>,
    username: Change<string>,
    password: Change<string>,
    fullName: Change<string>,
    isActive: Change<bool>)

  /** Why a ValueError was raised. */
  datatype Reason =
    | InvalidId
    | NoteNotFound
    | UserNotFound
    | ShareWithOwner
    | DuplicateTagName
    | DuplicateEmail
    | DuplicateUsername

  /** An exception raised out of an operation. TypeError is Python's own, raised
      when a null field is iterated or hashed. */
  datatype Error = ValueError(reason: Reason) | TypeError

  datatype Result<T> = Ok(value: T) | Err(error: Error)
}
