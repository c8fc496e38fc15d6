/** The two tables of models.py as values, and the constraints the schema
    places on them, stated over the tables as maps keyed by primary key. */
module Models {
  import opened Security

  type UserId = nat
  type NoteId = nat

  /** A row of `users`. Every column is NOT NULL, so no field is optional. */
  datatype User = User(id: UserId, username: string, email: string, hashedPassword: PasswordHash)

  /** A row of `notes`. `isPublic` has the column default False; it is never
      NULL because every writer either takes the default or stores a bool. */
  datatype Note = Note(
    id: NoteId,
    title: string,
    content: string,
    createdAt: Time,
    updatedAt: Time,
    isPublic: bool,
    ownerId: UserId)

  /** The primary key of each stored row equals the key it is stored under. */
  ghost predicate UsersKeyed(users: map<UserId, User>) {
    forall id :: id in users ==> users[id].id == id
  }

  ghost predicate NotesKeyed(notes: map<NoteId, Note>) {
    forall id :: id in notes ==> notes[id].id == id
  }

  /** `username` is UNIQUE. */
  ghost predicate UniqueUsernames(users: map<UserId, User>) {
    forall a, b :: a in users && b in users && users[a].username == users[b].username ==> a == b
  }

  /** `email` is UNIQUE. */
  ghost predicate UniqueEmails(users: map<UserId, User>) {
    forall a, b :: a in users && b in users && users[a].email == users[b].email ==> a == b
  }

  /** `owner_id` is a NOT NULL foreign key into `users.id`. */
  ghost predicate OwnersExist(notes: map<NoteId, Note>, users: map<UserId, User>) {
    forall id :: id in notes ==> notes[id].ownerId in users
  }

  /** Every constraint the schema enforces on the two tables together. */
  ghost predicate Tables(users: map<UserId, User>, notes: map<NoteId, Note>) {
    && UsersKeyed(users)
    && UniqueUsernames(users)
    && UniqueEmails(users)
    && NotesKeyed(notes)
    && OwnersExist(notes, users)
  }

  /** Some stored user has this username (the `filter(User.username == ...)` test). */
  predicate UsernameTaken(users: map<UserId, User>, username: string) {
    exists id :: id in users && users[id].username == username
  }

  /** Some stored user has this email. */
  predicate EmailTaken(users: map<UserId, User>, email: string) {
    exists id :: id in users && users[id].email == email
  }

  /** `User.notes`: the ids of the notes whose `owner_id` is this user. */
  function NotesOf(notes: map<NoteId, Note>, owner: UserId): set<NoteId> {
    set id | id in notes && notes[id].ownerId == owner
  }

  /** `User.notes` and `Note.owner` are two views of one relation: a stored
      note lies in the `notes` collection of exactly one stored user, the one
      its `owner_id` names. */
  lemma NoteInExactlyOneCollection(users: map<UserId, User>, notes: map<NoteId, Note>, id: NoteId)
    requires OwnersExist(notes, users)
    requires id in notes
    ensures notes[id].ownerId in users && id in NotesOf(notes, notes[id].ownerId)
    ensures forall u :: u in users && id in NotesOf(notes, u) ==> u == notes[id].ownerId
  {
  }

  /** Adding a user whose username and email are both fresh keeps the
      schema's constraints; this is what registration relies on. */
  lemma AddUserKeepsTables(users: map<UserId, User>, notes: map<NoteId, Note>, u: User)
    requires Tables(users, notes)
    requires u.id !in users
    requires !UsernameTaken(users, u.username) && !EmailTaken(users, u.email)
    ensures Tables(users[u.id := u], notes)
  {
  }

  /** The `notes` collections of the stored users partition the notes table:
      two different users' collections share no note, and every stored note
      lies in the collection of some stored user. */
  lemma CollectionsPartitionNotes(users: map<UserId, User>, notes: map<NoteId, Note>)
    requires OwnersExist(notes, users)
    ensures forall u, v :: u in users && v in users && u != v ==> NotesOf(notes, u) !! NotesOf(notes, v)
    ensures forall id :: id in notes ==> exists u :: u in users && id in NotesOf(notes, u)
  {
    forall id | id in notes
      ensures exists u :: u in users && id in NotesOf(notes, u)
    {
      NoteInExactlyOneCollection(users, notes, id);
    }
  }
}
