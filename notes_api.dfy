/** The request handlers of main.py over one sequential store holding the
    two tables. The clock, the bcrypt salt and the credential a request
    carries are parameters; the signing key is fixed when the store is made. */
module NotesApi {
  import opened Common
  import opened Security
  import opened Models
  import opened Access
  import opened Queries

  const UsernameRegistered := HttpError(400, "Username already registered")
  const IncorrectLogin := HttpError(401, "Incorrect username or password")
  const InvalidCredentials := HttpError(401, "Could not validate credentials")
  const ViewNotAuthorized := HttpError(403, "Not authorized to view this note")
  const NoteNotFound := HttpError(404, "Note not found")
  const SharedNoteNotFound := HttpError(404, "Shared note not found")
  /** What the global exception handler turns an unexpected exception into,
      here the unique-constraint failure on `email`. */
  const InternalServerError := HttpError(500, "Internal server error")

  datatype UserResponse = UserResponse(id: UserId, username: string, email: string)
  datatype TokenResponse = TokenResponse(accessToken: Token, tokenType: string)
  datatype ShareResponse = ShareResponse(message: string, shareUrl: Option<string>, isPublic: bool)
  datatype PublicNoteResponse = PublicNoteResponse(
    id: NoteId,
    title: string,
    content: string,
    createdAt: Time,
    updatedAt: Time,
    isPublic: bool,
    ownerId: UserId,
    ownerUsername: string)

  function ToPublicResponse(row: JoinedNote): PublicNoteResponse {
    PublicNoteResponse(row.note.id, row.note.title, row.note.content, row.note.createdAt,
      row.note.updatedAt, row.note.isPublic, row.note.ownerId, row.ownerUsername)
  }

  /** A response row of the public list: a stored public note with its
      owner's username. */
  ghost predicate IsPublicResponse(notes: map<NoteId, Note>, users: map<UserId, User>, x: PublicNoteResponse) {
    && x.id in notes && notes[x.id].isPublic && notes[x.id].ownerId in users
    && x == ToPublicResponse(JoinedNote(notes[x.id], users[notes[x.id].ownerId].username))
  }

  /** Every response built from the sorted join rows is a public note's. */
  lemma PublicResponsesSound(notes: map<NoteId, Note>, users: map<UserId, User>, bound: nat,
                             rows: seq<JoinedNote>, r: seq<PublicNoteResponse>)
    requires NotesKeyed(notes)
    requires multiset(rows) == multiset(PublicBelow(notes, users, bound))
    requires |r| == |rows| && forall k :: 0 <= k < |r| ==> r[k] == ToPublicResponse(rows[k])
    ensures forall x :: x in r ==> IsPublicResponse(notes, users, x)
  {
    PublicBelowMembers(notes, users, bound);
    forall x | x in r
      ensures IsPublicResponse(notes, users, x)
    {
      var k :| 0 <= k < |r| && r[k] == x;
      var row := rows[k];
      assert row in multiset(PublicBelow(notes, users, bound));
      assert IsPublicRow(notes, users, row);
      assert row == JoinedNote(notes[x.id], users[notes[x.id].ownerId].username);
    }
  }

  /** Every public note's response is among those built from the sorted
      join rows. */
  lemma PublicResponsesComplete(notes: map<NoteId, Note>, users: map<UserId, User>, bound: nat,
                                rows: seq<JoinedNote>, r: seq<PublicNoteResponse>)
    requires NotesKeyed(notes) && forall id :: id in notes ==> id < bound
    requires multiset(rows) == multiset(PublicBelow(notes, users, bound))
    requires |r| == |rows| && forall k :: 0 <= k < |r| ==> r[k] == ToPublicResponse(rows[k])
    ensures forall x :: IsPublicResponse(notes, users, x) ==> x in r
  {
    PublicBelowMembers(notes, users, bound);
    forall x | IsPublicResponse(notes, users, x)
      ensures x in r
    {
      var row := JoinedNote(notes[x.id], users[notes[x.id].ownerId].username);
      assert IsPublicRow(notes, users, row) && row.note.id < bound;
      assert row in multiset(rows);
      var k :| 0 <= k < |rows| && rows[k] == row;
      assert r[k] == x;
    }
  }

  /** Converting the sorted join rows one by one yields exactly the public
      notes' responses. */
  lemma PublicResponsesExact(notes: map<NoteId, Note>, users: map<UserId, User>, bound: nat,
                             rows: seq<JoinedNote>, r: seq<PublicNoteResponse>)
    requires NotesKeyed(notes) && forall id :: id in notes ==> id < bound
    requires multiset(rows) == multiset(PublicBelow(notes, users, bound))
    requires |r| == |rows| && forall k :: 0 <= k < |r| ==> r[k] == ToPublicResponse(rows[k])
    ensures forall x :: x in r <==> IsPublicResponse(notes, users, x)
  {
    PublicResponsesSound(notes, users, bound, rows, r);
    PublicResponsesComplete(notes, users, bound, rows, r);
  }

  /** The responses inherit the rows' order and their freedom from duplicates. */
  lemma PublicResponsesOrdered(rows: seq<JoinedNote>, r: seq<PublicNoteResponse>)
    requires NewestFirst(rows) && DistinctIds(rows)
    requires |r| == |rows| && forall k :: 0 <= k < |r| ==> r[k] == ToPublicResponse(rows[k])
    ensures forall i, j :: 0 <= i < j < |r| ==> r[i].id != r[j].id
    ensures forall i, j :: 0 <= i < j < |r| ==> r[i].updatedAt >= r[j].updatedAt
  {
    forall i, j | 0 <= i < j < |r|
      ensures r[i].id != r[j].id
    {
      DistinctIdsAt(rows, i, j);
    }
  }

  /** The loop of `get_public_notes` that turns each joined row into a
      response, keeping the query's order. */
  method ToResponses(rows: seq<JoinedNote>) returns (r: seq<PublicNoteResponse>)
    ensures |r| == |rows|
    ensures forall k :: 0 <= k < |r| ==> r[k] == ToPublicResponse(rows[k])
  {
    r := [];
    for i := 0 to |rows|
      invariant |r| == i
      invariant forall k :: 0 <= k < i ==> r[k] == ToPublicResponse(rows[k])
    {
      r := r + [ToPublicResponse(rows[i])];
    }
  }

  class NoteStore {
    var users: map<UserId, User>
    var notes: map<NoteId, Note>
    /** The next value of each table's autoincrement primary key. */
    var nextUserId: UserId
    var nextNoteId: NoteId
    /** `SECRET_KEY`, read once at start-up. */
    const secretKey: string

    ghost predicate Valid()
      reads this
    {
      && Tables(users, notes)
      && (forall id :: id in users ==> id < nextUserId)
      && (forall id :: id in notes ==> id < nextNoteId)
    }

    constructor (secretKey: string)
      ensures Valid() && this.secretKey == secretKey
      ensures users == map[] && notes == map[] && nextUserId == 0 && nextNoteId == 0
    {
      this.secretKey := secretKey;
      users, notes := map[], map[];
      nextUserId, nextNoteId := 0, 0;
    }

    /** `db.query(User).filter(User.username == name).first()` */
    function UserNamed(name: string): (r: Option<User>)
      reads this
      requires Valid()
      ensures r.Some? <==> UsernameTaken(users, name)
      ensures r.Some? ==> r.value.id in users && users[r.value.id] == r.value && r.value.username == name
    {
      if UsernameTaken(users, name) then
        var id :| id in users && users[id].username == name;
        Some(users[id])
      else None
    }

    /** `get_current_user`: the caller a bearer credential stands for at `now`.
        It is accepted only when it carries our signature, has not expired,
        and has a `sub` naming a stored user; that user is the caller. Every
        refusal is the same 401. */
    function CurrentUser(token: Token, now: Time): (r: Result<User>)
      reads this
      requires Valid()
      ensures r.Ok? <==>
        && token.Signed? && token.key == secretKey && now < token.payload.exp
        && "sub" in token.payload.claims && UsernameTaken(users, token.payload.claims["sub"])
      ensures r.Ok? ==> r.value.id in users && users[r.value.id] == r.value
      ensures r.Ok? ==> r.value.username == token.payload.claims["sub"]
      ensures r.Err? ==> r.error == InvalidCredentials
    {
      var decoded := Decode(token, secretKey, now);
      if decoded.Rejected? || "sub" !in decoded.payload.claims then Err(InvalidCredentials)
      else
        match UserNamed(decoded.payload.claims["sub"])
        case None => Err(InvalidCredentials)
        case Some(user) => Ok(user)
    }

    /** `register`: refuses a taken username with 400. A taken email passes
        the handler's check but violates the UNIQUE constraint at commit, which
        surfaces as the generic 500; the tables are then unchanged. Otherwise
        exactly one user is added, under the next id, with the password's hash. */
    method Register(username: string, email: string, password: string, salt: nat) returns (r: Result<UserResponse>)
      requires Valid()
      modifies this
      ensures Valid() && notes == old(notes) && nextNoteId == old(nextNoteId)
      ensures UsernameTaken(old(users), username) ==>
        r == Err(UsernameRegistered) && users == old(users) && nextUserId == old(nextUserId)
      ensures !UsernameTaken(old(users), username) && EmailTaken(old(users), email) ==>
        r == Err(InternalServerError) && users == old(users) && nextUserId == old(nextUserId)
      ensures !UsernameTaken(old(users), username) && !EmailTaken(old(users), email) ==>
        && r == Ok(UserResponse(old(nextUserId), username, email))
        && users == old(users)[old(nextUserId) := User(old(nextUserId), username, email, HashPassword(password, salt))]
        && nextUserId == old(nextUserId) + 1
    {
      if UserNamed(username).Some? {
        return Err(UsernameRegistered);
      }
      var hashed := HashPassword(password, salt);
      var user := User(nextUserId, username, email, hashed);
      if EmailTaken(users, email) {
        return Err(InternalServerError);
      }
      AddUserKeepsTables(users, notes, user);
      users := users[user.id := user];
      nextUserId := nextUserId + 1;
      r := Ok(UserResponse(user.id, user.username, user.email));
    }

    /** `login`: an unknown username and a wrong password get the same 401.
        Otherwise the token names the username as `sub` and expires
        `ACCESS_TOKEN_EXPIRE_MINUTES` after `now`. */
    function Login(username: string, password: string, now: Time): (r: Result<TokenResponse>)
      reads this
      requires Valid()
      ensures r.Err? ==> r.error == IncorrectLogin
      ensures r.Ok? <==> exists id :: id in users && users[id].username == username && VerifyPassword(password, users[id].hashedPassword)
      ensures r.Ok? ==> r.value.tokenType == "bearer"
      ensures r.Ok? ==> r.value.accessToken == Signed(Payload(map["sub" := username], now + 30 * 60), secretKey)
    {
      var user := UserNamed(username);
      if user.None? || !VerifyPassword(password, user.value.hashedPassword) then Err(IncorrectLogin)
      else
        var expires := AccessTokenExpireMinutes * SecondsPerMinute;
        Ok(TokenResponse(CreateAccessToken(map["sub" := user.value.username], Some(expires), now, secretKey), "bearer"))
    }

    /** A login token authenticates the user who logged in, at every time
        before thirty minutes after issue, and at no time from then on. */
    lemma LoginSessionWindow(username: string, password: string, now: Time, later: Time)
      requires Valid()
      requires Login(username, password, now).Ok?
      ensures var session := CurrentUser(Login(username, password, now).value.accessToken, later);
        && (session.Ok? <==> later < now + 30 * 60)
        && (session.Ok? ==> session.value.username == username)
    {
    }

    /** Registration and login are partners: a stored user can log in with
        exactly the password whose hash was stored at registration. */
    lemma StoredUserLogsIn(id: UserId, password: string, salt: nat, now: Time)
      requires Valid()
      requires id in users
      ensures Login(users[id].username, password, now).Ok? <==> VerifyPassword(password, users[id].hashedPassword)
      ensures users[id].hashedPassword == HashPassword(password, salt) ==> Login(users[id].username, password, now).Ok?
    {
    }

    /** `get_user_notes`: exactly the caller's notes, each once (in id order;
        the query itself promises no order). */
    function UserNotes(token: Token, now: Time): (r: Result<seq<Note>>)
      reads this
      requires Valid()
      ensures CurrentUser(token, now).Err? ==> r == Err(InvalidCredentials)
      ensures CurrentUser(token, now).Ok? ==> r.Ok?
      ensures r.Ok? ==> forall n :: n in r.value <==>
        n.id in notes && notes[n.id] == n && n.ownerId == CurrentUser(token, now).value.id
      ensures r.Ok? ==> forall i, j :: 0 <= i < j < |r.value| ==> r.value[i].id != r.value[j].id
    {
      var caller := CurrentUser(token, now);
      if caller.Err? then Err(caller.error)
      else
        OwnedBelowExact(notes, caller.value.id, nextNoteId);
        Ok(OwnedBelow(notes, caller.value.id, nextNoteId))
    }

    /** `create_note`: the caller's new note gets the next id, both timestamps
        `now`, and the column default `is_public = False`. */
    method CreateNote(token: Token, title: string, content: string, now: Time) returns (r: Result<Note>)
      requires Valid()
      modifies this
      ensures Valid() && users == old(users) && nextUserId == old(nextUserId)
      ensures var caller := old(CurrentUser(token, now));
        caller.Err? ==> r == Err(InvalidCredentials) && notes == old(notes) && nextNoteId == old(nextNoteId)
      ensures var caller := old(CurrentUser(token, now));
        caller.Ok? ==>
          && r == Ok(Note(old(nextNoteId), title, content, now, now, false, caller.value.id))
          && notes == old(notes)[old(nextNoteId) := r.value]
          && nextNoteId == old(nextNoteId) + 1
    {
      var caller := CurrentUser(token, now);
      if caller.Err? {
        return Err(caller.error);
      }
      var note := Note(nextNoteId, title, content, now, now, false, caller.value.id);
      notes := notes[note.id := note];
      nextNoteId := nextNoteId + 1;
      r := Ok(note);
    }

    /** `get_note`: 404 when no note has the id; otherwise the note exactly
        when the read policy lets the caller see it, and 403 when not. */
    function GetNote(token: Token, noteId: NoteId, now: Time): (r: Result<Note>)
      reads this
      requires Valid()
      ensures CurrentUser(token, now).Err? ==> r == Err(InvalidCredentials)
      ensures CurrentUser(token, now).Ok? && noteId !in notes ==> r == Err(NoteNotFound)
      ensures CurrentUser(token, now).Ok? && noteId in notes ==>
        r == if CanRead(notes[noteId], Some(CurrentUser(token, now).value)) then Ok(notes[noteId]) else Err(ViewNotAuthorized)
    {
      var caller := CurrentUser(token, now);
      if caller.Err? then Err(caller.error)
      else if noteId !in notes then Err(NoteNotFound)
      else if ViewDenied(notes[noteId], caller.value.id) then Err(ViewNotAuthorized)
      else Ok(notes[noteId])
    }

    /** `update_note`: found only by `(id, owner_id = caller)`, so a
        non-owner gets the same 404 as for a missing note and nothing changes;
        the owner's note is edited in place. */
    method UpdateNote(token: Token, noteId: NoteId, title: Option<string>, content: Option<string>, now: Time)
      returns (r: Result<Note>)
      requires Valid()
      modifies this
      ensures Valid() && users == old(users) && nextUserId == old(nextUserId) && nextNoteId == old(nextNoteId)
      ensures var caller := old(CurrentUser(token, now));
        caller.Err? ==> r == Err(InvalidCredentials) && notes == old(notes)
      ensures var caller := old(CurrentUser(token, now));
        caller.Ok? && !(noteId in old(notes) && CanWrite(old(notes)[noteId], Some(caller.value))) ==>
          r == Err(NoteNotFound) && notes == old(notes)
      ensures var caller := old(CurrentUser(token, now));
        caller.Ok? && noteId in old(notes) && CanWrite(old(notes)[noteId], Some(caller.value)) ==>
          && r == Ok(Edited(old(notes)[noteId], title, content, now))
          && notes == old(notes)[noteId := r.value]
    {
      var caller := CurrentUser(token, now);
      if caller.Err? {
        return Err(caller.error);
      }
      if noteId !in notes || notes[noteId].ownerId != caller.value.id {
        return Err(NoteNotFound);
      }
      var note := Edited(notes[noteId], title, content, now);
      notes := notes[noteId := note];
      r := Ok(note);
    }

    /** `delete_note`: the owner's note, and only it, is removed; anyone
        else gets the 404 of a missing note and nothing changes. */
    method DeleteNote(token: Token, noteId: NoteId, now: Time) returns (r: Result<string>)
      requires Valid()
      modifies this
      ensures Valid() && users == old(users) && nextUserId == old(nextUserId) && nextNoteId == old(nextNoteId)
      ensures var caller := old(CurrentUser(token, now));
        caller.Err? ==> r == Err(InvalidCredentials) && notes == old(notes)
      ensures var caller := old(CurrentUser(token, now));
        caller.Ok? && !(noteId in old(notes) && CanWrite(old(notes)[noteId], Some(caller.value))) ==>
          r == Err(NoteNotFound) && notes == old(notes)
      ensures var caller := old(CurrentUser(token, now));
        caller.Ok? && noteId in old(notes) && CanWrite(old(notes)[noteId], Some(caller.value)) ==>
          && r == Ok("Note deleted successfully")
          && notes == old(notes) - {noteId}
    {
      var caller := CurrentUser(token, now);
      if caller.Err? {
        return Err(caller.error);
      }
      if noteId !in notes || notes[noteId].ownerId != caller.value.id {
        return Err(NoteNotFound);
      }
      notes := notes - {noteId};
      r := Ok("Note deleted successfully");
    }

    /** `share_note`: the owner sets the visibility flag and gets a share
        link when the note is now public; anyone else gets the 404 of a
        missing note and nothing changes. */
    method ShareNote(token: Token, noteId: NoteId, isPublic: bool, now: Time) returns (r: Result<ShareResponse>)
      requires Valid()
      modifies this
      ensures Valid() && users == old(users) && nextUserId == old(nextUserId) && nextNoteId == old(nextNoteId)
      ensures var caller := old(CurrentUser(token, now));
        caller.Err? ==> r == Err(InvalidCredentials) && notes == old(notes)
      ensures var caller := old(CurrentUser(token, now));
        caller.Ok? && !(noteId in old(notes) && CanWrite(old(notes)[noteId], Some(caller.value))) ==>
          r == Err(NoteNotFound) && notes == old(notes)
      ensures var caller := old(CurrentUser(token, now));
        caller.Ok? && noteId in old(notes) && CanWrite(old(notes)[noteId], Some(caller.value)) ==>
          && r == Ok(ShareResponse("Note sharing updated", ShareUrl(noteId, isPublic), isPublic))
          && notes == old(notes)[noteId := Shared(old(notes)[noteId], isPublic, now)]
    {
      var caller := CurrentUser(token, now);
      if caller.Err? {
        return Err(caller.error);
      }
      if noteId !in notes || notes[noteId].ownerId != caller.value.id {
        return Err(NoteNotFound);
      }
      var note := Shared(notes[noteId], isPublic, now);
      notes := notes[noteId := note];
      r := Ok(ShareResponse("Note sharing updated", ShareUrl(note.id, isPublic), note.isPublic));
    }

    /** `get_public_notes`: every public note once, with its owner's
        username, most recently updated first. No credential is needed. */
    method PublicNotes() returns (r: seq<PublicNoteResponse>)
      requires Valid()
      ensures forall x :: x in r <==> IsPublicResponse(notes, users, x)
      ensures forall i, j :: 0 <= i < j < |r| ==> r[i].id != r[j].id
      ensures forall i, j :: 0 <= i < j < |r| ==> r[i].updatedAt >= r[j].updatedAt
    {
      var joined := PublicBelow(notes, users, nextNoteId);
      var rows := SortNewestFirst(joined);
      PublicBelowDistinct(notes, users, nextNoteId);
      SortNewestFirstFacts(joined);
      assert multiset(rows) == multiset(joined) && NewestFirst(rows) && DistinctIds(rows);
      r := ToResponses(rows);
      PublicResponsesOrdered(rows, r);
      PublicResponsesExact(notes, users, nextNoteId, rows, r);
    }

    /** `get_shared_note`: the note, with its owner's username, exactly when
        it exists and anyone may read it; otherwise 404. */
    function SharedNote(noteId: NoteId): (r: Result<PublicNoteResponse>)
      reads this
      requires Valid()
      ensures r.Ok? <==> noteId in notes && CanRead(notes[noteId], None)
      ensures r.Ok? ==> r.value.id == noteId && IsPublicResponse(notes, users, r.value)
      ensures r.Err? ==> r.error == SharedNoteNotFound
    {
      if noteId in notes && notes[noteId].isPublic && notes[noteId].ownerId in users then
        Ok(ToPublicResponse(JoinedNote(notes[noteId], users[notes[noteId].ownerId].username)))
      else Err(SharedNoteNotFound)
    }
  }

  /** A client of the handlers' contracts: a user registers, logs in and
      creates a note; the note is hidden from anonymous readers until it is
      shared, visible while shared, and hidden again once unshared, while the
      owner can read it throughout; the login token still works after 29
      minutes and no longer after 31. */
  method SharingScenario(now: Time) returns (hiddenAtFirst: bool, visibleWhenShared: bool, hiddenWhenUnshared: bool, ownerReads: bool, tokenWindow: bool)
    ensures hiddenAtFirst && visibleWhenShared && hiddenWhenUnshared && ownerReads && tokenWindow
  {
    var store := new NoteStore("secret");
    var registered := store.Register("alice", "alice@x.com", "pw123", 7);
    assert registered.Ok? by { assert !UsernameTaken(map[], "alice") && !EmailTaken(map[], "alice@x.com"); }
    assert store.users[0].username == "alice";
    var login := store.Login("alice", "pw123", now);
    assert login.Ok? by { assert VerifyPassword("pw123", store.users[0].hashedPassword); }
    var token := login.value.accessToken;
    assert store.CurrentUser(token, now).Ok?;
    var created := store.CreateNote(token, "Groceries", "milk,eggs", now);
    var id := created.value.id;
    hiddenAtFirst := store.SharedNote(id).Err?;
    var shared := store.ShareNote(token, id, true, now + 1);
    visibleWhenShared := store.SharedNote(id).Ok?;
    var ownerRead1 := store.GetNote(token, id, now + 2);
    var unshared := store.ShareNote(token, id, false, now + 3);
    hiddenWhenUnshared := store.SharedNote(id).Err?;
    var ownerRead2 := store.GetNote(token, id, now + 4);
    ownerReads := ownerRead1.Ok? && ownerRead2.Ok?;
    tokenWindow := store.CurrentUser(token, now + 29 * 60).Ok? && store.CurrentUser(token, now + 31 * 60).Err?;
  }
}
