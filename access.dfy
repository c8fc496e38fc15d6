/** The decisions and field updates the note handlers of main.py make:
    who may read a note, how an edit and a visibility change rewrite a note,
    and the share link handed back to the owner. */
module Access {
  import opened Common
  import opened Security
  import opened Models

  /** The reference read policy: the owner may read a note, and anyone,
      signed in or not, may read a public one. */
  predicate CanRead(note: Note, caller: Option<User>) {
    (caller.Some? && caller.value.id == note.ownerId) || note.isPublic
  }

  /** The reference write policy for update, delete and share: the owner only. */
  predicate CanWrite(note: Note, caller: Option<User>) {
    caller.Some? && caller.value.id == note.ownerId
  }

  /** The refusal test `get_note` performs, as written. */
  predicate ViewDenied(note: Note, callerId: UserId) {
    note.ownerId != callerId && !note.isPublic
  }

  /** The handler's refusal test denies a signed-in caller exactly what the
      reference policy does not allow. */
  lemma ViewDeniedMatchesPolicy(note: Note, caller: User)
    ensures ViewDenied(note, caller.id) <==> !CanRead(note, Some(caller))
  {
  }

  /** `update_note`'s assignments: each of title and content is replaced only
      when supplied, and `updated_at` is always refreshed. */
  function Edited(note: Note, title: Option<string>, content: Option<string>, now: Time): (e: Note)
    ensures e.id == note.id && e.ownerId == note.ownerId
    ensures e.createdAt == note.createdAt && e.isPublic == note.isPublic
    ensures e.updatedAt == now
    ensures title.Some? ==> e.title == title.value
    ensures title.None? ==> e.title == note.title
    ensures content.Some? ==> e.content == content.value
    ensures content.None? ==> e.content == note.content
  {
    var withTitle := if title.Some? then note.(title := title.value) else note;
    var withContent := if content.Some? then withTitle.(content := content.value) else withTitle;
    withContent.(updatedAt := now)
  }

  /** `share_note`'s assignments: the flag takes the requested value and
      `updated_at` is refreshed. */
  function Shared(note: Note, isPublic: bool, now: Time): (s: Note)
    ensures s.isPublic == isPublic && s.updatedAt == now
    ensures s.id == note.id && s.ownerId == note.ownerId && s.createdAt == note.createdAt
    ensures s.title == note.title && s.content == note.content
  {
    note.(isPublic := isPublic, updatedAt := now)
  }

  /** Repeating an edit or a share request changes nothing but `updated_at`. */
  lemma RepeatedRequests(note: Note, title: Option<string>, content: Option<string>, isPublic: bool, t1: Time, t2: Time)
    ensures Edited(Edited(note, title, content, t1), title, content, t2) == Edited(note, title, content, t2)
    ensures Shared(Shared(note, isPublic, t1), isPublic, t2) == Shared(note, isPublic, t2)
  {
  }

  /** Visibility is what a share request controls: after sharing, anyone may
      read the note; after unsharing, only the owner; the owner always may. */
  lemma SharingControlsReads(note: Note, isPublic: bool, now: Time, owner: User, other: Option<User>)
    requires owner.id == note.ownerId
    requires other.None? || other.value.id != note.ownerId
    ensures CanRead(Shared(note, isPublic, now), Some(owner))
    ensures CanRead(Shared(note, isPublic, now), other) <==> isPublic
    ensures CanWrite(note, Some(owner)) && !CanWrite(note, other)
  {
  }

  /** The route prefix of `get_shared_note`. */
  const SharedPrefix := "/shared/"

  /** The decimal text of a note id, as an f-string formats an int. */
  function DecimalText(n: nat): (s: string)
    ensures |s| > 0 && forall i :: 0 <= i < |s| ==> '0' <= s[i] <= '9'
    ensures n < 10 <==> |s| == 1
  {
    if n < 10 then [DigitChar(n)] else DecimalText(n / 10) + [DigitChar(n % 10)]
  }

  function DigitChar(d: nat): (c: char)
    requires d < 10
    ensures '0' <= c <= '9'
  {
    ('0' as int + d) as char
  }

  function DigitValue(c: char): Option<nat> {
    if '0' <= c <= '9' then Some(c as int - '0' as int) else None
  }

  /** Reading a path segment back as a note id: a non-empty string of digits. */
  function ParseDecimal(s: string): Option<nat> {
    if |s| == 0 then None
    else
      var last := DigitValue(s[|s| - 1]);
      if last.None? then None
      else if |s| == 1 then last
      else
        var rest := ParseDecimal(s[..|s| - 1]);
        if rest.None? then None else Some(rest.value * 10 + last.value)
  }

  /** The note id a `/shared/{note_id}` path names, if it is one. */
  function SharedPathId(path: string): Option<NoteId> {
    if |SharedPrefix| <= |path| && path[..|SharedPrefix|] == SharedPrefix then ParseDecimal(path[|SharedPrefix|..])
    else None
  }

  /** `share_url`: a link only when the note is being made public. */
  function ShareUrl(id: NoteId, isPublic: bool): (url: Option<string>)
    ensures url.Some? <==> isPublic
  {
    if isPublic then Some(SharedPrefix + DecimalText(id)) else None
  }

  lemma {:induction false} DecimalRoundTrip(n: nat)
    ensures ParseDecimal(DecimalText(n)) == Some(n)
  {
    var s := DecimalText(n);
    if n >= 10 {
      var q, d := n / 10, n % 10;
      DecimalRoundTrip(q);
      assert s == DecimalText(q) + [DigitChar(d)];
      assert s[..|s| - 1] == DecimalText(q);
      assert DigitValue(s[|s| - 1]) == Some(d);
      assert q * 10 + d == n;
    }
  }

  /** The link `share_note` hands back leads to the same note through the
      `/shared/{note_id}` route. */
  lemma ShareUrlRoutesToNote(id: NoteId)
    ensures ShareUrl(id, true).Some? && SharedPathId(ShareUrl(id, true).value) == Some(id)
  {
    var url := ShareUrl(id, true).value;
    assert url[..|SharedPrefix|] == SharedPrefix;
    assert url[|SharedPrefix|..] == DecimalText(id);
    DecimalRoundTrip(id);
  }
}
