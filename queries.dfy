/** The two listing queries of main.py, stated as a filter over the notes
    table in primary-key order plus, for the public list, the order the query
    asks for (`ORDER BY updated_at DESC`). Only the result is specified, not
    how a database would evaluate it. */
module Queries {
  import opened Security
  import opened Models

  /** `db.query(Note).filter(Note.owner_id == owner)` over the ids below `bound`,
      in ascending id order. */
  function OwnedBelow(notes: map<NoteId, Note>, owner: UserId, bound: nat): seq<Note> {
    if bound == 0 then []
    else
      var id := bound - 1;
      OwnedBelow(notes, owner, id) + (if id in notes && notes[id].ownerId == owner then [notes[id]] else [])
  }

  /** The owner filter returns exactly the stored notes of that owner below
      the bound, each once, in strictly increasing id order. */
  lemma {:induction false} OwnedBelowExact(notes: map<NoteId, Note>, owner: UserId, bound: nat)
    requires NotesKeyed(notes)
    ensures forall n :: n in OwnedBelow(notes, owner, bound) <==>
      n.id < bound && n.id in notes && notes[n.id] == n && n.ownerId == owner
    ensures forall i, j :: 0 <= i < j < |OwnedBelow(notes, owner, bound)| ==>
      OwnedBelow(notes, owner, bound)[i].id < OwnedBelow(notes, owner, bound)[j].id
  {
    if bound > 0 {
      OwnedBelowExact(notes, owner, bound - 1);
    }
  }

  /** A row of the join `Note JOIN User ON owner_id = users.id`. */
  datatype JoinedNote = JoinedNote(note: Note, ownerUsername: string)

  /** The public rows of the join over the ids below `bound`, in id order. */
  function PublicBelow(notes: map<NoteId, Note>, users: map<UserId, User>, bound: nat): seq<JoinedNote> {
    if bound == 0 then []
    else
      var id := bound - 1;
      PublicBelow(notes, users, id)
        + (if id in notes && notes[id].isPublic && notes[id].ownerId in users
           then [JoinedNote(notes[id], users[notes[id].ownerId].username)] else [])
  }

  /** A join row that belongs to the public list: a stored public note paired
      with its owner's username. */
  ghost predicate IsPublicRow(notes: map<NoteId, Note>, users: map<UserId, User>, r: JoinedNote) {
    && r.note.id in notes && notes[r.note.id] == r.note
    && r.note.isPublic
    && r.note.ownerId in users && r.ownerUsername == users[r.note.ownerId].username
  }

  /** The ids of a sequence of rows. */
  function Ids(s: seq<JoinedNote>): set<NoteId> {
    if s == [] then {} else {s[0].note.id} + Ids(s[1..])
  }

  /** No note appears twice. */
  predicate DistinctIds(s: seq<JoinedNote>) {
    s == [] || (s[0].note.id !in Ids(s[1..]) && DistinctIds(s[1..]))
  }

  /** Most recently updated first. */
  predicate NewestFirst(s: seq<JoinedNote>) {
    forall i, j :: 0 <= i < j < |s| ==> s[i].note.updatedAt >= s[j].note.updatedAt
  }

  lemma {:induction false} IdsOfAppend(s: seq<JoinedNote>, t: seq<JoinedNote>)
    ensures Ids(s + t) == Ids(s) + Ids(t)
    ensures DistinctIds(s + t) <==> DistinctIds(s) && DistinctIds(t) && Ids(s) !! Ids(t)
  {
    if s == [] {
      assert s + t == t;
    } else {
      assert (s + t)[1..] == s[1..] + t;
      IdsOfAppend(s[1..], t);
    }
  }

  lemma {:induction false} IdsAreMembers(s: seq<JoinedNote>)
    ensures forall id :: id in Ids(s) <==> exists r :: r in s && r.note.id == id
  {
    if s != [] {
      IdsAreMembers(s[1..]);
      assert forall r :: r in s <==> r == s[0] || r in s[1..];
    }
  }

  /** The public join yields exactly the public rows below the bound. */
  lemma {:induction false} PublicBelowMembers(notes: map<NoteId, Note>, users: map<UserId, User>, bound: nat)
    requires NotesKeyed(notes)
    ensures forall r :: r in PublicBelow(notes, users, bound) <==> r.note.id < bound && IsPublicRow(notes, users, r)
  {
    if bound > 0 {
      PublicBelowMembers(notes, users, bound - 1);
    }
  }

  /** The public join lists no note twice, and only notes below the bound. */
  lemma {:induction false} PublicBelowDistinct(notes: map<NoteId, Note>, users: map<UserId, User>, bound: nat)
    requires NotesKeyed(notes)
    ensures DistinctIds(PublicBelow(notes, users, bound))
    ensures forall id :: id in Ids(PublicBelow(notes, users, bound)) ==> id < bound
  {
    if bound > 0 {
      var id := bound - 1;
      var prefix := PublicBelow(notes, users, id);
      var step := if id in notes && notes[id].isPublic && notes[id].ownerId in users
        then [JoinedNote(notes[id], users[notes[id].ownerId].username)] else [];
      assert PublicBelow(notes, users, bound) == prefix + step;
      PublicBelowDistinct(notes, users, id);
      IdsOfAppend(prefix, step);
      if step != [] {
        assert Ids(step) == {id} by { assert step[1..] == []; }
        assert DistinctIds(step) by { assert step[1..] == []; }
      }
    }
  }

  /** Place `r` before the first row updated no later than it. */
  function InsertNewestFirst(s: seq<JoinedNote>, r: JoinedNote): seq<JoinedNote> {
    if s == [] || s[0].note.updatedAt <= r.note.updatedAt then [r] + s
    else [s[0]] + InsertNewestFirst(s[1..], r)
  }

  /** `ORDER BY updated_at DESC`: an insertion sort standing for whatever
      order the database picks among rows with equal timestamps. */
  function SortNewestFirst(s: seq<JoinedNote>): seq<JoinedNote> {
    if s == [] then [] else InsertNewestFirst(SortNewestFirst(s[1..]), s[0])
  }

  lemma {:induction false} InsertAddsRow(s: seq<JoinedNote>, r: JoinedNote)
    ensures multiset(InsertNewestFirst(s, r)) == multiset(s) + multiset{r}
  {
    if s != [] && s[0].note.updatedAt > r.note.updatedAt {
      InsertAddsRow(s[1..], r);
      assert InsertNewestFirst(s, r) == [s[0]] + InsertNewestFirst(s[1..], r);
      assert s == [s[0]] + s[1..];
    }
  }

  lemma {:induction false} InsertAddsId(s: seq<JoinedNote>, r: JoinedNote)
    ensures Ids(InsertNewestFirst(s, r)) == Ids(s) + {r.note.id}
  {
    var out := InsertNewestFirst(s, r);
    if s == [] || s[0].note.updatedAt <= r.note.updatedAt {
      assert out[1..] == s;
    } else {
      InsertAddsId(s[1..], r);
      assert out[1..] == InsertNewestFirst(s[1..], r);
    }
  }

  lemma {:induction false} InsertKeepsDistinct(s: seq<JoinedNote>, r: JoinedNote)
    requires DistinctIds(s) && r.note.id !in Ids(s)
    ensures DistinctIds(InsertNewestFirst(s, r))
  {
    var out := InsertNewestFirst(s, r);
    if s == [] || s[0].note.updatedAt <= r.note.updatedAt {
      assert out[1..] == s;
    } else {
      var tail := InsertNewestFirst(s[1..], r);
      InsertKeepsDistinct(s[1..], r);
      InsertAddsId(s[1..], r);
      assert out[1..] == tail;
    }
  }

  /** Inserting a new note's row adds exactly that row and keeps the list
      free of duplicate notes. */
  lemma InsertKeepsRows(s: seq<JoinedNote>, r: JoinedNote)
    ensures multiset(InsertNewestFirst(s, r)) == multiset(s) + multiset{r}
    ensures Ids(InsertNewestFirst(s, r)) == Ids(s) + {r.note.id}
    ensures DistinctIds(s) && r.note.id !in Ids(s) ==> DistinctIds(InsertNewestFirst(s, r))
  {
    InsertAddsRow(s, r);
    InsertAddsId(s, r);
    if DistinctIds(s) && r.note.id !in Ids(s) {
      InsertKeepsDistinct(s, r);
    }
  }

  lemma {:induction false} InsertKeepsOrder(s: seq<JoinedNote>, r: JoinedNote)
    requires NewestFirst(s)
    ensures NewestFirst(InsertNewestFirst(s, r))
  {
    var out := InsertNewestFirst(s, r);
    if s != [] && s[0].note.updatedAt > r.note.updatedAt {
      var tail := InsertNewestFirst(s[1..], r);
      assert NewestFirst(s[1..]);
      InsertKeepsOrder(s[1..], r);
      InsertAddsRow(s[1..], r);
      assert out == [s[0]] + tail;
      forall j | 0 < j < |out|
        ensures s[0].note.updatedAt >= out[j].note.updatedAt
      {
        var x := out[j];
        assert x == tail[j - 1];
        assert x in multiset(tail);
        if x != r {
          assert x in multiset(s[1..]);
          var k :| 0 <= k < |s[1..]| && s[1..][k] == x;
          assert x == s[k + 1];
        }
      }
    }
  }

  lemma {:induction false} SortKeepsRows(s: seq<JoinedNote>)
    ensures multiset(SortNewestFirst(s)) == multiset(s)
    ensures Ids(SortNewestFirst(s)) == Ids(s)
  {
    if s != [] {
      var sortedTail := SortNewestFirst(s[1..]);
      SortKeepsRows(s[1..]);
      InsertAddsRow(sortedTail, s[0]);
      InsertAddsId(sortedTail, s[0]);
      assert s == [s[0]] + s[1..];
      assert multiset(s) == multiset(s[1..]) + multiset{s[0]};
    }
  }

  lemma {:induction false} SortOrders(s: seq<JoinedNote>)
    ensures NewestFirst(SortNewestFirst(s))
  {
    if s != [] {
      SortOrders(s[1..]);
      InsertKeepsOrder(SortNewestFirst(s[1..]), s[0]);
    }
  }

  lemma {:induction false} SortKeepsDistinct(s: seq<JoinedNote>)
    requires DistinctIds(s)
    ensures DistinctIds(SortNewestFirst(s))
  {
    if s != [] {
      SortKeepsDistinct(s[1..]);
      SortKeepsRows(s[1..]);
      InsertKeepsDistinct(SortNewestFirst(s[1..]), s[0]);
    }
  }

  /** Sorting keeps the rows (as a multiset and as a set of ids), puts them
      newest first, and keeps them free of duplicates. */
  lemma SortNewestFirstFacts(s: seq<JoinedNote>)
    ensures multiset(SortNewestFirst(s)) == multiset(s)
    ensures Ids(SortNewestFirst(s)) == Ids(s)
    ensures NewestFirst(SortNewestFirst(s))
    ensures DistinctIds(s) ==> DistinctIds(SortNewestFirst(s))
  {
    SortKeepsRows(s);
    SortOrders(s);
    if DistinctIds(s) {
      SortKeepsDistinct(s);
    }
  }

  /** Two rows of a duplicate-free sequence at different positions are for
      different notes. */
  lemma {:induction false} DistinctIdsAt(s: seq<JoinedNote>, i: nat, j: nat)
    requires DistinctIds(s) && i < j < |s|
    ensures s[i].note.id != s[j].note.id
  {
    if i == 0 {
      IdsAreMembers(s[1..]);
      assert s[j] == s[1..][j - 1];
    } else {
      DistinctIdsAt(s[1..], i - 1, j - 1);
    }
  }
}
