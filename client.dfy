/**
 * The browser client's in-memory state: the session (token and user) and the
 * list of notes with the id of the note open in the editor. The handlers
 * change the list in place (`unshift`, an index assignment followed by a
 * sort, reassignment after `filter`); each is modelled by the state update
 * it makes once its request has answered.
 */
module Client {
  import opened Http
  import Notes
  import Auth

  type Note = Notes.Note
  type NoteId = Notes.NoteId

  /** `notes.find(n => n.id === id)`, as the index of the first match. */
  function FindIndex(notes: seq<Note>, id: Option<NoteId>): (k: Option<nat>)
    ensures k.Some? <==> id.Some? && exists i :: 0 <= i < |notes| && notes[i].id == id.value
    ensures k.Some? ==> k.value < |notes| && notes[k.value].id == id.value
    ensures k.Some? ==> forall j :: 0 <= j < k.value ==> notes[j].id != id.value
  {
    if notes == [] || id.None? then None
    else if notes[0].id == id.value then Some(0)
    else match FindIndex(notes[1..], id)
      case None => None
      case Some(i) => Some(i + 1)
  }

  /** `notes.filter(n => n.id !== id)`. */
  function Without(notes: seq<Note>, id: NoteId): (r: seq<Note>)
    ensures forall n :: n in r <==> n in notes && n.id != id
    ensures |r| <= |notes|
  {
    if notes == [] then []
    else if notes[0].id == id then Without(notes[1..], id)
    else [notes[0]] + Without(notes[1..], id)
  }

  /** Filtering keeps the remaining notes in their relative order. */
  lemma {:induction false} WithoutKeepsOrder(a: seq<Note>, b: seq<Note>, id: NoteId)
    ensures Without(a + b, id) == Without(a, id) + Without(b, id)
  {
    if a == [] {
      assert a + b == b;
    } else {
      assert (a + b)[0] == a[0];
      assert (a + b)[1..] == a[1..] + b;
      WithoutKeepsOrder(a[1..], b, id);
    }
  }

  /** Filtering out an id no note has leaves the list as it is. */
  lemma {:induction false} WithoutAbsent(notes: seq<Note>, id: NoteId)
    requires forall n :: n in notes ==> n.id != id
    ensures Without(notes, id) == notes
  {
    if notes != [] {
      assert notes[0] in notes;
      WithoutAbsent(notes[1..], id);
      assert notes == [notes[0]] + notes[1..];
    }
  }

  /** The notes of `s` whose `updated_at` is `t`, in their order in `s`. */
  function WithStamp(s: seq<Note>, t: int): seq<Note> {
    if s == [] then []
    else (if s[0].updatedAt == t then [s[0]] else []) + WithStamp(s[1..], t)
  }

  /**
   * `n` is inserted before every note it ties with, so among the notes with
   * any one `updated_at` it comes first and the others keep their order.
   */
  lemma {:induction false} InsertKeepsTies(s: seq<Note>, n: Note, t: int)
    ensures WithStamp(Notes.InsertByRecency(s, n), t) == (if n.updatedAt == t then [n] else []) + WithStamp(s, t)
  {
    var r := Notes.InsertByRecency(s, n);
    if s == [] || s[0].updatedAt <= n.updatedAt {
      assert r == [n] + s;
      assert r[1..] == s;
    } else {
      InsertKeepsTies(s[1..], n, t);
      assert r == [s[0]] + Notes.InsertByRecency(s[1..], n);
      assert r[1..] == Notes.InsertByRecency(s[1..], n);
    }
  }

  /**
   * `notes.sort((a, b) => new Date(b.updated_at) - new Date(a.updated_at))`:
   * newest first, the same notes as before, and since `Array.prototype.sort`
   * is stable, notes with equal `updated_at` in their old order.
   */
  function SortByRecency(s: seq<Note>): (r: seq<Note>)
    ensures multiset(r) == multiset(s)
    ensures Notes.SortedByRecency(r)
    ensures forall t :: WithStamp(r, t) == WithStamp(s, t)
  {
    if s == [] then []
    else
      var rest := SortByRecency(s[1..]);
      assert s == [s[0]] + s[1..];
      Notes.InsertKeepsOrder(rest, s[0]);
      assert forall t :: WithStamp(Notes.InsertByRecency(rest, s[0]), t) == WithStamp(s, t) by {
        forall t ensures WithStamp(Notes.InsertByRecency(rest, s[0]), t) == WithStamp(s, t) {
          InsertKeepsTies(rest, s[0], t);
        }
      }
      Notes.InsertByRecency(rest, s[0])
  }

  function Ids(notes: seq<Note>): set<NoteId> {
    set n | n in notes :: n.id
  }

  /** Replacing a note by one with the same id leaves the set of ids as it is. */
  lemma ReplaceKeepsIds(notes: seq<Note>, k: nat, n: Note)
    requires k < |notes| && n.id == notes[k].id
    ensures Ids(notes[k := n]) == Ids(notes)
  {
    var after := notes[k := n];
    forall x | x in Ids(notes) ensures x in Ids(after) {
      var m :| m in notes && m.id == x;
      var i :| 0 <= i < |notes| && notes[i] == m;
      assert after[i].id == x;
    }
    forall x | x in Ids(after) ensures x in Ids(notes) {
      var m :| m in after && m.id == x;
      var i :| 0 <= i < |after| && after[i] == m;
      assert notes[i].id == x;
    }
  }

  /** `!state.activeNoteId`: no note is active when the id is null or 0. */
  predicate NoActiveNote(active: Option<NoteId>) {
    active.None? || active.value == 0
  }

  class ClientState {
    var token: Option<string>
    var user: Option<Auth.PublicUser>
    var notes: seq<Note>
    var activeNoteId: Option<NoteId>

    /** `render`'s `!!state.token && !!state.user`. */
    predicate LoggedIn()
      reads this
    {
      token.Some? && token.value != "" && user.Some?
    }

    /**
     * The initial state, from what local storage holds: an empty stored token
     * counts as none (`getItem("token") || null`).
     */
    constructor (storedToken: Option<string>, storedUser: Option<Auth.PublicUser>)
      ensures token == (if storedToken == Some("") then None else storedToken)
      ensures user == storedUser && notes == [] && activeNoteId == None
    {
      token := if storedToken == Some("") then None else storedToken;
      user := storedUser;
      notes := [];
      activeNoteId := None;
    }

    /** `setAuth` with the token and user of a successful register or login. */
    method SetAuth(t: string, u: Auth.PublicUser)
      modifies this`token, this`user
      ensures token == Some(t) && user == Some(u)
      ensures LoggedIn() <==> t != ""
    {
      token := Some(t);
      user := Some(u);
    }

    /** `clearAuth`: logged out, with no notes and no active note. */
    method ClearAuth()
      modifies this
      ensures token == None && user == None && notes == [] && activeNoteId == None
      ensures !LoggedIn()
    {
      token := None;
      user := None;
      notes := [];
      activeNoteId := None;
    }

    /**
     * `loadNotes` once GET /notes has answered; `fetched` is `None` when the
     * request failed, which leaves the state as it was.
     */
    method LoadNotes(fetched: Option<seq<Note>>)
      modifies this`notes, this`activeNoteId
      ensures fetched.None? ==> notes == old(notes) && activeNoteId == old(activeNoteId)
      ensures fetched.Some? ==> notes == fetched.value
      ensures fetched.Some? ==>
        activeNoteId == (if NoActiveNote(old(activeNoteId)) && |fetched.value| > 0 then Some(fetched.value[0].id) else old(activeNoteId))
    {
      if fetched.None? {
        return;
      }
      notes := fetched.value;
      if NoActiveNote(activeNoteId) && |notes| > 0 {
        activeNoteId := Some(notes[0].id);
      }
    }

    /** The new-note button once POST /notes has answered with `created` (`None` if it failed). */
    method NewNote(created: Option<Note>)
      modifies this`notes, this`activeNoteId
      ensures created.None? ==> notes == old(notes) && activeNoteId == old(activeNoteId)
      ensures created.Some? ==>
        && |notes| == |old(notes)| + 1
        && notes[0] == created.value && notes[1..] == old(notes)
        && activeNoteId == Some(created.value.id)
    {
      if created.Some? {
        notes := [created.value] + notes;
        activeNoteId := Some(created.value.id);
      }
    }

    /**
     * The save handler once PATCH /notes/:id has answered with `returned`
     * (`None` if it failed): the active note is replaced by the returned one and
     * the list is sorted newest first. Without an active note nothing happens.
     */
    method Save(returned: Option<Note>)
      modifies this`notes
      ensures var k := FindIndex(old(notes), activeNoteId);
        k.None? || returned.None? ==> notes == old(notes)
      ensures var k := FindIndex(old(notes), activeNoteId);
        k.Some? && returned.Some? ==>
          && |notes| == |old(notes)|
          && multiset(notes) == multiset(old(notes)[k.value := returned.value])
          && Notes.SortedByRecency(notes)
          && (forall t :: WithStamp(notes, t) == WithStamp(old(notes)[k.value := returned.value], t))
          && notes == SortByRecency(old(notes)[k.value := returned.value])
      ensures var k := FindIndex(old(notes), activeNoteId);
        k.Some? && returned.Some? && returned.value.id == old(notes)[k.value].id ==>
          Ids(notes) == Ids(old(notes))
    {
      var found := FindIndex(notes, activeNoteId);
      if found.None? || returned.None? {
        return;
      }
      var noteId := notes[found.value].id;
      var idx := FindIndex(notes, Some(noteId));
      assert idx == found;
      var replaced := notes[idx.value := returned.value];
      notes := SortByRecency(replaced);
      assert |notes| == |multiset(notes)| == |multiset(replaced)| == |replaced|;
      if returned.value.id == noteId {
        ReplaceKeepsIds(old(notes), idx.value, returned.value);
        forall x ensures x in Ids(notes) <==> x in Ids(replaced) {
          if x in Ids(notes) {
            var m :| m in notes && m.id == x;
            assert m in multiset(replaced);
          }
          if x in Ids(replaced) {
            var m :| m in replaced && m.id == x;
            assert m in multiset(notes);
          }
        }
      }
    }

    /**
     * The delete handler once the user has answered the confirmation and
     * DELETE /notes/:id has answered (`succeeded` false if it failed): the
     * active note leaves the list and the first remaining note, if any,
     * becomes active.
     */
    method Delete(confirmed: bool, succeeded: bool)
      modifies this`notes, this`activeNoteId
      ensures var k := FindIndex(old(notes), old(activeNoteId));
        k.None? || !confirmed || !succeeded ==> notes == old(notes) && activeNoteId == old(activeNoteId)
      ensures var k := FindIndex(old(notes), old(activeNoteId));
        k.Some? && confirmed && succeeded ==>
          var gone := old(notes)[k.value].id;
          && notes == Without(old(notes), gone)
          && (forall n :: n in notes ==> n.id != gone)
          && activeNoteId == (if notes == [] then None else Some(notes[0].id))
    {
      var found := FindIndex(notes, activeNoteId);
      if found.None? || !confirmed || !succeeded {
        return;
      }
      var gone := notes[found.value].id;
      notes := Without(notes, gone);
      activeNoteId := if notes == [] then None else Some(notes[0].id);
    }
  }
}
