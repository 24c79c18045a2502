/**
 * The notes routes: a `notes` table scoped by owner. Every statement the
 * routes issue filters on the caller's user id, so a caller can only see,
 * change or remove its own rows, and a row of another user answers exactly
 * like a row that does not exist.
 *
 * The handlers are first given as functions over the table (a map from note
 * id to row); the class `NotesTable` holds the table as state and its
 * methods are proved to behave as those functions say.
 */
module Notes {
  import opened Http

  type NoteId = int

  const MaxTitle: nat := 200
  const MaxContent: nat := 20000

  /** A row of the `notes` table; the map holding it is keyed by the row's id. */
  datatype Row = Row(owner: UserId, title: string, content: string, createdAt: int, updatedAt: int)

  /** The columns every statement returns: a row with its id and without its owner. */
  datatype Note = Note(id: NoteId, title: string, content: string, createdAt: int, updatedAt: int)

  type Table = map<NoteId, Row>

  function View(id: NoteId, r: Row): Note {
    Note(id, r.title, r.content, r.createdAt, r.updatedAt)
  }

  /** The replies of the notes routes; each one has a fixed status and body shape. */
  datatype Reply =
    | Listed(notes: seq<Note>)  // 200 { notes }
    | Found(note: Note)         // 200 { note }
    | Created(note: Note)       // 201 { note }
    | Deleted                   // 204, no body
    | InvalidId                 // 400 { error: "Invalid id" }
    | InvalidInput              // 400 { error: "Invalid input", details }
    | NotFound                  // 404 { error: "Not found" }

  function Status(r: Reply): int {
    match r
    case Listed(_) => 200
    case Found(_) => 200
    case Created(_) => 201
    case Deleted => 204
    case InvalidId => 400
    case InvalidInput => 400
    case NotFound => 404
  }

  // ---------------------------------------------------------------------------
  // Request validation

  /** `z.string().max(max).optional()` accepts member `key` of `members`. */
  predicate StringMemberOk(members: map<string, Value>, key: string, max: nat) {
    key !in members || (members[key].Str? && |members[key].s| <= max)
  }

  /** The validated body of a create request: both fields, defaulted to "". */
  datatype Draft = Draft(title: string, content: string)

  /** `noteCreateSchema`: both fields optional, each defaulting to the empty string. */
  function CreateSchema(b: Body): (d: Option<Draft>)
    ensures d.Some? <==>
      b.Object? && StringMemberOk(b.members, "title", MaxTitle) && StringMemberOk(b.members, "content", MaxContent)
    ensures d.Some? ==>
      && d.value.title == (if "title" in b.members then b.members["title"].s else "")
      && d.value.content == (if "content" in b.members then b.members["content"].s else "")
      && |d.value.title| <= MaxTitle && |d.value.content| <= MaxContent
  {
    var title := CheckOptionalString(Member(b, "title"), MaxTitle);
    var content := CheckOptionalString(Member(b, "content"), MaxContent);
    if b.NotAnObject? || title.Invalid? || content.Invalid? then None
    else Some(Draft(if title.Present? then title.s else "", if content.Present? then content.s else ""))
  }

  /** The validated body of a patch request: the fields the caller provided. */
  datatype Edit = Edit(title: Option<string>, content: Option<string>)

  /** `noteUpdateSchema`: both fields optional, but at least one of them present. */
  function UpdateSchema(b: Body): (e: Option<Edit>)
    ensures e.Some? <==>
      && b.Object?
      && StringMemberOk(b.members, "title", MaxTitle) && StringMemberOk(b.members, "content", MaxContent)
      && ("title" in b.members || "content" in b.members)
    ensures e.Some? ==>
      && (e.value.title.Some? <==> "title" in b.members)
      && (e.value.content.Some? <==> "content" in b.members)
      && (e.value.title.Some? ==> e.value.title.value == b.members["title"].s)
      && (e.value.content.Some? ==> e.value.content.value == b.members["content"].s)
  {
    var title := CheckOptionalString(Member(b, "title"), MaxTitle);
    var content := CheckOptionalString(Member(b, "content"), MaxContent);
    if b.NotAnObject? || title.Invalid? || content.Invalid? then None
    else if title.Absent? && content.Absent? then None
    else Some(Edit(if title.Present? then Some(title.s) else None,
                   if content.Present? then Some(content.s) else None))
  }

  // ---------------------------------------------------------------------------
  // Ownership

  /** The `WHERE id = $id AND user_id = $uid` filter every single-row statement uses. */
  predicate Owns(rows: Table, uid: UserId, id: NoteId) {
    id in rows && rows[id].owner == uid
  }

  /** The part of the table a user can observe through the routes. */
  function OwnedBy(rows: Table, uid: UserId): Table {
    map id | id in rows && rows[id].owner == uid :: rows[id]
  }

  /**
   * `SET title = COALESCE($1, title), content = COALESCE($2, content)`: a
   * provided field overwrites the column, an omitted one keeps it, and no
   * other column is touched.
   */
  function Coalesce(r: Row, e: Edit): (r': Row)
    ensures r'.owner == r.owner && r'.createdAt == r.createdAt && r'.updatedAt == r.updatedAt
    ensures e.title.None? && e.content.None? ==> r' == r
    ensures r'.title == (if e.title.Some? then e.title.value else r.title)
    ensures r'.content == (if e.content.Some? then e.content.value else r.content)
  {
    r.(title := if e.title.Some? then e.title.value else r.title,
       content := if e.content.Some? then e.content.value else r.content)
  }

  // ---------------------------------------------------------------------------
  // The handlers, as functions of the table

  /** GET /:id */
  function GetNote(rows: Table, uid: UserId, id: Option<NoteId>): (r: Reply)
    ensures id.None? ==> r == InvalidId
    ensures id.Some? ==> (r.Found? <==> Owns(rows, uid, id.value))
    ensures id.Some? && !Owns(rows, uid, id.value) ==> r == NotFound
    ensures r.Found? ==> r.note.id == id.value && r.note == View(id.value, rows[id.value])
  {
    if id.None? then InvalidId
    else if Owns(rows, uid, id.value) then Found(View(id.value, rows[id.value]))
    else NotFound
  }

  /** POST / : one INSERT under the id `newId` that the table's sequence hands out. */
  function CreateNote(rows: Table, uid: UserId, b: Body, newId: NoteId, now: int): (o: Outcome<Reply, Table>)
    requires newId !in rows
    ensures CreateSchema(b).None? ==> o == Outcome(InvalidInput, rows)
    ensures CreateSchema(b).Some? ==>
      && o.table.Keys == rows.Keys + {newId}
      && (forall id :: id in rows ==> o.table[id] == rows[id])
      && o.table[newId].owner == uid
      && o.table[newId].title == CreateSchema(b).value.title
      && o.table[newId].content == CreateSchema(b).value.content
      && o.table[newId].createdAt == o.table[newId].updatedAt == now
      && o.reply == Created(View(newId, o.table[newId]))
  {
    match CreateSchema(b)
    case None => Outcome(InvalidInput, rows)
    case Some(d) =>
      var row := Row(uid, d.title, d.content, now, now);
      Outcome(Created(View(newId, row)), rows[newId := row])
  }

  /**
   * PATCH /:id : one UPDATE filtered on id and owner. The statement sets only
   * title and content; `stamp` is the time a trigger on the table writes to
   * `updated_at`, or `None` where the table has no such trigger (the schema
   * is not part of this model).
   */
  function PatchNote(rows: Table, uid: UserId, id: Option<NoteId>, b: Body, stamp: Option<int>): (o: Outcome<Reply, Table>)
    ensures id.None? ==> o == Outcome(InvalidId, rows)
    ensures id.Some? && UpdateSchema(b).None? ==> o == Outcome(InvalidInput, rows)
    ensures id.Some? && UpdateSchema(b).Some? && !Owns(rows, uid, id.value) ==> o == Outcome(NotFound, rows)
    ensures id.Some? && UpdateSchema(b).Some? && Owns(rows, uid, id.value) ==> o.reply.Found?
    ensures o.table.Keys == rows.Keys
    ensures forall k :: k in rows && (id.None? || k != id.value) ==> o.table[k] == rows[k]
    ensures o.reply.Found? ==>
      var k := id.value;
      var e := UpdateSchema(b).value;
      && id.Some? && UpdateSchema(b).Some? && Owns(rows, uid, k)
      && o.table[k].owner == rows[k].owner
      && o.table[k].title == (if e.title.Some? then e.title.value else rows[k].title)
      && o.table[k].content == (if e.content.Some? then e.content.value else rows[k].content)
      && o.table[k].createdAt == rows[k].createdAt
      && o.table[k].updatedAt == (if stamp.Some? then stamp.value else rows[k].updatedAt)
      && o.reply.note == View(k, o.table[k])
    ensures o.reply in {InvalidId, InvalidInput, NotFound} || o.reply.Found?
  {
    if id.None? then Outcome(InvalidId, rows)
    else match UpdateSchema(b)
      case None => Outcome(InvalidInput, rows)
      case Some(e) =>
        if !Owns(rows, uid, id.value) then Outcome(NotFound, rows)
        else
          var coalesced := Coalesce(rows[id.value], e);
          var row := if stamp.Some? then coalesced.(updatedAt := stamp.value) else coalesced;
          Outcome(Found(View(id.value, row)), rows[id.value := row])
  }

  /** DELETE /:id : one DELETE filtered on id and owner. */
  function DeleteNote(rows: Table, uid: UserId, id: Option<NoteId>): (o: Outcome<Reply, Table>)
    ensures id.None? ==> o == Outcome(InvalidId, rows)
    ensures id.Some? && !Owns(rows, uid, id.value) ==> o == Outcome(NotFound, rows)
    ensures id.Some? && Owns(rows, uid, id.value) ==>
      && o.reply == Deleted
      && o.table.Keys == rows.Keys - {id.value}
      && (forall k :: k in o.table ==> o.table[k] == rows[k])
    ensures Status(o.reply) in {204, 400, 404}
  {
    if id.None? then Outcome(InvalidId, rows)
    else if !Owns(rows, uid, id.value) then Outcome(NotFound, rows)
    else Outcome(Deleted, rows - {id.value})
  }

  // ---------------------------------------------------------------------------
  // GET / : the caller's rows, most recently updated first

  predicate SortedByRecency(s: seq<Note>) {
    forall i, j :: 0 <= i < j < |s| ==> s[i].updatedAt >= s[j].updatedAt
  }

  predicate DistinctIds(s: seq<Note>) {
    forall i, j :: 0 <= i < j < |s| ==> s[i].id != s[j].id
  }

  /**
   * `s` is an answer to `SELECT ... WHERE user_id = uid ORDER BY updated_at DESC`:
   * every row of the caller exactly once, nothing else, newest first. Rows with
   * equal `updated_at` may come in any order.
   */
  ghost predicate IsListing(rows: Table, uid: UserId, s: seq<Note>) {
    && SortedByRecency(s)
    && DistinctIds(s)
    && (forall n :: n in s ==> Owns(rows, uid, n.id) && n == View(n.id, rows[n.id]))
    && (forall id :: Owns(rows, uid, id) ==> View(id, rows[id]) in s)
  }

  /**
   * Inserts `n` in front of the first note that is not more recent than it,
   * so a sorted sequence stays sorted (see `InsertKeepsOrder`) and `n` goes
   * before the notes it ties with.
   */
  function InsertByRecency(s: seq<Note>, n: Note): (r: seq<Note>)
    ensures multiset(r) == multiset(s) + multiset{n}
  {
    if s == [] || s[0].updatedAt <= n.updatedAt then [n] + s
    else
      assert s == [s[0]] + s[1..];
      [s[0]] + InsertByRecency(s[1..], n)
  }

  /**
   * Every note of `InsertByRecency(s, n)` is `n` or a note of `s`; `i` is its
   * position in `s`, or -1 for `n`.
   */
  lemma InsertedFrom(s: seq<Note>, n: Note, j: int) returns (i: int)
    requires 0 <= j < |InsertByRecency(s, n)|
    ensures i == -1 ==> InsertByRecency(s, n)[j] == n
    ensures i != -1 ==> 0 <= i < |s| && s[i] == InsertByRecency(s, n)[j]
  {
    var r := InsertByRecency(s, n);
    assert r[j] in multiset(r);
    if r[j] == n {
      i := -1;
    } else {
      assert r[j] in s;
      i :| 0 <= i < |s| && s[i] == r[j];
    }
  }

  /** Inserting into a list sorted newest first keeps it sorted. */
  lemma {:induction false} InsertKeepsOrder(s: seq<Note>, n: Note)
    ensures SortedByRecency(s) ==> SortedByRecency(InsertByRecency(s, n))
  {
    if s != [] && s[0].updatedAt > n.updatedAt && SortedByRecency(s) {
      var rest := InsertByRecency(s[1..], n);
      InsertKeepsOrder(s[1..], n);
      assert InsertByRecency(s, n) == [s[0]] + rest;
      forall j | 0 <= j < |rest|
        ensures s[0].updatedAt >= rest[j].updatedAt
      {
        var i := InsertedFrom(s[1..], n, j);
        if i != -1 {
          assert s[i + 1] == rest[j];
        }
      }
    }
  }

  /** Inserting a note whose id is not yet present keeps the ids distinct. */
  lemma {:induction false} InsertKeepsDistinct(s: seq<Note>, n: Note)
    ensures DistinctIds(s) && (forall m :: m in s ==> m.id != n.id) ==> DistinctIds(InsertByRecency(s, n))
  {
    if s != [] && s[0].updatedAt > n.updatedAt && DistinctIds(s) && (forall m :: m in s ==> m.id != n.id) {
      var rest := InsertByRecency(s[1..], n);
      InsertKeepsDistinct(s[1..], n);
      assert InsertByRecency(s, n) == [s[0]] + rest;
      forall j | 0 <= j < |rest|
        ensures s[0].id != rest[j].id
      {
        var i := InsertedFrom(s[1..], n, j);
        if i != -1 {
          assert s[i + 1] == rest[j];
        }
      }
    }
  }

  // ---------------------------------------------------------------------------
  // Properties that relate several requests

  /** A request by `uid` never changes what any other user can observe. */
  lemma OtherUsersUnaffected(rows: Table, uid: UserId, other: UserId, id: Option<NoteId>, b: Body, newId: NoteId, now: int, stamp: Option<int>)
    requires other != uid && newId !in rows
    ensures OwnedBy(CreateNote(rows, uid, b, newId, now).table, other) == OwnedBy(rows, other)
    ensures OwnedBy(PatchNote(rows, uid, id, b, stamp).table, other) == OwnedBy(rows, other)
    ensures OwnedBy(DeleteNote(rows, uid, id).table, other) == OwnedBy(rows, other)
  {
  }

  /**
   * A note of another user answers exactly like a note that does not exist:
   * GET, PATCH and DELETE give the same reply as on the table without it, and
   * change nothing.
   */
  lemma ForeignNoteActsMissing(rows: Table, uid: UserId, k: NoteId, b: Body, stamp: Option<int>)
    requires k in rows && rows[k].owner != uid
    ensures GetNote(rows, uid, Some(k)) == GetNote(rows - {k}, uid, Some(k))
    ensures PatchNote(rows, uid, Some(k), b, stamp).reply == PatchNote(rows - {k}, uid, Some(k), b, stamp).reply
    ensures PatchNote(rows, uid, Some(k), b, stamp).table == rows
    ensures DeleteNote(rows, uid, Some(k)).reply == DeleteNote(rows - {k}, uid, Some(k)).reply == NotFound
    ensures DeleteNote(rows, uid, Some(k)).table == rows
  {
  }

  /**
   * Non-interference: every reply the caller gets (other than the id that
   * POST assigns) is determined by the caller's own rows alone.
   */
  lemma {:induction false} RepliesDependOnlyOnOwnRows(rows1: Table, rows2: Table, uid: UserId, id: Option<NoteId>, b: Body, stamp: Option<int>)
    requires OwnedBy(rows1, uid) == OwnedBy(rows2, uid)
    ensures GetNote(rows1, uid, id) == GetNote(rows2, uid, id)
    ensures PatchNote(rows1, uid, id, b, stamp).reply == PatchNote(rows2, uid, id, b, stamp).reply
    ensures DeleteNote(rows1, uid, id).reply == DeleteNote(rows2, uid, id).reply
    ensures forall s :: IsListing(rows1, uid, s) <==> IsListing(rows2, uid, s)
  {
    forall k
      ensures Owns(rows1, uid, k) <==> Owns(rows2, uid, k)
      ensures Owns(rows1, uid, k) ==> rows1[k] == rows2[k]
    {
      assert Owns(rows1, uid, k) <==> k in OwnedBy(rows1, uid);
      assert Owns(rows2, uid, k) <==> k in OwnedBy(rows2, uid);
      if Owns(rows1, uid, k) {
        assert rows1[k] == OwnedBy(rows1, uid)[k] == OwnedBy(rows2, uid)[k] == rows2[k];
      }
    }
  }

  /** A note just created is found by its owner under the returned id, with equal timestamps. */
  lemma CreateThenGet(rows: Table, uid: UserId, b: Body, newId: NoteId, now: int)
    requires newId !in rows && CreateSchema(b).Some?
    ensures var o := CreateNote(rows, uid, b, newId, now);
      && o.reply.Created? && o.reply.note.id == newId
      && GetNote(o.table, uid, Some(newId)) == Found(o.reply.note)
      && o.reply.note.createdAt == o.reply.note.updatedAt
  {
  }

  /**
   * A successful patch is what GET returns next. Repeating it changes no
   * column but `updated_at`, and nothing at all where no trigger stamps it.
   */
  lemma PatchThenGet(rows: Table, uid: UserId, id: Option<NoteId>, b: Body, stamp: Option<int>, again: Option<int>)
    requires PatchNote(rows, uid, id, b, stamp).reply.Found?
    ensures var o := PatchNote(rows, uid, id, b, stamp);
      GetNote(o.table, uid, id) == o.reply
    ensures var o := PatchNote(rows, uid, id, b, stamp);
      var o2 := PatchNote(o.table, uid, id, b, again);
      && o2.reply.Found?
      && o2.table.Keys == o.table.Keys
      && (forall k :: k in o.table ==> o2.table[k] == o.table[k].(updatedAt := o2.table[k].updatedAt))
    ensures again.None? ==>
      var o := PatchNote(rows, uid, id, b, stamp);
      PatchNote(o.table, uid, id, b, None) == o
  {
    var o := PatchNote(rows, uid, id, b, stamp);
    var k := id.value;
    var e := UpdateSchema(b).value;
    assert Coalesce(o.table[k], e) == o.table[k];
    assert o.table[k := o.table[k]] == o.table;
  }

  /** After a successful delete the note is gone for its owner: GET and DELETE give 404. */
  lemma DeleteThenGet(rows: Table, uid: UserId, id: Option<NoteId>)
    requires DeleteNote(rows, uid, id).reply == Deleted
    ensures var o := DeleteNote(rows, uid, id);
      && GetNote(o.table, uid, id) == NotFound
      && DeleteNote(o.table, uid, id) == Outcome(NotFound, o.table)
  {
  }

  // ---------------------------------------------------------------------------
  // The table as state

  lemma NonEmptyHasElement(keys: set<NoteId>)
    requires keys != {}
    ensures exists k :: k in keys
  {
    if forall k :: k !in keys {
      assert false;
    }
  }

  /**
   * The `notes` table with its id sequence. `nextId` is the next value of the
   * sequence, so every id in use is below it and every insert gets a fresh id.
   */
  class NotesTable {
    var rows: Table
    var nextId: NoteId

    ghost predicate Valid()
      reads this
    {
      1 <= nextId && forall id :: id in rows ==> 1 <= id < nextId
    }

    constructor ()
      ensures Valid() && rows == map[] && nextId == 1
    {
      rows := map[];
      nextId := 1;
    }

    /** GET / */
    method List(uid: UserId) returns (r: Reply)
      ensures r.Listed? && IsListing(rows, uid, r.notes)
    {
      var pending := rows.Keys;
      var acc: seq<Note> := [];
      while pending != {}
        invariant pending <= rows.Keys
        invariant SortedByRecency(acc) && DistinctIds(acc)
        invariant forall n :: n in acc ==> n.id !in pending && Owns(rows, uid, n.id) && n == View(n.id, rows[n.id])
        invariant forall id :: id !in pending && Owns(rows, uid, id) ==> View(id, rows[id]) in acc
        decreases pending
      {
        NonEmptyHasElement(pending);
        var id :| id in pending;
        if rows[id].owner == uid {
          var n := View(id, rows[id]);
          var acc' := InsertByRecency(acc, n);
          InsertKeepsOrder(acc, n);
          InsertKeepsDistinct(acc, n);
          forall m | m in acc' ensures m in acc || m == n {
            assert m in multiset(acc');
          }
          forall m | m in acc ensures m in acc' {
            assert m in multiset(acc);
            assert m in multiset(acc');
          }
          assert n in multiset(acc');
          acc := acc';
        }
        pending := pending - {id};
      }
      r := Listed(acc);
    }

    /** GET /:id */
    method Get(uid: UserId, id: Option<NoteId>) returns (r: Reply)
      ensures r == GetNote(rows, uid, id)
    {
      if id.None? {
        return InvalidId;
      }
      var key := id.value;
      if key in rows && rows[key].owner == uid {
        r := Found(View(key, rows[key]));
      } else {
        r := NotFound;
      }
    }

    /** POST / */
    method Create(uid: UserId, b: Body, now: int) returns (r: Reply)
      requires Valid()
      modifies this
      ensures Valid()
      ensures var o := CreateNote(old(rows), uid, b, old(nextId), now); r == o.reply && rows == o.table
      ensures nextId == if r.Created? then old(nextId) + 1 else old(nextId)
    {
      var draft := CreateSchema(b);
      if draft.None? {
        return InvalidInput;
      }
      var row := Row(uid, draft.value.title, draft.value.content, now, now);
      rows := rows[nextId := row];
      r := Created(View(nextId, row));
      nextId := nextId + 1;
    }

    /** PATCH /:id */
    method Patch(uid: UserId, id: Option<NoteId>, b: Body, stamp: Option<int>) returns (r: Reply)
      requires Valid()
      modifies this`rows
      ensures Valid()
      ensures var o := PatchNote(old(rows), uid, id, b, stamp); r == o.reply && rows == o.table
    {
      if id.None? {
        return InvalidId;
      }
      var edit := UpdateSchema(b);
      if edit.None? {
        return InvalidInput;
      }
      var key := id.value;
      if !(key in rows && rows[key].owner == uid) {
        return NotFound;
      }
      var row := Coalesce(rows[key], edit.value);
      if stamp.Some? {
        row := row.(updatedAt := stamp.value);
      }
      rows := rows[key := row];
      r := Found(View(key, row));
    }

    /** DELETE /:id */
    method Delete(uid: UserId, id: Option<NoteId>) returns (r: Reply)
      requires Valid()
      modifies this`rows
      ensures Valid()
      ensures var o := DeleteNote(old(rows), uid, id); r == o.reply && rows == o.table
    {
      if id.None? {
        return InvalidId;
      }
      var key := id.value;
      if !(key in rows && rows[key].owner == uid) {
        return NotFound;
      }
      rows := rows - {key};
      r := Deleted;
    }
  }
}
