# Notes app: ownership-scoped notes, accounts and the browser client state

A Dafny model of the logic of a small multi-user notes application:

- **Notes routes** (`notes-backend/sql/src/routes/notes.js`). Every route runs one SQL statement over the `notes` table. Each statement filters on the caller's user id. The table is a `map` from note id to row, held by the class `Notes.NotesTable`, with methods `List`, `Get`, `Create`, `Patch` and `Delete`. Every handler but the listing is also given as a function of the table (`GetNote`, `CreateNote`, `PatchNote`, `DeleteNote`). These functions return the reply together with the new table, and each method is proved to do what its function says. `List` has no function: its result is proved to meet the predicate `IsListing`. The lemmas then show three things: a user never observes or changes another user's rows, PATCH is a real patch, and a foreign note answers like a missing one.
- **Auth routes** (`notes-backend/sql/src/routes/auth.js`). The `users` table is keyed by its unique email column. The class `Auth.UserRegistry` keeps it with the invariant that every stored email passed the email check and is already lower-case, and that ids are distinct. Registration validates the input, lower-cases the email, hashes the password and inserts the row, or answers 409 if the email exists. Login validates the input, lower-cases the email, looks it up and verifies the password. A missing user and a wrong password get the same 401. A bcrypt hash is a symbolic term `Bcrypt(salt, password)` that only `Verify` inspects: a hash accepts its own password, whatever the salt, and no other. A token is the record of its claims: `sub`, `email` and `exp`.
- **Browser client** (`notes-frontend/app.js`). `escapeHtml` is written as its chain of five `replaceAll` calls. That chain is proved equal to escaping each character on its own. The client's `state` is the class `Client.ClientState`. Its methods give the state update each handler makes once its request has answered.

Inputs that come from outside the modelled code are parameters:

- the caller's user id (set by the auth middleware);
- the parsed note id: `None` when `Number(...)` is not finite;
- the database clock `now` and the id the sequence hands out;
- the bcrypt salt;
- the signing time;
- on the client, what each request answered, or whether it failed.

Two points the model takes from the code as written:

- The `UPDATE` at `notes.js:69-73` sets only `title` and `content` and does not itself refresh `updated_at`. Only a trigger on the table could refresh it, and the schema is not part of this model. So `PatchNote` takes the time such a trigger writes as a parameter `stamp`. With `None` the old `updated_at` is kept, as the statement itself does.
- Email uniqueness is case-insensitive only because every insert and every lookup lower-cases the email first (`auth.js:38`, `auth.js:58`). The table itself compares stored emails exactly.

## Model

| member | source | states |
|---|---|---|
| `Http.CheckOptionalString` | notes-backend/sql/src/routes/notes.js:9-10 | `z.string().max(n).optional()`: an absent member passes as absent, a string of at most `n` characters passes with its value, anything else fails |
| `Notes.CreateSchema` | notes-backend/sql/src/routes/notes.js:8-11 | a create body is accepted iff it is an object whose `title` (at most 200 characters) and `content` (at most 20000) are each absent or a string; an omitted field becomes `""`, a given one keeps its value |
| `Notes.UpdateSchema` | notes-backend/sql/src/routes/notes.js:13-18 | a patch body is accepted iff both fields are valid when present and at least one is present; the result records exactly which fields were provided and their values |
| `Notes.GetNote` | notes-backend/sql/src/routes/notes.js:30-42 | an unparsable id gives 400 "Invalid id"; otherwise the note is returned iff a row has that id and the caller as owner, and every other case is the one 404 |
| `Notes.CreateNote` | notes-backend/sql/src/routes/notes.js:45-56 | an invalid body gives 400 and leaves the table as it is; otherwise exactly one row is added under the new id, owned by the caller, holding the validated title and content with `created_at = updated_at`, every existing row is unchanged, and the reply is 201 with that row |
| `Notes.PatchNote` | notes-backend/sql/src/routes/notes.js:59-81 | checks run in order: id (400), body (400), then id-and-owner match (404); every failure leaves the table unchanged; a valid body on a row the caller owns always succeeds; then only the provided fields are overwritten, owner and `created_at` are kept, `updated_at` is the trigger's stamp or else kept, no other row changes and the set of ids is the same |
| `Notes.Coalesce` | notes-backend/sql/src/routes/notes.js:69-71 | a provided field overwrites its column and an omitted one keeps it; owner and both timestamps are untouched; an edit with neither field changes nothing |
| `Notes.DeleteNote` | notes-backend/sql/src/routes/notes.js:84-95 | an unparsable id gives 400 and a row not matching id and owner gives 404, both with the table unchanged; otherwise exactly that row is removed, every other row is unchanged and the reply is 204 |
| `Notes.InsertByRecency` | notes-backend/sql/src/routes/notes.js:23 | inserting a note adds exactly that note to the sequence (as a multiset) |
| `Notes.InsertKeepsOrder` | notes-backend/sql/src/routes/notes.js:23 | inserting into a sequence sorted by `updated_at` descending keeps it sorted |
| `Notes.InsertKeepsDistinct` | notes-backend/sql/src/routes/notes.js:23 | inserting a note whose id is not present keeps ids distinct |
| `Notes.NotesTable.constructor` | notes-backend/sql/src/routes/notes.js:50-53 | an empty table whose sequence hands out 1 first, with every id below the sequence |
| `Notes.NotesTable.List` | notes-backend/sql/src/routes/notes.js:21-27 | the listing holds each of the caller's rows exactly once and nothing else, as the returned columns, sorted by `updated_at` non-increasing |
| `Notes.NotesTable.Get` | notes-backend/sql/src/routes/notes.js:30-42 | the method answers as `GetNote` on the current table |
| `Notes.NotesTable.Create` | notes-backend/sql/src/routes/notes.js:45-56 | the reply and new table are those of `CreateNote` under the sequence's next id; the sequence advances only when a row is inserted; ids stay below the sequence |
| `Notes.NotesTable.Patch` | notes-backend/sql/src/routes/notes.js:59-81 | the reply and new table are those of `PatchNote` with the same trigger stamp; nothing else in the object changes |
| `Notes.NotesTable.Delete` | notes-backend/sql/src/routes/notes.js:84-95 | the reply and new table are those of `DeleteNote`; nothing else in the object changes |
| `Notes.OtherUsersUnaffected` | notes-backend/sql/src/routes/notes.js:50-93 | a create, patch or delete by one user leaves every other user's rows exactly as they were |
| `Notes.ForeignNoteActsMissing` | notes-backend/sql/src/routes/notes.js:34-93 | for a note owned by someone else, GET, PATCH and DELETE answer exactly as if the note did not exist (404) and change nothing |
| `Notes.RepliesDependOnlyOnOwnRows` | notes-backend/sql/src/routes/notes.js:21-93 | two tables that agree on the caller's rows give the caller the same GET, PATCH and DELETE replies and the same valid listings |
| `Notes.CreateThenGet` | notes-backend/sql/src/routes/notes.js:50-55 | a note just created is found by its owner under the returned id, as returned, with equal timestamps |
| `Notes.PatchThenGet` | notes-backend/sql/src/routes/notes.js:68-80 | after a successful patch GET returns the patched note; repeating the same patch succeeds and changes no column but `updated_at`, and changes nothing at all when no trigger stamps it (idempotence) |
| `Notes.DeleteThenGet` | notes-backend/sql/src/routes/notes.js:88-94 | after a successful delete both GET and a second DELETE of that id give 404 |
| `Auth.Lower` | notes-backend/sql/src/routes/auth.js:38 | lower-casing keeps the length and maps each character on its own |
| `Auth.LowerIsIdempotent` | notes-backend/sql/src/routes/auth.js:58 | lower-casing an already lower-cased email changes nothing, so stored emails are their own lookup key |
| `Auth.AtCountOne` | notes-backend/sql/src/routes/auth.js:10 | exactly one `@` means an `@` with none before it and none after it |
| `Auth.IsEmailShape` | notes-backend/sql/src/routes/auth.js:10 | the email check accepts exactly the texts with a non-empty, `@`-free part on each side of the only `@` |
| `Auth.AtCountIgnoresCase` | notes-backend/sql/src/routes/auth.js:10 | lower-casing does not change the number of `@` characters |
| `Auth.EmailCheckIgnoresCase` | notes-backend/sql/src/routes/auth.js:15 | the email check gives the same answer for an address and its lower-cased form |
| `Auth.Hash` | notes-backend/sql/src/routes/auth.js:33 | the hash keeps the salt drawn; the password verifies against its own hash, and no other password does |
| `Auth.Verify` | notes-backend/sql/src/routes/auth.js:63 | `compare` accepts a hash exactly when it was made from that password, under some salt |
| `Auth.Digit` | notes-backend/sql/src/routes/auth.js:23 | a digit value below 10 becomes a character between `0` and `9` |
| `Auth.DecimalString` | notes-backend/sql/src/routes/auth.js:23 | `String(id)` of an id is never empty |
| `Auth.ParseDecimalString` | notes-backend/sql/src/routes/auth.js:23 | the decimal string of an id reads back as that id |
| `Auth.SignToken` | notes-backend/sql/src/routes/auth.js:19-26 | the token's subject decodes to the user's id, its `email` claim is the user's email, and it expires seven days after signing |
| `Auth.RegisterSchema` | notes-backend/sql/src/routes/auth.js:9-12 | a register body is accepted iff its email is a string of at most 255 characters passing the email check and its password a string of 8 to 200 characters; the accepted values are the given ones |
| `Auth.LoginSchema` | notes-backend/sql/src/routes/auth.js:14-17 | a login body is accepted iff its email passes the same checks and its password is a string of 1 to 200 characters |
| `Auth.RegisterOutcome` | notes-backend/sql/src/routes/auth.js:28-48 | invalid input gives 400 and a lower-cased email already present gives 409, both with the table unchanged; otherwise exactly one row is added under the lower-cased email with the new id and a hash the password verifies against, and the reply is 201 with the public user `{id, email}` and the token `signToken` makes for that user: its subject decodes to that id, its email claim is the stored email and it expires seven days after signing |
| `Auth.LoginReply` | notes-backend/sql/src/routes/auth.js:50-68 | invalid input gives 400; the one 401 is given exactly when no user has the lower-cased email or the password does not verify; otherwise 200 with the stored user's `{id, email}` and the token `signToken` makes for them, expiring seven days after signing |
| `Auth.RegisterKeepsWellFormed` | notes-backend/sql/src/routes/auth.js:36-38 | registering keeps every stored email lower-case and passing the email check, ids distinct and below the sequence |
| `Auth.StoredEmailOk` | notes-backend/sql/src/routes/auth.js:38 | an email that passed the schema, once lower-cased, is its own lower-case form and still passes the email check and the length bound |
| `Auth.InsertKeepsWellFormed` | notes-backend/sql/src/routes/auth.js:36-39 | inserting a checked lower-case email that is not yet present, under the next id, keeps the table well formed with the sequence advanced |
| `Auth.InsertKeepsAccountsBelow` | notes-backend/sql/src/routes/auth.js:36-39 | that insert keeps every stored email lower-case and checked, and every id below the advanced sequence |
| `Auth.InsertKeepsIdsDistinct` | notes-backend/sql/src/routes/auth.js:36-39 | that insert keeps the ids distinct |
| `Auth.RegisterThenLogin` | notes-backend/sql/src/routes/auth.js:28-67 | after registering, logging in with any ASCII casing of the email and the same password succeeds for the new id and the stored email |
| `Auth.RegisterTwiceConflicts` | notes-backend/sql/src/routes/auth.js:36-45 | registering an address again, in any casing and with any password, gives 409 and leaves the table unchanged |
| `Auth.StoredAccountLogsIn` | notes-backend/sql/src/routes/auth.js:50-68 | in a well-formed table, any ASCII casing of a stored email with a password that verifies logs in as that account's id and the email exactly as stored |
| `Auth.InvalidCredentialsHideAccounts` | notes-backend/sql/src/routes/auth.js:56-64 | a request that gets 401 also gets 401 once any account is removed: the 401's status and body are the same whether or not the email is registered |
| `Auth.UserRegistry.constructor` | notes-backend/sql/src/routes/auth.js:36-39 | an empty, well-formed users table whose sequence hands out 1 first |
| `Auth.UserRegistry.Register` | notes-backend/sql/src/routes/auth.js:28-48 | the reply and new table are those of `RegisterOutcome` under the sequence's next id; the table stays well formed |
| `Auth.UserRegistry.Login` | notes-backend/sql/src/routes/auth.js:50-68 | the method answers as `LoginReply` and changes nothing; in a well-formed table the id of a successful login belongs to the stored email it names and to no other account |
| `Escape.ReplaceAllRemoves` | notes-frontend/app.js:216-220 | after `replaceAll` no occurrence of the character is left unless the replacement contains it |
| `Escape.ReplaceAllOmits` | notes-frontend/app.js:216-220 | `replaceAll` brings in no character that is in neither the text nor the replacement |
| `Escape.ReplaceAllAppend` | notes-frontend/app.js:216 | `replaceAll` of one character distributes over concatenation |
| `Escape.ReplaceAllAbsent` | notes-frontend/app.js:217 | `replaceAll` of a character the text does not contain returns the text unchanged |
| `Escape.EscapeHtmlAppend` | notes-frontend/app.js:214-221 | the whole chain distributes over concatenation |
| `Escape.ReplaceAllSingle` | notes-frontend/app.js:216 | on a one-character text, `replaceAll` gives the replacement if the character matches and the text otherwise |
| `Escape.EscapeHtmlPlain` | notes-frontend/app.js:214-221 | a character that is none of the five special ones passes the chain unchanged |
| `Escape.EscapeHtmlSpecial` | notes-frontend/app.js:215-220 | each special character comes out as its own entity: no later replacement touches an entity an earlier one produced |
| `Escape.AmpersandEntityKept` | notes-frontend/app.js:217-220 | `&amp;` passes the last four replacements unchanged |
| `Escape.EscapeHtmlSpecialAfterAmpersand` | notes-frontend/app.js:217-220 | the last four replacements turn each of `<`, `>`, `"` and `'` into its own entity |
| `Escape.EscapeHtmlChar` | notes-frontend/app.js:214-221 | on one character the chain gives that character's entity, or the character itself |
| `Escape.EscapeHtmlIsEscapeEach` | notes-frontend/app.js:214-221 | the five `replaceAll` calls in this order equal escaping each character on its own |
| `Escape.NoRawMarkup` | notes-frontend/app.js:214-221 | no `<`, `>`, `"` or `'` is left in the output: each replacement removes its character and no later one brings it back |
| `Escape.EntityAtShift` | notes-frontend/app.js:215-220 | an entity found in a text is still found, shifted, after a prefix is added |
| `Escape.AmpersandsStartEntities` | notes-frontend/app.js:215-220 | every `&` in the output starts `&amp;`, `&lt;`, `&gt;`, `&quot;` or `&#039;` |
| `Escape.EscapeEachAmpersands` | notes-frontend/app.js:215-220 | in character-wise escaping, every `&` starts one of the five entities |
| `Escape.CleanTextUnchanged` | notes-frontend/app.js:214-221 | text containing none of the five special characters is returned unchanged |
| `Escape.EscapeEachClean` | notes-frontend/app.js:214-221 | character-wise escaping leaves such text unchanged |
| `Escape.UnescapeEntity` | notes-frontend/app.js:215-220 | decoding an escaped character followed by any text gives the character back, followed by the decoded rest |
| `Escape.UnescapeEscapeEach` | notes-frontend/app.js:214-221 | decoding undoes character-wise escaping |
| `Escape.UnescapeEscapeHtml` | notes-frontend/app.js:214-221 | decoding the five entities in the output gives back the input |
| `Escape.EscapeHtmlInjective` | notes-frontend/app.js:214-221 | distinct inputs give distinct outputs |
| `Client.FindIndex` | notes-frontend/app.js:162 | `find` by id returns the first note with that id, and finds one iff a note has it; a null active id finds nothing |
| `Client.Without` | notes-frontend/app.js:193 | the filtered list holds exactly the notes whose id differs from the deleted one |
| `Client.WithoutKeepsOrder` | notes-frontend/app.js:193 | filtering distributes over concatenation, so the remaining notes keep their relative order |
| `Client.WithoutAbsent` | notes-frontend/app.js:193 | filtering out an id no note has leaves the list as it is |
| `Client.SortByRecency` | notes-frontend/app.js:174 | the sorted list holds the same notes (as a multiset), ordered by `updated_at` non-increasing, and notes with equal `updated_at` keep their order, as the stable `sort` does |
| `Client.InsertKeepsTies` | notes-frontend/app.js:174 | inserting a note puts it first among the notes it ties with and keeps their order |
| `Client.ReplaceKeepsIds` | notes-frontend/app.js:170-171 | replacing a note by one with the same id keeps the set of ids |
| `Client.ClientState.constructor` | notes-frontend/app.js:5-10 | the session comes from storage, an empty stored token counting as none; there are no notes and no active note |
| `Client.ClientState.SetAuth` | notes-frontend/app.js:34-40 | the session holds the given token and user, and counts as logged in iff the token is non-empty |
| `Client.ClientState.ClearAuth` | notes-frontend/app.js:42-50 | token and user are null, the notes list is empty, no note is active, and the state is logged out |
| `Client.ClientState.LoadNotes` | notes-frontend/app.js:104-111 | the list becomes the fetched one; the active id becomes the first note's id only when none was active (null or 0) and the list is non-empty, and is otherwise unchanged; a failed request changes nothing |
| `Client.ClientState.NewNote` | notes-frontend/app.js:145-156 | the created note is at index 0 and is active, followed by the previous notes in their old order; a failed request changes nothing |
| `Client.ClientState.Save` | notes-frontend/app.js:158-182 | with an active note and a reply, the list keeps its length, holds the old notes with the active one replaced by the reply, is sorted by `updated_at` non-increasing with notes of equal `updated_at` in their old order (the stable `sort`, so the list is exactly `SortByRecency` of the replaced list), and keeps its set of ids when the reply has the same id; otherwise nothing changes |
| `Client.ClientState.Delete` | notes-frontend/app.js:184-201 | once confirmed and answered, no note with the deleted id remains, the list is the old one filtered, and the active id is the first remaining note's id or null; otherwise nothing changes |

## Left out

- `Number(req.params.id)` and `Number.isFinite`: the parse is a parameter of type `Option<int>`. A finite but non-integer id, which would make the database fail, is not modelled.
- Unexpected database failures are not modelled. `/register` catches them and answers 500 (`auth.js:43-46`); the notes routes and `/login` do not catch them. The unique-violation code `23505` is modelled as an explicit duplicate check against the table.
- Id sequences: a fresh id is the next value of a counter. Sequence values that a failed insert consumes are not modelled.
- Timestamps are opaque integers. `created_at` and `updated_at` at insertion are the database clock `now`. Whether a trigger refreshes `updated_at` on UPDATE is decided by the schema, which is not part of this model. `PatchNote` takes that stamp as a parameter.
- The `details` of a 400 reply (zod's `flatten()`) are not modelled. A 400 is "Invalid id" or "Invalid input".
- zod's `.email()` regular expression is not part of this model. `Auth.IsEmail` stands for it with the structural minimum: exactly one `@`, not at either end. The proofs only use that the check ignores ASCII case.
- `toLowerCase` is modelled on ASCII letters only. Unicode case mapping, including mappings that change the length, is not modelled.
- String lengths are counted in characters. JavaScript counts UTF-16 code units, so the two differ for characters outside the Basic Multilingual Plane.
- bcrypt is modelled symbolically. The cost factor, the 72-byte truncation of passwords and one-wayness are not modelled. `Verify` accepts exactly the password the hash was made from.
- Response timing is not modelled. A login for an unknown email returns before `bcrypt.compare` runs (`auth.js:61`), so its 401 can come back faster than the 401 for a wrong password. Registration answers 409 for an address already taken (`auth.js:45`).
- jwt signing, the secret, the `iat` claim and token verification are not modelled. The `requireAuth` middleware is not part of this model, so the caller's user id is a trusted parameter.
- `notes-backend/sql/src/server.js` (routing, helmet, CORS, listen) and `notes-backend/sql/src/db.js` (the connection pool and health check) are not part of this model.
- On the client, none of these are modelled: DOM rendering, `fetch`/`api`, the `localStorage` writes, `confirm`, date formatting and the `String(s)` coercion in `escapeHtml`. Each handler is one atomic step taken after its request has answered. Interleaving of concurrent handlers is not modelled.
- Notes.RepliesDependOnlyOnOwnRows: does not cover the id that POST returns. The id comes from a sequence shared by all users, so it reveals how many notes were created before.
