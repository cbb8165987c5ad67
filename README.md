# SafeScribeV2 note store and user directory, in Dafny

This project models the core of SafeScribeV2, a small ASP.NET service that
keeps users and their notes in memory. It covers two controllers:

- `AuthController` keeps the user directory, a list of accounts.
  `Register` appends an account whose username is new, with the hash of its
  password and its role. `Login` looks up an account whose username and
  stored hash both match. Here this is the class `Users.UserDirectory`. The
  source's `User` record is called `Account` here, because `User` is also a
  member of the `Role` enumeration.
- `NotasController` keeps the note store. It has four actions, each guarded
  by the caller's role and, for non-Admin callers, by ownership:
  - `CriarNota` creates a note (Editor or Admin).
  - `ObterNota` reads a note (any role).
  - `AtualizarNota` replaces a note's title and content (Editor or Admin).
  - `DeletarNota` removes a note (Admin only).

  Here this is the class `Notes.NoteStore`. Its invariant says that note ids
  are unique and lie in 1 .. `int.MaxValue`.

The web framework's role gates (`[Authorize(Roles = ...)]`) are the first
check of each method. The caller arrives as the username and role from its
token (`Notes.Caller`). The password hasher is a foreign library, so it is a
deterministic function `hash` fixed when the directory is built. `Login`
depends on that determinism: it compares a fresh hash of the password with
the stored hash by equality.

Some behaviour of the code is easy to misread, and some differs from what
its own doc comments and messages say. The model follows the code:

- `Register` never sets an account's `Id`. The model takes the id as a
  parameter of `Register`, because its value comes from the `User` record's
  initializer, which is not part of this model.
- Note ids can be reused after a deletion. The next id is the largest
  remaining id plus one (`Notes.DeletedMaxIdIsReused`).
- Reading a missing id does not answer 404, although the action's doc
  comment lists it. An Admin gets an empty success. Any other caller gets
  the same "no access" error as for a note it does not own.
- `Register`'s guard tests the password twice and never tests the username,
  although its error message names both. A blank username can therefore be
  registered. `Login` rejects blank usernames before any lookup, so such an
  account can never log in (see `Login`'s contract).
- `AtualizarNota` picks "own notes only" when the directory role is Editor,
  and "any note" for every other directory role. The role gate, though, is
  checked against the token's role.

## Model

| member | source | states |
|---|---|---|
| `Lists.FindIndex` | SafeScribeV2/Controller/NotasController.cs:124 | `List.FindIndex`/`Find`: the result is the first index whose element satisfies the predicate; `None` exactly when no element does |
| `Lists.FindLastIndex` | SafeScribeV2/Controller/NotasController.cs:44 | `List.FindLast`: the result satisfies the predicate and no later element does; `None` exactly when no element does |
| `Users.ResolveUser` | SafeScribeV2/Controller/NotasController.cs:73 | resolving the caller by username gives the first account with that username; `None` exactly when no account has it |
| `Users.UserDirectory.Register` | SafeScribeV2/Controller/AuthController.cs:62-79 | a blank password is rejected; an existing username is rejected as a duplicate; both leave the directory unchanged; otherwise exactly one account with the username, the hash of the password and the role is appended; usernames stay pairwise distinct |
| `Users.UserDirectory.Login` | SafeScribeV2/Controller/AuthController.cs:34-53 | a blank username or password is rejected before any lookup; otherwise it succeeds exactly when some account has that username and the hash of that password; the account returned is stored and matches both; reads only |
| `Users.LoginReturnsStored` | SafeScribeV2/Controller/AuthController.cs:41-48 | with unique usernames, logging in with a stored account's username and a password hashing to its stored hash returns that account |
| `Users.LoginRejectsOtherHash` | SafeScribeV2/Controller/AuthController.cs:41-48 | a password whose hash differs from the account's stored hash fails to log in |
| `Notes.MaxId` | SafeScribeV2/Controller/NotasController.cs:39 | `notas.Max(n => n.Id)` is an id of some note and at least every note's id |
| `Notes.Wrap32` | SafeScribeV2/Controller/NotasController.cs:39 | unchecked `int` addition: the result is in the 32-bit range, congruent to the exact sum, and equal to it when the sum is in range |
| `Notes.NextIdAsWritten` | SafeScribeV2/Controller/NotasController.cs:39 | the next id as written is 1 for an empty store and a 32-bit value; it exceeds every id only while the largest id is below `int.MaxValue` |
| `Notes.NextId` | SafeScribeV2/Controller/NotasController.cs:39 | the next id with checked arithmetic is 1 for an empty store, exceeds every existing id and is at most `int.MaxValue`; it is undefined exactly when some id is already `int.MaxValue` |
| `Notes.Retitled` | SafeScribeV2/Controller/NotasController.cs:121-125 | an update changes only the target note's title and content; its id, owner and creation time, every other note and the length stay the same |
| `Notes.Removed` | SafeScribeV2/Controller/NotasController.cs:141 | removal drops exactly the target note: one element shorter, the others kept in order, the multiset short by that note |
| `Notes.RemovedLeavesNoSuchId` | SafeScribeV2/Controller/NotasController.cs:139-145 | with unique ids, after removing a note no note has its id and the ids stay unique |
| `Notes.DeletedMaxIdIsReused` | SafeScribeV2/Controller/NotasController.cs:39 | deleting the note with the largest id, when the next largest is one below it, makes the next creation hand out the deleted id again |
| `Notes.OwnerAsWritten` | SafeScribeV2/Controller/NotasController.cs:44 | the owner as written is defined exactly when some account's id is the directory size minus one, and then it is the directory size, whoever the caller is |
| `Notes.CallerOwner` | SafeScribeV2/Controller/NotasController.cs:71-73 | the intended owner is the id of the first account named like the caller; `None` exactly when no account has the caller's username |
| `Notes.OwnerAsWrittenIsNotCaller` | SafeScribeV2/Controller/NotasController.cs:44 | with one editor whose id is 0, the owner as written is 1 while the caller's id is 0; with two such accounts the owner cannot be computed |
| `Notes.NextIdAsWrittenRepeats` | SafeScribeV2/Controller/NotasController.cs:39 | after a note with id `int.MaxValue`, the next id as written wraps to `int.MinValue`, and again once that note is stored; the checked version refuses |
| `Notes.NoteStore.CriarNota` | SafeScribeV2/Controller/NotasController.cs:28-58 | a caller that is not Editor or Admin is forbidden; exactly an empty username is unauthorized; exactly a failed id or owner computation is a creation failure; otherwise exactly one note with the next id, the owner, the input title and content is appended, its id exceeds every earlier id, and earlier notes keep their order; on every failure the store is unchanged; ids stay unique |
| `Notes.NoteStore.ObterNota` | SafeScribeV2/Controller/NotasController.cs:65-92 | an unknown caller is denied; an Admin gets the first note with the id, or an empty success when none has it; any other caller succeeds exactly when a note with the id is owned by it, gets the first such note, and is otherwise denied; the store is not modified |
| `Notes.NoteStore.AtualizarNota` | SafeScribeV2/Controller/NotasController.cs:100-128 | a caller that is not Editor or Admin is forbidden; exactly an unknown caller faults; an Editor finds only its own notes and any other directory role finds any note with the id; the update succeeds exactly when such a note exists and is NotFound otherwise, with the store unchanged; on success only that note's title and content change |
| `Notes.NoteStore.DeletarNota` | SafeScribeV2/Controller/NotasController.cs:135-146 | a caller that is not Admin is forbidden; NotFound exactly when no note has the id, with the store unchanged; on success the first note with the id is removed, the length drops by one and no note with that id remains |
| `Scenarios.RegisterThenLogin` | SafeScribeV2/Controller/AuthController.cs:41-77 | a successful registration followed by a login with the same password returns the registered account with its role; any password with a different hash fails |
| `Scenarios.RegisterTwice` | SafeScribeV2/Controller/AuthController.cs:69-74 | registering the same username a second time is rejected as a duplicate and the directory holds only the first registration |
| `Scenarios.CreateThenReadOwn` | SafeScribeV2/Controller/NotasController.cs:41-86 | when the new note's owner is the caller's own id, an Editor can read the note back |
| `Scenarios.DeleteTwice` | SafeScribeV2/Controller/NotasController.cs:137-145 | with unique ids, the first delete of an existing id succeeds and the second reports NotFound |
| `Scenarios.AdminUpdatesAnyNote` | SafeScribeV2/Controller/NotasController.cs:114-127 | an Admin's update of any stored note succeeds whoever owns it, and changes only that note's title and content |
| `Scenarios.EditorCannotUpdateOthers` | SafeScribeV2/Controller/NotasController.cs:110-119 | an Editor updating a note owned by someone else gets NotFound and every note is unchanged |

## Findings

| source | as written | input that shows it | evidently intended | confidence | as-written member | corrected member |
|---|---|---|---|---|---|---|
| SafeScribeV2/Controller/NotasController.cs:39 | `notas.Max(n => n.Id) + 1` in unchecked 32-bit arithmetic | a store holding a note with id 2147483647: the next id is -2147483648, and stays so after that note is stored, so two notes share an id | a new id above every existing id; creation refused once that is impossible | low impact (needs 2^31 - 1 ids), not executed | `Notes.NextIdAsWrittenRepeats` | `Notes.NextId` |
| SafeScribeV2/Controller/NotasController.cs:44 | the owner is the id of the last account whose id equals the directory size minus one, plus one | a directory holding only editor "alice" with id 0 (C#'s default, as `Register` never sets `Id`): alice's note is owned by 1, not 0; with two such accounts the lookup yields null and every creation fails | the owner is the creating caller's own id | high that it is unintended; the exact ids depend on the `User` record, which is not part of this model; not executed | `Notes.OwnerAsWrittenIsNotCaller` | `Scenarios.CreateThenReadOwn` |

`CriarNota` uses the corrected `NextId`, not the code as written. The code
runs in C#'s default unchecked context, so at `int.MaxValue` it wraps and
answers Ok with a repeated id. `CriarNota` instead answers a creation
failure there, which is what a `checked` addition would give through the
action's catch block. `NextIdAsWrittenRepeats` shows the behaviour as
written.
`CriarNota` takes the owner as a parameter (`None` when computing it
failed). Callers pass `OwnerAsWritten` to get the behaviour as written, or
`CallerOwner` to get the intended binding, as `CreateThenReadOwn` does.

## Left out

- `TokenService` (JWT issuing) is not modelled. It is HMAC-SHA256 signing with a random token id and the clock, all library code. `Login` returns the account a token would be issued for.
- The password hasher's internals are not modelled. It is the function `hash`. The real hasher salts each hash, so the register-then-login round trip holds only if hashing is deterministic, which is what the code relies on.
- Null strings are not modelled. Request fields and claims are taken as strings, and an absent username claim is the empty string. So `Register` with a null username, and a lookup of a null username, are not covered.
- The lists are static and shared by concurrent request threads. The model has one directory and one store, called one action at a time. The notes controller takes the directory's accounts as a parameter.
- `CreatedAt` reads the clock. It is a parameter here.
- Note objects are references in the source. `AtualizarNota` writes into the found object and then stores it at the first index with the id. The model holds notes as values. Because ids are unique, both writes land on the same note, so the model never holds one object at two positions.
- Account ids come from the `User` record's initializer, which is not part of this model. `Register` takes the id as a parameter.
- `GetDadosProtegidos` is not modelled. It only formats a greeting.
- HTTP plumbing is not modelled: routing, the 401 for a missing or invalid token (middleware), and response bodies.
- `Notes.NoteStore.CriarNota`: uses checked arithmetic for the next id where line 39 wraps in unchecked 32-bit arithmetic. With a note whose id is `int.MaxValue`, the source answers Ok with id `int.MinValue` (repeatedly); the model answers a creation failure. The store invariant (unique ids in 1 .. `int.MaxValue`) rests on this correction. The behaviour as written is `Notes.NextIdAsWritten`, shown by `Notes.NextIdAsWrittenRepeats`.
- `Notes.NoteStore.CriarNota`: the owner is a parameter, so its contract does not state the owner that line 44 computes. That computation is `Notes.OwnerAsWritten`.
