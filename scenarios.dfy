/**
 * Properties that span several actions, stated as client methods: each runs
 * the actions in order on a directory or store and promises what a caller
 * can rely on afterwards.
 */
module Scenarios {
  import opened Wrappers
  import opened Lists
  import opened Users
  import opened Notes

  /**
   * With a deterministic hasher, registering a username and then logging in
   * with the same password returns the account just registered, with the
   * role given at registration; any password with a different hash fails.
   */
  method RegisterThenLogin(d: UserDirectory, username: string, password: string, role: Role, id: int)
    returns (registered: Result<(), AuthError>, login: Result<Account, AuthError>)
    requires d.Valid() && !IsBlank(username)
    modifies d
    ensures d.Valid()
    ensures registered.Success? <==> !IsBlank(password) && forall i :: 0 <= i < |old(d.users)| ==> old(d.users)[i].username != username
    ensures registered.Success? ==> login == Success(Account(id, username, d.hash(password), role))
    ensures registered.Success? ==> forall other :: d.hash(other) != d.hash(password) ==> d.Login(username, other).Failure?
  {
    registered := d.Register(username, password, role, id);
    login := d.Login(username, password);
    if registered.Success? {
      var n := |d.users| - 1;
      assert d.users[n] == Account(id, username, d.hash(password), role);
      LoginReturnsStored(d, n, password);
      forall other | d.hash(other) != d.hash(password)
        ensures d.Login(username, other).Failure?
      {
        LoginRejectsOtherHash(d, n, other);
      }
    }
  }

  /**
   * A second registration of the same username is refused and leaves the
   * directory as it was.
   */
  method RegisterTwice(d: UserDirectory, username: string, password: string, role: Role, id: int, password': string, role': Role, id': int)
    returns (first: Result<(), AuthError>, second: Result<(), AuthError>)
    requires d.Valid()
    requires !IsBlank(password')
    modifies d
    ensures d.Valid()
    ensures first.Success? ==> second == Failure(DuplicateUsername)
    ensures first.Success? ==> d.users == old(d.users) + [Account(id, username, d.hash(password), role)]
  {
    first := d.Register(username, password, role, id);
    ghost var between := d.users;
    second := d.Register(username, password', role', id');
    if first.Success? {
      assert between[|between| - 1].username == username;
    }
  }

  /**
   * Creating a note with the caller's own id as owner, which is what the
   * action's doc comment promises (the note belongs to the authenticated
   * user), lets an Editor caller read it back afterwards.
   */
  method CreateThenReadOwn(store: NoteStore, users: seq<Account>, caller: Caller, title: string, content: string, at: Timestamp)
    returns (created: Response<Note>, read: Response<Option<Note>>)
    requires store.Valid()
    requires caller.role == Editor && caller.username != ""
    requires ResolveUser(users, caller.username).Some? && ResolveUser(users, caller.username).value.role == Editor
    modifies store
    ensures store.Valid()
    ensures created.Ok? <==> NextId(old(store.notes)).Some?
    ensures created.Ok? ==> created.value.userId == ResolveUser(users, caller.username).value.id
    ensures created.Ok? ==> read == Ok(Some(created.value))
  {
    var owner := CallerOwner(users, caller);
    created := store.CriarNota(caller, owner, title, content, at);
    read := store.ObterNota(caller, users, if created.Ok? then created.value.id else 0);
    if created.Ok? {
      var last := |store.notes| - 1;
      assert store.notes[last] == created.value;
      assert read.Ok?;
      var k :| 0 <= k < |store.notes| && store.notes[k] == read.value.value;
      assert k == last;
    }
  }

  /**
   * Deleting a note twice: the first delete removes it, the second finds
   * nothing and reports `NotFound`.
   */
  method DeleteTwice(store: NoteStore, admin: Caller, id: int) returns (first: Response<()>, second: Response<()>)
    requires store.Valid() && admin.role == Admin
    requires exists i :: 0 <= i < |store.notes| && store.notes[i].id == id
    modifies store
    ensures store.Valid()
    ensures first.Ok? && second == NotFound
    ensures |store.notes| == |old(store.notes)| - 1
  {
    first := store.DeletarNota(admin, id);
    second := store.DeletarNota(admin, id);
  }

  /**
   * An Editor that tries to update a note with an id it does not own, where
   * the store has no note with that id owned by it, gets `NotFound` and
   * leaves every note as it was, the other owner's included.
   */
  method EditorCannotUpdateOthers(store: NoteStore, users: seq<Account>, editor: Caller, i: nat, title: string, content: string)
    returns (r: Response<Note>)
    requires store.Valid() && i < |store.notes|
    requires editor.role == Editor
    requires ResolveUser(users, editor.username).Some? && ResolveUser(users, editor.username).value.role == Editor
    requires store.notes[i].userId != ResolveUser(users, editor.username).value.id
    modifies store
    ensures r == NotFound
    ensures store.notes == old(store.notes)
  {
    r := store.AtualizarNota(editor, users, store.notes[i].id, title, content);
  }

  /**
   * An Admin updates any note, whoever owns it: the update succeeds, and
   * only that note's title and content change.
   */
  method AdminUpdatesAnyNote(store: NoteStore, users: seq<Account>, admin: Caller, i: nat, title: string, content: string)
    returns (r: Response<Note>)
    requires store.Valid() && i < |store.notes|
    requires admin.role == Admin
    requires ResolveUser(users, admin.username).Some? && ResolveUser(users, admin.username).value.role == Admin
    modifies store
    ensures r.Ok?
    ensures store.notes == Retitled(old(store.notes), i, title, content)
  {
    r := store.AtualizarNota(admin, users, store.notes[i].id, title, content);
  }
}
