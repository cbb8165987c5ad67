/**
 * The note store of `NotasController`: one shared list of notes and the four
 * actions on it, each guarded by the caller's role and, for plain readers and
 * editors, by ownership.
 *
 * The caller arrives already authenticated, as the username and role its
 * token carries; the role gates that the web framework applies before an
 * action runs are the first check of each method here. The notes controller
 * reads the user directory to resolve the caller; it gets the directory's
 * accounts as a parameter.
 */
module Notes {
  import opened Wrappers
  import opened Lists
  import opened Users

  /** An instant, taken as given: `CreatedAt` is read from the clock, which is outside the model. */
  type Timestamp = int

  datatype Note = Note(id: int, userId: int, title: string, content: string, createdAt: Timestamp)

  /** The authenticated caller: the username and role claims of its token. */
  datatype Caller = Caller(username: string, role: Role)

  /**
   * What an action answers: `Ok` (200, or 204 for a delete), `Unauthorized`
   * (401), `Forbidden` (403, the role gate), `AccessDenied` (400, "no access
   * to this note"), `NotFound` (404), `CreationFailed` (400, an exception
   * caught while creating) and `ServerFault` (an exception that escapes the
   * action, 500).
   */
  datatype Response<+T> = Ok(value: T) | Unauthorized | Forbidden | AccessDenied | NotFound | CreationFailed | ServerFault

  const Int32Min: int := -0x8000_0000
  const Int32Max: int := 0x7FFF_FFFF

  /** The role gate of creating and updating: Editor or Admin. */
  predicate MayWrite(role: Role)
  {
    role == Editor || role == Admin
  }

  function HasId(id: int): Note -> bool
  {
    (n: Note) => n.id == id
  }

  function OwnedWithId(id: int, owner: int): Note -> bool
  {
    (n: Note) => n.id == id && n.userId == owner
  }

  /** Which notes `AtualizarNota` may pick for `user`: an Editor only its own, any other role any note. */
  predicate Editable(user: Account, id: int, n: Note)
  {
    n.id == id && (user.role == Editor ==> n.userId == user.id)
  }

  ghost predicate UniqueIds(notes: seq<Note>)
  {
    forall i, j :: 0 <= i < j < |notes| ==> notes[i].id != notes[j].id
  }

  /** `notas.Max(n => n.Id)`. */
  function MaxId(notes: seq<Note>): (m: int)
    requires notes != []
    ensures forall i :: 0 <= i < |notes| ==> notes[i].id <= m
    ensures exists i :: 0 <= i < |notes| && notes[i].id == m
  {
    if |notes| == 1 then notes[0].id
    else
      var rest := MaxId(notes[1..]);
      if notes[0].id > rest then notes[0].id else rest
  }

  /** C#'s unchecked `int` arithmetic: the result reduced into the 32-bit range. */
  function Wrap32(x: int): (r: int)
    ensures Int32Min <= r <= Int32Max
    ensures (r - x) % 0x1_0000_0000 == 0
    ensures Int32Min <= x <= Int32Max ==> r == x
  {
    (x - Int32Min) % 0x1_0000_0000 + Int32Min
  }

  /**
   * The next note id as written: the largest id plus one in unchecked 32-bit
   * arithmetic, or 1 for an empty store. Past `int.MaxValue` it wraps.
   */
  function NextIdAsWritten(notes: seq<Note>): (r: int)
    ensures Int32Min <= r <= Int32Max
    ensures notes == [] ==> r == 1
    ensures notes != [] && MaxId(notes) < Int32Max ==> forall i :: 0 <= i < |notes| ==> notes[i].id < r
  {
    if notes == [] then 1 else Wrap32(MaxId(notes) + 1)
  }

  /**
   * The next note id with checked arithmetic: the largest id plus one, or 1
   * for an empty store; `None` where the addition would overflow, which
   * raises an exception that the creation's catch block turns into a failure.
   */
  function NextId(notes: seq<Note>): (r: Option<int>)
    ensures notes == [] ==> r == Some(1)
    ensures r.Some? ==> r.value <= Int32Max
    ensures r.Some? ==> forall i :: 0 <= i < |notes| ==> notes[i].id < r.value
    ensures r.None? <==> exists i :: 0 <= i < |notes| && notes[i].id >= Int32Max
  {
    if notes == [] then Some(1)
    else if MaxId(notes) >= Int32Max then None
    else Some(MaxId(notes) + 1)
  }

  /** The store after the in-place write of a new title and content into note `i`. */
  function Retitled(notes: seq<Note>, i: nat, title: string, content: string): (r: seq<Note>)
    requires i < |notes|
    ensures |r| == |notes|
    ensures r[i].id == notes[i].id && r[i].userId == notes[i].userId && r[i].createdAt == notes[i].createdAt
    ensures r[i].title == title && r[i].content == content
    ensures forall j :: 0 <= j < |notes| && j != i ==> r[j] == notes[j]
  {
    notes[i := notes[i].(title := title, content := content)]
  }

  /** The store after `List.Remove` took out note `i`. */
  function Removed(notes: seq<Note>, i: nat): (r: seq<Note>)
    requires i < |notes|
    ensures |r| == |notes| - 1
    ensures forall j :: 0 <= j < i ==> r[j] == notes[j]
    ensures forall j :: i <= j < |r| ==> r[j] == notes[j + 1]
    ensures multiset(r) + multiset{notes[i]} == multiset(notes)
  {
    assert notes == notes[..i] + [notes[i]] + notes[i + 1..];
    notes[..i] + notes[i + 1..]
  }

  /** Removing a note from a store with unique ids leaves no note with its id. */
  lemma RemovedLeavesNoSuchId(notes: seq<Note>, i: nat)
    requires UniqueIds(notes) && i < |notes|
    ensures UniqueIds(Removed(notes, i))
    ensures forall j :: 0 <= j < |notes| - 1 ==> Removed(notes, i)[j].id != notes[i].id
  {
  }

  /**
   * Ids are reused after a deletion: deleting the note with the largest id,
   * when the next-largest is one below it, makes the following creation hand
   * out the deleted id again.
   */
  lemma {:induction false} DeletedMaxIdIsReused(notes: seq<Note>, i: nat, k: nat)
    requires UniqueIds(notes) && i < |notes| && k < |notes|
    requires notes[i].id == MaxId(notes) <= Int32Max
    requires notes[k].id == notes[i].id - 1
    ensures NextId(Removed(notes, i)) == Some(notes[i].id)
  {
    var rest := Removed(notes, i);
    var k' := if k < i then k else k - 1;
    assert rest[k'] == notes[k];
    assert MaxId(rest) == notes[i].id - 1 by {
      forall j | 0 <= j < |rest|
        ensures rest[j].id <= notes[i].id - 1
      {
        var jj := if j < i then j else j + 1;
        assert rest[j] == notes[jj] && jj != i;
      }
    }
  }

  /**
   * The owner as written at line 44: the id, plus one, of the last account
   * whose id is the directory's size minus one. It does not depend on the
   * caller. `None` where no such account exists: the code then dereferences
   * null, and the creation's catch block reports a failure.
   */
  function OwnerAsWritten(users: seq<Account>): (r: Option<int>)
    ensures r.Some? ==> r.value == |users|
    ensures r.Some? <==> exists i :: 0 <= i < |users| && users[i].id == |users| - 1
  {
    match FindLastIndex(users, (u: Account) => u.id == |users| - 1)
    case None => None
    case Some(i) => Some(users[i].id + 1)
  }

  /**
   * The owner as intended: the id of the account the caller's username
   * resolves to, `None` when it resolves to none.
   */
  function CallerOwner(users: seq<Account>, caller: Caller): (r: Option<int>)
    ensures r.None? <==> forall i :: 0 <= i < |users| ==> users[i].username != caller.username
    ensures r.Some? ==> exists i :: IsFirst(users, i, Named(caller.username)) && users[i].id == r.value
  {
    match ResolveUser(users, caller.username)
    case None => None
    case Some(u) => Some(u.id)
  }

  /**
   * A directory of one editor, "alice", whose id is C#'s default 0: the
   * owner as written is 1, not alice's id. With a second such account the
   * owner cannot be computed at all, so every creation fails.
   */
  lemma OwnerAsWrittenIsNotCaller(h: string)
    ensures OwnerAsWritten([Account(0, "alice", h, Editor)]) == Some(1)
    ensures CallerOwner([Account(0, "alice", h, Editor)], Caller("alice", Editor)) == Some(0)
    ensures OwnerAsWritten([Account(0, "alice", h, Editor), Account(0, "bob", h, Editor)]) == None
  {
  }

  /**
   * Once a note has id `int.MaxValue`, the as-written next id wraps to
   * `int.MinValue`, and after that note is stored the next id is
   * `int.MinValue` again: two notes would share an id. The checked version
   * refuses instead.
   */
  lemma NextIdAsWrittenRepeats(a: Note, title: string, content: string, at: Timestamp)
    requires a.id == Int32Max
    ensures NextIdAsWritten([a]) == Int32Min
    ensures NextIdAsWritten([a, Note(Int32Min, a.userId, title, content, at)]) == Int32Min
    ensures NextId([a]) == None
  {
  }

  class NoteStore {
    /** The stored notes, in insertion order. */
    var notes: seq<Note>

    /** Ids are unique and lie between 1 and `int.MaxValue`. */
    ghost predicate Valid()
      reads this
    {
      UniqueIds(notes) && forall i :: 0 <= i < |notes| ==> 1 <= notes[i].id <= Int32Max
    }

    constructor ()
      ensures Valid() && notes == []
    {
      notes := [];
    }

    /**
     * Creates a note with the next id for an Editor or Admin caller.
     * `owner` is the owner the caller of this method computed: the code
     * computes it from the directory alone (see `OwnerAsWritten`), not from
     * the caller; `None` stands for that computation failing.
     */
    method CriarNota(caller: Caller, owner: Option<int>, title: string, content: string, createdAt: Timestamp)
      returns (r: Response<Note>)
      requires Valid()
      modifies this
      ensures Valid()
      ensures r == Forbidden <==> !MayWrite(caller.role)
      ensures r == Unauthorized <==> MayWrite(caller.role) && caller.username == ""
      ensures r == CreationFailed <==> MayWrite(caller.role) && caller.username != "" && (owner.None? || NextId(old(notes)).None?)
      ensures r.Ok? <==> MayWrite(caller.role) && caller.username != "" && owner.Some? && NextId(old(notes)).Some?
      ensures r.Ok? ==> r.value == Note(NextId(old(notes)).value, owner.value, title, content, createdAt)
      ensures r.Ok? ==> notes == old(notes) + [r.value]
      ensures r.Ok? ==> forall i :: 0 <= i < |old(notes)| ==> old(notes)[i].id < r.value.id
      ensures !r.Ok? ==> notes == old(notes)
      ensures r.Ok? || r == Forbidden || r == Unauthorized || r == CreationFailed
    {
      if !MayWrite(caller.role) {
        return Forbidden;
      }
      if caller.username == "" {
        return Unauthorized;
      }
      var nextId := NextId(notes);
      if nextId.None? || owner.None? {
        return CreationFailed;
      }
      var note := Note(nextId.value, owner.value, title, content, createdAt);
      notes := notes + [note];
      r := Ok(note);
    }

    /**
     * Reads note `id`. An Admin gets the first note with that id whoever owns
     * it, and an empty success when there is none; any other caller gets a
     * note only if it owns one with that id, and otherwise the access-denied
     * error, as does a caller the directory does not know.
     */
    method ObterNota(caller: Caller, users: seq<Account>, id: int) returns (r: Response<Option<Note>>)
      ensures ResolveUser(users, caller.username).None? ==> r == AccessDenied
      ensures ResolveUser(users, caller.username).Some? && ResolveUser(users, caller.username).value.role == Admin ==>
                && r.Ok?
                && (r.value.None? <==> forall i :: 0 <= i < |notes| ==> notes[i].id != id)
                && (r.value.Some? ==> exists i :: IsFirst(notes, i, HasId(id)) && notes[i] == r.value.value)
      ensures ResolveUser(users, caller.username).Some? && ResolveUser(users, caller.username).value.role != Admin ==>
                var user := ResolveUser(users, caller.username).value;
                && (r.Ok? <==> exists i :: 0 <= i < |notes| && notes[i].id == id && notes[i].userId == user.id)
                && (r.Ok? ==> r.value.Some? && exists i :: IsFirst(notes, i, OwnedWithId(id, user.id)) && notes[i] == r.value.value)
                && (!r.Ok? ==> r == AccessDenied)
    {
      var found := ResolveUser(users, caller.username);
      if found.None? {
        // user.Role dereferences null; the catch block answers "no access"
        return AccessDenied;
      }
      var user := found.value;
      if user.role == Admin {
        var i := FindIndex(notes, HasId(id));
        return Ok(if i.Some? then Some(notes[i.value]) else None);
      }
      var i := FindIndex(notes, OwnedWithId(id, user.id));
      if i.None? {
        return AccessDenied;
      }
      r := Ok(Some(notes[i.value]));
    }

    /**
     * Replaces the title and content of note `id`. An Editor finds only notes
     * it owns, any other role that passed the gate finds any note; the note
     * keeps its place, id, owner and creation time.
     */
    method AtualizarNota(caller: Caller, users: seq<Account>, id: int, title: string, content: string)
      returns (r: Response<Note>)
      requires Valid()
      modifies this
      ensures Valid()
      ensures r == Forbidden <==> !MayWrite(caller.role)
      ensures r == ServerFault <==> MayWrite(caller.role) && ResolveUser(users, caller.username).None?
      ensures MayWrite(caller.role) && ResolveUser(users, caller.username).Some? ==>
                var user := ResolveUser(users, caller.username).value;
                r.Ok? <==> exists i :: 0 <= i < |old(notes)| && Editable(user, id, old(notes)[i])
      ensures MayWrite(caller.role) && ResolveUser(users, caller.username).Some? ==>
                var user := ResolveUser(users, caller.username).value;
                r == NotFound <==> forall i :: 0 <= i < |old(notes)| ==> !Editable(user, id, old(notes)[i])
      ensures r.Ok? ==> exists i :: 0 <= i < |old(notes)| && Editable(ResolveUser(users, caller.username).value, id, old(notes)[i])
                                    && notes == Retitled(old(notes), i, title, content) && r.value == notes[i]
      ensures !r.Ok? ==> notes == old(notes)
      ensures r.Ok? || r == Forbidden || r == ServerFault || r == NotFound
    {
      if !MayWrite(caller.role) {
        return Forbidden;
      }
      var found := ResolveUser(users, caller.username);
      if found.None? {
        // user.Role dereferences null and nothing catches the exception
        return ServerFault;
      }
      var user := found.value;
      var j: Option<nat>;
      if user.role == Editor {
        j := FindIndex(notes, OwnedWithId(id, user.id));
      } else {
        j := FindIndex(notes, HasId(id));
      }
      if j.None? {
        return NotFound;
      }
      ghost var before := notes;
      var nota := notes[j.value].(title := title, content := content);
      notes := notes[j.value := nota];
      var idx := FindIndex(notes, HasId(id));
      if idx.Some? {
        assert notes[idx.value].id == notes[j.value].id;
        notes := notes[idx.value := nota];
      }
      assert notes == Retitled(before, j.value, title, content);
      r := Ok(nota);
    }

    /** Removes the first note with `id`; only an Admin passes the gate. */
    method DeletarNota(caller: Caller, id: int) returns (r: Response<()>)
      requires Valid()
      modifies this
      ensures Valid()
      ensures r == Forbidden <==> caller.role != Admin
      ensures caller.role == Admin ==> (r == NotFound <==> forall i :: 0 <= i < |old(notes)| ==> old(notes)[i].id != id)
      ensures r.Ok? ==> exists i :: IsFirst(old(notes), i, HasId(id)) && notes == Removed(old(notes), i)
      ensures r.Ok? ==> |notes| == |old(notes)| - 1
      ensures r.Ok? || r == NotFound ==> forall i :: 0 <= i < |notes| ==> notes[i].id != id
      ensures !r.Ok? ==> notes == old(notes)
      ensures r.Ok? || r == Forbidden || r == NotFound
    {
      if caller.role != Admin {
        return Forbidden;
      }
      var i := FindIndex(notes, HasId(id));
      if i.None? {
        // Remove(null) finds nothing to remove
        return NotFound;
      }
      var nota := notes[i.value];
      var k := FindIndex(notes, EqualTo(nota));
      assert k.Some? && k.value == i.value;
      RemovedLeavesNoSuchId(notes, k.value);
      notes := Removed(notes, k.value);
      r := Ok(());
    }
  }
}
