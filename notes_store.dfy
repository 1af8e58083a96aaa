/**
 * The optimistic notes store: an ordered list of notes, an optional selected
 * id, a loading flag and a last-error slot. Every mutation changes memory at
 * once, issues a remote call, and later either takes the server's record or
 * rolls back to a snapshot and records a fixed error message. The remote
 * call's completion is a separate method (`...Succeeded` / `...Failed`) that
 * the caller invokes explicitly.
 */
module Store {
  import opened Wrappers
  import opened NoteModel
  import opened Sequences

  const LoadFailedMessage: string := "Failed to load notes."
  const CreateFailedMessage: string := "Failed to create note."
  const UpdateFailedMessage: string := "Failed to update note."
  const DeleteFailedMessage: string := "Failed to delete note."

  // ---------------------------------------------------------------------
  // List helpers: the `find`, `map` and `filter` the store applies.

  predicate HasId(s: seq<Note>, id: string) {
    exists i :: 0 <= i < |s| && s[i].id == id
  }

  /** At most one note per id. */
  predicate UniqueIds(s: seq<Note>) {
    forall i, j :: 0 <= i < j < |s| ==> s[i].id != s[j].id
  }

  /** The first note with this id, if any (`list.find(n => n.id === id)`). */
  function Find(s: seq<Note>, id: string): (r: Option<Note>)
    ensures r.None? <==> !HasId(s, id)
    ensures r.Some? ==> exists k :: 0 <= k < |s| && s[k] == r.value && !HasId(s[..k], id)
    ensures r.Some? ==> r.value in s && r.value.id == id
  {
    if s == [] then None
    else if s[0].id == id then
      assert !HasId(s[..0], id);
      Some(s[0])
    else
      var r := Find(s[1..], id);
      assert HasId(s, id) ==> HasId(s[1..], id) by {
        if HasId(s, id) {
          var i :| 0 <= i < |s| && s[i].id == id;
          assert s[1..][i - 1].id == id;
        }
      }
      assert r.Some? ==> exists k :: 0 <= k < |s| && s[k] == r.value && !HasId(s[..k], id) by {
        if r.Some? {
          var k :| 0 <= k < |s[1..]| && s[1..][k] == r.value && !HasId(s[1..][..k], id);
          assert s[..k + 1] == [s[0]] + s[1..][..k];
          assert s[k + 1] == r.value;
        }
      }
      r
  }

  /** In a list with unique ids, the note found is the only one with that id. */
  lemma {:induction false} FindUnique(s: seq<Note>, id: string, i: int)
    requires UniqueIds(s)
    requires 0 <= i < |s| && s[i].id == id
    ensures Find(s, id) == Some(s[i])
  {
    var r := Find(s, id);
    assert r.Some? && r.value.id == id;
    var k :| 0 <= k < |s| && s[k] == r.value && !HasId(s[..k], id);
    if k < i {
      assert s[k].id == s[i].id;
    }
  }

  /** Every note with the id replaced by `n` (`list.map(n => n.id === id ? x : n)`). */
  function ReplaceById(s: seq<Note>, id: string, n: Note): (r: seq<Note>)
    ensures |r| == |s|
    ensures forall i :: 0 <= i < |s| ==> r[i] == (if s[i].id == id then n else s[i])
  {
    if s == [] then []
    else [if s[0].id == id then n else s[0]] + ReplaceById(s[1..], id, n)
  }

  /**
   * Every note with the id dropped, the rest kept in order
   * (`list.filter(n => n.id !== id)`); `RemoveByIdCounts` adds that each
   * kept note stays as often as the list holds it.
   */
  function RemoveById(s: seq<Note>, id: string): (r: seq<Note>)
    ensures Subsequence(r, s)
    ensures forall x :: x in r <==> x in s && x.id != id
    ensures !HasId(r, id)
    ensures !HasId(s, id) ==> r == s
  {
    if s == [] then []
    else
      var rest := RemoveById(s[1..], id);
      assert s == [s[0]] + s[1..];
      if s[0].id == id then
        rest
      else
        assert HasId(s[1..], id) ==> HasId(s, id) by {
          if HasId(s[1..], id) {
            var i :| 0 <= i < |s[1..]| && s[1..][i].id == id;
            assert s[i + 1].id == id;
          }
        }
        [s[0]] + rest
  }

  /** Removal keeps every note with another id exactly as often as the list holds it. */
  lemma {:induction false} RemoveByIdCounts(s: seq<Note>, id: string)
    ensures forall x :: multiset(RemoveById(s, id))[x] == if x.id != id then multiset(s)[x] else 0
  {
    if s != [] {
      RemoveByIdCounts(s[1..], id);
      var rest := RemoveById(s[1..], id);
      assert s == [s[0]] + s[1..];
      assert multiset(s) == multiset{s[0]} + multiset(s[1..]);
      if s[0].id != id {
        assert RemoveById(s, id) == [s[0]] + rest;
        assert multiset([s[0]] + rest) == multiset{s[0]} + multiset(rest);
      } else {
        assert RemoveById(s, id) == rest;
      }
    }
  }

  // ---------------------------------------------------------------------
  // Reconciliation facts.

  /** Replacing an id that is absent changes nothing. */
  lemma ReplaceAbsent(s: seq<Note>, id: string, n: Note)
    requires !HasId(s, id)
    ensures ReplaceById(s, id, n) == s
  {
    var r := ReplaceById(s, id, n);
    forall i | 0 <= i < |s| ensures r[i] == s[i] {
      assert s[i].id != id;
    }
  }

  /**
   * A later replacement by the same id overrides an earlier one, as long as
   * the earlier replacement kept the id.
   */
  lemma ReplaceTwice(s: seq<Note>, id: string, m: Note, n: Note)
    requires m.id == id
    ensures ReplaceById(ReplaceById(s, id, m), id, n) == ReplaceById(s, id, n)
  {
    var a := ReplaceById(ReplaceById(s, id, m), id, n);
    var b := ReplaceById(s, id, n);
    forall i | 0 <= i < |s| ensures a[i] == b[i] {
    }
  }

  /** If the earlier replacement changed the id, the later one finds nothing. */
  lemma ReplaceAfterRename(s: seq<Note>, id: string, m: Note, n: Note)
    requires m.id != id
    ensures ReplaceById(ReplaceById(s, id, m), id, n) == ReplaceById(s, id, m)
  {
    var t := ReplaceById(s, id, m);
    forall i | 0 <= i < |t| ensures t[i].id != id {
    }
    ReplaceAbsent(t, id, n);
  }

  /** Putting back the note `find` returned restores a list with unique ids exactly. */
  lemma {:induction false} ReplaceWithFound(s: seq<Note>, id: string)
    requires UniqueIds(s) && HasId(s, id)
    ensures ReplaceById(s, id, Find(s, id).value) == s
  {
    var p := Find(s, id).value;
    var r := ReplaceById(s, id, p);
    forall i | 0 <= i < |s| ensures r[i] == s[i] {
      if s[i].id == id {
        FindUnique(s, id, i);
      }
    }
  }

  /**
   * Update rollback: the optimistic merge followed by putting back the
   * snapshot gives the list as it was, provided ids are unique and the patch
   * does not change the note's id.
   */
  lemma UpdateRollbackRestores(s: seq<Note>, id: string, patch: Patch, now: string)
    requires UniqueIds(s) && HasId(s, id) && KeepsId(patch, id)
    ensures
      var prev := Find(s, id).value;
      ReplaceById(ReplaceById(s, id, Merge(prev, patch, now)), id, prev) == s
  {
    var prev := Find(s, id).value;
    ReplaceTwice(s, id, Merge(prev, patch, now), prev);
    ReplaceWithFound(s, id);
  }

  /** Update success: the server record ends up where the note was, whatever the optimistic merge held. */
  lemma UpdateSuccessTakesServer(s: seq<Note>, id: string, patch: Patch, now: string, server: Note)
    requires HasId(s, id) && KeepsId(patch, id)
    ensures
      var prev := Find(s, id).value;
      ReplaceById(ReplaceById(s, id, Merge(prev, patch, now)), id, server) == ReplaceById(s, id, server)
  {
    var prev := Find(s, id).value;
    ReplaceTwice(s, id, Merge(prev, patch, now), server);
  }

  /** A patch that renames the note defeats the rollback: the merged note stays. */
  lemma UpdateRollbackAfterRename(s: seq<Note>, id: string, patch: Patch, now: string)
    requires HasId(s, id) && !KeepsId(patch, id)
    ensures
      var merged := Merge(Find(s, id).value, patch, now);
      ReplaceById(ReplaceById(s, id, merged), id, Find(s, id).value) == ReplaceById(s, id, merged)
  {
    var prev := Find(s, id).value;
    ReplaceAfterRename(s, id, Merge(prev, patch, now), prev);
  }

  /** Create success on a fresh provisional id: the server note takes the provisional note's place at the head. */
  lemma CreateSuccessReplacesHead(s: seq<Note>, tempId: string, title: string, content: string, now: string, created: Note)
    requires !HasId(s, tempId)
    ensures ReplaceById([Optimistic(tempId, title, content, now)] + s, tempId, created) == [created] + s
  {
    ReplaceAbsent(s, tempId, created);
    var t := [Optimistic(tempId, title, content, now)] + s;
    assert t[1..] == s;
  }

  /** Create failure on a fresh provisional id: the list is the one before the create. */
  lemma CreateRollbackRestores(s: seq<Note>, tempId: string, title: string, content: string, now: string)
    requires !HasId(s, tempId)
    ensures RemoveById([Optimistic(tempId, title, content, now)] + s, tempId) == s
  {
    var t := [Optimistic(tempId, title, content, now)] + s;
    assert t[1..] == s;
  }

  // ---------------------------------------------------------------------
  // Uniqueness of ids under each list change.

  lemma PrependFreshUnique(s: seq<Note>, n: Note)
    requires UniqueIds(s) && !HasId(s, n.id)
    ensures UniqueIds([n] + s)
  {
    var t := [n] + s;
    forall i, j | 0 <= i < j < |t| ensures t[i].id != t[j].id {
      if i == 0 {
        assert t[j] == s[j - 1];
      }
    }
  }

  lemma {:induction false} RemoveKeepsUnique(s: seq<Note>, id: string)
    requires UniqueIds(s)
    ensures UniqueIds(RemoveById(s, id))
  {
    if s != [] {
      assert UniqueIds(s[1..]) by {
        forall i, j | 0 <= i < j < |s[1..]| ensures s[1..][i].id != s[1..][j].id {
          assert s[i + 1].id != s[j + 1].id;
        }
      }
      RemoveKeepsUnique(s[1..], id);
      var rest := RemoveById(s[1..], id);
      if s[0].id != id {
        assert !HasId(rest, s[0].id);
        PrependFreshUnique(rest, s[0]);
      }
    }
  }

  /**
   * Replacing the entries with one id by a note keeps ids unique when no
   * other entry already carries the new note's id.
   */
  lemma ReplaceKeepsUnique(s: seq<Note>, id: string, n: Note)
    requires UniqueIds(s)
    requires forall i :: 0 <= i < |s| && s[i].id != id ==> s[i].id != n.id
    ensures UniqueIds(ReplaceById(s, id, n))
  {
    var r := ReplaceById(s, id, n);
    forall i, j | 0 <= i < j < |r| ensures r[i].id != r[j].id {
      assert !(s[i].id == id && s[j].id == id);
    }
  }

  /**
   * Create success as the user sees it: from a list with unique ids, a fresh
   * provisional id and a server id not yet in use, the result holds exactly
   * one note with the server id and no provisional entry.
   */
  lemma CreateSuccessUnique(s: seq<Note>, tempId: string, title: string, content: string, now: string, created: Note)
    requires UniqueIds(s) && !HasId(s, tempId) && !HasId(s, created.id) && created.id != tempId
    ensures
      var r := ReplaceById([Optimistic(tempId, title, content, now)] + s, tempId, created);
      UniqueIds(r) && HasId(r, created.id) && !HasId(r, tempId) && Find(r, created.id) == Some(created)
  {
    CreateSuccessReplacesHead(s, tempId, title, content, now, created);
    var r := [created] + s;
    PrependFreshUnique(s, created);
    assert r[0].id == created.id;
    assert !HasId(r, tempId);
  }

  // ---------------------------------------------------------------------
  // The store.

  class NotesStore {
    var notes: seq<Note>
    var selectedNoteId: Option<string>
    var loading: bool
    var error: Option<string>

    constructor ()
      ensures notes == [] && selectedNoteId == None && !loading && error == None
    {
      notes := [];
      selectedNoteId := None;
      loading := false;
      error := None;
    }

    /**
     * The selected note: the first note whose id is the selected id, or
     * nothing. It is never a note outside `notes`, even though `SelectNote`
     * accepts any id.
     */
    function SelectedNote(): (r: Option<Note>)
      reads this
      ensures r.Some? ==> r.value in notes && selectedNoteId == Some(r.value.id)
      ensures r.None? <==> selectedNoteId.None? || !HasId(notes, selectedNoteId.value)
    {
      match selectedNoteId
      case None => None
      case Some(id) => Find(notes, id)
    }

    /**
     * The reaction that loads on first use: a list call goes out (`issued`)
     * only when nothing is loading and there are no notes yet.
     */
    method AutoLoad() returns (issued: bool)
      modifies this`loading
      ensures issued == (!old(loading) && |old(notes)| == 0)
      ensures loading == (old(loading) || issued)
    {
      issued := !loading && |notes| == 0;
      if issued {
        BeginLoad();
      }
    }

    method SetError(message: Option<string>)
      modifies this`error
      ensures error == message
    {
      error := message;
    }

    method ClearError()
      modifies this`error
      ensures error == None
    {
      error := None;
    }

    /** `loadNotes` up to the list call. */
    method BeginLoad()
      modifies this`loading
      ensures loading
    {
      loading := true;
    }

    /** The list call answered: take its notes wholesale, then release the loading flag. */
    method LoadSucceeded(items: seq<Note>)
      modifies this`notes, this`loading
      ensures notes == items && !loading
    {
      notes := items;
      loading := false;
    }

    /** The list call failed: record the message, keep the notes, release the loading flag. */
    method LoadFailed()
      modifies this`error, this`loading
      ensures error == Some(LoadFailedMessage) && !loading
    {
      SetError(Some(LoadFailedMessage));
      loading := false;
    }

    method SelectNote(id: Option<string>)
      modifies this`selectedNoteId
      ensures selectedNoteId == id
    {
      selectedNoteId := id;
    }

    /**
     * `create(title, content)` up to the create call: clear the error and
     * prepend a provisional note stamped with `now`. `millis` is the clock
     * reading the provisional id is built from.
     */
    method BeginCreate(millis: nat, title: string, content: string, now: string) returns (tempId: string)
      modifies this`notes, this`error
      ensures tempId == TempId(millis)
      ensures error == None
      ensures notes == [Optimistic(tempId, title, content, now)] + old(notes)
      ensures UniqueIds(old(notes)) && !HasId(old(notes), tempId) ==> UniqueIds(notes)
    {
      ClearError();
      tempId := TempId(millis);
      var optimistic := Optimistic(tempId, title, content, now);
      notes := [optimistic] + notes;
      if UniqueIds(old(notes)) && !HasId(old(notes), tempId) {
        PrependFreshUnique(old(notes), optimistic);
      }
    }

    /** The create call answered: the server note replaces the provisional one and becomes the selection. */
    method CreateSucceeded(tempId: string, created: Note)
      modifies this`notes, this`selectedNoteId
      ensures notes == ReplaceById(old(notes), tempId, created)
      ensures selectedNoteId == Some(created.id)
      ensures HasId(old(notes), tempId) ==> SelectedNote().Some?
      ensures UniqueIds(old(notes)) && (forall i :: 0 <= i < |old(notes)| && old(notes)[i].id != tempId ==> old(notes)[i].id != created.id)
        ==> UniqueIds(notes)
    {
      var before := notes;
      notes := ReplaceById(notes, tempId, created);
      SelectNote(Some(created.id));
      if HasId(before, tempId) {
        var i :| 0 <= i < |before| && before[i].id == tempId;
        assert notes[i].id == created.id;
      }
      if UniqueIds(before) && (forall i :: 0 <= i < |before| && before[i].id != tempId ==> before[i].id != created.id) {
        ReplaceKeepsUnique(before, tempId, created);
      }
    }

    /** The create call failed: record the message and drop every note with the provisional id. */
    method CreateFailed(tempId: string)
      modifies this`notes, this`error
      ensures error == Some(CreateFailedMessage)
      ensures notes == RemoveById(old(notes), tempId)
      ensures !HasId(notes, tempId)
      ensures UniqueIds(old(notes)) ==> UniqueIds(notes)
    {
      SetError(Some(CreateFailedMessage));
      if UniqueIds(notes) {
        RemoveKeepsUnique(notes, tempId);
      }
      notes := RemoveById(notes, tempId);
    }

    /**
     * `update(id, patch)` up to the update call. `prev` is the snapshot
     * taken for rollback; when it is `None` the id is unknown, only the error
     * was cleared and no call is issued.
     */
    method BeginUpdate(id: string, patch: Patch, now: string) returns (prev: Option<Note>)
      modifies this`notes, this`error
      ensures error == None
      ensures prev.None? <==> !HasId(old(notes), id)
      ensures prev.Some? ==> prev == Find(old(notes), id)
      ensures prev.None? ==> notes == old(notes)
      ensures prev.Some? ==> notes == ReplaceById(old(notes), id, Merge(prev.value, patch, now))
      ensures prev.Some? && UniqueIds(old(notes)) && KeepsId(patch, id) ==> UniqueIds(notes)
    {
      ClearError();
      prev := Find(notes, id);
      if prev.None? {
        return;
      }
      var updated := Merge(prev.value, patch, now);
      if UniqueIds(notes) && KeepsId(patch, id) {
        ReplaceKeepsUnique(notes, id, updated);
      }
      notes := ReplaceById(notes, id, updated);
    }

    /** The update call answered: the server record replaces the note. */
    method UpdateSucceeded(id: string, server: Note)
      modifies this`notes
      ensures notes == ReplaceById(old(notes), id, server)
    {
      notes := ReplaceById(notes, id, server);
    }

    /** The update call failed: record the message and put back the snapshot. */
    method UpdateFailed(id: string, prev: Note)
      modifies this`notes, this`error
      ensures error == Some(UpdateFailedMessage)
      ensures notes == ReplaceById(old(notes), id, prev)
    {
      SetError(Some(UpdateFailedMessage));
      notes := ReplaceById(notes, id, prev);
    }

    /**
     * `remove(id)` up to the delete call: snapshot the whole list, drop the
     * note, and clear the selection only if it was this note.
     */
    method BeginRemove(id: string) returns (snapshot: seq<Note>)
      modifies this`notes, this`error, this`selectedNoteId
      ensures snapshot == old(notes)
      ensures error == None
      ensures notes == RemoveById(old(notes), id) && !HasId(notes, id)
      ensures selectedNoteId == if old(selectedNoteId) == Some(id) then None else old(selectedNoteId)
      ensures old(SelectedNote()).Some? && old(selectedNoteId) != Some(id) ==> SelectedNote() == old(SelectedNote())
      ensures UniqueIds(old(notes)) ==> UniqueIds(notes)
    {
      ClearError();
      snapshot := notes;
      if UniqueIds(notes) {
        RemoveKeepsUnique(notes, id);
      }
      notes := RemoveById(snapshot, id);
      if selectedNoteId == Some(id) {
        SelectNote(None);
      }
      if old(SelectedNote()).Some? && old(selectedNoteId) != Some(id) {
        SelectedSurvivesRemove(snapshot, id, selectedNoteId.value);
      }
    }

    /** The delete call answered: the removal already applied stands. */
    method RemoveSucceeded()
      ensures unchanged(this)
    {
    }

    /** The delete call failed: record the message and restore the whole snapshot, in its order. */
    method RemoveFailed(snapshot: seq<Note>)
      modifies this`notes, this`error
      ensures error == Some(DeleteFailedMessage)
      ensures notes == snapshot
    {
      SetError(Some(DeleteFailedMessage));
      notes := snapshot;
    }
  }

  /** Removing one id leaves the first note of any other id where `find` sees it. */
  lemma {:induction false} SelectedSurvivesRemove(s: seq<Note>, id: string, other: string)
    requires other != id
    ensures Find(RemoveById(s, id), other) == Find(s, other)
  {
    if s != [] {
      SelectedSurvivesRemove(s[1..], id, other);
    }
  }
}
