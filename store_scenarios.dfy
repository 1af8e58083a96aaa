/**
 * Whole mutations of the notes store: each optimistic step followed by the
 * completion of its remote call, as a caller of the store sees them.
 */
module StoreScenarios {
  import opened Wrappers
  import opened NoteModel
  import opened Store

  /** A create whose call fails leaves the list as it was, provided the provisional id was not already in use. */
  method CreateThenFail(store: NotesStore, millis: nat, title: string, content: string, now: string)
    requires !HasId(store.notes, TempId(millis))
    modifies store`notes, store`error
    ensures store.notes == old(store.notes)
    ensures store.error == Some(CreateFailedMessage)
  {
    var before := store.notes;
    var tempId := store.BeginCreate(millis, title, content, now);
    CreateRollbackRestores(before, tempId, title, content, now);
    store.CreateFailed(tempId);
  }

  /**
   * A create whose call succeeds puts the server note at the head of the
   * list and selects it; with unique ids and a server id not yet in use,
   * the selection resolves to that note and ids stay unique.
   */
  method CreateThenSucceed(store: NotesStore, millis: nat, title: string, content: string, now: string, created: Note)
    requires !HasId(store.notes, TempId(millis))
    modifies store`notes, store`error, store`selectedNoteId
    ensures store.notes == [created] + old(store.notes)
    ensures store.selectedNoteId == Some(created.id)
    ensures store.error == None
    ensures UniqueIds(old(store.notes)) && !HasId(old(store.notes), created.id) && created.id != TempId(millis) ==>
      UniqueIds(store.notes) && !HasId(store.notes, TempId(millis)) && store.SelectedNote() == Some(created)
  {
    var before := store.notes;
    var tempId := store.BeginCreate(millis, title, content, now);
    store.CreateSucceeded(tempId, created);
    CreateSuccessReplacesHead(before, tempId, title, content, now, created);
    if UniqueIds(before) && !HasId(before, created.id) && created.id != tempId {
      CreateSuccessUnique(before, tempId, title, content, now, created);
    }
  }

  /**
   * An update whose call fails restores the note exactly, timestamps
   * included, when ids are unique and the patch keeps the id; an unknown id
   * only clears the error.
   */
  method UpdateThenFail(store: NotesStore, id: string, patch: Patch, now: string)
    requires UniqueIds(store.notes) && KeepsId(patch, id)
    modifies store`notes, store`error
    ensures store.notes == old(store.notes)
    ensures store.error == if HasId(old(store.notes), id) then Some(UpdateFailedMessage) else None
  {
    var before := store.notes;
    var prev := store.BeginUpdate(id, patch, now);
    if prev.Some? {
      store.UpdateFailed(id, prev.value);
      UpdateRollbackRestores(before, id, patch, now);
    }
  }

  /** An update whose call succeeds leaves the server record in the note's place. */
  method UpdateThenSucceed(store: NotesStore, id: string, patch: Patch, now: string, server: Note)
    requires KeepsId(patch, id)
    modifies store`notes, store`error
    ensures store.notes == ReplaceById(old(store.notes), id, server)
    ensures store.error == None
  {
    var before := store.notes;
    var prev := store.BeginUpdate(id, patch, now);
    if prev.Some? {
      store.UpdateSucceeded(id, server);
      UpdateSuccessTakesServer(before, id, patch, now, server);
    } else {
      ReplaceAbsent(before, id, server);
    }
  }

  /** A delete whose call fails restores the whole list in its original order; the selection stays cleared. */
  method RemoveThenFail(store: NotesStore, id: string)
    modifies store`notes, store`error, store`selectedNoteId
    ensures store.notes == old(store.notes)
    ensures store.error == Some(DeleteFailedMessage)
    ensures store.selectedNoteId == if old(store.selectedNoteId) == Some(id) then None else old(store.selectedNoteId)
  {
    var snapshot := store.BeginRemove(id);
    store.RemoveFailed(snapshot);
  }

  /** Two auto-load reactions in a row issue at most one list call: the first sets the loading flag the second checks. */
  method AutoLoadTwice(store: NotesStore) returns (first: bool, second: bool)
    modifies store`loading
    ensures first == (!old(store.loading) && |old(store.notes)| == 0)
    ensures !second
    ensures store.loading == (old(store.loading) || first)
  {
    first := store.AutoLoad();
    second := store.AutoLoad();
  }

  /**
   * An auto-load whose list call fails, or answers with no notes, leaves the
   * store empty and not loading, so the next auto-load reaction issues
   * another list call: on an empty store the retries never stop by
   * themselves.
   */
  method AutoLoadAfterEmptyLoad(store: NotesStore, fails: bool) returns (first: bool, second: bool)
    modifies store`notes, store`loading, store`error
    ensures first == (!old(store.loading) && |old(store.notes)| == 0)
    ensures first ==> second && store.loading && store.notes == []
    ensures first && fails ==> store.error == Some(LoadFailedMessage)
  {
    first := store.AutoLoad();
    if first {
      if fails {
        store.LoadFailed();
      } else {
        store.LoadSucceeded([]);
      }
    }
    second := store.AutoLoad();
  }

  /**
   * Edit racing delete on one note, both calls failing, the update's
   * failure arriving first: the rollback of the delete brings back the
   * edited version the server rejected.
   */
  method EditRacingDelete(store: NotesStore, a: Note, patch: Patch, now: string)
    requires store.notes == [a] && KeepsId(patch, a.id)
    modifies store`notes, store`error, store`selectedNoteId
    ensures store.notes == [Merge(a, patch, now)]
    ensures store.notes != [a] <==> Merge(a, patch, now) != a
  {
    assert Find([a], a.id) == Some(a);
    var prev := store.BeginUpdate(a.id, patch, now);
    var snapshot := store.BeginRemove(a.id);
    assert store.notes == [];
    store.UpdateFailed(a.id, prev.value);
    assert store.notes == [];
    store.RemoveFailed(snapshot);
  }
}
