# Personal notes manager: optimistic notes store and search filter

This project models the client side of a personal notes manager in Dafny.

**The notes store** (`Store.NotesStore`) holds four things: an ordered list of notes, an optional selected id, a `loading` flag and a last-error slot. Each mutation works in three steps. It changes memory at once, then issues a remote call. When the call resolves, the store either takes the server's record or rolls back to a snapshot taken beforehand and records a fixed, per-operation message. Each asynchronous completion is a separate method that the caller invokes explicitly:

- `BeginCreate`, then `CreateSucceeded` or `CreateFailed`.
- `BeginUpdate` returns the snapshot `prev`, then `UpdateSucceeded` or `UpdateFailed`.
- `BeginRemove` returns the list snapshot, then `RemoveSucceeded` or `RemoveFailed`.
- `BeginLoad` (or the guarded `AutoLoad`), then `LoadSucceeded` or `LoadFailed`.

The list operations the store applies are pure functions about which lemmas are proved:

- `Find` for `find`.
- `ReplaceById` for the `map` that replaces by id.
- `RemoveById` for the `filter` that removes by id.

`StoreScenarios` chains each optimistic step with its completion. These methods show what a caller of the store can rely on. One of them, `EditRacingDelete`, shows the accepted race between an edit and a delete of the same note.

**The search filter** (`NotesListView`) lower-cases and trims the query. It keeps, in the original order, the notes whose lower-cased title or content contains the query. A missing title or content counts as the empty string. The component class holds the `notes` input and the `query` field. `OnInput` sets the query from an input event.

The model follows the code, including these behaviours a caller may not expect:

- `loadNotes` has no guard of its own. Only the auto-load reaction (`AutoLoad`) checks `!loading && notes.length === 0`, so calling `BeginLoad` twice issues two list calls.
- The auto-load retries without limit. A list call that fails or returns no notes leaves `loading` false and `notes` empty, so the effect's guard holds again and another list call goes out (`StoreScenarios.AutoLoadAfterEmptyLoad`).
- Nothing enforces unique ids. A provisional id `tmp-<millis>` repeats when two creates start in the same millisecond (`NoteModel.TempIdCollision`), and a server may return duplicates. Uniqueness is therefore a hypothesis of the lemmas and a conditional postcondition of the methods, not a class invariant.
- A selection may dangle. `SelectNote` accepts any id. A failed create does not clear a selection of the provisional note, and a failed remove does not restore the cleared selection. When the selection dangles, `SelectedNote` reports none.
- The update patch is a full partial note and can carry an `id`. A patch that renames the note defeats both reconciliations, because they look the note up by its old id (`Store.UpdateRollbackAfterRename`). The editor only ever sends a title and a content (`NoteModel.TitleContentPatch`).

Clock readings are parameters: `millis` stands for `Date.now()` in the provisional id, and `now` for `new Date().toISOString()`. The remote client does not appear at all. Its outcome is the choice of which completion method is called, with the server's record as its argument.

## Model

| member | source | states |
|---|---|---|
| `Store.NotesStore.constructor` | notes_frontend/src/app/core/state/notes.store.ts:12-15 | the store starts with no notes, no selection, not loading and no error |
| `Store.NotesStore.SelectedNote` | notes_frontend/src/app/core/state/notes.store.ts:17-20 | the selected note is a member of `notes` carrying the selected id; it is none exactly when nothing is selected or no note has that id |
| `Store.Find` | notes_frontend/src/app/core/state/notes.store.ts:19 | `find` by id: none exactly when no note has the id, otherwise a member of the list with that id and no earlier note with it |
| `Store.FindUnique` | notes_frontend/src/app/core/state/notes.store.ts:87 | in a list with unique ids, `find` returns the one note with that id |
| `Store.NotesStore.AutoLoad` | notes_frontend/src/app/core/state/notes.store.ts:24-30 | the guard of line 27: a list call is issued exactly when the store is not loading and has no notes; loading is then set |
| `Store.NotesStore.SetError` | notes_frontend/src/app/core/state/notes.store.ts:33-35 | the error slot holds the given message; nothing else changes |
| `Store.NotesStore.ClearError` | notes_frontend/src/app/core/state/notes.store.ts:37-39 | the error slot is empty; nothing else changes |
| `Store.NotesStore.BeginLoad` | notes_frontend/src/app/core/state/notes.store.ts:44-45 | loading is set; nothing else changes |
| `Store.NotesStore.LoadSucceeded` | notes_frontend/src/app/core/state/notes.store.ts:46-50 | the notes are replaced wholesale by the server's items and loading ends |
| `Store.NotesStore.LoadFailed` | notes_frontend/src/app/core/state/notes.store.ts:46-53 | the error is "Failed to load notes.", the notes are unchanged and loading ends |
| `Store.NotesStore.SelectNote` | notes_frontend/src/app/core/state/notes.store.ts:58-61 | the selected id becomes the argument, unchecked; nothing else changes |
| `NoteModel.Decimal` | notes_frontend/src/app/core/state/notes.store.ts:67 | the clock reading renders as a non-empty string of decimal digits, with at least two digits from 10 on |
| `NoteModel.TempId` | notes_frontend/src/app/core/state/notes.store.ts:67 | the provisional id starts with the "tmp-" prefix |
| `NoteModel.DecimalInjective` | notes_frontend/src/app/core/state/notes.store.ts:67 | distinct clock readings render as distinct decimal strings |
| `NoteModel.TempIdCollision` | notes_frontend/src/app/core/state/notes.store.ts:67 | two provisional ids are equal exactly when their millisecond readings are equal |
| `NoteModel.Optimistic` | notes_frontend/src/app/core/state/notes.store.ts:68-69 | the provisional note has the provisional id, the given title and content, created and updated at `now`, and is not archived |
| `Store.NotesStore.BeginCreate` | notes_frontend/src/app/core/state/notes.store.ts:64-70 | the error is cleared and the new list is the provisional note followed by the old list; a fresh provisional id keeps ids unique |
| `Store.ReplaceById` | notes_frontend/src/app/core/state/notes.store.ts:73 | same length; each position holds the replacement if its id matched, else its old note |
| `Store.NotesStore.CreateSucceeded` | notes_frontend/src/app/core/state/notes.store.ts:72-75 | exactly the provisional entries are replaced by the server note, in place; the server id is selected; the selection resolves when the provisional note was present; ids stay unique when the server id is not used elsewhere |
| `Store.CreateSuccessReplacesHead` | notes_frontend/src/app/core/state/notes.store.ts:64-75 | with a fresh provisional id, create then success yields the server note followed by the pre-create list |
| `Store.CreateSuccessUnique` | notes_frontend/src/app/core/state/notes.store.ts:64-75 | with unique ids, a fresh provisional id and an unused server id, the result has unique ids, holds the server id, holds no provisional entry, and `find` of the server id gives the server note |
| `Store.RemoveById` | notes_frontend/src/app/core/state/notes.store.ts:78 | a subsequence of the list whose members are exactly the notes with another id; no note with the id remains; the list is unchanged when the id was absent |
| `Store.RemoveByIdCounts` | notes_frontend/src/app/core/state/notes.store.ts:78 | removal keeps each note with another id exactly as often as the list holds it, and no copy of a note with the id |
| `Store.NotesStore.CreateFailed` | notes_frontend/src/app/core/state/notes.store.ts:76-79 | the error is "Failed to create note." and every entry with the provisional id is gone; ids stay unique |
| `Store.CreateRollbackRestores` | notes_frontend/src/app/core/state/notes.store.ts:64-79 | with a fresh provisional id, create then failure yields exactly the pre-create list |
| `NoteModel.Merge` | notes_frontend/src/app/core/state/notes.store.ts:90 | every field the patch holds overrides the previous note's, the others are kept, and `updatedAt` is `now` |
| `NoteModel.TitleContentPatch` | notes_frontend/src/app/notes/pages/notes-page.component.ts:86-89 | the editor's patch holds only a title and a content |
| `Store.NotesStore.BeginUpdate` | notes_frontend/src/app/core/state/notes.store.ts:84-91 | the error is cleared; the snapshot is `find` of the id; for an unknown id nothing else changes and no call is issued; otherwise the entries with that id become the merged note |
| `Store.NotesStore.UpdateSucceeded` | notes_frontend/src/app/core/state/notes.store.ts:94-96 | the entries with the id are replaced by the server record |
| `Store.NotesStore.UpdateFailed` | notes_frontend/src/app/core/state/notes.store.ts:97-101 | the error is "Failed to update note." and the entries with the id are replaced by the snapshot |
| `Store.ReplaceAbsent` | notes_frontend/src/app/core/state/notes.store.ts:95 | replacing an id that is absent leaves the list unchanged |
| `Store.ReplaceTwice` | notes_frontend/src/app/core/state/notes.store.ts:91-100 | after an id-preserving replacement, a second replacement by the same id overrides the first |
| `Store.ReplaceAfterRename` | notes_frontend/src/app/core/state/notes.store.ts:91-100 | after a replacement that changes the id, a second replacement by the old id does nothing |
| `Store.ReplaceWithFound` | notes_frontend/src/app/core/state/notes.store.ts:87-100 | putting back the note `find` returned restores a list with unique ids exactly |
| `Store.UpdateRollbackRestores` | notes_frontend/src/app/core/state/notes.store.ts:87-101 | with unique ids and an id-preserving patch, the optimistic merge then the rollback gives back the original list, timestamps included |
| `Store.UpdateSuccessTakesServer` | notes_frontend/src/app/core/state/notes.store.ts:90-96 | with an id-preserving patch, the optimistic merge then success equals replacing the note by the server record directly |
| `Store.UpdateRollbackAfterRename` | notes_frontend/src/app/core/state/notes.store.ts:90-100 | a patch that renames the note leaves the merged note in the list after rollback |
| `Store.NotesStore.BeginRemove` | notes_frontend/src/app/core/state/notes.store.ts:106-113 | the snapshot is the old list; the error is cleared; the notes with the id are dropped in order; the selection is cleared only if it was that id, and another resolved selection keeps resolving to the same note |
| `Store.SelectedSurvivesRemove` | notes_frontend/src/app/core/state/notes.store.ts:109-113 | removing one id does not change what `find` returns for any other id |
| `Store.NotesStore.RemoveSucceeded` | notes_frontend/src/app/core/state/notes.store.ts:115 | the completed delete changes nothing |
| `Store.NotesStore.RemoveFailed` | notes_frontend/src/app/core/state/notes.store.ts:116-120 | the error is "Failed to delete note." and the list is the snapshot, in its order |
| `Store.PrependFreshUnique` | notes_frontend/src/app/core/state/notes.store.ts:70 | prepending a note with an unused id keeps ids unique |
| `Store.RemoveKeepsUnique` | notes_frontend/src/app/core/state/notes.store.ts:78 | removing by id keeps ids unique |
| `Store.ReplaceKeepsUnique` | notes_frontend/src/app/core/state/notes.store.ts:73 | replacing by id keeps ids unique when no other entry holds the new note's id |
| `StoreScenarios.CreateThenFail` | notes_frontend/src/app/core/state/notes.store.ts:64-79 | with a fresh provisional id, a failed create leaves the list as before and records the create message |
| `StoreScenarios.CreateThenSucceed` | notes_frontend/src/app/core/state/notes.store.ts:64-75 | a successful create puts the server note at the head and selects it; under uniqueness the selection resolves to it and no provisional entry remains |
| `StoreScenarios.UpdateThenFail` | notes_frontend/src/app/core/state/notes.store.ts:84-101 | a failed update restores the list exactly and leaves selection and loading alone; for an unknown id only the error is cleared |
| `StoreScenarios.UpdateThenSucceed` | notes_frontend/src/app/core/state/notes.store.ts:84-96 | a successful update leaves the server record in place of the note |
| `StoreScenarios.RemoveThenFail` | notes_frontend/src/app/core/state/notes.store.ts:106-121 | a failed delete restores the list in its original order; the selection is cleared if it was the deleted note and otherwise kept; loading is untouched |
| `StoreScenarios.AutoLoadAfterEmptyLoad` | notes_frontend/src/app/core/state/notes.store.ts:24-30 | when an auto-load issues a list call that fails or returns no notes, the next auto-load issues another one; a failure records the load message |
| `StoreScenarios.AutoLoadTwice` | notes_frontend/src/app/core/state/notes.store.ts:24-30 | two auto-load reactions in a row issue at most one list call, because the first sets the loading flag the second checks |
| `StoreScenarios.EditRacingDelete` | notes_frontend/src/app/core/state/notes.store.ts:90-120 | an edit and a delete of one note that both fail, when the update's failure arrives first, bring back the rejected edited version (in the other order the original note returns) |
| `Text.Trim` | notes_frontend/src/app/notes/components/notes-list.component.ts:49 | the result is the input with only its leading and trailing whitespace removed: it occurs in the input at some position, everything before and after it is whitespace, it has no whitespace at either end, and it is empty exactly when the input is all whitespace |
| `Text.Contains` | notes_frontend/src/app/notes/components/notes-list.component.ts:52-53 | `includes` holds exactly when the query occurs at some position of the text |
| `Text.LowerChar` | notes_frontend/src/app/notes/components/notes-list.component.ts:49 | upper-case ASCII letters map to lower case and other characters are kept |
| `Text.Lower` | notes_frontend/src/app/notes/components/notes-list.component.ts:49 | same length, each character lower-cased |
| `Text.ContainsEmpty` | notes_frontend/src/app/notes/components/notes-list.component.ts:50-53 | every string includes the empty query |
| `NotesListView.NormalizeQuery` | notes_frontend/src/app/notes/components/notes-list.component.ts:49 | the normalized query is a piece of the typed query, lower-cased character by character, with only whitespace around it in the typed query; it has no upper-case letter, no whitespace at either end, and is empty exactly when the typed query is all whitespace |
| `NotesListView.OrEmpty` | notes_frontend/src/app/notes/components/notes-list.component.ts:52-53 | a missing title or content reads as "" |
| `NotesListView.Matches` | notes_frontend/src/app/notes/components/notes-list.component.ts:51-53 | a note matches exactly when its lower-cased title or lower-cased content (missing read as "") holds the query at some position; every note matches the empty query |
| `NotesListView.FilterMatches` | notes_frontend/src/app/notes/components/notes-list.component.ts:51-54 | the result is a subsequence of the list; every note in it matches; every matching note of the list is in it, as often as the list holds it, and no non-matching note is |
| `NotesListView.FilterNotes` | notes_frontend/src/app/notes/components/notes-list.component.ts:47-55 | a null list reads as empty; an empty normalized query returns the list unchanged; that shortcut agrees with filtering by the normalized query |
| `NotesListView.FilterAllMatch` | notes_frontend/src/app/notes/components/notes-list.component.ts:50-54 | when every note matches, filtering returns the list itself |
| `NotesListView.FilterKeepsAll` | notes_frontend/src/app/notes/components/notes-list.component.ts:22 | the filter keeps the whole length exactly when every note matches |
| `NotesListView.FilterNotesSubsequence` | notes_frontend/src/app/notes/components/notes-list.component.ts:51-59 | the filtered view is a subsequence of the input, repeats no note more often than the input, and is no longer than the input |
| `NotesListView.FilterNotesExact` | notes_frontend/src/app/notes/components/notes-list.component.ts:51-54 | soundness and completeness: a note is shown exactly when it is in the input and its title or content matches, and then as often as the input holds it |
| `NotesListView.BadgeWhenNarrowed` | notes_frontend/src/app/notes/components/notes-list.component.ts:22 | the shown count differs from the input's length exactly when some note does not match |
| `NotesListView.NotesListComponent.constructor` | notes_frontend/src/app/notes/components/notes-list.component.ts:41-45 | the component starts with an empty list and an empty query |
| `NotesListView.NotesListComponent.Filtered` | notes_frontend/src/app/notes/components/notes-list.component.ts:47-55 | the view is a subsequence of the input holding exactly its matching notes, each as often as the input holds it |
| `NotesListView.NotesListComponent.TotalCount` | notes_frontend/src/app/notes/components/notes-list.component.ts:57-59 | the input's length, or 0 when the input is null |
| `NotesListView.NotesListComponent.ShowBadge` | notes_frontend/src/app/notes/components/notes-list.component.ts:22 | the badge is shown exactly when the query leaves some note of the input out |
| `NotesListView.EventValue` | notes_frontend/src/app/notes/components/notes-list.component.ts:61-63 | the typed text is the target's value when the event, its target and a non-empty value are present, else "" |
| `NotesListView.NotesListComponent.OnInput` | notes_frontend/src/app/notes/components/notes-list.component.ts:61-65 | the query becomes the event's typed text; nothing else changes |

## Left out

- The HTTP client (`notes.service.ts`) is not modelled. A remote call is represented only by which completion method is invoked and, on success, the server record passed to it. `getNote` is never used by the store.
- Real asynchrony is not modelled: RxJS subscriptions, `finalize`, and Angular signals and effects. Completions are sequential method calls. Interleavings are shown only by the example `StoreScenarios.EditRacingDelete`.
- The auto-load is an explicit `AutoLoad` call. The Angular effect re-runs whenever `notes` or `loading` changes, and that re-triggering is not modelled; `StoreScenarios.AutoLoadAfterEmptyLoad` spells out one re-run by hand.
- `NotesListView.NotesListComponent.Filtered`: is recomputed from the current `notes` input. In the component, `filtered` is a `computed` whose only signal dependency is `query`, while `notes` is a plain input property that the page re-binds after every store change. The memoised list can therefore stay stale until the query changes, while `totalCount` already reads the new input; the same holds for `ShowBadge`. This staleness is not modelled.
- Clock reads are parameters (`millis`, `now`). ISO-8601 timestamps are opaque strings.
- `Text.Lower`: maps only the ASCII letters, whereas `toLowerCase` also folds the rest of Unicode.
- `Text.Trim`: removes only ASCII whitespace (space, tab, line feed, vertical tab, form feed, carriage return), whereas JavaScript's `trim` also removes no-break space, the byte-order mark and the other Unicode spaces and line terminators.
- `NoteModel.Merge`: a patch field that is present but explicitly `undefined` is treated as absent. The object spread would instead copy `undefined` over the note's field.
- `NotesListView.EventValue`: the event's value is taken to be a string already. The conversion `String(...)` of other value types, and JavaScript truthiness of non-string values, are not modelled.
- The note record's definition file (`core/models/note.model.ts`) is not part of this model. The fields come from the store's object literal. `title` and `content` are optional so that the filter's treatment of a missing field can be stated.
- The HTTP error interceptor (notes_frontend/src/app/core/interceptors/http-error.interceptor.ts) is not modelled. As written, it hands `pipe` an observer object (`{ error: ... }`), but `pipe` expects operator functions. Read that way, it does not install an error handler and never writes the error slot.
- The modal dialog, the note editor's form binding, the page and item templates, the button, the empty state, the routes, and the list's `edit`/`remove` outputs and `trackById` are view wiring with no state contract.
