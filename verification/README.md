# Notes coordination module — a Dafny model

This project models the notes module of the Laverna note-taking application:
the layer that sits between the UI and the generic entity primitives and adds
the note-specific rules.

- **Trash lifecycle.** `remove` moves an active note to the trash and
  publishes `destroy:model`. Called on a note already in the trash, it erases
  the note for good. `restore` takes a note out of the trash from any `trash`
  value and publishes `restore:model`.
- **Notebook detach cascade.** `changeNotebookId` queries every note of the
  notebook's profile that points at the notebook. It saves all of them in one
  batch with `notebookId` set to 0. With `removeNotes` the batch also sets
  `trash` to 1.
- **Tag synchronisation.** `saveModel` always saves the note. It asks the tags
  module to create the note's tags in its profile only when `saveTags` is set.
- **Lookups.** `find` asks the configs module for the sort field before
  querying. `findModel` hydrates the note's notebook and files only when
  `findAttachments` is set. `findAttachments` asks the notebooks and files
  modules for them. `findOrFetch` returns the model the caller already holds
  and only looks it up otherwise.

The behaviour is taken from the module's test,
`test/tape/collections/modules/notes.js`. The module file itself
(`app/scripts/collections/modules/Notes`) is not part of this model. Neither
are the generic primitives in `app/scripts/collections/modules/Module`; they
are modelled abstractly, as described below.

## Structure

- `wrappers.dfy` — `Option` and `Result`.
- `note_data.dfy` — the persisted `Note` and `Patch`, the `data` of a save that
  overwrites some attributes. It also holds the hydrated `NoteModel`, whose
  `notebook` and `fileModels` are never persisted, and the `Effect` log
  entries: primitive calls, collaborator requests and published events.
  `notebookId: 0` becomes `NotebookRef.Detached`.
- `storage.dfy` — the generic primitives over a `Store`. A store is a map from
  (profile, id) to note, and each note sits under its own key. The module has
  single-note put, erase and get. `Fetch` is the query loop; it returns each
  matching note exactly once, in an order left open. `SaveAll` is the batched
  save loop.
- `notes.dfy` — the operations of the notes module. Each is a function or
  method from the store and its arguments to the new store and the effects it
  issued, in order. `Cascade` is a reference definition, note by note, that the
  cascade method is proved equal to.
- `lifecycle.dfy` — lemmas that relate several calls.

Some things the module receives over the message bus become parameters:

- the sort field from the configs module;
- the notebook and file replies, bundled in `Collaborators`, where `None` is a
  failed request.

Published events carry the model after its save, because the module publishes
the same model object the save has just updated.

## Model

| member | source | states |
|---|---|---|
| Notes.SaveModel | test/tape/collections/modules/notes.js:36-60 | The note is saved with its data applied and no other note changes. The log is the save request, then at most one other entry: `addTags` with the note's tags and profile is issued exactly once when `saveTags` is set and never otherwise. |
| Notes.Remove | test/tape/collections/modules/notes.js:62-87 | A note with `trash == 1` is erased through the primitive remove, with no event. Any other note is saved with the single change `trash := 1`, followed by exactly one `destroy:model` carrying it. The rest of the store is unchanged in both branches. |
| Notes.Restore | test/tape/collections/modules/notes.js:109-126 | Whatever the prior `trash` (0, 1, 2, ...), the note is saved with `trash := 0` and no other change. Then exactly one `restore:model` carrying it is published. No other note changes. |
| Notes.Cascade | test/tape/collections/modules/notes.js:128-153 | Reference cascade. Selected notes are those of the notebook's profile whose `notebookId` is the notebook's id. They get `notebookId := 0`, plus `trash := 1` only with `removeNotes`, and keep every other attribute. Unselected notes and the key set are unchanged. No note of the profile points at the notebook afterwards. |
| Notes.ChangeNotebookId | test/tape/collections/modules/notes.js:128-153 | Queries with conditions `{notebookId: id}` in the notebook's profile after the sort-config request. Then issues one batched save of exactly the selected notes with payload `{notebookId: 0}`, or `{notebookId: 0, trash: 1}` with `removeNotes`. The resulting store equals `Cascade`. |
| Notes.Find | test/tape/collections/modules/notes.js:155-166 | Asks the configs module for the sort field, then issues the query carrying that sort field. The result is exactly the notes of the partition that meet the conditions, each once. |
| NoteData.Apply | test/tape/collections/modules/notes.js:74-78 | The `data` of a save overwrites exactly the attributes it carries and keeps every attribute it leaves out. In this model `data` can carry only `notebookId` and `trash`, the two attributes the module's own saves set. |
| Storage.Put | test/tape/collections/modules/notes.js:42-47 | The primitive save writes the note under its (profile, id) key and leaves every other stored note as it was. |
| Storage.Erase | test/tape/collections/modules/notes.js:65-72 | The primitive remove takes the note's key out of the store and leaves every other stored note as it was. |
| Storage.Get | test/tape/collections/modules/notes.js:180-188 | The primitive lookup finds a note exactly when its (profile, id) key is stored, and returns that stored note, which has that profile and id. |
| Storage.Fetch | test/tape/collections/modules/notes.js:158-166 | The primitive query returns each stored note of the partition that meets the notebook condition, once and unchanged, and nothing else. |
| Storage.SaveAll | test/tape/collections/modules/notes.js:140-147 | The batched save writes every model of the collection with the payload applied and leaves every other stored note as it was. |
| Notes.FindModel | test/tape/collections/modules/notes.js:177-202 | Issues the primitive lookup with the given id and profile exactly once, first. A missing note is `NotFound`. Without `findAttachments` it returns the stored note bare, with no notebook or files and no further request. With the flag it returns the stored note hydrated by `FindAttachments`. |
| Notes.FindAttachments | test/tape/collections/modules/notes.js:204-228 | Requests the notebook by (`profileId`, `notebookId`) and the files by (`profileId`, `files`), both always. It succeeds exactly when both replies arrive. Then `notebook` and `fileModels` are those replies and the attributes are untouched. |
| Notes.FindOrFetch | test/tape/collections/modules/notes.js:89-107 | A supplied model is returned as is, with no request. Otherwise the result is `findModel` with the same options, which issues exactly one primitive lookup with them. |
| Lifecycle.RemoveTwiceErases | test/tape/collections/modules/notes.js:62-81 | For a note not in the trash, a first `remove` trashes it. A second `remove` on the model it returned erases it, leaving the original store minus that note. Exactly one `destroy:model` is issued over the two calls. |
| Lifecycle.RestoreUndoesRemove | test/tape/collections/modules/notes.js:62-126 | For an active note, `restore` after `remove` gives back the original model and a store holding it exactly as it was. |
| Lifecycle.RestoreIdempotent | test/tape/collections/modules/notes.js:109-126 | Restoring twice yields the same store and model as restoring once, with `trash == 0`. |
| Lifecycle.CascadeIdempotent | test/tape/collections/modules/notes.js:135-147 | A second cascade over the same notebook changes nothing, whatever its `removeNotes` flag. |
| Lifecycle.SaveThenFind | test/tape/collections/modules/notes.js:36-47 | For every store, note, data and flag, a bare `findModel` of a note just saved by `saveModel` returns it with the data applied and with no notebook or files. |
| Lifecycle.HydratedAgreesWithBare | test/tape/collections/modules/notes.js:177-196 | A lookup with `findAttachments` succeeds exactly when the lookup without it succeeds and both collaborators reply. It then returns the same attributes, with the notebook and files set to those replies. |
| Lifecycle.FetchedModelIsReused | test/tape/collections/modules/notes.js:89-101 | `findOrFetch`, given the model a successful `findModel` returned, gives it back with no request, whatever the store holds by then. |
| Lifecycle.ErasedNoteNotFound | test/tape/collections/modules/notes.js:64-72 | After a note in the trash is removed, no query result contains it. |

## Left out

- The message bus: the constructor's reply registration for `restore` and `changeNotebookId` (notes.js:24-30) and its deregistration. Requests and events appear only as entries of the effect log.
- The `Collection` binding (notes.js:18-22): a collection is a sequence of notes that holds each key once.
- `filterList`, the collection's named filter (notes.js:160-169): it belongs to the collection class, which is not part of this model, so `Find` takes no `filter`.
- Sort order: the sort field is passed through to the query request only, and the query's order is left open.
- Promises and the concurrent fan-out in `findAttachments`: operations are sequential, and both attachment requests are issued whatever the other's outcome.
- Failures of the storage primitives and of the tags request: the primitives are assumed to succeed, and the acknowledgement of `addTags` is not modelled. The test shows neither.
- Validation or any other work of the generic `saveModel` beyond applying `data` and writing the note: that primitive is not part of this model.
- NoteData.Apply: a save's `data` is limited to `notebookId` and `trash`, the only attributes the module's saves carry (notes.js:78, 117, 140, 146). A caller's `data` that sets title, content, tags or files is not modelled. So the model does not say whether `addTags` sends the tags from before or after such a `data` is applied.
- Notes.FindModel: a missing note is reported as `NotFound`; what the generic `findModel` primitive does for a missing id is not part of this model.
