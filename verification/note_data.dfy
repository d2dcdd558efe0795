/**
 * The entities the notes module works with: the note record as it is
 * persisted, the partial updates (`data`) that saves apply to it, the
 * hydrated model handed back by lookups, and the log of requests and
 * events the module issues.
 */
module NoteData {
  import opened Wrappers

  type Id = string
  type ProfileId = string

  /** The `notebookId` attribute; the numeric sentinel `0` ("no notebook") is `Detached`. */
  datatype NotebookRef = Detached | InNotebook(id: Id)

  /** `trash` value of a note that is not in the trash. */
  const NotTrashed: int := 0
  /** `trash` value of a soft-deleted note. */
  const InTrash: int := 1

  /** The persisted attributes of a note. `trash` is kept as the raw integer:
      values other than 0 and 1 occur and are told apart from 1. */
  datatype Note = Note(
    id: Id,
    profileId: ProfileId,
    title: string,
    content: string,
    notebookId: NotebookRef,
    tags: seq<string>,
    files: seq<Id>,
    trash: int)

  /** The `data` option of a save: the attributes to overwrite before writing. */
  datatype Patch = Patch(notebookId: Option<NotebookRef>, trash: Option<int>)

  const NoChange := Patch(None, None)

  function SetTrash(t: int): Patch {
    Patch(None, Some(t))
  }

  /** Sets the attributes a patch carries and keeps every other one. */
  function Apply(n: Note, data: Patch): (r: Note)
    ensures r.id == n.id && r.profileId == n.profileId
    ensures r.title == n.title && r.content == n.content
    ensures r.tags == n.tags && r.files == n.files
    ensures data.notebookId.Some? ==> r.notebookId == data.notebookId.value
    ensures data.notebookId.None? ==> r.notebookId == n.notebookId
    ensures data.trash.Some? ==> r.trash == data.trash.value
    ensures data.trash.None? ==> r.trash == n.trash
  {
    n.(notebookId := data.notebookId.GetOr(n.notebookId), trash := data.trash.GetOr(n.trash))
  }

  /** A notebook entity, owned by the notebooks module. */
  datatype Notebook = Notebook(id: Id, profileId: ProfileId, name: string)

  /** A file entity, owned by the files module. */
  datatype FileModel = FileModel(id: Id, profileId: ProfileId, name: string)

  /** A note as a lookup hands it back: its attributes plus the two transient
      properties that attachment hydration sets and that are never persisted. */
  datatype NoteModel = NoteModel(
    attributes: Note,
    notebook: Option<Notebook>,
    fileModels: Option<seq<FileModel>>)

  /** Events published on the notes channel. */
  datatype Event = DestroyModel | RestoreModel

  /** One entry of the effect log: a call to a storage primitive, a request to a
      collaborating module, or an event published on the notes channel. */
  datatype Effect =
    | SaveRequest(model: Note, data: Patch)                 // primitive saveModel
    | SaveCollectionRequest(collection: seq<Note>, data: Patch)  // primitive save of a collection
    | RemoveRequest(model: Note)                             // primitive remove
    | FindRequest(profileId: ProfileId, conditions: Option<NotebookRef>, sortField: string)
    | FindModelRequest(id: Id, profileId: ProfileId)         // primitive findModel
    | FindSortConfig                                         // configs: findConfig for the sort field
    | AddTags(tags: seq<string>, profileId: ProfileId)        // tags: addTags
    | FindNotebook(profileId: ProfileId, notebookId: NotebookRef)  // notebooks: findModel
    | FindFiles(profileId: ProfileId, ids: seq<Id>)          // files: findFiles
    | Trigger(event: Event, model: Note)
}
