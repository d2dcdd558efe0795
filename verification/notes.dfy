/**
 * The notes coordination module: soft delete and restore, the notebook
 * detach cascade, saves with optional tag synchronisation, and lookups
 * that optionally hydrate a note's notebook and file attachments.
 *
 * Every operation is a function (or, where it walks the store, a method)
 * from the store and its arguments to the new store and the effects it
 * issued, in the order it issued them.
 */
module Notes {
  import opened Wrappers
  import opened NoteData
  import opened Storage

  /** The result of a save-like operation: the new store, the effects, and the
      model as it stands after the operation. */
  datatype Outcome = Outcome(store: Store, effects: seq<Effect>, model: Note)

  /** Why a lookup failed. */
  datatype LookupError = NotFound | NotebookLookupFailed | FilesLookupFailed

  /** The result of a lookup, together with the requests it issued. */
  datatype Answer = Answer(result: Result<NoteModel, LookupError>, effects: seq<Effect>)

  /** The replies of the notebooks and files modules; `None` is a failed request. */
  datatype Collaborators = Collaborators(
    notebookReply: (ProfileId, NotebookRef) -> Option<Notebook>,
    filesReply: (ProfileId, seq<Id>) -> Option<seq<FileModel>>)

  /** Options of `findModel` and `findOrFetch`. */
  datatype FindOptions = FindOptions(
    model: Option<NoteModel>,
    id: Id,
    profileId: ProfileId,
    findAttachments: bool)

  /** Persists `model` (with `data` applied) and, only when `saveTags` is set,
      asks the tags module to create the note's tags in its profile. */
  function SaveModel(store: Store, model: Note, data: Patch, saveTags: bool): (r: Outcome)
    ensures r.model == Apply(model, data)
    ensures KeyOf(model) in r.store && r.store[KeyOf(model)] == r.model
    ensures Frame(store, r.store, KeyOf(model))
    ensures |r.effects| == (if saveTags then 2 else 1)
    ensures r.effects[0] == SaveRequest(model, data)
    ensures multiset(r.effects)[AddTags(model.tags, model.profileId)] == (if saveTags then 1 else 0)
    ensures forall e :: e in r.effects ==> e.SaveRequest? || e == AddTags(model.tags, model.profileId)
  {
    var saved := Apply(model, data);
    var tagRequests := if saveTags then [AddTags(model.tags, model.profileId)] else [];
    Outcome(Put(store, saved), [SaveRequest(model, data)] + tagRequests, saved)
  }

  /** Erases a note that is already in the trash; moves any other note to the
      trash and publishes `destroy:model`. */
  function Remove(store: Store, model: Note): (r: Outcome)
    ensures model.trash == InTrash ==>
      && KeyOf(model) !in r.store
      && Frame(store, r.store, KeyOf(model))
      && r.effects == [RemoveRequest(model)]
    ensures model.trash != InTrash ==>
      && r.model == model.(trash := InTrash)
      && KeyOf(model) in r.store && r.store[KeyOf(model)] == r.model
      && Frame(store, r.store, KeyOf(model))
      && r.effects == [SaveRequest(model, SetTrash(InTrash)), Trigger(DestroyModel, r.model)]
  {
    if model.trash == InTrash then
      Outcome(Erase(store, model), [RemoveRequest(model)], model)
    else
      var saved := SaveModel(store, model, SetTrash(InTrash), false);
      Outcome(saved.store, saved.effects + [Trigger(DestroyModel, saved.model)], saved.model)
  }

  /** Takes a note out of the trash whatever its `trash` value was, and
      publishes `restore:model`. */
  function Restore(store: Store, model: Note): (r: Outcome)
    ensures r.model == model.(trash := NotTrashed)
    ensures KeyOf(model) in r.store && r.store[KeyOf(model)] == r.model
    ensures Frame(store, r.store, KeyOf(model))
    ensures r.effects == [SaveRequest(model, SetTrash(NotTrashed)), Trigger(RestoreModel, r.model)]
  {
    var saved := SaveModel(store, model, SetTrash(NotTrashed), false);
    Outcome(saved.store, saved.effects + [Trigger(RestoreModel, saved.model)], saved.model)
  }

  /** The notes a cascade from `notebook` touches: those of its profile that
      point at it. */
  predicate Selected(n: Note, notebook: Notebook) {
    Matches(n, notebook.profileId, Some(InNotebook(notebook.id)))
  }

  /** The one payload the cascade applies to every selected note. */
  function CascadePatch(removeNotes: bool): Patch {
    Patch(Some(Detached), if removeNotes then Some(InTrash) else None)
  }

  /** The store after detaching every note from `notebook`, defined note by note. */
  function Cascade(store: Store, notebook: Notebook, removeNotes: bool): (r: Store)
    ensures r.Keys == store.Keys
    ensures forall k :: k in store && !Selected(store[k], notebook) ==> r[k] == store[k]
    ensures forall k :: k in store && Selected(store[k], notebook) ==>
      r[k] == store[k].(notebookId := Detached, trash := if removeNotes then InTrash else store[k].trash)
    ensures forall k :: k in r ==> !Selected(r[k], notebook)
  {
    map k | k in store :: if Selected(store[k], notebook) then Apply(store[k], CascadePatch(removeNotes)) else store[k]
  }

  /** Queries the notes of a partition, optionally of one notebook, after
      asking the configs module for the sort field (its reply is `sortField`). */
  method Find(store: Store, profileId: ProfileId, conditions: Option<NotebookRef>, sortField: string)
    returns (coll: seq<Note>, effects: seq<Effect>)
    ensures IsQueryResult(store, coll, profileId, conditions)
    ensures effects == [FindSortConfig, FindRequest(profileId, conditions, sortField)]
  {
    coll := Fetch(store, profileId, conditions);
    effects := [FindSortConfig, FindRequest(profileId, conditions, sortField)];
  }

  /** Detaches every note of `notebook` from it in one batched save, and moves
      them to the trash as well when `removeNotes` is set. */
  method ChangeNotebookId(store: Store, notebook: Notebook, removeNotes: bool, sortField: string)
    returns (r: Store, effects: seq<Effect>)
    ensures r == Cascade(store, notebook, removeNotes)
    ensures |effects| == 3
    ensures effects[..2] == [FindSortConfig, FindRequest(notebook.profileId, Some(InNotebook(notebook.id)), sortField)]
    ensures effects[2].SaveCollectionRequest? && effects[2].data == CascadePatch(removeNotes)
    ensures DistinctKeys(effects[2].collection)
    ensures forall n :: n in effects[2].collection ==> KeyOf(n) in store && store[KeyOf(n)] == n && Selected(n, notebook)
    ensures forall k :: k in store && Selected(store[k], notebook) ==> store[k] in effects[2].collection
  {
    var coll, found := Find(store, notebook.profileId, Some(InNotebook(notebook.id)), sortField);
    var data := CascadePatch(removeNotes);
    r := SaveAll(store, coll, data);
    effects := found + [SaveCollectionRequest(coll, data)];
    forall k | k in store
      ensures k in r && r[k] == Cascade(store, notebook, removeNotes)[k]
    {
      if Selected(store[k], notebook) {
        assert store[k] in coll;
      } else {
        assert k !in KeysOf(coll);
      }
    }
  }

  /** Hydrates `model` with its notebook and its files. Both requests are issued
      whatever their outcome; the lookup fails if either of them does. */
  function FindAttachments(model: NoteModel, c: Collaborators): (r: Answer)
    ensures r.effects == [
      FindNotebook(model.attributes.profileId, model.attributes.notebookId),
      FindFiles(model.attributes.profileId, model.attributes.files)]
    ensures r.result.Success? <==>
      c.notebookReply(model.attributes.profileId, model.attributes.notebookId).Some? &&
      c.filesReply(model.attributes.profileId, model.attributes.files).Some?
    ensures r.result.Success? ==>
      && r.result.value.attributes == model.attributes
      && r.result.value.notebook == c.notebookReply(model.attributes.profileId, model.attributes.notebookId)
      && r.result.value.fileModels == c.filesReply(model.attributes.profileId, model.attributes.files)
  {
    var p := model.attributes.profileId;
    var notebook := c.notebookReply(p, model.attributes.notebookId);
    var files := c.filesReply(p, model.attributes.files);
    var effects := [FindNotebook(p, model.attributes.notebookId), FindFiles(p, model.attributes.files)];
    if notebook.None? then Answer(Failure(NotebookLookupFailed), effects)
    else if files.None? then Answer(Failure(FilesLookupFailed), effects)
    else Answer(Success(model.(notebook := notebook, fileModels := files)), effects)
  }

  /** Looks a note up by id in its partition, and hydrates it only when
      `findAttachments` is set. */
  function FindModel(store: Store, opts: FindOptions, c: Collaborators): (r: Answer)
    ensures |r.effects| >= 1 && r.effects[0] == FindModelRequest(opts.id, opts.profileId)
    ensures forall i :: 1 <= i < |r.effects| ==> !r.effects[i].FindModelRequest?
    ensures Key(opts.profileId, opts.id) !in store ==> r == Answer(Failure(NotFound), [FindModelRequest(opts.id, opts.profileId)])
    ensures r.result.Success? ==> r.result.value.attributes == store[Key(opts.profileId, opts.id)]
    ensures !opts.findAttachments && Key(opts.profileId, opts.id) in store ==>
      r == Answer(Success(NoteModel(store[Key(opts.profileId, opts.id)], None, None)), [FindModelRequest(opts.id, opts.profileId)])
    ensures opts.findAttachments && Key(opts.profileId, opts.id) in store ==>
      var bare := NoteModel(store[Key(opts.profileId, opts.id)], None, None);
      r == Answer(FindAttachments(bare, c).result, [FindModelRequest(opts.id, opts.profileId)] + FindAttachments(bare, c).effects)
  {
    var request := [FindModelRequest(opts.id, opts.profileId)];
    match Get(store, opts.profileId, opts.id)
    case None => Answer(Failure(NotFound), request)
    case Some(n) =>
      var bare := NoteModel(n, None, None);
      if opts.findAttachments then
        var hydrated := FindAttachments(bare, c);
        Answer(hydrated.result, request + hydrated.effects)
      else
        Answer(Success(bare), request)
  }

  /** Hands back the model the caller already holds, or else looks it up. */
  function FindOrFetch(store: Store, opts: FindOptions, c: Collaborators): (r: Answer)
    ensures opts.model.Some? ==> r == Answer(Success(opts.model.value), [])
    ensures opts.model.None? ==> r == FindModel(store, opts, c)
    ensures multiset(r.effects)[FindModelRequest(opts.id, opts.profileId)] == (if opts.model.Some? then 0 else 1)
  {
    if opts.model.Some? then Answer(Success(opts.model.value), [])
    else
      var found := FindModel(store, opts, c);
      assert found.effects == [found.effects[0]] + found.effects[1..];
      found
  }
}
