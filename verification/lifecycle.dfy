/**
 * Properties that relate several calls of the notes module: the trash
 * lifecycle (remove twice, restore after remove, restore twice, an erased
 * note never found again), the cascade's stability, and the save/lookup
 * round trips (save then find, hydrated against bare lookups, reuse of a
 * fetched model by findOrFetch).
 */
module Lifecycle {
  import opened Wrappers
  import opened NoteData
  import opened Storage
  import opened Notes

  /** A first `remove` moves the note to the trash; a second one, on the model
      the first handed back, erases it, leaving every other note as it was.
      Exactly one `destroy:model` is published over the two calls. */
  lemma RemoveTwiceErases(store: Store, model: Note)
    requires model.trash != InTrash
    ensures var first := Remove(store, model);
      var second := Remove(first.store, first.model);
      && second.store == Erase(store, model)
      && first.effects + second.effects ==
         [SaveRequest(model, SetTrash(InTrash)), Trigger(DestroyModel, first.model), RemoveRequest(first.model)]
  {
  }

  /** Restoring the model `remove` handed back undoes the soft delete of an
      active note: the store holds the note exactly as it was saved before. */
  lemma RestoreUndoesRemove(store: Store, model: Note)
    requires model.trash == NotTrashed
    ensures var removed := Remove(store, model);
      var restored := Restore(removed.store, removed.model);
      && restored.model == model
      && restored.store == Put(store, model)
  {
  }

  /** Restoring twice leaves the same store and model as restoring once;
      only the save and the event are issued again. */
  lemma RestoreIdempotent(store: Store, model: Note)
    ensures var once := Restore(store, model);
      var twice := Restore(once.store, once.model);
      && twice.store == once.store
      && twice.model == once.model
      && twice.model.trash == NotTrashed
  {
  }

  /** After a cascade no note of the partition points at the notebook, so a
      second cascade over the same notebook changes nothing, whatever its
      `removeNotes` flag. */
  lemma CascadeIdempotent(store: Store, notebook: Notebook, removeNotes: bool, again: bool)
    ensures Cascade(Cascade(store, notebook, removeNotes), notebook, again) == Cascade(store, notebook, removeNotes)
  {
  }

  /** A note erased from the trash does not come back from any later query. */
  lemma ErasedNoteNotFound(store: Store, model: Note, coll: seq<Note>, profileId: ProfileId, conditions: Option<NotebookRef>)
    requires model.trash == InTrash
    requires IsQueryResult(Remove(store, model).store, coll, profileId, conditions)
    ensures forall n :: n in coll ==> KeyOf(n) != KeyOf(model)
  {
  }

  /** What `saveModel` writes is what a later bare `findModel` of the same note
      reads back. */
  lemma SaveThenFind(store: Store, model: Note, data: Patch, saveTags: bool, c: Collaborators)
    ensures var saved := SaveModel(store, model, data, saveTags);
      FindModel(saved.store, FindOptions(None, model.id, model.profileId, false), c).result
        == Success(NoteModel(Apply(model, data), None, None))
  {
  }

  /** A lookup with `findAttachments` succeeds exactly when the same lookup
      without it succeeds and both collaborators reply; it then hands back the
      same attributes, hydrated with those replies. */
  lemma HydratedAgreesWithBare(store: Store, opts: FindOptions, c: Collaborators)
    ensures var bare := FindModel(store, opts.(findAttachments := false), c);
      var full := FindModel(store, opts.(findAttachments := true), c);
      && (full.result.Success? <==>
           && bare.result.Success?
           && c.notebookReply(opts.profileId, bare.result.value.attributes.notebookId).Some?
           && c.filesReply(opts.profileId, bare.result.value.attributes.files).Some?)
      && (full.result.Success? ==>
           && full.result.value.attributes == bare.result.value.attributes
           && full.result.value.notebook == c.notebookReply(opts.profileId, bare.result.value.attributes.notebookId)
           && full.result.value.fileModels == c.filesReply(opts.profileId, bare.result.value.attributes.files))
  {
  }

  /** Handing `findOrFetch` the model a successful `findModel` returned gives
      that model back with no request, whatever the store holds by then. */
  lemma FetchedModelIsReused(store: Store, later: Store, opts: FindOptions, c: Collaborators)
    requires FindModel(store, opts, c).result.Success?
    ensures var found := FindModel(store, opts, c).result.value;
      FindOrFetch(later, opts.(model := Some(found)), c) == Answer(Success(found), [])
  {
  }
}
