/**
 * The generic entity primitives the notes module is built on: a store of
 * notes partitioned by profile, with single-model save and remove, a
 * single-model lookup, a query by profile and notebook, and a batched save
 * of a whole collection. The storage backend itself is abstracted to a map.
 */
module Storage {
  import opened Wrappers
  import opened NoteData

  /** A note is addressed by its profile partition and its id within it. */
  datatype Key = Key(profileId: ProfileId, id: Id)

  function KeyOf(n: Note): Key {
    Key(n.profileId, n.id)
  }

  /** Every stored note sits under its own key. */
  predicate WellKeyed(s: map<Key, Note>) {
    forall k :: k in s ==> KeyOf(s[k]) == k
  }

  type Store = s: map<Key, Note> | WellKeyed(s) witness map[]

  /** `after` differs from `before` at most at `key`. */
  predicate Frame(before: Store, after: Store, key: Key) {
    && after.Keys - {key} == before.Keys - {key}
    && forall k :: k in before && k != key ==> k in after && after[k] == before[k]
  }

  /** Writes one note under its key. */
  function Put(store: Store, n: Note): (r: Store)
    ensures KeyOf(n) in r && r[KeyOf(n)] == n
    ensures r.Keys == store.Keys + {KeyOf(n)}
    ensures Frame(store, r, KeyOf(n))
  {
    store[KeyOf(n) := n]
  }

  /** Erases one note for good. */
  function Erase(store: Store, n: Note): (r: Store)
    ensures KeyOf(n) !in r
    ensures r.Keys == store.Keys - {KeyOf(n)}
    ensures Frame(store, r, KeyOf(n))
  {
    store - {KeyOf(n)}
  }

  /** Looks one note up in a partition. */
  function Get(store: Store, profileId: ProfileId, id: Id): (r: Option<Note>)
    ensures r.Some? <==> Key(profileId, id) in store
    ensures r.Some? ==> r.value == store[Key(profileId, id)]
    ensures r.Some? ==> r.value.profileId == profileId && r.value.id == id
  {
    if Key(profileId, id) in store then Some(store[Key(profileId, id)]) else None
  }

  /** The query conditions: the partition, and optionally the notebook. */
  predicate Matches(n: Note, profileId: ProfileId, conditions: Option<NotebookRef>) {
    n.profileId == profileId && (conditions.Some? ==> n.notebookId == conditions.value)
  }

  /** A collection holds each model once. */
  predicate DistinctKeys(coll: seq<Note>) {
    forall i, j :: 0 <= i < j < |coll| ==> KeyOf(coll[i]) != KeyOf(coll[j])
  }

  function KeysOf(coll: seq<Note>): set<Key> {
    set n | n in coll :: KeyOf(n)
  }

  /** `coll` is exactly the stored notes that meet the conditions, each once. */
  predicate IsQueryResult(store: Store, coll: seq<Note>, profileId: ProfileId, conditions: Option<NotebookRef>) {
    && DistinctKeys(coll)
    && (forall n :: n in coll ==> KeyOf(n) in store && store[KeyOf(n)] == n && Matches(n, profileId, conditions))
    && (forall k :: k in store && Matches(store[k], profileId, conditions) ==> store[k] in coll)
  }

  /** The primitive query. The order of the result is the backend's and is left open. */
  method Fetch(store: Store, profileId: ProfileId, conditions: Option<NotebookRef>) returns (coll: seq<Note>)
    ensures IsQueryResult(store, coll, profileId, conditions)
  {
    coll := [];
    var rest := store.Keys;
    while rest != {}
      invariant rest <= store.Keys
      invariant DistinctKeys(coll)
      invariant forall n :: n in coll ==> KeyOf(n) in store && KeyOf(n) !in rest && store[KeyOf(n)] == n && Matches(n, profileId, conditions)
      invariant forall k :: k in store && k !in rest && Matches(store[k], profileId, conditions) ==> store[k] in coll
      decreases rest
    {
      var k :| k in rest;
      if Matches(store[k], profileId, conditions) {
        coll := coll + [store[k]];
      }
      rest := rest - {k};
    }
  }

  /** The primitive batched save: applies one patch to every model of the
      collection and writes each back. */
  method SaveAll(store: Store, coll: seq<Note>, data: Patch) returns (r: Store)
    requires DistinctKeys(coll)
    ensures r.Keys == store.Keys + KeysOf(coll)
    ensures forall n :: n in coll ==> r[KeyOf(n)] == Apply(n, data)
    ensures forall k :: k in store && k !in KeysOf(coll) ==> r[k] == store[k]
  {
    r := store;
    var i := 0;
    while i < |coll|
      invariant 0 <= i <= |coll|
      invariant r.Keys == store.Keys + KeysOf(coll[..i])
      invariant forall j :: 0 <= j < i ==> r[KeyOf(coll[j])] == Apply(coll[j], data)
      invariant forall k :: k in store && k !in KeysOf(coll[..i]) ==> r[k] == store[k]
    {
      assert coll[..i + 1] == coll[..i] + [coll[i]];
      assert KeysOf(coll[..i + 1]) == KeysOf(coll[..i]) + {KeyOf(coll[i])};
      r := Put(r, Apply(coll[i], data));
      i := i + 1;
    }
    assert coll[..i] == coll;
  }
}
