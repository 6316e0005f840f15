/**
 * The root mutation fields. Each takes the store and returns the store it
 * leaves behind together with the value the resolver returns. Fresh ids
 * (produced in the source by a time-based UUID generator) are a parameter.
 */
module Mutations {
  import opened Wrappers
  import opened Entities
  import opened Resolvers
  import Lodash

  /** The store after a mutation, and the value the resolver hands back. */
  datatype Response<T> = Response(store: Store, value: T)

  /**
   * `update*` on an id no record has: the source reads a property off the
   * `undefined` that `_.find` returned and raises before changing anything.
   */
  datatype Fault = NotFound(id: Id)

  // Adding: build the record with the fresh id and push it onto its collection.

  /** `addAuthor(name)`. */
  function AddAuthor(s: Store, name: string, newId: Id): (r: Response<Author>)
    ensures r.value.id == newId && r.value.name == name
    ensures |r.store.authors| == |s.authors| + 1
    ensures r.store.authors[..|s.authors|] == s.authors
    ensures r.store.authors[|s.authors|] == r.value
    ensures r.store.truths == s.truths && r.store.dares == s.dares
  {
    var a := Author(newId, name);
    Response(s.(authors := s.authors + [a]), a)
  }

  /** `addTruth(truth, authorId)`: the foreign key is stored as given, never checked. */
  function AddTruth(s: Store, text: string, authorId: Id, newId: Id): (r: Response<Truth>)
    ensures r.value.id == newId && r.value.truth == text && r.value.authorId == authorId
    ensures |r.store.truths| == |s.truths| + 1
    ensures r.store.truths[..|s.truths|] == s.truths
    ensures r.store.truths[|s.truths|] == r.value
    ensures r.store.authors == s.authors && r.store.dares == s.dares
  {
    var t := Truth(newId, text, authorId);
    Response(s.(truths := s.truths + [t]), t)
  }

  /** `addDare(dare, authorId)`: the foreign key is stored as given, never checked. */
  function AddDare(s: Store, text: string, authorId: Id, newId: Id): (r: Response<Dare>)
    ensures r.value.id == newId && r.value.dare == text && r.value.authorId == authorId
    ensures |r.store.dares| == |s.dares| + 1
    ensures r.store.dares[..|s.dares|] == s.dares
    ensures r.store.dares[|s.dares|] == r.value
    ensures r.store.authors == s.authors && r.store.truths == s.truths
  {
    var d := Dare(newId, text, authorId);
    Response(s.(dares := s.dares + [d]), d)
  }

  // Removing: `_.remove(collection, { id })` drops every record with the id
  // and returns the dropped records. Nothing cascades to other collections.

  /** `removeAuthor(id)`; the truths and dares that named the author are left dangling. */
  function RemoveAuthor(s: Store, id: Id): (r: Response<seq<Author>>)
    ensures forall a :: a in r.value <==> a in s.authors && a.id == id
    ensures forall a :: a in r.store.authors <==> a in s.authors && a.id != id
    ensures |r.value| + |r.store.authors| == |s.authors|
    ensures r.store.truths == s.truths && r.store.dares == s.dares
  {
    Lodash.RemovePartition(s.authors, AuthorKey, id);
    assert |multiset(s.authors)| == |s.authors|;
    Response(s.(authors := Lodash.Reject(s.authors, AuthorKey, id)), Lodash.Filter(s.authors, AuthorKey, id))
  }

  /** `removeTruth(id)`. */
  function RemoveTruth(s: Store, id: Id): (r: Response<seq<Truth>>)
    ensures forall t :: t in r.value <==> t in s.truths && t.id == id
    ensures forall t :: t in r.store.truths <==> t in s.truths && t.id != id
    ensures |r.value| + |r.store.truths| == |s.truths|
    ensures r.store.authors == s.authors && r.store.dares == s.dares
  {
    Lodash.RemovePartition(s.truths, TruthKey, id);
    assert |multiset(s.truths)| == |s.truths|;
    Response(s.(truths := Lodash.Reject(s.truths, TruthKey, id)), Lodash.Filter(s.truths, TruthKey, id))
  }

  /** `removeDare(id)`. */
  function RemoveDare(s: Store, id: Id): (r: Response<seq<Dare>>)
    ensures forall d :: d in r.value <==> d in s.dares && d.id == id
    ensures forall d :: d in r.store.dares <==> d in s.dares && d.id != id
    ensures |r.value| + |r.store.dares| == |s.dares|
    ensures r.store.authors == s.authors && r.store.truths == s.truths
  {
    Lodash.RemovePartition(s.dares, DareKey, id);
    assert |multiset(s.dares)| == |s.dares|;
    Response(s.(dares := Lodash.Reject(s.dares, DareKey, id)), Lodash.Filter(s.dares, DareKey, id))
  }

  // Updating: `_.find` the record by id, overwrite its text field in place and
  // return it. Only the first record with the id is touched.

  /** `updateAuthor(id, name)`. */
  function UpdateAuthor(s: Store, id: Id, name: string): (r: Result<Response<Author>, Fault>)
    ensures r.Err? <==> forall i :: 0 <= i < |s.authors| ==> s.authors[i].id != id
    ensures r.Err? ==> r.error == NotFound(id)
    ensures r.Ok? ==> exists i :: Lodash.IsFirstMatch(s.authors, AuthorKey, id, i)
                        && r.value.value == s.authors[i].(name := name)
                        && r.value.store.authors == s.authors[i := r.value.value]
    ensures r.Ok? ==> r.value.value.id == id && r.value.value.name == name
    ensures r.Ok? ==> r.value.store.truths == s.truths && r.value.store.dares == s.dares
  {
    match Lodash.FindIndex(s.authors, AuthorKey, id)
    case None => Err(NotFound(id))
    case Some(i) =>
      var a := s.authors[i].(name := name);
      Ok(Response(s.(authors := s.authors[i := a]), a))
  }

  /** `updateTruth(id, truth)`; the foreign key is left as it was. */
  function UpdateTruth(s: Store, id: Id, text: string): (r: Result<Response<Truth>, Fault>)
    ensures r.Err? <==> forall i :: 0 <= i < |s.truths| ==> s.truths[i].id != id
    ensures r.Err? ==> r.error == NotFound(id)
    ensures r.Ok? ==> exists i :: Lodash.IsFirstMatch(s.truths, TruthKey, id, i)
                        && r.value.value == s.truths[i].(truth := text)
                        && r.value.store.truths == s.truths[i := r.value.value]
    ensures r.Ok? ==> r.value.value.id == id && r.value.value.truth == text
    ensures r.Ok? ==> r.value.store.authors == s.authors && r.value.store.dares == s.dares
  {
    match Lodash.FindIndex(s.truths, TruthKey, id)
    case None => Err(NotFound(id))
    case Some(i) =>
      var t := s.truths[i].(truth := text);
      Ok(Response(s.(truths := s.truths[i := t]), t))
  }

  /** `updateDare(id, dare)`; the foreign key is left as it was. */
  function UpdateDare(s: Store, id: Id, text: string): (r: Result<Response<Dare>, Fault>)
    ensures r.Err? <==> forall i :: 0 <= i < |s.dares| ==> s.dares[i].id != id
    ensures r.Err? ==> r.error == NotFound(id)
    ensures r.Ok? ==> exists i :: Lodash.IsFirstMatch(s.dares, DareKey, id, i)
                        && r.value.value == s.dares[i].(dare := text)
                        && r.value.store.dares == s.dares[i := r.value.value]
    ensures r.Ok? ==> r.value.value.id == id && r.value.value.dare == text
    ensures r.Ok? ==> r.value.store.authors == s.authors && r.value.store.truths == s.truths
  {
    match Lodash.FindIndex(s.dares, DareKey, id)
    case None => Err(NotFound(id))
    case Some(i) =>
      var d := s.dares[i].(dare := text);
      Ok(Response(s.(dares := s.dares[i := d]), d))
  }

  // Lemmas about the `authors` mutations

  /**
   * After `addAuthor`, a lookup by a fresh id finds the new record; a reused id
   * keeps finding the older record, and every other id finds what it found before.
   */
  lemma AddAuthorThenLookup(s: Store, name: string, newId: Id, id: Id)
    ensures LookupAuthor(AddAuthor(s, name, newId).store, id) ==
      if id == newId && LookupAuthor(s, id).None? then Some(AddAuthor(s, name, newId).value) else LookupAuthor(s, id)
  {
    var r := AddAuthor(s, name, newId);
    assert r.store.authors == s.authors + [r.value];
    Lodash.FindAppend(s.authors, r.value, AuthorKey, id);
  }

  /** `addAuthor` keeps ids unique exactly when the supplied id is fresh. */
  lemma AddAuthorWellFormed(s: Store, name: string, newId: Id)
    requires WellFormed(s)
    ensures WellFormed(AddAuthor(s, name, newId).store) <==> LookupAuthor(s, newId).None?
  {
    var r := AddAuthor(s, name, newId);
    assert r.store.authors == s.authors + [r.value];
    Lodash.AppendUnique(s.authors, r.value, AuthorKey);
  }

  /**
   * After `removeAuthor(id)` nothing is found by `id`, and a lookup by any other
   * id finds what it found before.
   */
  lemma RemoveAuthorThenLookup(s: Store, id: Id, w: Id)
    ensures LookupAuthor(RemoveAuthor(s, id).store, w) == if w == id then None else LookupAuthor(s, w)
  {
    if w != id {
      Lodash.FindAfterReject(s.authors, AuthorKey, id, w);
    }
  }

  /** `removeAuthor` of an id no record has returns nothing and leaves the store as it was. */
  lemma RemoveAuthorNoMatch(s: Store, id: Id)
    requires LookupAuthor(s, id).None?
    ensures RemoveAuthor(s, id).value == []
    ensures RemoveAuthor(s, id).store == s
  {
    Lodash.RejectNoMatch(s.authors, AuthorKey, id);
  }

  /** In a well-formed store `removeAuthor` drops at most one record and keeps ids unique. */
  lemma RemoveAuthorWellFormed(s: Store, id: Id)
    requires WellFormed(s)
    ensures |RemoveAuthor(s, id).value| <= 1
    ensures WellFormed(RemoveAuthor(s, id).store)
  {
    Lodash.FilterUniqueAtMostOne(s.authors, AuthorKey, id);
    Lodash.RejectUnique(s.authors, AuthorKey, id);
  }

  /** The records `removeAuthor` leaves behind stay in their original relative order. */
  lemma RemoveAuthorKeepsOrder(s: Store, id: Id, i: nat, j: nat)
    requires i < j < |s.authors| && s.authors[i].id != id && s.authors[j].id != id
    ensures var rest := RemoveAuthor(s, id).store.authors;
      exists p, q :: 0 <= p < q < |rest| && rest[p] == s.authors[i] && rest[q] == s.authors[j]
  {
    Lodash.RejectKeepsOrder(s.authors, AuthorKey, id, i, j);
  }

  /**
   * After a successful `updateAuthor(id, …)` a lookup by `id` finds the updated
   * record, and a lookup by any other id finds what it found before.
   */
  lemma UpdateAuthorThenLookup(s: Store, id: Id, name: string, w: Id)
    requires UpdateAuthor(s, id, name).Ok?
    ensures var r := UpdateAuthor(s, id, name).value;
      LookupAuthor(r.store, w) == if w == id then Some(r.value) else LookupAuthor(s, w)
  {
    var r := UpdateAuthor(s, id, name).value;
    var i :| Lodash.IsFirstMatch(s.authors, AuthorKey, id, i) && r.value == s.authors[i].(name := name)
             && r.store.authors == s.authors[i := r.value];
    if w == id {
      Lodash.FindAfterSet(s.authors, AuthorKey, id, i, r.value);
    } else {
      Lodash.FindAfterSetOther(s.authors, AuthorKey, w, i, r.value);
    }
  }

  /** A successful `updateAuthor` keeps ids unique. */
  lemma UpdateAuthorWellFormed(s: Store, id: Id, name: string)
    requires WellFormed(s)
    requires UpdateAuthor(s, id, name).Ok?
    ensures WellFormed(UpdateAuthor(s, id, name).value.store)
  {
    var r := UpdateAuthor(s, id, name).value;
    var i :| Lodash.IsFirstMatch(s.authors, AuthorKey, id, i) && r.value == s.authors[i].(name := name)
             && r.store.authors == s.authors[i := r.value];
    Lodash.SetUnique(s.authors, AuthorKey, i, r.value);
  }

  // Lemmas about the `truths` mutations

  /**
   * After `addTruth`, a lookup by a fresh id finds the new record; a reused id
   * keeps finding the older record, and every other id finds what it found before.
   */
  lemma AddTruthThenLookup(s: Store, text: string, authorId: Id, newId: Id, id: Id)
    ensures LookupTruth(AddTruth(s, text, authorId, newId).store, id) ==
      if id == newId && LookupTruth(s, id).None? then Some(AddTruth(s, text, authorId, newId).value) else LookupTruth(s, id)
  {
    var r := AddTruth(s, text, authorId, newId);
    assert r.store.truths == s.truths + [r.value];
    Lodash.FindAppend(s.truths, r.value, TruthKey, id);
  }

  /** `addTruth` keeps ids unique exactly when the supplied id is fresh. */
  lemma AddTruthWellFormed(s: Store, text: string, authorId: Id, newId: Id)
    requires WellFormed(s)
    ensures WellFormed(AddTruth(s, text, authorId, newId).store) <==> LookupTruth(s, newId).None?
  {
    var r := AddTruth(s, text, authorId, newId);
    assert r.store.truths == s.truths + [r.value];
    Lodash.AppendUnique(s.truths, r.value, TruthKey);
  }

  /**
   * After `removeTruth(id)` nothing is found by `id`, and a lookup by any other
   * id finds what it found before.
   */
  lemma RemoveTruthThenLookup(s: Store, id: Id, w: Id)
    ensures LookupTruth(RemoveTruth(s, id).store, w) == if w == id then None else LookupTruth(s, w)
  {
    if w != id {
      Lodash.FindAfterReject(s.truths, TruthKey, id, w);
    }
  }

  /** `removeTruth` of an id no record has returns nothing and leaves the store as it was. */
  lemma RemoveTruthNoMatch(s: Store, id: Id)
    requires LookupTruth(s, id).None?
    ensures RemoveTruth(s, id).value == []
    ensures RemoveTruth(s, id).store == s
  {
    Lodash.RejectNoMatch(s.truths, TruthKey, id);
  }

  /** In a well-formed store `removeTruth` drops at most one record and keeps ids unique. */
  lemma RemoveTruthWellFormed(s: Store, id: Id)
    requires WellFormed(s)
    ensures |RemoveTruth(s, id).value| <= 1
    ensures WellFormed(RemoveTruth(s, id).store)
  {
    Lodash.FilterUniqueAtMostOne(s.truths, TruthKey, id);
    Lodash.RejectUnique(s.truths, TruthKey, id);
  }

  /** The records `removeTruth` leaves behind stay in their original relative order. */
  lemma RemoveTruthKeepsOrder(s: Store, id: Id, i: nat, j: nat)
    requires i < j < |s.truths| && s.truths[i].id != id && s.truths[j].id != id
    ensures var rest := RemoveTruth(s, id).store.truths;
      exists p, q :: 0 <= p < q < |rest| && rest[p] == s.truths[i] && rest[q] == s.truths[j]
  {
    Lodash.RejectKeepsOrder(s.truths, TruthKey, id, i, j);
  }

  /**
   * After a successful `updateTruth(id, …)` a lookup by `id` finds the updated
   * record, and a lookup by any other id finds what it found before.
   */
  lemma UpdateTruthThenLookup(s: Store, id: Id, text: string, w: Id)
    requires UpdateTruth(s, id, text).Ok?
    ensures var r := UpdateTruth(s, id, text).value;
      LookupTruth(r.store, w) == if w == id then Some(r.value) else LookupTruth(s, w)
  {
    var r := UpdateTruth(s, id, text).value;
    var i :| Lodash.IsFirstMatch(s.truths, TruthKey, id, i) && r.value == s.truths[i].(truth := text)
             && r.store.truths == s.truths[i := r.value];
    if w == id {
      Lodash.FindAfterSet(s.truths, TruthKey, id, i, r.value);
    } else {
      Lodash.FindAfterSetOther(s.truths, TruthKey, w, i, r.value);
    }
  }

  /** A successful `updateTruth` keeps ids unique. */
  lemma UpdateTruthWellFormed(s: Store, id: Id, text: string)
    requires WellFormed(s)
    requires UpdateTruth(s, id, text).Ok?
    ensures WellFormed(UpdateTruth(s, id, text).value.store)
  {
    var r := UpdateTruth(s, id, text).value;
    var i :| Lodash.IsFirstMatch(s.truths, TruthKey, id, i) && r.value == s.truths[i].(truth := text)
             && r.store.truths == s.truths[i := r.value];
    Lodash.SetUnique(s.truths, TruthKey, i, r.value);
  }

  // Lemmas about the `dares` mutations

  /**
   * After `addDare`, a lookup by a fresh id finds the new record; a reused id
   * keeps finding the older record, and every other id finds what it found before.
   */
  lemma AddDareThenLookup(s: Store, text: string, authorId: Id, newId: Id, id: Id)
    ensures LookupDare(AddDare(s, text, authorId, newId).store, id) ==
      if id == newId && LookupDare(s, id).None? then Some(AddDare(s, text, authorId, newId).value) else LookupDare(s, id)
  {
    var r := AddDare(s, text, authorId, newId);
    assert r.store.dares == s.dares + [r.value];
    Lodash.FindAppend(s.dares, r.value, DareKey, id);
  }

  /** `addDare` keeps ids unique exactly when the supplied id is fresh. */
  lemma AddDareWellFormed(s: Store, text: string, authorId: Id, newId: Id)
    requires WellFormed(s)
    ensures WellFormed(AddDare(s, text, authorId, newId).store) <==> LookupDare(s, newId).None?
  {
    var r := AddDare(s, text, authorId, newId);
    assert r.store.dares == s.dares + [r.value];
    Lodash.AppendUnique(s.dares, r.value, DareKey);
  }

  /**
   * After `removeDare(id)` nothing is found by `id`, and a lookup by any other
   * id finds what it found before.
   */
  lemma RemoveDareThenLookup(s: Store, id: Id, w: Id)
    ensures LookupDare(RemoveDare(s, id).store, w) == if w == id then None else LookupDare(s, w)
  {
    if w != id {
      Lodash.FindAfterReject(s.dares, DareKey, id, w);
    }
  }

  /** `removeDare` of an id no record has returns nothing and leaves the store as it was. */
  lemma RemoveDareNoMatch(s: Store, id: Id)
    requires LookupDare(s, id).None?
    ensures RemoveDare(s, id).value == []
    ensures RemoveDare(s, id).store == s
  {
    Lodash.RejectNoMatch(s.dares, DareKey, id);
  }

  /** In a well-formed store `removeDare` drops at most one record and keeps ids unique. */
  lemma RemoveDareWellFormed(s: Store, id: Id)
    requires WellFormed(s)
    ensures |RemoveDare(s, id).value| <= 1
    ensures WellFormed(RemoveDare(s, id).store)
  {
    Lodash.FilterUniqueAtMostOne(s.dares, DareKey, id);
    Lodash.RejectUnique(s.dares, DareKey, id);
  }

  /** The records `removeDare` leaves behind stay in their original relative order. */
  lemma RemoveDareKeepsOrder(s: Store, id: Id, i: nat, j: nat)
    requires i < j < |s.dares| && s.dares[i].id != id && s.dares[j].id != id
    ensures var rest := RemoveDare(s, id).store.dares;
      exists p, q :: 0 <= p < q < |rest| && rest[p] == s.dares[i] && rest[q] == s.dares[j]
  {
    Lodash.RejectKeepsOrder(s.dares, DareKey, id, i, j);
  }

  /**
   * After a successful `updateDare(id, …)` a lookup by `id` finds the updated
   * record, and a lookup by any other id finds what it found before.
   */
  lemma UpdateDareThenLookup(s: Store, id: Id, text: string, w: Id)
    requires UpdateDare(s, id, text).Ok?
    ensures var r := UpdateDare(s, id, text).value;
      LookupDare(r.store, w) == if w == id then Some(r.value) else LookupDare(s, w)
  {
    var r := UpdateDare(s, id, text).value;
    var i :| Lodash.IsFirstMatch(s.dares, DareKey, id, i) && r.value == s.dares[i].(dare := text)
             && r.store.dares == s.dares[i := r.value];
    if w == id {
      Lodash.FindAfterSet(s.dares, DareKey, id, i, r.value);
    } else {
      Lodash.FindAfterSetOther(s.dares, DareKey, w, i, r.value);
    }
  }

  /** A successful `updateDare` keeps ids unique. */
  lemma UpdateDareWellFormed(s: Store, id: Id, text: string)
    requires WellFormed(s)
    requires UpdateDare(s, id, text).Ok?
    ensures WellFormed(UpdateDare(s, id, text).value.store)
  {
    var r := UpdateDare(s, id, text).value;
    var i :| Lodash.IsFirstMatch(s.dares, DareKey, id, i) && r.value == s.dares[i].(dare := text)
             && r.store.dares == s.dares[i := r.value];
    Lodash.SetUnique(s.dares, DareKey, i, r.value);
  }

  // Joins after adding a truth or dare, and orphans after removing an author

  /**
   * `addTruth` extends the `truths` field of the named author (and of no other
   * author) at its end; the new truth's `author` is whatever the foreign key
   * finds, possibly nothing.
   */
  lemma AddTruthJoins(s: Store, text: string, authorId: Id, newId: Id, a: Author)
    ensures var r := AddTruth(s, text, authorId, newId);
      && AuthorTruths(r.store, a) == AuthorTruths(s, a) + (if authorId == a.id then [r.value] else [])
      && TruthAuthor(r.store, r.value) == LookupAuthor(s, authorId)
  {
    var r := AddTruth(s, text, authorId, newId);
    assert r.store.truths == s.truths + [r.value];
    Lodash.FilterConcat(s.truths, [r.value], TruthOwner, a.id);
    assert Lodash.Filter([r.value], TruthOwner, a.id) == if authorId == a.id then [r.value] else [];
  }

  /**
   * `addDare` extends the `dares` field of the named author (and of no other
   * author) at its end; the new dare's `author` is whatever the foreign key
   * finds, possibly nothing.
   */
  lemma AddDareJoins(s: Store, text: string, authorId: Id, newId: Id, a: Author)
    ensures var r := AddDare(s, text, authorId, newId);
      && AuthorDares(r.store, a) == AuthorDares(s, a) + (if authorId == a.id then [r.value] else [])
      && DareAuthor(r.store, r.value) == LookupAuthor(s, authorId)
  {
    var r := AddDare(s, text, authorId, newId);
    assert r.store.dares == s.dares + [r.value];
    Lodash.FilterConcat(s.dares, [r.value], DareOwner, a.id);
    assert Lodash.Filter([r.value], DareOwner, a.id) == if authorId == a.id then [r.value] else [];
  }

  /**
   * `removeAuthor` does not cascade: every truth and dare stays, and those that
   * named the removed author now resolve to no author.
   */
  lemma RemoveAuthorOrphans(s: Store, id: Id)
    ensures var after := RemoveAuthor(s, id).store;
      && after.truths == s.truths && after.dares == s.dares
      && (forall t :: t in s.truths && t.authorId == id ==> TruthAuthor(after, t).None?)
      && (forall d :: d in s.dares && d.authorId == id ==> DareAuthor(after, d).None?)
  {
  }
}
