/**
 * Read-only resolvers: the relationship fields of the `Author`, `Truth` and
 * `Dare` object types, and the root query fields.
 */
module Resolvers {
  import opened Wrappers
  import opened Entities
  import Lodash

  /** `_.find(authors, { id })`: the first author with that id, if any. */
  function LookupAuthor(s: Store, id: Id): (r: Option<Author>)
    ensures r.None? <==> forall i :: 0 <= i < |s.authors| ==> s.authors[i].id != id
    ensures r.Some? ==> exists i :: Lodash.IsFirstMatch(s.authors, AuthorKey, id, i) && r.value == s.authors[i]
  {
    Lodash.Find(s.authors, AuthorKey, id)
  }

  /** `_.find(truths, { id })`: the first truth with that id, if any. */
  function LookupTruth(s: Store, id: Id): (r: Option<Truth>)
    ensures r.None? <==> forall i :: 0 <= i < |s.truths| ==> s.truths[i].id != id
    ensures r.Some? ==> exists i :: Lodash.IsFirstMatch(s.truths, TruthKey, id, i) && r.value == s.truths[i]
  {
    Lodash.Find(s.truths, TruthKey, id)
  }

  /** `_.find(dares, { id })`: the first dare with that id, if any. */
  function LookupDare(s: Store, id: Id): (r: Option<Dare>)
    ensures r.None? <==> forall i :: 0 <= i < |s.dares| ==> s.dares[i].id != id
    ensures r.Some? ==> exists i :: Lodash.IsFirstMatch(s.dares, DareKey, id, i) && r.value == s.dares[i]
  {
    Lodash.Find(s.dares, DareKey, id)
  }

  // Relationship fields

  /** `Truth.author`: the author the truth's foreign key names; none when it dangles. */
  function TruthAuthor(s: Store, t: Truth): (r: Option<Author>)
    ensures r.Some? ==> r.value in s.authors && r.value.id == t.authorId
    ensures r.None? <==> forall a :: a in s.authors ==> a.id != t.authorId
  {
    LookupAuthor(s, t.authorId)
  }

  /** `Dare.author`: the author the dare's foreign key names; none when it dangles. */
  function DareAuthor(s: Store, d: Dare): (r: Option<Author>)
    ensures r.Some? ==> r.value in s.authors && r.value.id == d.authorId
    ensures r.None? <==> forall a :: a in s.authors ==> a.id != d.authorId
  {
    LookupAuthor(s, d.authorId)
  }

  /** `Author.truths`: every truth whose foreign key is the author's id, in collection order. */
  function AuthorTruths(s: Store, a: Author): (r: seq<Truth>)
    ensures forall t :: t in r <==> t in s.truths && t.authorId == a.id
  {
    Lodash.Filter(s.truths, TruthOwner, a.id)
  }

  /** `Author.dares`: every dare whose foreign key is the author's id, in collection order. */
  function AuthorDares(s: Store, a: Author): (r: seq<Dare>)
    ensures forall d :: d in r <==> d in s.dares && d.authorId == a.id
  {
    Lodash.Filter(s.dares, DareOwner, a.id)
  }

  // Root query fields. Their `id` argument is a nullable `ID`: when it is
  // absent (or null) the lodash matcher compares against `undefined` (or
  // `null`), which no stored id equals, so nothing is found.

  /** Root `author(id)`. */
  function QueryAuthor(s: Store, id: Option<Id>): (r: Option<Author>)
    ensures r.None? <==> id.None? || forall a :: a in s.authors ==> a.id != id.value
    ensures r.Some? ==> r.value in s.authors && r.value.id == id.value
  {
    match id
    case None => None
    case Some(v) => LookupAuthor(s, v)
  }

  /** Root `truth(id)`. */
  function QueryTruth(s: Store, id: Option<Id>): (r: Option<Truth>)
    ensures r.None? <==> id.None? || forall t :: t in s.truths ==> t.id != id.value
    ensures r.Some? ==> r.value in s.truths && r.value.id == id.value
  {
    match id
    case None => None
    case Some(v) => LookupTruth(s, v)
  }

  /** Root `dare(id)`. */
  function QueryDare(s: Store, id: Option<Id>): (r: Option<Dare>)
    ensures r.None? <==> id.None? || forall d :: d in s.dares ==> d.id != id.value
    ensures r.Some? ==> r.value in s.dares && r.value.id == id.value
  {
    match id
    case None => None
    case Some(v) => LookupDare(s, v)
  }

  /** Root `authors`: the whole collection, in insertion order. */
  function QueryAuthors(s: Store): seq<Author> { s.authors }

  /** Root `truths`: the whole collection, in insertion order. */
  function QueryTruths(s: Store): seq<Truth> { s.truths }

  /** Root `dares`: the whole collection, in insertion order. */
  function QueryDares(s: Store): seq<Dare> { s.dares }

  /** A dare is found by id exactly when the `dares` listing holds a dare with that id. */
  lemma ListedIffFound(s: Store, id: Id)
    ensures QueryDare(s, Some(id)).Some? <==> exists d :: d in QueryDares(s) && d.id == id
    ensures QueryTruth(s, Some(id)).Some? <==> exists t :: t in QueryTruths(s) && t.id == id
    ensures QueryAuthor(s, Some(id)).Some? <==> exists a :: a in QueryAuthors(s) && a.id == id
  {
  }

  /** In a well-formed store each record is what a lookup by its own id returns. */
  lemma LookupOwnId(s: Store)
    requires WellFormed(s)
    ensures forall i :: 0 <= i < |s.authors| ==> LookupAuthor(s, s.authors[i].id) == Some(s.authors[i])
    ensures forall i :: 0 <= i < |s.truths| ==> LookupTruth(s, s.truths[i].id) == Some(s.truths[i])
    ensures forall i :: 0 <= i < |s.dares| ==> LookupDare(s, s.dares[i].id) == Some(s.dares[i])
  {
    forall i | 0 <= i < |s.authors| ensures LookupAuthor(s, s.authors[i].id) == Some(s.authors[i]) {
      Lodash.FindUnique(s.authors, AuthorKey, i);
    }
    forall i | 0 <= i < |s.truths| ensures LookupTruth(s, s.truths[i].id) == Some(s.truths[i]) {
      Lodash.FindUnique(s.truths, TruthKey, i);
    }
    forall i | 0 <= i < |s.dares| ensures LookupDare(s, s.dares[i].id) == Some(s.dares[i]) {
      Lodash.FindUnique(s.dares, DareKey, i);
    }
  }

  /**
   * In a well-formed store, a dare whose foreign key is author `a`'s id occurs
   * exactly once in `a`'s `dares` field, and `a` is that dare's `author`.
   */
  lemma DareAuthorRoundTrip(s: Store, a: Author, k: nat)
    requires WellFormed(s)
    requires a in s.authors
    requires k < |s.dares| && s.dares[k].authorId == a.id
    ensures multiset(AuthorDares(s, a))[s.dares[k]] == 1
    ensures DareAuthor(s, s.dares[k]) == Some(a)
  {
    Lodash.FilterCount(s.dares, DareOwner, a.id, s.dares[k]);
    Lodash.UniqueOccursOnce(s.dares, DareKey, k);
    var i :| 0 <= i < |s.authors| && s.authors[i] == a;
    Lodash.FindUnique(s.authors, AuthorKey, i);
  }

  /**
   * In a well-formed store, a truth whose foreign key is author `a`'s id occurs
   * exactly once in `a`'s `truths` field, and `a` is that truth's `author`.
   */
  lemma TruthAuthorRoundTrip(s: Store, a: Author, k: nat)
    requires WellFormed(s)
    requires a in s.authors
    requires k < |s.truths| && s.truths[k].authorId == a.id
    ensures multiset(AuthorTruths(s, a))[s.truths[k]] == 1
    ensures TruthAuthor(s, s.truths[k]) == Some(a)
  {
    Lodash.FilterCount(s.truths, TruthOwner, a.id, s.truths[k]);
    Lodash.UniqueOccursOnce(s.truths, TruthKey, k);
    var i :| 0 <= i < |s.authors| && s.authors[i] == a;
    Lodash.FindUnique(s.authors, AuthorKey, i);
  }

  /**
   * `Author.dares` holds each matching dare as often as the collection does,
   * and no other dare; matching dares keep their collection order.
   */
  lemma AuthorDaresExact(s: Store, a: Author, d: Dare)
    ensures multiset(AuthorDares(s, a))[d] == if d.authorId == a.id then multiset(s.dares)[d] else 0
  {
    Lodash.FilterCount(s.dares, DareOwner, a.id, d);
  }

  /** Two dares of author `a` appear in `a`'s `dares` field in collection order. */
  lemma AuthorDaresKeepOrder(s: Store, a: Author, i: nat, j: nat)
    requires i < j < |s.dares| && s.dares[i].authorId == a.id && s.dares[j].authorId == a.id
    ensures var r := AuthorDares(s, a);
      exists p, q :: 0 <= p < q < |r| && r[p] == s.dares[i] && r[q] == s.dares[j]
  {
    assert AuthorDares(s, a) == Lodash.Filter(s.dares, DareOwner, a.id);
    Lodash.FilterKeepsOrder(s.dares, DareOwner, a.id, i, j);
  }

  /**
   * `Author.truths` holds each matching truth as often as the collection does,
   * and no other truth; matching truths keep their collection order.
   */
  lemma AuthorTruthsExact(s: Store, a: Author, t: Truth)
    ensures multiset(AuthorTruths(s, a))[t] == if t.authorId == a.id then multiset(s.truths)[t] else 0
  {
    Lodash.FilterCount(s.truths, TruthOwner, a.id, t);
  }

  /** Two truths of author `a` appear in `a`'s `truths` field in collection order. */
  lemma AuthorTruthsKeepOrder(s: Store, a: Author, i: nat, j: nat)
    requires i < j < |s.truths| && s.truths[i].authorId == a.id && s.truths[j].authorId == a.id
    ensures var r := AuthorTruths(s, a);
      exists p, q :: 0 <= p < q < |r| && r[p] == s.truths[i] && r[q] == s.truths[j]
  {
    assert AuthorTruths(s, a) == Lodash.Filter(s.truths, TruthOwner, a.id);
    Lodash.FilterKeepsOrder(s.truths, TruthOwner, a.id, i, j);
  }
}
