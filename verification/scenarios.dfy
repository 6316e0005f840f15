/** Concrete runs of the resolvers against the seed data. */
module Scenarios {
  import opened Wrappers
  import opened Entities
  import opened Resolvers
  import opened Mutations

  /** The seed data has unique ids in every collection. */
  lemma SeedWellFormed()
    ensures WellFormed(Seed())
  {
  }

  /** `author(id: "1") { truths { truth } }` lists both of the first author's truths, in order. */
  lemma SeedFirstAuthorTruths()
    ensures QueryAuthor(Seed(), Some("1")) == Some(Author("1", "Eduardo Landa"))
    ensures AuthorTruths(Seed(), Author("1", "Eduardo Landa")) == Seed().truths
    ensures AuthorDares(Seed(), Author("1", "Eduardo Landa")) == []
  {
    var s := Seed();
    assert s.truths[1..][1..] == [];
    assert s.dares[1..][1..] == [];
  }

  /** Each seed dare's `author` is the second author. */
  lemma SeedDareAuthors()
    ensures forall d :: d in Seed().dares ==> DareAuthor(Seed(), d) == Some(Author("2", "Gianlucci Minarelli"))
  {
    var s := Seed();
    assert Lodash.IsFirstMatch(s.authors, AuthorKey, "2", 1);
  }

  /** `addAuthor(name: "X")` with an id other than "1" and "2" adds one author named "X" at the end. */
  lemma SeedAddAuthor(newId: Id)
    requires newId != "1" && newId != "2"
    ensures var r := AddAuthor(Seed(), "X", newId);
      && r.store.authors == Seed().authors + [Author(newId, "X")]
      && QueryAuthor(r.store, Some(newId)) == Some(Author(newId, "X"))
      && WellFormed(r.store)
  {
    AddAuthorThenLookup(Seed(), "X", newId, newId);
    AddAuthorWellFormed(Seed(), "X", newId);
  }

  /** `removeDare(id: "2")` returns the removed dare and leaves the first one. */
  lemma SeedRemoveDare()
    ensures var r := RemoveDare(Seed(), "2");
      && r.value == [Seed().dares[1]]
      && r.store.dares == [Seed().dares[0]]
      && QueryDare(r.store, Some("2")).None?
  {
    var s := Seed();
    assert s.dares[1..][1..] == [];
  }

  /** `updateTruth(id: "999", …)` reaches the fault the source raises on a missing id. */
  lemma SeedUpdateMissingTruth()
    ensures UpdateTruth(Seed(), "999", "x") == Err(NotFound("999"))
  {
  }

  /** `updateTruth(id: "2", …)` rewrites only the text of the second truth. */
  lemma SeedUpdateTruth()
    ensures var r := UpdateTruth(Seed(), "2", "x");
      && r == Ok(Response(Seed().(truths := [Seed().truths[0], Truth("2", "x", "1")]), Truth("2", "x", "1")))
  {
    var s := Seed();
    assert s.truths[1..][0].id == "2";
    assert Lodash.FindIndex(s.truths, TruthKey, "2") == Some(1);
    assert s.truths[1 := Truth("2", "x", "1")] == [s.truths[0], Truth("2", "x", "1")];
  }
}
