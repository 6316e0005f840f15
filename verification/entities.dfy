/**
 * The three in-memory collections behind the GraphQL schema, held as one
 * explicit store value instead of module-level arrays.
 */
module Entities {
  import Lodash

  /** A GraphQL `ID`; the resolvers only ever compare ids for string equality. */
  type Id = string

  datatype Author = Author(id: Id, name: string)

  /** A truth prompt; `authorId` is a foreign key into the authors, never checked. */
  datatype Truth = Truth(id: Id, truth: string, authorId: Id)

  /** A dare prompt; `authorId` is a foreign key into the authors, never checked. */
  datatype Dare = Dare(id: Id, dare: string, authorId: Id)

  /** Each collection is ordered: insertion order is the order the queries return. */
  datatype Store = Store(authors: seq<Author>, truths: seq<Truth>, dares: seq<Dare>)

  // The fields the lodash matchers `{ id: … }` and `{ authorId: … }` look at.
  function AuthorKey(a: Author): Id { a.id }
  function TruthKey(t: Truth): Id { t.id }
  function DareKey(d: Dare): Id { d.id }
  function TruthOwner(t: Truth): Id { t.authorId }
  function DareOwner(d: Dare): Id { d.authorId }

  /**
   * Ids are unique within each collection. The source never checks this; it
   * holds of the seed data and is kept by mutations given fresh ids.
   * Foreign keys are deliberately NOT required to resolve.
   */
  ghost predicate WellFormed(s: Store) {
    && Lodash.UniqueKeys(s.authors, AuthorKey)
    && Lodash.UniqueKeys(s.truths, TruthKey)
    && Lodash.UniqueKeys(s.dares, DareKey)
  }

  /** The data the process starts with (and returns to on every restart). */
  function Seed(): Store {
    Store(
      [ Author("1", "Eduardo Landa"),
        Author("2", "Gianlucci Minarelli") ],
      [ Truth("1", "Do you like someone on this place?", "1"),
        Truth("2", "Who would you date on this place?", "1") ],
      [ Dare("1", "Buy a drink for someone you like in the table", "2"),
        Dare("2", "Drink a shot of alcohol", "2") ])
  }
}
