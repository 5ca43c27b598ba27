/** The document store: one map per collection of documents, keyed by `_id`.
 *
 *  `links` is the collection_notes collection (membership rows) and `shares`
 *  the shared_notes collection (grants). The CRUD modules change these maps
 *  one write at a time, as the source issues its store calls.
 */
module Database {
  import opened Ids
  import opened Documents
  import opened Consistency

  class Store {
    var users: map<Oid, User>
    var notes: map<Oid, Note>
    var tags: map<Oid, Tag>
    var collections: map<Oid, Collection>
    var links: map<Oid, Link>
    var shares: map<Oid, Share>

    /** An empty database. */
    constructor ()
      ensures users == map[] && notes == map[] && tags == map[]
      ensures collections == map[] && links == map[] && shares == map[]
      ensures Consistent()
    {
      users, notes, tags := map[], map[], map[];
      collections, links, shares := map[], map[], map[];
    }

    /** Every document is stored under its own `_id`, and every cross-document
        condition holds. */
    ghost predicate Consistent()
      reads this
    {
      StoreConsistent(users, notes, tags, collections, links, shares)
    }
  }
}
