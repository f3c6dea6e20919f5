/** The document store, one table at a time: documents kept in insertion
    order, with insert, all (the `records` field) and purge. */
module Store {

  class Table<T> {
    /** The stored documents, oldest first, as `all()` returns them. */
    var records: seq<T>

    constructor ()
      ensures records == []
    {
      records := [];
    }

    /** `insert(doc)`: append one document. */
    method Insert(doc: T)
      modifies this
      ensures records == old(records) + [doc]
    {
      records := records + [doc];
    }

    /** `purge()`: remove every document. */
    method Purge()
      modifies this
      ensures records == []
    {
      records := [];
    }
  }
}
