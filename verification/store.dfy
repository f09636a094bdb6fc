/** The document store the loader writes into (a MongoDB database reached through a helper
    library). Each collection holds documents by their id value; the driver itself is outside
    this model, so two sets of collections, those whose reads fail and those whose writes fail,
    stand in for its errors. */
module Store {
  import opened Common
  import opened Json

  /** Collection name -> (id value -> document). */
  type Cols = map<string, map<string, Value>>

  /** The documents of `col`; a collection never written to is empty. */
  function Stored(cols: Cols, col: string): map<string, Value> {
    if col in cols then cols[col] else map[]
  }

  /** The store after collection `col` has come to hold `docs` (a collection that was never
      created stays absent while it is empty). */
  function Filled(cols: Cols, col: string, docs: map<string, Value>): (r: Cols)
    ensures Stored(r, col) == docs
    ensures forall c :: c != col ==> (c in r <==> c in cols) && (c in r ==> r[c] == cols[c])
    ensures docs == Stored(cols, col) ==> r == cols
  {
    if col !in cols && docs == map[] then cols else cols[col := docs]
  }

  /** A second write of a non-empty collection overrides the first. */
  lemma FilledTwice(cols: Cols, col: string, d1: map<string, Value>, d2: map<string, Value>)
    requires d2 != map[]
    ensures Filled(Filled(cols, col, d1), col, d2) == Filled(cols, col, d2)
  {
  }

  /** One database. */
  class Db {
    var cols: Cols
    const noRead: set<string>
    const noWrite: set<string>

    constructor (initial: Cols, unreadable: set<string>, unwritable: set<string>)
      ensures cols == initial && noRead == unreadable && noWrite == unwritable
    {
      cols := initial;
      noRead := unreadable;
      noWrite := unwritable;
    }

    /** mh.Upsert(file, idfield, id): the document read from the file replaces the one whose
        id field holds `id`, or is inserted; the driver refuses text that is not JSON. */
    method Upsert(col: string, id: string, text: string, lib: JsonLib) returns (ok: bool)
      modifies this
      ensures ok == (col !in noWrite && lib.valid(text))
      ensures cols == if ok then Filled(old(cols), col, Stored(old(cols), col)[id := lib.decode(text)]) else old(cols)
    {
      ok := col !in noWrite && lib.valid(text);
      if ok {
        var docs := Stored(cols, col)[id := lib.decode(text)];
        assert id in docs;
        cols := cols[col := docs];
      }
    }

    /** mh.ReplaceOneAt(field, id, doc): replaces an existing document and inserts nothing. */
    method Replace(col: string, id: string, doc: Value) returns (ok: bool)
      modifies this
      ensures ok == (col !in noWrite)
      ensures cols == if ok && id in Stored(old(cols), col) then old(cols)[col := old(cols)[col][id := doc]] else old(cols)
    {
      ok := col !in noWrite;
      if ok && id in Stored(cols, col) {
        cols := cols[col := cols[col][id := doc]];
      }
    }

    /** mh.DropCol: dropping a collection that does not exist succeeds. */
    method Drop(col: string) returns (ok: bool)
      modifies this
      ensures ok == (col !in noWrite)
      ensures cols == if ok then old(cols) - {col} else old(cols)
    {
      ok := col !in noWrite;
      if ok {
        cols := cols - {col};
      }
    }

    /** mh.FindOneAt / mh.Find: the documents of a collection. */
    method Find(col: string) returns (ok: bool, docs: map<string, Value>)
      ensures ok == (col !in noRead)
      ensures ok ==> docs == Stored(cols, col)
    {
      ok := col !in noRead;
      docs := if ok then Stored(cols, col) else map[];
    }
  }
}
