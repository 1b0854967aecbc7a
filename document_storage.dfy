/** The document store as the server holds it: one object whose two fields are
    the module-level `documents` array and `documentIndexMap` index, updated in
    place by `insert`, `delete` and `update`. The reads `get`, `getAll` and
    `length` change nothing; they are the functions `DocumentModel.Get`,
    `DocumentModel.GetAll` and `DocumentModel.Length` of `State()`. */
module DocumentStorage {
  import opened DocumentModel

  class DocumentStore {
    var documents: seq<Slot>
    var index: map<int, nat>

    /** The fields as a value of the model. */
    function State(): Store
      reads this
    {
      Store(documents, index)
    }

    /** The store as the module is loaded: eight records, indexed 0 to 7. */
    constructor ()
      ensures State() == Initial()
      ensures Consistent(State())
    {
      documents := Initial().documents;
      index := Initial().index;
      InitialConsistent();
    }

    /** `insert(document)`. */
    method Insert(document: Doc) returns (ok: bool)
      modifies this
      ensures Step(State(), ok) == DocumentModel.Insert(old(State()), document)
      ensures ok <==> document.attachmentId !in old(index)
      ensures old(Consistent(State())) && ok ==>
                (Consistent(State()) <==> document.attachmentId == old(|documents|))
    {
      if document.attachmentId in index {
        return false;
      }
      if Consistent(State()) {
        InsertOutcome(State(), document);
      }
      index := index[|documents| := document.attachmentId];
      documents := documents + [Some(document)];
      return true;
    }

    /** `delete(id)`. */
    method Delete(id: int) returns (ok: bool)
      modifies this
      ensures Step(State(), ok) == DocumentModel.Delete(old(State()), id)
      ensures ok <==> id in old(index)
      ensures old(Consistent(State())) && ok ==>
                DocumentModel.Get(State(), id) == NotIndexed
                && (Consistent(State()) <==> old(index[id]) == old(|documents|) - 1)
    {
      if id !in index {
        return false;
      }
      if Consistent(State()) {
        DeleteOutcome(State(), id);
      }
      documents := Spliced(documents, index[id]);
      index := index - {id};
      return true;
    }

    /** `update(id, updatedDocument)`; the invariant is kept exactly when the
        new record carries `id`. */
    method Update(id: int, updatedDocument: Doc) returns (ok: bool)
      modifies this
      ensures Step(State(), ok) == DocumentModel.Update(old(State()), id, updatedDocument)
      ensures ok <==> id in old(index)
      ensures old(Consistent(State())) ==>
                (Consistent(State()) <==> !ok || updatedDocument.attachmentId == id)
      ensures old(Consistent(State())) && ok ==>
                DocumentModel.Get(State(), id) == Entry(Some(updatedDocument))
    {
      if id !in index {
        return false;
      }
      if Consistent(State()) {
        UpdateKeepsConsistent(State(), id, updatedDocument);
      }
      documents := Written(documents, index[id], updatedDocument);
      return true;
    }
  }
}
