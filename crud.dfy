/** What the two services do to one document of their collection, stated
    on the collection's contents: the target of an add, a read by id, and
    the contents after an update or a delete. The service classes change
    their collection as these functions say. */
module Crud {
  import opened Values

  /** `{ id, message }`, the answer of a delete. */
  datatype Deleted = Deleted(id: Id, message: string)

  /** A collection never holds a document under the empty id, since
      `doc("")` is refused and generated ids are never empty. */
  predicate StoreValid(docs: map<Id, Doc>)
  {
    "" !in docs
  }

  /** `if (data.id)`: a truthy id names the document that `set` writes (an
      id that is not a string is refused by `doc`); otherwise `add` writes
      under the id the store generates. */
  function AddTarget(data: Doc, autoId: Id): (r: Result<Id>)
    ensures r.Err? <==> Truthy(Field(data, "id")) && !Field(data, "id").value.Str?
    ensures r.Err? ==> r.error == InvalidDocumentId
    ensures r.Ok? && Truthy(Field(data, "id")) ==> Field(data, "id") == Some(Str(r.value))
    ensures r.Ok? && !Truthy(Field(data, "id")) ==> r.value == autoId
  {
    if !Truthy(Field(data, "id")) then Ok(autoId)
    else if data["id"].Str? then Ok(data["id"].s)
    else Err(InvalidDocumentId)
  }

  /** `doc(id).get()`, the existence check and `{ id: doc.id, ...doc.data() }`. */
  function ReadRecord(docs: map<Id, Doc>, id: Id, missing: Error): (r: Result<Doc>)
    ensures r.Ok? <==> id != "" && id in docs
    ensures r.Err? ==> r.error == if id == "" then InvalidDocumentId else missing
    ensures r.Ok? ==> r.value.Keys == docs[id].Keys + {"id"}
    ensures r.Ok? ==> forall k :: k in docs[id] ==> r.value[k] == docs[id][k]
  {
    if id == "" then Err(InvalidDocumentId)
    else if id !in docs then Err(missing)
    else Ok(WithId(id, docs[id]))
  }

  /** The checks of an update, in the order they fail: the id, the
      existence of the document, then the patch. */
  function UpdateCheck(docs: map<Id, Doc>, id: Id, patch: Doc, missing: Error): (r: Option<Error>)
    ensures r.None? <==> id != "" && id in docs && patch != map[]
    ensures id == "" ==> r == Some(InvalidDocumentId)
    ensures id != "" && id !in docs ==> r == Some(missing)
  {
    if id == "" then Some(InvalidDocumentId)
    else if id !in docs then Some(missing)
    else if patch == map[] then Some(EmptyUpdate)
    else None
  }

  /** The checks of a delete: the id, then the existence of the document. */
  function DeleteCheck(docs: map<Id, Doc>, id: Id, missing: Error): (r: Option<Error>)
    ensures r.None? <==> id != "" && id in docs
    ensures id == "" ==> r == Some(InvalidDocumentId)
    ensures id != "" && id !in docs ==> r == Some(missing)
  {
    if id == "" then Some(InvalidDocumentId)
    else if id !in docs then Some(missing)
    else None
  }

  // ------------------------------------------------------------ properties

  /** An add that succeeds writes a document that a read by the same id
      finds, with the record the add returned; a fresh generated id keeps
      the collection valid. */
  lemma AddThenRead(docs: map<Id, Doc>, data: Doc, autoId: Id, missing: Error)
    requires StoreValid(docs) && autoId != ""
    ensures AddTarget(data, autoId).Ok? ==>
              var t := AddTarget(data, autoId).value;
              && StoreValid(docs[t := data])
              && ReadRecord(docs[t := data], t, missing) == Ok(WithId(t, data))
    ensures AddTarget(data, autoId).Err? <==> Truthy(Field(data, "id")) && !data["id"].Str?
  {
    if AddTarget(data, autoId).Ok? {
      var t := AddTarget(data, autoId).value;
      assert t != "";
    }
  }

  /** The record an add returns carries the id of the written document,
      unless the data holds a falsy "id" (an empty string, null, false or
      0): the spread then overwrites the generated id with that value. */
  lemma AddedRecordId(data: Doc, autoId: Id)
    requires autoId != ""
    requires AddTarget(data, autoId).Ok?
    ensures var t := AddTarget(data, autoId).value;
            WithId(t, data)["id"] == Str(t) <==> !("id" in data && !Truthy(Some(data["id"])))
  {
  }

  /** A read answers the document's fields under their own names, with the
      document id under "id" unless the document has an "id" field. */
  lemma ReadRecordFields(docs: map<Id, Doc>, id: Id, missing: Error)
    ensures ReadRecord(docs, id, missing).Ok? <==> id != "" && id in docs
    ensures ReadRecord(docs, id, missing).Err? ==>
              ReadRecord(docs, id, missing).error == if id == "" then InvalidDocumentId else missing
    ensures ReadRecord(docs, id, missing).Ok? ==>
              var r := ReadRecord(docs, id, missing).value;
              && r.Keys == docs[id].Keys + {"id"}
              && (forall k :: k in docs[id] ==> r[k] == docs[id][k])
              && ("id" !in docs[id] ==> r["id"] == Str(id))
  {
  }

  /** After an update the document reads back with every patched field set
      to its new value and every other field as before. */
  lemma UpdateThenRead(docs: map<Id, Doc>, id: Id, patch: Doc, missing: Error)
    requires UpdateCheck(docs, id, patch, missing) == None
    ensures var after := docs[id := Merge(docs[id], patch)];
            && ReadRecord(after, id, missing).Ok?
            && (forall k :: k in patch ==> ReadRecord(after, id, missing).value[k] == patch[k])
            && (forall k :: k in docs[id] && k !in patch ==>
                  ReadRecord(after, id, missing).value[k] == docs[id][k])
    ensures StoreValid(docs) ==> StoreValid(docs[id := Merge(docs[id], patch)])
  {
  }

  /** After a delete the document is gone: a read reports it missing, and
      a second delete fails. */
  lemma DeleteThenRead(docs: map<Id, Doc>, id: Id, missing: Error)
    requires DeleteCheck(docs, id, missing) == None
    ensures ReadRecord(docs - {id}, id, missing) == Err(missing)
    ensures DeleteCheck(docs - {id}, id, missing) == Some(missing)
    ensures forall other :: other != id ==>
              ReadRecord(docs - {id}, other, missing) == ReadRecord(docs, other, missing)
  {
  }
}
