/** The JSON-like values that the document store and the cache hold, and the
    small vocabulary (Option, Result, errors, JavaScript truthiness) that the
    services share. */
module Values {

  datatype Option<+T> = None | Some(value: T)

  /** The services' thrown errors, one constructor per cause; the wording of
      the wrapped messages is not modelled. */
  datatype Error =
    | CollegeNotFound          // 'College not found'
    | CutoffNotFound           // 'Cutoff not found'
    | CursorNotFound           // startAfter on a snapshot of a document that does not exist
    | CursorMissingOrderField  // startAfter on a document that lacks the orderBy field
    | InvalidDocumentId        // doc(x) with an empty id, or a truthy id that is not a string
    | EmptyUpdate              // update({}): at least one field must be updated
    | SearchTypeError          // a TypeError raised inside the text filter

  datatype Result<+T> = Ok(value: T) | Err(error: Error)

  /** A JSON value as stored by the document store (numbers are integers). */
  datatype Value =
    | Null
    | Bool(b: bool)
    | Num(n: int)
    | Str(s: string)
    | Arr(items: seq<Value>)

  type Id = string

  /** A document's top-level fields. */
  type Doc = map<string, Value>

  /** An object's own properties in the order JavaScript enumerates them,
      which JSON.stringify follows: names that are array indices first, in
      ascending numeric order, then the other names in insertion order
      (`Json.JsKeyOrder`). */
  type Criteria = seq<(string, Value)>

  /** JavaScript truthiness of a value; an absent property (undefined) is falsy. */
  predicate Truthy(v: Option<Value>)
  {
    match v
    case None => false
    case Some(Null) => false
    case Some(Bool(b)) => b
    case Some(Num(n)) => n != 0
    case Some(Str(s)) => s != ""
    case Some(Arr(_)) => true
  }

  /** The property `name` of a document, or None when it is undefined. */
  function Field(doc: Doc, name: string): (r: Option<Value>)
    ensures r.Some? <==> name in doc
    ensures r.Some? ==> r.value == doc[name]
  {
    if name in doc then Some(doc[name]) else None
  }

  /** The property `name` of a request object; with a repeated name the first wins. */
  function Lookup(c: Criteria, name: string): (r: Option<Value>)
    ensures r.Some? <==> exists i :: 0 <= i < |c| && c[i].0 == name
    ensures r.Some? ==> exists i :: 0 <= i < |c| && c[i] == (name, r.value) &&
                          forall j :: 0 <= j < i ==> c[j].0 != name
  {
    if c == [] then None
    else if c[0].0 == name then Some(c[0].1)
    else
      var r := Lookup(c[1..], name);
      assert forall i :: 1 <= i < |c| ==> c[i] == c[1..][i - 1];
      r
  }

  /** `{ id, ...data }`: the spread comes last, so a stored "id" field wins
      over the document id. */
  function WithId(id: Id, data: Doc): (r: Doc)
    ensures r.Keys == data.Keys + {"id"}
    ensures r["id"] == if "id" in data then data["id"] else Str(id)
    ensures forall k :: k in data ==> r[k] == data[k]
  {
    map["id" := Str(id)] + data
  }

  /** A top-level update: every patched field overrides, the others stay. */
  function Merge(doc: Doc, patch: Doc): (r: Doc)
    ensures r.Keys == doc.Keys + patch.Keys
    ensures forall k :: k in patch ==> r[k] == patch[k]
    ensures forall k :: k in doc && k !in patch ==> r[k] == doc[k]
  {
    doc + patch
  }
}
