/**
 * The `cards` collection as the code sees it through the Firestore client:
 * a sequence of documents in the order an equality query returns them
 * (Firestore sorts such a query by document id), queries by field equality
 * that return their matches in that order, `addDoc` and `updateDoc`.  The
 * network is replaced by two knobs: the fields whose queries throw, and
 * whether writes are rejected.
 */
module Store {
  import opened JsValues

  datatype Doc = Doc(id: string, data: Record)

  datatype Firestore = Firestore(docs: seq<Doc>, failingQueries: set<string>, writesFail: bool)

  datatype StoreError =
    | Rejected      // the write did not go through
    | InvalidData   // a field value is `undefined`
    | NotFound      // `updateDoc` on an id with no document

  /** The documents whose `field` equals `value`, in result order. */
  function Matching(docs: seq<Doc>, field: string, value: Value): (r: seq<Doc>)
    ensures |r| <= |docs|
    ensures forall d :: d in r <==> d in docs && Get(d.data, field) == value
  {
    if docs == [] then []
    else if Get(docs[0].data, field) == value then [docs[0]] + Matching(docs[1..], field, value)
    else Matching(docs[1..], field, value)
  }

  /** `snapshot.docs[0].id` of `query(where(field, "==", value))`, or None
      when the snapshot is empty. */
  function FirstMatch(docs: seq<Doc>, field: string, value: Value): (r: Option<string>)
    ensures r.None? <==> forall d :: d in docs ==> Get(d.data, field) != value
    ensures r.Some? ==> exists i :: (0 <= i < |docs| && docs[i].id == r.value && Get(docs[i].data, field) == value
                        && forall j :: 0 <= j < i ==> Get(docs[j].data, field) != value)
    // the id of the first element of the query's result
    ensures var m := Matching(docs, field, value); r == if m == [] then None else Some(m[0].id)
  {
    if docs == [] then None
    else if Get(docs[0].data, field) == value then Some(docs[0].id)
    else
      var r := FirstMatch(docs[1..], field, value);
      if r.Some? then
        var i :| 0 < i + 1 <= |docs[1..]| && docs[1..][i].id == r.value && Get(docs[1..][i].data, field) == value
                 && forall j :: 0 <= j < i ==> Get(docs[1..][j].data, field) != value;
        assert docs[i + 1] == docs[1..][i];
        assert forall j :: 0 <= j < i + 1 ==> Get(docs[j].data, field) != value by {
          forall j | 0 <= j < i + 1 ensures Get(docs[j].data, field) != value {
            if j > 0 { assert docs[j] == docs[1..][j - 1]; }
          }
        }
        r
      else r
  }

  /** Whether a document with this id exists. */
  predicate HasDoc(docs: seq<Doc>, id: string) {
    exists i :: 0 <= i < |docs| && docs[i].id == id
  }

  /** Where a new document lands: the id the client generates for it, and
      its index in query-result order.  That order is by document id and a
      generated id is random, so the index is the environment's choice. */
  datatype NewDoc = NewDoc(id: string, at: nat)

  /** The generated id is not in use and the index lies within the list. */
  predicate Fits(store: Firestore, n: NewDoc) {
    n.at <= |store.docs| && !HasDoc(store.docs, n.id)
  }

  /** `addDoc(collection, data)`, the new document going where `n` says. */
  function AddDoc(store: Firestore, n: NewDoc, data: Record): (r: Result<Firestore, StoreError>)
    requires Fits(store, n)
    ensures store.writesFail ==> r == Failure(Rejected)
    ensures !store.writesFail && HasUndefined(data) ==> r == Failure(InvalidData)
    ensures r.Success? <==> !store.writesFail && !HasUndefined(data)
    ensures r.Success? ==> r.value.failingQueries == store.failingQueries && r.value.writesFail == store.writesFail
    // one document more, under the new id, and the others in their old order
    ensures r.Success? ==>
      && |r.value.docs| == |store.docs| + 1
      && r.value.docs[n.at] == Doc(n.id, data)
      && r.value.docs[..n.at] == store.docs[..n.at]
      && r.value.docs[n.at + 1..] == store.docs[n.at..]
    // the new id names that document only
    ensures r.Success? ==> forall i :: 0 <= i < |r.value.docs| && r.value.docs[i].id == n.id ==> i == n.at
  {
    if store.writesFail then Failure(Rejected)
    else if HasUndefined(data) then Failure(InvalidData)
    else
      var docs := store.docs[..n.at] + [Doc(n.id, data)] + store.docs[n.at..];
      InsertedIdIsUnique(store.docs, n, data);
      Success(store.(docs := docs))
  }

  lemma InsertedIdIsUnique(docs: seq<Doc>, n: NewDoc, data: Record)
    requires n.at <= |docs| && !HasDoc(docs, n.id)
    ensures var r := docs[..n.at] + [Doc(n.id, data)] + docs[n.at..];
      forall i :: 0 <= i < |r| && r[i].id == n.id ==> i == n.at
  {
    var r := docs[..n.at] + [Doc(n.id, data)] + docs[n.at..];
    forall i | 0 <= i < |r| && i != n.at ensures r[i].id != n.id {
      if i < n.at {
        assert r[i] == docs[i];
      } else {
        assert r[i] == docs[i - 1];
      }
    }
  }

  /** The document list with `data` merged into every document with this id
      (ids are unique in practice; the merge is applied where they match). */
  function MergeInto(docs: seq<Doc>, id: string, data: Record): (r: seq<Doc>)
    ensures |r| == |docs|
    ensures forall i :: 0 <= i < |docs| ==>
      r[i] == (if docs[i].id == id then Doc(id, docs[i].data + data) else docs[i])
  {
    if docs == [] then []
    else [if docs[0].id == id then Doc(id, docs[0].data + data) else docs[0]] + MergeInto(docs[1..], id, data)
  }

  /** `updateDoc(doc(db, "cards", id), data)`: the given fields replace the
      stored ones, the others are kept; a missing document is an error. */
  function UpdateDoc(store: Firestore, id: string, data: Record): (r: Result<Firestore, StoreError>)
    ensures r.Success? <==> !store.writesFail && !HasUndefined(data) && HasDoc(store.docs, id)
    ensures !store.writesFail && !HasUndefined(data) && !HasDoc(store.docs, id) ==> r == Failure(NotFound)
    ensures r.Success? ==> r.value == store.(docs := MergeInto(store.docs, id, data))
  {
    if store.writesFail then Failure(Rejected)
    else if HasUndefined(data) then Failure(InvalidData)
    else if !HasDoc(store.docs, id) then Failure(NotFound)
    else Success(store.(docs := MergeInto(store.docs, id, data)))
  }

  /** An update leaves every other document as it was, and gives the updated
      one the written values while keeping its unwritten fields. */
  lemma UpdateTouchesOnlyTarget(store: Firestore, id: string, data: Record)
    requires UpdateDoc(store, id, data).Success?
    ensures var after := UpdateDoc(store, id, data).value.docs;
      && |after| == |store.docs|
      && (forall i :: 0 <= i < |after| && store.docs[i].id != id ==> after[i] == store.docs[i])
      && (forall i, k :: 0 <= i < |after| && store.docs[i].id == id && k in data ==> after[i].data[k] == data[k])
      && (forall i, k :: 0 <= i < |after| && store.docs[i].id == id && k in store.docs[i].data && k !in data ==>
            after[i].data[k] == store.docs[i].data[k])
  {
  }
}
