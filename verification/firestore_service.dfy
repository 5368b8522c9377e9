/**
 * `saveCardToFirestore` and `updateCardInFirestore`: which photo URL goes
 * into the card, whether the image is uploaded first, and which record is
 * written.  The image host is a function from the photo to an upload
 * outcome; every call the service makes is recorded, in order, as an effect.
 */
module FirestoreService {
  import opened JsValues
  import opened Store
  import V = Validators

  /** The employee fields copied into a card record. */
  const EmployeeRecordFields: seq<string> := [
    "serialNo", "employeeCode", "employeeName", "designation", "cnic", "licenceNo",
    "licenceCategory", "licenceValidity", "dateOfIssue", "validUpto"
  ]

  /** The vehicle fields copied into a card record. */
  const VehicleRecordFields: seq<string> := [
    "vehicleNo", "vehicleType", "shiftType", "region", "departureBC", "inspectionId",
    "validFrom", "validTo"
  ]

  /** What `uploadImageToCloudinary` comes back with: the hosted image's
      HTTPS address, or a thrown error. */
  datatype UploadResult = Uploaded(url: string) | UploadFailed

  datatype Effect =
    | UploadCall(image: Value)
    | AddCall(data: Record)
    | UpdateCall(id: string, data: Record)

  datatype ServiceError = UploadError | WriteError(cause: StoreError)

  /** The calls made, the collection afterwards, and what the promise
      settles to. */
  datatype Outcome<T> = Outcome(effects: seq<Effect>, store: Firestore, result: Result<T, ServiceError>)

  /** `value.startsWith(prefix)`. */
  predicate StartsWith(s: string, prefix: string) {
    |prefix| <= |s| && s[..|prefix|] == prefix
  }

  /** `{ ...employee fields, ...photo, ...vehicle fields, ...metadata }`:
      the copied fields of both forms with the given extra keys. */
  function Assemble(emp: Record, empFields: seq<string>, photo: Record,
                    veh: Record, vehFields: seq<string>, meta: Record): Record {
    Project(emp, empFields) + photo + Project(veh, vehFields) + meta
  }

  /** No key belongs to two of the four groups. */
  predicate Disjoint(empFields: seq<string>, photo: Record, vehFields: seq<string>, meta: Record) {
    && (forall f :: f in empFields ==> f !in photo && f !in vehFields && f !in meta)
    && (forall f :: f in vehFields ==> f !in photo && f !in meta)
    && (forall k :: k in photo ==> k !in meta)
  }

  /** What an assembled record holds, when the four key groups are disjoint. */
  lemma AssembleFacts(emp: Record, empFields: seq<string>, photo: Record,
                      veh: Record, vehFields: seq<string>, meta: Record)
    requires Disjoint(empFields, photo, vehFields, meta)
    ensures var r := Assemble(emp, empFields, photo, veh, vehFields, meta);
      && r.Keys == KeySet(empFields) + photo.Keys + KeySet(vehFields) + meta.Keys
      && (forall f :: f in empFields ==> r[f] == Get(emp, f))
      && (forall f :: f in vehFields ==> r[f] == Get(veh, f))
      && (forall k :: k in photo ==> r[k] == photo[k])
      && (forall k :: k in meta ==> r[k] == meta[k])
  {
  }

  /** The record fields and the keys added to them are all different. */
  lemma RecordKeysDisjoint(photo: Record, stamp: string)
    requires photo.Keys <= {"photoUrl"}
    requires stamp == "createdAt" || stamp == "updatedAt"
    ensures Disjoint(EmployeeRecordFields, photo, VehicleRecordFields, map[stamp := ServerTimestamp])
  {
  }

  lemma PhotoKeyNotCopied()
    ensures "photoUrl" !in KeySet(EmployeeRecordFields) && "photoUrl" !in KeySet(VehicleRecordFields)
  {
  }

  /** The `cardData` object of `saveCardToFirestore`. */
  function CreateRecord(emp: Record, veh: Record, photoUrl: Value): (r: Record)
    ensures r.Keys == KeySet(EmployeeRecordFields) + {"photoUrl"} + KeySet(VehicleRecordFields) + {"createdAt"}
    ensures forall f :: f in EmployeeRecordFields ==> r[f] == Get(emp, f)
    ensures forall f :: f in VehicleRecordFields ==> r[f] == Get(veh, f)
    ensures r["photoUrl"] == photoUrl && r["createdAt"] == ServerTimestamp
  {
    var photo, meta := map["photoUrl" := photoUrl], map["createdAt" := ServerTimestamp];
    RecordKeysDisjoint(photo, "createdAt");
    AssembleFacts(emp, EmployeeRecordFields, photo, veh, VehicleRecordFields, meta);
    assert photo.Keys == {"photoUrl"} && meta.Keys == {"createdAt"};
    Assemble(emp, EmployeeRecordFields, photo, veh, VehicleRecordFields, meta)
  }

  /** `...(photoUrl && { photoUrl })`: the URL's entry when it is truthy,
      nothing otherwise. */
  function PhotoEntry(photoUrl: Value): (m: Record)
    ensures m.Keys == if Truthy(photoUrl) then {"photoUrl"} else {}
    ensures Truthy(photoUrl) ==> m["photoUrl"] == photoUrl
  {
    if Truthy(photoUrl) then map["photoUrl" := photoUrl] else map[]
  }

  /** The `cardData` object of `updateCardInFirestore`: the URL is written
      only when it is truthy. */
  function UpdateRecord(emp: Record, veh: Record, photoUrl: Value): (r: Record)
    ensures r.Keys == KeySet(EmployeeRecordFields) + PhotoEntry(photoUrl).Keys
                      + KeySet(VehicleRecordFields) + {"updatedAt"}
    ensures forall f :: f in EmployeeRecordFields ==> r[f] == Get(emp, f)
    ensures forall f :: f in VehicleRecordFields ==> r[f] == Get(veh, f)
    ensures "photoUrl" in r <==> Truthy(photoUrl)
    ensures Truthy(photoUrl) ==> r["photoUrl"] == photoUrl
    ensures r["updatedAt"] == ServerTimestamp
  {
    var photo, meta := PhotoEntry(photoUrl), map["updatedAt" := ServerTimestamp];
    RecordKeysDisjoint(photo, "updatedAt");
    AssembleFacts(emp, EmployeeRecordFields, photo, veh, VehicleRecordFields, meta);
    assert meta.Keys == {"updatedAt"};
    PhotoKeyNotCopied();
    Assemble(emp, EmployeeRecordFields, photo, veh, VehicleRecordFields, meta)
  }

  /** `addDoc` of the record, after the calls in `before`. */
  function AddStep(store: Firestore, n: NewDoc, before: seq<Effect>, data: Record): (o: Outcome<string>)
    requires Fits(store, n)
    ensures o.effects == before + [AddCall(data)]
    ensures o.result.Success? <==> AddDoc(store, n, data).Success?
    ensures o.result.Success? ==> o.result.value == n.id && o.store == AddDoc(store, n, data).value
    ensures o.result.Failure? ==> o.store == store && o.result.error == WriteError(AddDoc(store, n, data).error)
  {
    match AddDoc(store, n, data)
    case Success(st) => Outcome(before + [AddCall(data)], st, Success(n.id))
    case Failure(e) => Outcome(before + [AddCall(data)], store, Failure(WriteError(e)))
  }

  /** `saveCardToFirestore(employeeData, vehicleData)`, where `n` is the id
      the client assigns to the new document and where it lands. */
  function SaveCard(store: Firestore, upload: Value -> UploadResult, n: NewDoc, emp: Record, veh: Record): (o: Outcome<string>)
    requires Fits(store, n)
    // the promise resolves to the new document's id
    ensures o.result.Success? ==> o.result.value == n.id
    // a rejected promise has written nothing
    ensures o.result.Failure? ==> o.store == store
  {
    var photo := Get(emp, "photo");
    if Truthy(photo) then
      match upload(photo)
      case UploadFailed => Outcome([UploadCall(photo)], store, Failure(UploadError))
      case Uploaded(url) => AddStep(store, n, [UploadCall(photo)], CreateRecord(emp, veh, Str(url)))
    else AddStep(store, n, [], CreateRecord(emp, veh, Null))
  }

  /** The URL `updateCardInFirestore` writes, when no upload fails: the
      stored one unless a fresh `data:` image replaces it. */
  predicate FreshImage(photo: Value) {
    Truthy(photo) && photo.Str? && StartsWith(photo.s, "data:")
  }

  /** `updateCardInFirestore(cardId, employeeData, vehicleData)`. */
  function UpdateCard(store: Firestore, upload: Value -> UploadResult, id: string, emp: Record, veh: Record): (o: Outcome<()>)
    // only a card that exists can be updated
    ensures o.result.Success? ==> HasDoc(store.docs, id)
    // a rejected promise has written nothing
    ensures o.result.Failure? ==> o.store == store
  {
    var photo := Get(emp, "photo");
    if FreshImage(photo) then
      match upload(photo)
      case UploadFailed => Outcome([UploadCall(photo)], store, Failure(UploadError))
      case Uploaded(url) => UpdateStep(store, id, [UploadCall(photo)], UpdateRecord(emp, veh, Str(url)))
    else UpdateStep(store, id, [], UpdateRecord(emp, veh, Get(emp, "photoUrl")))
  }

  /** `updateDoc` of the record, after the calls in `before`. */
  function UpdateStep(store: Firestore, id: string, before: seq<Effect>, data: Record): (o: Outcome<()>)
    ensures o.effects == before + [UpdateCall(id, data)]
    ensures o.result.Success? <==> UpdateDoc(store, id, data).Success?
    ensures o.result.Success? ==> o.store == UpdateDoc(store, id, data).value
    ensures o.result.Failure? ==> o.store == store && o.result.error == WriteError(UpdateDoc(store, id, data).error)
  {
    match UpdateDoc(store, id, data)
    case Success(st) => Outcome(before + [UpdateCall(id, data)], st, Success(()))
    case Failure(e) => Outcome(before + [UpdateCall(id, data)], store, Failure(WriteError(e)))
  }

  // ---- saveCardToFirestore ----

  /** The image is uploaded exactly when the form holds a truthy photo, and
      the upload comes first: it is the first call and at most one write
      follows it. */
  lemma SaveUploadsIffPhoto(store: Firestore, upload: Value -> UploadResult, n: NewDoc, emp: Record, veh: Record)
    requires Fits(store, n)
    ensures var o := SaveCard(store, upload, n, emp, veh);
      && (Truthy(Get(emp, "photo")) <==> UploadCall(Get(emp, "photo")) in o.effects)
      && (Truthy(Get(emp, "photo")) ==> o.effects[0] == UploadCall(Get(emp, "photo")) && |o.effects| <= 2)
      && (!Truthy(Get(emp, "photo")) ==> |o.effects| == 1 && o.effects[0].AddCall?)
  {
  }

  /** Without a photo the card is written with a `null` URL; with one, with
      the URL the upload returned. */
  lemma SavedPhotoUrl(store: Firestore, upload: Value -> UploadResult, n: NewDoc, emp: Record, veh: Record)
    requires Fits(store, n)
    ensures var o := SaveCard(store, upload, n, emp, veh);
      forall e :: e in o.effects && e.AddCall? ==>
        e.data["photoUrl"] == (if Truthy(Get(emp, "photo")) then Str(upload(Get(emp, "photo")).url) else Null)
  {
  }

  /** A failed upload writes nothing and rejects with the upload's error. */
  lemma UploadFailureWritesNothing(store: Firestore, upload: Value -> UploadResult, n: NewDoc, emp: Record, veh: Record)
    requires Fits(store, n)
    requires Truthy(Get(emp, "photo")) && upload(Get(emp, "photo")) == UploadFailed
    ensures var o := SaveCard(store, upload, n, emp, veh);
      o.store == store && o.result == Failure(UploadError) && forall e :: e in o.effects ==> e.UploadCall?
  {
  }

  /** A successful save adds exactly one document, under the new id and at
      the new id's place, holding the copied form fields; the other
      documents keep their relative order; the save resolves to that id. */
  lemma SaveInsertsOneCard(store: Firestore, upload: Value -> UploadResult, n: NewDoc, emp: Record, veh: Record)
    requires Fits(store, n)
    requires SaveCard(store, upload, n, emp, veh).result.Success?
    ensures var o := SaveCard(store, upload, n, emp, veh);
      && o.result.value == n.id
      && |o.store.docs| == |store.docs| + 1
      && o.store.docs[..n.at] == store.docs[..n.at]
      && o.store.docs[n.at + 1..] == store.docs[n.at..]
      && o.store.docs[n.at].id == n.id
      && (forall i :: 0 <= i < |o.store.docs| && o.store.docs[i].id == n.id ==> i == n.at)
      && (forall f :: f in EmployeeRecordFields ==> o.store.docs[n.at].data[f] == Get(emp, f))
      && (forall f :: f in VehicleRecordFields ==> o.store.docs[n.at].data[f] == Get(veh, f))
  {
  }

  /** A form that passes `validateFields` yields a record with no
      `undefined` field, so Firestore does not refuse it for that reason. */
  lemma ValidatedRecordIsWritable(emp: Record, veh: Record, photoUrl: Value)
    requires V.ValidateFields(emp, veh).empErr == map[] && V.ValidateFields(emp, veh).vehErr == map[]
    requires photoUrl != Undefined
    ensures !HasUndefined(CreateRecord(emp, veh, photoUrl))
  {
    V.NoErrorsMeansComplete(emp, veh);
    RecordFieldsAreRequired();
    DefinedFieldsMakeDefinedRecord(emp, veh, photoUrl);
  }

  /** Defined copied fields and a defined URL make a record `addDoc` accepts. */
  lemma DefinedFieldsMakeDefinedRecord(emp: Record, veh: Record, photoUrl: Value)
    requires forall f :: f in EmployeeRecordFields ==> Truthy(Get(emp, f))
    requires forall f :: f in VehicleRecordFields ==> Truthy(Get(veh, f))
    requires photoUrl != Undefined
    ensures !HasUndefined(CreateRecord(emp, veh, photoUrl))
  {
    var photo, meta := map["photoUrl" := photoUrl], map["createdAt" := ServerTimestamp];
    assert CreateRecord(emp, veh, photoUrl) == Assemble(emp, EmployeeRecordFields, photo, veh, VehicleRecordFields, meta);
    AssembledHasNoUndefined(emp, EmployeeRecordFields, photo, veh, VehicleRecordFields, meta);
  }

  /** Copied fields that are all defined, and defined extra keys, make a
      record without `undefined`. */
  lemma AssembledHasNoUndefined(emp: Record, empFields: seq<string>, photo: Record,
                                veh: Record, vehFields: seq<string>, meta: Record)
    requires forall f :: f in empFields ==> Truthy(Get(emp, f))
    requires forall f :: f in vehFields ==> Truthy(Get(veh, f))
    requires forall k :: k in photo ==> photo[k] != Undefined
    requires forall k :: k in meta ==> meta[k] != Undefined
    ensures !HasUndefined(Assemble(emp, empFields, photo, veh, vehFields, meta))
  {
  }

  /** Every copied field is one the form requires. */
  lemma RecordFieldsAreRequired()
    ensures forall f :: f in EmployeeRecordFields ==> f in V.EmployeeFields
    ensures forall f :: f in VehicleRecordFields ==> f in V.VehicleFields
  {
  }

  // ---- updateCardInFirestore ----

  /** The image is uploaded exactly when `photo` is a `data:` string; the
      upload then precedes the single write. */
  lemma UpdateUploadsIffFreshImage(store: Firestore, upload: Value -> UploadResult, id: string, emp: Record, veh: Record)
    ensures var o := UpdateCard(store, upload, id, emp, veh);
      && (FreshImage(Get(emp, "photo")) <==> UploadCall(Get(emp, "photo")) in o.effects)
      && (FreshImage(Get(emp, "photo")) ==> o.effects[0] == UploadCall(Get(emp, "photo")) && |o.effects| <= 2)
      && (!FreshImage(Get(emp, "photo")) ==> |o.effects| == 1 && o.effects[0].UpdateCall?)
  {
  }

  /** The URL sent is the upload's for a fresh image and the stored
      `photoUrl` otherwise; the key is left out entirely when that URL is
      falsy (an absent stored URL, or an empty one from the host). */
  lemma UpdatePhotoUrl(store: Firestore, upload: Value -> UploadResult, id: string, emp: Record, veh: Record)
    ensures var o := UpdateCard(store, upload, id, emp, veh);
      var photo := Get(emp, "photo");
      var url := if FreshImage(photo) && upload(photo).Uploaded? then Str(upload(photo).url) else Get(emp, "photoUrl");
      forall e :: e in o.effects && e.UpdateCall? ==>
        ("photoUrl" in e.data <==> Truthy(url)) && ("photoUrl" in e.data ==> e.data["photoUrl"] == url)
  {
    var photo := Get(emp, "photo");
    if FreshImage(photo) {
      if upload(photo).Uploaded? {
        var d := UpdateRecord(emp, veh, Str(upload(photo).url));
        assert UpdateCard(store, upload, id, emp, veh).effects == [UploadCall(photo), UpdateCall(id, d)];
      }
    } else {
      var d := UpdateRecord(emp, veh, Get(emp, "photoUrl"));
      assert UpdateCard(store, upload, id, emp, veh).effects == [UpdateCall(id, d)];
    }
  }

  /** Only the card with the given id is written, to that id; every other
      document stays as it was.  When no URL is sent the stored one is kept. */
  lemma UpdateWritesOnlyTarget(store: Firestore, upload: Value -> UploadResult, id: string, emp: Record, veh: Record)
    requires UpdateCard(store, upload, id, emp, veh).result.Success?
    ensures var o := UpdateCard(store, upload, id, emp, veh);
      && (forall e :: e in o.effects && e.UpdateCall? ==> e.id == id)
      && |o.store.docs| == |store.docs|
      && (forall i :: 0 <= i < |store.docs| && store.docs[i].id != id ==> o.store.docs[i] == store.docs[i])
      && (!FreshImage(Get(emp, "photo")) && !Truthy(Get(emp, "photoUrl")) ==>
            forall i :: 0 <= i < |store.docs| && store.docs[i].id == id && "photoUrl" in store.docs[i].data ==>
              o.store.docs[i].data["photoUrl"] == store.docs[i].data["photoUrl"])
  {
  }

  /** A failed update, whether of the upload or of the write, leaves the
      collection as it was. */
  lemma UpdateFailureKeepsStore(store: Firestore, upload: Value -> UploadResult, id: string, emp: Record, veh: Record)
    requires UpdateCard(store, upload, id, emp, veh).result.Failure?
    ensures UpdateCard(store, upload, id, emp, veh).store == store
  {
  }
}
