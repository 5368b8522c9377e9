/**
 * The create/edit page: filling the form from the card being edited,
 * loading and keeping drafts in `localStorage`, the `validate` gate, and
 * `handleSaveToFirestore`, which creates or updates the card and reports the
 * outcome as a notification.  `localStorage` is a map from keys to the
 * stored text, and the JSON encoding is a pair of functions given by the
 * caller.
 */
module CreateCard {
  import opened JsValues
  import opened Store
  import opened Validators
  import opened FirestoreService
  import opened NotificationContext
  import Dashboard

  // ---- edit-mode prefill ----

  /** `setEmployeeData({...})` and `setVehicleData({...})` for an edited
      card: the copied fields, plus the stored URL as both `photoUrl` and
      `photo`. */
  function Prefill(card: Record): (r: (Record, Record))
    ensures forall f :: f in EmployeeRecordFields ==> f in r.0 && r.0[f] == Get(card, f)
    ensures r.0.Keys == KeySet(EmployeeRecordFields) + {"photoUrl", "photo"}
    ensures r.0["photoUrl"] == Get(card, "photoUrl") && r.0["photo"] == Get(card, "photoUrl")
    ensures forall f :: f in VehicleRecordFields ==> f in r.1 && r.1[f] == Get(card, f)
    ensures r.1.Keys == KeySet(VehicleRecordFields)
  {
    var photoUrl := Get(card, "photoUrl");
    PhotoKeysNotCopied();
    CopiedFieldsSurvive(card, EmployeeRecordFields, photoUrl);
    (Project(card, EmployeeRecordFields)["photoUrl" := photoUrl]["photo" := photoUrl],
     Project(card, VehicleRecordFields))
  }

  lemma PhotoKeysNotCopied()
    ensures forall f :: f in EmployeeRecordFields ==> f != "photoUrl" && f != "photo"
  {
  }

  lemma CopiedFieldsSurvive(card: Record, fields: seq<string>, photoUrl: Value)
    requires forall f :: f in fields ==> f != "photoUrl" && f != "photo"
    ensures var r := Project(card, fields)["photoUrl" := photoUrl]["photo" := photoUrl];
      forall f :: f in fields ==> f in r && r[f] == Get(card, f)
  {
  }

  /** The required-photo check of the prefilled form passes exactly when the
      card has a stored URL. */
  lemma PrefillPhotoCheck(card: Record, veh: Record)
    ensures "photo" in ValidateFields(Prefill(card).0, veh).empErr <==> !Truthy(Get(card, "photoUrl"))
  {
    ValidateFieldsKeys(Prefill(card).0, veh);
    assert "photo" in EmployeeFields;
  }

  /** A card read back from the collection, as the dashboard hands it over,
      prefills the form with the values it was saved from and with the
      uploaded photo's URL. */
  lemma SavedCardPrefillsForm(id: string, emp: Record, veh: Record, photoUrl: Value)
    ensures var (e, v) := Prefill(Dashboard.CardOfDoc(Doc(id, CreateRecord(emp, veh, photoUrl))));
      && (forall f :: f in EmployeeRecordFields ==> e[f] == Get(emp, f))
      && (forall f :: f in VehicleRecordFields ==> v[f] == Get(veh, f))
      && e["photo"] == photoUrl
  {
    var r := CreateRecord(emp, veh, photoUrl);
    var card := Dashboard.CardOfDoc(Doc(id, r));
    assert forall f :: f in EmployeeRecordFields ==> f in r && Get(card, f) == Get(emp, f);
    assert forall f :: f in VehicleRecordFields ==> f in r && Get(card, f) == Get(veh, f);
    assert "photoUrl" in r && Get(card, "photoUrl") == photoUrl;
  }

  // ---- drafts ----

  type Storage = map<string, string>

  const EmployeeDraftKey: string := "employeeData"
  const VehicleDraftKey: string := "vehicleData"

  /** `localStorage.getItem(key)` tested for truthiness: a missing item is
      `null` and an empty one `""`, both skipped. */
  function SavedItem(ls: Storage, key: string): (r: Option<string>)
    ensures r.Some? <==> key in ls && ls[key] != ""
    ensures r.Some? ==> r.value == ls[key]
  {
    if key in ls && ls[key] != "" then Some(ls[key]) else None
  }

  /** The drafts loaded on mount when not editing.  `parse` is `JSON.parse`,
      `None` where it throws; a throw ends the `try`, so a corrupt employee
      draft also leaves the vehicle draft unread. */
  function LoadDrafts(ls: Storage, parse: string -> Option<Record>): (r: (Record, Record))
    // each form is either empty or what its stored draft parses to
    ensures r.0 == map[] || (SavedItem(ls, EmployeeDraftKey).Some? && parse(SavedItem(ls, EmployeeDraftKey).value) == Some(r.0))
    ensures r.1 == map[] || (SavedItem(ls, VehicleDraftKey).Some? && parse(SavedItem(ls, VehicleDraftKey).value) == Some(r.1))
  {
    match SavedItem(ls, EmployeeDraftKey)
    case Some(text) =>
      if parse(text).None? then (map[], map[])
      else LoadVehicleDraft(ls, parse, parse(text).value)
    case None => LoadVehicleDraft(ls, parse, map[])
  }

  function LoadVehicleDraft(ls: Storage, parse: string -> Option<Record>, emp: Record): (r: (Record, Record))
    ensures r.0 == emp
  {
    match SavedItem(ls, VehicleDraftKey)
    case Some(text) => if parse(text).None? then (emp, map[]) else (emp, parse(text).value)
    case None => (emp, map[])
  }

  /** The persisting effect for one form: `setItem` only when the data has
      at least one key. */
  function PersistDraft(ls: Storage, key: string, data: Record, serialize: Record -> string): (r: Storage)
    ensures |data| == 0 ==> r == ls
    ensures |data| > 0 ==> r == ls[key := serialize(data)]
  {
    if |data| > 0 then ls[key := serialize(data)] else ls
  }

  /** Drafts written by the two effects load back as they were, provided the
      encoding is undone by `parse` (`JSON.stringify` of an object is never
      empty). */
  lemma DraftRoundTrip(ls: Storage, emp: Record, veh: Record,
                       serialize: Record -> string, parse: string -> Option<Record>)
    requires |emp| > 0 && |veh| > 0
    requires serialize(emp) != "" && serialize(veh) != ""
    requires parse(serialize(emp)) == Some(emp) && parse(serialize(veh)) == Some(veh)
    ensures LoadDrafts(PersistDraft(PersistDraft(ls, EmployeeDraftKey, emp, serialize), VehicleDraftKey, veh, serialize), parse)
            == (emp, veh)
  {
  }

  /** Emptying a form does not erase its stored draft. */
  lemma EmptyFormKeepsDraft(ls: Storage, key: string, serialize: Record -> string)
    ensures PersistDraft(ls, key, map[], serialize) == ls
  {
  }

  /** A corrupt employee draft discards both drafts. */
  lemma CorruptEmployeeDraft(ls: Storage, parse: string -> Option<Record>)
    requires SavedItem(ls, EmployeeDraftKey).Some? && parse(SavedItem(ls, EmployeeDraftKey).value).None?
    ensures LoadDrafts(ls, parse) == (map[], map[])
  {
  }

  /** A corrupt vehicle draft loses only itself. */
  lemma CorruptVehicleDraft(ls: Storage, parse: string -> Option<Record>)
    requires SavedItem(ls, VehicleDraftKey).Some? && parse(SavedItem(ls, VehicleDraftKey).value).None?
    requires SavedItem(ls, EmployeeDraftKey).Some? ==> parse(SavedItem(ls, EmployeeDraftKey).value).Some?
    ensures LoadDrafts(ls, parse).1 == map[]
    ensures SavedItem(ls, EmployeeDraftKey).Some? ==>
      LoadDrafts(ls, parse).0 == parse(SavedItem(ls, EmployeeDraftKey).value).value
  {
  }

  // ---- validate ----

  datatype Check = Check(ok: bool, empErrors: map<string, string>, vehErrors: map<string, string>)

  /** The decision of `validate()` from its two inputs: the uniqueness errors
      are assigned over the local ones, and the form passes when neither
      map has a key; the uniqueness messages are not consulted. */
  function Gate(local: Validation, unique: Uniqueness): (c: Check)
    ensures c.ok <==> local.empErr == map[] && local.vehErr == map[] && unique.empErr == map[]
    ensures c.empErrors.Keys == local.empErr.Keys + unique.empErr.Keys
    ensures forall k :: k in unique.empErr ==> c.empErrors[k] == unique.empErr[k]
    ensures forall k :: k in local.empErr && k !in unique.empErr ==> c.empErrors[k] == local.empErr[k]
    ensures c.vehErrors == local.vehErr
  {
    var merged := local.empErr + unique.empErr;
    assert |merged| == 0 <==> local.empErr == map[] && unique.empErr == map[] by {
      if |merged| == 0 {
        assert forall k :: k in local.empErr ==> k in merged;
      }
    }
    Check(|merged| == 0 && |local.vehErr| == 0, merged, local.vehErr)
  }

  /** `validate()`; `editingId` is the edited card's id, `None` when
      creating. */
  function Validate(store: Firestore, emp: Record, veh: Record, editingId: Option<string>): (c: Check)
    // a thrown lookup does not count: only the three error maps decide
    ensures c.ok <==> ValidateFields(emp, veh).empErr == map[] && ValidateFields(emp, veh).vehErr == map[]
                      && CheckUniqueness(store, emp, editingId.Some?, editingId).empErr == map[]
  {
    Gate(ValidateFields(emp, veh), CheckUniqueness(store, emp, editingId.Some?, editingId))
  }

  /** A uniqueness error is never written over a local one: a field is looked
      up only when it is filled in, and the CNIC only when well-formed. */
  lemma UniquenessKeysAreFresh(store: Firestore, emp: Record, veh: Record, editingId: Option<string>)
    ensures forall k :: k in CheckUniqueness(store, emp, editingId.Some?, editingId).empErr ==>
      k !in ValidateFields(emp, veh).empErr
  {
    var u := CheckUniqueness(store, emp, editingId.Some?, editingId);
    UniquenessKeysWanted(store, emp, editingId.Some?, editingId);
    ValidateFieldsKeys(emp, veh);
    forall k | k in u.empErr ensures k !in ValidateFields(emp, veh).empErr {
      WantedIsFilled(emp, k);
    }
  }

  /** A failing database lookup by itself does not stop the save: the
      generic message is produced but not consulted. */
  lemma DatabaseFailureAloneDoesNotBlock(store: Firestore, emp: Record, veh: Record, editingId: Option<string>)
    requires ValidateFields(emp, veh).empErr == map[] && ValidateFields(emp, veh).vehErr == map[]
    requires Fails(store, emp, "serialNo")
    ensures Validate(store, emp, veh, editingId).ok
    ensures DatabaseError in CheckUniqueness(store, emp, editingId.Some?, editingId).errorMessages
  {
    UniquenessErrors(store, emp, editingId.Some?, editingId);
    UniquenessMessages(store, emp, editingId.Some?, editingId);
    var u := CheckUniqueness(store, emp, editingId.Some?, editingId);
    assert u.empErr == map[];
  }

  // ---- handleSaveToFirestore ----

  const FixErrorsMessage: string := "Please fix the highlighted errors"
  const UpdatedMessage: string := "Card updated successfully!"
  const SaveErrorMessage: string := "Error saving card. Please try again."

  /** The success notice of a new card: its id cut to 8 characters. */
  function SavedMessage(id: string): string {
    "Card saved successfully! ID: " + id[..if |id| < 8 then |id| else 8] + "..."
  }

  datatype PageState = PageState(store: Firestore, storage: Storage, center: Center)

  /** What one press of the save button did: the state afterwards, the
      validation result, the service calls made, and whether the card was
      stored (which also schedules the form reset). */
  datatype SaveOutcome = SaveOutcome(after: PageState, check: Check, effects: seq<Effect>, saved: bool)

  function Notify(st: PageState, now: int, message: string, kind: string, duration: int): PageState {
    st.(center := Add(st.center, now, message, Some(kind), Some(duration)).0)
  }

  /** `handleSaveToFirestore()` at time `now`; `n` is the id a new card
      receives and where it lands among the documents. */
  function HandleSave(st: PageState, upload: Value -> UploadResult, n: NewDoc, now: int,
                      emp: Record, veh: Record, editingId: Option<string>): (o: SaveOutcome)
    requires editingId.None? ==> Fits(st.store, n)
    ensures o.check == Validate(st.store, emp, veh, editingId)
    ensures !o.check.ok ==> o.effects == [] && !o.saved && o.after.store == st.store
  {
    Submit(st, upload, n, now, emp, veh, editingId, Validate(st.store, emp, veh, editingId))
  }

  /** The save handler once `validate()` has answered `check`. */
  function Submit(st: PageState, upload: Value -> UploadResult, n: NewDoc, now: int,
                  emp: Record, veh: Record, editingId: Option<string>, check: Check): (o: SaveOutcome)
    requires editingId.None? ==> Fits(st.store, n)
    ensures o.check == check
    // a card is stored only for a form that passed
    ensures o.saved ==> check.ok
    // a notice is always posted
    ensures |o.after.center.notifications| == |st.center.notifications| + 1
  {
    if !check.ok then
      SaveOutcome(Notify(st, now, FixErrorsMessage, "error", 3000), check, [], false)
    else match editingId
      case Some(id) =>
        var o := UpdateCard(st.store, upload, id, emp, veh);
        if o.result.Success? then
          SaveOutcome(Notify(st.(store := o.store), now, UpdatedMessage, "success", 3000), check, o.effects, true)
        else
          SaveOutcome(Notify(st.(store := o.store), now, SaveErrorMessage, "error", 4000), check, o.effects, false)
      case None =>
        var o := SaveCard(st.store, upload, n, emp, veh);
        if o.result.Success? then
          var cleared := st.storage - {EmployeeDraftKey, VehicleDraftKey};
          SaveOutcome(Notify(PageState(o.store, cleared, st.center), now, SavedMessage(o.result.value), "success", 3000),
                      check, o.effects, true)
        else
          SaveOutcome(Notify(st.(store := o.store), now, SaveErrorMessage, "error", 4000), check, o.effects, false)
  }

  /** A form that fails validation reaches neither service function and
      only posts the error notice. */
  lemma InvalidFormCallsNothing(st: PageState, upload: Value -> UploadResult, n: NewDoc, now: int,
                                emp: Record, veh: Record, editingId: Option<string>, check: Check)
    requires editingId.None? ==> Fits(st.store, n)
    requires !check.ok
    ensures var o := Submit(st, upload, n, now, emp, veh, editingId, check);
      && o.effects == [] && !o.saved
      && o.after.store == st.store && o.after.storage == st.storage
      && o.after.center.notifications == st.center.notifications + [Notification(now, FixErrorsMessage, "error")]
  {
  }

  /** Editing calls `updateCardInFirestore` with the edited card's id and
      never `saveCardToFirestore`. */
  lemma EditCallsUpdate(st: PageState, upload: Value -> UploadResult, n: NewDoc, now: int,
                        emp: Record, veh: Record, id: string, check: Check)
    requires check.ok
    ensures var o := Submit(st, upload, n, now, emp, veh, Some(id), check);
      && o.effects == UpdateCard(st.store, upload, id, emp, veh).effects
      && forall e :: e in o.effects ==> e.UploadCall? || (e.UpdateCall? && e.id == id)
  {
    UpdateUploadsIffFreshImage(st.store, upload, id, emp, veh);
  }

  /** Creating calls `saveCardToFirestore` and never the update. */
  lemma CreateCallsSave(st: PageState, upload: Value -> UploadResult, n: NewDoc, now: int,
                        emp: Record, veh: Record, check: Check)
    requires Fits(st.store, n)
    requires check.ok
    ensures var o := Submit(st, upload, n, now, emp, veh, None, check);
      && o.effects == SaveCard(st.store, upload, n, emp, veh).effects
      && forall e :: e in o.effects ==> e.UploadCall? || e.AddCall?
  {
    SaveUploadsIffPhoto(st.store, upload, n, emp, veh);
  }

  /** The drafts are removed after a successful create and only then; an
      edit or a failure leaves them in place. */
  lemma DraftsClearedOnlyAfterCreate(st: PageState, upload: Value -> UploadResult, n: NewDoc, now: int,
                                     emp: Record, veh: Record, editingId: Option<string>, check: Check)
    requires editingId.None? ==> Fits(st.store, n)
    ensures var o := Submit(st, upload, n, now, emp, veh, editingId, check);
      o.after.storage == if editingId.None? && o.saved then st.storage - {EmployeeDraftKey, VehicleDraftKey}
                         else st.storage
  {
  }

  /** The notice posted after a valid form: success with the new card's id
      or the update message, or the error message when the service fails. */
  lemma SaveNotice(st: PageState, upload: Value -> UploadResult, n: NewDoc, now: int,
                   emp: Record, veh: Record, editingId: Option<string>, check: Check)
    requires editingId.None? ==> Fits(st.store, n)
    requires check.ok
    ensures var o := Submit(st, upload, n, now, emp, veh, editingId, check);
      o.after.center.notifications == st.center.notifications + [
        if !o.saved then Notification(now, SaveErrorMessage, "error")
        else if editingId.Some? then Notification(now, UpdatedMessage, "success")
        else Notification(now, SavedMessage(n.id), "success")]
  {
    if editingId.None? && Submit(st, upload, n, now, emp, veh, editingId, check).saved {
      SaveInsertsOneCard(st.store, upload, n, emp, veh);
    }
  }

  /** The notice of a new card shows at most the first 8 characters of its
      id, followed by an ellipsis. */
  lemma SavedMessageShape(id: string)
    ensures var m := SavedMessage(id);
      |m| == 29 + (if |id| < 8 then |id| else 8) + 3
      && m[29..|m| - 3] == id[..|m| - 32]
      && m[|m| - 3..] == "..."
  {
  }
}
