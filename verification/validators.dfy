/**
 * The form checks of src/utils/validators.js: the required-field and CNIC
 * format check `validateFields`, and the uniqueness check
 * `checkUniqueness` against the `cards` collection.
 */
module Validators {
  import opened JsValues
  import opened Seqs
  import opened Store
  import Cnic = CnicFormatter

  const EmployeeFields: seq<string> := [
    "serialNo", "employeeCode", "employeeName", "designation", "cnic", "licenceNo",
    "licenceCategory", "licenceValidity", "dateOfIssue", "validUpto", "photo"
  ]

  const VehicleFields: seq<string> := [
    "vehicleNo", "vehicleType", "shiftType", "region", "departureBC", "inspectionId",
    "validFrom", "validTo"
  ]

  /** `FIELD_LABELS`, as its list of entries. */
  const FieldLabels: seq<(string, string)> := [
    ("photo", "Employee Photo"),
    ("serialNo", "Serial No"),
    ("employeeCode", "Employee Code"),
    ("employeeName", "Employee Name"),
    ("designation", "Designation"),
    ("cnic", "CNIC No"),
    ("licenceNo", "Licence No"),
    ("licenceCategory", "Licence Category"),
    ("licenceValidity", "Licence Validity"),
    ("dateOfIssue", "Date of Issue"),
    ("validUpto", "Valid Upto"),
    ("vehicleNo", "Vehicle No"),
    ("vehicleType", "Vehicle Type"),
    ("shiftType", "Shift Type"),
    ("region", "Region"),
    ("departureBC", "Departure / BC"),
    ("inspectionId", "Inspection ID"),
    ("validFrom", "Valid From"),
    ("validTo", "Valid To")
  ]

  const CnicFormatMessage: string := "CNIC format invalid. Use: 00000-0000000-0"
  const SerialTaken: string := "Serial No already exists!"
  const CodeTaken: string := "Employee Code already exists!"
  const CnicTaken: string := "CNIC already registered!"
  const DatabaseError: string := "Error checking database. Please try again."

  predicate Distinct(s: seq<string>) {
    forall i, j :: 0 <= i < j < |s| ==> s[i] != s[j]
  }

  /** `${FIELD_LABELS[field]}`, which reads `undefined` for a field without
      a label. */
  function Label(f: string): string {
    LookupLabel(FieldLabels, f)
  }

  function LookupLabel(table: seq<(string, string)>, f: string): string {
    if table == [] then "undefined"
    else if table[0].0 == f then table[0].1
    else LookupLabel(table[1..], f)
  }

  function RequiredMessage(f: string): string {
    Label(f) + " is required"
  }

  /** `!data[field]`. */
  predicate Missing(data: Record, f: string) {
    !Truthy(Get(data, f))
  }

  /** `CNIC_REGEX.test(v)`: the regex sees the value converted to a string,
      so only a string can match. */
  predicate CnicTest(v: Value) {
    v.Str? && Cnic.MatchesCnicRegex(v.s)
  }

  /** `employeeData.cnic && !CNIC_REGEX.test(employeeData.cnic)`. */
  predicate CnicFormatBad(emp: Record) {
    Truthy(Get(emp, "cnic")) && !CnicTest(Get(emp, "cnic"))
  }

  /** Reference definition: the listed fields that are missing, in list
      order. */
  function MissingFields(data: Record, fields: seq<string>): seq<string> {
    Filter(fields, f => Missing(data, f))
  }

  /** The message `msg` gives each field, in list order. */
  function Messages(fs: seq<string>, msg: string -> string): (ms: seq<string>)
    ensures |ms| == |fs|
    ensures forall i :: 0 <= i < |fs| ==> ms[i] == msg(fs[i])
  {
    seq(|fs|, i requires 0 <= i < |fs| => msg(fs[i]))
  }

  datatype Collected = Collected(errors: map<string, string>, messages: seq<string>)

  /** One `for (const field of fields)` loop of `validateFields`: every
      missing field gets its required message in the map and in the message
      list.  (The map's insertion order is not observable here, so the loop is
      unrolled from the front.) */
  function CollectRequired(data: Record, fields: seq<string>, msg: string -> string): (c: Collected)
    ensures forall f :: f in c.errors <==> f in fields && Missing(data, f)
    ensures forall f :: f in c.errors ==> c.errors[f] == msg(f)
    ensures c.messages == Messages(MissingFields(data, fields), msg)
    ensures Distinct(fields) ==> |c.messages| == |c.errors|
  {
    if fields == [] then Collected(map[], [])
    else
      var rest := CollectRequired(data, fields[1..], msg);
      var f := fields[0];
      DistinctTail(fields);
      MissingFieldsCons(data, fields);
      if Missing(data, f) then
        MessagesCons(f, MissingFields(data, fields[1..]), msg);
        Collected(rest.errors[f := msg(f)], [msg(f)] + rest.messages)
      else rest
  }

  lemma DistinctTail(s: seq<string>)
    requires s != []
    ensures Distinct(s) ==> Distinct(s[1..]) && s[0] !in s[1..]
  {
    if Distinct(s) {
      forall i, j | 0 <= i < j < |s[1..]| ensures s[1..][i] != s[1..][j] {
        assert s[1..][i] == s[i + 1] && s[1..][j] == s[j + 1];
      }
      forall k | 0 <= k < |s[1..]| ensures s[1..][k] != s[0] {
        assert s[1..][k] == s[k + 1];
      }
    }
  }

  lemma MissingFieldsCons(data: Record, fields: seq<string>)
    requires fields != []
    ensures MissingFields(data, fields)
         == (if Missing(data, fields[0]) then [fields[0]] else []) + MissingFields(data, fields[1..])
  {
  }

  lemma MessagesCons(f: string, fs: seq<string>, msg: string -> string)
    ensures Messages([f] + fs, msg) == [msg(f)] + Messages(fs, msg)
  {
    var l, r := Messages([f] + fs, msg), [msg(f)] + Messages(fs, msg);
    forall i | 0 <= i < |l| ensures l[i] == r[i] {
      if i > 0 {
        assert ([f] + fs)[i] == fs[i - 1];
      }
    }
    assert l == r;
  }

  datatype Validation = Validation(empErr: map<string, string>, vehErr: map<string, string>, errorMessages: seq<string>)

  /** Reference definition: each listed field that is missing, mapped to
      its required message. */
  function MissingMap(data: Record, fields: seq<string>, msg: string -> string): map<string, string> {
    map f | f in fields && Missing(data, f) :: msg(f)
  }

  /** `validateFields(employeeData, vehicleData)`. */
  function ValidateFields(emp: Record, veh: Record): (v: Validation)
    // the required-field errors, with the CNIC entry overwritten by the format error
    ensures v.empErr == MissingMap(emp, EmployeeFields, RequiredMessage) + (if CnicFormatBad(emp) then map["cnic" := CnicFormatMessage] else map[])
    ensures v.vehErr == MissingMap(veh, VehicleFields, RequiredMessage)
    // the messages in the order the two loops and the format check push them
    ensures v.errorMessages
         == Messages(MissingFields(emp, EmployeeFields), RequiredMessage) + Messages(MissingFields(veh, VehicleFields), RequiredMessage)
            + (if CnicFormatBad(emp) then [CnicFormatMessage] else [])
  {
    ValidateAgainst(emp, veh, EmployeeFields, VehicleFields, RequiredMessage)
  }

  /** One message per error: a CNIC that is missing gets only the required
      message, one in the wrong format only the format message. */
  lemma OneMessagePerError(emp: Record, veh: Record)
    ensures var v := ValidateFields(emp, veh); |v.errorMessages| == |v.empErr| + |v.vehErr|
  {
    FieldListsDistinct();
    var _ := ValidateAgainst(emp, veh, EmployeeFields, VehicleFields, RequiredMessage);
  }

  /** The body of `validateFields`, for any two lists of required fields. */
  function ValidateAgainst(emp: Record, veh: Record, empFields: seq<string>, vehFields: seq<string>,
                           msg: string -> string): (v: Validation)
    ensures v.empErr == MissingMap(emp, empFields, msg) + (if CnicFormatBad(emp) then map["cnic" := CnicFormatMessage] else map[])
    ensures v.vehErr == MissingMap(veh, vehFields, msg)
    ensures v.errorMessages
         == Messages(MissingFields(emp, empFields), msg) + Messages(MissingFields(veh, vehFields), msg)
            + (if CnicFormatBad(emp) then [CnicFormatMessage] else [])
    ensures Distinct(empFields) && Distinct(vehFields) ==> |v.errorMessages| == |v.empErr| + |v.vehErr|
  {
    CollectedErrors(veh, vehFields, msg);
    var v := Validation(EmployeeErrors(emp, empFields, msg), CollectRequired(veh, vehFields, msg).errors,
                        ErrorMessages(emp, veh, empFields, vehFields, msg));
    if Distinct(empFields) && Distinct(vehFields) then
      MessageCount(emp, veh, empFields, vehFields, msg);
      v
    else v
  }

  /** `empErr`: the first loop, then the format check. */
  function EmployeeErrors(emp: Record, fields: seq<string>, msg: string -> string): (m: map<string, string>)
    ensures m == MissingMap(emp, fields, msg) + (if CnicFormatBad(emp) then map["cnic" := CnicFormatMessage] else map[])
  {
    var c := CollectRequired(emp, fields, msg);
    CollectedErrors(emp, fields, msg);
    if CnicFormatBad(emp) then
      UpdateIsUnion(c.errors, "cnic", CnicFormatMessage);
      c.errors["cnic" := CnicFormatMessage]
    else
      UnionWithEmpty(c.errors);
      c.errors
  }

  /** `errorMessages`: pushed by the two loops, then by the format check. */
  function ErrorMessages(emp: Record, veh: Record, empFields: seq<string>, vehFields: seq<string>,
                         msg: string -> string): seq<string> {
    CollectRequired(emp, empFields, msg).messages + CollectRequired(veh, vehFields, msg).messages
    + (if CnicFormatBad(emp) then [CnicFormatMessage] else [])
  }

  /** A CNIC with a format error is present, so it is not also missing: the
      format error adds one key and one message. */
  lemma MessageCount(emp: Record, veh: Record, empFields: seq<string>, vehFields: seq<string>,
                     msg: string -> string)
    requires Distinct(empFields) && Distinct(vehFields)
    ensures |ErrorMessages(emp, veh, empFields, vehFields, msg)|
         == |EmployeeErrors(emp, empFields, msg)| + |CollectRequired(veh, vehFields, msg).errors|
  {
    var c := CollectRequired(emp, empFields, msg);
    if CnicFormatBad(emp) {
      assert "cnic" !in c.errors;
      assert EmployeeErrors(emp, empFields, msg) == c.errors["cnic" := CnicFormatMessage];
    }
  }

  lemma UnionWithEmpty(m: map<string, string>)
    ensures m + map[] == m
  {
  }

  lemma UpdateIsUnion(m: map<string, string>, k: string, x: string)
    ensures m[k := x] == m + map[k := x]
  {
  }

  lemma CollectedErrors(data: Record, fields: seq<string>, msg: string -> string)
    ensures CollectRequired(data, fields, msg).errors == MissingMap(data, fields, msg)
  {
  }

  /** Key by key: an employee error for each missing required field and for
      a CNIC in the wrong format, a vehicle error for each missing vehicle
      field. */
  lemma ValidateFieldsKeys(emp: Record, veh: Record)
    ensures var v := ValidateFields(emp, veh);
      && (forall f :: f in v.empErr <==> (f in EmployeeFields && Missing(emp, f)) || (f == "cnic" && CnicFormatBad(emp)))
      && (forall f :: f in v.empErr && f != "cnic" ==> v.empErr[f] == RequiredMessage(f))
      && ("cnic" in v.empErr ==>
            v.empErr["cnic"] == (if CnicFormatBad(emp) then CnicFormatMessage else RequiredMessage("cnic")))
      && (forall f :: f in v.vehErr <==> f in VehicleFields && Missing(veh, f))
      && (forall f :: f in v.vehErr ==> v.vehErr[f] == RequiredMessage(f))
  {
    EmployeeErrorKeys(emp, veh);
    VehicleErrorKeys(emp, veh);
  }

  lemma EmployeeErrorKeys(emp: Record, veh: Record)
    ensures var e := ValidateFields(emp, veh).empErr;
      && (forall f :: f in e <==> (f in EmployeeFields && Missing(emp, f)) || (f == "cnic" && CnicFormatBad(emp)))
      && (forall f :: f in e && f != "cnic" ==> e[f] == RequiredMessage(f))
      && ("cnic" in e ==> e["cnic"] == (if CnicFormatBad(emp) then CnicFormatMessage else RequiredMessage("cnic")))
  {
    AgainstKeys(emp, veh, EmployeeFields, VehicleFields, RequiredMessage);
  }

  lemma VehicleErrorKeys(emp: Record, veh: Record)
    ensures var e := ValidateFields(emp, veh).vehErr;
      && (forall f :: f in e <==> f in VehicleFields && Missing(veh, f))
      && (forall f :: f in e ==> e[f] == RequiredMessage(f))
  {
    AgainstKeys(emp, veh, EmployeeFields, VehicleFields, RequiredMessage);
  }

  /** `ValidateFieldsKeys` for any field lists and messages. */
  lemma AgainstKeys(emp: Record, veh: Record, empFields: seq<string>, vehFields: seq<string>, msg: string -> string)
    ensures var v := ValidateAgainst(emp, veh, empFields, vehFields, msg);
      && (forall f :: f in v.empErr <==> (f in empFields && Missing(emp, f)) || (f == "cnic" && CnicFormatBad(emp)))
      && (forall f :: f in v.empErr && f != "cnic" ==> v.empErr[f] == msg(f))
      && ("cnic" in v.empErr ==>
            v.empErr["cnic"] == (if CnicFormatBad(emp) then CnicFormatMessage else msg("cnic")))
      && (forall f :: f in v.vehErr <==> f in vehFields && Missing(veh, f))
      && (forall f :: f in v.vehErr ==> v.vehErr[f] == msg(f))
  {
  }

  lemma FieldListsDistinct()
    ensures Distinct(EmployeeFields) && Distinct(VehicleFields)
  {
  }

  /** Error keys only ever name required fields. */
  lemma ErrorKeysAreRequiredFields(emp: Record, veh: Record)
    ensures forall f :: f in ValidateFields(emp, veh).empErr ==> f in EmployeeFields
    ensures forall f :: f in ValidateFields(emp, veh).vehErr ==> f in VehicleFields
  {
  }

  /** A present, non-empty, well-formed form has no errors at all. */
  lemma CompleteFormPasses(emp: Record, veh: Record)
    requires forall f :: f in EmployeeFields ==> !Missing(emp, f)
    requires forall f :: f in VehicleFields ==> !Missing(veh, f)
    requires CnicTest(Get(emp, "cnic"))
    ensures ValidateFields(emp, veh) == Validation(map[], map[], [])
  {
    AgainstComplete(emp, veh, EmployeeFields, VehicleFields, RequiredMessage);
  }

  /** `CompleteFormPasses` for any field lists and messages. */
  lemma AgainstComplete(emp: Record, veh: Record, empFields: seq<string>, vehFields: seq<string>, msg: string -> string)
    requires forall f :: f in empFields ==> !Missing(emp, f)
    requires forall f :: f in vehFields ==> !Missing(veh, f)
    requires !CnicFormatBad(emp)
    ensures ValidateAgainst(emp, veh, empFields, vehFields, msg) == Validation(map[], map[], [])
  {
    NothingMissing(emp, empFields);
    NothingMissing(veh, vehFields);
    var v := ValidateAgainst(emp, veh, empFields, vehFields, msg);
    assert v.empErr == map[];
    assert v.vehErr == map[];
  }

  lemma {:induction false} NothingMissing(data: Record, fields: seq<string>)
    requires forall f :: f in fields ==> !Missing(data, f)
    ensures MissingFields(data, fields) == []
  {
    if fields != [] {
      MissingFieldsCons(data, fields);
      NothingMissing(data, fields[1..]);
    }
  }

  /** The converse: no errors at all means every required field is present
      and the CNIC, if any, is well formed. */
  lemma NoErrorsMeansComplete(emp: Record, veh: Record)
    requires ValidateFields(emp, veh).empErr == map[] && ValidateFields(emp, veh).vehErr == map[]
    ensures forall f :: f in EmployeeFields ==> !Missing(emp, f)
    ensures forall f :: f in VehicleFields ==> !Missing(veh, f)
    ensures !CnicFormatBad(emp)
  {
    AgainstNoErrors(emp, veh, EmployeeFields, VehicleFields, RequiredMessage);
  }

  lemma AgainstNoErrors(emp: Record, veh: Record, empFields: seq<string>, vehFields: seq<string>, msg: string -> string)
    requires ValidateAgainst(emp, veh, empFields, vehFields, msg).empErr == map[]
    requires ValidateAgainst(emp, veh, empFields, vehFields, msg).vehErr == map[]
    ensures forall f :: f in empFields ==> !Missing(emp, f)
    ensures forall f :: f in vehFields ==> !Missing(veh, f)
    ensures !CnicFormatBad(emp)
  {
    AgainstKeys(emp, veh, empFields, vehFields, msg);
  }

  /** `validateFields({}, {})`: eleven employee errors, eight vehicle errors,
      and the CNIC error is the required message, not the format one. */
  lemma ValidateEmptyForms(emp: Record, veh: Record)
    requires |emp| == 0 && |veh| == 0
    ensures |ValidateFields(emp, veh).empErr| == 11
    ensures |ValidateFields(emp, veh).vehErr| == 8
    ensures "cnic" in ValidateFields(emp, veh).empErr
    ensures ValidateFields(emp, veh).empErr["cnic"] == RequiredMessage("cnic")
    ensures |ValidateFields(emp, veh).errorMessages| == 19
  {
    var v := ValidateFields(emp, veh);
    assert emp == map[] && veh == map[];
    assert !CnicFormatBad(emp);
    UnionWithEmpty(MissingMap(emp, EmployeeFields, RequiredMessage));
    assert v.empErr == MissingMap(emp, EmployeeFields, RequiredMessage);
    FieldListsDistinct();
    EmptyFormErrors(emp, EmployeeFields, RequiredMessage);
    EmptyFormErrors(veh, VehicleFields, RequiredMessage);
    OneMessagePerError(emp, veh);
    assert "cnic" in EmployeeFields;
  }

  /** An empty form has one error per field of a duplicate-free list. */
  lemma EmptyFormErrors(data: Record, fields: seq<string>, msg: string -> string)
    requires |data| == 0 && Distinct(fields)
    ensures |MissingMap(data, fields, msg)| == |fields|
  {
    EverythingMissing(data, fields, msg);
    SetOfDistinct(fields);
    assert |MissingMap(data, fields, msg)| == |MissingMap(data, fields, msg).Keys|;
  }

  /** On an empty form every listed field is missing. */
  lemma EverythingMissing(data: Record, fields: seq<string>, msg: string -> string)
    requires |data| == 0
    ensures MissingMap(data, fields, msg).Keys == set f | f in fields
  {
    assert data == map[];
  }

  lemma {:induction false} SetOfDistinct(s: seq<string>)
    requires Distinct(s)
    ensures |set f | f in s| == |s|
  {
    if s != [] {
      DistinctTail(s);
      SetOfDistinct(s[1..]);
      assert (set f | f in s) == {s[0]} + (set f | f in s[1..]);
    }
  }

  // ---- checkUniqueness ----

  /** The first card found by the query on `field` is another card: the
      snapshot is not empty and, when editing, its first document is not the
      card being edited. */
  predicate Conflict(store: Firestore, field: string, value: Value, isEditing: bool, editingId: Option<string>) {
    var first := FirstMatch(store.docs, field, value);
    first.Some? && (!isEditing || Some(first.value) != editingId)
  }

  /** Whether the check queries `field` at all. */
  predicate Wanted(emp: Record, field: string) {
    if field == "cnic" then Truthy(Get(emp, field)) && CnicTest(Get(emp, field))
    else Truthy(Get(emp, field))
  }

  /** The query on `field` is issued and throws. */
  predicate Fails(store: Firestore, emp: Record, field: string) {
    Wanted(emp, field) && field in store.failingQueries
  }

  /** The query on `field` is issued, answers, and reports a conflict. */
  predicate Taken(store: Firestore, emp: Record, field: string, isEditing: bool, editingId: Option<string>) {
    ProbeOf(store, emp, field, isEditing, editingId).Taken()
  }

  function TakenMessage(field: string): string {
    if field == "serialNo" then SerialTaken else if field == "employeeCode" then CodeTaken else CnicTaken
  }

  /** The messages of the uniqueness errors in `errs`, in lookup order. */
  function FoundMessages(errs: map<string, string>): seq<string> {
    (if "serialNo" in errs then [SerialTaken] else [])
    + (if "employeeCode" in errs then [CodeTaken] else [])
    + (if "cnic" in errs then [CnicTaken] else [])
  }

  /** What one guarded lookup meets: whether its guard holds, whether its
      query throws and whether the answer is a conflict. */
  datatype Probe = Probe(wanted: bool, throws: bool, conflict: bool) {
    predicate Fails() { wanted && throws }
    predicate Taken() { wanted && !throws && conflict }
  }

  /** The lookup on `field` against the collection. */
  function ProbeOf(store: Firestore, emp: Record, field: string, isEditing: bool, editingId: Option<string>): (p: Probe)
    ensures p.wanted == Wanted(emp, field)
    ensures p.Fails() == Fails(store, emp, field)
    ensures p.Taken() ==
      (Wanted(emp, field) && field !in store.failingQueries && Conflict(store, field, Get(emp, field), isEditing, editingId))
  {
    Probe(Wanted(emp, field), field in store.failingQueries, Conflict(store, field, Get(emp, field), isEditing, editingId))
  }

  /** The result of `checkUniqueness`, with the fields it queried, in order. */
  datatype Uniqueness = Uniqueness(empErr: map<string, string>, errorMessages: seq<string>, queries: seq<string>)

  datatype Scan = Scan(empErr: map<string, string>, messages: seq<string>, queries: seq<string>, failed: bool)

  /** One guarded lookup inside the `try`: skipped once an earlier query has
      thrown (control has left the block) or when the guard is false. */
  function Lookup(s: Scan, field: string, p: Probe): (t: Scan)
    ensures s.failed || !p.wanted ==> t == s
    ensures !s.failed && p.wanted ==> t.queries == s.queries + [field]
    ensures t.failed <==> s.failed || p.Fails()
    ensures !s.failed && p.Taken() ==>
      t.empErr == s.empErr[field := TakenMessage(field)] && t.messages == s.messages + [TakenMessage(field)]
    ensures !(!s.failed && p.Taken()) ==> t.empErr == s.empErr && t.messages == s.messages
  {
    if s.failed || !p.wanted then s
    else if p.throws then s.(queries := s.queries + [field], failed := true)
    else if p.conflict then
      Scan(s.empErr[field := TakenMessage(field)], s.messages + [TakenMessage(field)], s.queries + [field], false)
    else s.(queries := s.queries + [field])
  }

  /** The three lookups in source order. */
  function Scan3(p1: Probe, p2: Probe, p3: Probe): Scan {
    var s1 := Lookup(Scan(map[], [], [], false), "serialNo", p1);
    var s2 := Lookup(s1, "employeeCode", p2);
    Lookup(s2, "cnic", p3)
  }

  /** Which errors the three lookups find, and whether one of them threw. */
  lemma Scan3Errors(p1: Probe, p2: Probe, p3: Probe)
    ensures var s := Scan3(p1, p2, p3);
      && ("serialNo" in s.empErr <==> p1.Taken())
      && ("employeeCode" in s.empErr <==> !p1.Fails() && p2.Taken())
      && ("cnic" in s.empErr <==> !p1.Fails() && !p2.Fails() && p3.Taken())
      && s.empErr.Keys <= {"serialNo", "employeeCode", "cnic"}
      && (forall f :: f in s.empErr ==> s.empErr[f] == TakenMessage(f))
      && (s.failed <==> p1.Fails() || p2.Fails() || p3.Fails())
  {
    var s1 := Lookup(Scan(map[], [], [], false), "serialNo", p1);
    var s2 := Lookup(s1, "employeeCode", p2);
    assert s1.empErr.Keys <= {"serialNo"};
    assert forall f :: f in s1.empErr ==> s1.empErr[f] == TakenMessage(f);
    assert s2.empErr.Keys <= {"serialNo", "employeeCode"};
    assert forall f :: f in s2.empErr ==> s2.empErr[f] == TakenMessage(f);
  }

  /** The messages of the scan are those of its errors, in lookup order. */
  lemma Scan3Messages(p1: Probe, p2: Probe, p3: Probe)
    ensures var s := Scan3(p1, p2, p3); s.messages == FoundMessages(s.empErr)
  {
    var s1 := Lookup(Scan(map[], [], [], false), "serialNo", p1);
    var s2 := Lookup(s1, "employeeCode", p2);
    var s3 := Lookup(s2, "cnic", p3);
    FoundAfterSerial(s1.empErr, s1.messages);
    FoundAfterCode(s1.empErr, s1.messages, s2.empErr, s2.messages);
    FoundAfterCnic(s2.empErr, s2.messages, s3.empErr, s3.messages);
  }

  /** Which fields the three lookups query, in order; with no guard holding
      the scan is empty. */
  lemma Scan3Queries(p1: Probe, p2: Probe, p3: Probe)
    ensures var s := Scan3(p1, p2, p3);
      && IsSubsequence(s.queries, ["serialNo", "employeeCode", "cnic"])
      && ("serialNo" in s.queries <==> p1.wanted)
      && ("employeeCode" in s.queries <==> !p1.Fails() && p2.wanted)
      && ("cnic" in s.queries <==> !p1.Fails() && !p2.Fails() && p3.wanted)
      && (!p1.wanted && !p2.wanted && !p3.wanted ==> s == Scan(map[], [], [], false))
  {
    var s1 := Lookup(Scan(map[], [], [], false), "serialNo", p1);
    var s2 := Lookup(s1, "employeeCode", p2);
    var s3 := Lookup(s2, "cnic", p3);
    QueriesInOrder(s1.queries, s2.queries, s3.queries);
  }

  lemma QueriesInOrder(q1: seq<string>, q2: seq<string>, q3: seq<string>)
    requires q1 == [] || q1 == ["serialNo"]
    requires q2 == q1 || q2 == q1 + ["employeeCode"]
    requires q3 == q2 || q3 == q2 + ["cnic"]
    ensures IsSubsequence(q3, ["serialNo", "employeeCode", "cnic"])
    ensures "serialNo" in q3 <==> q1 != []
    ensures "employeeCode" in q3 <==> q2 != q1
    ensures "cnic" in q3 <==> q3 != q2
  {
  }

  /** `checkUniqueness(employeeData, isEditing, editingCardId)`: the serial,
      employee-code and CNIC lookups inside one `try`; a thrown query ends
      the block and adds the generic message. */
  function CheckUniqueness(store: Firestore, emp: Record, isEditing: bool, editingId: Option<string>): (u: Uniqueness)
    // nothing to look up: empty results and no query
    ensures !Truthy(Get(emp, "serialNo")) && !Truthy(Get(emp, "employeeCode")) && !Truthy(Get(emp, "cnic")) ==>
      u == Uniqueness(map[], [], [])
  {
    if !Truthy(Get(emp, "serialNo")) && !Truthy(Get(emp, "employeeCode")) && !Truthy(Get(emp, "cnic")) then
      Uniqueness(map[], [], [])
    else
      var s := UniquenessScan(store, emp, isEditing, editingId);
      Uniqueness(s.empErr, s.messages + (if s.failed then [DatabaseError] else []), s.queries)
  }

  /** The three lookups against the collection. */
  function UniquenessScan(store: Firestore, emp: Record, isEditing: bool, editingId: Option<string>): Scan {
    Scan3(ProbeOf(store, emp, "serialNo", isEditing, editingId),
          ProbeOf(store, emp, "employeeCode", isEditing, editingId),
          ProbeOf(store, emp, "cnic", isEditing, editingId))
  }

  /** `CheckUniqueness` is the scan over its three guards, also when nothing
      is truthy (then no guard holds and the scan is empty). */
  lemma CheckUniquenessIsScan(store: Firestore, emp: Record, isEditing: bool, editingId: Option<string>)
    ensures var s := UniquenessScan(store, emp, isEditing, editingId);
      CheckUniqueness(store, emp, isEditing, editingId)
        == Uniqueness(s.empErr, s.messages + (if s.failed then [DatabaseError] else []), s.queries)
  {
    Scan3Queries(ProbeOf(store, emp, "serialNo", isEditing, editingId),
                 ProbeOf(store, emp, "employeeCode", isEditing, editingId),
                 ProbeOf(store, emp, "cnic", isEditing, editingId));
  }

  /** Each uniqueness error is found exactly when its query runs before any
      query has thrown and reports a conflict; the error carries that
      field's message and no other key appears. */
  lemma UniquenessErrors(store: Firestore, emp: Record, isEditing: bool, editingId: Option<string>)
    ensures var u := CheckUniqueness(store, emp, isEditing, editingId);
      && ("serialNo" in u.empErr <==> Taken(store, emp, "serialNo", isEditing, editingId))
      && ("employeeCode" in u.empErr <==>
            !Fails(store, emp, "serialNo") && Taken(store, emp, "employeeCode", isEditing, editingId))
      && ("cnic" in u.empErr <==>
            !Fails(store, emp, "serialNo") && !Fails(store, emp, "employeeCode") && Taken(store, emp, "cnic", isEditing, editingId))
      && u.empErr.Keys <= {"serialNo", "employeeCode", "cnic"}
      && (forall f :: f in u.empErr ==> u.empErr[f] == TakenMessage(f))
  {
    CheckUniquenessIsScan(store, emp, isEditing, editingId);
    Scan3Errors(ProbeOf(store, emp, "serialNo", isEditing, editingId),
                ProbeOf(store, emp, "employeeCode", isEditing, editingId),
                ProbeOf(store, emp, "cnic", isEditing, editingId));
  }

  /** The messages of the errors found, in lookup order, followed by the
      generic message exactly when an issued query threw. */
  lemma UniquenessMessages(store: Firestore, emp: Record, isEditing: bool, editingId: Option<string>)
    ensures var u := CheckUniqueness(store, emp, isEditing, editingId);
      u.errorMessages == FoundMessages(u.empErr)
        + (if Fails(store, emp, "serialNo") || Fails(store, emp, "employeeCode") || Fails(store, emp, "cnic")
           then [DatabaseError] else [])
  {
    var p1, p2, p3 := ProbeOf(store, emp, "serialNo", isEditing, editingId),
                      ProbeOf(store, emp, "employeeCode", isEditing, editingId),
                      ProbeOf(store, emp, "cnic", isEditing, editingId);
    CheckUniquenessIsScan(store, emp, isEditing, editingId);
    Scan3Errors(p1, p2, p3);
    Scan3Messages(p1, p2, p3);
  }

  /** A uniqueness error names one of the three looked-up fields, and only
      a field whose lookup was wanted. */
  lemma UniquenessKeysWanted(store: Firestore, emp: Record, isEditing: bool, editingId: Option<string>)
    ensures forall k :: k in CheckUniqueness(store, emp, isEditing, editingId).empErr ==>
      (k == "serialNo" || k == "employeeCode" || k == "cnic") && Wanted(emp, k)
  {
    UniquenessErrors(store, emp, isEditing, editingId);
  }

  /** A wanted lookup is on a filled-in field, and a wanted CNIC is in the
      right format. */
  lemma WantedIsFilled(emp: Record, k: string)
    requires Wanted(emp, k)
    ensures !Missing(emp, k)
    ensures k == "cnic" ==> !CnicFormatBad(emp)
  {
  }

  lemma FoundAfterSerial(e: map<string, string>, m: seq<string>)
    requires (e == map[] && m == []) || (e == map["serialNo" := SerialTaken] && m == [SerialTaken])
    ensures e.Keys <= {"serialNo"} && m == FoundMessages(e)
  {
  }

  lemma FoundAfterCode(e1: map<string, string>, m1: seq<string>, e2: map<string, string>, m2: seq<string>)
    requires e1.Keys <= {"serialNo"} && m1 == FoundMessages(e1)
    requires (e2 == e1 && m2 == m1) || (e2 == e1["employeeCode" := CodeTaken] && m2 == m1 + [CodeTaken])
    ensures e2.Keys <= {"serialNo", "employeeCode"} && m2 == FoundMessages(e2)
  {
    assert "serialNo" in e2 <==> "serialNo" in e1;
  }

  lemma FoundAfterCnic(e2: map<string, string>, m2: seq<string>, e3: map<string, string>, m3: seq<string>)
    requires e2.Keys <= {"serialNo", "employeeCode"} && m2 == FoundMessages(e2)
    requires (e3 == e2 && m3 == m2) || (e3 == e2["cnic" := CnicTaken] && m3 == m2 + [CnicTaken])
    ensures m3 == FoundMessages(e3)
  {
    assert "serialNo" in e3 <==> "serialNo" in e2;
    assert "employeeCode" in e3 <==> "employeeCode" in e2;
  }

  /** The lookups run in source order, each at most once, the CNIC one only
      for a CNIC in the right format; a field is queried exactly when its
      guard holds and no earlier query has thrown. */
  lemma UniquenessQueries(store: Firestore, emp: Record, isEditing: bool, editingId: Option<string>)
    ensures var q := CheckUniqueness(store, emp, isEditing, editingId).queries;
      && IsSubsequence(q, ["serialNo", "employeeCode", "cnic"])
      && ("cnic" in q ==> CnicTest(Get(emp, "cnic")))
      && ("serialNo" in q <==> Wanted(emp, "serialNo"))
      && ("employeeCode" in q <==> !Fails(store, emp, "serialNo") && Wanted(emp, "employeeCode"))
      && ("cnic" in q <==> !Fails(store, emp, "serialNo") && !Fails(store, emp, "employeeCode") && Wanted(emp, "cnic"))
  {
    CheckUniquenessIsScan(store, emp, isEditing, editingId);
    Scan3Queries(ProbeOf(store, emp, "serialNo", isEditing, editingId),
                 ProbeOf(store, emp, "employeeCode", isEditing, editingId),
                 ProbeOf(store, emp, "cnic", isEditing, editingId));
  }
}
