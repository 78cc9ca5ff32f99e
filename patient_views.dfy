/** The decision logic of the mutating views: `create_patient`,
    `delete_patient` and `deleteNote`. Each view is a function from the
    request and the record store to the response and the new store; the
    record store is a map from primary key to row, and the facility table a
    sequence of rows in primary-key order. */
module PatientViews {
  import opened Text
  import opened Records

  datatype HttpMethod = Get | Post

  /** The session's user: anonymous, or an authenticated account. */
  datatype Caller = Anonymous | SignedIn(userId: nat, username: string)

  /** What a view reads from the request: its verb, its caller and the
      submitted form fields. */
  datatype Request = Request(verb: HttpMethod, caller: Caller, form: map<string, string>)

  /** What a view answers. */
  datatype Response =
    | CreateForm(facilityId: nat)   // the patients/create.html page
    | Message(text: string)         // a plain-text response
    | ToPatientDetail(patientId: nat)
    | ToPatientList
    | ToNoteList
    | ServerError                   // an uncaught lookup failure

  datatype Outcome<S> = Outcome(response: Response, store: S)

  /** `Facility.objects.filter(id=id).first()`. */
  function FacilityById(facilities: seq<Facility>, id: nat): (r: Option<Facility>)
    ensures r.Some? ==> r.value in facilities && r.value.id == id
    ensures r.None? ==> forall k :: 0 <= k < |facilities| ==> facilities[k].id != id
  {
    if facilities == [] then None
    else if facilities[0].id == id then Some(facilities[0])
    else FacilityById(facilities[1..], id)
  }

  /** `Facility.objects.filter(name=name).first()`: the first row, in
      primary-key order, with that name. */
  function FacilityByName(facilities: seq<Facility>, name: string): (r: Option<Facility>)
    ensures r.Some? ==>
              (exists k :: 0 <= k < |facilities| && facilities[k] == r.value && r.value.name == name &&
                            (forall m :: 0 <= m < k ==> facilities[m].name != name))
    ensures r.None? ==> forall k :: 0 <= k < |facilities| ==> facilities[k].name != name
  {
    if facilities == [] then None
    else if facilities[0].name == name then Some(facilities[0])
    else
      var r := FacilityByName(facilities[1..], name);
      assert forall k :: 1 <= k < |facilities| ==> facilities[1..][k - 1] == facilities[k];
      r
  }

  /** A form field is truthy when it was submitted and is not empty. */
  predicate Filled(form: map<string, string>, key: string) {
    key in form && form[key] != ""
  }

  /** The age check: all digits, and strictly between 0 and 150 as a number. */
  predicate ValidAge(age: string) {
    IsDigits(age) && 0 < DecimalValue(age) < 150
  }

  /** The age check accepts the decimal rendering of exactly the numbers 1
      to 149, and it accepts leading zeros: "007" is read as 7. */
  lemma ValidAgeAccepts(n: nat, s: string)
    requires IsDigits(s)
    ensures ValidAge(Decimal(n)) <==> 0 < n < 150
    ensures ValidAge(['0'] + s) <==> ValidAge(s)
  {
    DecimalRoundTrip(n);
    LeadingZeroValue(s);
  }

  /** The caller is authenticated and is one of the facility's doctors. */
  predicate IsDoctorOf(caller: Caller, f: Facility) {
    caller.SignedIn? && caller.userId in f.doctors
  }

  /** The four required fields of the creation form are filled. */
  predicate RequiredFieldsFilled(form: map<string, string>) {
    Filled(form, "name") && Filled(form, "age") && Filled(form, "phone") && Filled(form, "address")
  }

  /** The row `create_patient` inserts: `diagnoses` defaults to the empty string. */
  function NewPatient(req: Request, f: Facility): (p: Patient)
    requires req.caller.SignedIn? && RequiredFieldsFilled(req.form) && ValidAge(req.form["age"])
    ensures 0 < p.age < 150
    ensures p.name != "" && p.phone != "" && p.address != ""
    ensures p.facilityName == f.name && p.doctorName == req.caller.username
    ensures "diagnoses" !in req.form ==> p.diagnoses == ""
  {
    Patient(
      req.form["name"],
      f.name,
      req.caller.username,
      DecimalValue(req.form["age"]),
      if "diagnoses" in req.form then req.form["diagnoses"] else "",
      req.form["phone"],
      req.form["address"])
  }

  /** `create_patient`: the guards are tried in order and the first that fails
      decides the response; only when all pass is one row added, under the key
      `newId` that the record store assigns. */
  function CreatePatient(req: Request, facilityId: nat, facilities: seq<Facility>,
                         patients: map<nat, Patient>, newId: nat): (out: Outcome<map<nat, Patient>>)
    requires newId !in patients
    ensures req.verb != Post ==> out == Outcome(CreateForm(facilityId), patients)
    ensures req.verb == Post && req.caller.Anonymous? ==>
      out == Outcome(Message("You must be logged in"), patients)
    ensures req.verb == Post && req.caller.SignedIn? && FacilityById(facilities, facilityId).None? ==>
      out == Outcome(Message("Facility not found"), patients)
    ensures req.verb == Post && req.caller.SignedIn? && FacilityById(facilities, facilityId).Some? ==>
      var f := FacilityById(facilities, facilityId).value;
      && (!IsDoctorOf(req.caller, f) ==>
            out == Outcome(Message("You do not have access to this facility"), patients))
      && (IsDoctorOf(req.caller, f) && !RequiredFieldsFilled(req.form) ==>
            out == Outcome(Message("All fields are required"), patients))
      && (IsDoctorOf(req.caller, f) && RequiredFieldsFilled(req.form) && !ValidAge(req.form["age"]) ==>
            out == Outcome(Message("Invalid age"), patients))
      && (IsDoctorOf(req.caller, f) && RequiredFieldsFilled(req.form) && ValidAge(req.form["age"]) ==>
            out == Outcome(ToPatientDetail(newId), patients[newId := NewPatient(req, f)]))
  {
    if req.verb == Post then
      if req.caller.SignedIn? then
        match FacilityById(facilities, facilityId)
        case Some(f) =>
          if req.caller.userId in f.doctors then
            if RequiredFieldsFilled(req.form) then
              if ValidAge(req.form["age"]) then
                Outcome(ToPatientDetail(newId), patients[newId := NewPatient(req, f)])
              else Outcome(Message("Invalid age"), patients)
            else Outcome(Message("All fields are required"), patients)
          else Outcome(Message("You do not have access to this facility"), patients)
        case None => Outcome(Message("Facility not found"), patients)
      else Outcome(Message("You must be logged in"), patients)
    else Outcome(CreateForm(facilityId), patients)
  }

  /** `create_patient` adds at most one row, and only when it redirects to it;
      the added row belongs to the facility, was filed by the caller, who is
      one of its doctors, and has a filled name, phone and address and an age
      strictly between 0 and 150. */
  lemma CreatePatientAddsOneValidRow(req: Request, facilityId: nat, facilities: seq<Facility>,
                                     patients: map<nat, Patient>, newId: nat)
    requires newId !in patients
    ensures var out := CreatePatient(req, facilityId, facilities, patients, newId);
      && (out.store == patients || out.store.Keys == patients.Keys + {newId})
      && (forall k :: k in patients ==> k in out.store && out.store[k] == patients[k])
      && (out.response.ToPatientDetail? <==> out.store != patients)
      && (out.store != patients ==>
            && req.verb == Post && req.caller.SignedIn?
            && FacilityById(facilities, facilityId).Some?
            && var f := FacilityById(facilities, facilityId).value;
            && req.caller.userId in f.doctors
            && var p := out.store[newId];
            && p.facilityName == f.name && p.doctorName == req.caller.username
            && 0 < p.age < 150 && p.name != "" && p.phone != "" && p.address != "")
  {
    var out := CreatePatient(req, facilityId, facilities, patients, newId);
    if out.store != patients {
      assert newId in out.store;
    }
  }

  /** `delete_patient`: POST only, authenticated only, the patient must exist,
      a facility named like the patient's must exist, and the caller must be
      one of the first such facility's doctors; only then is the row removed. */
  function DeletePatient(req: Request, patientId: nat, facilities: seq<Facility>,
                         patients: map<nat, Patient>): (out: Outcome<map<nat, Patient>>)
    ensures req.verb != Post ==> out == Outcome(Message("Method not allowed"), patients)
    ensures req.verb == Post && req.caller.Anonymous? ==>
      out == Outcome(Message("You must be logged in"), patients)
    ensures req.verb == Post && req.caller.SignedIn? && patientId !in patients ==>
      out == Outcome(Message("Patient not found"), patients)
    ensures req.verb == Post && req.caller.SignedIn? && patientId in patients ==>
      match FacilityByName(facilities, patients[patientId].facilityName)
      case None => out == Outcome(Message("Facility not found"), patients)
      case Some(f) =>
        if IsDoctorOf(req.caller, f) then out == Outcome(ToPatientList, patients - {patientId})
        else out == Outcome(Message("You do not have access"), patients)
  {
    if req.verb == Post then
      if req.caller.SignedIn? then
        if patientId in patients then
          match FacilityByName(facilities, patients[patientId].facilityName)
          case Some(f) =>
            if req.caller.userId in f.doctors then Outcome(ToPatientList, patients - {patientId})
            else Outcome(Message("You do not have access"), patients)
          case None => Outcome(Message("Facility not found"), patients)
        else Outcome(Message("Patient not found"), patients)
      else Outcome(Message("You must be logged in"), patients)
    else Outcome(Message("Method not allowed"), patients)
  }

  /** `delete_patient` changes the store exactly when it removes the requested
      patient, and that happens only for a POST by a doctor of the patient's
      facility; every other row is left as it was. */
  lemma DeletePatientRemovesOnlyAuthorized(req: Request, patientId: nat, facilities: seq<Facility>,
                                           patients: map<nat, Patient>)
    ensures var out := DeletePatient(req, patientId, facilities, patients);
      && (out.store == patients || out.store == patients - {patientId})
      && (forall k :: k in patients && k != patientId ==> k in out.store && out.store[k] == patients[k])
      && (out.store != patients <==>
            && req.verb == Post
            && patientId in patients
            && FacilityByName(facilities, patients[patientId].facilityName).Some?
            && IsDoctorOf(req.caller, FacilityByName(facilities, patients[patientId].facilityName).value))
      && (out.store != patients <==> out.response == ToPatientList)
  {
    var out := DeletePatient(req, patientId, facilities, patients);
    if out.response == ToPatientList {
      assert patientId in patients && patientId !in out.store;
    }
  }

  /** `deleteNote`: an authenticated POST deletes the note; the note must exist
      (a missing one is an uncaught error). A GET and an unauthenticated POST get
      the same "Method not allowed" answer and change nothing. */
  function DeleteNote(req: Request, noteId: nat, notes: map<nat, PatientNote>): (out: Outcome<map<nat, PatientNote>>)
    ensures (req.verb != Post || req.caller.Anonymous?) ==>
      out == Outcome(Message("Method not allowed"), notes)
    ensures req.verb == Post && req.caller.SignedIn? && noteId !in notes ==>
      out == Outcome(ServerError, notes)
    ensures req.verb == Post && req.caller.SignedIn? && noteId in notes ==>
      out == Outcome(ToNoteList, notes - {noteId})
  {
    if req.verb == Post && req.caller.SignedIn? then
      if noteId in notes then Outcome(ToNoteList, notes - {noteId})
      else Outcome(ServerError, notes)
    else Outcome(Message("Method not allowed"), notes)
  }

  /** Unlike `delete_patient`, which tells an anonymous POST to log in,
      `deleteNote` answers an anonymous request of any verb exactly as it
      answers a GET. */
  lemma AnonymousDeleteAnswers(verb: HttpMethod, form: map<string, string>, noteId: nat,
                               notes: map<nat, PatientNote>, patientId: nat,
                               facilities: seq<Facility>, patients: map<nat, Patient>)
    ensures DeleteNote(Request(verb, Anonymous, form), noteId, notes)
         == DeleteNote(Request(Get, Anonymous, form), noteId, notes)
    ensures DeletePatient(Request(Post, Anonymous, form), patientId, facilities, patients).response
         == Message("You must be logged in")
    ensures DeletePatient(Request(Get, Anonymous, form), patientId, facilities, patients).response
         == Message("Method not allowed")
  {
  }
}
