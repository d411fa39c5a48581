/** `DELETE /appointments/:id` and `POST /appointments/cancel-by-phone`: which
    row they cancel, or the error they answer, and the soft delete itself. */
module Cancel {
  import opened Js
  import opened Interval
  import opened Records
  import opened Booking

  /** `String(phone).replace(/\D+/g, '')`. */
  function Normalized(phone: JsValue): string
  {
    KeepDigits(ToJsString(phone))
  }

  predicate LeadingZero(p: string)
  {
    |p| > 0 && p[0] == '0'
  }

  /** The phone numbers looked up, in order: the number itself; then without
      its leading 0, or with a 0 put in front when it has none; then with the
      country code 58 in front of the number without its leading 0. */
  function Variants(p: string): (vs: seq<string>)
    ensures |vs| == 3 && vs[0] == p
    ensures LeadingZero(p) ==> vs[1] == p[1..] && vs[2] == "58" + p[1..]
    ensures !LeadingZero(p) ==> vs[1] == "0" + p && vs[2] == "58" + p
  {
    var bare := if LeadingZero(p) then p[1..] else p;
    [p, if LeadingZero(p) then bare else "0" + p, "58" + bare]
  }

  /** The three lookups are the three spellings of one national number `b`
      (the digits without a leading 0): `b`, `"0" + b` and `"58" + b`, each
      tried exactly once, the number as given first. */
  lemma VariantsSpellings(p: string)
    ensures var b := if LeadingZero(p) then p[1..] else p;
            var vs := Variants(p);
            vs[0] == p && multiset(vs) == multiset{b, "0" + b, "58" + b}
            && vs[0] != vs[1] && vs[1] != vs[2] && vs[0] != vs[2]
  {
    var b := if LeadingZero(p) then p[1..] else p;
    var vs := Variants(p);
    if LeadingZero(p) {
      assert p == "0" + b;
      assert vs == ["0" + b, b, "58" + b];
      assert (vs[0])[0] != (vs[2])[0];
    } else {
      assert vs == [b, "0" + b, "58" + b];
    }
    assert |vs[0]| != |vs[1]| && |vs[1]| != |vs[2]|;
  }

  /** `WpUsermeta.findOne({ meta_key: 'mobile', meta_value: v })`: the first
      such row. */
  function FindMobile(users: seq<UserMeta>, v: string): (u: Option<UserMeta>)
    ensures u.Some? ==> u.value in users && u.value.key == "mobile" && u.value.value == v
    ensures u.None? ==> forall x :: x in users ==> !(x.key == "mobile" && x.value == v)
  {
    if |users| == 0 then None
    else if users[0].key == "mobile" && users[0].value == v then Some(users[0])
    else FindMobile(users[1..], v)
  }

  /** The first lookup, in order, that finds a patient. */
  function FindPatient(users: seq<UserMeta>, vs: seq<string>): Option<UserMeta>
  {
    if |vs| == 0 then None
    else if FindMobile(users, vs[0]).Some? then FindMobile(users, vs[0])
    else FindPatient(users, vs[1..])
  }

  /** The patient found is the one the first successful lookup finds, and no
      patient is found only when every lookup fails. */
  lemma {:induction false} FindPatientFirst(users: seq<UserMeta>, vs: seq<string>)
    ensures var u := FindPatient(users, vs);
            u.Some? ==> exists i :: 0 <= i < |vs| && FindMobile(users, vs[i]) == u
                                    && forall j :: 0 <= j < i ==> FindMobile(users, vs[j]).None?
    ensures FindPatient(users, vs).None? ==> forall i :: 0 <= i < |vs| ==> FindMobile(users, vs[i]).None?
  {
    if |vs| > 0 && FindMobile(users, vs[0]).None? {
      var rest := vs[1..];
      FindPatientFirst(users, rest);
      if FindPatient(users, rest).Some? {
        var i :| 0 <= i < |rest| && FindMobile(users, rest[i]) == FindPatient(users, rest)
                 && forall j :: 0 <= j < i ==> FindMobile(users, rest[j]).None?;
        assert vs[i + 1] == rest[i];
        forall j | 0 <= j < i + 1 ensures FindMobile(users, vs[j]).None? {
          if j > 0 {
            assert vs[j] == rest[j - 1];
          }
        }
      } else {
        forall i | 0 <= i < |vs| ensures FindMobile(users, vs[i]).None? {
          if i > 0 {
            assert vs[i] == rest[i - 1];
          }
        }
      }
    }
  }

  /** The lookups of the handler, one after the other, each only while no
      patient has been found. */
  method LookupPatient(users: seq<UserMeta>, p: string) returns (userMeta: Option<UserMeta>)
    ensures userMeta == FindPatient(users, Variants(p))
  {
    var vs := Variants(p);
    assert FindPatient(users, vs[1..][1..][1..]) == None;
    assert FindPatient(users, vs[1..][1..]) == FindMobile(users, vs[2]);
    assert FindPatient(users, vs[1..]) == if FindMobile(users, vs[1]).Some? then FindMobile(users, vs[1]) else FindMobile(users, vs[2]);
    userMeta := FindMobile(users, p);
    if userMeta.None? {
      if LeadingZero(p) {
        userMeta := FindMobile(users, p[1..]);
      }
      if userMeta.None? && !LeadingZero(p) {
        userMeta := FindMobile(users, "0" + p);
      }
      if userMeta.None? {
        var withCountryCode := "58" + (if LeadingZero(p) then p[1..] else p);
        userMeta := FindMobile(users, withCountryCode);
      }
    }
  }

  /** Some row has the ID `id` (a NaN ID matches none), belongs to `pat` and
      has `active` equal to `active`. */
  predicate HasAppointment(store: seq<Appointment>, id: Option<int>, pat: int, active: int)
  {
    exists i :: 0 <= i < |store| && id == Some(store[i].id) && store[i].pat == pat && store[i].active == active
  }

  /** Some row has the ID `id`. */
  predicate HasId(store: seq<Appointment>, id: Option<int>)
  {
    exists i :: 0 <= i < |store| && id == Some(store[i].id)
  }

  /** The ID `cancelByPhone` cancels, or the error it answers:
      `missing_fields` when the phone or the ID is missing, then
      `invalid_phone` for a number of fewer than 6 or more than 20 digits. */
  function CancelPlan(phone: JsValue, appointmentId: JsValue, users: seq<UserMeta>, store: seq<Appointment>): (r: Result<int>)
    ensures r.Ok? ==> ToNumber(appointmentId) == Some(r.value)
    ensures r == Err(MissingFields) <==> !Truthy(phone) || !Truthy(appointmentId)
    ensures r == Err(InvalidPhone) <==> Truthy(phone) && Truthy(appointmentId) && !(6 <= |Normalized(phone)| <= 20)
  {
    if !Truthy(phone) || !Truthy(appointmentId) then Err(MissingFields)
    else
      var p := Normalized(phone);
      if |p| < 6 || |p| > 20 then Err(InvalidPhone)
      else
        match FindPatient(users, Variants(p))
        case None => Err(PatientNotFound)
        case Some(u) => Outcome(store, ToNumber(appointmentId), u.userId)
  }

  /** Once the patient is known: their active appointment with the ID, else
      `appointment_already_cancelled` for a cancelled one of theirs, else
      `appointment_not_yours` when the ID is someone else's, else
      `appointment_not_found`. */
  function Outcome(store: seq<Appointment>, id: Option<int>, pat: int): (r: Result<int>)
    ensures r.Ok? ==> id == Some(r.value)
    ensures r.Err? ==> r.error in {AppointmentAlreadyCancelled, AppointmentNotYours, AppointmentNotFound}
  {
    if HasAppointment(store, id, pat, 1) then Ok(id.value)
    else if HasAppointment(store, id, pat, 0) then Err(AppointmentAlreadyCancelled)
    else if HasId(store, id) then Err(AppointmentNotYours)
    else Err(AppointmentNotFound)
  }

  /** The four outcomes for a known patient, each stated over the rows. */
  lemma OutcomeFacts(store: seq<Appointment>, id: Option<int>, pat: int)
    ensures var r := Outcome(store, id, pat);
            var mine := set a | a in store && id == Some(a.id) && a.pat == pat;
            (r.Ok? <==> exists a :: a in mine && a.active == 1)
            && (r == Err(AppointmentAlreadyCancelled) <==>
                  (forall a :: a in mine ==> a.active != 1) && exists a :: a in mine && a.active == 0)
            && (r == Err(AppointmentNotYours) <==>
                  (forall a :: a in mine ==> a.active != 1 && a.active != 0)
                  && exists a :: a in store && id == Some(a.id))
            && (r == Err(AppointmentNotFound) <==> forall a :: a in store ==> id != Some(a.id))
  {
    var mine := set a | a in store && id == Some(a.id) && a.pat == pat;
    if HasAppointment(store, id, pat, 1) {
      var k :| 0 <= k < |store| && id == Some(store[k].id) && store[k].pat == pat && store[k].active == 1;
      assert store[k] in mine;
    } else {
      forall a | a in mine ensures a.active != 1 {
        var k :| 0 <= k < |store| && store[k] == a;
      }
      if HasAppointment(store, id, pat, 0) {
        var k :| 0 <= k < |store| && id == Some(store[k].id) && store[k].pat == pat && store[k].active == 0;
        assert store[k] in mine;
      } else {
        forall a | a in mine ensures a.active != 0 {
          var k :| 0 <= k < |store| && store[k] == a;
        }
        if HasId(store, id) {
          var k :| 0 <= k < |store| && id == Some(store[k].id);
          assert store[k] in store;
        } else {
          forall a | a in store ensures id != Some(a.id) {
            var k :| 0 <= k < |store| && store[k] == a;
          }
        }
      }
    }
  }

  /** Past the input checks, `cancelByPhone` answers `patient_not_found` exactly when no
      variant of the number is some user's mobile number. */
  lemma CancelPlanNoPatient(phone: JsValue, appointmentId: JsValue, users: seq<UserMeta>, store: seq<Appointment>)
    requires Truthy(phone) && Truthy(appointmentId) && 6 <= |Normalized(phone)| <= 20
    ensures CancelPlan(phone, appointmentId, users, store) == Err(PatientNotFound) <==>
              forall v :: v in Variants(Normalized(phone)) ==> FindMobile(users, v).None?
  {
    var vs := Variants(Normalized(phone));
    FindPatientFirst(users, vs);
    if FindPatient(users, vs).None? {
      forall v | v in vs ensures FindMobile(users, v).None? {
        var i :| 0 <= i < |vs| && vs[i] == v;
      }
    }
  }

  /** Past those checks, `cancelByPhone` answers the outcome for the patient
      whose mobile number is a variant of the phone number (the first variant
      found). */
  lemma CancelPlanPatient(phone: JsValue, appointmentId: JsValue, users: seq<UserMeta>, store: seq<Appointment>)
    requires Truthy(phone) && Truthy(appointmentId) && 6 <= |Normalized(phone)| <= 20
    requires CancelPlan(phone, appointmentId, users, store) != Err(PatientNotFound)
    ensures exists u :: u in users && u.key == "mobile" && u.value in Variants(Normalized(phone))
                        && CancelPlan(phone, appointmentId, users, store) == Outcome(store, ToNumber(appointmentId), u.userId)
  {
    var vs := Variants(Normalized(phone));
    FindPatientFirst(users, vs);
    var u := FindPatient(users, vs).value;
    var i :| 0 <= i < |vs| && FindMobile(users, vs[i]) == Some(u);
    assert u.value in vs;
  }

  /** The ID `deleteAppointment` cancels: the one of the path when a row has
      it, `not_found` otherwise. */
  function DeletePlan(id: JsValue, store: seq<Appointment>): (r: Result<int>)
    ensures r.Ok? <==> exists a :: a in store && ToNumber(id) == Some(a.id)
    ensures r.Ok? ==> ToNumber(id) == Some(r.value)
    ensures r.Err? ==> r.error == NotFound
  {
    if HasId(store, ToNumber(id)) then
      Ok(ToNumber(id).value)
    else
      assert forall a :: a in store ==> ToNumber(id) != Some(a.id) by {
        forall a | a in store ensures ToNumber(id) != Some(a.id) {
          var k :| 0 <= k < |store| && store[k] == a;
        }
      }
      Err(NotFound)
  }

  /** `update({ active: 0 })` on the rows with the ID. */
  function Deactivate(store: seq<Appointment>, id: int): (r: seq<Appointment>)
    ensures |r| == |store|
    ensures forall i :: 0 <= i < |store| ==> r[i] == if store[i].id == id then store[i].(active := 0) else store[i]
  {
    if |store| == 0 then []
    else [if store[0].id == id then store[0].(active := 0) else store[0]] + Deactivate(store[1..], id)
  }

  /** A soft delete leaves no active row with the ID, changes nothing but
      `active`, and keeps the active appointments of each doctor and clinic
      disjoint and the IDs distinct. */
  lemma DeactivateFacts(store: seq<Appointment>, id: int)
    ensures forall a :: a in Deactivate(store, id) && a.id == id ==> a.active == 0
    ensures forall i :: 0 <= i < |store| ==> Deactivate(store, id)[i].(active := store[i].active) == store[i]
    ensures Disjoint(store) ==> Disjoint(Deactivate(store, id))
    ensures DistinctIds(store) ==> DistinctIds(Deactivate(store, id))
  {
    var r := Deactivate(store, id);
    forall a | a in r && a.id == id ensures a.active == 0 {
      var i :| 0 <= i < |r| && r[i] == a;
    }
  }
}
