/**
 * What the registry's operations preserve and how they relate: booking and
 * cancelling keep the invariant, cancelling a booking undoes it, a booked
 * slot leaves the free-slot list and comes back after cancellation, and
 * registering a patient is idempotent on the name.
 */
module Invariants {
  import opened Persons
  import opened Records
  import opened Slots
  import opened Queries
  import opened Operations

  /*************************** pooled-entry helpers ***************************/

  lemma TriplesAppend(apps: seq<Appointment>, a: Appointment)
    ensures Triples(apps + [a]) == Triples(apps) + [EntryOf(a)]
  {
    assert (apps + [a])[..|apps|] == apps;
  }

  /** Appending e to one record adds exactly one e to the pool. */
  lemma PooledAfterAppend(people: seq<Person>, i: nat, e: Entry)
    requires i < |people|
    ensures multiset(AllEntries(people[i := people[i].(appointments := people[i].appointments + [e])]))
         == multiset(AllEntries(people)) + multiset{e}
  {
    var p' := people[i].(appointments := people[i].appointments + [e]);
    AllEntriesUpdate(people, i, p');
    var a, b := multiset(AllEntries(people[i := p'])), multiset(people[i].appointments);
    var c := multiset(AllEntries(people));
    assert a + b == c + b + multiset{e};
    forall x ensures a[x] == (c + multiset{e})[x] {
      assert (a + b)[x] == (c + b + multiset{e})[x];
    }
  }

  /** Deleting e from the one record that holds it removes every e from the pool. */
  lemma PooledAfterDelete(people: seq<Person>, i: nat, e: Entry)
    requires i < |people|
    requires forall k :: 0 <= k < |people| && k != i ==> e !in people[k].appointments
    ensures multiset(AllEntries(people[i := Deleted(people[i], e)])) == multiset(AllEntries(people))[e := 0]
  {
    var p' := Deleted(people[i], e);
    AllEntriesUpdate(people, i, p');
    WithoutMultiset(people[i].appointments, e);
    AllEntriesOnlyIn(people, i, e);
    var a, b := multiset(AllEntries(people[i := p'])), multiset(people[i].appointments);
    var c := multiset(AllEntries(people));
    assert a + b == c + b[e := 0];
    forall x ensures a[x] == c[e := 0][x] {
      assert (a + b)[x] == (c + b[e := 0])[x];
    }
  }

  /** Under the invariant only the doctor named e.doctorName can hold e. */
  lemma OnlyNamedDoctorHolds(doctors: seq<Person>, i: nat, e: Entry)
    requires UniqueNames(doctors) && DoctorEntriesOwn(doctors)
    requires i < |doctors| && doctors[i].name == e.doctorName
    ensures forall k :: 0 <= k < |doctors| && k != i ==> e !in doctors[k].appointments
  {
    forall k | 0 <= k < |doctors| && k != i ensures e !in doctors[k].appointments {
      assert doctors[k].name != doctors[i].name;
    }
  }

  lemma OnlyNamedPatientHolds(patients: seq<Person>, j: nat, e: Entry)
    requires UniqueNames(patients) && PatientEntriesOwn(patients)
    requires j < |patients| && patients[j].name == e.patientName
    ensures forall k :: 0 <= k < |patients| && k != j ==> e !in patients[k].appointments
  {
    forall k | 0 <= k < |patients| && k != j ensures e !in patients[k].appointments {
      assert patients[k].name != patients[j].name;
    }
  }

  /** Under the invariant a triple is in the global list iff the doctor it names holds it. */
  lemma GlobalIffDoctorHolds(st: State, i: nat, e: Entry)
    requires Valid(st)
    requires i < |st.doctors| && st.doctors[i].name == e.doctorName
    ensures e in Triples(st.appointments) <==> e in st.doctors[i].appointments
  {
    OnlyNamedDoctorHolds(st.doctors, i, e);
    AllEntriesOnlyIn(st.doctors, i, e);
    assert multiset(Triples(st.appointments))[e] == multiset(st.doctors[i].appointments)[e];
  }

  /** Appending an entry naming the doctor keeps the doctors' names and ownership. */
  lemma DoctorsAfterAppend(doctors: seq<Person>, d: nat, e: Entry)
    requires UniqueNames(doctors) && DoctorEntriesOwn(doctors)
    requires d < |doctors| && e.doctorName == doctors[d].name
    ensures var ds := doctors[d := doctors[d].(appointments := doctors[d].appointments + [e])];
      UniqueNames(ds) && DoctorEntriesOwn(ds)
  {
    var ds := doctors[d := doctors[d].(appointments := doctors[d].appointments + [e])];
    forall i, x | 0 <= i < |ds| && x in ds[i].appointments ensures x.doctorName == ds[i].name {
      if i == d && x !in doctors[d].appointments { assert x == e; }
    }
  }

  lemma PatientsAfterAppend(patients: seq<Person>, j: nat, e: Entry)
    requires UniqueNames(patients) && PatientEntriesOwn(patients)
    requires j < |patients| && e.patientName == patients[j].name
    ensures var ps := patients[j := patients[j].(appointments := patients[j].appointments + [e])];
      UniqueNames(ps) && PatientEntriesOwn(ps)
  {
    var ps := patients[j := patients[j].(appointments := patients[j].appointments + [e])];
    forall i, x | 0 <= i < |ps| && x in ps[i].appointments ensures x.patientName == ps[i].name {
      if i == j && x !in patients[j].appointments { assert x == e; }
    }
  }

  /** The state a successful booking builds keeps the invariant. */
  lemma BookedStateValid(st: State, d: nat, j: nat, e: Entry, a: Appointment)
    requires Valid(st) && d < |st.doctors| && j < |st.patients|
    requires e.doctorName == st.doctors[d].name && e.patientName == st.patients[j].name
    requires IsAvailable(st.doctors[d], e.dateTime) && EntryOf(a) == e
    ensures Valid(State(
      st.doctors[d := st.doctors[d].(appointments := st.doctors[d].appointments + [e])],
      st.patients[j := st.patients[j].(appointments := st.patients[j].appointments + [e])],
      st.appointments + [a], st.visitCards))
  {
    var doctor' := AddAppointment(st.doctors[d], e.dateTime, e.patientName, e.doctorName);
    AddKeepsDistinct(st.doctors[d], e.dateTime, e.patientName, e.doctorName);
    DoctorsAfterAppend(st.doctors, d, e);
    PatientsAfterAppend(st.patients, j, e);
    TriplesAppend(st.appointments, a);
    PooledAfterAppend(st.doctors, d, e);
    PooledAfterAppend(st.patients, j, e);
  }

  /************************** scheduleAppointment ****************************/

  /**
   * Booking keeps the invariant, unless the patient lookup fails after the
   * doctor was updated.
   */
  lemma SchedulePreservesValid(st: State, dateTime: string, d: nat, patientName: string)
    requires Valid(st) && d < |st.doctors|
    requires Schedule(st, dateTime, d, patientName).1 != PatientNotFound
    ensures Valid(Schedule(st, dateTime, d, patientName).0)
  {
    var doctor := st.doctors[d];
    if IsAvailable(doctor, dateTime) {
      var j := FindFirst(st.patients, patientName).value;
      var e := Entry(dateTime, patientName, doctor.name);
      var doctor' := AddAppointment(doctor, dateTime, patientName, doctor.name);
      var patient' := AddAppointment(st.patients[j], dateTime, patientName, doctor.name);
      BookedStateValid(st, d, j, e, Appointment(dateTime, doctor', patient'));
    }
  }

  /**
   * The failure path as written: with no patient of that name, the doctor
   * keeps the new entry but no appointment is recorded, so the lists no
   * longer agree.
   */
  lemma ScheduleMissingPatientLeavesOrphan(st: State, dateTime: string, d: nat, patientName: string)
    requires Valid(st) && d < |st.doctors|
    requires IsAvailable(st.doctors[d], dateTime)
    requires forall j :: 0 <= j < |st.patients| ==> st.patients[j].name != patientName
    ensures Schedule(st, dateTime, d, patientName).1 == PatientNotFound
    ensures Schedule(st, dateTime, d, patientName).0
         == st.(doctors := st.doctors[d := AddAppointment(st.doctors[d], dateTime, patientName, st.doctors[d].name)])
    ensures !Agree(Schedule(st, dateTime, d, patientName).0)
  {
    var e := Entry(dateTime, patientName, st.doctors[d].name);
    var st' := Schedule(st, dateTime, d, patientName).0;
    PooledAfterAppend(st.doctors, d, e);
    assert st'.appointments == st.appointments;
    assert multiset(AllEntries(st'.doctors)) == multiset(AllEntries(st.doctors)) + multiset{e};
  }

  /*************************** cancelAppointment *****************************/

  lemma {:induction false} KeepUnmatchedNoMatch(apps: seq<Appointment>, e: Entry)
    requires e !in Triples(apps)
    ensures KeepUnmatched(apps, e) == apps
    decreases |apps|
  {
    if apps != [] {
      var init := apps[..|apps| - 1];
      assert apps == init + [apps[|apps| - 1]];
      TriplesAppend(init, apps[|apps| - 1]);
      KeepUnmatchedNoMatch(init, e);
    }
  }

  /** Cancellation keeps the invariant on every path, including the failed lookups. */
  lemma CancelPreservesValid(st: State, dateTime: string, patientName: string, doctorName: string)
    requires Valid(st)
    ensures Valid(Cancel(st, dateTime, patientName, doctorName).0)
  {
    var e := Entry(dateTime, patientName, doctorName);
    var st' := Cancel(st, dateTime, patientName, doctorName).0;
    match FindFirst(st.doctors, doctorName)
    case None =>
      CancelNoDoctor(st, e);
    case Some(i) =>
      match FindFirst(st.patients, patientName)
      case None =>
        CancelNoPatient(st, e, i);
      case Some(j) =>
        CancelBothFound(st, e, i, j);
  }

  /** With no doctor of that name no record can hold the triple, so the erase removes nothing. */
  lemma CancelNoDoctor(st: State, e: Entry)
    requires DoctorEntriesOwn(st.doctors) && Agree(st) && FindFirst(st.doctors, e.doctorName).None?
    ensures Cancel(st, e.dateTime, e.patientName, e.doctorName).0 == st
  {
    NotInAllEntries(st.doctors, e);
    KeepUnmatchedNoMatch(st.appointments, e);
  }

  /** With the doctor found but no such patient, neither the global list nor the doctor held the triple. */
  lemma CancelNoPatient(st: State, e: Entry, i: nat)
    requires Valid(st)
    requires FindFirst(st.doctors, e.doctorName) == Some(i) && FindFirst(st.patients, e.patientName).None?
    ensures Cancel(st, e.dateTime, e.patientName, e.doctorName).0 == st
  {
    NotInAllEntries(st.patients, e);
    KeepUnmatchedNoMatch(st.appointments, e);
    GlobalIffDoctorHolds(st, i, e);
    WithoutNoMatch(st.doctors[i].appointments, e);
    assert st.doctors[i := Deleted(st.doctors[i], e)] == st.doctors;
  }

  /** Deleting e from one record keeps every record's name, ownership and distinct times. */
  lemma DeleteKeepsShape(people: seq<Person>, i: nat, e: Entry)
    requires i < |people|
    ensures UniqueNames(people) ==> UniqueNames(people[i := Deleted(people[i], e)])
    ensures DoctorEntriesOwn(people) ==> DoctorEntriesOwn(people[i := Deleted(people[i], e)])
    ensures PatientEntriesOwn(people) ==> PatientEntriesOwn(people[i := Deleted(people[i], e)])
    ensures NoDoubleBooking(people) ==> NoDoubleBooking(people[i := Deleted(people[i], e)])
  {
    if NoDoubleBooking(people) {
      WithoutKeepsDistinct(people[i].appointments, e);
    }
  }

  lemma CancelBothFound(st: State, e: Entry, i: nat, j: nat)
    requires Valid(st)
    requires FindFirst(st.doctors, e.doctorName) == Some(i)
    requires FindFirst(st.patients, e.patientName) == Some(j)
    ensures Valid(Cancel(st, e.dateTime, e.patientName, e.doctorName).0)
  {
    var st' := Cancel(st, e.dateTime, e.patientName, e.doctorName).0;
    assert st'.doctors == st.doctors[i := Deleted(st.doctors[i], e)];
    assert st'.patients == st.patients[j := Deleted(st.patients[j], e)];
    assert st'.appointments == KeepUnmatched(st.appointments, e);
    DeleteKeepsShape(st.doctors, i, e);
    DeleteKeepsShape(st.patients, j, e);
    CancelBothFoundAgree(st, e, i, j);
  }

  lemma CancelBothFoundAgree(st: State, e: Entry, i: nat, j: nat)
    requires Valid(st)
    requires i < |st.doctors| && st.doctors[i].name == e.doctorName
    requires j < |st.patients| && st.patients[j].name == e.patientName
    ensures Agree(State(st.doctors[i := Deleted(st.doctors[i], e)], st.patients[j := Deleted(st.patients[j], e)],
                        KeepUnmatched(st.appointments, e), st.visitCards))
  {
    OnlyNamedDoctorHolds(st.doctors, i, e);
    OnlyNamedPatientHolds(st.patients, j, e);
    PooledAfterDelete(st.doctors, i, e);
    PooledAfterDelete(st.patients, j, e);
    WithoutMultiset(Triples(st.appointments), e);
  }

  /** Deleting a triple no record holds leaves the list as it was, whichever record is chosen. */
  lemma DeleteAbsent(people: seq<Person>, e: Entry)
    requires e !in AllEntries(people)
    ensures forall i :: 0 <= i < |people| ==> people[i := Deleted(people[i], e)] == people
  {
    InAllEntries(people, e);
    forall i | 0 <= i < |people| ensures people[i := Deleted(people[i], e)] == people {
      WithoutNoMatch(people[i].appointments, e);
    }
  }

  /** Cancelling a triple that was never booked changes nothing. */
  lemma CancelMissIsNoOp(st: State, dateTime: string, patientName: string, doctorName: string)
    requires Agree(st)
    requires Entry(dateTime, patientName, doctorName) !in Triples(st.appointments)
    ensures Cancel(st, dateTime, patientName, doctorName).0 == st
  {
    var e := Entry(dateTime, patientName, doctorName);
    KeepUnmatchedNoMatch(st.appointments, e);
    assert multiset(AllEntries(st.doctors))[e] == 0;
    assert multiset(AllEntries(st.patients))[e] == 0;
    DeleteAbsent(st.doctors, e);
    DeleteAbsent(st.patients, e);
    var apps := KeepUnmatched(st.appointments, e);
    match FindFirst(st.doctors, doctorName)
    case None =>
    case Some(i) =>
      assert st.doctors[i := Deleted(st.doctors[i], e)] == st.doctors;
      match FindFirst(st.patients, patientName)
      case None =>
      case Some(j) =>
        assert st.patients[j := Deleted(st.patients[j], e)] == st.patients;
  }

  /********************** booking followed by cancellation **********************/

  /** Lists whose names agree position by position give the same name lookups. */
  lemma FindFirstSameNames(a: seq<Person>, b: seq<Person>, name: string)
    requires |a| == |b| && forall k :: 0 <= k < |a| ==> a[k].name == b[k].name
    ensures FindFirst(a, name) == FindFirst(b, name)
  {
    var ra, rb := FindFirst(a, name), FindFirst(b, name);
    if ra.Some? && rb.Some? && ra.value != rb.value {
      assert false;
    }
  }

  /** The state a successful booking builds, written out. */
  function Booked(st: State, d: nat, j: nat, e: Entry, a: Appointment): State
    requires d < |st.doctors| && j < |st.patients|
  {
    State(
      st.doctors[d := st.doctors[d].(appointments := st.doctors[d].appointments + [e])],
      st.patients[j := st.patients[j].(appointments := st.patients[j].appointments + [e])],
      st.appointments + [a], st.visitCards)
  }

  /** Cancelling a fresh triple right after it was booked restores the state. */
  lemma CancelUndoesBooked(st: State, d: nat, j: nat, e: Entry, a: Appointment)
    requires d < |st.doctors| && j < |st.patients| && EntryOf(a) == e
    requires FindFirst(st.doctors, e.doctorName) == Some(d)
    requires FindFirst(st.patients, e.patientName) == Some(j)
    requires e !in st.doctors[d].appointments && e !in st.patients[j].appointments
    requires e !in Triples(st.appointments)
    ensures Cancel(Booked(st, d, j, e, a), e.dateTime, e.patientName, e.doctorName) == (st, Done)
  {
    var st1 := Booked(st, d, j, e, a);
    FindFirstSameNames(st1.doctors, st.doctors, e.doctorName);
    FindFirstSameNames(st1.patients, st.patients, e.patientName);
    AddThenDelete(st.doctors[d], e.dateTime, e.patientName, e.doctorName);
    AddThenDelete(st.patients[j], e.dateTime, e.patientName, e.doctorName);
    assert st1.doctors[d := Deleted(st1.doctors[d], e)] == st.doctors;
    assert st1.patients[j := Deleted(st1.patients[j], e)] == st.patients;
    KeepUnmatchedNoMatch(st.appointments, e);
    assert st1.appointments[..|st1.appointments| - 1] == st.appointments;
    assert KeepUnmatched(st1.appointments, e) == st.appointments;
  }

  lemma HeldIsPooled(people: seq<Person>, j: nat, e: Entry)
    requires j < |people|
    ensures e in people[j].appointments ==> multiset(AllEntries(people))[e] > 0
  {
    InAllEntries(people, e);
  }

  /** Under the invariant a triple naming a free doctor is nowhere yet. */
  lemma FreshTriple(st: State, d: nat, j: nat, e: Entry)
    requires Valid(st) && d < |st.doctors| && j < |st.patients|
    requires e.doctorName == st.doctors[d].name
    requires IsAvailable(st.doctors[d], e.dateTime)
    ensures e !in st.doctors[d].appointments && e !in st.patients[j].appointments
    ensures e !in Triples(st.appointments)
  {
    FreeInIff(st.doctors[d].appointments, e.dateTime);
    GlobalIffDoctorHolds(st, d, e);
    HeldIsPooled(st.patients, j, e);
  }

  /** Cancelling the triple just booked restores the registry exactly. */
  lemma BookThenCancel(st: State, dateTime: string, d: nat, patientName: string)
    requires Valid(st) && d < |st.doctors|
    requires Schedule(st, dateTime, d, patientName).1 == Done
    ensures Cancel(Schedule(st, dateTime, d, patientName).0, dateTime, patientName, st.doctors[d].name) == (st, Done)
  {
    var doctor := st.doctors[d];
    var j := FindFirst(st.patients, patientName).value;
    var e := Entry(dateTime, patientName, doctor.name);
    var a := Appointment(dateTime, AddAppointment(doctor, dateTime, patientName, doctor.name),
                         AddAppointment(st.patients[j], dateTime, patientName, doctor.name));
    assert Schedule(st, dateTime, d, patientName).0 == Booked(st, d, j, e, a);
    FreshTriple(st, d, j, e);
    assert FindFirst(st.doctors, doctor.name) == Some(d);
    CancelUndoesBooked(st, d, j, e, a);
  }

  /** Under unique names, the doctor named like doctors[d] is doctors[d]. */
  lemma OnlyOneNamed(doctors: seq<Person>, d: nat)
    requires UniqueNames(doctors) && d < |doctors|
    ensures forall i :: 0 <= i < |doctors| && doctors[i].name == doctors[d].name ==> i == d
  {
  }

  /**
   * A booked slot leaves the doctor's free-slot list and comes back after the
   * same triple is cancelled.
   */
  lemma SlotLeavesAndReturns(st: State, date: string, k: nat, d: nat, patientName: string)
    requires Valid(st) && d < |st.doctors| && k < SlotsPerDay
    requires IsAvailable(st.doctors[d], SlotKey(date, k))
    requires exists j :: 0 <= j < |st.patients| && st.patients[j].name == patientName
    ensures var name := st.doctors[d].name;
      var slot := FreeSlot(SlotKey(date, k), name);
      var (st1, outcome) := Schedule(st, SlotKey(date, k), d, patientName);
      var st2 := Cancel(st1, SlotKey(date, k), patientName, name).0;
      && outcome == Done
      && slot in AvailableTimesForDoctor(st.doctors, date, name)
      && slot !in AvailableTimesForDoctor(st1.doctors, date, name)
      && slot in AvailableTimesForDoctor(st2.doctors, date, name)
  {
    var name := st.doctors[d].name;
    var key := SlotKey(date, k);
    var slot := FreeSlot(key, name);
    var j := FindFirst(st.patients, patientName).value;
    var doctor' := AddAppointment(st.doctors[d], key, patientName, name);
    var st1 := Schedule(st, key, d, patientName).0;
    assert st1.doctors == st.doctors[d := doctor'];
    BookThenCancel(st, key, d, patientName);
    OnlyOneNamed(st.doctors, d);
    SlotInForDoctor(st.doctors, date, k, d);
    SlotInForDoctor(st1.doctors, date, k, d);
    AvailableAfterAdd(st.doctors[d], key, patientName, name, key);
  }

  /** Under unique names the slot is listed for doctors[d] iff doctors[d] is free then. */
  lemma SlotInForDoctor(doctors: seq<Person>, date: string, k: nat, d: nat)
    requires d < |doctors| && k < SlotsPerDay
    requires forall i :: 0 <= i < |doctors| && doctors[i].name == doctors[d].name ==> i == d
    ensures FreeSlot(SlotKey(date, k), doctors[d].name) in AvailableTimesForDoctor(doctors, date, doctors[d].name)
        <==> IsAvailable(doctors[d], SlotKey(date, k))
  {
    var name := doctors[d].name;
    ForDoctorMembership(doctors, date, name, FreeSlot(SlotKey(date, k), name));
    AvailableTimesSlot(doctors, date, k, name);
  }

  /**************************** addPatient ****************************/

  /**
   * addPatient(name, dateOfBirth): an existing name returns the first patient
   * of that name and changes nothing; otherwise a new patient is appended.
   */
  function Register(patients: seq<Person>, name: string, dateOfBirth: string): (seq<Person>, Person)
  {
    match FindFirst(patients, name)
    case Some(j) => (patients, patients[j])
    case None => (patients + [NewPatient(name, dateOfBirth)], NewPatient(name, dateOfBirth))
  }

  /** The two branches of addPatient, stated through patientExists. */
  lemma RegisterSpec(patients: seq<Person>, name: string, dateOfBirth: string)
    ensures var (patients', p) := Register(patients, name, dateOfBirth);
      && (PatientExists(patients, name) ==>
            patients' == patients && p in patients && p.name == name)
      && (!PatientExists(patients, name) ==>
            patients' == patients + [p] && p.name == name && p.dateOfBirth == dateOfBirth && p.appointments == [])
  {
    PatientExistsIff(patients, name);
  }

  /** Registering a name twice keeps the first registration: same list, same record, first date of birth. */
  lemma RegisterFirstWins(patients: seq<Person>, name: string, dob1: string, dob2: string)
    ensures var (ps1, p1) := Register(patients, name, dob1);
      var (ps2, p2) := Register(ps1, name, dob2);
      && ps2 == ps1 && p2 == p1
      && (!PatientExists(patients, name) ==> p2.dateOfBirth == dob1)
  {
    PatientExistsIff(patients, name);
    var (ps1, p1) := Register(patients, name, dob1);
    if FindFirst(patients, name).None? {
      assert ps1[|patients|].name == name;
      var r := FindFirst(ps1, name);
      assert r.Some?;
      assert r.value == |patients|;
    }
  }

  /** Registration keeps names unique and touches no existing record. */
  lemma RegisterPreservesValid(st: State, name: string, dateOfBirth: string)
    requires Valid(st)
    ensures Valid(st.(patients := Register(st.patients, name, dateOfBirth).0))
  {
    var ps := Register(st.patients, name, dateOfBirth).0;
    if FindFirst(st.patients, name).None? {
      assert ps == st.patients + [NewPatient(name, dateOfBirth)];
      assert ps[..|ps| - 1] == st.patients;
      assert AllEntries(ps) == AllEntries(st.patients) + [];
    }
  }
}
