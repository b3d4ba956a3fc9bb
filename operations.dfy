/**
 * The registry's state as a value and the effect of each mutating operation
 * on it (booking, cancellation, patient registration), with the invariant
 * the operations keep: unique names, every person's entries carrying that
 * person's name, no doctor double-booked, and the global appointment list
 * agreeing with the doctors' lists and with the patients' lists.
 */
module Operations {
  import opened Persons
  import opened Records
  import opened Queries

  /** The four lists the registry owns. */
  datatype State = State(
    doctors: seq<Person>,
    patients: seq<Person>,
    appointments: seq<Appointment>,
    visitCards: seq<HospitalVisitCard>)

  /**
   * How a booking or a cancellation ended: normally, with the doctor busy at
   * that dateTime (booking prints a message and changes nothing), or with the
   * runtime_error thrown by a failed name lookup.
   */
  datatype Outcome = Done | DoctorUnavailable | DoctorNotFound | PatientNotFound

  /*************************** scheduleAppointment ***************************/

  /**
   * scheduleAppointment(dateTime, doctors[d], patient) for a patient called
   * patientName. The doctor is checked and updated first; the patient is then
   * looked up by name, and a failed lookup leaves the doctor updated.
   */
  function Schedule(st: State, dateTime: string, d: nat, patientName: string): (State, Outcome)
    requires d < |st.doctors|
  {
    var doctor := st.doctors[d];
    if !IsAvailable(doctor, dateTime) then (st, DoctorUnavailable)
    else
      var doctor' := AddAppointment(doctor, dateTime, patientName, doctor.name);
      var doctors' := st.doctors[d := doctor'];
      match FindFirst(st.patients, patientName)
      case None => (st.(doctors := doctors'), PatientNotFound)
      case Some(j) =>
        var patient' := AddAppointment(st.patients[j], dateTime, patientName, doctor.name);
        (State(doctors', st.patients[j := patient'], st.appointments + [Appointment(dateTime, doctor', patient')], st.visitCards),
         Done)
  }

  /**
   * A free doctor and a registered patient: the same triple is appended to
   * the doctor, to the first patient of that name and, as a snapshot
   * Appointment, to the global list; nothing else changes.
   */
  lemma ScheduleBooks(st: State, dateTime: string, d: nat, patientName: string)
    requires d < |st.doctors|
    requires IsAvailable(st.doctors[d], dateTime)
    requires exists j :: 0 <= j < |st.patients| && st.patients[j].name == patientName
    ensures FindFirst(st.patients, patientName).Some?
    ensures var (st', outcome) := Schedule(st, dateTime, d, patientName);
      var e := Entry(dateTime, patientName, st.doctors[d].name);
      var j := FindFirst(st.patients, patientName).value;
      && outcome == Done
      && |st'.doctors| == |st.doctors| && |st'.patients| == |st.patients|
      && st'.doctors[d] == st.doctors[d].(appointments := st.doctors[d].appointments + [e])
      && (forall i :: 0 <= i < |st.doctors| && i != d ==> st'.doctors[i] == st.doctors[i])
      && st'.patients[j] == st.patients[j].(appointments := st.patients[j].appointments + [e])
      && (forall k :: 0 <= k < |st.patients| && k != j ==> st'.patients[k] == st.patients[k])
      && |st'.appointments| == |st.appointments| + 1
      && st'.appointments[..|st.appointments|] == st.appointments
      && st'.appointments[|st.appointments|] == Appointment(dateTime, st'.doctors[d], st'.patients[j])
      && EntryOf(st'.appointments[|st.appointments|]) == e
      && st'.visitCards == st.visitCards
  {
    var r := FindFirst(st.patients, patientName);
    assert r.Some?;
    var j := r.value;
    var (st', outcome) := Schedule(st, dateTime, d, patientName);
    assert st'.appointments[..|st.appointments|] == st.appointments;
    assert st'.patients[j].appointments == st.patients[j].appointments + [Entry(dateTime, patientName, st.doctors[d].name)];
  }

  /** A busy doctor: nothing changes and the outcome says so. */
  lemma ScheduleRefuses(st: State, dateTime: string, d: nat, patientName: string)
    requires d < |st.doctors|
    ensures !IsAvailable(st.doctors[d], dateTime) <==> Schedule(st, dateTime, d, patientName).1 == DoctorUnavailable
    ensures !IsAvailable(st.doctors[d], dateTime) ==> Schedule(st, dateTime, d, patientName).0 == st
  {
  }

  /** Whatever the outcome, booking never gives a doctor two entries at one dateTime. */
  lemma ScheduleNeverDoubleBooks(st: State, dateTime: string, d: nat, patientName: string)
    requires d < |st.doctors|
    requires NoDoubleBooking(st.doctors)
    ensures NoDoubleBooking(Schedule(st, dateTime, d, patientName).0.doctors)
  {
    var doctors' := Schedule(st, dateTime, d, patientName).0.doctors;
    if IsAvailable(st.doctors[d], dateTime) {
      AddKeepsDistinct(st.doctors[d], dateTime, patientName, st.doctors[d].name);
      assert doctors' == st.doctors[d := AddAppointment(st.doctors[d], dateTime, patientName, st.doctors[d].name)];
    }
  }

  /***************************** cancelAppointment ****************************/

  /**
   * cancelAppointment(dateTime, patientName, doctorName): the global list is
   * filtered first; then the doctor is looked up and its matching entries
   * deleted; then the patient. A failed lookup stops there.
   */
  function Cancel(st: State, dateTime: string, patientName: string, doctorName: string): (State, Outcome)
  {
    var e := Entry(dateTime, patientName, doctorName);
    var apps := KeepUnmatched(st.appointments, e);
    match FindFirst(st.doctors, doctorName)
    case None => (st.(appointments := apps), DoctorNotFound)
    case Some(i) =>
      var doctors' := st.doctors[i := Deleted(st.doctors[i], e)];
      match FindFirst(st.patients, patientName)
      case None => (st.(appointments := apps, doctors := doctors'), PatientNotFound)
      case Some(j) => (State(doctors', st.patients[j := Deleted(st.patients[j], e)], apps, st.visitCards), Done)
  }

  /**
   * With the doctor and patient registered, every global appointment and
   * every entry of that doctor and that patient matching all three fields is
   * gone, the rest keep their order, and nothing else changes.
   */
  lemma CancelRemoves(st: State, dateTime: string, patientName: string, doctorName: string, i: nat, j: nat)
    requires FindFirst(st.doctors, doctorName) == Some(i)
    requires FindFirst(st.patients, patientName) == Some(j)
    ensures var (st', outcome) := Cancel(st, dateTime, patientName, doctorName);
      var e := Entry(dateTime, patientName, doctorName);
      && outcome == Done
      && st'.appointments == KeepUnmatched(st.appointments, e)
      && Triples(st'.appointments) == Without(Triples(st.appointments), e)
      && st'.doctors == st.doctors[i := st.doctors[i].(appointments := Without(st.doctors[i].appointments, e))]
      && st'.patients == st.patients[j := st.patients[j].(appointments := Without(st.patients[j].appointments, e))]
      && st'.visitCards == st.visitCards
      && e !in Triples(st'.appointments) && e !in st'.doctors[i].appointments && e !in st'.patients[j].appointments
  {
  }

  /*************************** the registry invariant ***************************/

  /** No two records of the list share a name. */
  ghost predicate UniqueNames(people: seq<Person>)
  {
    forall i, j :: 0 <= i < j < |people| ==> people[i].name != people[j].name
  }

  /** Every entry in a doctor's list names that doctor. */
  ghost predicate DoctorEntriesOwn(doctors: seq<Person>)
  {
    forall i, x :: 0 <= i < |doctors| && x in doctors[i].appointments ==> x.doctorName == doctors[i].name
  }

  /** Every entry in a patient's list names that patient. */
  ghost predicate PatientEntriesOwn(patients: seq<Person>)
  {
    forall i, x :: 0 <= i < |patients| && x in patients[i].appointments ==> x.patientName == patients[i].name
  }

  /** No doctor holds two entries at the same dateTime. */
  ghost predicate NoDoubleBooking(doctors: seq<Person>)
  {
    forall i :: 0 <= i < |doctors| ==> DistinctTimes(doctors[i].appointments)
  }

  /** All entries of all records, record by record. */
  function AllEntries(people: seq<Person>): seq<Entry>
  {
    if people == [] then [] else AllEntries(people[..|people| - 1]) + people[|people| - 1].appointments
  }

  /** The global list, the doctors' lists and the patients' lists hold the same triples, counted. */
  ghost predicate Agree(st: State)
  {
    && multiset(Triples(st.appointments)) == multiset(AllEntries(st.doctors))
    && multiset(Triples(st.appointments)) == multiset(AllEntries(st.patients))
  }

  ghost predicate Valid(st: State)
  {
    && UniqueNames(st.doctors) && UniqueNames(st.patients)
    && DoctorEntriesOwn(st.doctors) && PatientEntriesOwn(st.patients)
    && NoDoubleBooking(st.doctors)
    && Agree(st)
  }

  /**
   * No double-booking, stated on the global list: under the invariant, two
   * appointments with the same doctor are at different dateTimes.
   */
  lemma ValidNoDoubleBookedAppointments(st: State, p: nat, q: nat)
    requires Valid(st)
    requires p < q < |st.appointments|
    requires st.appointments[p].doctor.name == st.appointments[q].doctor.name
    ensures st.appointments[p].dateTime != st.appointments[q].dateTime
  {
    var ea, eb := EntryOf(st.appointments[p]), EntryOf(st.appointments[q]);
    var ts := Triples(st.appointments);
    assert ts[p] == ea && ts[q] == eb;
    if ea == eb {
      TripleOnce(st, p, q);
    } else if ea.dateTime == eb.dateTime {
      assert ea in multiset(AllEntries(st.doctors)) && eb in multiset(AllEntries(st.doctors));
      var i := Owner(st.doctors, ea);
      var k := Owner(st.doctors, eb);
    }
  }

  /** Under the invariant the global list never holds the same triple twice. */
  lemma TripleOnce(st: State, p: nat, q: nat)
    requires Valid(st)
    requires p < q < |st.appointments|
    ensures EntryOf(st.appointments[p]) != EntryOf(st.appointments[q])
  {
    var ts := Triples(st.appointments);
    var e := ts[p];
    if ts[q] == e {
      var front, back := ts[..p], ts[p + 1..];
      assert ts == front + [e] + back;
      assert e in back by { assert back[q - p - 1] == ts[q]; }
      assert multiset(ts) == multiset(front) + multiset{e} + multiset(back);
      assert multiset(ts)[e] >= 2;
      PooledOnce(st.doctors, e);
      assert false;
    }
  }

  /** Under the doctor-side invariant, a pooled doctor entry occurs exactly once in the pool. */
  lemma PooledOnce(doctors: seq<Person>, e: Entry)
    requires UniqueNames(doctors) && DoctorEntriesOwn(doctors) && NoDoubleBooking(doctors)
    ensures e in multiset(AllEntries(doctors)) ==> multiset(AllEntries(doctors))[e] == 1
  {
    if e in multiset(AllEntries(doctors)) {
      var i := Owner(doctors, e);
      AllEntriesOnlyIn(doctors, i, e);
      var s := doctors[i].appointments;
      var x :| 0 <= x < |s| && s[x] == e;
      CountOneWhenDistinct(s, x, e);
    }
  }

  /** Under the invariant, a pooled doctor entry is held by exactly the doctor it names. */
  lemma Owner(doctors: seq<Person>, e: Entry) returns (i: nat)
    requires UniqueNames(doctors) && DoctorEntriesOwn(doctors)
    requires e in AllEntries(doctors)
    ensures i < |doctors| && e in doctors[i].appointments && doctors[i].name == e.doctorName
    ensures forall k :: 0 <= k < |doctors| && k != i ==> e !in doctors[k].appointments
  {
    InAllEntries(doctors, e);
    i :| 0 <= i < |doctors| && e in doctors[i].appointments;
    forall k | 0 <= k < |doctors| && k != i ensures e !in doctors[k].appointments {
      assert doctors[k].name != doctors[i].name;
    }
  }

  /** A list with distinct dateTimes holds each entry once. */
  lemma CountOneWhenDistinct(s: seq<Entry>, p: nat, e: Entry)
    requires p < |s| && s[p] == e && DistinctTimes(s)
    ensures multiset(s)[e] == 1
  {
    var front, back := s[..p], s[p + 1..];
    assert s == front + [e] + back;
    assert e !in front by {
      forall q | 0 <= q < |front| ensures front[q] != e {
        assert front[q] == s[q];
      }
    }
    assert e !in back by {
      forall q | 0 <= q < |back| ensures back[q] != e {
        assert back[q] == s[p + 1 + q];
      }
    }
    assert multiset(s) == multiset(front) + multiset{e} + multiset(back);
  }

  /************************** lemmas about AllEntries **************************/

  lemma {:induction false} InAllEntries(people: seq<Person>, x: Entry)
    ensures x in AllEntries(people) <==> exists k :: 0 <= k < |people| && x in people[k].appointments
    decreases |people|
  {
    if people != [] {
      var init := people[..|people| - 1];
      InAllEntries(init, x);
      if x in AllEntries(init) {
        var k :| 0 <= k < |init| && x in init[k].appointments;
        assert people[k] == init[k];
      }
      if exists k :: 0 <= k < |people| && x in people[k].appointments {
        var k :| 0 <= k < |people| && x in people[k].appointments;
        if k < |init| { assert init[k] == people[k]; }
      }
    }
  }

  /** Replacing one record's list changes the pooled multiset by exactly that difference. */
  lemma {:induction false} AllEntriesUpdate(people: seq<Person>, i: nat, p': Person)
    requires i < |people|
    ensures multiset(AllEntries(people[i := p'])) + multiset(people[i].appointments)
         == multiset(AllEntries(people)) + multiset(p'.appointments)
    decreases |people|
  {
    var n := |people|;
    var init := people[..n - 1];
    var last := people[n - 1];
    var upd := people[i := p'];
    var mOld, mNew := multiset(people[i].appointments), multiset(p'.appointments);
    assert AllEntries(people) == AllEntries(init) + last.appointments;
    if i == n - 1 {
      assert upd[..n - 1] == init;
      assert AllEntries(upd) == AllEntries(init) + p'.appointments;
      var mI := multiset(AllEntries(init));
      assert multiset(AllEntries(upd)) == mI + mNew;
      assert multiset(AllEntries(people)) == mI + mOld;
    } else {
      assert upd[..n - 1] == init[i := p'];
      assert upd[n - 1] == last;
      assert AllEntries(upd) == AllEntries(init[i := p']) + last.appointments;
      AllEntriesUpdate(init, i, p');
      assert init[i] == people[i];
      var mU, mI, mL := multiset(AllEntries(init[i := p'])), multiset(AllEntries(init)), multiset(last.appointments);
      assert mU + mOld == mI + mNew;
      assert multiset(AllEntries(upd)) == mU + mL;
      assert multiset(AllEntries(people)) == mI + mL;
      AddBothSides(mU, mOld, mI, mNew, mL);
    }
  }

  lemma AddBothSides(a: multiset<Entry>, b: multiset<Entry>, c: multiset<Entry>, d: multiset<Entry>, l: multiset<Entry>)
    requires a + b == c + d
    ensures a + l + b == c + l + d
  {
    forall x ensures (a + l + b)[x] == (c + l + d)[x] {
      assert (a + b)[x] == (c + d)[x];
    }
  }

  /** When no other record holds e, the pooled count of e is the count in record i. */
  lemma {:induction false} AllEntriesOnlyIn(people: seq<Person>, i: nat, e: Entry)
    requires i < |people|
    requires forall k :: 0 <= k < |people| && k != i ==> e !in people[k].appointments
    ensures multiset(AllEntries(people))[e] == multiset(people[i].appointments)[e]
    decreases |people|
  {
    var init := people[..|people| - 1];
    var last := people[|people| - 1];
    assert AllEntries(people) == AllEntries(init) + last.appointments;
    assert multiset(AllEntries(people)) == multiset(AllEntries(init)) + multiset(last.appointments);
    if i == |people| - 1 {
      NotInAllEntries(init, e);
    } else {
      assert init[i] == people[i];
      AllEntriesOnlyIn(init, i, e);
      assert e !in last.appointments;
    }
  }

  lemma NotInAllEntries(people: seq<Person>, e: Entry)
    requires forall k :: 0 <= k < |people| ==> e !in people[k].appointments
    ensures multiset(AllEntries(people))[e] == 0
  {
    InAllEntries(people, e);
  }
}
