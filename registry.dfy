/**
 * The Registry object: four lists updated in place by its mutators. Each
 * mutator is proved to leave the lists exactly as the corresponding
 * function of module Operations, Invariants or Seeding says, and to keep
 * the registry invariant where that function is proved to keep it. The
 * read-only queries are the functions of module Queries and Records
 * applied to the fields.
 */
module Hospital {
  import opened Persons
  import opened Records
  import opened Queries
  import opened Operations
  import opened Invariants
  import opened Seeding

  class Registry {
    var doctors: seq<Person>
    var patients: seq<Person>
    var appointments: seq<Appointment>
    var visitCards: seq<HospitalVisitCard>

    /** The four lists as one value. */
    function Snapshot(): State
      reads this
    {
      State(doctors, patients, appointments, visitCards)
    }

    /** A new registry: the eight doctors and eight patients of the field initialisers, nothing booked. */
    constructor()
      ensures Snapshot() == Initial()
      ensures Valid(Snapshot())
    {
      var init := Initial();
      doctors := init.doctors;
      patients := init.patients;
      appointments := [];
      visitCards := [];
      InitialValid();
    }

    /**
     * addPatient: an existing name returns the first patient of that name and
     * changes nothing; a new name is appended with no bookings.
     */
    method AddPatient(name: string, dateOfBirth: string) returns (p: Person)
      modifies this
      ensures (patients, p) == Register(old(patients), name, dateOfBirth)
      ensures doctors == old(doctors) && appointments == old(appointments) && visitCards == old(visitCards)
      ensures Valid(old(Snapshot())) ==> Valid(Snapshot())
    {
      ghost var st := Snapshot();
      PatientExistsIff(patients, name);
      if PatientExists(patients, name) {
        var j := FindFirst(patients, name).value;
        p := patients[j];
      } else {
        p := NewPatient(name, dateOfBirth);
        patients := patients + [p];
      }
      if Valid(st) {
        RegisterPreservesValid(st, name, dateOfBirth);
      }
    }

    /**
     * scheduleAppointment with doctors[d] and a patient called patientName:
     * the doctor is updated before the patient lookup, which may fail.
     */
    method ScheduleAppointment(dateTime: string, d: nat, patientName: string) returns (outcome: Outcome)
      requires d < |doctors|
      modifies this
      ensures (Snapshot(), outcome) == Schedule(old(Snapshot()), dateTime, d, patientName)
      ensures Valid(old(Snapshot())) && outcome != PatientNotFound ==> Valid(Snapshot())
    {
      ghost var st := Snapshot();
      var doctor := doctors[d];
      if !IsAvailable(doctor, dateTime) {
        return DoctorUnavailable;
      }
      doctor := AddAppointment(doctor, dateTime, patientName, doctor.name);
      doctors := doctors[d := doctor];
      var found := FindFirst(patients, patientName);
      if found.None? {
        return PatientNotFound;
      }
      var j := found.value;
      var patient := AddAppointment(patients[j], dateTime, patientName, doctor.name);
      patients := patients[j := patient];
      appointments := appointments + [Appointment(dateTime, doctor, patient)];
      outcome := Done;
      if Valid(st) {
        SchedulePreservesValid(st, dateTime, d, patientName);
      }
    }

    /**
     * cancelAppointment: the global list is filtered first, then the doctor's
     * and the patient's entries, each after its own lookup.
     */
    method CancelAppointment(dateTime: string, patientName: string, doctorName: string) returns (outcome: Outcome)
      modifies this
      ensures (Snapshot(), outcome) == Cancel(old(Snapshot()), dateTime, patientName, doctorName)
      ensures Valid(old(Snapshot())) ==> Valid(Snapshot())
    {
      ghost var st := Snapshot();
      appointments := EraseMatching(appointments, dateTime, patientName, doctorName);
      var di := FindFirst(doctors, doctorName);
      if di.None? {
        outcome := DoctorNotFound;
      } else {
        var doctor := DeleteAppointment(doctors[di.value], dateTime, patientName, doctorName);
        doctors := doctors[di.value := doctor];
        var pj := FindFirst(patients, patientName);
        if pj.None? {
          outcome := PatientNotFound;
        } else {
          var patient := DeleteAppointment(patients[pj.value], dateTime, patientName, doctorName);
          patients := patients[pj.value := patient];
          outcome := Done;
        }
      }
      assert (Snapshot(), outcome) == Cancel(st, dateTime, patientName, doctorName);
      if Valid(st) {
        CancelPreservesValid(st, dateTime, patientName, doctorName);
      }
    }

    /**
     * addHospitalVisitCard: one card built from the arguments is appended and
     * returned; it is the newest card of that patient.
     */
    method AddHospitalVisitCard(doctor: Person, patient: Person, dateTime: string, diagnosis: string)
      returns (card: HospitalVisitCard)
      modifies this
      ensures card == HospitalVisitCard(doctor, patient, dateTime, diagnosis)
      ensures visitCards == old(visitCards) + [card]
      ensures doctors == old(doctors) && patients == old(patients) && appointments == old(appointments)
      ensures CardsFor(visitCards, patient.name) == CardsFor(old(visitCards), patient.name) + [card]
      ensures Valid(old(Snapshot())) ==> Valid(Snapshot())
    {
      card := HospitalVisitCard(doctor, patient, dateTime, diagnosis);
      CardsForAppend(visitCards, [card], patient.name);
      visitCards := visitCards + [card];
    }

    /**
     * scheduleDefaulteAppointmentsForDate(date, idx, dc, pc, s): doctors s
     * up to dc, each with patients s up to pc, booked at the table time idx,
     * which steps back by one modulo 8 after every booking.
     */
    method ScheduleDefaultAppointmentsForDate(date: string, idx: nat, dc: nat, pc: nat, s: nat)
      requires idx < TableSize
      requires s < dc && s < pc ==> dc <= |doctors| && pc <= |patients|
      modifies this
      ensures Snapshot() == ScheduleDefaults(old(Snapshot()), date, idx, dc, pc, s)
    {
      ghost var st0 := Snapshot();
      var ti: nat := idx;
      var i := s;
      while i < dc
        invariant s <= i && ti < TableSize
        invariant |doctors| == |st0.doctors| && |patients| == |st0.patients|
        invariant SeedRows(Snapshot(), date, ti, i, dc, pc, s) == SeedRows(st0, date, idx, s, dc, pc, s)
        decreases dc - i
      {
        ghost var rowStart, rowIdx := Snapshot(), ti;
        SeedRowsUnfold(rowStart, date, rowIdx, i, dc, pc, s);
        var j := s;
        while j < pc
          invariant s <= j && ti < TableSize
          invariant |doctors| == |st0.doctors| && |patients| == |st0.patients|
          invariant SeedRow(Snapshot(), date, ti, i, j, pc) == SeedRow(rowStart, date, rowIdx, i, s, pc)
          decreases pc - j
        {
          var dateTime := date + DefaultTime(ti);
          ghost var before := Snapshot();
          SeedRowUnfold(before, date, ti, i, j, pc);
          var doctor := AddAppointment(doctors[i], dateTime, patients[j].name, doctors[i].name);
          var patient := AddAppointment(patients[j], dateTime, patients[j].name, doctors[i].name);
          doctors := doctors[i := doctor];
          patients := patients[j := patient];
          appointments := appointments + [Appointment(dateTime, doctor, patient)];
          assert Snapshot() == Book(before, dateTime, i, j);
          ti := (ti - 1 + TableSize) % TableSize;
          j := j + 1;
        }
        i := i + 1;
      }
    }

    /**
     * generateDefaultAppointments with the two dates passed in; on a new
     * registry it books 32 appointments and keeps the invariant.
     */
    method GenerateDefaultAppointments(today: string, tomorrow: string)
      modifies this
      ensures Snapshot() == GenerateDefaults(old(Snapshot()), today, tomorrow)
      ensures old(Snapshot()) == Initial() ==> Valid(Snapshot()) && |appointments| == 32
    {
      ghost var st := Snapshot();
      ScheduleDefaultAppointmentsForDate(today, 0, |doctors| / 2, |patients| / 2, 0);
      ScheduleDefaultAppointmentsForDate(tomorrow, 7, |doctors|, |patients|, 4);
      if st == Initial() {
        GenerateDefaultsValid(today, tomorrow);
      }
    }
  }
}
