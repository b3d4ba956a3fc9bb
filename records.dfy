/**
 * The two snapshot records: Appointment and HospitalVisitCard. Each holds
 * copies of the doctor and patient records taken when it was built, so later
 * changes to the registry's records never reach them.
 */
module Records {
  import opened Persons

  /** Appointment(dateTime, doctor, patient); the getters are the fields. */
  datatype Appointment = Appointment(dateTime: string, doctor: Person, patient: Person)

  /** HospitalVisitCard(doctor, patient, dateTime, diagnosis); no validation of any field. */
  datatype HospitalVisitCard = HospitalVisitCard(doctor: Person, patient: Person, dateTime: string, diagnosis: string)

  /** getPatientName: the name in the patient copy. */
  function PatientName(c: HospitalVisitCard): string
  {
    c.patient.name
  }

  /** The triple that cancelAppointment compares against. */
  function EntryOf(a: Appointment): Entry
  {
    Entry(a.dateTime, a.patient.name, a.doctor.name)
  }

  /** The triples of a list of appointments, in order. */
  function Triples(apps: seq<Appointment>): (r: seq<Entry>)
    ensures |r| == |apps|
    ensures forall i :: 0 <= i < |apps| ==> r[i] == EntryOf(apps[i])
  {
    if apps == [] then [] else Triples(apps[..|apps| - 1]) + [EntryOf(apps[|apps| - 1])]
  }

  /**
   * The appointments that do not match e in all three fields, in order: the
   * global list after the remove_if/erase of cancelAppointment.
   */
  function KeepUnmatched(apps: seq<Appointment>, e: Entry): (r: seq<Appointment>)
    ensures Triples(r) == Without(Triples(apps), e)
    ensures forall a :: a in r <==> a in apps && EntryOf(a) != e
  {
    if apps == [] then []
    else
      var init := apps[..|apps| - 1];
      var last := apps[|apps| - 1];
      assert Triples(apps)[..|apps| - 1] == Triples(init);
      assert forall a :: a in apps <==> a in init || a == last;
      var r := KeepUnmatched(init, e) + (if EntryOf(last) == e then [] else [last]);
      assert EntryOf(last) != e ==> Triples(r) == Triples(KeepUnmatched(init, e)) + [EntryOf(last)];
      r
  }

  lemma KeepUnmatchedSnoc(apps: seq<Appointment>, i: nat, e: Entry)
    requires i < |apps|
    ensures KeepUnmatched(apps[..i + 1], e) == KeepUnmatched(apps[..i], e) + (if EntryOf(apps[i]) == e then [] else [apps[i]])
  {
    assert apps[..i + 1][..i] == apps[..i];
  }

  /** The erase loop of cancelAppointment over the global list, proved against KeepUnmatched. */
  method EraseMatching(apps: seq<Appointment>, dateTime: string, patientName: string, doctorName: string)
    returns (kept: seq<Appointment>)
    ensures kept == KeepUnmatched(apps, Entry(dateTime, patientName, doctorName))
  {
    var e := Entry(dateTime, patientName, doctorName);
    kept := [];
    for i := 0 to |apps|
      invariant kept == KeepUnmatched(apps[..i], e)
    {
      var a := apps[i];
      KeepUnmatchedSnoc(apps, i, e);
      if !(a.dateTime == dateTime && a.patient.name == patientName && a.doctor.name == doctorName) {
        kept := kept + [a];
      }
    }
    assert apps[..|apps|] == apps;
  }

  /**
   * getVisitCardsForPatient's filter: the stored cards whose patient name is
   * exactly name, in insertion order.
   */
  function CardsFor(cards: seq<HospitalVisitCard>, name: string): (r: seq<HospitalVisitCard>)
    ensures forall c :: c in r <==> c in cards && PatientName(c) == name
    ensures |r| <= |cards|
  {
    if cards == [] then []
    else
      var init := cards[..|cards| - 1];
      var last := cards[|cards| - 1];
      assert forall c :: c in cards <==> c in init || c == last;
      CardsFor(init, name) + (if PatientName(last) == name then [last] else [])
  }

  /** The filter keeps insertion order: it distributes over concatenation. */
  lemma {:induction false} CardsForAppend(a: seq<HospitalVisitCard>, b: seq<HospitalVisitCard>, name: string)
    ensures CardsFor(a + b, name) == CardsFor(a, name) + CardsFor(b, name)
    decreases |b|
  {
    if b == [] {
      assert a + b == a;
    } else {
      var b' := b[..|b| - 1];
      assert (a + b)[..|a + b| - 1] == a + b';
      CardsForAppend(a, b', name);
    }
  }
}
