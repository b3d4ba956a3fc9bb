/**
 * Person records (AbstractPerson, Doctor, Patient): a name, a date of birth
 * and an ordered list of bookings, each booking being the triple
 * (dateTime, (patientName, doctorName)).
 */
module Persons {

  /** One booking as a person stores it. */
  datatype Entry = Entry(dateTime: string, patientName: string, doctorName: string)

  /** A doctor or a patient. A doctor is built from a name only, so its date of birth is empty. */
  datatype Person = Person(name: string, dateOfBirth: string, appointments: seq<Entry>)

  /** Patient(name, dateOfBirth): a new record has no bookings. */
  function NewPatient(name: string, dateOfBirth: string): Person
  {
    Person(name, dateOfBirth, [])
  }

  /** Doctor(name): the name-only constructor leaves the date of birth empty. */
  function NewDoctor(name: string): Person
  {
    Person(name, "", [])
  }

  /** addAppointment: push the triple at the end of the list. */
  function AddAppointment(p: Person, dateTime: string, patientName: string, doctorName: string): Person
  {
    p.(appointments := p.appointments + [Entry(dateTime, patientName, doctorName)])
  }

  /** Number of occurrences of e in s. */
  function Count(s: seq<Entry>, e: Entry): nat
  {
    if s == [] then 0
    else Count(s[..|s| - 1], e) + (if s[|s| - 1] == e then 1 else 0)
  }

  /**
   * The entries of s that differ from e, in their original order: what
   * remove_if followed by erase leaves behind.
   */
  function Without(s: seq<Entry>, e: Entry): (r: seq<Entry>)
    ensures |r| == |s| - Count(s, e)
    ensures forall x :: x in r <==> x in s && x != e
  {
    if s == [] then []
    else
      var init := s[..|s| - 1];
      assert forall x :: x in s <==> x in init || x == s[|s| - 1];
      Without(init, e) + (if s[|s| - 1] == e then [] else [s[|s| - 1]])
  }

  /** The record after deleteAppointment(dateTime, patientName, doctorName). */
  function Deleted(p: Person, e: Entry): Person
  {
    p.(appointments := Without(p.appointments, e))
  }

  /**
   * deleteAppointment: a single pass that keeps every entry not equal to the
   * triple in all three fields, in order (the stable remove_if), then drops
   * the tail (erase).
   */
  method DeleteAppointment(p: Person, dateTime: string, patientName: string, doctorName: string)
    returns (q: Person)
    ensures q == Deleted(p, Entry(dateTime, patientName, doctorName))
  {
    var e := Entry(dateTime, patientName, doctorName);
    var s := p.appointments;
    var kept: seq<Entry> := [];
    for i := 0 to |s|
      invariant kept == Without(s[..i], e)
    {
      assert s[..i + 1][..i] == s[..i];
      if s[i] != e {
        kept := kept + [s[i]];
      }
    }
    assert s[..|s|] == s;
    q := p.(appointments := kept);
  }

  /** Deletion keeps relative order: it distributes over concatenation. */
  lemma {:induction false} WithoutAppend(a: seq<Entry>, b: seq<Entry>, e: Entry)
    ensures Without(a + b, e) == Without(a, e) + Without(b, e)
    decreases |b|
  {
    if b == [] {
      assert a + b == a;
    } else {
      var b' := b[..|b| - 1];
      assert (a + b)[..|a + b| - 1] == a + b';
      WithoutAppend(a, b', e);
    }
  }

  /** With no matching entry, deletion leaves the list unchanged. */
  lemma {:induction false} WithoutNoMatch(s: seq<Entry>, e: Entry)
    requires e !in s
    ensures Without(s, e) == s
    decreases |s|
  {
    if s != [] {
      var init := s[..|s| - 1];
      assert s == init + [s[|s| - 1]];
      WithoutNoMatch(init, e);
    }
  }

  /** Deleting the same triple twice is the same as deleting it once. */
  lemma WithoutIdempotent(s: seq<Entry>, e: Entry)
    ensures Without(Without(s, e), e) == Without(s, e)
  {
    WithoutNoMatch(Without(s, e), e);
  }

  /** Adding a triple that was absent and then deleting it restores the list. */
  lemma AddThenDelete(p: Person, dateTime: string, patientName: string, doctorName: string)
    requires Entry(dateTime, patientName, doctorName) !in p.appointments
    ensures Deleted(AddAppointment(p, dateTime, patientName, doctorName),
                    Entry(dateTime, patientName, doctorName)) == p
  {
    var e := Entry(dateTime, patientName, doctorName);
    var s := p.appointments + [e];
    assert s[..|s| - 1] == p.appointments;
    WithoutNoMatch(p.appointments, e);
  }

  /** Deletion removes exactly the occurrences of e, as multisets. */
  lemma {:induction false} WithoutMultiset(s: seq<Entry>, e: Entry)
    ensures multiset(Without(s, e)) == multiset(s)[e := 0]
    decreases |s|
  {
    if s != [] {
      var init := s[..|s| - 1];
      assert s == init + [s[|s| - 1]];
      WithoutMultiset(init, e);
    }
  }

  /**
   * isAvailable: the early-exit scan over the bookings; false as soon as an
   * entry has exactly this dateTime.
   */
  function IsAvailable(p: Person, dateTime: string): bool
  {
    FreeIn(p.appointments, dateTime)
  }

  function FreeIn(s: seq<Entry>, dateTime: string): bool
  {
    if s == [] then true
    else if s[0].dateTime == dateTime then false
    else FreeIn(s[1..], dateTime)
  }

  /** The scan is false iff some booking has exactly that dateTime. */
  lemma {:induction false} FreeInIff(s: seq<Entry>, dateTime: string)
    ensures FreeIn(s, dateTime) <==> forall x :: x in s ==> x.dateTime != dateTime
    decreases |s|
  {
    if s != [] {
      assert forall x :: x in s <==> x == s[0] || x in s[1..];
      FreeInIff(s[1..], dateTime);
    }
  }

  /** A freshly constructed doctor is free at every dateTime. */
  lemma NewDoctorAvailable(name: string, dateTime: string)
    ensures IsAvailable(NewDoctor(name), dateTime)
  {
  }

  /**
   * After addAppointment(t, ...), the doctor is busy at t and nowhere else
   * new; the names in the triple play no part.
   */
  lemma AvailableAfterAdd(p: Person, t: string, patientName: string, doctorName: string, u: string)
    ensures IsAvailable(AddAppointment(p, t, patientName, doctorName), u)
        <==> IsAvailable(p, u) && u != t
  {
    var e := Entry(t, patientName, doctorName);
    var s := p.appointments + [e];
    FreeInIff(s, u);
    FreeInIff(p.appointments, u);
    assert forall x :: x in s <==> x in p.appointments || x == e;
  }

  /**
   * After deleting triple e, the person is free at u iff every remaining
   * booking at u was e itself; in particular deleting the only booking at u
   * frees u again.
   */
  lemma AvailableAfterDelete(p: Person, e: Entry, u: string)
    ensures IsAvailable(Deleted(p, e), u)
        <==> forall x :: x in p.appointments && x.dateTime == u ==> x == e
  {
    FreeInIff(Without(p.appointments, e), u);
  }

  /** Every pair of bookings in s is at a different dateTime. */
  ghost predicate DistinctTimes(s: seq<Entry>)
  {
    forall i, j :: 0 <= i < j < |s| ==> s[i].dateTime != s[j].dateTime
  }

  /** Deletion never creates a clash of dateTimes. */
  lemma {:induction false} WithoutKeepsDistinct(s: seq<Entry>, e: Entry)
    requires DistinctTimes(s)
    ensures DistinctTimes(Without(s, e))
    decreases |s|
  {
    if s != [] {
      var init := s[..|s| - 1];
      var last := s[|s| - 1];
      assert DistinctTimes(init) by {
        forall i, j | 0 <= i < j < |init| ensures init[i].dateTime != init[j].dateTime {
          assert init[i] == s[i] && init[j] == s[j];
        }
      }
      WithoutKeepsDistinct(init, e);
      var w := Without(init, e);
      if last != e {
        forall i, j | 0 <= i < j < |w + [last]|
          ensures (w + [last])[i].dateTime != (w + [last])[j].dateTime
        {
          if j == |w| {
            assert w[i] in init;
            var k :| 0 <= k < |init| && init[k] == w[i];
            assert s[k] == w[i];
          }
        }
      }
    }
  }

  /** Adding at a free dateTime keeps the dateTimes distinct. */
  lemma AddKeepsDistinct(p: Person, t: string, patientName: string, doctorName: string)
    requires DistinctTimes(p.appointments) && IsAvailable(p, t)
    ensures DistinctTimes(AddAppointment(p, t, patientName, doctorName).appointments)
  {
    FreeInIff(p.appointments, t);
    var s := p.appointments + [Entry(t, patientName, doctorName)];
    forall i, j | 0 <= i < j < |s| ensures s[i].dateTime != s[j].dateTime {
      if j == |p.appointments| {
        assert s[i] in p.appointments;
      }
    }
  }
}
