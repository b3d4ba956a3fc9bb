/**
 * The demonstration data: the eight doctors and eight patients a registry
 * starts with, and scheduleDefaulteAppointmentsForDate /
 * generateDefaultAppointments, which book blocks of doctor x patient pairs
 * at times taken from an eight-entry table, stepping backwards through it
 * modulo 8 and never checking availability.
 */
module Seeding {
  import opened Persons
  import opened Records
  import opened Slots
  import opened Operations
  import opened Invariants

  /** The registry's initial lists: eight doctors, eight patients, nothing booked. */
  function Initial(): State
  {
    State(
      [NewDoctor("John Smith"), NewDoctor("Emily Johnson"), NewDoctor("David Brown"), NewDoctor("Sarah Lee"),
       NewDoctor("Michael Wilson"), NewDoctor("Alexandra Garcia"), NewDoctor("Matthew Taylor"), NewDoctor("Olivia Martinez")],
      [NewPatient("Alice Smith", "23.08.1997"), NewPatient("Bob Johnson", "22.06.2000"),
       NewPatient("Charlie Brown", "12.01.1998"), NewPatient("Diana Davis", "03.03.2003"),
       NewPatient("Eva Martinez", "02.08.2008"), NewPatient("Frank Lopez", "14.02.2012"),
       NewPatient("Grace Lee", "14.08.2012"), NewPatient("Henry Jackson", "22.08.2006")],
      [], [])
  }

  /** The initial registry satisfies the invariant: the names are distinct and nothing is booked. */
  lemma InitialValid()
    ensures Valid(Initial())
  {
    var st := Initial();
    InitialNamesUnique();
    AllEntriesEmpty(st.doctors);
    AllEntriesEmpty(st.patients);
  }

  lemma InitialNamesUnique()
    ensures UniqueNames(Initial().doctors) && UniqueNames(Initial().patients)
  {
  }

  lemma {:induction false} AllEntriesEmpty(people: seq<Person>)
    requires forall k :: 0 <= k < |people| ==> people[k].appointments == []
    ensures AllEntries(people) == []
    decreases |people|
  {
    if people != [] {
      AllEntriesEmpty(people[..|people| - 1]);
    }
  }

  /** Length of the time table. */
  const TableSize: nat := 8

  /** The time table, each entry already carrying its leading space. */
  function DefaultTime(m: nat): string
    requires m < TableSize
  {
    match m
    case 0 => " 17:00"
    case 1 => " 12:30"
    case 2 => " 08:30"
    case 3 => " 14:00"
    case 4 => " 13:30"
    case 5 => " 09:00"
    case 6 => " 15:00"
    case _ => " 10:00"
  }

  /** The slot of the working-day grid each table entry falls on. */
  function DefaultSlot(m: nat): nat
    requires m < TableSize
  {
    match m
    case 0 => 18
    case 1 => 9
    case 2 => 1
    case 3 => 12
    case 4 => 11
    case 5 => 2
    case 6 => 14
    case _ => 4
  }

  /** Every table time is " HH:MM" of a slot of the working-day grid. */
  lemma TableIsSlot(m: nat)
    requires m < TableSize
    ensures DefaultSlot(m) < SlotsPerDay && DefaultTime(m) == " " + SlotTime(DefaultSlot(m))
  {
    if m < 4 {
      if m == 0 { SlotTimeChars(18, "17:00"); }
      else if m == 1 { SlotTimeChars(9, "12:30"); }
      else if m == 2 { SlotTimeChars(1, "08:30"); }
      else { SlotTimeChars(12, "14:00"); }
    } else {
      LateTableIsSlot(m);
    }
  }

  lemma LateTableIsSlot(m: nat)
    requires 4 <= m < TableSize
    ensures DefaultSlot(m) < SlotsPerDay && DefaultTime(m) == " " + SlotTime(DefaultSlot(m))
  {
    if m == 4 { SlotTimeChars(11, "13:30"); }
    else if m == 5 { SlotTimeChars(2, "09:00"); }
    else if m == 6 { SlotTimeChars(14, "15:00"); }
    else { SlotTimeChars(4, "10:00"); }
  }

  /** So every seeded dateTime is a key the free-slot scan tries. */
  lemma DefaultTimeIsSlot(date: string, m: nat)
    requires m < TableSize
    ensures DefaultSlot(m) < SlotsPerDay && date + DefaultTime(m) == SlotKey(date, DefaultSlot(m))
  {
    TableIsSlot(m);
    assert date + DefaultTime(m) == date + " " + SlotTime(DefaultSlot(m));
  }

  /** Different table entries give different dateTimes on the same date. */
  lemma DefaultTimesDistinct(date: string, a: nat, b: nat)
    requires a < TableSize && b < TableSize && a != b
    ensures date + DefaultTime(a) != date + DefaultTime(b)
  {
    assert DefaultTime(a) != DefaultTime(b);
    assert (date + DefaultTime(a))[|date|..] == DefaultTime(a);
    assert (date + DefaultTime(b))[|date|..] == DefaultTime(b);
  }

  /** The step after each booking: one entry back in the table, wrapping from 0 to 7. */
  function Prev(idx: nat): (r: nat)
    requires idx < TableSize
    ensures r < TableSize && (r + 1) % TableSize == idx
  {
    (idx - 1 + TableSize) % TableSize
  }

  lemma ModShift(a: int, b: int)
    ensures (a % 8 - b) % 8 == (a - b) % 8
  {
    var q := a / 8;
    assert a == 8 * q + a % 8;
    assert a - b == (a % 8 - b) + 8 * q;
  }

  /** The table index m bookings after index idx. */
  function Back(idx: nat, m: int): (r: nat)
    ensures r < TableSize
  {
    (idx - m) % TableSize
  }

  /** Stepping back once and then m more times is stepping back m + 1 times. */
  lemma PrevThenSteps(idx: nat, m: int)
    requires idx < TableSize
    ensures (Prev(idx) - m) % 8 == (idx - (m + 1)) % 8
  {
    ModShift(idx - 1, m);
  }

  /**
   * One booking of the seeding loop: the triple goes to doctor i, then to
   * patient j, then a snapshot of both updated records to the global list.
   */
  function Book(st: State, dateTime: string, i: nat, j: nat): (r: State)
    requires i < |st.doctors| && j < |st.patients|
  {
    var doctor' := AddAppointment(st.doctors[i], dateTime, st.patients[j].name, st.doctors[i].name);
    var patient' := AddAppointment(st.patients[j], dateTime, st.patients[j].name, st.doctors[i].name);
    State(st.doctors[i := doctor'], st.patients[j := patient'],
          st.appointments + [Appointment(dateTime, doctor', patient')], st.visitCards)
  }

  /** The inner loop from patient j on, for doctor i: the final state and table index. */
  function SeedRow(st: State, date: string, idx: nat, i: nat, j: nat, pc: nat): (r: (State, nat))
    requires idx < TableSize
    requires j < pc ==> i < |st.doctors| && pc <= |st.patients|
    ensures |r.0.doctors| == |st.doctors| && |r.0.patients| == |st.patients| && r.1 < TableSize
    decreases pc - j
  {
    if j >= pc then (st, idx)
    else SeedRow(Book(st, date + DefaultTime(idx), i, j), date, Prev(idx), i, j + 1, pc)
  }

  /** The outer loop from doctor i on; every row starts again at patient s. */
  function SeedRows(st: State, date: string, idx: nat, i: nat, dc: nat, pc: nat, s: nat): (r: (State, nat))
    requires idx < TableSize
    requires i < dc && s < pc ==> dc <= |st.doctors| && pc <= |st.patients|
    ensures |r.0.doctors| == |st.doctors| && |r.0.patients| == |st.patients| && r.1 < TableSize
    decreases dc - i
  {
    if i >= dc then (st, idx)
    else
      var row := SeedRow(st, date, idx, i, s, pc);
      SeedRows(row.0, date, row.1, i + 1, dc, pc, s)
  }

  /** scheduleDefaulteAppointmentsForDate(date, idx, dc, pc, s). */
  function ScheduleDefaults(st: State, date: string, idx: nat, dc: nat, pc: nat, s: nat): State
    requires idx < TableSize
    requires s < dc && s < pc ==> dc <= |st.doctors| && pc <= |st.patients|
  {
    SeedRows(st, date, idx, s, dc, pc, s).0
  }

  /**
   * generateDefaultAppointments with the two dates passed in: the first half
   * of both lists on today from table entry 0, then indices 4 onwards of
   * both full lists on tomorrow from table entry 7.
   */
  function GenerateDefaults(st: State, today: string, tomorrow: string): State
  {
    var st1 := ScheduleDefaults(st, today, 0, |st.doctors| / 2, |st.patients| / 2, 0);
    ScheduleDefaults(st1, tomorrow, 7, |st1.doctors|, |st1.patients|, 4)
  }

  /** One turn of the outer loop. */
  lemma SeedRowsUnfold(st: State, date: string, idx: nat, i: nat, dc: nat, pc: nat, s: nat)
    requires idx < TableSize && i < dc
    requires s < pc ==> dc <= |st.doctors| && pc <= |st.patients|
    ensures var row := SeedRow(st, date, idx, i, s, pc);
      SeedRows(st, date, idx, i, dc, pc, s) == SeedRows(row.0, date, row.1, i + 1, dc, pc, s)
  {
  }

  /************************** counts and the table index **************************/

  function Steps(from: nat, to: nat): nat
  {
    if from < to then to - from else 0
  }

  /** One turn of the inner loop. */
  lemma SeedRowUnfold(st: State, date: string, idx: nat, i: nat, j: nat, pc: nat)
    requires idx < TableSize && j < pc
    requires i < |st.doctors| && pc <= |st.patients|
    ensures SeedRow(st, date, idx, i, j, pc) == SeedRow(Book(st, date + DefaultTime(idx), i, j), date, Prev(idx), i, j + 1, pc)
  {
  }

  /** Stepping back a and then b times is stepping back a + b times. */
  lemma BackBack(idx: nat, a: int, b: int)
    ensures Back(Back(idx, a), b) == Back(idx, a + b)
  {
    ModShift(idx - a, b);
  }

  /** A row books one pair per remaining patient and steps the index back once per booking. */
  lemma {:induction false} SeedRowSteps(st: State, date: string, idx: nat, i: nat, j: nat, pc: nat)
    requires idx < TableSize
    requires j < pc ==> i < |st.doctors| && pc <= |st.patients|
    ensures var r := SeedRow(st, date, idx, i, j, pc);
      && |r.0.appointments| == |st.appointments| + Steps(j, pc)
      && r.0.appointments[..|st.appointments|] == st.appointments
      && r.1 == Back(idx, Steps(j, pc))
    decreases pc - j
  {
    if j < pc {
      var st' := Book(st, date + DefaultTime(idx), i, j);
      SeedRowUnfold(st, date, idx, i, j, pc);
      SeedRowSteps(st', date, Prev(idx), i, j + 1, pc);
      PrevThenSteps(idx, Steps(j + 1, pc));
      var r := SeedRow(st', date, Prev(idx), i, j + 1, pc).0;
      assert r.appointments[..|st.appointments|] == r.appointments[..|st'.appointments|][..|st.appointments|];
    }
  }

  /** Bookings made by the rows i .. dc - 1 when each row makes w: (dc - i) * w. */
  function Bookings(i: nat, dc: nat, w: nat): (n: nat)
    decreases dc - i
  {
    if i < dc then w + Bookings(i + 1, dc, w) else 0
  }

  lemma {:induction false} BookingsProduct(i: nat, dc: nat, w: nat)
    ensures Bookings(i, dc, w) == Steps(i, dc) * w
    decreases dc - i
  {
    if i < dc {
      BookingsProduct(i + 1, dc, w);
      assert Steps(i, dc) == 1 + Steps(i + 1, dc);
    }
  }

  /**
   * The block books (dc - i) x (pc - s) pairs and steps the index back that
   * many times, modulo 8; earlier appointments stay as they were.
   */
  lemma SeedRowsSteps(st: State, date: string, idx: nat, i: nat, dc: nat, pc: nat, s: nat)
    requires idx < TableSize
    requires i < dc && s < pc ==> dc <= |st.doctors| && pc <= |st.patients|
    ensures var r := SeedRows(st, date, idx, i, dc, pc, s);
      && |r.0.appointments| == |st.appointments| + Steps(i, dc) * Steps(s, pc)
      && r.0.appointments[..|st.appointments|] == st.appointments
      && r.1 == Back(idx, Steps(i, dc) * Steps(s, pc))
  {
    SeedRowsCount(st, date, idx, i, dc, pc, s);
    BookingsProduct(i, dc, Steps(s, pc));
  }

  lemma {:induction false} SeedRowsCount(st: State, date: string, idx: nat, i: nat, dc: nat, pc: nat, s: nat)
    requires idx < TableSize
    requires i < dc && s < pc ==> dc <= |st.doctors| && pc <= |st.patients|
    ensures var r := SeedRows(st, date, idx, i, dc, pc, s);
      && |r.0.appointments| == |st.appointments| + Bookings(i, dc, Steps(s, pc))
      && r.0.appointments[..|st.appointments|] == st.appointments
      && r.1 == Back(idx, Bookings(i, dc, Steps(s, pc)))
    decreases dc - i
  {
    if i < dc {
      var row := SeedRow(st, date, idx, i, s, pc);
      var st' := row.0;
      SeedRowsUnfold(st, date, idx, i, dc, pc, s);
      SeedRowSteps(st, date, idx, i, s, pc);
      SeedRowsCount(st', date, row.1, i + 1, dc, pc, s);
      BackBack(idx, Steps(s, pc), Bookings(i + 1, dc, Steps(s, pc)));
      var r := SeedRows(st', date, row.1, i + 1, dc, pc, s).0;
      assert r.appointments[..|st.appointments|] == r.appointments[..|st'.appointments|][..|st.appointments|];
    }
  }

  /************************** what a block touches **************************/

  /** A row changes only doctor i's record, and keeps every doctor's name. */
  lemma {:induction false} SeedRowFrame(st: State, date: string, idx: nat, i: nat, j: nat, pc: nat)
    requires idx < TableSize
    requires j < pc ==> i < |st.doctors| && pc <= |st.patients|
    ensures var r := SeedRow(st, date, idx, i, j, pc).0;
      && (forall k :: 0 <= k < |st.doctors| && k != i ==> r.doctors[k] == st.doctors[k])
      && (forall k :: 0 <= k < |st.doctors| ==> r.doctors[k].name == st.doctors[k].name)
    decreases pc - j
  {
    if j < pc {
      SeedRowFrame(Book(st, date + DefaultTime(idx), i, j), date, Prev(idx), i, j + 1, pc);
    }
  }

  /** A block changes only the doctors with index in [i, dc). */
  lemma {:induction false} SeedRowsFrame(st: State, date: string, idx: nat, i: nat, dc: nat, pc: nat, s: nat)
    requires idx < TableSize
    requires i < dc && s < pc ==> dc <= |st.doctors| && pc <= |st.patients|
    ensures var r := SeedRows(st, date, idx, i, dc, pc, s).0;
      forall k :: 0 <= k < |st.doctors| && !(i <= k < dc) ==> r.doctors[k] == st.doctors[k]
    decreases dc - i
  {
    if i < dc {
      var row := SeedRow(st, date, idx, i, s, pc);
      var st', idx' := row.0, row.1;
      SeedRowFrame(st, date, idx, i, s, pc);
      SeedRowsFrame(st', date, idx', i + 1, dc, pc, s);
      SeedRowsUnfold(st, date, idx, i, dc, pc, s);
    }
  }

  /************************** mirroring and validity **************************/

  /** P survives every single booking, whatever its time, doctor and patient. */
  ghost predicate BookKeeps(P: State -> bool)
  {
    forall s: State, dt: string, i: nat, j: nat ::
      i < |s.doctors| && j < |s.patients| && P(s) ==> P(Book(s, dt, i, j))
  }

  /** A property every booking keeps holds after a row. */
  lemma {:induction false} SeedRowKeeps(P: State -> bool, st: State, date: string, idx: nat, i: nat, j: nat, pc: nat)
    requires idx < TableSize && BookKeeps(P) && P(st)
    requires j < pc ==> i < |st.doctors| && pc <= |st.patients|
    ensures P(SeedRow(st, date, idx, i, j, pc).0)
    decreases pc - j
  {
    if j < pc {
      SeedRowKeeps(P, Book(st, date + DefaultTime(idx), i, j), date, Prev(idx), i, j + 1, pc);
    }
  }

  /** A property every booking keeps holds after a block. */
  lemma {:induction false} SeedRowsKeeps(P: State -> bool, st: State, date: string, idx: nat, i: nat, dc: nat, pc: nat, s: nat)
    requires idx < TableSize && BookKeeps(P) && P(st)
    requires i < dc && s < pc ==> dc <= |st.doctors| && pc <= |st.patients|
    ensures P(SeedRows(st, date, idx, i, dc, pc, s).0)
    decreases dc - i
  {
    if i < dc {
      var row := SeedRow(st, date, idx, i, s, pc);
      SeedRowKeeps(P, st, date, idx, i, s, pc);
      SeedRowsKeeps(P, row.0, date, row.1, i + 1, dc, pc, s);
      SeedRowsUnfold(st, date, idx, i, dc, pc, s);
    }
  }

  /** Each booking mirrors one triple into the doctor, the patient and the global list. */
  lemma BookMirrors(st: State, dateTime: string, i: nat, j: nat)
    requires i < |st.doctors| && j < |st.patients| && Agree(st)
    ensures Agree(Book(st, dateTime, i, j))
  {
    var e := Entry(dateTime, st.patients[j].name, st.doctors[i].name);
    var r := Book(st, dateTime, i, j);
    TriplesAppend(st.appointments, r.appointments[|st.appointments|]);
    assert r.appointments == st.appointments + [r.appointments[|st.appointments|]];
    PooledAfterAppend(st.doctors, i, e);
    PooledAfterAppend(st.patients, j, e);
  }

  /** Seeding never checks availability, yet the global list and the personal lists keep agreeing. */
  lemma SeedRowsMirror(st: State, date: string, idx: nat, i: nat, dc: nat, pc: nat, s: nat)
    requires idx < TableSize && Agree(st)
    requires i < dc && s < pc ==> dc <= |st.doctors| && pc <= |st.patients|
    ensures Agree(SeedRows(st, date, idx, i, dc, pc, s).0)
  {
    var P := (x: State) => Agree(x);
    forall x: State, dt: string, i': nat, j': nat | i' < |x.doctors| && j' < |x.patients| && P(x)
      ensures P(Book(x, dt, i', j'))
    {
      BookMirrors(x, dt, i', j');
    }
    SeedRowsKeeps(P, st, date, idx, i, dc, pc, s);
  }

  /** Names stay unique and every entry names its holder. */
  ghost predicate Owned(st: State)
  {
    UniqueNames(st.doctors) && UniqueNames(st.patients) && DoctorEntriesOwn(st.doctors) && PatientEntriesOwn(st.patients)
  }

  lemma BookKeepsOwned(st: State, dateTime: string, i: nat, j: nat)
    requires i < |st.doctors| && j < |st.patients| && Owned(st)
    ensures Owned(Book(st, dateTime, i, j))
  {
    var e := Entry(dateTime, st.patients[j].name, st.doctors[i].name);
    DoctorsAfterAppend(st.doctors, i, e);
    PatientsAfterAppend(st.patients, j, e);
  }

  lemma SeedRowsOwned(st: State, date: string, idx: nat, i: nat, dc: nat, pc: nat, s: nat)
    requires idx < TableSize && Owned(st)
    requires i < dc && s < pc ==> dc <= |st.doctors| && pc <= |st.patients|
    ensures Owned(SeedRows(st, date, idx, i, dc, pc, s).0)
  {
    var P := (x: State) => Owned(x);
    forall x: State, dt: string, i': nat, j': nat | i' < |x.doctors| && j' < |x.patients| && P(x)
      ensures P(Book(x, dt, i', j'))
    {
      BookKeepsOwned(x, dt, i', j');
    }
    SeedRowsKeeps(P, st, date, idx, i, dc, pc, s);
  }

  /**
   * A row of at most eight bookings whose times the doctor still has free
   * never double-books: consecutive table indices differ modulo 8.
   */
  lemma {:induction false} SeedRowNoDoubleBooking(st: State, date: string, idx: nat, i: nat, j: nat, pc: nat)
    requires idx < TableSize && NoDoubleBooking(st.doctors)
    requires j < pc ==> i < |st.doctors| && pc <= |st.patients|
    requires Steps(j, pc) <= TableSize
    requires forall m :: 0 <= m < Steps(j, pc) ==> IsAvailable(st.doctors[i], date + DefaultTime(Back(idx, m)))
    ensures NoDoubleBooking(SeedRow(st, date, idx, i, j, pc).0.doctors)
    decreases pc - j
  {
    if j < pc {
      var dt := date + DefaultTime(idx);
      assert Back(idx, 0) == idx;
      var st' := Book(st, dt, i, j);
      AddKeepsDistinct(st.doctors[i], dt, st.patients[j].name, st.doctors[i].name);
      assert NoDoubleBooking(st'.doctors);
      forall m | 0 <= m < Steps(j + 1, pc)
        ensures IsAvailable(st'.doctors[i], date + DefaultTime(Back(Prev(idx), m)))
      {
        PrevThenSteps(idx, m);
        var t := Back(idx, m + 1);
        assert IsAvailable(st.doctors[i], date + DefaultTime(t));
        DefaultTimesDistinct(date, t, idx);
        AvailableAfterAdd(st.doctors[i], dt, st.patients[j].name, st.doctors[i].name, date + DefaultTime(t));
      }
      SeedRowNoDoubleBooking(st', date, Prev(idx), i, j + 1, pc);
      SeedRowUnfold(st, date, idx, i, j, pc);
    }
  }

  /** The doctor has all eight table times of that date free. */
  ghost predicate FreeOnTable(d: Person, date: string)
  {
    forall m :: 0 <= m < TableSize ==> IsAvailable(d, date + DefaultTime(m))
  }

  /**
   * A block at most eight patients wide, over doctors free at every table
   * time of that date, never double-books a doctor.
   */
  lemma {:induction false} SeedRowsNoDoubleBooking(st: State, date: string, idx: nat, i: nat, dc: nat, pc: nat, s: nat)
    requires idx < TableSize && NoDoubleBooking(st.doctors)
    requires i < dc && s < pc ==> dc <= |st.doctors| && pc <= |st.patients|
    requires Steps(s, pc) <= TableSize
    requires forall k :: i <= k < dc && s < pc ==> FreeOnTable(st.doctors[k], date)
    ensures NoDoubleBooking(SeedRows(st, date, idx, i, dc, pc, s).0.doctors)
    decreases dc - i
  {
    if i < dc {
      var row := SeedRow(st, date, idx, i, s, pc);
      if s < pc {
        assert FreeOnTable(st.doctors[i], date);
      }
      SeedRowNoDoubleBooking(st, date, idx, i, s, pc);
      SeedRowFrame(st, date, idx, i, s, pc);
      SeedRowsNoDoubleBooking(row.0, date, row.1, i + 1, dc, pc, s);
      SeedRowsUnfold(st, date, idx, i, dc, pc, s);
    }
  }

  /** The three together: such a block keeps the whole invariant. */
  lemma SeedRowsValid(st: State, date: string, idx: nat, i: nat, dc: nat, pc: nat, s: nat)
    requires idx < TableSize && Valid(st)
    requires i < dc && s < pc ==> dc <= |st.doctors| && pc <= |st.patients|
    requires Steps(s, pc) <= TableSize
    requires forall k :: i <= k < dc && s < pc ==> FreeOnTable(st.doctors[k], date)
    ensures Valid(SeedRows(st, date, idx, i, dc, pc, s).0)
  {
    SeedRowsMirror(st, date, idx, i, dc, pc, s);
    SeedRowsOwned(st, date, idx, i, dc, pc, s);
    SeedRowsNoDoubleBooking(st, date, idx, i, dc, pc, s);
  }

  /** A doctor with no bookings has every table time free. */
  lemma EmptyIsFree(d: Person, date: string)
    requires d.appointments == []
    ensures FreeOnTable(d, date)
  {
  }

  /**
   * From any valid registry with eight doctors, eight patients and no
   * bookings, generating the default appointments books 16 pairs on each
   * date, 32 in all, and keeps the invariant, whatever the two dates are.
   */
  lemma GenerateKeepsValid(st0: State, today: string, tomorrow: string)
    requires Valid(st0) && |st0.doctors| == 8 && |st0.patients| == 8 && st0.appointments == []
    requires forall k :: 0 <= k < 8 ==> st0.doctors[k].appointments == []
    ensures Valid(GenerateDefaults(st0, today, tomorrow))
    ensures |GenerateDefaults(st0, today, tomorrow).appointments| == 32
  {
    TodayBlock(st0, today);
    var st1 := SeedRows(st0, today, 0, 0, 4, 4, 0).0;
    forall k | 4 <= k < 8 ensures FreeOnTable(st1.doctors[k], tomorrow) {
      EmptyIsFree(st1.doctors[k], tomorrow);
    }
    SeedRowsValid(st1, tomorrow, 7, 4, 8, 8, 4);
    SeedRowsSteps(st1, tomorrow, 7, 4, 8, 8, 4);
  }

  /** The first block books doctors 0-3 with patients 0-3 and leaves doctors 4-7 untouched. */
  lemma TodayBlock(st0: State, today: string)
    requires Valid(st0) && |st0.doctors| == 8 && |st0.patients| == 8 && st0.appointments == []
    requires forall k :: 0 <= k < 8 ==> st0.doctors[k].appointments == []
    ensures var st1 := SeedRows(st0, today, 0, 0, 4, 4, 0).0;
      && Valid(st1) && |st1.doctors| == 8 && |st1.patients| == 8 && |st1.appointments| == 16
      && forall k :: 4 <= k < 8 ==> st1.doctors[k].appointments == []
  {
    TodayBlockValid(st0, today);
    TodayBlockShape(st0, today);
  }

  lemma TodayBlockValid(st0: State, today: string)
    requires Valid(st0) && |st0.doctors| == 8 && |st0.patients| == 8
    requires forall k :: 0 <= k < 8 ==> st0.doctors[k].appointments == []
    ensures Valid(SeedRows(st0, today, 0, 0, 4, 4, 0).0)
  {
    forall k | 0 <= k < 4 ensures FreeOnTable(st0.doctors[k], today) {
      EmptyIsFree(st0.doctors[k], today);
    }
    SeedRowsValid(st0, today, 0, 0, 4, 4, 0);
  }

  lemma TodayBlockShape(st0: State, today: string)
    requires |st0.doctors| == 8 && |st0.patients| == 8 && st0.appointments == []
    requires forall k :: 0 <= k < 8 ==> st0.doctors[k].appointments == []
    ensures var st1 := SeedRows(st0, today, 0, 0, 4, 4, 0).0;
      && |st1.doctors| == 8 && |st1.patients| == 8 && |st1.appointments| == 16
      && forall k :: 4 <= k < 8 ==> st1.doctors[k].appointments == []
  {
    SeedRowsFrame(st0, today, 0, 0, 4, 4, 0);
    SeedRowsSteps(st0, today, 0, 0, 4, 4, 0);
  }

  /** The demonstration data of a new registry: 32 bookings, invariant kept. */
  lemma GenerateDefaultsValid(today: string, tomorrow: string)
    ensures Valid(GenerateDefaults(Initial(), today, tomorrow))
    ensures |GenerateDefaults(Initial(), today, tomorrow).appointments| == 32
  {
    InitialValid();
    GenerateKeepsValid(Initial(), today, tomorrow);
  }
}
