/**
 * The registry's read-only queries: name lookups, index access and the
 * free-slot generator with its two derived queries. Each is a function of
 * the registry's lists.
 */
module Queries {
  import opened Persons
  import opened Slots

  datatype Option<T> = None | Some(value: T)

  /** getByIndex's outcome: the element, or the out_of_range it throws. */
  datatype Result<T> = Ok(value: T) | OutOfRange

  /**
   * The scan of findDoctorByName / findPatientByName: the index of the first
   * record with exactly that name, or None where the C++ throws.
   */
  function FindFirst(people: seq<Person>, name: string): (r: Option<nat>)
    ensures r.Some? ==> r.value < |people| && people[r.value].name == name
                        && forall j :: 0 <= j < r.value ==> people[j].name != name
    ensures r.None? <==> forall j :: 0 <= j < |people| ==> people[j].name != name
  {
    if people == [] then None
    else if people[0].name == name then Some(0)
    else match FindFirst(people[1..], name)
      case None => None
      case Some(i) => Some(i + 1)
  }

  /** patientExists: the early-exit scan for a record with exactly that name. */
  function PatientExists(patients: seq<Person>, name: string): bool
  {
    if patients == [] then false
    else patients[0].name == name || PatientExists(patients[1..], name)
  }

  lemma {:induction false} PatientExistsIff(patients: seq<Person>, name: string)
    ensures PatientExists(patients, name) <==> exists j :: 0 <= j < |patients| && patients[j].name == name
    ensures PatientExists(patients, name) <==> FindFirst(patients, name).Some?
    decreases |patients|
  {
    if patients != [] {
      PatientExistsIff(patients[1..], name);
      if !PatientExists(patients, name) {
        forall j | 0 <= j < |patients| ensures patients[j].name != name {
          if j > 0 { assert patients[j] == patients[1..][j - 1]; }
        }
      } else if patients[0].name != name {
        var j :| 0 <= j < |patients[1..]| && patients[1..][j].name == name;
        assert patients[j + 1].name == name;
      }
    }
  }

  /** getByIndex: items[index] when 0 <= index < |items|, OutOfRange otherwise. */
  function GetByIndex<T>(index: int, items: seq<T>): (r: Result<T>)
    ensures r.Ok? <==> 0 <= index < |items|
    ensures r.Ok? ==> r.value == items[index]
  {
    if 0 <= index < |items| then Ok(items[index]) else OutOfRange
  }

  /** One element of getAvailableTimes: (dateTime, doctorName). */
  datatype FreeSlot = FreeSlot(dateTime: string, doctorName: string)

  /** No key occurs twice. */
  ghost predicate Distinct(keys: seq<string>)
  {
    forall p, q :: 0 <= p < q < |keys| ==> keys[p] != keys[q]
  }

  /** Indices, among the first n keys, at which the doctor is free, ascending. */
  function FreeIndices(d: Person, keys: seq<string>, n: nat): (r: seq<nat>)
    requires n <= |keys|
    ensures forall p, q :: 0 <= p < q < |r| ==> r[p] < r[q]
    ensures forall p :: 0 <= p < |r| ==> r[p] < n
    ensures forall k: nat {:trigger k in r} :: k in r <==> k < n && IsAvailable(d, keys[k])
    ensures |r| <= n
  {
    if n == 0 then []
    else
      var r := FreeIndices(d, keys, n - 1);
      if IsAvailable(d, keys[n - 1]) then r + [n - 1] else r
  }

  /**
   * The inner two loops of getAvailableTimes for one doctor, over the first
   * n keys: the pair is pushed exactly when the doctor is free at that key.
   */
  function DoctorSlotsUpTo(d: Person, keys: seq<string>, n: nat): (r: seq<FreeSlot>)
    requires n <= |keys|
    ensures |r| <= n
    ensures forall x :: x in r ==> x.doctorName == d.name
    ensures forall x :: x in r ==> exists k :: 0 <= k < n && x.dateTime == keys[k] && IsAvailable(d, keys[k])
  {
    if n == 0 then []
    else
      var r := DoctorSlotsUpTo(d, keys, n - 1);
      if IsAvailable(d, keys[n - 1]) then r + [FreeSlot(keys[n - 1], d.name)] else r
  }

  /** One doctor's pairs over the whole day grid. */
  function DoctorSlots(d: Person, date: string): seq<FreeSlot>
  {
    DoctorSlotsUpTo(d, DayKeys(date), SlotsPerDay)
  }

  /**
   * The p-th pair listed for a doctor is at the p-th free key: the keys
   * appear in the order they are tried, each at most once.
   */
  lemma {:induction false} DoctorSlotsInOrder(d: Person, keys: seq<string>, n: nat)
    requires n <= |keys|
    ensures |DoctorSlotsUpTo(d, keys, n)| == |FreeIndices(d, keys, n)|
    ensures forall p :: 0 <= p < |FreeIndices(d, keys, n)| ==>
              DoctorSlotsUpTo(d, keys, n)[p] == FreeSlot(keys[FreeIndices(d, keys, n)[p]], d.name)
    decreases n
  {
    if n > 0 {
      DoctorSlotsInOrder(d, keys, n - 1);
      var r, f := DoctorSlotsUpTo(d, keys, n - 1), FreeIndices(d, keys, n - 1);
      var r', f' := DoctorSlotsUpTo(d, keys, n), FreeIndices(d, keys, n);
      if IsAvailable(d, keys[n - 1]) {
        assert r' == r + [FreeSlot(keys[n - 1], d.name)];
        assert f' == f + [n - 1];
        assert |r'| == |r| + 1 == |f| + 1 == |f'|;
        forall p | 0 <= p < |f'| ensures r'[p] == FreeSlot(keys[f'[p]], d.name) {
          if p < |f| {
            assert r'[p] == r[p] && f'[p] == f[p];
          }
        }
      } else {
        assert r' == r;
        assert f' == f;
      }
    }
  }

  /** Key k is listed for a doctor iff the doctor is free there. */
  lemma {:induction false} DoctorSlotsFree(d: Person, keys: seq<string>, n: nat, k: nat)
    requires k < n <= |keys|
    ensures FreeSlot(keys[k], d.name) in DoctorSlotsUpTo(d, keys, n) <==> IsAvailable(d, keys[k])
    decreases n
  {
    var x := FreeSlot(keys[k], d.name);
    var r := DoctorSlotsUpTo(d, keys, n - 1);
    if k < n - 1 {
      DoctorSlotsFree(d, keys, n - 1, k);
    }
  }

  /** With distinct keys, no two of a doctor's pairs share a dateTime: at most one pair per key. */
  lemma {:induction false} DoctorSlotsOncePerKey(d: Person, keys: seq<string>, n: nat)
    requires n <= |keys| && Distinct(keys)
    ensures forall p, q :: 0 <= p < q < |DoctorSlotsUpTo(d, keys, n)| ==>
              DoctorSlotsUpTo(d, keys, n)[p].dateTime != DoctorSlotsUpTo(d, keys, n)[q].dateTime
    decreases n
  {
    if n > 0 {
      DoctorSlotsOncePerKey(d, keys, n - 1);
      var r, r' := DoctorSlotsUpTo(d, keys, n - 1), DoctorSlotsUpTo(d, keys, n);
      if IsAvailable(d, keys[n - 1]) {
        assert r' == r + [FreeSlot(keys[n - 1], d.name)];
        forall p, q | 0 <= p < q < |r'| ensures r'[p].dateTime != r'[q].dateTime {
          if q == |r| {
            assert r'[p] == r[p] && r[p] in r;
            var k :| 0 <= k < n - 1 && r[p].dateTime == keys[k] && IsAvailable(d, keys[k]);
          } else {
            assert r'[p] == r[p] && r'[q] == r[q];
          }
        }
      } else {
        assert r' == r;
      }
    }
  }

  /** A doctor's pairs for a date: at most twenty, all carrying the doctor's name, exactly the free slots. */
  lemma DoctorSlotsSpec(d: Person, date: string)
    ensures |DoctorSlots(d, date)| <= SlotsPerDay
    ensures forall x :: x in DoctorSlots(d, date) ==> x.doctorName == d.name
    ensures forall k :: 0 <= k < SlotsPerDay ==>
              (FreeSlot(SlotKey(date, k), d.name) in DoctorSlots(d, date) <==> IsAvailable(d, SlotKey(date, k)))
    ensures forall x :: x in DoctorSlots(d, date) ==>
              exists k :: 0 <= k < SlotsPerDay && x.dateTime == SlotKey(date, k) && IsAvailable(d, SlotKey(date, k))
  {
    var keys := DayKeys(date);
    DayKeysDistinct(date);
    forall k | 0 <= k < SlotsPerDay
      ensures FreeSlot(SlotKey(date, k), d.name) in DoctorSlots(d, date) <==> IsAvailable(d, SlotKey(date, k))
    {
      DoctorSlotsFree(d, keys, SlotsPerDay, k);
    }
  }

  /** The keys of one date, in the order the loops try them. */
  function DayKeys(date: string): (r: seq<string>)
    ensures |r| == SlotsPerDay
    ensures forall k :: 0 <= k < SlotsPerDay ==> r[k] == SlotKey(date, k)
  {
    seq(SlotsPerDay, k requires 0 <= k < SlotsPerDay => SlotKey(date, k))
  }

  lemma DayKeysDistinct(date: string)
    ensures Distinct(DayKeys(date))
  {
    var keys := DayKeys(date);
    forall p, q | 0 <= p < q < |keys| ensures keys[p] != keys[q] {
      SlotKeyInjective(date, p, q);
    }
  }

  /** The k-th key of a date is the date, a space and HH:MM, and HH:MM reads back as slot k's hour and minute. */
  lemma DayKeyRoundTrip(date: string, k: nat)
    requires k < SlotsPerDay
    ensures |DayKeys(date)[k]| == |date| + 6
    ensures DayKeys(date)[k][..|date|] == date && DayKeys(date)[k][|date|] == ' '
    ensures ParseSlotTime(DayKeys(date)[k][|date| + 1..]) == (SlotHour(k), SlotMinute(k))
  {
    var key := DayKeys(date)[k];
    assert key == date + " " + SlotTime(k);
    assert key[|date| + 1..] == SlotTime(k);
    SlotTimeRoundTrip(k);
  }

  /** The three loops of getAvailableTimes over a key grid: doctor-major, then the keys in order. */
  function TimesOver(doctors: seq<Person>, keys: seq<string>): seq<FreeSlot>
  {
    if doctors == [] then []
    else
      TimesOver(doctors[..|doctors| - 1], keys) + DoctorSlotsUpTo(doctors[|doctors| - 1], keys, |keys|)
  }

  /** The doctor-major list has at most |keys|·|doctors| pairs. */
  lemma {:induction false} TimesOverBound(doctors: seq<Person>, keys: seq<string>)
    ensures |TimesOver(doctors, keys)| <= |keys| * |doctors|
    decreases |doctors|
  {
    if doctors != [] {
      TimesOverBound(doctors[..|doctors| - 1], keys);
      assert |keys| * |doctors| == |keys| * (|doctors| - 1) + |keys|;
    }
  }

  /** getAvailableTimes(date). */
  function AvailableTimes(doctors: seq<Person>, date: string): seq<FreeSlot>
  {
    TimesOver(doctors, DayKeys(date))
  }

  /** getAvailableTimes lists at most 20 pairs per doctor. */
  lemma AvailableTimesBound(doctors: seq<Person>, date: string)
    ensures |AvailableTimes(doctors, date)| <= SlotsPerDay * |doctors|
  {
    TimesOverBound(doctors, DayKeys(date));
  }

  /** A pair is listed iff it is among the pairs of one of the doctors. */
  lemma {:induction false} TimesOverMembership(doctors: seq<Person>, keys: seq<string>, x: FreeSlot)
    ensures x in TimesOver(doctors, keys) <==> exists i :: 0 <= i < |doctors| && x in DoctorSlotsUpTo(doctors[i], keys, |keys|)
    decreases |doctors|
  {
    if doctors != [] {
      var init := doctors[..|doctors| - 1];
      var front, back := TimesOver(init, keys), DoctorSlotsUpTo(doctors[|doctors| - 1], keys, |keys|);
      assert TimesOver(doctors, keys) == front + back;
      TimesOverMembership(init, keys, x);
      if x in front {
        var i :| 0 <= i < |init| && x in DoctorSlotsUpTo(init[i], keys, |keys|);
        assert doctors[i] == init[i];
      } else if x !in back {
        forall i | 0 <= i < |doctors| ensures x !in DoctorSlotsUpTo(doctors[i], keys, |keys|) {
          if i < |init| {
            assert doctors[i] == init[i];
          }
        }
      }
    }
  }

  lemma AvailableTimesMembership(doctors: seq<Person>, date: string, x: FreeSlot)
    ensures x in AvailableTimes(doctors, date) <==> exists i :: 0 <= i < |doctors| && x in DoctorSlots(doctors[i], date)
  {
    TimesOverMembership(doctors, DayKeys(date), x);
  }

  /**
   * (date + " " + HH:MM of slot k, name) is listed iff a doctor of that name
   * is free at that dateTime.
   */
  lemma AvailableTimesSlot(doctors: seq<Person>, date: string, k: nat, name: string)
    requires k < SlotsPerDay
    ensures FreeSlot(SlotKey(date, k), name) in AvailableTimes(doctors, date)
        <==> exists i :: 0 <= i < |doctors| && doctors[i].name == name && IsAvailable(doctors[i], SlotKey(date, k))
  {
    var x := FreeSlot(SlotKey(date, k), name);
    AvailableTimesMembership(doctors, date, x);
    forall i | 0 <= i < |doctors|
      ensures x in DoctorSlots(doctors[i], date) <==> doctors[i].name == name && IsAvailable(doctors[i], SlotKey(date, k))
    {
      DoctorSlotsSpec(doctors[i], date);
    }
  }

  /** The pairs of slots whose doctor name is exactly name, in their order. */
  function OnlyDoctor(slots: seq<FreeSlot>, name: string): (r: seq<FreeSlot>)
    ensures |r| <= |slots|
  {
    if slots == [] then []
    else OnlyDoctor(slots[..|slots| - 1], name) + (if slots[|slots| - 1].doctorName == name then [slots[|slots| - 1]] else [])
  }

  /** The filter keeps exactly the pairs naming that doctor. */
  lemma {:induction false} OnlyDoctorMembership(slots: seq<FreeSlot>, name: string, x: FreeSlot)
    ensures x in OnlyDoctor(slots, name) <==> x in slots && x.doctorName == name
    decreases |slots|
  {
    if slots != [] {
      var init := slots[..|slots| - 1];
      assert slots == init + [slots[|slots| - 1]];
      OnlyDoctorMembership(init, name, x);
    }
  }

  lemma {:induction false} OnlyDoctorAppend(a: seq<FreeSlot>, b: seq<FreeSlot>, name: string)
    ensures OnlyDoctor(a + b, name) == OnlyDoctor(a, name) + OnlyDoctor(b, name)
    decreases |b|
  {
    if b == [] {
      assert a + b == a;
    } else {
      var b' := b[..|b| - 1];
      var last := b[|b| - 1];
      var tail := if last.doctorName == name then [last] else [];
      assert (a + b)[..|a + b| - 1] == a + b';
      assert OnlyDoctor(a + b, name) == OnlyDoctor(a + b', name) + tail;
      assert OnlyDoctor(b, name) == OnlyDoctor(b', name) + tail;
      OnlyDoctorAppend(a, b', name);
    }
  }

  lemma {:induction false} OnlyDoctorAll(slots: seq<FreeSlot>, name: string)
    requires forall x :: x in slots ==> x.doctorName == name
    ensures OnlyDoctor(slots, name) == slots
    decreases |slots|
  {
    if slots != [] {
      var init := slots[..|slots| - 1];
      assert slots == init + [slots[|slots| - 1]];
      OnlyDoctorAll(init, name);
    }
  }

  /** A list naming no pair of that doctor filters to nothing. */
  lemma OnlyDoctorNone(slots: seq<FreeSlot>, name: string)
    requires forall x :: x in slots ==> x.doctorName != name
    ensures OnlyDoctor(slots, name) == []
  {
    var r := OnlyDoctor(slots, name);
    if r != [] {
      OnlyDoctorMembership(slots, name, r[0]);
      assert false;
    }
  }

  /** getAvailableTimesForDoctor: the order-preserving filter of getAvailableTimes by doctor name. */
  function AvailableTimesForDoctor(doctors: seq<Person>, date: string, name: string): seq<FreeSlot>
  {
    OnlyDoctor(AvailableTimes(doctors, date), name)
  }

  /** A pair is in the per-doctor query iff it is in getAvailableTimes and names that doctor. */
  lemma ForDoctorMembership(doctors: seq<Person>, date: string, name: string, x: FreeSlot)
    ensures x in AvailableTimesForDoctor(doctors, date, name) <==> x in AvailableTimes(doctors, date) && x.doctorName == name
  {
    OnlyDoctorMembership(AvailableTimes(doctors, date), name, x);
  }

  lemma {:induction false} OnlyDoctorOver(doctors: seq<Person>, keys: seq<string>, i: nat)
    requires i < |doctors|
    requires forall j :: 0 <= j < |doctors| && j != i ==> doctors[j].name != doctors[i].name
    ensures OnlyDoctor(TimesOver(doctors, keys), doctors[i].name) == DoctorSlotsUpTo(doctors[i], keys, |keys|)
    decreases |doctors|
  {
    var name := doctors[i].name;
    var init := doctors[..|doctors| - 1];
    var last := doctors[|doctors| - 1];
    var front, back := TimesOver(init, keys), DoctorSlotsUpTo(last, keys, |keys|);
    assert TimesOver(doctors, keys) == front + back;
    OnlyDoctorAppend(front, back, name);
    if i == |doctors| - 1 {
      forall x | x in front ensures x.doctorName != name {
        TimesOverMembership(init, keys, x);
      }
      OnlyDoctorNone(front, name);
      OnlyDoctorAll(back, name);
      assert OnlyDoctor(front, name) + OnlyDoctor(back, name) == back;
    } else {
      assert init[i] == doctors[i];
      OnlyDoctorOver(init, keys, i);
      OnlyDoctorNone(back, name);
    }
  }

  /**
   * When exactly one doctor carries that name, the per-doctor query is that
   * doctor's free slots, in the order the slots are tried.
   */
  lemma ForDoctorIsDoctorSlots(doctors: seq<Person>, date: string, i: nat)
    requires i < |doctors|
    requires forall j :: 0 <= j < |doctors| && j != i ==> doctors[j].name != doctors[i].name
    ensures AvailableTimesForDoctor(doctors, date, doctors[i].name) == DoctorSlots(doctors[i], date)
  {
    OnlyDoctorOver(doctors, DayKeys(date), i);
  }

  /** The doctor names appearing in a list of free slots (the std::set of getAvailableDoctors). */
  function NamesIn(slots: seq<FreeSlot>): set<string>
  {
    set x | x in slots :: x.doctorName
  }

  /** The names carried by a list of records. */
  function Names(people: seq<Person>): set<string>
  {
    set d | d in people :: d.name
  }

  /** The names of the doctors, in list order, whose name is in names. */
  function DoctorsNamedIn(doctors: seq<Person>, names: set<string>): (r: seq<string>)
    ensures forall n :: n in r <==> n in names && n in Names(doctors)
    ensures |r| <= |doctors|
  {
    if doctors == [] then []
    else
      var init := doctors[..|doctors| - 1];
      var last := doctors[|doctors| - 1];
      assert doctors == init + [last];
      assert Names(doctors) == Names(init) + {last.name};
      DoctorsNamedIn(init, names) + (if last.name in names then [last.name] else [])
  }

  /** getAvailableDoctors: collect the names of getAvailableTimes, then walk the doctor list. */
  function AvailableDoctors(doctors: seq<Person>, date: string): seq<string>
  {
    DoctorsNamedIn(doctors, NamesIn(AvailableTimes(doctors, date)))
  }

  /** A doctor has at least one free slot on the date. */
  ghost predicate HasFreeSlot(d: Person, date: string)
  {
    exists k :: 0 <= k < SlotsPerDay && IsAvailable(d, SlotKey(date, k))
  }

  /** A name is returned iff some doctor of that name has a free slot on that date. */
  lemma AvailableDoctorsMembership(doctors: seq<Person>, date: string, n: string)
    ensures n in AvailableDoctors(doctors, date)
        <==> exists i :: 0 <= i < |doctors| && doctors[i].name == n && HasFreeSlot(doctors[i], date)
  {
    NamesInAvailable(doctors, date, n);
    if exists i :: 0 <= i < |doctors| && doctors[i].name == n && HasFreeSlot(doctors[i], date) {
      var i :| 0 <= i < |doctors| && doctors[i].name == n && HasFreeSlot(doctors[i], date);
      assert doctors[i] in doctors;
    }
  }

  /** The doctor walk distributes over concatenation, so the names keep the doctor list's order. */
  lemma {:induction false} DoctorsNamedInAppend(a: seq<Person>, b: seq<Person>, names: set<string>)
    ensures DoctorsNamedIn(a + b, names) == DoctorsNamedIn(a, names) + DoctorsNamedIn(b, names)
    decreases |b|
  {
    if b == [] {
      assert a + b == a;
    } else {
      var b0 := b[..|b| - 1];
      assert a + b == (a + b0) + [b[|b| - 1]];
      assert (a + b)[..|a + b| - 1] == a + b0;
      DoctorsNamedInAppend(a, b0, names);
    }
  }

  /** No two doctors share a name. */
  ghost predicate DistinctNames(doctors: seq<Person>)
  {
    forall p, q :: 0 <= p < q < |doctors| ==> doctors[p].name != doctors[q].name
  }

  /** Reference: the names of the doctors with a free slot on the date, in list order. */
  ghost function FreeDoctorNames(doctors: seq<Person>, date: string): seq<string>
  {
    if doctors == [] then []
    else
      FreeDoctorNames(doctors[..|doctors| - 1], date)
      + (if HasFreeSlot(doctors[|doctors| - 1], date) then [doctors[|doctors| - 1].name] else [])
  }

  /** A name is in the set of getAvailableDoctors iff some doctor of that name has a free slot. */
  lemma NamesInAvailable(doctors: seq<Person>, date: string, n: string)
    ensures n in NamesIn(AvailableTimes(doctors, date))
        <==> exists i :: 0 <= i < |doctors| && doctors[i].name == n && HasFreeSlot(doctors[i], date)
  {
    var all := AvailableTimes(doctors, date);
    if n in NamesIn(all) {
      var x :| x in all && x.doctorName == n;
      AvailableTimesMembership(doctors, date, x);
      var i :| 0 <= i < |doctors| && x in DoctorSlots(doctors[i], date);
      DoctorSlotsSpec(doctors[i], date);
    }
    if exists i :: 0 <= i < |doctors| && doctors[i].name == n && HasFreeSlot(doctors[i], date) {
      var i :| 0 <= i < |doctors| && doctors[i].name == n && HasFreeSlot(doctors[i], date);
      var k :| 0 <= k < SlotsPerDay && IsAvailable(doctors[i], SlotKey(date, k));
      AvailableTimesSlot(doctors, date, k, n);
      assert FreeSlot(SlotKey(date, k), n) in all;
    }
  }

  /** The walk keeps a doctor exactly when its name is in the set, so it agrees with any list-order filter that does. */
  lemma {:induction false} DoctorsNamedInWhere(doctors: seq<Person>, names: set<string>, date: string)
    requires forall i :: 0 <= i < |doctors| ==> (doctors[i].name in names <==> HasFreeSlot(doctors[i], date))
    ensures DoctorsNamedIn(doctors, names) == FreeDoctorNames(doctors, date)
    decreases |doctors|
  {
    if doctors != [] {
      var init := doctors[..|doctors| - 1];
      forall i | 0 <= i < |init| ensures init[i].name in names <==> HasFreeSlot(init[i], date) {
        assert init[i] == doctors[i];
      }
      DoctorsNamedInWhere(init, names, date);
    }
  }

  /**
   * With distinct doctor names, getAvailableDoctors is exactly the names of
   * the doctors with a free slot on the date, in the doctor list's order.
   */
  lemma AvailableDoctorsInOrder(doctors: seq<Person>, date: string)
    requires DistinctNames(doctors)
    ensures AvailableDoctors(doctors, date) == FreeDoctorNames(doctors, date)
  {
    var names := NamesIn(AvailableTimes(doctors, date));
    forall i | 0 <= i < |doctors| ensures doctors[i].name in names <==> HasFreeSlot(doctors[i], date) {
      NamesInAvailable(doctors, date, doctors[i].name);
      if doctors[i].name in names {
        var i' :| 0 <= i' < |doctors| && doctors[i'].name == doctors[i].name && HasFreeSlot(doctors[i'], date);
        assert i' == i;
      }
    }
    DoctorsNamedInWhere(doctors, names, date);
  }
}
