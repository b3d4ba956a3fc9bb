# Hospital registry — a Dafny model

This project models the in-memory appointment registry of a small clinic
scheduler written in C++. The registry owns four lists: doctors, patients,
appointments and hospital visit cards. Every doctor and patient record
carries an ordered list of bookings. A booking is the triple
`(dateTime, (patientName, doctorName))`.

The registry can:

- look people up by name or by index;
- register a patient, keeping the first record of a name;
- book an appointment, which checks only that the doctor is free;
- cancel an appointment, which removes every exact triple match from all three places;
- list the free half-hour slots of a working day (08:00 to 17:30), for every doctor or for one;
- list the doctors with a free slot;
- store visit cards and filter them by patient;
- seed demonstration data by stepping backwards through an eight-entry time table.

Records are held by value. `vector<Doctor>` and `vector<Patient>` own their
elements, and an `Appointment` or a `HospitalVisitCard` copies the doctor and
the patient it is built from. So a person is a Dafny `datatype`, and the
snapshot records are datatypes that hold `Person` values. The `Registry` is a
`class` with four `seq` fields. Its mutators are methods, each proved equal to
a function on the `State` value (`Schedule`, `Cancel`, `Register`,
`ScheduleDefaults`, `GenerateDefaults`). The queries are pure functions of the
lists.

Modules, in dependency order:

- `Persons` (persons.dfy): the records of AbstractPerson, Doctor and Patient.
  - `addAppointment` is a value update.
  - `deleteAppointment` is a compaction loop proved against `Without`.
  - `isAvailable` is a scan.
- `Slots` (slots.dfy): the working-day grid and the `%02d:%02d` formatting.
- `Queries` (queries.dfy): the lookups, `getByIndex`, `getAvailableTimes`, `getAvailableTimesForDoctor` and `getAvailableDoctors`.
- `Records` (records.dfy): `Appointment`, `HospitalVisitCard`, and the erase loop on the global list. It also holds the visit-card filter.
- `Operations` (operations.dfy): the registry state, booking and cancellation as functions, and the registry invariant `Valid`. `Valid` requires four things:
  - names are unique;
  - each entry names its holder;
  - no doctor is double-booked;
  - the global list, the doctors' lists and the patients' lists hold the same triples, counted.
- `Invariants` (invariants.dfy): which operations preserve `Valid`, booking then cancelling, a slot leaving and returning, and patient registration.
- `Seeding` (seeding.dfy): the initial lists and the demonstration seeding.
- `Hospital` (registry.dfy): the `Registry` class.

The failure paths are modelled as the code runs them. A name lookup that
throws `runtime_error` becomes `None`, or the outcome `DoctorNotFound` /
`PatientNotFound`.

- `scheduleAppointment` updates the doctor before it looks up the patient. A missing patient therefore leaves the doctor holding a booking that no other list has. `ScheduleMissingPatientLeavesOrphan` proves that this breaks the invariant.
- `cancelAppointment` filters the global list before either lookup.

Patient-side clashes are never checked. The seeding gives a patient two
bookings at the same time with two doctors. So the invariant says nothing about
patients' dateTimes.

## Model

| member | source | states |
|---|---|---|
| Persons.Without | AbstractPerson.h:71-82 | the entries left after deleting a triple: the length drops by the number of matches, and an entry remains iff it was present and differs from the triple |
| Persons.DeleteAppointment | AbstractPerson.h:71-82 | the single-pass remove_if/erase loop yields exactly the record whose list is `Without(list, triple)` |
| Persons.WithoutAppend | AbstractPerson.h:73-81 | deletion distributes over concatenation, so the survivors keep their relative order |
| Persons.WithoutNoMatch | AbstractPerson.h:71-82 | with no matching entry, deletion leaves the list unchanged |
| Persons.WithoutIdempotent | AbstractPerson.h:71-82 | deleting the same triple twice equals deleting it once |
| Persons.WithoutMultiset | AbstractPerson.h:71-82 | as multisets, deletion removes every occurrence of the triple and nothing else |
| Persons.AddThenDelete | AbstractPerson.h:60-82 | adding an absent triple and then deleting it restores the record |
| Persons.FreeInIff | Doctor.h:26-34 | isAvailable(t) is false iff some entry has dateTime exactly t; the names in the entry play no part |
| Persons.NewDoctorAvailable | Doctor.h:19 | a doctor built from a name alone has no bookings and is free at every dateTime |
| Persons.AvailableAfterAdd | AbstractPerson.h:60-63 | after addAppointment(t, …) the person is free at u iff they were free at u and u differs from t |
| Persons.AvailableAfterDelete | AbstractPerson.h:71-82 | after deleting a triple the person is free at u iff every booking at u was that triple; deleting the only booking at u frees u |
| Persons.WithoutKeepsDistinct | AbstractPerson.h:71-82 | deletion never makes two bookings share a dateTime |
| Persons.AddKeepsDistinct | AbstractPerson.h:60-63 | appending at a dateTime where the person is free keeps all dateTimes distinct |
| Slots.SlotHour | Registry.h:363 | the hour of the k-th slot tried lies in [WORK_START_HOUR, WORK_END_HOUR) |
| Slots.SlotMinute | Registry.h:365 | the minute of a slot is below 60 and a multiple of APPOINTMENT_DURATION |
| Slots.SlotOrder | Registry.h:363-365 | the loops try the slots in strictly ascending (hour, minute) order |
| Slots.SlotCoverage | Registry.h:363-365 | every working (hour, minute) pair on the 30-minute grid is tried |
| Slots.TwoDigits | Registry.h:369 | `%02d` of a value below 100 is two decimal digits |
| Slots.TwoDigitsRoundTrip | Registry.h:369 | reading the two zero-padded digits back gives the value |
| Slots.SlotTime | Registry.h:369-371 | `HH:MM` is five characters with the colon in the middle |
| Slots.SlotTimeRoundTrip | Registry.h:369-371 | parsing a slot's `HH:MM` gives back its hour and minute |
| Slots.SlotTimeInjective | Registry.h:369-371 | different slots give different `HH:MM` strings |
| Slots.SlotKeyInjective | Registry.h:373 | on one date, different slots give different `date + " " + HH:MM` keys |
| Queries.FindFirst | Registry.h:68-96 | the lookup returns the first index with exactly that name, and fails iff no record has the name |
| Queries.PatientExistsIff | Registry.h:50-60 | patientExists is true iff some patient has exactly that name, iff the lookup succeeds |
| Queries.GetByIndex | Registry.h:399-407 | getByIndex returns items[index] iff 0 <= index < size, and fails with out_of_range otherwise |
| Queries.FreeIndices | Registry.h:363-378 | the indices where a doctor is free, strictly ascending, each below the bound |
| Queries.DoctorSlotsUpTo | Registry.h:363-378 | one doctor's pairs over the first n keys: at most n of them, each carrying that doctor's name and placed at one of those keys where the doctor is free |
| Queries.DoctorSlotsOncePerKey | Registry.h:363-378 | with distinct keys, no two of a doctor's pairs share a dateTime: at most one pair per key |
| Queries.DoctorSlotsInOrder | Registry.h:363-378 | the p-th pair listed for a doctor is at the p-th free key, so keys come in the order tried |
| Queries.DoctorSlotsFree | Registry.h:375-378 | a key is listed for a doctor iff the doctor is free there |
| Queries.DoctorSlotsSpec | Registry.h:361-381 | a doctor's pairs for a date: at most 20, all naming the doctor, exactly the free slots of the grid |
| Queries.DayKeyRoundTrip | Registry.h:363-373 | the k-th key of a date is the date, a space and HH:MM, and HH:MM reads back as slot k's hour and minute |
| Queries.DayKeysDistinct | Registry.h:363-373 | the keys of one date are pairwise distinct |
| Queries.TimesOverBound | Registry.h:357-384 | the doctor-major list has at most |keys|·|doctors| pairs |
| Queries.AvailableTimesBound | Registry.h:357-384 | getAvailableTimes has at most 20·|doctors| pairs |
| Queries.TimesOverMembership | Registry.h:361-381 | a pair is listed iff one of the doctors lists it (doctor-major concatenation) |
| Queries.AvailableTimesMembership | Registry.h:357-384 | getAvailableTimes is the union, doctor by doctor, of each doctor's free slots |
| Queries.AvailableTimesSlot | Registry.h:357-384 | (date + " " + HH:MM, name) is listed iff some doctor of that name is free at that dateTime |
| Queries.OnlyDoctor | Registry.h:277-283 | the name filter never lengthens the list |
| Queries.OnlyDoctorMembership | Registry.h:277-283 | the filter keeps exactly the pairs whose doctor name matches |
| Queries.OnlyDoctorAppend | Registry.h:277-283 | the filter distributes over concatenation, so it preserves order |
| Queries.OnlyDoctorAll | Registry.h:277-283 | a list that names only that doctor is kept whole |
| Queries.OnlyDoctorNone | Registry.h:277-283 | a list that never names that doctor filters to nothing |
| Queries.ForDoctorMembership | Registry.h:271-286 | a pair is in the per-doctor query iff it is in getAvailableTimes and names that doctor |
| Queries.OnlyDoctorOver | Registry.h:271-286 | with a unique name, filtering the doctor-major list gives exactly that doctor's pairs |
| Queries.ForDoctorIsDoctorSlots | Registry.h:271-286 | with a unique name, getAvailableTimesForDoctor equals that doctor's free slots in slot order |
| Queries.DoctorsNamedIn | Registry.h:337-343 | the doctor walk returns exactly the names of doctors that are in the set, and no more names than there are doctors |
| Queries.DoctorsNamedInAppend | Registry.h:337-343 | the walk distributes over concatenation of the doctor list, so the names come out in the list's order |
| Queries.NamesInAvailable | Registry.h:330-335 | a name is in the collected set iff some doctor of that name has a free slot on the date |
| Queries.DoctorsNamedInWhere | Registry.h:337-343 | when set membership agrees with having a free slot, the walk equals the list-order reference `FreeDoctorNames` |
| Queries.AvailableDoctorsInOrder | Registry.h:324-346 | with distinct doctor names, getAvailableDoctors is exactly the names of the doctors with a free slot on the date, in the doctor list's order |
| Queries.AvailableDoctorsMembership | Registry.h:324-346 | a name is returned iff some doctor of that name has at least one free slot on the date |
| Records.Triples | Appointment.h:22-50 | the triple of each appointment, built from its getters, position by position |
| Records.KeepUnmatched | Registry.h:176-181 | the global list after the erase: its triples are `Without` the cancelled one, and an appointment survives iff it does not match all three fields |
| Records.EraseMatching | Registry.h:176-181 | the remove_if/erase loop over the global list yields exactly `KeepUnmatched` |
| Records.CardsFor | Registry.h:202-215 | getVisitCardsForPatient returns exactly the stored cards whose patient name matches |
| Records.CardsForAppend | Registry.h:202-215 | the card filter distributes over concatenation, so insertion order is kept |
| Operations.ScheduleBooks | Registry.h:296-311 | a free doctor and a registered patient: the same triple is appended to the doctor and to the first patient of that name, and the new global appointment is the snapshot of the updated doctor and patient records; nothing else changes |
| Operations.ScheduleRefuses | Registry.h:298-316 | the outcome is "unavailable" iff the doctor is busy at that dateTime, and then nothing changes |
| Operations.ScheduleNeverDoubleBooks | Registry.h:296-317 | whatever the outcome, booking never gives a doctor two entries at one dateTime |
| Operations.CancelRemoves | Registry.h:174-192 | with both names registered, every matching triple leaves the global, doctor and patient lists, the rest keep their order, and nothing else changes |
| Operations.ValidNoDoubleBookedAppointments | Registry.h:296-317 | under the invariant, two global appointments with the same doctor are at different dateTimes |
| Operations.TripleOnce | Registry.h:296-317 | under the invariant the global list never holds the same triple twice |
| Operations.PooledOnce | Registry.h:296-317 | under the doctor-side invariant, each pooled doctor entry occurs exactly once |
| Invariants.SchedulePreservesValid | Registry.h:296-317 | booking keeps the invariant unless the patient lookup fails |
| Invariants.ScheduleMissingPatientLeavesOrphan | Registry.h:301-303 | a free doctor and an unknown patient: the doctor keeps the new booking, and the lists no longer agree |
| Invariants.CancelPreservesValid | Registry.h:174-192 | cancellation keeps the invariant on every path, including failed lookups |
| Invariants.CancelMissIsNoOp | Registry.h:174-192 | cancelling a triple that was never booked changes nothing |
| Invariants.BookThenCancel | Registry.h:174-192 | cancelling a booking that just succeeded restores the registry exactly |
| Invariants.SlotLeavesAndReturns | Registry.h:271-317 | a free slot is in the doctor's free list; it is gone after booking it and back after cancelling |
| Invariants.SlotInForDoctor | Registry.h:271-286 | with a unique doctor name, a slot is in the per-doctor list iff that doctor is free there |
| Invariants.RegisterSpec | Registry.h:243-259 | addPatient returns the existing patient of that name unchanged, or appends exactly one new patient with that name and date of birth and no bookings |
| Invariants.RegisterFirstWins | Registry.h:243-259 | registering a name twice is the same as once; the first date of birth is kept |
| Invariants.RegisterPreservesValid | Registry.h:243-259 | registration keeps the invariant |
| Seeding.InitialValid | Registry.h:16-36 | the initial eight doctors and eight patients have distinct names and no bookings |
| Seeding.DefaultTimeIsSlot | Registry.h:126-132 | every table time, after its date, is a key of the working-day grid |
| Seeding.DefaultTimesDistinct | Registry.h:126-132 | the eight table times are pairwise distinct |
| Seeding.Prev | Registry.h:140 | stepping back stays within the table and is undone by stepping forward modulo 8 |
| Seeding.SeedRowsSteps | Registry.h:128-142 | the loops append (dc−s)·(pc−s) appointments behind the old ones, and the time index ends that many steps back modulo 8 |
| Seeding.SeedRowsFrame | Registry.h:128-142 | doctors outside [s, dc) are untouched |
| Seeding.SeedRowsMirror | Registry.h:133-138 | every seeded triple is mirrored into the doctor's and the patient's lists, so the lists keep agreeing |
| Seeding.SeedRowNoDoubleBooking | Registry.h:130-140 | up to eight consecutive bookings of one doctor get pairwise distinct times, so the doctor is not double-booked |
| Seeding.SeedRowsValid | Registry.h:124-143 | seeding blocks of at most eight patients for doctors free on the table keeps the invariant |
| Seeding.GenerateDefaultsValid | Registry.h:152-165 | seeding a new registry books 32 appointments and keeps the invariant |
| Hospital.Registry.constructor | Registry.h:14-36 | a new registry holds the initial lists, nothing booked, and satisfies the invariant |
| Hospital.Registry.AddPatient | Registry.h:243-259 | the patient list and the returned patient are those of `Register`; the other lists are unchanged; the invariant is kept |
| Hospital.Registry.ScheduleAppointment | Registry.h:296-317 | the new lists and the outcome are those of `Schedule`; the invariant is kept unless the patient lookup fails |
| Hospital.Registry.CancelAppointment | Registry.h:174-192 | the new lists and the outcome are those of `Cancel`; the invariant is kept |
| Hospital.Registry.AddHospitalVisitCard | Registry.h:228-234 | exactly one card is appended and returned; it becomes the newest card of that patient, nothing else changes, and the invariant is kept |
| Hospital.Registry.ScheduleDefaultAppointmentsForDate | Registry.h:124-143 | the nested loops leave the lists exactly as `ScheduleDefaults` says |
| Hospital.Registry.GenerateDefaultAppointments | Registry.h:152-165 | the lists are those of `GenerateDefaults`; on a new registry the invariant holds and there are 32 appointments |

## Left out

- Console I/O is not modelled. This covers the `interface.printMsg` calls, `showAppointments`, `printDetails`, `showVisitCard`, Menu.h and InputOutput.h. The messages have no effect on the lists.
- The clock is not modelled. `getTodayDate` and `getTomorrowDate` in helpers.h become the `today` and `tomorrow` parameters of `GenerateDefaultAppointments`. `isValidDate` is not part of this model.
- `findDoctorByName` and `findPatientByName` return references in C++. Here they return the index of the first match, and the registry updates that element of its list. A thrown `runtime_error` becomes `None`, or the outcome `DoctorNotFound` / `PatientNotFound`. Nothing after the throw runs.
- `scheduleAppointment` takes references. The doctor is addressed by its index in the doctor list, which is where callers take it from. The patient is addressed by name, which is how the code finds the registered record.
- Person records are updated as values and not in place, because every list holds them by value. Aliasing between records cannot arise, so none is modelled.
- The getters `getName` and `getAppointments` of persons, `getDoctors`, `getPatients` and `getAppointments` of the registry, and the getters of `Appointment` and `HospitalVisitCard`, are plain field reads of the datatypes. They have no members of their own.
- `snprintf` with `%02d:%02d` is modelled as the `TwoDigits` formatting of the hour and the minute.
- Hospital.Registry.ScheduleDefaultAppointmentsForDate: the model requires the time index to be below 8 and the counts to fit the lists. Outside that range the C++ indexes out of bounds. A negative start index is not modelled, because the indices are natural numbers.
- Seeding.SeedRowsValid: proved only for doctors that are free at every table time and for blocks of at most eight patients. With more than eight patients in a row, the index wraps round and a doctor could be booked twice at one time.
- Queries.AvailableDoctorsInOrder: the list-order statement assumes distinct doctor names, as the registry keeps them. With two doctors of one name, the walk lists that name at both positions once either is free; `AvailableDoctorsMembership` and `DoctorsNamedInAppend` still hold there.
- Patient-side clashes are not checked by the code, so the invariant does not forbid them.
- `IRegistry.h`, `Patient.h` beyond its constructor, and `main.cpp` are not part of this model.
