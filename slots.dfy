/**
 * The working-day slot grid of getAvailableTimes: hours WORK_START_HOUR up
 * to (not including) WORK_END_HOUR, minutes stepping by
 * APPOINTMENT_DURATION from 0 below 60, each written as a zero-padded
 * "HH:MM" (the "%02d:%02d" format) and appended to the date after one space.
 */
module Slots {

  const WorkStartHour: nat := 8
  const WorkEndHour: nat := 18
  const AppointmentDuration: nat := 30

  /** The minute loop runs 0, 30: two slots per hour. */
  const SlotsPerHour: nat := 60 / AppointmentDuration

  /** Twenty slots per day and doctor, indexed 0 .. 19 in the order they are tried. */
  const SlotsPerDay: nat := (WorkEndHour - WorkStartHour) * SlotsPerHour

  /** Hour of the k-th slot tried (outer loop). */
  function SlotHour(k: nat): (h: nat)
    requires k < SlotsPerDay
    ensures WorkStartHour <= h < WorkEndHour
  {
    WorkStartHour + k / SlotsPerHour
  }

  /** Minute of the k-th slot tried (inner loop). */
  function SlotMinute(k: nat): (m: nat)
    ensures m < 60 && m % AppointmentDuration == 0
  {
    (k % SlotsPerHour) * AppointmentDuration
  }

  /** The loops try the slots in ascending (hour, minute) order. */
  lemma SlotOrder(k: nat, k': nat)
    requires k < k' < SlotsPerDay
    ensures SlotHour(k) < SlotHour(k') || (SlotHour(k) == SlotHour(k') && SlotMinute(k) < SlotMinute(k'))
  {
  }

  /** Every working (hour, minute) pair of the grid is tried, at index k. */
  lemma SlotCoverage(h: nat, m: nat) returns (k: nat)
    requires WorkStartHour <= h < WorkEndHour && m < 60 && m % AppointmentDuration == 0
    ensures k < SlotsPerDay && SlotHour(k) == h && SlotMinute(k) == m
  {
    k := (h - WorkStartHour) * SlotsPerHour + m / AppointmentDuration;
  }

  function Digit(d: nat): char
    requires d < 10
  {
    ('0' as int + d) as char
  }

  function DigitValue(c: char): int
  {
    c as int - '0' as int
  }

  /** "%02d" for a value below 100. */
  function TwoDigits(n: nat): (s: string)
    requires n < 100
    ensures |s| == 2 && '0' <= s[0] <= '9' && '0' <= s[1] <= '9'
  {
    [Digit(n / 10), Digit(n % 10)]
  }

  function ParseTwoDigits(s: string): int
    requires |s| == 2
  {
    10 * DigitValue(s[0]) + DigitValue(s[1])
  }

  /** The two-digit form can be read back: zero padding loses nothing. */
  lemma TwoDigitsRoundTrip(n: nat)
    requires n < 100
    ensures ParseTwoDigits(TwoDigits(n)) == n
  {
    var s := TwoDigits(n);
    assert DigitValue(s[0]) == n / 10;
    assert DigitValue(s[1]) == n % 10;
  }

  /** "HH:MM" of the k-th slot. */
  function SlotTime(k: nat): (s: string)
    requires k < SlotsPerDay
    ensures |s| == 5 && s[2] == ':'
  {
    TwoDigits(SlotHour(k)) + ":" + TwoDigits(SlotMinute(k))
  }

  /** SlotTime(k) is the five characters of its zero-padded hour and minute around the colon. */
  lemma SlotTimeChars(k: nat, s: string)
    requires k < SlotsPerDay && |s| == 5 && s[2] == ':'
    requires s[0] == Digit(SlotHour(k) / 10) && s[1] == Digit(SlotHour(k) % 10)
    requires s[3] == Digit(SlotMinute(k) / 10) && s[4] == Digit(SlotMinute(k) % 10)
    ensures SlotTime(k) == s
  {
  }

  function ParseSlotTime(s: string): (int, int)
    requires |s| == 5
  {
    (ParseTwoDigits(s[..2]), ParseTwoDigits(s[3..]))
  }

  /** Reading an "HH:MM" slot back gives its hour and minute. */
  lemma SlotTimeRoundTrip(k: nat)
    requires k < SlotsPerDay
    ensures ParseSlotTime(SlotTime(k)) == (SlotHour(k), SlotMinute(k))
  {
    var s := SlotTime(k);
    assert s[..2] == TwoDigits(SlotHour(k));
    assert s[3..] == TwoDigits(SlotMinute(k));
    TwoDigitsRoundTrip(SlotHour(k));
    TwoDigitsRoundTrip(SlotMinute(k));
  }

  /** Different slots have different "HH:MM" strings. */
  lemma SlotTimeInjective(k: nat, k': nat)
    requires k < SlotsPerDay && k' < SlotsPerDay && k != k'
    ensures SlotTime(k) != SlotTime(k')
  {
    SlotTimeRoundTrip(k);
    SlotTimeRoundTrip(k');
  }

  /** date + " " + time: the dateTime key tried for slot k. */
  function SlotKey(date: string, k: nat): string
    requires k < SlotsPerDay
  {
    date + " " + SlotTime(k)
  }

  /** On one date, different slots have different keys. */
  lemma SlotKeyInjective(date: string, k: nat, k': nat)
    requires k < SlotsPerDay && k' < SlotsPerDay && k != k'
    ensures SlotKey(date, k) != SlotKey(date, k')
  {
    SlotTimeInjective(k, k');
    var a, b := SlotKey(date, k), SlotKey(date, k');
    assert a[|date| + 1..] == SlotTime(k);
    assert b[|date| + 1..] == SlotTime(k');
  }
}
