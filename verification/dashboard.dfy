/**
 * The employee dashboard: check-in and check-out, the month summary card
 * and the greeting.
 *
 * The clock, the GPS fix, the device string and the displayed time are
 * inputs. The great-circle distance from the fix to the office is an
 * input as well (`measured`): the model does not compute it.
 */
module Dashboard {
  import opened Wrappers
  import opened Types
  import opened Text
  import opened Store
  import opened Tally

  // ---------------------------------------------------------------- clock

  /**
   * `t.split(':').map(Number)` destructured into hour and minute. A missing
   * minute is `undefined`, which compares like NaN.
   */
  function ParseClock(t: string): (Number, Number) {
    var parts := Split(t, ':');
    (ToNumber(parts[0]), if |parts| > 1 then ToNumber(parts[1]) else NaN)
  }

  /** A time stored as `HH:MM` parses back to its hour and minute. */
  lemma ParseClockOfPadded(h: nat, m: nat)
    ensures ParseClock(PadStart2(h) + ":" + PadStart2(m)) == (Finite(h as real), Finite(m as real))
  {
    var parts := [PadStart2(h), PadStart2(m)];
    assert ':' !in PadStart2(h) && ':' !in PadStart2(m);
    assert Join(parts[1..], ':') == PadStart2(m);
    assert Join(parts, ':') == PadStart2(h) + ":" + PadStart2(m);
    SplitJoin(parts, ':');
    ToNumberPadStart2(h);
    ToNumberPadStart2(m);
  }

  /** The default start time reads as 08:00. */
  lemma ParseClockDefaultStart()
    ensures ParseClock("08:00") == (Finite(8.0), Finite(0.0))
  {
    assert PadStart2(8) == "08";
    assert PadStart2(0) == "00";
    assert PadStart2(8) + ":" + PadStart2(0) == "08:00";
    ParseClockOfPadded(8, 0);
  }

  /** The default end time reads as 17:30. */
  lemma ParseClockDefaultEnd()
    ensures ParseClock("17:30") == (Finite(17.0), Finite(30.0))
  {
    assert NatToString(17) == NatToString(1) + [DigitChar(7)];
    assert NatToString(30) == NatToString(3) + [DigitChar(0)];
    assert PadStart2(17) + ":" + PadStart2(30) == "17:30";
    ParseClockOfPadded(17, 30);
  }

  /** `h > startH || (h === startH && m > startM)`. */
  predicate IsLate(hour: int, minute: int, start: (Number, Number)) {
    start.0.Below(hour as real) || (start.0.Is(hour as real) && start.1.Below(minute as real))
  }

  /** `h < endH || (h === endH && m < endM)`. */
  predicate IsEarly(hour: int, minute: int, end: (Number, Number)) {
    end.0.Above(hour as real) || (end.0.Is(hour as real) && end.1.Above(minute as real))
  }

  /** Minutes since midnight. */
  function MinuteOfDay(hour: int, minute: int): int {
    hour * 60 + minute
  }

  /**
   * With a readable start time, a check-in is late exactly when it comes
   * after the start minute; checking in at the start minute is on time.
   */
  lemma LateIffAfterStart(hour: int, minute: int, sh: int, sm: int)
    requires 0 <= minute < 60 && 0 <= sm < 60
    ensures IsLate(hour, minute, (Finite(sh as real), Finite(sm as real))) <==>
              MinuteOfDay(hour, minute) > MinuteOfDay(sh, sm)
  {
  }

  /** With a readable end time, a check-out is early exactly when it comes before the end minute. */
  lemma EarlyIffBeforeEnd(hour: int, minute: int, eh: int, em: int)
    requires 0 <= minute < 60 && 0 <= em < 60
    ensures IsEarly(hour, minute, (Finite(eh as real), Finite(em as real))) <==>
              MinuteOfDay(hour, minute) < MinuteOfDay(eh, em)
  {
  }

  /** A start or end hour that does not parse marks nobody late and nobody early. */
  lemma UnreadableHour(hour: int, minute: int, other: Number)
    ensures !IsLate(hour, minute, (NaN, other))
    ensures !IsEarly(hour, minute, (NaN, other))
  {
  }

  // ---------------------------------------------------------------- action

  datatype Action = CheckIn | CheckOut

  /** The local time at the moment of the action. */
  datatype Now = Now(month: int, day: nat, hour: int, minute: int)

  datatype Fix = Fix(latitude: real, longitude: real)

  datatype ActionError = SettingsMissing | LocationUnavailable | NoCheckIn

  /** What a successful action saves, and whether it warned about the distance. */
  datatype Outcome = Outcome(write: Write, record: Record, outOfRange: bool)

  /** The distance used: the measured one when both office coordinates are set, else 0. */
  function OfficeDistance(s: SystemSettings, measured: real): (d: real)
    ensures !(s.officeLat.Truthy() && s.officeLng.Truthy()) ==> d == 0.0
    ensures s.officeLat.Truthy() && s.officeLng.Truthy() ==> d == measured
  {
    if s.officeLat.Truthy() && s.officeLng.Truthy() then measured else 0.0
  }

  /** The warning condition `distance > allowedRadius`. */
  predicate OutOfRange(s: SystemSettings, measured: real) {
    s.officeLat.Truthy() && s.officeLng.Truthy() && s.allowedRadius.Below(measured)
  }

  /** The key an action on `now` is saved under. */
  function TodayKey(userId: string, now: Now): Key {
    Key(userId, now.month, PadStart2(now.day))
  }

  /** The columns a check-in record defines besides its status and time. */
  function CheckInFields(): set<Field> {
    {LatitudeField, LongitudeField, DeviceInfoField, DistanceField}
  }

  /**
   * The record a check-in creates: late exactly when the clock is past the
   * configured start, with the position, the device and the distance to the
   * office rounded to whole metres (0 when no office is configured), and no
   * check-out time or overtime.
   */
  function CheckInRecord(s: SystemSettings, fix: Fix, measured: real, now: Now, timestamp: string, device: string)
    : (r: Record)
    ensures r.status == Late <==> IsLate(now.hour, now.minute, ParseClock(s.workStartTime))
    ensures r.status == Late || r.status == Present
    ensures r.checkOutTime.None? && r.timestamp == timestamp && r.deviceInfo == Some(device)
    ensures r.latitude == Some(fix.latitude) && r.longitude == Some(fix.longitude)
    ensures !(s.officeLat.Truthy() && s.officeLng.Truthy()) ==> r.distance == Some(0)
    ensures s.officeLat.Truthy() && s.officeLng.Truthy() ==> r.distance == Some(Round(measured))
    ensures r.overtimeHours.None? && r.overtimeMultiplier.None?
  {
    var d := OfficeDistance(s, measured);
    var late := IsLate(now.hour, now.minute, ParseClock(s.workStartTime));
    assert d == 0.0 ==> Round(d) == 0;
    Record(if late then Late else Present,
           timestamp, None, None, None, Some(fix.latitude), Some(fix.longitude), Some(device), Some(Round(d)))
  }

  /** The record a check-out saves: the day's record with the check-out time and possibly early leave. */
  function CheckOutRecord(s: SystemSettings, today: Record, now: Now, timestamp: string): (r: Record)
    ensures r == today.(checkOutTime := Some(timestamp), status := r.status)
    ensures r.status == if IsEarly(now.hour, now.minute, ParseClock(s.workEndTime)) then EarlyLeave else today.status
  {
    today.(checkOutTime := Some(timestamp),
           status := if IsEarly(now.hour, now.minute, ParseClock(s.workEndTime)) then EarlyLeave else today.status)
  }

  /**
   * `handleAction`. Missing settings fail first, before the location is
   * asked for; then a failed location; a check-out without a record for
   * today fails next. The distance warning never stops the save. A
   * check-in sends only the columns its record defines; a check-out spreads
   * the day's record as read from the store, which has every column, so it
   * sends them all.
   */
  function HandleAction(action: Action, userId: string, settings: Option<SystemSettings>, fix: Option<Fix>,
                        measured: real, now: Now, timestamp: string, device: string, today: Option<Record>)
    : (r: Result<Outcome, ActionError>)
    ensures settings.None? ==> r == Failure(SettingsMissing)
    ensures settings.Some? && fix.None? ==> r == Failure(LocationUnavailable)
    ensures r.Success? <==> settings.Some? && fix.Some? && (action.CheckIn? || today.Some?)
    ensures action.CheckOut? && today.None? ==> r.Failure?
    ensures r.Success? ==>
              r.value.write.Upsert? && r.value.write.payload.key == TodayKey(userId, now) &&
              r.value.write.payload.record == r.value.record
    ensures r.Success? && action.CheckIn? ==> r.value.write.payload.sent == CheckInFields()
    ensures r.Success? && action.CheckOut? ==> r.value.write.payload.sent == AllFields()
    ensures r.Success? ==> (r.value.outOfRange <==> OutOfRange(settings.value, measured))
    ensures r.Success? && action.CheckIn? ==>
              r.value.record.status in {Late, Present} &&
              r.value.record.checkOutTime.None? && r.value.record.timestamp == timestamp &&
              r.value.record.latitude == Some(fix.value.latitude) &&
              r.value.record.longitude == Some(fix.value.longitude) &&
              r.value.record.deviceInfo == Some(device)
    ensures r.Success? && action.CheckIn? ==>
              (r.value.record.status == Late <==> IsLate(now.hour, now.minute, ParseClock(settings.value.workStartTime)))
    ensures r.Success? && action.CheckIn? &&
            !(settings.value.officeLat.Truthy() && settings.value.officeLng.Truthy()) ==>
              r.value.record.distance == Some(0)
    ensures r.Success? && action.CheckIn? &&
            settings.value.officeLat.Truthy() && settings.value.officeLng.Truthy() ==>
              r.value.record.distance == Some(Round(measured))
    ensures r.Success? && action.CheckIn? ==>
              r.value.record.overtimeHours.None? && r.value.record.overtimeMultiplier.None?
    ensures r.Success? && action.CheckOut? ==>
              r.value.record == today.value.(checkOutTime := Some(timestamp), status := r.value.record.status)
    ensures r.Success? && action.CheckOut? ==>
              r.value.record.status == (if IsEarly(now.hour, now.minute, ParseClock(settings.value.workEndTime))
                                        then EarlyLeave else today.value.status)
  {
    if settings.None? then Failure(SettingsMissing)
    else if fix.None? then Failure(LocationUnavailable)
    else
      var s := settings.value;
      var warn := OutOfRange(s, measured);
      match action
      case CheckIn =>
        var record := CheckInRecord(s, fix.value, measured, now, timestamp, device);
        Success(Outcome(SaveAttendance(userId, now.month, PadStart2(now.day), Some(record), CheckInFields()), record, warn))
      case CheckOut =>
        if today.None? then Failure(NoCheckIn)
        else
          var record := CheckOutRecord(s, today.value, now, timestamp);
          Success(Outcome(SaveAttendance(userId, now.month, PadStart2(now.day), Some(record), AllFields()), record, warn))
  }

  /** A late check-in stays late or becomes early leave at check-out; it never turns into present. */
  lemma CheckOutNeverClearsLate(userId: string, settings: Option<SystemSettings>, fix: Option<Fix>, measured: real,
                                now: Now, timestamp: string, device: string, today: Option<Record>)
    requires today.Some? && today.value.status == Late
    ensures var r := HandleAction(CheckOut, userId, settings, fix, measured, now, timestamp, device, today);
            r.Success? ==> r.value.record.status in {Late, EarlyLeave}
  {
  }

  /** The record of today, as `fetchData` picks it out of the attendance map. */
  function TodayRecord(m: AttendanceMap, userId: string, now: Now): (r: Option<Record>)
    ensures r == Lookup(m, TodayKey(userId, now))
  {
    var md := MonthOf(m, userId, now.month);
    var day := PadStart2(now.day);
    if day in md then Some(md[day]) else None
  }

  /**
   * What a check-in payload stores over the day's old record `prior`: the
   * check-in's own columns, and the old check-out time and overtime.
   */
  lemma CheckInStored(prior: Option<Record>, p: Payload)
    requires p.sent == CheckInFields()
    requires p.record.checkOutTime.None? && p.record.overtimeHours.None? && p.record.overtimeMultiplier.None?
    ensures var r := Stored(prior, p);
            r.status == p.record.status && r.timestamp == p.record.timestamp &&
            r.latitude == p.record.latitude && r.longitude == p.record.longitude &&
            r.deviceInfo == p.record.deviceInfo && r.distance == p.record.distance &&
            (prior.None? ==> r == p.record) &&
            (prior.Some? ==> r.checkOutTime == prior.value.checkOutTime &&
                             r.overtimeHours == prior.value.overtimeHours &&
                             r.overtimeMultiplier == prior.value.overtimeMultiplier)
  {
    var r := Stored(prior, p);
    assert Get(r, LatitudeField) == Get(p.record, LatitudeField);
    assert Get(r, LongitudeField) == Get(p.record, LongitudeField);
    assert Get(r, DeviceInfoField) == Get(p.record, DeviceInfoField);
    assert Get(r, DistanceField) == Get(p.record, DistanceField);
    if prior.None? {
      RecordsEqual(r, p.record);
    } else {
      assert Get(r, CheckOutField) == Get(prior.value, CheckOutField);
      assert Get(r, OvertimeHoursField) == Get(prior.value, OvertimeHoursField);
      assert Get(r, OvertimeMultiplierField) == Get(prior.value, OvertimeMultiplierField);
    }
  }

  /**
   * A saved check-in read back: today's record has the check-in's status,
   * time, position, device and distance, while its check-out time and
   * overtime are whatever the day held before (nothing, for a new day).
   */
  lemma CheckInThenRead(t: seq<Row>, userId: string, s: SystemSettings, fix: Fix, measured: real,
                        now: Now, timestamp: string, device: string)
    ensures var r1 := HandleAction(CheckIn, userId, Some(s), Some(fix), measured, now, timestamp, device, None);
            var before := Lookup(FoldRows(t), TodayKey(userId, now));
            r1.Success? &&
            var today := TodayRecord(FoldRows(Apply(t, r1.value.write)), userId, now);
            today.Some? &&
            today.value.status == r1.value.record.status && today.value.timestamp == timestamp &&
            today.value.latitude == Some(fix.latitude) && today.value.longitude == Some(fix.longitude) &&
            today.value.deviceInfo == Some(device) && today.value.distance == r1.value.record.distance &&
            (before.None? ==> today == Some(r1.value.record)) &&
            (before.Some? ==> today.value.checkOutTime == before.value.checkOutTime &&
                              today.value.overtimeHours == before.value.overtimeHours &&
                              today.value.overtimeMultiplier == before.value.overtimeMultiplier)
  {
    var r1 := HandleAction(CheckIn, userId, Some(s), Some(fix), measured, now, timestamp, device, None);
    var k := TodayKey(userId, now);
    ApplyLookup(t, r1.value.write, k);
    CheckInStored(Lookup(FoldRows(t), k), r1.value.write.payload);
  }

  /**
   * Check-in then check-out on the same day: the check-out finds the
   * re-read check-in and saves it with the check-out time added, keeping
   * the check-in time, position, device and distance, and the overtime the
   * day held before the check-in (none for a new day).
   */
  lemma CheckInThenCheckOut(t: seq<Row>, userId: string, s: SystemSettings, fix: Fix, measured: real,
                            now: Now, later: Now, timestamp: string, outTime: string, device: string)
    requires later.month == now.month && later.day == now.day
    ensures var r1 := HandleAction(CheckIn, userId, Some(s), Some(fix), measured, now, timestamp, device, None);
            var before := Lookup(FoldRows(t), TodayKey(userId, now));
            r1.Success? &&
            var today := TodayRecord(FoldRows(Apply(t, r1.value.write)), userId, later);
            var r2 := HandleAction(CheckOut, userId, Some(s), Some(fix), measured, later, outTime, device, today);
            r2.Success? &&
            r2.value.record.checkOutTime == Some(outTime) &&
            r2.value.record.timestamp == timestamp &&
            r2.value.record.latitude == Some(fix.latitude) && r2.value.record.longitude == Some(fix.longitude) &&
            r2.value.record.deviceInfo == Some(device) &&
            r2.value.record.distance == r1.value.record.distance &&
            r2.value.record.overtimeHours == (if before.Some? then before.value.overtimeHours else None) &&
            r2.value.record.overtimeMultiplier == (if before.Some? then before.value.overtimeMultiplier else None)
  {
    assert TodayKey(userId, later) == TodayKey(userId, now);
    CheckInThenRead(t, userId, s, fix, measured, now, timestamp, device);
  }

  /** A saved check-out reads back as exactly the record it saved, whatever the day held before. */
  lemma CheckOutThenRead(t: seq<Row>, userId: string, s: SystemSettings, fix: Fix, measured: real,
                         now: Now, timestamp: string, device: string, today: Record)
    ensures var r := HandleAction(CheckOut, userId, Some(s), Some(fix), measured, now, timestamp, device, Some(today));
            r.Success? && TodayRecord(FoldRows(Apply(t, r.value.write)), userId, now) == Some(r.value.record)
  {
    var r := HandleAction(CheckOut, userId, Some(s), Some(fix), measured, now, timestamp, device, Some(today));
    SaveWholeThenRead(t, userId, now.month, PadStart2(now.day), r.value.record);
  }

  // ---------------------------------------------------------------- month card

  /** The dashboard counts half days as present. */
  predicate CardPresent(r: Record) {
    r.status == Present || r.status == Halfday
  }

  predicate CardLate(r: Record) {
    r.status == Late
  }

  predicate CardAbsent(r: Record) {
    r.status == Absent
  }

  predicate CardNone(r: Record) {
    r.status == Leave || r.status == EarlyLeave
  }

  datatype MonthStats = MonthStats(present: nat, late: nat, absent: nat)

  /** The `forEach` over the month's records, counting the three buckets. */
  method CountMonth(recs: seq<Record>) returns (st: MonthStats)
    ensures st.present == Count(recs, CardPresent)
    ensures st.late == Count(recs, CardLate)
    ensures st.absent == Count(recs, CardAbsent)
  {
    var p, l, a := 0, 0, 0;
    var i := 0;
    while i < |recs|
      invariant 0 <= i <= |recs|
      invariant p == Count(recs[..i], CardPresent)
      invariant l == Count(recs[..i], CardLate)
      invariant a == Count(recs[..i], CardAbsent)
    {
      var rec := recs[i];
      assert recs[..i + 1] == recs[..i] + [rec];
      CountAppend(recs[..i], [rec], CardPresent);
      CountAppend(recs[..i], [rec], CardLate);
      CountAppend(recs[..i], [rec], CardAbsent);
      if rec.status == Present || rec.status == Halfday {
        p := p + 1;
      }
      if rec.status == Late {
        l := l + 1;
      }
      if rec.status == Absent {
        a := a + 1;
      }
      i := i + 1;
    }
    assert recs[..i] == recs;
    st := MonthStats(p, l, a);
  }

  /** Every record falls in exactly one of the three buckets or in none (leave, early leave). */
  lemma {:induction false} CardPartition(recs: seq<Record>)
    ensures Count(recs, CardPresent) + Count(recs, CardLate) + Count(recs, CardAbsent) + Count(recs, CardNone) == |recs|
  {
    if recs != [] {
      CardPartition(recs[1..]);
    }
  }

  /**
   * `fetchData`'s month card for the user: the counts over the month bucket,
   * in the order `keys` enumerates it; no bucket gives zeros.
   */
  method MonthCard(m: AttendanceMap, userId: string, month: int, keys: seq<string>) returns (st: MonthStats)
    requires Enumerates(MonthOf(m, userId, month), keys)
    ensures st.present == Count(ValuesOf(MonthOf(m, userId, month), keys), CardPresent)
    ensures st.late == Count(ValuesOf(MonthOf(m, userId, month), keys), CardLate)
    ensures st.absent == Count(ValuesOf(MonthOf(m, userId, month), keys), CardAbsent)
    ensures st.present + st.late + st.absent <= |keys|
  {
    var recs := ValuesOf(MonthOf(m, userId, month), keys);
    st := CountMonth(recs);
    CardPartition(recs);
  }

  /** The card does not depend on the order the month's records are visited in. */
  lemma MonthCardOrderFree(md: MonthData, k1: seq<string>, k2: seq<string>)
    requires Enumerates(md, k1) && Enumerates(md, k2)
    ensures Count(ValuesOf(md, k1), CardPresent) == Count(ValuesOf(md, k2), CardPresent)
    ensures Count(ValuesOf(md, k1), CardLate) == Count(ValuesOf(md, k2), CardLate)
    ensures Count(ValuesOf(md, k1), CardAbsent) == Count(ValuesOf(md, k2), CardAbsent)
  {
    CountOverValues(md, k1, k2, CardPresent);
    CountOverValues(md, k1, k2, CardLate);
    CountOverValues(md, k1, k2, CardAbsent);
  }

  // ---------------------------------------------------------------- greeting

  datatype Greeting = Morning | Afternoon | Evening

  function GreetingAt(hour: int): (g: Greeting)
    ensures g == Morning <==> hour < 12
    ensures g == Afternoon <==> 12 <= hour < 18
    ensures g == Evening <==> 18 <= hour
  {
    if hour < 12 then Morning else if hour < 18 then Afternoon else Evening
  }

  /** The rank of a greeting in the course of a day. */
  function GreetingRank(g: Greeting): nat {
    match g
    case Morning => 0
    case Afternoon => 1
    case Evening => 2
  }

  /** As the hour grows the greeting never moves back. */
  lemma GreetingMonotone(h1: int, h2: int)
    requires h1 <= h2
    ensures GreetingRank(GreetingAt(h1)) <= GreetingRank(GreetingAt(h2))
  {
  }

  /** Each greeting is shown at some hour of the day 0..23. */
  lemma GreetingReached(g: Greeting)
    ensures exists h :: 0 <= h < 24 && GreetingAt(h) == g
  {
    var h := match g case Morning => 0 case Afternoon => 12 case Evening => 18;
    assert GreetingAt(h) == g;
  }
}
