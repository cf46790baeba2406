/**
 * The data-access layer: how attendance rows fold into the nested
 * employee -> month -> day map, what a single save and a bulk save write,
 * how the settings key/value rows are read and written, what a new
 * request is stored as, and the date range the schedule query uses.
 *
 * The backing store is modelled as the sequence of rows a `select *`
 * returns. Deleting a key removes its rows; an upsert on a key removes its
 * rows and appends one row, in which the columns the payload sends replace
 * the old values and every other column keeps its old value.
 */
module Store {
  import opened Wrappers
  import opened Types
  import opened Text
  import opened Calendar

  // ---------------------------------------------------------------- attendance

  /** The natural key of the attendance table. It carries no year. */
  datatype Key = Key(employeeId: string, month: int, day: string)

  /** A row of the attendance table; `None` is a NULL column. */
  datatype Row = Row(
    employeeId: string,
    month: int,
    day: string,
    status: Status,
    timestamp: string,
    checkOutTime: Option<string>,
    overtimeHours: Option<real>,
    overtimeMultiplier: Option<real>,
    latitude: Option<real>,
    longitude: Option<real>,
    deviceInfo: Option<string>,
    distance: Option<int>)

  function KeyOf(row: Row): Key {
    Key(row.employeeId, row.month, row.day)
  }

  /** The record the client builds from a row. */
  function RecordOf(row: Row): Record {
    Record(row.status, row.timestamp, row.checkOutTime, row.overtimeHours, row.overtimeMultiplier,
           row.latitude, row.longitude, row.deviceInfo, row.distance)
  }

  /** Day text -> record, for one employee and one month. */
  type MonthData = map<string, Record>

  /** Employee -> month -> day -> record. */
  type AttendanceMap = map<string, map<int, MonthData>>

  /** Absence of a key is the only representation of "no record". */
  function Lookup(m: AttendanceMap, k: Key): Option<Record> {
    if k.employeeId in m && k.month in m[k.employeeId] && k.day in m[k.employeeId][k.month]
    then Some(m[k.employeeId][k.month][k.day])
    else None
  }

  /** `all[employeeId]?.[month] || {}`: the days recorded for one employee in one month. */
  function MonthOf(m: AttendanceMap, employeeId: string, month: int): (d: MonthData)
    ensures forall day :: day in d <==> Lookup(m, Key(employeeId, month, day)).Some?
    ensures forall day :: day in d ==> Lookup(m, Key(employeeId, month, day)) == Some(d[day])
  {
    if employeeId in m && month in m[employeeId] then m[employeeId][month] else map[]
  }

  /** Every employee and month present in the map holds at least one record. */
  ghost predicate NoEmptyBuckets(m: AttendanceMap) {
    forall e :: e in m ==> m[e] != map[] && forall mo :: mo in m[e] ==> m[e][mo] != map[]
  }

  /** Set the record of one key, creating the employee and month levels on demand. */
  function Insert(m: AttendanceMap, k: Key, r: Record): (m': AttendanceMap)
    ensures NoEmptyBuckets(m) ==> NoEmptyBuckets(m')
    ensures forall k' :: Lookup(m', k') == if k' == k then Some(r) else Lookup(m, k')
  {
    var em := if k.employeeId in m then m[k.employeeId] else map[];
    var md := if k.month in em then em[k.month] else map[];
    var md' := md[k.day := r];
    assert k.day in md';
    var em' := em[k.month := md'];
    assert k.month in em';
    m[k.employeeId := em']
  }

  /** Folding the rows of a `select *` in order into the nested map. */
  function FoldRows(rows: seq<Row>): AttendanceMap {
    if rows == [] then map[]
    else
      var last := rows[|rows| - 1];
      Insert(FoldRows(rows[..|rows| - 1]), KeyOf(last), RecordOf(last))
  }

  /** An employee or month level exists only when some row put a record under it. */
  lemma {:induction false} FoldRowsNoEmptyBuckets(rows: seq<Row>)
    ensures NoEmptyBuckets(FoldRows(rows))
  {
    if rows != [] {
      FoldRowsNoEmptyBuckets(rows[..|rows| - 1]);
    }
  }

  /** `i` is the last position of a row with key `k`. */
  ghost predicate LastWithKey(rows: seq<Row>, k: Key, i: int) {
    0 <= i < |rows| && KeyOf(rows[i]) == k && forall j :: i < j < |rows| ==> KeyOf(rows[j]) != k
  }

  /** The position of the last row with key `k`, if any. */
  function LastIndex(rows: seq<Row>, k: Key): (r: Option<nat>)
    ensures r.None? <==> forall i :: 0 <= i < |rows| ==> KeyOf(rows[i]) != k
    ensures r.Some? ==> LastWithKey(rows, k, r.value)
  {
    if rows == [] then None
    else if KeyOf(rows[|rows| - 1]) == k then Some(|rows| - 1)
    else
      var p := rows[..|rows| - 1];
      assert forall i :: 0 <= i < |p| ==> rows[i] == p[i];
      LastIndex(p, k)
  }

  /** Reading a key after the fold gives the record of its last row. */
  lemma {:induction false} FoldRowsLast(rows: seq<Row>, k: Key)
    ensures var i := LastIndex(rows, k);
            Lookup(FoldRows(rows), k) == if i.Some? then Some(RecordOf(rows[i.value])) else None
  {
    if rows != [] {
      var p := rows[..|rows| - 1];
      FoldRowsLast(p, k);
      if KeyOf(rows[|rows| - 1]) != k {
        var i := LastIndex(p, k);
        if i.Some? {
          assert rows[i.value] == p[i.value];
        }
      }
    }
  }

  /**
   * After the fold, a key holds the record of the last row with that key,
   * and a key that no row carries is absent.
   */
  lemma FoldRowsLookup(rows: seq<Row>, k: Key)
    ensures Lookup(FoldRows(rows), k).None? <==> forall i :: 0 <= i < |rows| ==> KeyOf(rows[i]) != k
    ensures Lookup(FoldRows(rows), k).Some? ==>
              exists i :: LastWithKey(rows, k, i) && Lookup(FoldRows(rows), k) == Some(RecordOf(rows[i]))
  {
    FoldRowsLast(rows, k);
    var i := LastIndex(rows, k);
    if i.Some? {
      assert LastWithKey(rows, k, i.value);
    }
  }

  /**
   * `getAllAttendance`: a failed fetch gives the empty map; otherwise a key
   * is present exactly when some fetched row carries it, and then holds the
   * record of the last such row.
   */
  function GetAllAttendance(fetched: Result<seq<Row>, string>): (m: AttendanceMap)
    ensures fetched.Failure? ==> m == map[]
    ensures fetched.Success? ==> forall k :: Lookup(m, k).None? <==>
              forall i :: 0 <= i < |fetched.value| ==> KeyOf(fetched.value[i]) != k
    ensures fetched.Success? ==> forall k :: Lookup(m, k).Some? ==>
              exists i :: LastWithKey(fetched.value, k, i) && Lookup(m, k) == Some(RecordOf(fetched.value[i]))
  {
    match fetched
    case Failure(_) => map[]
    case Success(rows) =>
      forall k ensures Lookup(FoldRows(rows), k).None? <==>
          forall i :: 0 <= i < |rows| ==> KeyOf(rows[i]) != k
        ensures Lookup(FoldRows(rows), k).Some? ==>
          exists i :: LastWithKey(rows, k, i) && Lookup(FoldRows(rows), k) == Some(RecordOf(rows[i])) {
        FoldRowsLookup(rows, k);
      }
      FoldRows(rows)
  }

  /** The optional columns of the attendance table. */
  datatype Field =
    | CheckOutField | OvertimeHoursField | OvertimeMultiplierField
    | LatitudeField | LongitudeField | DeviceInfoField | DistanceField

  /** The value of one optional column; `None` is NULL. */
  datatype FieldValue = TextValue(text: Option<string>) | RealValue(number: Option<real>) | IntValue(whole: Option<int>)

  predicate IsNull(v: FieldValue) {
    match v
    case TextValue(x) => x.None?
    case RealValue(x) => x.None?
    case IntValue(x) => x.None?
  }

  /** The value a record holds in one optional column. */
  function Get(r: Record, f: Field): FieldValue {
    match f
    case CheckOutField => TextValue(r.checkOutTime)
    case OvertimeHoursField => RealValue(r.overtimeHours)
    case OvertimeMultiplierField => RealValue(r.overtimeMultiplier)
    case LatitudeField => RealValue(r.latitude)
    case LongitudeField => RealValue(r.longitude)
    case DeviceInfoField => TextValue(r.deviceInfo)
    case DistanceField => IntValue(r.distance)
  }

  function AllFields(): set<Field> {
    {CheckOutField, OvertimeHoursField, OvertimeMultiplierField, LatitudeField, LongitudeField, DeviceInfoField,
     DistanceField}
  }

  lemma AllFieldsComplete(f: Field)
    ensures f in AllFields()
  {
  }

  /**
   * An upsert payload: the key, the status and check-in time (always sent),
   * and the optional columns in `sent` with their values from `record`. A
   * property of the client object that is `undefined` is not in `sent`; one
   * that is `null` is sent as NULL.
   */
  datatype Payload = Payload(key: Key, record: Record, sent: set<Field>)

  /** What one save sends to the store: a delete of a key, or an upsert. */
  datatype Write = Delete(key: Key) | Upsert(payload: Payload)

  /**
   * `saveAttendance`: a null record deletes the key; any other record is
   * upserted on the key with the optional properties `defined` holds, the
   * ones whose value is not `undefined`.
   */
  function SaveAttendance(employeeId: string, month: int, day: string, record: Option<Record>, defined: set<Field>)
    : (w: Write)
    ensures record.None? <==> w.Delete?
    ensures w.Delete? ==> w.key == Key(employeeId, month, day)
    ensures w.Upsert? ==> w.payload == Payload(Key(employeeId, month, day), record.value, defined)
  {
    match record
    case None => Delete(Key(employeeId, month, day))
    case Some(r) => Upsert(Payload(Key(employeeId, month, day), r, defined))
  }

  /** The row the store writes for key `k` and record `r`. */
  function RowOf(k: Key, r: Record): (row: Row)
    ensures KeyOf(row) == k && RecordOf(row) == r
  {
    Row(k.employeeId, k.month, k.day, r.status, r.timestamp, r.checkOutTime, r.overtimeHours,
        r.overtimeMultiplier, r.latitude, r.longitude, r.deviceInfo, r.distance)
  }

  /** The column `f` of `p` if `p` sends it, otherwise of `base`. */
  function Pick(f: Field, p: Payload, base: Record): Record {
    if f in p.sent then p.record else base
  }

  /**
   * The record a key holds after an upsert, given what it held before: the
   * status, the time and the sent columns come from the payload; every
   * other column keeps its old value, or is NULL when the key had no row
   * (merge-duplicates).
   */
  function Stored(prior: Option<Record>, p: Payload): (r: Record)
    ensures r.status == p.record.status && r.timestamp == p.record.timestamp
    ensures forall f :: f in p.sent ==> Get(r, f) == Get(p.record, f)
    ensures forall f :: f !in p.sent && prior.Some? ==> Get(r, f) == Get(prior.value, f)
    ensures forall f :: f !in p.sent && prior.None? ==> IsNull(Get(r, f))
  {
    var base := if prior.Some? then prior.value else Bare(p.record.status, p.record.timestamp);
    Record(p.record.status, p.record.timestamp,
           Pick(CheckOutField, p, base).checkOutTime,
           Pick(OvertimeHoursField, p, base).overtimeHours,
           Pick(OvertimeMultiplierField, p, base).overtimeMultiplier,
           Pick(LatitudeField, p, base).latitude,
           Pick(LongitudeField, p, base).longitude,
           Pick(DeviceInfoField, p, base).deviceInfo,
           Pick(DistanceField, p, base).distance)
  }

  /** Two records with the same status, time and optional columns are equal. */
  lemma RecordsEqual(a: Record, b: Record)
    requires a.status == b.status && a.timestamp == b.timestamp
    requires forall f :: Get(a, f) == Get(b, f)
    ensures a == b
  {
    assert Get(a, CheckOutField) == Get(b, CheckOutField);
    assert Get(a, OvertimeHoursField) == Get(b, OvertimeHoursField);
    assert Get(a, OvertimeMultiplierField) == Get(b, OvertimeMultiplierField);
    assert Get(a, LatitudeField) == Get(b, LatitudeField);
    assert Get(a, LongitudeField) == Get(b, LongitudeField);
    assert Get(a, DeviceInfoField) == Get(b, DeviceInfoField);
    assert Get(a, DistanceField) == Get(b, DistanceField);
  }

  /** A payload that sends every column replaces the old record whole. */
  lemma {:induction false} StoredAllSent(prior: Option<Record>, p: Payload)
    requires p.sent == AllFields()
    ensures Stored(prior, p) == p.record
  {
    forall f ensures Get(Stored(prior, p), f) == Get(p.record, f) {
      AllFieldsComplete(f);
    }
    RecordsEqual(Stored(prior, p), p.record);
  }

  /** On a key without a row, a payload whose unsent columns are NULL stores exactly its record. */
  lemma {:induction false} StoredNew(p: Payload)
    requires forall f :: f !in p.sent ==> IsNull(Get(p.record, f))
    ensures Stored(None, p) == p.record
  {
    var r := Stored(None, p);
    forall f ensures Get(r, f) == Get(p.record, f) {
      if f !in p.sent {
        assert IsNull(Get(r, f)) && IsNull(Get(p.record, f));
        match f
        case CheckOutField =>
        case OvertimeHoursField =>
        case OvertimeMultiplierField =>
        case LatitudeField =>
        case LongitudeField =>
        case DeviceInfoField =>
        case DistanceField =>
      }
    }
    RecordsEqual(r, p.record);
  }

  /** Upserting the same payload twice stores what upserting it once does. */
  lemma {:induction false} StoredTwice(prior: Option<Record>, p: Payload)
    ensures Stored(Some(Stored(prior, p)), p) == Stored(prior, p)
  {
    var once := Stored(prior, p);
    var twice := Stored(Some(once), p);
    forall f ensures Get(twice, f) == Get(once, f) {
    }
    RecordsEqual(twice, once);
  }

  /** The table without the rows of key `k`. */
  function RemoveKey(t: seq<Row>, k: Key): (t': seq<Row>)
    ensures |t'| <= |t|
    ensures forall i :: 0 <= i < |t'| ==> KeyOf(t'[i]) != k
  {
    if t == [] then []
    else
      var last := t[|t| - 1];
      var p := RemoveKey(t[..|t| - 1], k);
      if KeyOf(last) == k then p else p + [last]
  }

  /**
   * The table after one write. An upsert replaces the rows of its key by one
   * row holding the merge of the current record with the payload.
   */
  function Apply(t: seq<Row>, w: Write): seq<Row> {
    match w
    case Delete(k) => RemoveKey(t, k)
    case Upsert(p) => RemoveKey(t, p.key) + [RowOf(p.key, Stored(Lookup(FoldRows(t), p.key), p))]
  }

  lemma {:induction false} RemoveKeyLookup(t: seq<Row>, k: Key, k': Key)
    ensures Lookup(FoldRows(RemoveKey(t, k)), k') == if k' == k then None else Lookup(FoldRows(t), k')
  {
    if t != [] {
      var p := t[..|t| - 1];
      var last := t[|t| - 1];
      RemoveKeyLookup(p, k, k');
      if KeyOf(last) != k {
        var q := RemoveKey(p, k);
        assert (q + [last])[..|q|] == q;
      }
    }
  }

  /**
   * Reading back after a write: a delete leaves its key absent; after an
   * upsert the key holds the old record merged with the payload (sent
   * columns as sent, the others as before); every other key keeps what it
   * held.
   */
  lemma ApplyLookup(t: seq<Row>, w: Write, k: Key)
    ensures w.Delete? ==>
              Lookup(FoldRows(Apply(t, w)), k) == (if k == w.key then None else Lookup(FoldRows(t), k))
    ensures w.Upsert? ==>
              Lookup(FoldRows(Apply(t, w)), k) ==
              (if k == w.payload.key then Some(Stored(Lookup(FoldRows(t), k), w.payload)) else Lookup(FoldRows(t), k))
  {
    match w
    case Delete(key) =>
      RemoveKeyLookup(t, key, k);
    case Upsert(p) =>
      var q := RemoveKey(t, p.key);
      var row := RowOf(p.key, Stored(Lookup(FoldRows(t), p.key), p));
      assert (q + [row])[..|q|] == q;
      RemoveKeyLookup(t, p.key, k);
  }

  /**
   * Saving a record and reading the table back: no record after saving
   * null; otherwise the status, the time and the defined columns as saved,
   * every other column as the key held it before (NULL for a new row); no
   * other key changes.
   */
  lemma SaveThenRead(t: seq<Row>, employeeId: string, month: int, day: string, record: Option<Record>,
                     defined: set<Field>, k: Key)
    ensures k != Key(employeeId, month, day) ==>
              Lookup(FoldRows(Apply(t, SaveAttendance(employeeId, month, day, record, defined))), k) ==
              Lookup(FoldRows(t), k)
    ensures k == Key(employeeId, month, day) && record.None? ==>
              Lookup(FoldRows(Apply(t, SaveAttendance(employeeId, month, day, record, defined))), k).None?
    ensures k == Key(employeeId, month, day) && record.Some? ==>
              var now := Lookup(FoldRows(Apply(t, SaveAttendance(employeeId, month, day, record, defined))), k);
              var before := Lookup(FoldRows(t), k);
              now.Some? && now.value.status == record.value.status && now.value.timestamp == record.value.timestamp &&
              (forall f :: f in defined ==> Get(now.value, f) == Get(record.value, f)) &&
              (forall f :: f !in defined && before.Some? ==> Get(now.value, f) == Get(before.value, f)) &&
              (forall f :: f !in defined && before.None? ==> IsNull(Get(now.value, f)))
  {
    ApplyLookup(t, SaveAttendance(employeeId, month, day, record, defined), k);
  }

  /** Saving a record with every column defined and reading it back gives exactly that record. */
  lemma SaveWholeThenRead(t: seq<Row>, employeeId: string, month: int, day: string, record: Record)
    ensures Lookup(FoldRows(Apply(t, SaveAttendance(employeeId, month, day, Some(record), AllFields()))),
                   Key(employeeId, month, day)) == Some(record)
  {
    var w := SaveAttendance(employeeId, month, day, Some(record), AllFields());
    ApplyLookup(t, w, Key(employeeId, month, day));
    StoredAllSent(Lookup(FoldRows(t), Key(employeeId, month, day)), w.payload);
  }

  // ---------------------------------------------------------------- bulk save

  /** The key a `Date` is stored under: its month and its zero-padded day; the year is dropped. */
  function DateKey(employeeId: string, d: Date): Key
    requires ValidDate(d)
  {
    Key(employeeId, d.month, PadStart2(d.day))
  }

  /** Two dates that differ only in their year land on the same key. */
  lemma DateKeyIgnoresYear(employeeId: string, a: Date, b: Date)
    requires ValidDate(a) && ValidDate(b)
    requires a.month == b.month && a.day == b.day && a.year != b.year
    ensures DateKey(employeeId, a) == DateKey(employeeId, b)
  {
  }

  /** Distinct days of the same month land on distinct keys. */
  lemma DateKeyInjective(employeeId: string, a: Date, b: Date)
    requires ValidDate(a) && ValidDate(b)
    requires DateKey(employeeId, a) == DateKey(employeeId, b)
    ensures a.month == b.month && a.day == b.day
  {
    PadStart2Injective(a.day, b.day);
  }

  /** The record every bulk row carries: overtime hours default to 0 and the multiplier to 1.5. */
  function BulkRecord(template: Record): Record {
    Record(template.status, template.timestamp, None, Some(OrElse(template.overtimeHours, 0.0)),
           Some(OrElse(template.overtimeMultiplier, 1.5)), None, None, None, None)
  }

  /** The two optional columns a bulk row sends. */
  function OvertimeFields(): set<Field> {
    {OvertimeHoursField, OvertimeMultiplierField}
  }

  /** One bulk row: the status, the time and the two overtime columns, and no other column. */
  function BulkRow(employeeId: string, d: Date, template: Record): (row: Payload)
    requires ValidDate(d)
    ensures row.key == DateKey(employeeId, d)
    ensures row.record == BulkRecord(template) && row.sent == OvertimeFields()
  {
    Payload(DateKey(employeeId, d), BulkRecord(template), OvertimeFields())
  }

  predicate AllValid(dates: seq<Date>) {
    forall j :: 0 <= j < |dates| ==> ValidDate(dates[j])
  }

  /** The rows for one employee, one per date, in date order. */
  function RowsFor(employeeId: string, dates: seq<Date>, template: Record): (rows: seq<Payload>)
    requires AllValid(dates)
    ensures |rows| == |dates|
  {
    seq(|dates|, j requires 0 <= j < |dates| => BulkRow(employeeId, dates[j], template))
  }

  /** The j-th row of one employee is the row of the j-th date. */
  lemma RowsForAt(employeeId: string, dates: seq<Date>, template: Record, j: int)
    requires AllValid(dates) && 0 <= j < |dates|
    ensures RowsFor(employeeId, dates, template)[j] == BulkRow(employeeId, dates[j], template)
  {
  }

  /** The Cartesian fan-out of `saveBulkAttendance`: the rows of each employee in turn. */
  function FanOut(employeeIds: seq<string>, dates: seq<Date>, template: Record): seq<Payload>
    requires AllValid(dates)
  {
    if employeeIds == [] then []
    else RowsFor(employeeIds[0], dates, template) + FanOut(employeeIds[1..], dates, template)
  }

  lemma MulSucc(a: nat, b: nat)
    ensures (a + 1) * b == b + a * b
  {
  }

  lemma MulPred(a: int, b: int)
    requires a > 0
    ensures a * b == b + (a - 1) * b
  {
  }

  lemma ProductPositive(a: nat, b: nat)
    ensures a * b > 0 <==> a > 0 && b > 0
  {
    if a > 0 && b > 0 {
      MulSucc(a - 1, b);
    }
  }

  /** Bulk save builds exactly one row per employee and date. */
  lemma {:induction false} FanOutLength(employeeIds: seq<string>, dates: seq<Date>, template: Record)
    requires AllValid(dates)
    ensures |FanOut(employeeIds, dates, template)| == |employeeIds| * |dates|
  {
    if employeeIds != [] {
      FanOutLength(employeeIds[1..], dates, template);
      MulSucc(|employeeIds| - 1, |dates|);
    }
  }

  /** `i * n`, by repeated addition. */
  function Offset(i: nat, n: nat): nat {
    if i == 0 then 0 else n + Offset(i - 1, n)
  }

  /** Repeated addition is the product. */
  lemma {:induction false} OffsetIsProduct(i: nat, n: nat)
    ensures Offset(i, n) == i * n
  {
    if i > 0 {
      OffsetIsProduct(i - 1, n);
      MulSucc(i - 1, n);
    }
  }

  /** The rows of employee i start at position `Offset(i, |dates|)`. */
  lemma {:induction false} FanOutAt(employeeIds: seq<string>, dates: seq<Date>, template: Record, i: nat, j: nat)
    requires AllValid(dates)
    requires i < |employeeIds| && j < |dates|
    ensures Offset(i, |dates|) + j < |FanOut(employeeIds, dates, template)|
    ensures FanOut(employeeIds, dates, template)[Offset(i, |dates|) + j] == RowsFor(employeeIds[i], dates, template)[j]
  {
    var n := |dates|;
    var rest := employeeIds[1..];
    var head := RowsFor(employeeIds[0], dates, template);
    var tail := FanOut(rest, dates, template);
    assert FanOut(employeeIds, dates, template) == head + tail;
    if i == 0 {
      AppendLeft(head, tail, j);
    } else {
      var q := Offset(i - 1, n) + j;
      FanOutAt(rest, dates, template, i - 1, j);
      assert rest[i - 1] == employeeIds[i];
      AppendRight(head, tail, q);
    }
  }

  /** A position inside the left part of a concatenation reads the left part. */
  lemma AppendLeft<T>(a: seq<T>, b: seq<T>, j: int)
    requires 0 <= j < |a|
    ensures (a + b)[j] == a[j]
  {
  }

  /** A position past the left part of a concatenation reads the right part. */
  lemma AppendRight<T>(a: seq<T>, b: seq<T>, q: int)
    requires 0 <= q < |b|
    ensures |a| + q < |a + b| && (a + b)[|a| + q] == b[q]
  {
  }

  /** Employee-major order: the row for employee i and date j sits at position i * |dates| + j. */
  lemma FanOutIndex(employeeIds: seq<string>, dates: seq<Date>, template: Record, i: int, j: int)
    requires AllValid(dates)
    requires 0 <= i < |employeeIds| && 0 <= j < |dates|
    ensures 0 <= i * |dates| + j < |FanOut(employeeIds, dates, template)|
    ensures FanOut(employeeIds, dates, template)[i * |dates| + j] == BulkRow(employeeIds[i], dates[j], template)
  {
    var rows, n := FanOut(employeeIds, dates, template), |dates|;
    var p := i * n + j;
    OffsetIsProduct(i, n);
    assert Offset(i, n) + j == p;
    FanOutAt(employeeIds, dates, template, i, j);
    assert 0 <= p < |rows| && rows[p] == RowsFor(employeeIds[i], dates, template)[j];
    RowsForAt(employeeIds[i], dates, template, j);
    assert rows[p] == BulkRow(employeeIds[i], dates[j], template);
  }

  /** The employee and date positions the fan-out row at position `p` was built from. */
  function FanOutSource(employeeIds: seq<string>, dates: seq<Date>, template: Record, p: int): (ij: (nat, nat))
    requires AllValid(dates)
    requires 0 <= p < |FanOut(employeeIds, dates, template)|
    ensures ij.0 < |employeeIds| && ij.1 < |dates|
    ensures FanOut(employeeIds, dates, template)[p] == BulkRow(employeeIds[ij.0], dates[ij.1], template)
  {
    var head := RowsFor(employeeIds[0], dates, template);
    var tail := FanOut(employeeIds[1..], dates, template);
    assert FanOut(employeeIds, dates, template) == head + tail;
    if p < |dates| then
      RowsForAt(employeeIds[0], dates, template, p);
      AppendLeft(head, tail, p);
      (0, p)
    else
      var q := p - |dates|;
      var ij := FanOutSource(employeeIds[1..], dates, template, q);
      assert employeeIds[1..][ij.0] == employeeIds[ij.0 + 1];
      AppendRight(head, tail, q);
      (ij.0 + 1, ij.1)
  }

  /** Every row of the fan-out is the row of some employee and some date. */
  lemma FanOutElement(employeeIds: seq<string>, dates: seq<Date>, template: Record, p: int)
    requires AllValid(dates)
    requires 0 <= p < |FanOut(employeeIds, dates, template)|
    ensures exists i, j :: 0 <= i < |employeeIds| && 0 <= j < |dates| &&
              FanOut(employeeIds, dates, template)[p] == BulkRow(employeeIds[i], dates[j], template)
  {
    var ij := FanOutSource(employeeIds, dates, template, p);
    var i, j := ij.0, ij.1;
    assert 0 <= i < |employeeIds| && 0 <= j < |dates| &&
           FanOut(employeeIds, dates, template)[p] == BulkRow(employeeIds[i], dates[j], template);
  }

  /** Every row of the fan-out carries the template's bulk record and sends the two overtime columns only. */
  lemma FanOutRecords(employeeIds: seq<string>, dates: seq<Date>, template: Record)
    requires AllValid(dates)
    ensures forall p :: 0 <= p < |FanOut(employeeIds, dates, template)| ==>
              FanOut(employeeIds, dates, template)[p].record == BulkRecord(template) &&
              FanOut(employeeIds, dates, template)[p].sent == OvertimeFields()
  {
    forall p | 0 <= p < |FanOut(employeeIds, dates, template)|
      ensures FanOut(employeeIds, dates, template)[p].record == BulkRecord(template)
      ensures FanOut(employeeIds, dates, template)[p].sent == OvertimeFields()
    {
      FanOutElement(employeeIds, dates, template, p);
    }
  }

  /** `saveBulkAttendance`: the batch it upserts, or nothing at all when the product is empty. */
  function SaveBulkAttendance(employeeIds: seq<string>, dates: seq<Date>, template: Record): (batch: Option<seq<Payload>>)
    requires AllValid(dates)
    ensures batch.None? <==> employeeIds == [] || dates == []
    ensures batch.Some? ==> batch.value == FanOut(employeeIds, dates, template)
    ensures batch.Some? ==> |batch.value| == |employeeIds| * |dates|
  {
    var rows := FanOut(employeeIds, dates, template);
    FanOutLength(employeeIds, dates, template);
    ProductPositive(|employeeIds|, |dates|);
    if |rows| > 0 then Some(rows) else None
  }

  /** The table after upserting a batch row by row. */
  function ApplyBatch(t: seq<Row>, batch: seq<Payload>): seq<Row>
    decreases |batch|
  {
    if batch == [] then t else ApplyBatch(Apply(t, Upsert(batch[0])), batch[1..])
  }

  /** What an upsert stores depends on the payload's record and columns, not on its key. */
  lemma StoredIgnoresKey(prior: Option<Record>, p: Payload, k: Key)
    ensures Stored(prior, p.(key := k)) == Stored(prior, p)
  {
  }

  /** Some row of `batch` is on key `k`. */
  predicate HasKey(batch: seq<Payload>, k: Key) {
    exists i :: 0 <= i < |batch| && batch[i].key == k
  }

  lemma HasKeyCons(batch: seq<Payload>, k: Key)
    requires batch != []
    ensures HasKey(batch, k) <==> batch[0].key == k || HasKey(batch[1..], k)
  {
    if HasKey(batch, k) && batch[0].key != k {
      var i :| 0 <= i < |batch| && batch[i].key == k;
      assert batch[1..][i - 1].key == k;
    }
    if HasKey(batch[1..], k) {
      var i :| 0 <= i < |batch[1..]| && batch[1..][i].key == k;
      assert batch[i + 1].key == k;
    }
  }

  /**
   * Upserting a batch whose rows all send the same record and columns as
   * `q`: every key of the batch then holds its old record merged with `q`,
   * and every other key is unchanged.
   */
  lemma {:induction false} ApplyUniformBatch(t: seq<Row>, batch: seq<Payload>, q: Payload, k: Key)
    requires forall i :: 0 <= i < |batch| ==> batch[i].record == q.record && batch[i].sent == q.sent
    ensures Lookup(FoldRows(ApplyBatch(t, batch)), k) ==
              if HasKey(batch, k) then Some(Stored(Lookup(FoldRows(t), k), q)) else Lookup(FoldRows(t), k)
    decreases |batch|
  {
    if batch != [] {
      var before := Lookup(FoldRows(t), k);
      var t1 := Apply(t, Upsert(batch[0]));
      ApplyLookup(t, Upsert(batch[0]), k);
      assert batch[0] == q.(key := batch[0].key);
      StoredIgnoresKey(before, q, batch[0].key);
      ApplyUniformBatch(t1, batch[1..], q, k);
      HasKeyCons(batch, k);
      if batch[0].key == k {
        StoredTwice(before, q);
      }
    }
  }

  /** What one bulk row stores over the day's old record `prior`. */
  lemma BulkStored(prior: Option<Record>, q: Payload, template: Record)
    requires q.record == BulkRecord(template) && q.sent == OvertimeFields()
    ensures var r := Stored(prior, q);
            r.status == template.status && r.timestamp == template.timestamp &&
            r.overtimeHours == Some(OrElse(template.overtimeHours, 0.0)) &&
            r.overtimeMultiplier == Some(OrElse(template.overtimeMultiplier, 1.5)) &&
            (forall f :: f !in OvertimeFields() && prior.Some? ==> Get(r, f) == Get(prior.value, f)) &&
            (forall f :: f !in OvertimeFields() && prior.None? ==> IsNull(Get(r, f)))
  {
    var r := Stored(prior, q);
    assert Get(r, OvertimeHoursField) == Get(q.record, OvertimeHoursField);
    assert Get(r, OvertimeMultiplierField) == Get(q.record, OvertimeMultiplierField);
  }

  /** `k` is the key of some (employee, date) pair of the product. */
  predicate InProduct(employeeIds: seq<string>, dates: seq<Date>, k: Key)
    requires AllValid(dates)
  {
    exists i, j :: 0 <= i < |employeeIds| && 0 <= j < |dates| && k == DateKey(employeeIds[i], dates[j])
  }

  /**
   * After a bulk save every (employee, date) pair of the product holds the
   * bulk status, time and overtime, and keeps its check-out time, position,
   * device and distance (NULL for a new row); keys outside the product are
   * unchanged.
   */
  lemma BulkSaveThenRead(t: seq<Row>, employeeIds: seq<string>, dates: seq<Date>, template: Record, k: Key)
    requires AllValid(dates)
    ensures InProduct(employeeIds, dates, k) ==>
              var now := Lookup(FoldRows(ApplyBatch(t, FanOut(employeeIds, dates, template))), k);
              var before := Lookup(FoldRows(t), k);
              now.Some? && now.value.status == template.status && now.value.timestamp == template.timestamp &&
              now.value.overtimeHours == Some(OrElse(template.overtimeHours, 0.0)) &&
              now.value.overtimeMultiplier == Some(OrElse(template.overtimeMultiplier, 1.5)) &&
              (forall f :: f !in OvertimeFields() && before.Some? ==> Get(now.value, f) == Get(before.value, f)) &&
              (forall f :: f !in OvertimeFields() && before.None? ==> IsNull(Get(now.value, f)))
    ensures !InProduct(employeeIds, dates, k) ==>
              Lookup(FoldRows(ApplyBatch(t, FanOut(employeeIds, dates, template))), k) == Lookup(FoldRows(t), k)
  {
    var rows := FanOut(employeeIds, dates, template);
    var q := Payload(k, BulkRecord(template), OvertimeFields());
    var before := Lookup(FoldRows(t), k);
    FanOutRecords(employeeIds, dates, template);
    ApplyUniformBatch(t, rows, q, k);
    if InProduct(employeeIds, dates, k) {
      var i, j :| 0 <= i < |employeeIds| && 0 <= j < |dates| && k == DateKey(employeeIds[i], dates[j]);
      FanOutIndex(employeeIds, dates, template, i, j);
      assert rows[i * |dates| + j].key == k;
      assert HasKey(rows, k);
      BulkStored(before, q, template);
    } else {
      forall p | 0 <= p < |rows|
        ensures rows[p].key != k
      {
        FanOutElement(employeeIds, dates, template, p);
      }
    }
  }

  // ---------------------------------------------------------------- settings

  /**
   * A value cell of the settings table: text, or the decimal text
   * `String(n)` of a number `n`, which `parseFloat` reads back as `n`.
   */
  datatype Cell = Text(text: string) | NumberText(number: Number)

  datatype SettingRow = SettingRow(key: string, value: Cell)

  const WorkStartKey: string := "work_start_time"
  const WorkEndKey: string := "work_end_time"
  const OfficeLatKey: string := "office_lat"
  const OfficeLngKey: string := "office_lng"
  const AllowedRadiusKey: string := "allowed_radius"

  /** The five keys the settings are stored under. */
  function SettingsKeys(): set<string> {
    {WorkStartKey, WorkEndKey, OfficeLatKey, OfficeLngKey, AllowedRadiusKey}
  }

  /** The configuration used when the table cannot be read or lacks a key. */
  function DefaultSettings(): SystemSettings {
    SystemSettings("08:00", "17:30", Finite(0.0), Finite(0.0), Finite(100.0))
  }

  /** Folding the rows into key -> value, in order. */
  function SettingsMap(rows: seq<SettingRow>): map<string, Cell> {
    if rows == [] then map[]
    else
      var last := rows[|rows| - 1];
      SettingsMap(rows[..|rows| - 1])[last.key := last.value]
  }

  /** The position of the last settings row with key `key`, if any. */
  function LastSettingIndex(rows: seq<SettingRow>, key: string): (r: Option<nat>)
    ensures r.None? <==> forall i :: 0 <= i < |rows| ==> rows[i].key != key
    ensures r.Some? ==> r.value < |rows| && rows[r.value].key == key &&
                        forall j :: r.value < j < |rows| ==> rows[j].key != key
  {
    if rows == [] then None
    else if rows[|rows| - 1].key == key then Some(|rows| - 1)
    else
      var p := rows[..|rows| - 1];
      assert forall i :: 0 <= i < |p| ==> rows[i] == p[i];
      LastSettingIndex(p, key)
  }

  /** The settings map holds a key exactly when some row has it, with the value of the last such row. */
  lemma {:induction false} SettingsMapLast(rows: seq<SettingRow>, key: string)
    ensures var i := LastSettingIndex(rows, key);
            (key in SettingsMap(rows) <==> i.Some?) && (i.Some? ==> SettingsMap(rows)[key] == rows[i.value].value)
  {
    if rows != [] {
      var p := rows[..|rows| - 1];
      SettingsMapLast(p, key);
      assert SettingsMap(rows) == SettingsMap(p)[rows[|rows| - 1].key := rows[|rows| - 1].value];
      if rows[|rows| - 1].key != key {
        var i := LastSettingIndex(p, key);
        if i.Some? {
          assert rows[i.value] == p[i.value];
        }
      }
    }
  }

  /** A key is present iff some row carries it, and it holds the value of the last such row. */
  lemma SettingsMapLastWins(rows: seq<SettingRow>, key: string)
    ensures key in SettingsMap(rows) <==> exists i :: 0 <= i < |rows| && rows[i].key == key
    ensures key in SettingsMap(rows) ==>
              exists i :: 0 <= i < |rows| && rows[i].key == key && SettingsMap(rows)[key] == rows[i].value &&
                forall j :: i < j < |rows| ==> rows[j].key != key
  {
    SettingsMapLast(rows, key);
    var i := LastSettingIndex(rows, key);
    if i.Some? {
      var k := i.value;
      assert 0 <= k < |rows| && rows[k].key == key && SettingsMap(rows)[key] == rows[k].value;
    }
  }

  /** The keys of the settings map are the keys of the rows. */
  lemma {:induction false} SettingsMapDomain(rows: seq<SettingRow>)
    ensures forall key :: key in SettingsMap(rows) ==> exists i :: 0 <= i < |rows| && rows[i].key == key
  {
    if rows != [] {
      var p := rows[..|rows| - 1];
      SettingsMapDomain(p);
      assert SettingsMap(rows) == SettingsMap(p)[rows[|rows| - 1].key := rows[|rows| - 1].value];
      forall key | key in SettingsMap(rows) ensures exists i :: 0 <= i < |rows| && rows[i].key == key {
        if key != rows[|rows| - 1].key {
          var i :| 0 <= i < |p| && p[i].key == key;
          assert rows[i] == p[i];
        }
      }
    }
  }

  /** Rows appended later override every earlier row with the same key. */
  lemma {:induction false} SettingsMapAppend(a: seq<SettingRow>, b: seq<SettingRow>, key: string)
    requires key in SettingsMap(b)
    ensures key in SettingsMap(a + b) && SettingsMap(a + b)[key] == SettingsMap(b)[key]
  {
    var last := b[|b| - 1];
    assert (a + b)[..|a + b| - 1] == a + b[..|b| - 1];
    assert (a + b)[|a + b| - 1] == last;
    if last.key != key {
      SettingsMapAppend(a, b[..|b| - 1], key);
    }
  }

  /** `settings[key] || default` for a time key. */
  function ReadTime(m: map<string, Cell>, key: string, default: string): string {
    if key in m && m[key].Text? && m[key].text != "" then m[key].text else default
  }

  /** `parseFloat(settings[key] || defaultText)` for a numeric key; the default texts are `String(0)` and `String(100)`. */
  function ReadNumber(m: map<string, Cell>, key: string, defaultText: string): Number {
    if key !in m then ParseFloat(defaultText)
    else
      match m[key]
      case NumberText(n) => n
      case Text(t) => ParseFloat(if t == "" then defaultText else t)
  }

  /** `parseFloat` reads the decimal text of a natural number back as that number. */
  lemma ParseFloatOfNat(n: nat)
    ensures ParseFloat(NatToString(n)) == Finite(n as real)
  {
    ParseFloatOfDigits(NatToString(n));
  }

  /** The settings read from the key -> value map, each missing or empty value replaced by its default. */
  function ReadSettings(m: map<string, Cell>): (s: SystemSettings)
    ensures (forall key :: key in SettingsKeys() ==> key !in m) ==> s == DefaultSettings()
  {
    ParseFloatOfNat(0);
    ParseFloatOfNat(100);
    SystemSettings(ReadTime(m, WorkStartKey, "08:00"), ReadTime(m, WorkEndKey, "17:30"),
                   ReadNumber(m, OfficeLatKey, NatToString(0)), ReadNumber(m, OfficeLngKey, NatToString(0)),
                   ReadNumber(m, AllowedRadiusKey, NatToString(100)))
  }

  /** The value of the last settings row with key `key`, if any row has it. */
  function LastCell(rows: seq<SettingRow>, key: string): (c: Option<Cell>)
    ensures c.None? <==> forall i :: 0 <= i < |rows| ==> rows[i].key != key
    ensures c.Some? ==> exists i :: 0 <= i < |rows| && rows[i].key == key && c.value == rows[i].value &&
                                   forall j :: i < j < |rows| ==> rows[j].key != key
  {
    var i := LastSettingIndex(rows, key);
    if i.Some? then Some(rows[i.value].value) else None
  }

  /** A time setting read from the rows is the last row's non-empty text, or the default. */
  lemma ReadTimeLast(rows: seq<SettingRow>, key: string, default: string)
    ensures var c := LastCell(rows, key);
            ReadTime(SettingsMap(rows), key, default) ==
              if c.Some? && c.value.Text? && c.value.text != "" then c.value.text else default
  {
    SettingsMapCell(rows, key);
  }

  /** Reading a key of the settings map is reading the value of its last row. */
  lemma SettingsMapCell(rows: seq<SettingRow>, key: string)
    ensures var c := LastCell(rows, key);
            (key in SettingsMap(rows) <==> c.Some?) && (c.Some? ==> SettingsMap(rows)[key] == c.value)
  {
    SettingsMapLast(rows, key);
  }

  /** `ReadNumber` on a map, in terms of the key's cell. */
  lemma ReadNumberCell(m: map<string, Cell>, key: string, default: nat)
    ensures ReadNumber(m, key, NatToString(default)) ==
              if key !in m || m[key] == Text("") then Finite(default as real)
              else if m[key].NumberText? then m[key].number else ParseFloat(m[key].text)
  {
    ParseFloatOfNat(default);
  }

  /** A number setting read from the rows is what the last row's value reads as, or the default. */
  lemma ReadNumberLast(rows: seq<SettingRow>, key: string, default: nat)
    ensures var c := LastCell(rows, key);
            ReadNumber(SettingsMap(rows), key, NatToString(default)) ==
              if c.None? || c.value == Text("") then Finite(default as real)
              else if c.value.NumberText? then c.value.number else ParseFloat(c.value.text)
  {
    SettingsMapCell(rows, key);
    ReadNumberCell(SettingsMap(rows), key, default);
  }

  /**
   * `getSettings`: a failed read gives the defaults 08:00 / 17:30 / 0 / 0 /
   * 100. Otherwise each setting comes from the last row with its key: a
   * time is that row's text unless it is empty, a number is what
   * `parseFloat` reads from it; a key without a row, or with an empty
   * value, gives that setting's default.
   */
  function GetSettings(fetched: Result<seq<SettingRow>, string>): (s: SystemSettings)
    ensures fetched.Failure? ==> s == DefaultSettings()
    ensures fetched.Success? && (forall i :: 0 <= i < |fetched.value| ==> fetched.value[i].key !in SettingsKeys()) ==>
              s == DefaultSettings()
    ensures fetched.Success? ==> var c := LastCell(fetched.value, WorkStartKey);
              s.workStartTime == if c.Some? && c.value.Text? && c.value.text != "" then c.value.text else "08:00"
    ensures fetched.Success? ==> var c := LastCell(fetched.value, WorkEndKey);
              s.workEndTime == if c.Some? && c.value.Text? && c.value.text != "" then c.value.text else "17:30"
    ensures fetched.Success? ==> var c := LastCell(fetched.value, OfficeLatKey);
              s.officeLat == if c.None? || c.value == Text("") then Finite(0.0)
                             else if c.value.NumberText? then c.value.number else ParseFloat(c.value.text)
    ensures fetched.Success? ==> var c := LastCell(fetched.value, OfficeLngKey);
              s.officeLng == if c.None? || c.value == Text("") then Finite(0.0)
                             else if c.value.NumberText? then c.value.number else ParseFloat(c.value.text)
    ensures fetched.Success? ==> var c := LastCell(fetched.value, AllowedRadiusKey);
              s.allowedRadius == if c.None? || c.value == Text("") then Finite(100.0)
                                 else if c.value.NumberText? then c.value.number else ParseFloat(c.value.text)
  {
    if fetched.Failure? then DefaultSettings()
    else
      SettingsMapDomain(fetched.value);
      ReadTimeLast(fetched.value, WorkStartKey, "08:00");
      ReadTimeLast(fetched.value, WorkEndKey, "17:30");
      ReadNumberLast(fetched.value, OfficeLatKey, 0);
      ReadNumberLast(fetched.value, OfficeLngKey, 0);
      ReadNumberLast(fetched.value, AllowedRadiusKey, 100);
      ReadSettings(SettingsMap(fetched.value))
  }

  /** `saveSettings`: one row per key, empty times replaced by their defaults. */
  function SaveSettings(s: SystemSettings): (rows: seq<SettingRow>)
    ensures |rows| == 5
    ensures forall i :: 0 <= i < |rows| ==> rows[i].key in SettingsKeys()
  {
    [SettingRow(WorkStartKey, Text(if s.workStartTime == "" then "08:00" else s.workStartTime)),
     SettingRow(WorkEndKey, Text(if s.workEndTime == "" then "17:30" else s.workEndTime)),
     SettingRow(OfficeLatKey, NumberText(s.officeLat)),
     SettingRow(OfficeLngKey, NumberText(s.officeLng)),
     SettingRow(AllowedRadiusKey, NumberText(s.allowedRadius))]
  }

  /** `saveSettings` writes exactly the five keys `getSettings` reads, each once. */
  lemma SaveSettingsMap(s: SystemSettings)
    ensures SettingsMap(SaveSettings(s)) ==
              map[WorkStartKey := SaveSettings(s)[0].value, WorkEndKey := SaveSettings(s)[1].value,
                  OfficeLatKey := SaveSettings(s)[2].value, OfficeLngKey := SaveSettings(s)[3].value,
                  AllowedRadiusKey := SaveSettings(s)[4].value]
    ensures SettingsMap(SaveSettings(s)).Keys == SettingsKeys()
  {
    var rows := SaveSettings(s);
    assert rows[..0] == [];
    assert rows[..1][..0] == rows[..0];
    assert rows[..2][..1] == rows[..1];
    assert rows[..3][..2] == rows[..2];
    assert rows[..4][..3] == rows[..3];
    assert rows[..5] == rows;
    assert SettingsMap(rows[..1]) == map[WorkStartKey := rows[0].value];
    assert SettingsMap(rows[..2]) == map[WorkStartKey := rows[0].value, WorkEndKey := rows[1].value];
    assert SettingsMap(rows[..3]) == SettingsMap(rows[..2])[OfficeLatKey := rows[2].value];
    assert SettingsMap(rows[..4]) == SettingsMap(rows[..3])[OfficeLngKey := rows[3].value];
  }

  /** The settings table without the rows of the given keys. */
  function WithoutKeys(t: seq<SettingRow>, keys: set<string>): seq<SettingRow> {
    if t == [] then []
    else if t[0].key in keys then WithoutKeys(t[1..], keys)
    else [t[0]] + WithoutKeys(t[1..], keys)
  }

  /** Upserting rows on their key. */
  function UpsertSettings(t: seq<SettingRow>, rows: seq<SettingRow>): seq<SettingRow> {
    WithoutKeys(t, set i | 0 <= i < |rows| :: rows[i].key) + rows
  }

  /**
   * Saving settings and reading them back gives the same settings, except
   * that an empty work start or end time reads back as its default.
   */
  lemma SettingsRoundTrip(t: seq<SettingRow>, s: SystemSettings)
    ensures GetSettings(Success(UpsertSettings(t, SaveSettings(s)))) ==
              s.(workStartTime := if s.workStartTime == "" then "08:00" else s.workStartTime,
                 workEndTime := if s.workEndTime == "" then "17:30" else s.workEndTime)
  {
    var rows := SaveSettings(s);
    var kept := WithoutKeys(t, set i | 0 <= i < |rows| :: rows[i].key);
    var m := SettingsMap(kept + rows);
    SaveSettingsMap(s);
    SettingsMapAppend(kept, rows, WorkStartKey);
    SettingsMapAppend(kept, rows, WorkEndKey);
    SettingsMapAppend(kept, rows, OfficeLatKey);
    SettingsMapAppend(kept, rows, OfficeLngKey);
    SettingsMapAppend(kept, rows, AllowedRadiusKey);
    ReadSaved(m, s);
  }

  /** A map holding the five cells `saveSettings` writes reads back as the saved settings. */
  lemma ReadSaved(m: map<string, Cell>, s: SystemSettings)
    requires var rows := SaveSettings(s);
             WorkStartKey in m && m[WorkStartKey] == rows[0].value && WorkEndKey in m && m[WorkEndKey] == rows[1].value &&
             OfficeLatKey in m && m[OfficeLatKey] == rows[2].value && OfficeLngKey in m && m[OfficeLngKey] == rows[3].value &&
             AllowedRadiusKey in m && m[AllowedRadiusKey] == rows[4].value
    ensures ReadSettings(m) ==
              s.(workStartTime := if s.workStartTime == "" then "08:00" else s.workStartTime,
                 workEndTime := if s.workEndTime == "" then "17:30" else s.workEndTime)
  {
  }

  // ---------------------------------------------------------------- requests

  /** What a user submits: everything but the id, status and creation time. */
  datatype NewRequest = NewRequest(employeeId: string, kind: RequestType, startDate: string, endDate: string, reason: string)

  /** `createRequest`: the row inserted, always in status `pending`. */
  function CreateRequest(req: NewRequest, id: int): (r: Request)
    ensures r.status == Pending
    ensures r.employeeId == req.employeeId && r.kind == req.kind && r.reason == req.reason
    ensures r.startDate == req.startDate && r.endDate == req.endDate && r.id == id
  {
    Request(id, req.employeeId, None, req.kind, req.startDate, req.endDate, req.reason, Pending, None)
  }

  /** `updateRequestStatus`: only the status of the request with that id changes. */
  function UpdateRequestStatus(t: seq<Request>, id: int, status: RequestStatus): (t': seq<Request>)
    ensures |t'| == |t|
    ensures forall i :: 0 <= i < |t| ==> t'[i].(status := t[i].status) == t[i]
    ensures forall i :: 0 <= i < |t| ==> t'[i].status == if t[i].id == id then status else t[i].status
  {
    seq(|t|, i requires 0 <= i < |t| => if t[i].id == id then t[i].(status := status) else t[i])
  }

  // ---------------------------------------------------------------- schedules

  /** The `YYYY-MM-DD` text of a date, as schedule rows store it. */
  function DateText(year: int, month: nat, day: nat): string {
    IntToString(year) + "-" + PadStart2(month) + "-" + PadStart2(day)
  }

  /** `getSchedules`: the inclusive text range `YYYY-MM-01` .. `YYYY-MM-31` queried for a month. */
  function ScheduleRange(month: nat, year: int): (string, string) {
    var prefix := IntToString(year) + "-" + PadStart2(month) + "-";
    (prefix + "01", prefix + "31")
  }

  lemma ScheduleRangeShape(year: int, month: nat, m: nat, day: nat)
    ensures ScheduleRange(month, year).0 == (IntToString(year) + "-") + (PadStart2(month) + ("-" + PadStart2(1)))
    ensures ScheduleRange(month, year).1 == (IntToString(year) + "-") + (PadStart2(month) + ("-" + PadStart2(31)))
    ensures DateText(year, m, day) == (IntToString(year) + "-") + (PadStart2(m) + ("-" + PadStart2(day)))
  {
    PadStart2Constants();
    var y, mo := IntToString(year), PadStart2(month);
    StringAssoc(y, mo, "01");
    StringAssoc(y, mo, "31");
    StringAssoc(y, PadStart2(m), PadStart2(day));
  }

  /** `y + "-" + mo + "-" + d`, bracketed to the right. */
  lemma StringAssoc(y: string, mo: string, d: string)
    ensures y + "-" + mo + "-" + d == (y + "-") + (mo + ("-" + d))
  {
  }

  /** The padded day numbers the schedule range uses. */
  lemma PadStart2Constants()
    ensures PadStart2(1) == "01" && PadStart2(31) == "31"
  {
    assert NatToString(31) == NatToString(3) + [DigitChar(1)];
  }

  /** Within one month, the padded day decides the order. */
  lemma SameMonthOrder(month: nat, a: nat, b: nat)
    requires a < 100 && b < 100
    ensures LexLe(PadStart2(month) + ("-" + PadStart2(a)), PadStart2(month) + ("-" + PadStart2(b))) <==> a <= b
  {
    LexLeCommonPrefix(PadStart2(month), "-" + PadStart2(a), "-" + PadStart2(b));
    LexLeCommonPrefix("-", PadStart2(a), PadStart2(b));
    LexLePadStart2(a, b);
  }

  /** Across months, the padded month decides the order. */
  lemma OtherMonthOrder(m1: nat, m2: nat, x: string, y: string)
    requires m1 < 100 && m2 < 100 && m1 != m2
    ensures LexLe(PadStart2(m1) + x, PadStart2(m2) + y) <==> m1 < m2
  {
    assert DigitsValue(PadStart2(m1)) != DigitsValue(PadStart2(m2));
    LexLeDifferentPrefix(PadStart2(m1), x, PadStart2(m2), y);
    LexLePadStart2(m1, m2);
  }

  /**
   * The range holds every day of the month and no day of another month of
   * the same year.
   */
  lemma ScheduleRangeExact(year: int, month: nat, m: nat, day: nat)
    requires 1 <= month <= 12 && 1 <= m <= 12 && 1 <= day <= 31
    ensures (LexLe(ScheduleRange(month, year).0, DateText(year, m, day)) &&
             LexLe(DateText(year, m, day), ScheduleRange(month, year).1)) <==> m == month
  {
    var y := IntToString(year) + "-";
    var lo := PadStart2(month) + ("-" + PadStart2(1));
    var hi := PadStart2(month) + ("-" + PadStart2(31));
    var mid := PadStart2(m) + ("-" + PadStart2(day));
    ScheduleRangeShape(year, month, m, day);
    LexLeCommonPrefix(y, lo, mid);
    LexLeCommonPrefix(y, mid, hi);
    if m == month {
      SameMonthOrder(month, 1, day);
      SameMonthOrder(month, day, 31);
    } else {
      OtherMonthOrder(month, m, "-" + PadStart2(1), "-" + PadStart2(day));
      OtherMonthOrder(m, month, "-" + PadStart2(day), "-" + PadStart2(31));
    }
  }
}
