/** The alarm table: what one reading does to it, and what a whole run of readings leaves. */
module AlarmTable {
  import opened Models

  datatype AlarmType =
    | AlarmLowType | AlarmHighType | OverRangeType | FaultType | OfflineType | DisabledType | WarmingType

  /** ALARM_STATUS_TYPES; INVALID readings never reach the lookup. */
  function AlarmTypeOf(status: DeviceStatus): Option<AlarmType> {
    match status
    case AlarmLow => Some(AlarmLowType)
    case AlarmHigh => Some(AlarmHighType)
    case OverRange => Some(OverRangeType)
    case Fault => Some(FaultType)
    case Offline => Some(OfflineType)
    case Disabled => Some(DisabledType)
    case Warming => Some(WarmingType)
    case Normal => None
    case Invalid => None
  }

  /** The status that an alarm of this type stands for. */
  function StatusOf(alarmType: AlarmType): DeviceStatus {
    match alarmType
    case AlarmLowType => AlarmLow
    case AlarmHighType => AlarmHigh
    case OverRangeType => OverRange
    case FaultType => Fault
    case OfflineType => Offline
    case DisabledType => Disabled
    case WarmingType => Warming
  }

  /** Each status but NORMAL and INVALID opens an alarm of the one type that stands for it. */
  lemma {:induction false} TypeStandsForStatus(status: DeviceStatus, alarmType: AlarmType)
    ensures AlarmTypeOf(status) == Some(alarmType) <==> status == StatusOf(alarmType)
    ensures AlarmTypeOf(status) == None <==> status == Normal || status == Invalid
  {
  }

  /** A row without an end time has status 'active', one with an end time 'recovered'. */
  datatype AlarmRow = AlarmRow(
    detectorId: int,
    alarmType: AlarmType,
    alarmLevel: Option<nat>,
    triggerValue: Option<real>,
    startTime: int,
    endTime: Option<int>)
  {
    predicate Active() {
      endTime.None?
    }
  }

  /** Rows in order of creation; the row at index i has id i + 1. */
  type Table = seq<AlarmRow>

  /* ---------- The repository ---------- */

  predicate IsActive(row: AlarmRow, detectorId: int, alarmType: AlarmType) {
    row.Active() && row.detectorId == detectorId && row.alarmType == alarmType
  }

  /** recover_active: the table with every active row of that detector and type ended. */
  function Recover(table: Table, detectorId: int, alarmType: AlarmType, endTime: int): (t: Table)
    ensures |t| == |table|
  {
    seq(|table|, i requires 0 <= i < |table| =>
      if IsActive(table[i], detectorId, alarmType) then table[i].(endTime := Some(endTime)) else table[i])
  }

  /** active_for_detector: the indices of the active rows of a detector. */
  function ActiveOf(table: Table, detectorId: int): (ids: seq<nat>)
    ensures forall k :: 0 <= k < |ids| ==> ids[k] < |table|
    ensures forall k :: 0 <= k < |ids| ==> table[ids[k]].Active() && table[ids[k]].detectorId == detectorId
  {
    if |table| == 0 then []
    else
      var last := |table| - 1;
      ActiveOf(table[..last], detectorId)
      + if table[last].Active() && table[last].detectorId == detectorId then [last] else []
  }

  function FindActive(table: Table, detectorId: int, alarmType: AlarmType): (id: Option<nat>)
    ensures id.Some? ==> id.value < |table| && IsActive(table[id.value], detectorId, alarmType)
    ensures id.None? ==> forall i :: 0 <= i < |table| ==> !IsActive(table[i], detectorId, alarmType)
  {
    if |table| == 0 then None
    else
      var last := |table| - 1;
      if IsActive(table[last], detectorId, alarmType) then Some(last)
      else FindActive(table[..last], detectorId, alarmType)
  }

  function NewRow(r: DeviceReading, alarmType: AlarmType): AlarmRow {
    AlarmRow(r.detectorId, alarmType, r.alarmLevel, r.concentration, r.timestamp, None)
  }

  /* ---------- One reading ---------- */

  /** A reading ends its detector's active alarms of any other type. */
  predicate Ends(row: AlarmRow, r: DeviceReading) {
    row.Active() && row.detectorId == r.detectorId && AlarmTypeOf(r.status) != Some(row.alarmType)
  }

  function EndOthers(table: Table, r: DeviceReading): (t: Table)
    ensures |t| == |table|
  {
    seq(|table|, i requires 0 <= i < |table| =>
      if Ends(table[i], r) then table[i].(endTime := Some(r.timestamp)) else table[i])
  }

  /** What one pass of the loop in ingest_readings does to the table. */
  function IngestRow(table: Table, r: DeviceReading): Table {
    if r.status.Invalid? then table
    else
      var ended := EndOthers(table, r);
      match AlarmTypeOf(r.status)
      case None => ended
      case Some(alarmType) =>
        if FindActive(ended, r.detectorId, alarmType).Some? then ended
        else ended + [NewRow(r, alarmType)]
  }

  function Replay(readings: seq<DeviceReading>): Table
    decreases |readings|
  {
    if |readings| == 0 then []
    else IngestRow(Replay(readings[..|readings| - 1]), readings[|readings| - 1])
  }

  /* ---------- Run-length encoding, the reference ---------- */

  /** The readings of one detector that are not INVALID, in order. */
  function ReadingsOf(readings: seq<DeviceReading>, detectorId: int): (rs: seq<DeviceReading>)
    ensures forall k :: 0 <= k < |rs| ==> rs[k].detectorId == detectorId && !rs[k].status.Invalid?
    decreases |readings|
  {
    if |readings| == 0 then []
    else
      var last := readings[|readings| - 1];
      ReadingsOf(readings[..|readings| - 1], detectorId)
      + if last.detectorId == detectorId && !last.status.Invalid? then [last] else []
  }

  /** The length of the first run of equal statuses. */
  function RunLength(rs: seq<DeviceReading>): (k: nat)
    requires |rs| > 0
    ensures 1 <= k <= |rs|
    ensures forall i :: 0 <= i < k ==> rs[i].status == rs[0].status
    ensures k < |rs| ==> rs[k].status != rs[0].status
  {
    if |rs| == 1 || rs[1].status != rs[0].status then 1 else 1 + RunLength(rs[1..])
  }

  /** The row of a run that starts with first and is followed by next: start, level and
      trigger value from the first reading, end time from the reading that ends the run. */
  function RunRow(first: DeviceReading, next: Option<DeviceReading>): seq<AlarmRow> {
    match AlarmTypeOf(first.status)
    case None => []
    case Some(alarmType) =>
      [AlarmRow(first.detectorId, alarmType, first.alarmLevel, first.concentration, first.timestamp,
                if next.Some? then Some(next.value.timestamp) else None)]
  }

  /** One row a run, in order, NORMAL runs dropped. */
  function Runs(rs: seq<DeviceReading>): seq<AlarmRow>
    decreases |rs|
  {
    if |rs| == 0 then []
    else
      var k := RunLength(rs);
      RunRow(rs[0], if k < |rs| then Some(rs[k]) else None) + Runs(rs[k..])
  }

  /* ---------- The table of a detector is the encoding of its readings ---------- */

  function RowsOf(table: Table, detectorId: int): (rows: seq<AlarmRow>)
    ensures forall k :: 0 <= k < |rows| ==> rows[k].detectorId == detectorId
    decreases |table|
  {
    if |table| == 0 then []
    else
      var last := table[|table| - 1];
      RowsOf(table[..|table| - 1], detectorId) + if last.detectorId == detectorId then [last] else []
  }

  /** The rows of one detector after one more of its readings. */
  function Advance(rows: seq<AlarmRow>, x: DeviceReading): seq<AlarmRow> {
    var ended := EndOthers(rows, x);
    match AlarmTypeOf(x.status)
    case None => ended
    case Some(alarmType) =>
      if FindActive(ended, x.detectorId, alarmType).Some? then ended else ended + [NewRow(x, alarmType)]
  }

  lemma {:induction false} EndOthersRows(table: Table, r: DeviceReading, detectorId: int)
    ensures RowsOf(EndOthers(table, r), detectorId) == EndOthers(RowsOf(table, detectorId), r)
    decreases |table|
  {
    if |table| > 0 {
      var init := table[..|table| - 1];
      EndOthersRows(init, r, detectorId);
      assert EndOthers(table, r)[..|table| - 1] == EndOthers(init, r);
      var last := table[|table| - 1];
      assert EndOthers(table, r)[|table| - 1] == EndOthers([last], r)[0];
      EndOthersAppend(RowsOf(init, detectorId), [last], r);
    }
  }

  lemma {:induction false} EndOthersAppend(a: Table, b: Table, r: DeviceReading)
    ensures EndOthers(a + b, r) == EndOthers(a, r) + EndOthers(b, r)
  {
  }

  lemma {:induction false} FindActiveRows(table: Table, detectorId: int, alarmType: AlarmType)
    ensures FindActive(table, detectorId, alarmType).Some?
       <==> FindActive(RowsOf(table, detectorId), detectorId, alarmType).Some?
    decreases |table|
  {
    if |table| > 0 {
      var init, last := table[..|table| - 1], table[|table| - 1];
      FindActiveRows(init, detectorId, alarmType);
      var rows := RowsOf(table, detectorId);
      if last.detectorId == detectorId {
        assert rows == RowsOf(init, detectorId) + [last];
        assert rows[..|rows| - 1] == RowsOf(init, detectorId) && rows[|rows| - 1] == last;
      } else {
        assert rows == RowsOf(init, detectorId) && !IsActive(last, detectorId, alarmType);
      }
    }
  }

  /** A reading leaves the rows of other detectors alone. */
  lemma {:induction false} OtherRowsUntouched(rows: seq<AlarmRow>, r: DeviceReading)
    requires forall k :: 0 <= k < |rows| ==> rows[k].detectorId != r.detectorId
    ensures EndOthers(rows, r) == rows
  {}

  lemma {:induction false} RowsOfIngest(table: Table, r: DeviceReading, detectorId: int)
    ensures RowsOf(IngestRow(table, r), detectorId)
         == if r.detectorId == detectorId && !r.status.Invalid? then Advance(RowsOf(table, detectorId), r)
            else RowsOf(table, detectorId)
  {
    if !r.status.Invalid? {
      EndOthersRows(table, r, detectorId);
      var ended := EndOthers(table, r);
      match AlarmTypeOf(r.status)
      case None =>
      case Some(alarmType) =>
        FindActiveRows(ended, r.detectorId, alarmType);
        assert (ended + [NewRow(r, alarmType)])[..|ended|] == ended;
      if r.detectorId != detectorId {
        OtherRowsUntouched(RowsOf(table, detectorId), r);
      }
    }
  }

  lemma {:induction false} RunLengthIs(rs: seq<DeviceReading>, k: nat)
    requires 1 <= k <= |rs|
    requires forall i :: 0 <= i < k ==> rs[i].status == rs[0].status
    requires k < |rs| ==> rs[k].status != rs[0].status
    ensures RunLength(rs) == k
  {
    if k > 1 {
      assert rs[1].status == rs[0].status;
      RunLengthIs(rs[1..], k - 1);
    }
  }

  lemma {:induction false} FindActiveConcat(p: Table, q: Table, detectorId: int, alarmType: AlarmType)
    requires forall k :: 0 <= k < |p| ==> !p[k].Active()
    ensures FindActive(p + q, detectorId, alarmType).Some? <==> FindActive(q, detectorId, alarmType).Some?
    decreases |q|
  {
    if |q| == 0 {
      assert p + q == p;
    } else {
      assert (p + q)[..|p + q| - 1] == p + q[..|q| - 1];
      FindActiveConcat(p, q[..|q| - 1], detectorId, alarmType);
    }
  }

  /** Rows already ended take no part in what the next reading does. */
  lemma {:induction false} AdvancePastEnded(p: seq<AlarmRow>, q: seq<AlarmRow>, x: DeviceReading)
    requires forall k :: 0 <= k < |p| ==> !p[k].Active()
    ensures Advance(p + q, x) == p + Advance(q, x)
  {
    EndOthersAppend(p, q, x);
    assert EndOthers(p, x) == p;
    match AlarmTypeOf(x.status)
    case None =>
    case Some(alarmType) => FindActiveConcat(p, EndOthers(q, x), x.detectorId, alarmType);
  }

  predicate SameDetector(rs: seq<DeviceReading>, detectorId: int) {
    forall k :: 0 <= k < |rs| ==> rs[k].detectorId == detectorId && !rs[k].status.Invalid?
  }

  /** One more reading after a single run. */
  lemma {:induction false} AdvanceSingleRun(first: DeviceReading, x: DeviceReading)
    requires SameDetector([first, x], x.detectorId)
    ensures Advance(RunRow(first, None), x)
         == if first.status == x.status then RunRow(first, None) else RunRow(first, Some(x)) + RunRow(x, None)
  {
    assert [first, x][0] == first && [first, x][1] == x;
    var rows := RunRow(first, None);
    var ended := EndOthers(rows, x);
    if first.status == x.status {
      assert ended == rows;
    } else {
      assert ended == RunRow(first, Some(x));
    }
  }

  lemma {:induction false} RunsOfOne(x: DeviceReading)
    ensures Runs([x]) == RunRow(x, None)
  {
    assert [x][1..] == [];
  }

  lemma {:induction false} RunsExtendSingle(rs: seq<DeviceReading>, x: DeviceReading)
    requires |rs| > 0 && RunLength(rs) == |rs|
    requires SameDetector(rs, x.detectorId) && !x.status.Invalid?
    ensures Runs(rs + [x]) == Advance(Runs(rs), x)
  {
    var all := rs + [x];
    assert rs[|rs|..] == [];
    assert Runs(rs) == RunRow(rs[0], None);
    AdvanceSingleRun(rs[0], x);
    if x.status == rs[0].status {
      RunLengthIs(all, |all|);
      assert all[|all|..] == [];
    } else {
      RunLengthIs(all, |rs|);
      assert all[|rs|..] == [x];
      RunsOfOne(x);
    }
  }

  /** The encoding of one more reading. */
  lemma {:induction false} RunsExtend(rs: seq<DeviceReading>, x: DeviceReading)
    requires SameDetector(rs, x.detectorId) && !x.status.Invalid?
    ensures Runs(rs + [x]) == Advance(Runs(rs), x)
    decreases |rs|
  {
    if |rs| == 0 {
      assert rs + [x] == [x];
      RunsOfOne(x);
    } else if RunLength(rs) == |rs| {
      RunsExtendSingle(rs, x);
    } else {
      var k := RunLength(rs);
      var all := rs + [x];
      assert Runs(all) == RunRow(rs[0], Some(rs[k])) + Runs(rs[k..] + [x]) by {
        RunLengthIs(all, k);
        assert all[k..] == rs[k..] + [x];
      }
      RunsExtend(rs[k..], x);
      AdvancePastEnded(RunRow(rs[0], Some(rs[k])), Runs(rs[k..]), x);
    }
  }

  /** Whether a reading takes part in the history of a detector. */
  predicate Concerns(r: DeviceReading, detectorId: int) {
    r.detectorId == detectorId && !r.status.Invalid?
  }

  lemma {:induction false} ReplayStep(init: seq<DeviceReading>, last: DeviceReading, detectorId: int)
    ensures RowsOf(Replay(init + [last]), detectorId)
         == if Concerns(last, detectorId) then Advance(RowsOf(Replay(init), detectorId), last)
            else RowsOf(Replay(init), detectorId)
  {
    assert (init + [last])[..|init|] == init;
    RowsOfIngest(Replay(init), last, detectorId);
  }

  lemma {:induction false} RunsStep(init: seq<DeviceReading>, last: DeviceReading, detectorId: int)
    ensures Runs(ReadingsOf(init + [last], detectorId))
         == if Concerns(last, detectorId) then Advance(Runs(ReadingsOf(init, detectorId)), last)
            else Runs(ReadingsOf(init, detectorId))
  {
    assert (init + [last])[..|init|] == init;
    if Concerns(last, detectorId) {
      RunsExtend(ReadingsOf(init, detectorId), last);
    } else {
      assert ReadingsOf(init + [last], detectorId) == ReadingsOf(init, detectorId);
    }
  }

  /** The rows of a detector, in order of creation, are the run-length encoding of its
      readings that are not INVALID, whatever came between them. */
  lemma {:induction false} RowsAreRuns(readings: seq<DeviceReading>, detectorId: int)
    ensures RowsOf(Replay(readings), detectorId) == Runs(ReadingsOf(readings, detectorId))
    decreases |readings|
  {
    if |readings| > 0 {
      var init, last := readings[..|readings| - 1], readings[|readings| - 1];
      assert readings == init + [last];
      RowsAreRuns(init, detectorId);
      ReplayStep(init, last, detectorId);
      RunsStep(init, last, detectorId);
    }
  }

  /** Interleaving does not matter: the rows of a detector depend on its own readings only. */
  lemma {:induction false} InterleavingDoesNotMatter(h1: seq<DeviceReading>, h2: seq<DeviceReading>, detectorId: int)
    requires ReadingsOf(h1, detectorId) == ReadingsOf(h2, detectorId)
    ensures RowsOf(Replay(h1), detectorId) == RowsOf(Replay(h2), detectorId)
  {
    RowsAreRuns(h1, detectorId);
    RowsAreRuns(h2, detectorId);
  }

  /* ---------- Which rows are active ---------- */

  /** The types of the active rows of a detector. */
  function ActiveTypes(table: Table, detectorId: int): set<AlarmType> {
    set i | 0 <= i < |table| && table[i].Active() && table[i].detectorId == detectorId :: table[i].alarmType
  }

  /** At most one row is active, and then it is the last. */
  predicate OnlyLastActive(rows: seq<AlarmRow>) {
    forall k :: 0 <= k < |rows| - 1 ==> !rows[k].Active()
  }

  /** Only the last row may be active, and it is iff the last status raises an alarm. */
  predicate ActiveAsLast(rows: seq<AlarmRow>, last: DeviceReading) {
    && OnlyLastActive(rows)
    && (match AlarmTypeOf(last.status)
        case Some(alarmType) => |rows| > 0 && IsActive(rows[|rows| - 1], last.detectorId, alarmType)
        case None => |rows| > 0 ==> !rows[|rows| - 1].Active())
  }

  lemma {:induction false} EndedThen(ended: seq<AlarmRow>, rows: seq<AlarmRow>, last: DeviceReading)
    requires (forall i :: 0 <= i < |ended| ==> !ended[i].Active()) && ActiveAsLast(rows, last)
    ensures ActiveAsLast(ended + rows, last)
  {
    if |rows| > 0 {
      assert (ended + rows)[|ended + rows| - 1] == rows[|rows| - 1];
    } else {
      assert ended + rows == ended;
    }
  }

  lemma {:induction false} OpenRunActive(first: DeviceReading, last: DeviceReading)
    requires first.status == last.status && first.detectorId == last.detectorId
    ensures ActiveAsLast(RunRow(first, None), last)
  {
  }

  lemma {:induction false} RunsActive(rs: seq<DeviceReading>, detectorId: int)
    requires |rs| > 0 && SameDetector(rs, detectorId)
    ensures ActiveAsLast(Runs(rs), rs[|rs| - 1])
    decreases |rs|
  {
    var k, last := RunLength(rs), rs[|rs| - 1];
    if k < |rs| {
      var rest := rs[k..];
      assert rest[|rest| - 1] == last;
      RunsActive(rest, detectorId);
      EndedThen(RunRow(rs[0], Some(rs[k])), Runs(rest), last);
    } else {
      assert rs[k..] == [] && Runs(rs) == RunRow(rs[0], None);
      OpenRunActive(rs[0], last);
    }
  }

  lemma {:induction false} RowsOfContains(table: Table, detectorId: int, i: nat) returns (k: nat)
    requires i < |table| && table[i].detectorId == detectorId
    ensures k < |RowsOf(table, detectorId)| && RowsOf(table, detectorId)[k] == table[i]
    decreases |table|
  {
    if i == |table| - 1 {
      k := |RowsOf(table, detectorId)| - 1;
    } else {
      k := RowsOfContains(table[..|table| - 1], detectorId, i);
    }
  }

  lemma {:induction false} RowsOfFrom(table: Table, detectorId: int, k: nat) returns (i: nat)
    requires k < |RowsOf(table, detectorId)|
    ensures i < |table| && table[i] == RowsOf(table, detectorId)[k]
    decreases |table|
  {
    var init := RowsOf(table[..|table| - 1], detectorId);
    if k < |init| {
      i := RowsOfFrom(table[..|table| - 1], detectorId, k);
    } else {
      i := |table| - 1;
    }
  }

  lemma {:induction false} ActiveTypesOfRows(table: Table, detectorId: int)
    ensures ActiveTypes(table, detectorId) == ActiveTypes(RowsOf(table, detectorId), detectorId)
  {
    var rows := RowsOf(table, detectorId);
    forall t | t in ActiveTypes(table, detectorId)
      ensures t in ActiveTypes(rows, detectorId)
    {
      var i :| 0 <= i < |table| && table[i].Active() && table[i].detectorId == detectorId && table[i].alarmType == t;
      var k := RowsOfContains(table, detectorId, i);
      assert rows[k].Active();
    }
    forall t | t in ActiveTypes(rows, detectorId)
      ensures t in ActiveTypes(table, detectorId)
    {
      var k :| 0 <= k < |rows| && rows[k].Active() && rows[k].detectorId == detectorId && rows[k].alarmType == t;
      var i := RowsOfFrom(table, detectorId, k);
      assert table[i].Active();
    }
  }

  /** The alarms a status raises: one, or none. */
  function AlarmImage(status: DeviceStatus): set<AlarmType> {
    var t := AlarmTypeOf(status);
    if t.Some? then {t.value} else {}
  }

  lemma {:induction false} ActiveTypesOfRuns(rs: seq<DeviceReading>, detectorId: int)
    requires |rs| > 0 && SameDetector(rs, detectorId)
    ensures ActiveTypes(Runs(rs), detectorId) == AlarmImage(rs[|rs| - 1].status)
  {
    RunsActive(rs, detectorId);
    var rows := Runs(rs);
    if |rows| > 0 && rows[|rows| - 1].Active() {
      assert rows[|rows| - 1].alarmType in ActiveTypes(rows, detectorId);
    }
  }

  function ImageOfLast(rs: seq<DeviceReading>): set<AlarmType> {
    if |rs| == 0 then {} else AlarmImage(rs[|rs| - 1].status)
  }

  /** The active alarms of a detector are exactly those of its last reading that was not
      INVALID; before the first such reading there are none. */
  lemma {:induction false} ActiveIsImageOfLast(readings: seq<DeviceReading>, detectorId: int)
    ensures ActiveTypes(Replay(readings), detectorId) == ImageOfLast(ReadingsOf(readings, detectorId))
  {
    var rs := ReadingsOf(readings, detectorId);
    RowsAreRuns(readings, detectorId);
    ActiveTypesOfRows(Replay(readings), detectorId);
    if |rs| > 0 {
      ActiveTypesOfRuns(rs, detectorId);
    }
  }

  /** A detector never has two active rows. */
  lemma {:induction false} AtMostOneActive(readings: seq<DeviceReading>, i: nat, j: nat)
    requires i < j < |Replay(readings)|
    requires Replay(readings)[i].Active() && Replay(readings)[j].Active()
    ensures Replay(readings)[i].detectorId != Replay(readings)[j].detectorId
  {
    var table := Replay(readings);
    var d := table[i].detectorId;
    if table[j].detectorId == d {
      RowsAreRuns(readings, d);
      var a, b := RowsOfOrdered(table, d, i, j);
      if |ReadingsOf(readings, d)| > 0 {
        RunsActive(ReadingsOf(readings, d), d);
      }
    }
  }

  lemma {:induction false} RowsOfOrdered(table: Table, detectorId: int, i: nat, j: nat) returns (a: nat, b: nat)
    requires i < j < |table| && table[i].detectorId == table[j].detectorId == detectorId
    ensures a < b < |RowsOf(table, detectorId)|
    ensures RowsOf(table, detectorId)[a] == table[i] && RowsOf(table, detectorId)[b] == table[j]
    decreases |table|
  {
    if j == |table| - 1 {
      a := RowsOfContains(table[..j], detectorId, i);
      b := |RowsOf(table, detectorId)| - 1;
    } else {
      a, b := RowsOfOrdered(table[..|table| - 1], detectorId, i, j);
    }
  }
}
