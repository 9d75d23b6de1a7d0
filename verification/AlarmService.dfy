/** AlarmService.ingest_readings: the alarm table, the linkage it triggers, and the ledger
    it returns. One call is one committed transaction. */
module AlarmService {
  import opened Models
  import opened AlarmTable
  import opened Linkage

  datatype Transition = Transition(detectorId: int, alarmType: AlarmType, alarmId: nat)

  /** The tables and the four parts of AlarmProcessResult. */
  datatype Ledger = Ledger(
    alarms: Table,
    records: seq<LinkageRecord>,
    created: seq<Transition>,
    recovered: seq<Transition>,
    linkageIds: seq<nat>,
    ignored: nat)

  /** The indices of the rows that r ends. */
  function EndedBy(table: Table, r: DeviceReading): (ids: seq<nat>)
    ensures forall k :: 0 <= k < |ids| ==> ids[k] < |table|
  {
    if |table| == 0 then []
    else
      var last := |table| - 1;
      EndedBy(table[..last], r) + if Ends(table[last], r) then [last] else []
  }

  function Recoveries(table: Table, ids: seq<nat>): seq<Transition>
    requires forall k :: 0 <= k < |ids| ==> ids[k] < |table|
  {
    seq(|ids|, k requires 0 <= k < |ids| =>
      Transition(table[ids[k]].detectorId, table[ids[k]].alarmType, ids[k] + 1))
  }

  /** a, a + 1, ..., b - 1 */
  function Range(a: nat, b: nat): (s: seq<nat>)
    requires a <= b
    ensures |s| == b - a
  {
    seq(b - a, i requires 0 <= i < b - a => a + i)
  }

  /** One pass of the loop over the readings. */
  function IngestOne(s: Ledger, config: Config, r: DeviceReading): Ledger {
    if r.status.Invalid? then s.(ignored := s.ignored + 1)
    else
      var ended := EndOthers(s.alarms, r);
      var recovered := s.recovered + Recoveries(s.alarms, EndedBy(s.alarms, r));
      match AlarmTypeOf(r.status)
      case None => s.(alarms := ended, recovered := recovered)
      case Some(alarmType) =>
        if FindActive(ended, r.detectorId, alarmType).Some? then s.(alarms := ended, recovered := recovered)
        else
          var alarmId := |ended| + 1;
          var rules := Matching(config, config.rules, r.detectorId, alarmType, r.alarmLevel);
          var records := AddAll(s.records, alarmId, rules);
          Ledger(ended + [NewRow(r, alarmType)], records,
                 s.created + [Transition(r.detectorId, alarmType, alarmId)], recovered,
                 s.linkageIds + Range(|s.records| + 1, |records| + 1), s.ignored)
  }

  function IngestAll(s: Ledger, config: Config, readings: seq<DeviceReading>): Ledger
    decreases |readings|
  {
    if |readings| == 0 then s
    else IngestOne(IngestAll(s, config, readings[..|readings| - 1]), config, readings[|readings| - 1])
  }

  function Opening(alarms: Table, records: seq<LinkageRecord>): Ledger {
    Ledger(alarms, records, [], [], [], 0)
  }

  /* ---------- The service ---------- */

  class AlarmService {
    var alarms: Table
    var records: seq<LinkageRecord>
    var config: Config
    ghost var history: seq<DeviceReading>

    ghost predicate Valid()
      reads this
    {
      && alarms == Replay(history)
      && RuleIdsDistinct(config.rules)
      && AutomaticOnce(records)
      && AlarmIdsBelow(records, |alarms|)
    }

    constructor (config: Config)
      requires RuleIdsDistinct(config.rules)
      ensures Valid() && history == [] && records == [] && this.config == config
    {
      alarms, records, history := [], [], [];
      this.config := config;
    }

    /** Rules and objects may be edited between two batches. */
    method Reconfigure(newConfig: Config)
      requires Valid() && RuleIdsDistinct(newConfig.rules)
      modifies this`config
      ensures Valid() && config == newConfig
    {
      config := newConfig;
    }

    /** AlarmRepository.recover_active */
    method RecoverActive(detectorId: int, alarmType: AlarmType, endTime: int) returns (changed: bool)
      modifies this`alarms
      ensures alarms == Recover(old(alarms), detectorId, alarmType, endTime)
      ensures changed <==> FindActive(old(alarms), detectorId, alarmType).Some?
    {
      changed := FindActive(alarms, detectorId, alarmType).Some?;
      alarms := Recover(alarms, detectorId, alarmType, endTime);
    }

    /** AlarmRepository.create_active */
    method CreateActive(r: DeviceReading, alarmType: AlarmType) returns (alarmId: nat, created: bool)
      modifies this`alarms
      ensures created <==> FindActive(old(alarms), r.detectorId, alarmType).None?
      ensures created ==> alarms == old(alarms) + [NewRow(r, alarmType)] && alarmId == |alarms|
      ensures !created ==> alarms == old(alarms) && 0 < alarmId <= |alarms|
      ensures !created ==> IsActive(alarms[alarmId - 1], r.detectorId, alarmType)
    {
      var existing := FindActive(alarms, r.detectorId, alarmType);
      if existing.Some? {
        return existing.value + 1, false;
      }
      alarms := alarms + [NewRow(r, alarmType)];
      return |alarms|, true;
    }

    /** LinkageService.trigger_for_alarm */
    method TriggerForAlarm(alarmId: nat, r: DeviceReading, alarmType: AlarmType) returns (ids: seq<nat>)
      modifies this`records
      ensures records == AddAll(old(records), alarmId,
                                Matching(config, config.rules, r.detectorId, alarmType, r.alarmLevel))
      ensures ids == Range(|old(records)| + 1, |records| + 1)
    {
      var rules := Matching(config, config.rules, r.detectorId, alarmType, r.alarmLevel);
      ids := [];
      for k := 0 to |rules|
        invariant records == AddAll(old(records), alarmId, rules[..k])
        invariant ids == Range(|old(records)| + 1, |records| + 1)
      {
        assert rules[..k + 1][..k] == rules[..k];
        if !HasAutomatic(records, alarmId, rules[k].id) {
          records := records + [AutomaticRecord(alarmId, rules[k])];
          ids := ids + [|records|];
        }
      }
      assert rules[..|rules|] == rules;
    }

    /** The recovery loop over the rows that were active when the reading arrived. */
    method RecoverOthers(r: DeviceReading) returns (recovered: seq<Transition>)
      requires alarms == Replay(history)
      modifies this`alarms
      ensures alarms == EndOthers(old(alarms), r)
      ensures recovered == Recoveries(old(alarms), EndedBy(old(alarms), r))
    {
      var active := ActiveOf(alarms, r.detectorId);
      ghost var table := alarms;
      RecoveryPlan(history, r);
      recovered := [];
      for k := 0 to |active|
        invariant k == 0 ==> alarms == table && recovered == []
        invariant k == 1 ==> alarms == EndOthers(table, r) && recovered == Recoveries(table, EndedBy(table, r))
      {
        var row := alarms[active[k]];
        if AlarmTypeOf(r.status) != Some(row.alarmType) {
          var changed := RecoverActive(r.detectorId, row.alarmType, r.timestamp);
          if changed {
            recovered := recovered + [Transition(r.detectorId, row.alarmType, active[k] + 1)];
          }
        }
      }
    }

    /** One pass of the loop over the readings, extending the four parts of the result. */
    method IngestReading(r: DeviceReading, created: seq<Transition>, recovered: seq<Transition>,
                         linkageIds: seq<nat>, ignored: nat)
      returns (created': seq<Transition>, recovered': seq<Transition>, linkageIds': seq<nat>, ignored': nat)
      requires Valid()
      modifies this`alarms, this`records, this`history
      ensures Valid() && history == old(history) + [r]
      ensures Ledger(alarms, records, created', recovered', linkageIds', ignored')
           == IngestOne(Ledger(old(alarms), old(records), created, recovered, linkageIds, ignored), config, r)
    {
      created', recovered', linkageIds', ignored' := created, recovered, linkageIds, ignored;
      ghost var before := Ledger(alarms, records, created, recovered, linkageIds, ignored);
      IngestKeepsTables(before, config, r);
      ReplayMore(history, r);
      if r.status.Invalid? {
        ignored' := ignored + 1;
      } else {
        var ended := RecoverOthers(r);
        recovered' := recovered + ended;
        var alarmType := AlarmTypeOf(r.status);
        if alarmType.Some? {
          var alarmId, wasCreated := CreateActive(r, alarmType.value);
          if wasCreated {
            created' := created + [Transition(r.detectorId, alarmType.value, alarmId)];
            var ids := TriggerForAlarm(alarmId, r, alarmType.value);
            linkageIds' := linkageIds + ids;
          }
        }
      }
      history := history + [r];
    }

    method IngestReadings(readings: seq<DeviceReading>)
      returns (created: seq<Transition>, recovered: seq<Transition>, linkageIds: seq<nat>, ignored: nat)
      requires Valid()
      modifies this`alarms, this`records, this`history
      ensures Valid() && history == old(history) + readings
      ensures Ledger(alarms, records, created, recovered, linkageIds, ignored)
           == IngestAll(Opening(old(alarms), old(records)), config, readings)
    {
      created, recovered, linkageIds, ignored := [], [], [], 0;
      for i := 0 to |readings|
        invariant Valid() && history == old(history) + readings[..i]
        invariant Ledger(alarms, records, created, recovered, linkageIds, ignored)
               == IngestAll(Opening(old(alarms), old(records)), config, readings[..i])
      {
        created, recovered, linkageIds, ignored :=
          IngestReading(readings[i], created, recovered, linkageIds, ignored);
        assert readings[..i + 1][..i] == readings[..i];
      }
      assert readings[..|readings|] == readings;
    }
  }

  /* ---------- Lemmas the methods use ---------- */

  lemma {:induction false} ReplayMore(history: seq<DeviceReading>, r: DeviceReading)
    ensures Replay(history + [r]) == IngestRow(Replay(history), r)
  {
    assert (history + [r])[..|history|] == history;
  }

  /** One reading keeps the record table unique and within the alarms that exist. */
  lemma {:induction false} IngestKeepsTables(s: Ledger, config: Config, r: DeviceReading)
    requires AutomaticOnce(s.records) && AlarmIdsBelow(s.records, |s.alarms|) && RuleIdsDistinct(config.rules)
    ensures var t := IngestOne(s, config, r);
            && t.alarms == IngestRow(s.alarms, r)
            && AutomaticOnce(t.records)
            && AlarmIdsBelow(t.records, |t.alarms|)
  {
    if !r.status.Invalid? && AlarmTypeOf(r.status).Some? {
      var alarmType := AlarmTypeOf(r.status).value;
      var rules := Matching(config, config.rules, r.detectorId, alarmType, r.alarmLevel);
      MatchingDistinct(config, config.rules, r.detectorId, alarmType, r.alarmLevel);
      FreshAlarmGetsOneRecordPerRule(s.records, |s.alarms| + 1, rules);
      AddAllKeepsUnique(s.records, |s.alarms| + 1, rules);
    }
  }

  lemma {:induction false} ActiveOfAt(table: Table, detectorId: int, i: nat)
    requires i < |table| && table[i].Active() && table[i].detectorId == detectorId
    ensures i in ActiveOf(table, detectorId)
    decreases |table|
  {
    var init := ActiveOf(table[..|table| - 1], detectorId);
    var ids := ActiveOf(table, detectorId);
    if i < |table| - 1 {
      ActiveOfAt(table[..|table| - 1], detectorId, i);
      assert ids == init || ids == init + [|table| - 1];
    } else {
      assert ids == init + [i];
    }
  }

  predicate Increasing(ids: seq<nat>) {
    forall a, b :: 0 <= a < b < |ids| ==> ids[a] < ids[b]
  }

  lemma {:induction false} ActiveOfIncreasing(table: Table, detectorId: int)
    ensures Increasing(ActiveOf(table, detectorId))
    decreases |table|
  {
    if |table| > 0 {
      var last := |table| - 1;
      var init := ActiveOf(table[..last], detectorId);
      ActiveOfIncreasing(table[..last], detectorId);
      assert forall k :: 0 <= k < |init| ==> init[k] < last;
      assert Increasing(init + [last]);
    }
  }

  lemma {:induction false} EndedByNone(table: Table, r: DeviceReading)
    requires forall j :: 0 <= j < |table| ==> !Ends(table[j], r)
    ensures EndedBy(table, r) == []
    decreases |table|
  {
    if |table| > 0 {
      EndedByNone(table[..|table| - 1], r);
    }
  }

  lemma {:induction false} EndedByAt(table: Table, r: DeviceReading, i: nat)
    requires i < |table|
    requires forall j :: 0 <= j < |table| && j != i ==> !Ends(table[j], r)
    ensures EndedBy(table, r) == if Ends(table[i], r) then [i] else []
    decreases |table|
  {
    if i < |table| - 1 {
      EndedByAt(table[..|table| - 1], r, i);
    } else {
      EndedByNone(table[..i], r);
    }
  }

  /** No active row but possibly row i belongs to the detector. */
  predicate OnlyActive(table: Table, detectorId: int, i: nat) {
    forall j :: 0 <= j < |table| && table[j].Active() && table[j].detectorId == detectorId ==> j == i
  }

  lemma {:induction false} NothingToRecover(table: Table, r: DeviceReading)
    requires forall j :: 0 <= j < |table| ==> !Ends(table[j], r)
    ensures EndOthers(table, r) == table && Recoveries(table, EndedBy(table, r)) == []
  {
    EndedByNone(table, r);
  }

  /** With one active row, ending every other type is recovering that row's type. */
  lemma {:induction false} RecoverSingle(table: Table, i: nat, r: DeviceReading)
    requires i < |table| && table[i].Active() && table[i].detectorId == r.detectorId
    requires OnlyActive(table, r.detectorId, i)
    requires AlarmTypeOf(r.status) != Some(table[i].alarmType)
    ensures EndOthers(table, r) == Recover(table, r.detectorId, table[i].alarmType, r.timestamp)
    ensures Recoveries(table, EndedBy(table, r)) == [Transition(r.detectorId, table[i].alarmType, i + 1)]
    ensures FindActive(table, r.detectorId, table[i].alarmType).Some?
  {
    EndedByAt(table, r, i);
    assert IsActive(table[i], r.detectorId, table[i].alarmType);
  }

  lemma {:induction false} ActiveOfIsSingle(history: seq<DeviceReading>, detectorId: int)
    ensures var ids := ActiveOf(Replay(history), detectorId);
            && |ids| <= 1
            && OnlyActive(Replay(history), detectorId, if |ids| == 1 then ids[0] else |Replay(history)|)
  {
    var table := Replay(history);
    var ids := ActiveOf(table, detectorId);
    ActiveOfIncreasing(table, detectorId);
    if |ids| > 1 {
      AtMostOneActive(history, ids[0], ids[1]);
    }
    forall j | 0 <= j < |table| && table[j].Active() && table[j].detectorId == detectorId
      ensures |ids| == 1 && j == ids[0]
    {
      ActiveOfAt(table, detectorId, j);
    }
  }

  /** What the recovery loop has to do, for a table that a run of readings left. */
  lemma {:induction false} RecoveryPlan(history: seq<DeviceReading>, r: DeviceReading)
    ensures var table := Replay(history);
            var active := ActiveOf(table, r.detectorId);
            && |active| <= 1
            && (|active| == 1 && AlarmTypeOf(r.status) != Some(table[active[0]].alarmType)
                ==> (&& EndOthers(table, r) == Recover(table, r.detectorId, table[active[0]].alarmType, r.timestamp)
                     && Recoveries(table, EndedBy(table, r))
                        == [Transition(r.detectorId, table[active[0]].alarmType, active[0] + 1)]
                     && FindActive(table, r.detectorId, table[active[0]].alarmType).Some?))
            && (|active| == 0 || AlarmTypeOf(r.status) == Some(table[active[0]].alarmType)
                ==> EndOthers(table, r) == table && Recoveries(table, EndedBy(table, r)) == [])
  {
    var table := Replay(history);
    var active := ActiveOf(table, r.detectorId);
    ActiveOfIsSingle(history, r.detectorId);
    if |active| == 1 && AlarmTypeOf(r.status) != Some(table[active[0]].alarmType) {
      RecoverSingle(table, active[0], r);
    } else {
      NothingToRecover(table, r);
    }
  }

  /* ---------- The ledger of a batch ---------- */

  function ActiveCount(table: Table): nat
    decreases |table|
  {
    if |table| == 0 then 0
    else ActiveCount(table[..|table| - 1]) + if table[|table| - 1].Active() then 1 else 0
  }

  lemma {:induction false} EndingCounts(table: Table, r: DeviceReading)
    ensures ActiveCount(EndOthers(table, r)) + |EndedBy(table, r)| == ActiveCount(table)
    decreases |table|
  {
    if |table| > 0 {
      EndingCounts(table[..|table| - 1], r);
      assert EndOthers(table, r)[..|table| - 1] == EndOthers(table[..|table| - 1], r);
    }
  }

  lemma {:induction false} OneReadingBalances(s: Ledger, config: Config, r: DeviceReading)
    ensures var t := IngestOne(s, config, r);
            ActiveCount(t.alarms) + |t.recovered| + |s.created| == ActiveCount(s.alarms) + |t.created| + |s.recovered|
  {
    if !r.status.Invalid? {
      EndingCounts(s.alarms, r);
      var ended := EndOthers(s.alarms, r);
      var alarmType := AlarmTypeOf(r.status);
      if alarmType.Some? {
        assert (ended + [NewRow(r, alarmType.value)])[..|ended|] == ended;
      }
    }
  }

  /** Over any batch: active alarms after = active before + created - recovered. */
  lemma {:induction false} BatchBalances(alarms: Table, records: seq<LinkageRecord>, config: Config,
                                         readings: seq<DeviceReading>)
    ensures var t := IngestAll(Opening(alarms, records), config, readings);
            ActiveCount(t.alarms) + |t.recovered| == ActiveCount(alarms) + |t.created|
    decreases |readings|
  {
    if |readings| > 0 {
      var init := readings[..|readings| - 1];
      BatchBalances(alarms, records, config, init);
      OneReadingBalances(IngestAll(Opening(alarms, records), config, init), config, readings[|readings| - 1]);
    }
  }

  /** The automatic records of an alarm, one for each rule that matched it. */
  predicate LinkedTo(records: seq<LinkageRecord>, config: Config, row: AlarmRow, alarmId: nat) {
    forall rule :: rule in config.rules ==>
      (HasAutomatic(records, alarmId, rule.id)
       <==> Matches(config, rule, row.detectorId, row.alarmType, row.alarmLevel))
  }

  lemma {:induction false} FreshAlarmIsLinked(records: seq<LinkageRecord>, config: Config, row: AlarmRow, alarmId: nat)
    requires RuleIdsDistinct(config.rules)
    requires forall i :: 0 <= i < |records| ==> records[i].alarmId != Some(alarmId)
    ensures var ms := Matching(config, config.rules, row.detectorId, row.alarmType, row.alarmLevel);
            LinkedTo(AddAll(records, alarmId, ms), config, row, alarmId)
  {
    var ms := Matching(config, config.rules, row.detectorId, row.alarmType, row.alarmLevel);
    MatchingDistinct(config, config.rules, row.detectorId, row.alarmType, row.alarmLevel);
    FreshAlarmGetsOneRecordPerRule(records, alarmId, ms);
    var after := AddAll(records, alarmId, ms);
    forall rule | rule in config.rules
      ensures HasAutomatic(after, alarmId, rule.id)
              <==> Matches(config, rule, row.detectorId, row.alarmType, row.alarmLevel)
    {
      if Matches(config, rule, row.detectorId, row.alarmType, row.alarmLevel) {
        assert rule in ms;
        var k :| 0 <= k < |ms| && ms[k] == rule;
        assert IsAutomatic(after[|records| + k], alarmId, rule.id);
      }
      if i :| 0 <= i < |after| && IsAutomatic(after[i], alarmId, rule.id) {
        assert i >= |records|;
        assert after[i] == AutomaticRecord(alarmId, ms[i - |records|]);
        assert ms[i - |records|] in ms;
        SameIdSameRule(config.rules, rule, ms[i - |records|]);
      }
    }
  }

  lemma {:induction false} SameIdSameRule(rules: seq<Rule>, a: Rule, b: Rule)
    requires RuleIdsDistinct(rules) && a in rules && b in rules && a.id == b.id
    ensures a == b
  {
    var i :| 0 <= i < |rules| && rules[i] == a;
    var j :| 0 <= j < |rules| && rules[j] == b;
  }

  /** Later inserts never concern an alarm that is already there. */
  lemma {:induction false} LinkedStays(
    records: seq<LinkageRecord>, alarmId: nat, other: nat, rules: seq<Rule>, ruleId: int)
    requires alarmId != other
    ensures HasAutomatic(AddAll(records, other, rules), alarmId, ruleId) <==> HasAutomatic(records, alarmId, ruleId)
    decreases |rules|
  {
    if |rules| > 0 {
      LinkedStays(records, alarmId, other, rules[..|rules| - 1], ruleId);
      var before := AddAll(records, other, rules[..|rules| - 1]);
      var after := AddAll(records, other, rules);
      if HasAutomatic(before, alarmId, ruleId) {
        var i :| 0 <= i < |before| && IsAutomatic(before[i], alarmId, ruleId);
        assert IsAutomatic(after[i], alarmId, ruleId);
      }
      if i :| 0 <= i < |after| && IsAutomatic(after[i], alarmId, ruleId) {
        assert i < |before| && after[i] == before[i];
      }
    }
  }

  /** What holds of the ledger at every point of a batch that began with these tables. */
  ghost predicate LedgerInvariant(s: Ledger, config: Config, records: seq<LinkageRecord>) {
    && AutomaticOnce(s.records)
    && AlarmIdsBelow(s.records, |s.alarms|)
    && |s.records| >= |records|
    && s.linkageIds == Range(|records| + 1, |s.records| + 1)
    && (forall k :: 0 <= k < |s.created| ==> CreatedAndLinked(s, config, s.created[k]))
  }

  ghost predicate CreatedAndLinked(s: Ledger, config: Config, c: Transition) {
    && 1 <= c.alarmId <= |s.alarms|
    && s.alarms[c.alarmId - 1].detectorId == c.detectorId
    && s.alarms[c.alarmId - 1].alarmType == c.alarmType
    && LinkedTo(s.records, config, s.alarms[c.alarmId - 1], c.alarmId)
  }

  lemma {:induction false} CreatedStaysLinked(s: Ledger, config: Config, r: DeviceReading, c: Transition)
    requires CreatedAndLinked(s, config, c)
    ensures CreatedAndLinked(IngestOne(s, config, r), config, c)
  {
    var t := IngestOne(s, config, r);
    if !r.status.Invalid? && AlarmTypeOf(r.status).Some? {
      var alarmType := AlarmTypeOf(r.status).value;
      var rules := Matching(config, config.rules, r.detectorId, alarmType, r.alarmLevel);
      forall rule | rule in config.rules
        ensures HasAutomatic(t.records, c.alarmId, rule.id) <==> HasAutomatic(s.records, c.alarmId, rule.id)
      {
        LinkedStays(s.records, c.alarmId, |s.alarms| + 1, rules, rule.id);
      }
    }
  }

  lemma {:induction false} CreatedAreLinked(
    s: Ledger, config: Config, records: seq<LinkageRecord>, r: DeviceReading, k: nat)
    requires LedgerInvariant(s, config, records) && RuleIdsDistinct(config.rules)
    requires k < |IngestOne(s, config, r).created|
    ensures CreatedAndLinked(IngestOne(s, config, r), config, IngestOne(s, config, r).created[k])
  {
    var t := IngestOne(s, config, r);
    if k < |s.created| {
      CreatedStaysLinked(s, config, r, s.created[k]);
    } else {
      FreshAlarmIsLinked(s.records, config, t.alarms[|t.alarms| - 1], |t.alarms|);
    }
  }

  lemma {:induction false} LedgerInvariantKept(s: Ledger, config: Config, records: seq<LinkageRecord>, r: DeviceReading)
    requires LedgerInvariant(s, config, records) && RuleIdsDistinct(config.rules)
    ensures LedgerInvariant(IngestOne(s, config, r), config, records)
  {
    var t := IngestOne(s, config, r);
    IngestKeepsTables(s, config, r);
    forall k | 0 <= k < |t.created|
      ensures CreatedAndLinked(t, config, t.created[k])
    {
      CreatedAreLinked(s, config, records, r, k);
    }
  }

  /** Over any batch: every created alarm has exactly one automatic record for each rule
      that matches it and none for the others, and the returned ids are exactly the ids of
      the rows inserted. */
  lemma {:induction false} BatchLinksEveryCreatedAlarm(alarms: Table, records: seq<LinkageRecord>, config: Config,
                                                       readings: seq<DeviceReading>)
    requires AutomaticOnce(records) && AlarmIdsBelow(records, |alarms|) && RuleIdsDistinct(config.rules)
    ensures LedgerInvariant(IngestAll(Opening(alarms, records), config, readings), config, records)
    decreases |readings|
  {
    if |readings| > 0 {
      var init := readings[..|readings| - 1];
      BatchLinksEveryCreatedAlarm(alarms, records, config, init);
      LedgerInvariantKept(IngestAll(Opening(alarms, records), config, init), config, records, readings[|readings| - 1]);
    }
  }

  /** Splitting a run into batches does not matter for the alarm table. */
  lemma {:induction false} SplittingDoesNotMatter(s: Ledger, config1: Config, config2: Config,
                                                  a: seq<DeviceReading>, b: seq<DeviceReading>)
    ensures var t := IngestAll(s, config1, a);
            IngestAll(Opening(t.alarms, t.records), config2, b).alarms == IngestAll(s, config1, a + b).alarms
    decreases |b|
  {
    if |b| == 0 {
      assert a + b == a;
    } else {
      SplittingDoesNotMatter(s, config1, config2, a, b[..|b| - 1]);
      assert (a + b)[..|a + b| - 1] == a + b[..|b| - 1];
      var t := IngestAll(s, config1, a);
      AlarmsIgnoreTheRest(IngestAll(Opening(t.alarms, t.records), config2, b[..|b| - 1]),
                          IngestAll(s, config1, a + b[..|b| - 1]), config2, config1, b[|b| - 1]);
    }
  }

  lemma {:induction false} AlarmsIgnoreTheRest(s: Ledger, t: Ledger, config1: Config, config2: Config, r: DeviceReading)
    requires s.alarms == t.alarms
    ensures IngestOne(s, config1, r).alarms == IngestOne(t, config2, r).alarms == IngestRow(s.alarms, r)
  {}
}
