/** Linkage rules and the records that automatic linkage leaves for each alarm. */
module Linkage {
  import opened Models
  import opened AlarmTable

  /** alarmType None is the wildcard '*'. */
  datatype Rule = Rule(
    id: int,
    detectorId: Option<int>,
    alarmType: Option<AlarmType>,
    alarmLevel: Option<nat>,
    objectId: int,
    action: string,
    enabled: bool,
    deleted: bool)

  datatype LinkageObject = LinkageObject(enabled: bool, deleted: bool)

  /** The rule and object tables, rules in order of id. */
  datatype Config = Config(rules: seq<Rule>, objects: map<int, LinkageObject>)

  predicate RuleIdsDistinct(rules: seq<Rule>) {
    forall i, j :: 0 <= i < j < |rules| ==> rules[i].id != rules[j].id
  }

  /** Rows in order of creation; the row at index i has id i + 1. */
  datatype LinkageRecord = LinkageRecord(
    objectId: int,
    ruleId: Option<int>,
    alarmId: Option<nat>,
    automatic: bool,
    action: string)

  /* ---------- list_matching ---------- */

  predicate Matches(config: Config, rule: Rule, detectorId: int, alarmType: AlarmType, alarmLevel: Option<nat>) {
    && !rule.deleted
    && rule.objectId in config.objects
    && !config.objects[rule.objectId].deleted
    && rule.enabled
    && config.objects[rule.objectId].enabled
    && (rule.detectorId.None? || rule.detectorId == Some(detectorId))
    && (rule.alarmType.None? || rule.alarmType == Some(alarmType))
    && (rule.alarmLevel.None? || (alarmLevel.Some? && rule.alarmLevel == alarmLevel))
  }

  /** A rule matches iff it is in force, acts on an object that is in force, and each of its three
      conditions is open or met. */
  lemma {:induction false} MatchesIff(
    config: Config, rule: Rule, detectorId: int, alarmType: AlarmType, alarmLevel: Option<nat>)
    ensures Matches(config, rule, detectorId, alarmType, alarmLevel)
            <==> && rule.enabled && !rule.deleted
                 && rule.objectId in config.objects && config.objects[rule.objectId] == LinkageObject(true, false)
                 && rule.detectorId in {None, Some(detectorId)} && rule.alarmType in {None, Some(alarmType)}
                 && rule.alarmLevel in {None, alarmLevel}
  {
  }

  function Matching(config: Config, rules: seq<Rule>, detectorId: int, alarmType: AlarmType, alarmLevel: Option<nat>)
    : (ms: seq<Rule>)
    ensures forall r :: r in ms <==> r in rules && Matches(config, r, detectorId, alarmType, alarmLevel)
  {
    if |rules| == 0 then []
    else
      var last := rules[|rules| - 1];
      Matching(config, rules[..|rules| - 1], detectorId, alarmType, alarmLevel)
      + if Matches(config, last, detectorId, alarmType, alarmLevel) then [last] else []
  }

  lemma {:induction false} MatchingDistinct(config: Config, rules: seq<Rule>, detectorId: int, alarmType: AlarmType,
                                            alarmLevel: Option<nat>)
    requires RuleIdsDistinct(rules)
    ensures RuleIdsDistinct(Matching(config, rules, detectorId, alarmType, alarmLevel))
    decreases |rules|
  {
    if |rules| > 0 {
      var init := rules[..|rules| - 1];
      MatchingDistinct(config, init, detectorId, alarmType, alarmLevel);
      var ms := Matching(config, init, detectorId, alarmType, alarmLevel);
      forall i | 0 <= i < |ms|
        ensures ms[i].id != rules[|rules| - 1].id
      {
        assert ms[i] in init;
      }
    }
  }

  /* ---------- The record table ---------- */

  predicate IsAutomatic(record: LinkageRecord, alarmId: nat, ruleId: int) {
    record.automatic && record.alarmId == Some(alarmId) && record.ruleId == Some(ruleId)
  }

  predicate HasAutomatic(records: seq<LinkageRecord>, alarmId: nat, ruleId: int) {
    exists i :: 0 <= i < |records| && IsAutomatic(records[i], alarmId, ruleId)
  }

  /** The unique index: one automatic record for each alarm and rule. */
  predicate AutomaticOnce(records: seq<LinkageRecord>) {
    forall i, j :: 0 <= i < j < |records| && records[i].automatic && records[j].automatic
      && records[i].alarmId.Some? && records[i].ruleId.Some?
      ==> records[i].alarmId != records[j].alarmId || records[i].ruleId != records[j].ruleId
  }

  function AutomaticRecord(alarmId: nat, rule: Rule): LinkageRecord {
    LinkageRecord(rule.objectId, Some(rule.id), Some(alarmId), true, rule.action)
  }

  /** INSERT OR IGNORE of one automatic record. */
  function AddAutomatic(records: seq<LinkageRecord>, alarmId: nat, rule: Rule): seq<LinkageRecord> {
    if HasAutomatic(records, alarmId, rule.id) then records else records + [AutomaticRecord(alarmId, rule)]
  }

  /** The records after the loop over the first n rules. */
  function AddAll(records: seq<LinkageRecord>, alarmId: nat, rules: seq<Rule>): (r: seq<LinkageRecord>)
    ensures |r| >= |records| && r[..|records|] == records
  {
    if |rules| == 0 then records
    else AddAutomatic(AddAll(records, alarmId, rules[..|rules| - 1]), alarmId, rules[|rules| - 1])
  }

  /** No record mentions an alarm that does not exist yet. */
  predicate AlarmIdsBelow(records: seq<LinkageRecord>, n: nat) {
    forall i :: 0 <= i < |records| && records[i].alarmId.Some? ==> records[i].alarmId.value <= n
  }

  /** For a fresh alarm every rule inserts: one record a rule, in order. */
  lemma {:induction false} FreshAlarmGetsOneRecordPerRule(records: seq<LinkageRecord>, alarmId: nat, rules: seq<Rule>)
    requires RuleIdsDistinct(rules)
    requires forall i :: 0 <= i < |records| ==> records[i].alarmId != Some(alarmId)
    ensures AddAll(records, alarmId, rules)
         == records
            + seq(|rules|, i requires 0 <= i < |rules| =>
                LinkageRecord(rules[i].objectId, Some(rules[i].id), Some(alarmId), true, rules[i].action))
    decreases |rules|
  {
    if |rules| > 0 {
      var init := rules[..|rules| - 1];
      FreshAlarmGetsOneRecordPerRule(records, alarmId, init);
      var before := AddAll(records, alarmId, init);
      forall i | 0 <= i < |before|
        ensures !IsAutomatic(before[i], alarmId, rules[|rules| - 1].id)
      {
        if i >= |records| {
          assert before[i] == AutomaticRecord(alarmId, init[i - |records|]);
        }
      }
    }
  }

  lemma {:induction false} AddAllKeepsUnique(records: seq<LinkageRecord>, alarmId: nat, rules: seq<Rule>)
    requires AutomaticOnce(records)
    ensures AutomaticOnce(AddAll(records, alarmId, rules))
    decreases |rules|
  {
    if |rules| > 0 {
      AddAllKeepsUnique(records, alarmId, rules[..|rules| - 1]);
    }
  }
}
