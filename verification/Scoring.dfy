/**
 The scoring engine: one pass over the sorted rules that skips, runs, re-ranks and adds up.

 `RunAllRules` is the stateful pass.  Its specification is per rule, so that what the pass keeps, what
 registration order does and what a configuration does can each be proved about lists of rules.
 */
module Scoring {
  import opened Ordering
  import opened Rules
  import opened Wrappers

  const READINESS_GROUP := "readiness"
  const PACKAGING_GROUP := "packaging"
  const LATEST_VERSION := "2026-07-28"
  const NOT_APPLICABLE := "not-applicable"
  const INSUFFICIENT_DATA := "insufficient-data"
  const DISABLED_BY_CONFIG := "disabled-by-config"

  datatype Era = Legacy | Modern | Dual

  /** What the audit collected, as far as the engine itself reads it; `present` names the fields that are not None. */
  datatype AuditData = AuditData(
    protocolVersion: Option<string>, partial: bool, package: bool,
    present: set<string>, catalogVersions: map<string, string>)

  datatype RuleResult = RuleResult(ruleId: string, severity: Severity, passed: bool, details: map<string, string>)

  datatype SkippedRule = SkippedRule(ruleId: string, reason: string)

  /** Per-project overrides: a severity, or None for off. */
  datatype RuleConfig = RuleConfig(overrides: map<string, Option<Severity>>, failOn: Option<Severity>)

  /** Everything a run depends on besides the configuration; rule bodies are arbitrary functions of the data. */
  datatype Audit = Audit(
    data: AuditData, era: Option<Era>,
    check: (Rule, AuditData) -> RuleResult, hook: (Rule, AuditData) -> Option<string>)

  // ---------- one rule ----------

  predicate ModernEra(era: Option<Era>) {
    era == Some(Modern) || era == Some(Dual)
  }

  predicate Promoted(audit: Audit) {
    ModernEra(audit.era) && !audit.data.partial
  }

  /** The version of the first required field that was recovered from another lifecycle. */
  function RecoveredVersion(fields: seq<string>, versions: map<string, string>): Option<string> {
    if fields == [] then None
    else if fields[0] in versions then Some(versions[fields[0]])
    else RecoveredVersion(fields[1..], versions)
  }

  function ApplicabilityVersion(rule: Rule, audit: Audit): Option<string> {
    if rule.usesModernProbeEvidence && ModernEra(audit.era) then Some(LATEST_VERSION)
    else
      var recovered := RecoveredVersion(rule.fields, audit.data.catalogVersions);
      if recovered.Some? then recovered else audit.data.protocolVersion
  }

  predicate SkippedForPartial(rule: Rule, data: AuditData) {
    && data.partial && rule.fields != [] && "full_data" !in rule.fields
    && forall f <- rule.fields :: f !in data.present
  }

  predicate EvidenceSpansLifecycles(rule: Rule, data: AuditData) {
    && (exists f <- rule.fields :: f in data.catalogVersions)
    && (exists f <- rule.fields :: f !in data.catalogVersions)
  }

  /** Why the engine itself does not judge a rule, whatever the configuration. */
  function CanonicalSkip(rule: Rule, audit: Audit): Option<string> {
    if !AppliesTo(rule, ApplicabilityVersion(rule, audit)) then Some(NOT_APPLICABLE)
    else if SkippedForPartial(rule, audit.data) || EvidenceSpansLifecycles(rule, audit.data) then
      Some(INSUFFICIENT_DATA)
    else audit.hook(rule, audit.data)
  }

  predicate Off(id: string, config: Option<RuleConfig>) {
    config.Some? && id in config.value.overrides && config.value.overrides[id] == None
  }

  function SkipReason(rule: Rule, audit: Audit, config: Option<RuleConfig>): Option<string> {
    var canonical := CanonicalSkip(rule, audit);
    if canonical.None? && Off(rule.id, config) then Some(DISABLED_BY_CONFIG) else canonical
  }

  function Name(s: Severity): string {
    match s
    case Critical => "CRITICAL"
    case High => "HIGH"
    case Medium => "MEDIUM"
    case Low => "LOW"
  }

  /** The configured severity of a rule, when there is one that differs from the result's own. */
  function Configured(result: RuleResult, config: Option<RuleConfig>): Option<Severity> {
    if config.None? || result.ruleId !in config.value.overrides then None
    else
      var configured := config.value.overrides[result.ruleId];
      if configured == Some(result.severity) then None else configured
  }

  function Reranked(result: RuleResult, config: Option<RuleConfig>): RuleResult {
    var configured := Configured(result, config);
    if configured.None? then result
    else result.(severity := configured.value, details := result.details["severity_default" := Name(result.severity)])
  }

  /** A rule's own result, with its identity and its citation. */
  function OwnResult(rule: Rule, audit: Audit): RuleResult {
    var result := audit.check(rule, audit.data).(ruleId := rule.id);
    if rule.basis.Some? && "basis" !in result.details then
      result.(details := result.details["basis" := rule.basis.value])
    else result
  }

  function ResultOf(rule: Rule, audit: Audit, config: Option<RuleConfig>): RuleResult {
    Reranked(OwnResult(rule, audit), config)
  }

  // ---------- lists of rules ----------

  predicate Runs(rule: Rule, audit: Audit, config: Option<RuleConfig>) {
    SkipReason(rule, audit, config).None?
  }

  predicate IsReadiness(rule: Rule) {
    rule.group == READINESS_GROUP
  }

  /** Results of the rules that run, on the readiness axis or on the main one, in order. */
  function ResultsOf(rules: seq<Rule>, audit: Audit, config: Option<RuleConfig>, readiness: bool): seq<RuleResult> {
    if rules == [] then []
    else
      var front, last := rules[..|rules| - 1], rules[|rules| - 1];
      ResultsOf(front, audit, config, readiness)
      + if Runs(last, audit, config) && IsReadiness(last) == readiness then [ResultOf(last, audit, config)] else []
  }

  function SkipsOf(rules: seq<Rule>, audit: Audit, config: Option<RuleConfig>): seq<SkippedRule> {
    if rules == [] then []
    else
      var front, last := rules[..|rules| - 1], rules[|rules| - 1];
      var reason := SkipReason(last, audit, config);
      SkipsOf(front, audit, config) + if reason.Some? then [SkippedRule(last.id, reason.value)] else []
  }

  /** Own severities of re-ranked rules, added to those recorded before. */
  function DefaultsAfter(before: map<string, Severity>, rules: seq<Rule>, audit: Audit, config: Option<RuleConfig>)
    : map<string, Severity>
  {
    if rules == [] then before
    else
      WithDefault(DefaultsAfter(before, rules[..|rules| - 1], audit, config), rules[|rules| - 1], audit, config)
  }

  /** Weight the results earn: those that passed. */
  function Earned(results: seq<RuleResult>): nat {
    if results == [] then 0
    else
      var last := results[|results| - 1];
      Earned(results[..|results| - 1]) + if last.passed then Weight(last.severity) else 0
  }

  /** Weight the results could have earned. */
  function Possible(results: seq<RuleResult>): nat {
    if results == [] then 0
    else Possible(results[..|results| - 1]) + Weight(results[|results| - 1].severity)
  }

  function ForTarget(rules: seq<Rule>, package: bool): seq<Rule> {
    if rules == [] then []
    else
      var front, last := rules[..|rules| - 1], rules[|rules| - 1];
      ForTarget(front, package) + if (last.group == PACKAGING_GROUP) == package then [last] else []
  }

  /** The rules a run considers, in the order it considers them. */
  function Considered(rules: seq<Rule>, audit: Audit): seq<Rule> {
    Sort(ForTarget(rules, audit.data.package), RuleLess)
  }

  // ---------- a whole run ----------

  datatype Run = Run(
    results: seq<RuleResult>, readiness: seq<RuleResult>, skipped: seq<SkippedRule>,
    score: nat, maxScore: nat, readinessScore: nat, readinessMax: nat)

  /** The outcome of a run over rules in the given order. */
  function RunOver(rules: seq<Rule>, audit: Audit, config: Option<RuleConfig>): Run {
    var main, readiness := ResultsOf(rules, audit, config, false), ResultsOf(rules, audit, config, true);
    Run(main, readiness, SkipsOf(rules, audit, config),
        Earned(main) + (if Promoted(audit) then Earned(readiness) else 0),
        Possible(main) + (if Promoted(audit) then Possible(readiness) else 0),
        Earned(readiness), Possible(readiness))
  }

  function RunOf(rules: seq<Rule>, audit: Audit, config: Option<RuleConfig>): Run {
    RunOver(Considered(rules, audit), audit, config)
  }

  /** A run with one more result: its own axis always, the main score when it counts there. */
  function WithResult(run: Run, r: RuleResult, readiness: bool, promoted: bool): Run {
    var earned, counts := if r.passed then Weight(r.severity) else 0, !readiness || promoted;
    Run(run.results + (if readiness then [] else [r]),
        run.readiness + (if readiness then [r] else []),
        run.skipped,
        run.score + (if counts then earned else 0),
        run.maxScore + (if counts then Weight(r.severity) else 0),
        run.readinessScore + (if readiness then earned else 0),
        run.readinessMax + (if readiness then Weight(r.severity) else 0))
  }

  function WithSkip(run: Run, skip: SkippedRule): Run {
    run.(skipped := run.skipped + [skip])
  }

  /** What considering one rule makes of a run. */
  function WithRule(run: Run, rule: Rule, audit: Audit, config: Option<RuleConfig>): Run {
    if Runs(rule, audit, config)
    then WithResult(run, ResultOf(rule, audit, config), IsReadiness(rule), Promoted(audit))
    else WithSkip(run, SkippedRule(rule.id, SkipReason(rule, audit, config).value))
  }

  function WithDefault(before: map<string, Severity>, rule: Rule, audit: Audit, config: Option<RuleConfig>)
    : map<string, Severity>
  {
    var own := OwnResult(rule, audit);
    if Runs(rule, audit, config) && Configured(own, config).Some? then before[rule.id := own.severity] else before
  }

  /** The results that count in the main score. */
  function Counted(run: Run, promoted: bool): seq<RuleResult> {
    run.results + if promoted then run.readiness else []
  }

  function GateFailures(results: seq<RuleResult>, failOn: Severity): seq<string> {
    if results == [] then []
    else
      var last := results[|results| - 1];
      GateFailures(results[..|results| - 1], failOn)
      + if !last.passed && Weight(last.severity) >= Weight(failOn) then [last.ruleId] else []
  }

  class MCPAuditor {
    const rules: seq<Rule>
    const config: Option<RuleConfig>
    const audit: Audit
    var score: nat
    var maxScore: nat
    var results: seq<RuleResult>
    var skippedRules: seq<SkippedRule>
    var readinessScore: nat
    var readinessMax: nat
    var readinessResults: seq<RuleResult>
    var readinessPromoted: bool
    var configDefaults: map<string, Severity>

    constructor (rules: seq<Rule>, audit: Audit, config: Option<RuleConfig>)
      ensures this.rules == rules && this.audit == audit && this.config == config
      ensures Fresh() && configDefaults == map[]
    {
      this.rules, this.audit, this.config := rules, audit, config;
      score, maxScore, results, skippedRules := 0, 0, [], [];
      readinessScore, readinessMax, readinessResults, readinessPromoted := 0, 0, [], false;
      configDefaults := map[];
    }

    /** The per-run state as `_reset_run_state` leaves it; re-ranked defaults are not part of it. */
    ghost predicate Fresh()
      reads this
    {
      && score == maxScore == readinessScore == readinessMax == 0
      && results == [] && skippedRules == [] && readinessResults == [] && !readinessPromoted
    }

    /** `_apply_rerank`, on a result not yet recorded anywhere. */
    method ApplyRerank(result: RuleResult) returns (reranked: RuleResult)
      modifies this`configDefaults
      ensures reranked == Reranked(result, config)
      ensures configDefaults == if Configured(result, config).Some?
                                then old(configDefaults)[result.ruleId := result.severity] else old(configDefaults)
    {
      reranked := result;
      if config.None? || result.ruleId !in config.value.overrides {
        return;
      }
      var configured := config.value.overrides[result.ruleId];
      if configured.None? || configured.value == result.severity {
        return;
      }
      configDefaults := configDefaults[result.ruleId := result.severity];
      reranked := result.(severity := configured.value,
                          details := result.details["severity_default" := Name(result.severity)]);
    }

    /** The recorded fields as one value. */
    ghost function Recorded(): Run
      reads this
    {
      Run(results, readinessResults, skippedRules, score, maxScore, readinessScore, readinessMax)
    }

    /** Record one result on its axis, and on the main one when it counts there. */
    method Record(rule: Rule, result: RuleResult)
      modifies this`score, this`maxScore, this`results, this`readinessScore, this`readinessMax, this`readinessResults
      ensures Recorded() == WithResult(old(Recorded()), result, IsReadiness(rule), readinessPromoted)
    {
      if rule.group == READINESS_GROUP {
        readinessMax := readinessMax + Weight(result.severity);
        if result.passed {
          readinessScore := readinessScore + Weight(result.severity);
        }
        readinessResults := readinessResults + [result];
        if readinessPromoted {
          maxScore := maxScore + Weight(result.severity);
          if result.passed {
            score := score + Weight(result.severity);
          }
        }
      } else {
        maxScore := maxScore + Weight(result.severity);
        if result.passed {
          score := score + Weight(result.severity);
        }
        results := results + [result];
      }
    }

    /** One rule of the pass: skip it for the reason that wins, or run, re-rank and record it. */
    method Consider(rule: Rule)
      modifies this`score, this`maxScore, this`results, this`readinessScore, this`readinessMax, this`readinessResults,
               this`skippedRules, this`configDefaults
      requires readinessPromoted == Promoted(audit)
      ensures Recorded() == WithRule(old(Recorded()), rule, audit, config)
      ensures configDefaults == WithDefault(old(configDefaults), rule, audit, config)
    {
      var reason: Option<string> := None;
      if !AppliesTo(rule, ApplicabilityVersion(rule, audit)) {
        reason := Some(NOT_APPLICABLE);
      } else if SkippedForPartial(rule, audit.data) || EvidenceSpansLifecycles(rule, audit.data) {
        reason := Some(INSUFFICIENT_DATA);
      } else {
        reason := audit.hook(rule, audit.data);
      }
      // Checked last, so a canonical reason wins when both apply.
      if reason.None? && Off(rule.id, config) {
        reason := Some(DISABLED_BY_CONFIG);
      }
      assert reason == SkipReason(rule, audit, config);
      hide SkipReason, Reranked, Configured, AppliesTo, ApplicabilityVersion;
      hide SkippedForPartial, EvidenceSpansLifecycles;
      if reason.Some? {
        skippedRules := skippedRules + [SkippedRule(rule.id, reason.value)];
        return;
      }
      var result := ApplyRerank(OwnResult(rule, audit));
      Record(rule, result);
    }

    /** `_run_all_rules` */
    method RunAllRules()
      requires Fresh()
      modifies this
      ensures Recorded() == RunOf(rules, audit, config)
      ensures readinessPromoted <==> (audit.era == Some(Modern) || audit.era == Some(Dual)) && !audit.data.partial
      ensures configDefaults == DefaultsAfter(old(configDefaults), Considered(rules, audit), audit, config)
    {
      readinessPromoted := Promoted(audit);
      var considered := Considered(rules, audit);
      NothingYet(audit, config);
      hide RunOver, WithRule, DefaultsAfter, WithDefault, Considered;
      assert considered[..0] == [];
      for i := 0 to |considered|
        invariant Recorded() == RunOver(considered[..i], audit, config)
        invariant readinessPromoted == Promoted(audit)
        invariant configDefaults == DefaultsAfter(old(configDefaults), considered[..i], audit, config)
      {
        var rule := considered[i];
        NextRule(old(configDefaults), considered, i, audit, config);
        Consider(rule);
      }
      AllRules(considered);
    }

    /** `config_gate_failures` */
    method ConfigGateFailures() returns (failed: seq<string>)
      ensures failed == if config.None? || config.value.failOn.None? then []
                        else GateFailures(results + (if readinessPromoted then readinessResults else []),
                                          config.value.failOn.value)
    {
      failed := [];
      if config.None? || config.value.failOn.None? {
        return;
      }
      var counted := results + if readinessPromoted then readinessResults else [];
      for i := 0 to |counted|
        invariant failed == GateFailures(counted[..i], config.value.failOn.value)
      {
        assert counted[..i + 1][..i] == counted[..i];
        if !counted[i].passed && Weight(counted[i].severity) >= Weight(config.value.failOn.value) {
          failed := failed + [counted[i].ruleId];
        }
      }
      assert counted[..|counted|] == counted;
    }
  }

  lemma AllRules(rules: seq<Rule>)
    ensures rules[..|rules|] == rules
  {
  }

  /** The step from one prefix of the rules to the next. */
  lemma NextRule(before: map<string, Severity>, rules: seq<Rule>, i: nat, audit: Audit, config: Option<RuleConfig>)
    requires i < |rules|
    ensures RunOver(rules[..i + 1], audit, config) ==
            WithRule(RunOver(rules[..i], audit, config), rules[i], audit, config)
    ensures DefaultsAfter(before, rules[..i + 1], audit, config)
            == WithDefault(DefaultsAfter(before, rules[..i], audit, config), rules[i], audit, config)
  {
    assert rules[..i + 1] == rules[..i] + [rules[i]];
    RunOneMore(rules[..i], rules[i], audit, config);
    DefaultsOneMore(before, rules[..i], rules[i], audit, config);
  }

  lemma NothingYet(audit: Audit, config: Option<RuleConfig>)
    ensures RunOver([], audit, config) == Run([], [], [], 0, 0, 0, 0)
    ensures forall m :: DefaultsAfter(m, [], audit, config) == m
  {
  }

  lemma EarnedOneMore(results: seq<RuleResult>, r: RuleResult)
    ensures Earned(results + [r]) == Earned(results) + if r.passed then Weight(r.severity) else 0
    ensures Possible(results + [r]) == Possible(results) + Weight(r.severity)
  {
    assert (results + [r])[..|results|] == results;
  }

  lemma ResultsOneMore(rules: seq<Rule>, rule: Rule, audit: Audit, config: Option<RuleConfig>, readiness: bool)
    ensures ResultsOf(rules + [rule], audit, config, readiness)
            == if Runs(rule, audit, config) && IsReadiness(rule) == readiness
               then ResultsOf(rules, audit, config, readiness) + [ResultOf(rule, audit, config)]
               else ResultsOf(rules, audit, config, readiness)
  {
    assert (rules + [rule])[..|rules|] == rules;
  }

  lemma SkipsOneMore(rules: seq<Rule>, rule: Rule, audit: Audit, config: Option<RuleConfig>)
    ensures SkipsOf(rules + [rule], audit, config)
            == if Runs(rule, audit, config) then SkipsOf(rules, audit, config)
               else SkipsOf(rules, audit, config) + [SkippedRule(rule.id, SkipReason(rule, audit, config).value)]
  {
    assert (rules + [rule])[..|rules|] == rules;
  }

  /** What one more rule adds to a run. */
  lemma RunOneMore(rules: seq<Rule>, rule: Rule, audit: Audit, config: Option<RuleConfig>)
    ensures RunOver(rules + [rule], audit, config) == WithRule(RunOver(rules, audit, config), rule, audit, config)
  {
    var r := ResultOf(rule, audit, config);
    ResultsOneMore(rules, rule, audit, config, false);
    ResultsOneMore(rules, rule, audit, config, true);
    SkipsOneMore(rules, rule, audit, config);
    EarnedOneMore(ResultsOf(rules, audit, config, false), r);
    EarnedOneMore(ResultsOf(rules, audit, config, true), r);
    hide Earned, Possible, SkipReason, ResultOf, ResultsOf, SkipsOf;
  }

  lemma DefaultsOneMore(before: map<string, Severity>, rules: seq<Rule>, rule: Rule,
                        audit: Audit, config: Option<RuleConfig>)
    ensures DefaultsAfter(before, rules + [rule], audit, config)
            == WithDefault(DefaultsAfter(before, rules, audit, config), rule, audit, config)
  {
    assert (rules + [rule])[..|rules|] == rules;
  }
}
