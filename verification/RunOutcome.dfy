/** What one scoring run amounts to, rule by rule, in the terms of its inputs. */
module RunOutcome {
  import opened Ordering
  import opened Rules
  import opened Scoring
  import opened ScoringLaws
  import opened Wrappers

  // ---------- why a rule is skipped ----------

  /** Position `k` has the first required field that was recovered from another lifecycle. */
  ghost predicate FirstRecovered(rule: Rule, data: AuditData, k: nat) {
    && k < |rule.fields| && rule.fields[k] in data.catalogVersions
    && forall j :: 0 <= j < k ==> rule.fields[j] !in data.catalogVersions
  }

  /** The version a rule's range is compared with. */
  ghost predicate JudgedAgainst(rule: Rule, audit: Audit, version: Option<string>) {
    if rule.usesModernProbeEvidence && (audit.era == Some(Modern) || audit.era == Some(Dual)) then
      version == Some("2026-07-28")
    else
      && (forall k: nat :: FirstRecovered(rule, audit.data, k) ==>
            version == Some(audit.data.catalogVersions[rule.fields[k]]))
      && ((forall f <- rule.fields :: f !in audit.data.catalogVersions) ==> version == audit.data.protocolVersion)
  }

  ghost predicate OutsideRange(rule: Rule, version: Option<string>) {
    && version.Some?
    && ((rule.minVersion.Some? && TextLess(version.value, rule.minVersion.value))
        || (rule.maxVersion.Some? && TextLess(rule.maxVersion.value, version.value)))
  }

  /** None of the fields was collected in a partial audit, or they come from more than one lifecycle. */
  ghost predicate EvidenceMissing(rule: Rule, data: AuditData) {
    || (data.partial && rule.fields != [] && "full_data" !in rule.fields
        && forall f <- rule.fields :: f !in data.present)
    || exists f, g :: f in rule.fields && g in rule.fields && f in data.catalogVersions && g !in data.catalogVersions
  }

  ghost predicate TurnedOff(id: string, config: Option<RuleConfig>) {
    config.Some? && id in config.value.overrides && config.value.overrides[id].None?
  }

  lemma {:induction false} RecoveredIs(fields: seq<string>, versions: map<string, string>)
    ensures forall k :: 0 <= k < |fields| && fields[k] in versions &&
                        (forall j :: 0 <= j < k ==> fields[j] !in versions) ==>
              RecoveredVersion(fields, versions) == Some(versions[fields[k]])
    ensures (forall f <- fields :: f !in versions) ==> RecoveredVersion(fields, versions) == None
    ensures RecoveredVersion(fields, versions) == None ==> forall f <- fields :: f !in versions
  {
    if fields != [] && fields[0] !in versions {
      RecoveredIs(fields[1..], versions);
      assert forall j :: 0 <= j < |fields| - 1 ==> fields[1..][j] == fields[j + 1];
    }
  }

  lemma ApplicabilityVersionIs(rule: Rule, audit: Audit)
    ensures JudgedAgainst(rule, audit, ApplicabilityVersion(rule, audit))
  {
    RecoveredIs(rule.fields, audit.data.catalogVersions);
  }

  lemma JudgedAgainstOne(rule: Rule, audit: Audit, a: Option<string>, b: Option<string>)
    requires JudgedAgainst(rule, audit, a) && JudgedAgainst(rule, audit, b)
    ensures a == b
  {
    if f :| f in rule.fields && f in audit.data.catalogVersions {
      var k :| 0 <= k < |rule.fields| && rule.fields[k] == f;
      var first := FirstRecoveredExists(rule, audit.data, k);
      assert FirstRecovered(rule, audit.data, first);
    }
  }

  lemma {:induction false} FirstRecoveredExists(rule: Rule, data: AuditData, k: nat) returns (first: nat)
    requires k < |rule.fields| && rule.fields[k] in data.catalogVersions
    ensures FirstRecovered(rule, data, first)
    decreases k
  {
    if j: nat :| j < k && rule.fields[j] in data.catalogVersions {
      first := FirstRecoveredExists(rule, data, j);
    } else {
      first := k;
    }
  }

  lemma AppliesExactly(rule: Rule, version: Option<string>)
    ensures AppliesTo(rule, version) <==> !OutsideRange(rule, version)
  {
    if version.Some? && rule.maxVersion.Some? {
      TextLessTotal(version.value, rule.maxVersion.value);
      TextLessIsStrictWeakOrder();
    }
    if version.Some? && rule.minVersion.Some? && TextLess(version.value, rule.minVersion.value) {
      TextLessAsymmetric(version.value, rule.minVersion.value);
    }
  }

  /** The reasons in their order of precedence: range, evidence, the rule's own, and last the configuration. */
  ghost predicate SkippedFor(rule: Rule, audit: Audit, config: Option<RuleConfig>, version: Option<string>,
                             reason: Option<string>)
  {
    && (OutsideRange(rule, version) ==> reason == Some("not-applicable"))
    && (!OutsideRange(rule, version) && EvidenceMissing(rule, audit.data) ==> reason == Some("insufficient-data"))
    && (!OutsideRange(rule, version) && !EvidenceMissing(rule, audit.data) ==>
          var own := audit.hook(rule, audit.data);
          && (own.Some? ==> reason == own)
          && (own.None? && TurnedOff(rule.id, config) ==> reason == Some("disabled-by-config"))
          && (own.None? && !TurnedOff(rule.id, config) ==> reason == None))
  }

  lemma SkipReasonExactly(rule: Rule, audit: Audit, config: Option<RuleConfig>, version: Option<string>,
                          reason: Option<string>)
    requires JudgedAgainst(rule, audit, version)
    ensures SkipReason(rule, audit, config) == reason <==> SkippedFor(rule, audit, config, version, reason)
  {
    ApplicabilityVersionIs(rule, audit);
    JudgedAgainstOne(rule, audit, version, ApplicabilityVersion(rule, audit));
    AppliesExactly(rule, version);
    hide ApplicabilityVersion, JudgedAgainst, AppliesTo, OutsideRange;
  }

  // ---------- what a rule's result is ----------

  /** The check's own verdict and severity, under the rule's identity, with its citation and the configured severity. */
  ghost predicate Resulting(rule: Rule, audit: Audit, config: Option<RuleConfig>, r: RuleResult) {
    var own := audit.check(rule, audit.data);
    var cited := if rule.basis.Some? && "basis" !in own.details then own.details["basis" := rule.basis.value]
                 else own.details;
    && r.ruleId == rule.id && r.passed == own.passed
    && if config.Some? && rule.id in config.value.overrides && config.value.overrides[rule.id].Some?
          && config.value.overrides[rule.id].value != own.severity
       then
         && r.severity == config.value.overrides[rule.id].value
         && r.details == cited["severity_default" := match own.severity
                                                     case Critical => "CRITICAL"
                                                     case High => "HIGH"
                                                     case Medium => "MEDIUM"
                                                     case Low => "LOW"]
       else r.severity == own.severity && r.details == cited
  }

  lemma ResultExactly(rule: Rule, audit: Audit, config: Option<RuleConfig>)
    ensures Resulting(rule, audit, config, ResultOf(rule, audit, config))
  {
  }

  // ---------- which list each rule ends in ----------

  /** `out` is made of the picked elements of `source`, those at the positions `at`, in order, and no others. */
  ghost predicate Picked<A, B>(source: seq<A>, picks: A -> bool, made: A -> B, out: seq<B>, at: seq<nat>) {
    && |at| == |out|
    && (forall k, l :: 0 <= k < l < |at| ==> at[k] < at[l])
    && (forall k :: 0 <= k < |at| ==> at[k] < |source| && picks(source[at[k]]) && out[k] == made(source[at[k]]))
    && (forall i :: 0 <= i < |source| && picks(source[i]) ==> i in at)
  }

  lemma PickedSnoc<A, B>(source: seq<A>, x: A, picks: A -> bool, made: A -> B, out: seq<B>, at: seq<nat>)
    requires Picked(source, picks, made, out, at)
    ensures picks(x) ==> Picked(source + [x], picks, made, out + [made(x)], at + [|source|])
    ensures !picks(x) ==> Picked(source + [x], picks, made, out, at)
  {
  }

  /** The rule runs, and its group is the readiness group or not. */
  ghost function RunsOn(audit: Audit, config: Option<RuleConfig>, readiness: bool): Rule -> bool {
    (rule: Rule) => SkipReason(rule, audit, config).None? && (rule.group == "readiness") == readiness
  }

  ghost function MakesResult(audit: Audit, config: Option<RuleConfig>): Rule -> RuleResult {
    (rule: Rule) => ResultOf(rule, audit, config)
  }

  ghost function IsSkipped(audit: Audit, config: Option<RuleConfig>): Rule -> bool {
    (rule: Rule) => SkipReason(rule, audit, config).Some?
  }

  ghost function MakesSkip(audit: Audit, config: Option<RuleConfig>): Rule -> SkippedRule {
    (rule: Rule) =>
      SkippedRule(rule.id, if SkipReason(rule, audit, config).Some? then SkipReason(rule, audit, config).value else "")
  }

  lemma RunsOnIs(rule: Rule, audit: Audit, config: Option<RuleConfig>, readiness: bool)
    ensures RunsOn(audit, config, readiness)(rule) <==> Runs(rule, audit, config) && IsReadiness(rule) == readiness
    ensures MakesResult(audit, config)(rule) == ResultOf(rule, audit, config)
  {
    hide SkipReason, ResultOf;
  }

  lemma NothingPicked<A, B>(picks: A -> bool, made: A -> B)
    ensures Picked([], picks, made, [], [])
  {
  }

  lemma {:induction false} ResultsPicked(rules: seq<Rule>, audit: Audit, config: Option<RuleConfig>, readiness: bool)
    returns (at: seq<nat>)
    ensures Picked(rules, RunsOn(audit, config, readiness), MakesResult(audit, config),
                   ResultsOf(rules, audit, config, readiness), at)
  {
    at := [];
    if rules != [] {
      var front, last := rules[..|rules| - 1], rules[|rules| - 1];
      assert rules == front + [last];
      at := ResultsPicked(front, audit, config, readiness);
      hide Picked, ResultsOf, SkipReason, ResultOf;
      ResultsOneMore(front, last, audit, config, readiness);
      PickedSnoc(front, last, RunsOn(audit, config, readiness), MakesResult(audit, config),
                 ResultsOf(front, audit, config, readiness), at);
      RunsOnIs(last, audit, config, readiness);
      hide *;
      if RunsOn(audit, config, readiness)(last) {
        at := at + [|front|];
      }
    } else {
      NothingPicked(RunsOn(audit, config, readiness), MakesResult(audit, config));
    }
  }

  lemma {:induction false} SkipsPicked(rules: seq<Rule>, audit: Audit, config: Option<RuleConfig>)
    returns (at: seq<nat>)
    ensures Picked(rules, IsSkipped(audit, config), MakesSkip(audit, config), SkipsOf(rules, audit, config), at)
  {
    at := [];
    if rules != [] {
      var front, last := rules[..|rules| - 1], rules[|rules| - 1];
      assert rules == front + [last];
      at := SkipsPicked(front, audit, config);
      SkipsOneMore(front, last, audit, config);
      PickedSnoc(front, last, IsSkipped(audit, config), MakesSkip(audit, config), SkipsOf(front, audit, config), at);
      hide Picked, SkipsOf, SkipReason;
      if IsSkipped(audit, config)(last) {
        at := at + [|front|];
      }
    }
  }

  /** The rules considered are those for the target, in the documented order. */
  ghost predicate InOrder(a: Rule, b: Rule) {
    || a.groupOrder < b.groupOrder
    || (a.groupOrder == b.groupOrder && TextLess(a.group, b.group))
    || (a.groupOrder == b.groupOrder && a.group == b.group && a.ruleOrder < b.ruleOrder)
    || (a.groupOrder == b.groupOrder && a.group == b.group && a.ruleOrder == b.ruleOrder && !TextLess(b.id, a.id))
  }

  lemma ConsideredExactly(rules: seq<Rule>, audit: Audit)
    ensures var considered := Considered(rules, audit);
            && (forall i, j :: 0 <= i < j < |considered| ==> InOrder(considered[i], considered[j]))
            && forall r: Rule :: multiset(considered)[r]
                           == if (r.group == "packaging") == audit.data.package then multiset(rules)[r] else 0
  {
    var considered := Considered(rules, audit);
    RuleLessIsStrictWeakOrder();
    SortSorted(ForTarget(rules, audit.data.package), RuleLess);
    hide Sort, TextLess, ForTarget;
    forall r: Rule ensures multiset(considered)[r]
                     == if (r.group == "packaging") == audit.data.package then multiset(rules)[r] else 0
    {
      ForTargetCount(rules, audit.data.package, r);
    }
    forall i, j | 0 <= i < j < |considered| ensures InOrder(considered[i], considered[j]) {
      TextLessTotal(considered[i].group, considered[j].group);
    }
  }

  /** The three lists of a run: each rule considered is in exactly the one it belongs to, in the order considered. */
  lemma ListsExactly(rules: seq<Rule>, audit: Audit, config: Option<RuleConfig>)
    returns (main: seq<nat>, ready: seq<nat>, skipped: seq<nat>)
    ensures var run, considered := RunOf(rules, audit, config), Considered(rules, audit);
            && Picked(considered, RunsOn(audit, config, false), MakesResult(audit, config), run.results, main)
            && Picked(considered, RunsOn(audit, config, true), MakesResult(audit, config), run.readiness, ready)
            && Picked(considered, IsSkipped(audit, config), MakesSkip(audit, config), run.skipped, skipped)
  {
    main := ResultsPicked(Considered(rules, audit), audit, config, false);
    ready := ResultsPicked(Considered(rules, audit), audit, config, true);
    skipped := SkipsPicked(Considered(rules, audit), audit, config);
    hide Picked, ResultsOf, SkipsOf, Considered;
  }

  // ---------- the totals ----------

  /** The positions of the results of that severity, passed ones alone if asked for. */
  ghost function Having(results: seq<RuleResult>, severity: Severity, passed: bool): set<nat> {
    set i: nat | i < |results| && results[i].severity == severity && (passed ==> results[i].passed)
  }

  ghost function HowMany(results: seq<RuleResult>, severity: Severity, passed: bool): nat {
    |Having(results, severity, passed)|
  }

  lemma HavingSnoc(results: seq<RuleResult>, r: RuleResult, severity: Severity, passed: bool)
    ensures Having(results + [r], severity, passed)
            == Having(results, severity, passed)
               + if r.severity == severity && (passed ==> r.passed) then {|results|} else {}
    ensures |results| !in Having(results, severity, passed)
  {
    var more := results + [r];
    assert forall i :: 0 <= i < |results| ==> more[i] == results[i];
    assert more[|results|] == r;
  }

  lemma HowManySnoc(results: seq<RuleResult>, r: RuleResult, severity: Severity, passed: bool)
    ensures HowMany(results + [r], severity, passed)
            == HowMany(results, severity, passed) + if r.severity == severity && (passed ==> r.passed) then 1 else 0
  {
    hide Having;
    HavingSnoc(results, r, severity, passed);
  }

  /** Points are 5, 3, 2 and 1 for each critical, high, medium and low result. */
  lemma {:induction false} PointsExactly(results: seq<RuleResult>)
    ensures Earned(results) == 5 * HowMany(results, Critical, true) + 3 * HowMany(results, High, true)
                               + 2 * HowMany(results, Medium, true) + HowMany(results, Low, true)
    ensures Possible(results) == 5 * HowMany(results, Critical, false) + 3 * HowMany(results, High, false)
                                 + 2 * HowMany(results, Medium, false) + HowMany(results, Low, false)
  {
    if results != [] {
      var front, last := results[..|results| - 1], results[|results| - 1];
      assert results == front + [last];
      PointsExactly(front);
      EarnedOneMore(front, last);
      forall s: Severity, passed: bool
        ensures HowMany(results, s, passed)
                == HowMany(front, s, passed) + if last.severity == s && (passed ==> last.passed) then 1 else 0
      {
        HowManySnoc(front, last, s, passed);
      }
      hide HowMany, Earned, Possible;
    }
  }

  /** Readiness results count in the main score exactly on a full audit of a server with the modern lifecycle. */
  lemma TotalsExactly(rules: seq<Rule>, audit: Audit, config: Option<RuleConfig>)
    ensures var run := RunOf(rules, audit, config);
            var promoted := (audit.era == Some(Modern) || audit.era == Some(Dual)) && !audit.data.partial;
            && run.score == Earned(run.results) + (if promoted then Earned(run.readiness) else 0)
            && run.maxScore == Possible(run.results) + (if promoted then Possible(run.readiness) else 0)
            && run.readinessScore == Earned(run.readiness) && run.readinessMax == Possible(run.readiness)
  {
    hide ResultsOf, SkipsOf, Earned, Possible, Considered;
  }

  // ---------- the gate and the defaults ----------

  /** A failure of at least the threshold's points. */
  ghost predicate Trips(r: RuleResult, failOn: Severity) {
    && !r.passed
    && match failOn
       case Critical => r.severity == Critical
       case High => r.severity == Critical || r.severity == High
       case Medium => r.severity != Low
       case Low => true
  }

  ghost function TripsAt(failOn: Severity): RuleResult -> bool {
    (r: RuleResult) => Trips(r, failOn)
  }

  ghost function IdOf(): RuleResult -> string {
    (r: RuleResult) => r.ruleId
  }

  lemma {:induction false} GatePicked(results: seq<RuleResult>, failOn: Severity) returns (at: seq<nat>)
    ensures Picked(results, TripsAt(failOn), IdOf(), GateFailures(results, failOn), at)
  {
    at := [];
    if results != [] {
      var front, last := results[..|results| - 1], results[|results| - 1];
      assert results == front + [last];
      at := GatePicked(front, failOn);
      PickedSnoc(front, last, TripsAt(failOn), IdOf(), GateFailures(front, failOn), at);
      hide Picked;
      if TripsAt(failOn)(last) {
        at := at + [|front|];
      }
    }
  }

  /** The rule runs with a configured severity that is not its result's own. */
  ghost predicate Reranks(rule: Rule, audit: Audit, config: Option<RuleConfig>) {
    && SkipReason(rule, audit, config).None? && config.Some? && rule.id in config.value.overrides
    && config.value.overrides[rule.id].Some?
    && config.value.overrides[rule.id].value != audit.check(rule, audit.data).severity
  }

  /** The defaults kept are the own severities of exactly the re-ranked rules, beside those kept before. */
  lemma {:induction false} DefaultsExactly(before: map<string, Severity>, rules: seq<Rule>, audit: Audit,
                                              config: Option<RuleConfig>)
    requires UniqueIds(rules)
    ensures var after := DefaultsAfter(before, rules, audit, config);
            && (forall r <- rules :: Reranks(r, audit, config) ==>
                  r.id in after && after[r.id] == audit.check(r, audit.data).severity)
            && (forall id :: (forall r <- rules :: r.id == id ==> !Reranks(r, audit, config)) ==>
                  (id in after <==> id in before) && (id in before ==> after[id] == before[id]))
  {
    if rules != [] {
      var front, last := rules[..|rules| - 1], rules[|rules| - 1];
      assert rules == front + [last];
      LastIsUnique(rules);
      DefaultsExactly(before, front, audit, config);
      DefaultsOneMore(before, front, last, audit, config);
      WithDefaultIs(DefaultsAfter(before, front, audit, config), last, audit, config);
      hide DefaultsAfter, WithDefault, Reranks;
    }
  }

  lemma WithDefaultIs(before: map<string, Severity>, rule: Rule, audit: Audit, config: Option<RuleConfig>)
    ensures WithDefault(before, rule, audit, config)
            == if Reranks(rule, audit, config) then before[rule.id := audit.check(rule, audit.data).severity]
               else before
  {
    hide SkipReason;
  }
}
