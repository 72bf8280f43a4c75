/** What every scoring run keeps, and what registration order and a configuration do to it. */
module ScoringLaws {
  import opened Rules
  import opened Scoring
  import opened Sequences
  import opened Wrappers

  // ---------- every rule ends in exactly one list ----------

  function ResultIds(results: seq<RuleResult>): seq<string> {
    seq(|results|, i requires 0 <= i < |results| => results[i].ruleId)
  }

  function SkipIds(skipped: seq<SkippedRule>): seq<string> {
    seq(|skipped|, i requires 0 <= i < |skipped| => skipped[i].ruleId)
  }

  function RuleIds(rules: seq<Rule>): seq<string> {
    seq(|rules|, i requires 0 <= i < |rules| => rules[i].id)
  }

  ghost predicate UniqueIds(rules: seq<Rule>) {
    forall i, j :: 0 <= i < j < |rules| ==> rules[i].id != rules[j].id
  }

  /** The identities of a run's three lists together. */
  ghost function Reported(run: Run): multiset<string> {
    multiset(ResultIds(run.results)) + multiset(ResultIds(run.readiness)) + multiset(SkipIds(run.skipped))
  }

  lemma IdsSnoc(results: seq<RuleResult>, r: RuleResult, skipped: seq<SkippedRule>, s: SkippedRule,
                rules: seq<Rule>, rule: Rule)
    ensures ResultIds(results + [r]) == ResultIds(results) + [r.ruleId]
    ensures SkipIds(skipped + [s]) == SkipIds(skipped) + [s.ruleId]
    ensures RuleIds(rules + [rule]) == RuleIds(rules) + [rule.id]
  {
  }

  lemma ReportedOneMore(run: Run, rule: Rule, audit: Audit, config: Option<RuleConfig>)
    ensures Reported(WithRule(run, rule, audit, config)) == Reported(run) + multiset{rule.id}
  {
    var r := ResultOf(rule, audit, config);
    assert r.ruleId == rule.id;
    var reason := SkipReason(rule, audit, config);
    var s := SkippedRule(rule.id, if reason.Some? then reason.value else "");
    IdsSnoc(run.results, r, run.skipped, s, [], rule);
    IdsSnoc(run.readiness, r, run.skipped, s, [], rule);
    hide ResultOf, SkipReason, ResultIds, SkipIds;
    assert run.results + [] == run.results && run.readiness + [] == run.readiness;
  }

  lemma {:induction false} EveryRuleReportedOnce(rules: seq<Rule>, audit: Audit, config: Option<RuleConfig>)
    ensures Reported(RunOver(rules, audit, config)) == multiset(RuleIds(rules))
  {
    if rules == [] {
      NothingYet(audit, config);
    } else {
      var front, last := rules[..|rules| - 1], rules[|rules| - 1];
      assert rules == front + [last];
      EveryRuleReportedOnce(front, audit, config);
      RunOneMore(front, last, audit, config);
      ReportedOneMore(RunOver(front, audit, config), last, audit, config);
      assert RuleIds(rules) == RuleIds(front) + [last.id];
      hide *;
      MultisetSnoc(RuleIds(front), last.id);
    }
  }

  lemma {:induction false} ForTargetCount(rules: seq<Rule>, package: bool, r: Rule)
    ensures multiset(ForTarget(rules, package))[r]
            == if (r.group == PACKAGING_GROUP) == package then multiset(rules)[r] else 0
  {
    if rules != [] {
      ForTargetCount(rules[..|rules| - 1], package, r);
      assert rules == rules[..|rules| - 1] + [rules[|rules| - 1]];
    }
  }

  lemma {:induction false} IdCount(rules: seq<Rule>, id: string)
    requires UniqueIds(rules)
    ensures multiset(RuleIds(rules))[id] == if exists r <- rules :: r.id == id then 1 else 0
  {
    if rules != [] {
      var front, last := rules[..|rules| - 1], rules[|rules| - 1];
      IdCount(front, id);
      assert rules == front + [last];
      assert RuleIds(rules) == RuleIds(front) + [last.id];
      assert forall i :: 0 <= i < |front| ==> front[i] == rules[i];
      assert forall r <- front :: r.id != last.id;
    }
  }

  lemma LastIsUnique(rules: seq<Rule>)
    requires UniqueIds(rules) && rules != []
    ensures var front, last := rules[..|rules| - 1], rules[|rules| - 1];
            UniqueIds(front) && forall r <- front :: r.id != last.id
  {
    var front := rules[..|rules| - 1];
    assert forall i :: 0 <= i < |front| ==> front[i] == rules[i];
  }

  lemma {:induction false} ForTargetUnique(rules: seq<Rule>, package: bool)
    requires UniqueIds(rules)
    ensures UniqueIds(ForTarget(rules, package))
    ensures forall r <- ForTarget(rules, package) :: r in rules && (r.group == PACKAGING_GROUP) == package
    ensures forall r <- rules :: (r.group == PACKAGING_GROUP) == package ==> r in ForTarget(rules, package)
  {
    if rules != [] {
      var front, last := rules[..|rules| - 1], rules[|rules| - 1];
      assert rules == front + [last];
      LastIsUnique(rules);
      ForTargetUnique(front, package);
    }
  }

  lemma SameIdsWhenPermuted(a: seq<Rule>, b: seq<Rule>)
    requires multiset(a) == multiset(b) && UniqueIds(b)
    ensures forall id :: multiset(RuleIds(a))[id] == multiset(RuleIds(b))[id]
  {
    UniqueWhenPermuted(b, a);
    forall id ensures multiset(RuleIds(a))[id] == multiset(RuleIds(b))[id] {
      IdCount(a, id);
      IdCount(b, id);
      assert forall r :: r in a <==> r in multiset(a);
      assert forall r :: r in b <==> r in multiset(b);
    }
  }

  lemma UniqueWhenPermuted(a: seq<Rule>, b: seq<Rule>)
    requires multiset(a) == multiset(b) && UniqueIds(a)
    ensures UniqueIds(b)
  {
    forall i, j | 0 <= i < j < |b| ensures b[i].id != b[j].id {
      var head, tail := b[..j], b[j..];
      assert b == head + tail;
      assert head[i] == b[i] && tail[0] == b[j];
      assert multiset(b)[b[i]] == multiset(head)[b[i]] + multiset(tail)[b[i]];
      assert b[i] in multiset(head) && b[j] in multiset(tail);
      CountAtMostOne(a, b[i]);
      assert b[i] in multiset(a) && b[j] in multiset(a);
    }
  }

  lemma {:induction false} CountAtMostOne(a: seq<Rule>, r: Rule)
    requires UniqueIds(a)
    ensures multiset(a)[r] <= 1
  {
    if a != [] {
      var front, last := a[..|a| - 1], a[|a| - 1];
      CountAtMostOne(front, r);
      assert a == front + [last];
      assert forall i :: 0 <= i < |front| ==> front[i] == a[i];
      assert last !in front;
    }
  }

  /** Every rule for the target, and no other, ends in exactly one of the three lists, once. */
  lemma ExactlyOneList(rules: seq<Rule>, audit: Audit, config: Option<RuleConfig>, id: string)
    requires UniqueIds(rules)
    ensures Reported(RunOf(rules, audit, config))[id]
            == if exists r <- rules :: r.id == id && (r.group == PACKAGING_GROUP) == audit.data.package then 1 else 0
  {
    var target, sorted := ForTarget(rules, audit.data.package), Considered(rules, audit);
    EveryRuleReportedOnce(sorted, audit, config);
    ForTargetUnique(rules, audit.data.package);
    SameIdsWhenPermuted(sorted, target);
    IdCount(target, id);
  }

  // ---------- scores ----------

  lemma {:induction false} EarnedAtMostPossible(results: seq<RuleResult>)
    ensures Earned(results) <= Possible(results)
    ensures Earned(results) == Possible(results) <==> forall r <- results :: r.passed
  {
    if results != [] {
      EarnedAtMostPossible(results[..|results| - 1]);
      assert results == results[..|results| - 1] + [results[|results| - 1]];
    }
  }

  lemma {:induction false} EarnedAppend(a: seq<RuleResult>, b: seq<RuleResult>)
    ensures Earned(a + b) == Earned(a) + Earned(b) && Possible(a + b) == Possible(a) + Possible(b)
  {
    if b == [] {
      assert a + b == a;
    } else {
      EarnedAppend(a, b[..|b| - 1]);
      assert (a + b)[..|a + b| - 1] == a + b[..|b| - 1];
    }
  }

  /** The scores are the weights of the counted results, passed and all; neither axis exceeds its maximum. */
  lemma ScoresAreWeights(rules: seq<Rule>, audit: Audit, config: Option<RuleConfig>)
    ensures var run := RunOf(rules, audit, config);
            && run.score == Earned(Counted(run, Promoted(audit)))
            && run.maxScore == Possible(Counted(run, Promoted(audit)))
            && run.score <= run.maxScore && run.readinessScore <= run.readinessMax
            && (run.score == run.maxScore <==> forall r <- Counted(run, Promoted(audit)) :: r.passed)
  {
    var run := RunOf(rules, audit, config);
    EarnedAppend(run.results, if Promoted(audit) then run.readiness else []);
    EarnedAtMostPossible(Counted(run, Promoted(audit)));
    EarnedAtMostPossible(run.readiness);
  }

  /** The whole outcome is the same for every order of registration. */
  lemma RunIgnoresRegistration(rules: seq<Rule>, others: seq<Rule>, audit: Audit, config: Option<RuleConfig>)
    requires UniqueIds(rules) && multiset(rules) == multiset(others)
    ensures RunOf(rules, audit, config) == RunOf(others, audit, config)
  {
    var package := audit.data.package;
    var a, b := ForTarget(rules, package), ForTarget(others, package);
    forall r ensures multiset(a)[r] == multiset(b)[r] {
      ForTargetCount(rules, package, r);
      ForTargetCount(others, package, r);
    }
    assert multiset(a) == multiset(b);
    ForTargetUnique(rules, package);
    assert DistinctIds(a);
    OrderIgnoresRegistration(a, b);
  }

  // ---------- a configuration is a change of weight ----------

  function NewWeight(r: RuleResult, config: Option<RuleConfig>): nat {
    Weight(Reranked(r, config).severity)
  }

  /** What the configuration makes of unconfigured results: those turned off go, the rest are re-ranked. */
  function Reconfigured(results: seq<RuleResult>, config: Option<RuleConfig>): seq<RuleResult> {
    if results == [] then []
    else
      var last := results[|results| - 1];
      Reconfigured(results[..|results| - 1], config)
      + if Off(last.ruleId, config) then [] else [Reranked(last, config)]
  }

  /** One rule, with and without the configuration. */
  lemma RuleUnderConfig(rule: Rule, audit: Audit, config: Option<RuleConfig>)
    ensures var canonical := SkipReason(rule, audit, None);
            && (canonical.Some? ==> SkipReason(rule, audit, config) == canonical)
            && (canonical.None? && Off(rule.id, config) ==> SkipReason(rule, audit, config) == Some(DISABLED_BY_CONFIG))
            && (canonical.None? && !Off(rule.id, config) ==> SkipReason(rule, audit, config).None?)
    ensures var own := ResultOf(rule, audit, None);
            && own.ruleId == rule.id
            && ResultOf(rule, audit, config) == Reranked(own, config)
            && ResultOf(rule, audit, config).passed == own.passed
  {
  }

  lemma {:induction false} ResultsUnderConfig(rules: seq<Rule>, audit: Audit, config: Option<RuleConfig>,
                                                 readiness: bool)
    ensures ResultsOf(rules, audit, config, readiness)
            == Reconfigured(ResultsOf(rules, audit, None, readiness), config)
  {
    if rules != [] {
      var front, last := rules[..|rules| - 1], rules[|rules| - 1];
      ResultsUnderConfig(front, audit, config, readiness);
      assert rules == front + [last];
      ResultsOneMore(front, last, audit, config, readiness);
      ResultsOneMore(front, last, audit, None, readiness);
      RuleUnderConfig(last, audit, config);
      var before, own := ResultsOf(front, audit, None, readiness), ResultOf(last, audit, None);
      ReconfiguredSnoc(before, own, config);
      hide ResultsOf, ResultOf, SkipReason, Reranked, Reconfigured;
    }
  }

  lemma ReconfiguredSnoc(results: seq<RuleResult>, r: RuleResult, config: Option<RuleConfig>)
    ensures Reconfigured(results + [r], config) ==
            Reconfigured(results, config) + if Off(r.ruleId, config) then [] else [Reranked(r, config)]
  {
    assert (results + [r])[..|results|] == results;
    hide Reranked, Off;
  }

  /** What the configuration adds to or takes from the weight of one result. */
  function Delta(r: RuleResult, config: Option<RuleConfig>): int {
    if Off(r.ruleId, config) then -(Weight(r.severity) as int) else NewWeight(r, config) - Weight(r.severity)
  }

  function PossibleDelta(results: seq<RuleResult>, config: Option<RuleConfig>): int {
    if results == [] then 0
    else PossibleDelta(results[..|results| - 1], config) + Delta(results[|results| - 1], config)
  }

  function EarnedDelta(results: seq<RuleResult>, config: Option<RuleConfig>): int {
    if results == [] then 0
    else
      var last := results[|results| - 1];
      EarnedDelta(results[..|results| - 1], config) + if last.passed then Delta(last, config) else 0
  }

  lemma {:induction false} ReconfiguredWeights(results: seq<RuleResult>, config: Option<RuleConfig>)
    ensures Earned(Reconfigured(results, config)) == Earned(results) + EarnedDelta(results, config)
    ensures Possible(Reconfigured(results, config)) == Possible(results) + PossibleDelta(results, config)
  {
    if results != [] {
      var front, last := results[..|results| - 1], results[|results| - 1];
      ReconfiguredWeights(front, config);
      EarnedOneMore(Reconfigured(front, config), Reranked(last, config));
      assert Reconfigured(front, config) + [] == Reconfigured(front, config);
    }
  }

  lemma {:induction false} ReconfiguredAppend(a: seq<RuleResult>, b: seq<RuleResult>, config: Option<RuleConfig>)
    ensures Reconfigured(a + b, config) == Reconfigured(a, config) + Reconfigured(b, config)
  {
    if b == [] {
      assert a + b == a;
    } else {
      ReconfiguredAppend(a, b[..|b| - 1], config);
      assert (a + b)[..|a + b| - 1] == a + b[..|b| - 1];
    }
  }

  /**
   Against the unconfigured run on the same data: the results are the same ones less those turned off, re-ranked;
   promotion is untouched; and both scores differ by exactly the deltas of the counted results.
   */
  lemma ConfigurationIsAChangeOfWeight(rules: seq<Rule>, audit: Audit, config: Option<RuleConfig>)
    ensures var run, plain := RunOf(rules, audit, config), RunOf(rules, audit, None);
            var counted := Counted(plain, Promoted(audit));
            && run.results == Reconfigured(plain.results, config)
            && run.readiness == Reconfigured(plain.readiness, config)
            && Counted(run, Promoted(audit)) == Reconfigured(counted, config)
            && run.score == plain.score + EarnedDelta(counted, config)
            && run.maxScore == plain.maxScore + PossibleDelta(counted, config)
            && run.readinessScore == plain.readinessScore + EarnedDelta(plain.readiness, config)
            && run.readinessMax == plain.readinessMax + PossibleDelta(plain.readiness, config)
  {
    var sorted := Considered(rules, audit);
    ResultsUnderConfig(sorted, audit, config, false);
    ResultsUnderConfig(sorted, audit, config, true);
    ScoresAreWeights(rules, audit, config);
    ScoresAreWeights(rules, audit, None);
    var plain := RunOf(rules, audit, None);
    var counted := Counted(plain, Promoted(audit));
    ReconfiguredAppend(plain.results, if Promoted(audit) then plain.readiness else [], config);
    ReconfiguredWeights(counted, config);
    ReconfiguredWeights(plain.readiness, config);
  }

  /** The skips that are not merely the configuration's: `ran` are the rules that run without it. */
  function CanonicalSkips(skipped: seq<SkippedRule>, ran: set<string>): seq<SkippedRule> {
    if skipped == [] then []
    else
      var last := skipped[|skipped| - 1];
      CanonicalSkips(skipped[..|skipped| - 1], ran) + if last.ruleId in ran then [] else [last]
  }

  lemma CanonicalSkipsSnoc(skipped: seq<SkippedRule>, s: SkippedRule, ran: set<string>)
    ensures CanonicalSkips(skipped + [s], ran) == CanonicalSkips(skipped, ran) + if s.ruleId in ran then [] else [s]
  {
    assert (skipped + [s])[..|skipped|] == skipped;
  }

  lemma {:induction false} SkipsUnderConfig(rules: seq<Rule>, audit: Audit, config: Option<RuleConfig>,
                                               ran: set<string>)
    requires forall r <- rules :: r.id in ran <==> Runs(r, audit, None)
    ensures CanonicalSkips(SkipsOf(rules, audit, config), ran) == SkipsOf(rules, audit, None)
    ensures forall s <- SkipsOf(rules, audit, config) ::
              s.ruleId in ran ==> s.reason == DISABLED_BY_CONFIG && Off(s.ruleId, config)
  {
    if rules != [] {
      var front, last := rules[..|rules| - 1], rules[|rules| - 1];
      assert rules == front + [last];
      assert last in rules;
      SkipsUnderConfig(front, audit, config, ran);
      SkipsOneMore(front, last, audit, config);
      SkipsOneMore(front, last, audit, None);
      RuleUnderConfig(last, audit, config);
      var reason := SkipReason(last, audit, config);
      hide SkipsOf, SkipReason;
      if reason.Some? {
        CanonicalSkipsSnoc(SkipsOf(front, audit, config), SkippedRule(last.id, reason.value), ran);
        assert SkipsOf(front, audit, None) + [] == SkipsOf(front, audit, None);
      }
    }
  }

  /** Every canonical skip keeps its reason and its place; what the configuration adds is marked as its own doing. */
  lemma ConfigurationKeepsCanonicalSkips(rules: seq<Rule>, audit: Audit, config: Option<RuleConfig>)
    requires UniqueIds(rules)
    ensures var run, plain := RunOf(rules, audit, config), RunOf(rules, audit, None);
            var ran := set r | r in Considered(rules, audit) && Runs(r, audit, None) :: r.id;
            && CanonicalSkips(run.skipped, ran) == plain.skipped
            && forall s <- run.skipped :: s.ruleId in ran ==> s.reason == DISABLED_BY_CONFIG && Off(s.ruleId, config)
  {
    var sorted := Considered(rules, audit);
    var ran := set r | r in sorted && Runs(r, audit, None) :: r.id;
    ForTargetUnique(rules, audit.data.package);
    UniqueWhenPermuted(ForTarget(rules, audit.data.package), sorted);
    forall r | r in sorted ensures r.id in ran <==> Runs(r, audit, None) {
      if r.id in ran {
        var other :| other in sorted && Runs(other, audit, None) && other.id == r.id;
        var i :| 0 <= i < |sorted| && sorted[i] == r;
        var j :| 0 <= j < |sorted| && sorted[j] == other;
        assert i == j;
      }
    }
    SkipsUnderConfig(sorted, audit, config, ran);
  }

  // ---------- the gate ----------

  lemma {:induction false} GateMembers(results: seq<RuleResult>, failOn: Severity)
    ensures forall id :: id in GateFailures(results, failOn) <==>
              exists r <- results :: r.ruleId == id && !r.passed && Weight(r.severity) >= Weight(failOn)
  {
    if results != [] {
      GateMembers(results[..|results| - 1], failOn);
      assert results == results[..|results| - 1] + [results[|results| - 1]];
    }
  }

  lemma {:induction false} ReconfiguredMembers(results: seq<RuleResult>, config: Option<RuleConfig>)
    ensures forall r <- results :: !Off(r.ruleId, config) ==> Reranked(r, config) in Reconfigured(results, config)
    ensures forall x <- Reconfigured(results, config) ::
              exists r <- results :: !Off(r.ruleId, config) && x == Reranked(r, config)
  {
    if results != [] {
      ReconfiguredMembers(results[..|results| - 1], config);
      assert results == results[..|results| - 1] + [results[|results| - 1]];
    }
  }

  /** The gate trips on exactly the counted failures still on, at or above the threshold by their configured weight. */
  lemma GateIsExact(rules: seq<Rule>, audit: Audit, config: Option<RuleConfig>, failOn: Severity, id: string)
    ensures var run, plain := RunOf(rules, audit, config), RunOf(rules, audit, None);
            id in GateFailures(Counted(run, Promoted(audit)), failOn) <==>
            exists r <- Counted(plain, Promoted(audit)) ::
              r.ruleId == id && !Off(id, config) && !r.passed && NewWeight(r, config) >= Weight(failOn)
  {
    ConfigurationIsAChangeOfWeight(rules, audit, config);
    var counted := Counted(RunOf(rules, audit, None), Promoted(audit));
    GateMembers(Reconfigured(counted, config), failOn);
    ReconfiguredMembers(counted, config);
  }
}
