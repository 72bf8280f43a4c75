/** Audit rules: which spec versions they apply to, and the order they run in. */
module Rules {
  import opened Ordering
  import opened Wrappers

  datatype Severity = Critical | High | Medium | Low

  function Weight(s: Severity): (w: nat)
    ensures 1 <= w <= 5
  {
    match s
    case Critical => 5
    case High => 3
    case Medium => 2
    case Low => 1
  }

  datatype Rule = Rule(
    id: string, group: string, groupOrder: int, ruleOrder: int,
    minVersion: Option<string>, maxVersion: Option<string>,
    usesModernProbeEvidence: bool, fields: seq<string>, basis: Option<string>)

  // ---------- applicability ----------

  /** Version identifiers are dates, so text order is chronological. */
  function Compare(a: string, b: string): int {
    if a == b then 0 else if TextLess(a, b) then -1 else 1
  }

  predicate AppliesTo(rule: Rule, version: Option<string>) {
    if version.None? then true
    else if rule.minVersion.Some? && Compare(version.value, rule.minVersion.value) < 0 then false
    else !(rule.maxVersion.Some? && Compare(version.value, rule.maxVersion.value) > 0)
  }

  /** A version range is an interval: what applies to two versions applies to every version between them. */
  lemma AppliesToInterval(rule: Rule, older: string, between: string, newer: string)
    requires AppliesTo(rule, Some(older)) && AppliesTo(rule, Some(newer))
    requires !TextLess(between, older) && !TextLess(newer, between)
    ensures AppliesTo(rule, Some(between))
  {
    TextLessIsStrictWeakOrder();
    if rule.minVersion.Some? {
      TextLessTotal(older, rule.minVersion.value);
      TextLessTotal(between, rule.minVersion.value);
    }
    if rule.maxVersion.Some? {
      TextLessTotal(newer, rule.maxVersion.value);
      TextLessTotal(between, rule.maxVersion.value);
    }
  }

  // ---------- the order of execution ----------

  /** `rule_sort_key`, compared as tuples are. */
  predicate RuleLess(a: Rule, b: Rule) {
    || a.groupOrder < b.groupOrder
    || (a.groupOrder == b.groupOrder
        && (TextLess(a.group, b.group)
            || (a.group == b.group
                && (a.ruleOrder < b.ruleOrder
                    || (a.ruleOrder == b.ruleOrder && TextLess(a.id, b.id))))))
  }

  lemma RuleLessTotal(a: Rule, b: Rule)
    requires a.id != b.id
    ensures RuleLess(a, b) || RuleLess(b, a)
  {
    TextLessTotal(a.group, b.group);
    TextLessTotal(a.id, b.id);
  }

  lemma RuleLessAsymmetric(a: Rule, b: Rule)
    requires RuleLess(a, b)
    ensures !RuleLess(b, a)
  {
    if TextLess(a.group, b.group) {
      TextLessAsymmetric(a.group, b.group);
    }
    if TextLess(b.group, a.group) {
      TextLessAsymmetric(b.group, a.group);
    }
    if TextLess(a.id, b.id) {
      TextLessAsymmetric(a.id, b.id);
    }
  }

  /** Not after, spelled out: what the sort actually relies on. */
  lemma NotAfterTransitive(a: Rule, b: Rule, c: Rule)
    requires !RuleLess(b, a) && !RuleLess(c, b)
    ensures !RuleLess(c, a)
  {
    TextLessIsStrictWeakOrder();
    TextLessTotal(a.group, b.group);
    TextLessTotal(b.group, c.group);
    assert !TextLess(b.group, a.group) && !TextLess(c.group, b.group) ==> !TextLess(c.group, a.group);
    assert !TextLess(b.id, a.id) && !TextLess(c.id, b.id) ==> !TextLess(c.id, a.id);
  }

  lemma RuleLessIsStrictWeakOrder()
    ensures StrictWeakOrder(RuleLess)
  {
    forall a, b | RuleLess(a, b) ensures !RuleLess(b, a) {
      RuleLessAsymmetric(a, b);
    }
    forall a, b, c | !RuleLess(b, a) && !RuleLess(c, b) ensures !RuleLess(c, a) {
      NotAfterTransitive(a, b, c);
    }
  }

  ghost predicate DistinctIds(rules: seq<Rule>) {
    forall a, b :: a in rules && b in rules && a != b ==> a.id != b.id
  }

  /** The execution order does not depend on the order of registration. */
  lemma OrderIgnoresRegistration(rules: seq<Rule>, others: seq<Rule>)
    requires DistinctIds(rules) && multiset(rules) == multiset(others)
    ensures Sort(rules, RuleLess) == Sort(others, RuleLess)
  {
    RuleLessIsStrictWeakOrder();
    forall a, b | a in rules && b in rules && a != b ensures RuleLess(a, b) || RuleLess(b, a) {
      RuleLessTotal(a, b);
    }
    hide RuleLess, Sort;
    SortIgnoresOrder(rules, others, RuleLess);
  }
}
