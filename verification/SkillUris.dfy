/** The skill URIs of a listing, and a URI beside them that no listed skill uses. */
module SkillUris {
  import opened FreshNames
  import opened Sequences
  import opened UriExactness
  import opened UriNormalForm
  import opened UriText
  import opened Wrappers

  const SKILL_FILE: Text := Ascii("SKILL.md")
  const UNKNOWN_SKILL_NAME: Text := Ascii("mcpscore-no-such-skill")
  const DEFAULT_PREFIX: Text := Ascii("skill://")
  const DASH: CodePoint := '-' as int
  const MAX_SKILL_FILES := 32

  /** A listed entry, as far as its URI: None when the entry is not an object with a text `uri`. */
  type Entry = Option<Text>

  // ---------- _listed_skill_uris ----------

  predicate Holds(uris: seq<Text>, uri: Text) {
    exists u <- uris :: Normalize(u) == Normalize(uri)
  }

  /** The distinct URIs in listing order, each as first spelled. */
  function DistinctUris(entries: seq<Entry>): seq<Text> {
    if entries == [] then []
    else
      var uris := DistinctUris(entries[..|entries| - 1]);
      var last := entries[|entries| - 1];
      if last.None? || Holds(uris, last.value) then uris else uris + [last.value]
  }

  function ListedSkillUris(entries: seq<Entry>): seq<Text> {
    var uris := DistinctUris(entries);
    if |uris| <= MAX_SKILL_FILES then uris else uris[..MAX_SKILL_FILES]
  }

  method CollectSkillUris(entries: seq<Entry>) returns (uris: seq<Text>)
    ensures uris == ListedSkillUris(entries)
    ensures exists at: seq<nat> :: FirstSkills(entries, uris, at)
  {
    ghost var at := FirstSkillsListed(entries);
    uris := [];
    var forms: set<Text> := {};
    NothingListed();
    hide Normalize, DistinctUris, Holds, Forms, FirstSkills;
    for i := 0 to |entries|
      invariant uris == DistinctUris(entries[..i])
      invariant forms == Forms(uris)
    {
      assert entries[..i + 1] == entries[..i] + [entries[i]];
      DistinctUrisStep(entries[..i], entries[i]);
      if entries[i].Some? {
        var form := Normalize(entries[i].value);
        HoldsForm(uris, entries[i].value);
        FormsSnoc(uris, entries[i].value);
        if form !in forms {
          forms := forms + {form};
          uris := uris + [entries[i].value];
        }
      }
    }
    assert entries[..|entries|] == entries;
    if |uris| > MAX_SKILL_FILES {
      uris := uris[..MAX_SKILL_FILES];
    }
  }

  lemma NothingListed()
    ensures DistinctUris([]) == [] && Forms([]) == {}
  {
  }

  /** The normal forms of all listed URIs. */
  function ListedForms(entries: seq<Entry>): set<Text> {
    set e | e in entries && e.Some? :: Normalize(e.value)
  }

  ghost predicate DistinctForms(uris: seq<Text>) {
    forall i, j :: 0 <= i < j < |uris| ==> Normalize(uris[i]) != Normalize(uris[j])
  }

  function Forms(uris: seq<Text>): set<Text> {
    set u | u in uris :: Normalize(u)
  }

  lemma DistinctUrisStep(front: seq<Entry>, last: Entry)
    ensures DistinctUris(front + [last]) ==
            if last.None? || Holds(DistinctUris(front), last.value) then DistinctUris(front)
            else DistinctUris(front) + [last.value]
  {
    assert (front + [last])[..|front|] == front;
    hide Holds;
  }

  lemma {:induction false} DistinctUrisAreDistinct(entries: seq<Entry>)
    ensures DistinctForms(DistinctUris(entries))
  {
    if entries != [] {
      var front, last := entries[..|entries| - 1], entries[|entries| - 1];
      assert entries == front + [last];
      DistinctUrisAreDistinct(front);
      DistinctUrisStep(front, last);
      hide DistinctUris, Holds, DistinctForms;
      if last.Some? && !Holds(DistinctUris(front), last.value) {
        StillDistinct(DistinctUris(front), last.value);
      }
    }
  }

  lemma {:induction false} DistinctUrisMissNone(entries: seq<Entry>)
    ensures Forms(DistinctUris(entries)) == ListedForms(entries)
  {
    if entries != [] {
      var front, last := entries[..|entries| - 1], entries[|entries| - 1];
      assert entries == front + [last];
      DistinctUrisMissNone(front);
      DistinctUrisStep(front, last);
      ListedFormsSnoc(front, last);
      hide DistinctUris, Holds, Forms, ListedForms;
      if last.Some? {
        FormsSnoc(DistinctUris(front), last.value);
        HoldsForm(DistinctUris(front), last.value);
      }
    }
  }

  lemma {:induction false} DistinctUrisAreListed(entries: seq<Entry>)
    ensures forall u <- DistinctUris(entries) :: Some(u) in entries
  {
    if entries != [] {
      var front, last := entries[..|entries| - 1], entries[|entries| - 1];
      assert entries == front + [last];
      DistinctUrisAreListed(front);
      DistinctUrisStep(front, last);
      hide DistinctUris, Holds;
    }
  }

  /** No form is listed twice, none is missed, and each is spelled as it was listed. */
  lemma DistinctUrisFacts(entries: seq<Entry>)
    ensures var uris := DistinctUris(entries);
            && DistinctForms(uris) && Forms(uris) == ListedForms(entries) && forall u <- uris :: Some(u) in entries
  {
    DistinctUrisAreDistinct(entries);
    DistinctUrisMissNone(entries);
    DistinctUrisAreListed(entries);
    hide DistinctUris, DistinctForms, Forms, ListedForms;
  }

  lemma HoldsForm(uris: seq<Text>, uri: Text)
    ensures Holds(uris, uri) <==> Normalize(uri) in Forms(uris)
  {
    hide Normalize;
  }

  lemma StillDistinct(uris: seq<Text>, last: Text)
    requires DistinctForms(uris) && !Holds(uris, last)
    ensures DistinctForms(uris + [last])
  {
    assert forall i :: 0 <= i < |uris| ==> uris[i] in uris;
    hide Normalize;
  }

  lemma ListedFormsSnoc(entries: seq<Entry>, last: Entry)
    ensures ListedForms(entries + [last]) ==
            ListedForms(entries) + (if last.Some? then {Normalize(last.value)} else {})
  {
    hide Normalize;
  }

  lemma FormsSnoc(uris: seq<Text>, last: Text)
    ensures Forms(uris + [last]) == Forms(uris) + {Normalize(last)}
  {
    hide Normalize;
  }

  // ---------- which URIs those are ----------

  /** Entry `i` is the first whose URI has its normal form. */
  ghost predicate FirstOfItsForm(entries: seq<Entry>, i: nat)
    requires i < |entries|
  {
    && entries[i].Some?
    && forall j :: 0 <= j < i && entries[j].Some? ==> Normalize(entries[j].value) != Normalize(entries[i].value)
  }

  /** Entry `i` is the first of its form, and `k` forms are listed before it. */
  ghost predicate SkillNumber(entries: seq<Entry>, i: nat, k: nat) {
    i < |entries| && FirstOfItsForm(entries, i) && |ListedForms(entries[..i])| == k
  }

  ghost predicate Increasing(at: seq<nat>) {
    forall k, l :: 0 <= k < l < |at| ==> at[k] < at[l]
  }

  /** `uris` are spelled by the entries at `at`: the first of each form, in listing order. */
  ghost predicate SpelledAt(entries: seq<Entry>, uris: seq<Text>, at: seq<nat>) {
    && |at| == |uris| && Increasing(at)
    && forall k :: 0 <= k < |at| ==> SkillNumber(entries, at[k], k) && uris[k] == entries[at[k]].value
  }

  /** The first 32 distinct forms of the listing, in order of appearance, each as it was first spelled. */
  ghost predicate FirstSkills(entries: seq<Entry>, uris: seq<Text>, at: seq<nat>) {
    && SpelledAt(entries, uris, at)
    && |uris| == (if |ListedForms(entries)| < 32 then |ListedForms(entries)| else 32)
    && forall i: nat, k: nat :: SkillNumber(entries, i, k) && k < 32 ==> i in at
  }

  /** The last entry is the first of its form exactly when that form is not listed before it. */
  lemma LastIsFirstOfItsForm(front: seq<Entry>, last: Entry)
    ensures FirstOfItsForm(front + [last], |front|) <==> last.Some? && Normalize(last.value) !in ListedForms(front)
  {
    hide Normalize;
    if last.Some? && Normalize(last.value) in ListedForms(front) {
      var e :| e in front && e.Some? && Normalize(e.value) == Normalize(last.value);
      var j :| 0 <= j < |front| && front[j] == e;
      assert (front + [last])[j] == e;
    }
  }

  lemma FirstOfItsFormStays(front: seq<Entry>, last: Entry, i: nat)
    requires i < |front|
    ensures FirstOfItsForm(front + [last], i) <==> FirstOfItsForm(front, i)
  {
    hide Normalize;
    assert forall j :: 0 <= j <= i ==> (front + [last])[j] == front[j];
  }

  lemma SkillNumberStays(front: seq<Entry>, last: Entry, i: nat, k: nat)
    requires i < |front|
    ensures SkillNumber(front + [last], i, k) <==> SkillNumber(front, i, k)
  {
    FirstOfItsFormStays(front, last, i);
    assert (front + [last])[..i] == front[..i];
    hide FirstOfItsForm, ListedForms;
  }

  lemma LastSkillNumber(front: seq<Entry>, last: Entry, k: nat)
    ensures SkillNumber(front + [last], |front|, k) <==>
            last.Some? && Normalize(last.value) !in ListedForms(front) && |ListedForms(front)| == k
  {
    LastIsFirstOfItsForm(front, last);
    assert (front + [last])[..|front|] == front;
    hide FirstOfItsForm, ListedForms, Normalize;
  }

  /** `at` has the positions of all first spellings, and one for each listed form. */
  ghost predicate Positions(entries: seq<Entry>, at: seq<nat>) {
    && |at| == |ListedForms(entries)|
    && forall i: nat, k: nat :: SkillNumber(entries, i, k) ==> k < |at| && at[k] == i
  }

  lemma SkillNumberWithin(entries: seq<Entry>, i: nat, k: nat)
    requires SkillNumber(entries, i, k)
    ensures i < |entries| && entries[i].Some?
  {
    hide Normalize;
  }

  lemma SpelledAtLonger(front: seq<Entry>, last: Entry, uris: seq<Text>, at: seq<nat>)
    requires SpelledAt(front, uris, at)
    ensures SpelledAt(front + [last], uris, at) && forall k :: 0 <= k < |at| ==> at[k] < |front|
  {
    hide SkillNumber;
    forall k | 0 <= k < |at|
      ensures at[k] < |front| && SkillNumber(front + [last], at[k], k)
      ensures (front + [last])[at[k]] == Some(uris[k])
    {
      SkillNumberWithin(front, at[k], k);
      SkillNumberStays(front, last, at[k], k);
      IndexAppended(front, [last], at[k]);
    }
  }

  lemma SpelledAtSnoc(entries: seq<Entry>, uris: seq<Text>, at: seq<nat>, i: nat)
    requires SpelledAt(entries, uris, at) && SkillNumber(entries, i, |at|) && forall k :: 0 <= k < |at| ==> at[k] < i
    requires i < |entries| && entries[i].Some?
    ensures SpelledAt(entries, uris + [entries[i].value], at + [i])
  {
    hide SkillNumber;
    var all, more := uris + [entries[i].value], at + [i];
    forall k | 0 <= k < |more|
      ensures SkillNumber(entries, more[k], k) && more[k] < |entries| && entries[more[k]] == Some(all[k])
    {
      SkillNumberWithin(entries, more[k], k);
    }
  }

  lemma PositionsSnoc(front: seq<Entry>, last: Entry, at: seq<nat>)
    requires Positions(front, at)
    ensures Positions(front + [last],
                      if last.Some? && Normalize(last.value) !in ListedForms(front) then at + [|front|] else at)
  {
    hide SkillNumber, ListedForms, Normalize;
    ListedFormsSnoc(front, last);
    var both := front + [last];
    var novel := last.Some? && Normalize(last.value) !in ListedForms(front);
    var more := if novel then at + [|front|] else at;
    forall i: nat, k: nat | SkillNumber(both, i, k) ensures k < |more| && more[k] == i {
      SkillNumberWithin(both, i, k);
      if i < |front| {
        SkillNumberStays(front, last, i, k);
      } else {
        LastSkillNumber(front, last, k);
      }
    }
  }

  /** Where the distinct URIs stand. */
  lemma {:induction false} DistinctPositions(entries: seq<Entry>) returns (at: seq<nat>)
    ensures SpelledAt(entries, DistinctUris(entries), at) && Positions(entries, at)
  {
    at := [];
    if entries != [] {
      var front, last := entries[..|entries| - 1], entries[|entries| - 1];
      assert entries == front + [last];
      at := DistinctPositions(front);
      PositionsAre(front, at);
      DistinctUrisStep(front, last);
      DistinctUrisMissNone(front);
      hide *;
      PositionsSnoc(front, last, at);
      SpelledAtLonger(front, last, DistinctUris(front), at);
      if last.Some? {
        HoldsForm(DistinctUris(front), last.value);
        LastSkillNumber(front, last, |at|);
        if !Holds(DistinctUris(front), last.value) {
          SpelledAtSnoc(entries, DistinctUris(front), at, |front|);
          at := at + [|front|];
        }
      }
    }
  }

  lemma PositionsAre(entries: seq<Entry>, at: seq<nat>)
    requires Positions(entries, at)
    ensures |at| == |ListedForms(entries)|
  {
  }

  /** The URIs asked for are the first 32 distinct forms of the listing. */
  lemma FirstSkillsListed(entries: seq<Entry>) returns (at: seq<nat>)
    ensures FirstSkills(entries, ListedSkillUris(entries), at)
  {
    hide *;
    at := DistinctPositions(entries);
    PositionsAre(entries, at);
    FirstOfPositions(entries, DistinctUris(entries), at);
    ListedAre(entries);
    at := if |at| <= 32 then at else at[..32];
  }

  lemma ListedAre(entries: seq<Entry>)
    ensures var uris := DistinctUris(entries);
            ListedSkillUris(entries) == if |uris| <= 32 then uris else uris[..32]
  {
    hide DistinctUris;
  }

  lemma FirstOfPositions(entries: seq<Entry>, uris: seq<Text>, at: seq<nat>)
    requires SpelledAt(entries, uris, at) && Positions(entries, at)
    ensures |at| == |uris|
    ensures FirstSkills(entries, if |uris| <= 32 then uris else uris[..32], if |at| <= 32 then at else at[..32])
  {
    hide SkillNumber, ListedForms;
    var first := if |at| <= 32 then at else at[..32];
    forall i: nat, k: nat | SkillNumber(entries, i, k) && k < 32 ensures i in first {
      assert first[k] == i;
    }
  }

  /** No other sequence of URIs is the first skills of a listing. */
  lemma FirstSkillsAreUnique(entries: seq<Entry>, a: seq<Text>, b: seq<Text>, at: seq<nat>, bt: seq<nat>)
    requires FirstSkills(entries, a, at) && FirstSkills(entries, b, bt)
    ensures a == b
  {
    hide SkillNumber;
    var all := DistinctPositions(entries);
    forall k | 0 <= k < |a| ensures a[k] == b[k] {
      assert all[k] == at[k] == bt[k];
    }
  }

  // ---------- skill_root ----------

  /** Index of the last `/`, or -1. */
  function LastSlash(t: Text): (i: int)
    ensures -1 <= i < |t|
    ensures i >= 0 ==> t[i] == SLASH
    ensures forall k :: i < k < |t| ==> t[k] != SLASH
  {
    if t == [] then -1
    else if t[|t| - 1] == SLASH then |t| - 1
    else LastSlash(t[..|t| - 1])
  }

  /** `rpartition("/")[0]`: empty when there is no `/`. */
  function BeforeLastSlash(t: Text): Text {
    var i := LastSlash(t);
    if i < 0 then [] else t[..i]
  }

  function SkillRoot(uri: Text): Option<Text> {
    var root := BeforeLastSlash(uri);
    if root == [] || Normalize(uri[LastSlash(uri) + 1..]) != SKILL_FILE then None else Some(root)
  }

  // ---------- a name nothing uses ----------

  function NameAt(base: Text, n: nat): Text {
    if n <= 1 then base else base + [DASH] + Ascii(DigitsOf(n))
  }

  function DigitsOf(n: nat): (s: string)
    ensures forall c <- s :: '0' <= c <= '9' && c as int < 0x80
  {
    Decimal(n)
  }

  function NamesOf(base: Text): nat -> Text {
    (n: nat) => NameAt(base, n)
  }

  lemma NamesInjective(base: Text)
    ensures InjectiveFrom(NamesOf(base), 1)
  {
    var name := NamesOf(base);
    forall i: nat, j: nat | 1 <= i && 1 <= j && name(i) == name(j) ensures i == j {
      if i > 1 && j > 1 {
        var a, b := Ascii(DigitsOf(i)), Ascii(DigitsOf(j));
        assert a == name(i)[|base| + 1..] && b == name(j)[|base| + 1..];
        forall k | 0 <= k < |a| ensures DigitsOf(i)[k] == DigitsOf(j)[k] {
          assert a[k] == b[k];
        }
        assert DigitsOf(i) == DigitsOf(j);
        DecimalValue(i);
        DecimalValue(j);
      }
    }
  }

  ghost function FreeName(base: Text, taken: set<Text>): (name: Text)
    ensures name !in taken
    ensures exists n: nat :: 1 <= n <= |taken| + 1 && name == NameAt(base, n)
  {
    NamesInjective(base);
    var n := FirstFree(taken, NamesOf(base), 1);
    assert NamesOf(base)(n) == NameAt(base, n);
    NameAt(base, n)
  }

  /** `_unused_name`: the search ends within `|taken| + 1` tries. */
  method UnusedName(base: Text, taken: set<Text>) returns (name: Text, tries: nat)
    ensures name == FreeName(base, taken)
    ensures name !in taken && name == NameAt(base, tries) && 1 <= tries <= |taken| + 1
    ensures forall k: nat :: 1 <= k < tries ==> NameAt(base, k) in taken
  {
    NamesInjective(base);
    ghost var free := FirstFree(taken, NamesOf(base), 1);
    name := base;
    var suffix := 1;
    while name in taken
      invariant 1 <= suffix <= free && name == NameAt(base, suffix)
      invariant forall k: nat :: 1 <= k < suffix ==> NameAt(base, k) in taken
      decreases free - suffix
    {
      assert NamesOf(base)(suffix) in taken;
      suffix := suffix + 1;
      name := base + [DASH] + Ascii(DigitsOf(suffix));
    }
    assert forall k: nat :: 1 <= k < suffix ==> NamesOf(base)(k) in taken;
    FirstFreeIs(taken, NamesOf(base), 1, suffix);
    tries := suffix;
  }

  // ---------- unknown_skill_uri ----------

  function RemovePrefix(t: Text, prefix: Text): Text {
    if prefix <= t then t[|prefix|..] else t
  }

  function RemoveSuffix(t: Text, suffix: Text): Text {
    if |suffix| <= |t| && t[|t| - |suffix|..] == suffix then t[..|t| - |suffix|] else t
  }

  function SkillTail(): Text {
    [SLASH] + SKILL_FILE
  }

  /** The parent of the first listed skill that has one. */
  function FirstParent(uris: seq<Text>): Text {
    if uris == [] then []
    else
      var root := SkillRoot(uris[0]);
      if root.Some? then BeforeLastSlash(root.value) else FirstParent(uris[1..])
  }

  function Beside(entries: seq<Entry>): (prefix: Text)
    ensures prefix != [] && prefix[|prefix| - 1] == SLASH
  {
    var parent := FirstParent(ListedSkillUris(entries));
    if parent == [] then DEFAULT_PREFIX else parent + [SLASH]
  }

  function TakenNames(entries: seq<Entry>): set<Text> {
    var start := Normalize(Beside(entries));
    set form | form in ListedForms(entries) && start <= form :: RemoveSuffix(RemovePrefix(form, start), SkillTail())
  }

  method UnknownSkillUri(entries: seq<Entry>) returns (uri: Text)
    ensures Normalize(uri) !in ListedForms(entries)
    ensures exists n: nat :: FirstUnused(entries, Beside(entries), n, uri)
  {
    hide *;
    var name, tries := UnusedName(UNKNOWN_SKILL_NAME, TakenNames(entries));
    uri := Beside(entries) + name + SkillTail();
    UnknownUriIsUnlisted(entries);
    forall n: nat | 1 <= n
      ensures NameAt(UNKNOWN_SKILL_NAME, n) in TakenNames(entries) <==> NameListed(entries, Beside(entries), n)
    {
      TakenExactly(entries, n);
    }
    UnknownNameIs(tries);
    FirstUnusedIs(entries, Beside(entries), tries, uri);
  }

  lemma FirstUnusedIs(entries: seq<Entry>, prefix: Text, n: nat, uri: Text)
    requires 1 <= n && uri == prefix + UnknownName(n) + Ascii("/SKILL.md") && !NameListed(entries, prefix, n)
    requires forall k: nat :: 1 <= k < n ==> NameListed(entries, prefix, k)
    ensures exists n: nat :: FirstUnused(entries, prefix, n, uri)
  {
    hide NameListed, UnknownName;
    assert FirstUnused(entries, prefix, n, uri);
  }

  /** The names asked for in turn: one without a number, then the numbers from 2 on. */
  function UnknownName(n: nat): Text {
    Ascii(if n <= 1 then "mcpscore-no-such-skill" else "mcpscore-no-such-skill-" + Decimal(n))
  }

  /** A listed URI is that name, or its `SKILL.md`, under the prefix. */
  ghost predicate NameListed(entries: seq<Entry>, prefix: Text, n: nat) {
    || Normalize(prefix + UnknownName(n)) in ListedForms(entries)
    || Normalize(prefix + UnknownName(n) + Ascii("/SKILL.md")) in ListedForms(entries)
  }

  /** `uri` is the `SKILL.md` of the first name that no listed URI has under the prefix. */
  ghost predicate FirstUnused(entries: seq<Entry>, prefix: Text, n: nat, uri: Text) {
    && 1 <= n && uri == prefix + UnknownName(n) + Ascii("/SKILL.md")
    && !NameListed(entries, prefix, n)
    && forall k: nat :: 1 <= k < n ==> NameListed(entries, prefix, k)
  }

  lemma UnknownNameIs(n: nat)
    ensures NameAt(UNKNOWN_SKILL_NAME, n) == UnknownName(n)
    ensures SkillTail() == Ascii("/SKILL.md")
  {
  }

  /** A name is taken exactly when a listed URI has it under the prefix. */
  lemma TakenExactly(entries: seq<Entry>, n: nat)
    ensures NameAt(UNKNOWN_SKILL_NAME, n) in TakenNames(entries) <==> NameListed(entries, Beside(entries), n)
  {
    hide *;
    var prefix, name, tail := Beside(entries), NameAt(UNKNOWN_SKILL_NAME, n), SkillTail();
    var start := Normalize(prefix);
    PlainName(n);
    PlainIsNormal(name);
    PlainIsNormal(name + tail);
    NormalizeAfterSlash(prefix, name);
    NormalizeAfterSlash(prefix, name + tail);
    UnknownNameIs(n);
    NoTailIn(n);
    Regroup(prefix, name, tail);
    TakenForms(entries, start, name);
    NameListedIs(entries, prefix, n);
  }

  lemma NameListedIs(entries: seq<Entry>, prefix: Text, n: nat)
    ensures NameListed(entries, prefix, n) <==>
            Normalize(prefix + UnknownName(n)) in ListedForms(entries) ||
            Normalize(prefix + UnknownName(n) + Ascii("/SKILL.md")) in ListedForms(entries)
  {
  }

  lemma PlainName(n: nat)
    ensures forall c <- NameAt(UNKNOWN_SKILL_NAME, n) :: Unreserved(c) || c == SLASH
    ensures forall c <- NameAt(UNKNOWN_SKILL_NAME, n) + SkillTail() :: Unreserved(c) || c == SLASH
  {
    NameIsPlain(n);
  }

  /** The names themselves do not end in `/SKILL.md`: they have no slash. */
  lemma NoTailIn(n: nat)
    ensures SLASH !in NameAt(UNKNOWN_SKILL_NAME, n)
  {
    NameIsPlain(n);
    var name := NameAt(UNKNOWN_SKILL_NAME, n);
    forall i | 0 <= i < |name| ensures name[i] != SLASH {
      if i >= |UNKNOWN_SKILL_NAME| + 1 {
        var k := i - |UNKNOWN_SKILL_NAME| - 1;
        assert DigitsOf(n)[k] in DigitsOf(n);
      }
    }
  }

  lemma TakenForms(entries: seq<Entry>, start: Text, name: Text)
    requires start == Normalize(Beside(entries)) && SLASH !in name
    ensures name in TakenNames(entries) <==>
            start + name in ListedForms(entries) || start + (name + SkillTail()) in ListedForms(entries)
  {
    var tail := SkillTail();
    assert tail[0] == SLASH;
    hide Normalize, ListedForms, Beside, RemovePrefix, RemoveSuffix, SkillTail;
    forall form | start <= form
      ensures RemoveSuffix(RemovePrefix(form, start), tail) == name <==>
              form == start + name || form == start + (name + tail)
    {
      NameOfForm(form, start, name, tail);
    }
  }

  lemma NameOfForm(form: Text, start: Text, name: Text, tail: Text)
    requires start <= form && SLASH !in name && tail != [] && tail[0] == SLASH
    ensures RemoveSuffix(RemovePrefix(form, start), tail) == name <==>
              form == start + name || form == start + (name + tail)
  {
    var rest := form[|start|..];
    assert form == start + rest;
    assert (start + name)[|start|..] == name && (start + (name + tail))[|start|..] == name + tail;
    NameOfRest(rest, name, tail);
    hide RemoveSuffix;
  }

  lemma NameOfRest(rest: Text, name: Text, tail: Text)
    requires SLASH !in name && tail != [] && tail[0] == SLASH
    ensures RemoveSuffix(rest, tail) == name <==> rest == name || rest == name + tail
  {
    var n := |rest| - |tail|;
    if n >= 0 && rest[n..] == tail {
      assert rest == rest[..n] + tail;
      assert rest[n] == tail[0];
    }
    assert (name + tail)[|name|..] == tail;
  }

  // ---------- the skill it is put beside ----------

  /** `uri` names a `SKILL.md`, however its name is escaped, right under `root`. */
  ghost predicate SkillFileUnder(uri: Text, root: Text) {
    && root != []
    && exists file :: uri == root + ([SLASH] + file) && SLASH !in file && Normalize(file) == Ascii("SKILL.md")
  }

  /** `whole` is `head`, a slash, and `last` with no further slash. */
  ghost predicate SplitsAtLast(whole: Text, head: Text, last: Text) {
    whole == head + ([SLASH] + last) && SLASH !in last
  }

  lemma SplitIs(whole: Text, head: Text, last: Text)
    requires SplitsAtLast(whole, head, last)
    ensures LastSlash(whole) == |head| && BeforeLastSlash(whole) == head && whole[LastSlash(whole) + 1..] == last
  {
    var i := LastSlash(whole);
    assert whole[|head|] == SLASH;
    forall k | |head| < k < |whole| ensures whole[k] != SLASH {
      assert whole[k] == last[k - |head| - 1];
    }
  }

  lemma SplitExists(whole: Text)
    ensures LastSlash(whole) >= 0 ==> SplitsAtLast(whole, BeforeLastSlash(whole), whole[LastSlash(whole) + 1..])
    ensures LastSlash(whole) < 0 ==> SLASH !in whole && BeforeLastSlash(whole) == []
  {
    hide LastSlash;
    if LastSlash(whole) >= 0 {
      SplitAt(whole, LastSlash(whole));
    }
  }

  lemma SplitAt(whole: Text, i: nat)
    requires i < |whole| && whole[i] == SLASH && forall k :: i < k < |whole| ==> whole[k] != SLASH
    ensures SplitsAtLast(whole, whole[..i], whole[i + 1..])
  {
    var last := whole[i + 1..];
    assert forall k :: 0 <= k < |last| ==> last[k] == whole[i + 1 + k];
    assert whole == whole[..i] + ([SLASH] + last);
  }

  /** The root of a skill is what its `SKILL.md` stands right under. */
  lemma RootExactly(uri: Text, root: Text)
    ensures SkillRoot(uri) == Some(root) <==> SkillFileUnder(uri, root)
  {
    SplitExists(uri);
    hide LastSlash, Normalize;
    if SkillFileUnder(uri, root) {
      var file :| uri == root + ([SLASH] + file) && SLASH !in file && Normalize(file) == Ascii("SKILL.md");
      SplitIs(uri, root, file);
    }
  }

  lemma NoRoot(uri: Text)
    requires forall r :: !SkillFileUnder(uri, r)
    ensures SkillRoot(uri) == None
  {
    forall r ensures SkillRoot(uri) != Some(r) {
      RootExactly(uri, r);
    }
    hide SkillRoot;
  }

  /** Skill `k` is the first whose URI is that of a `SKILL.md` under some root. */
  ghost predicate FirstRooted(uris: seq<Text>, k: nat, root: Text) {
    && k < |uris| && SkillFileUnder(uris[k], root)
    && forall j, r :: 0 <= j < k ==> !SkillFileUnder(uris[j], r)
  }

  /** The skill after the first, which has no root, is first among the rest. */
  lemma FirstRootedTail(uris: seq<Text>, k: nat, root: Text)
    requires FirstRooted(uris, k, root) && k > 0
    ensures FirstRooted(uris[1..], k - 1, root) && SkillRoot(uris[0]) == None
  {
    assert forall r :: !SkillFileUnder(uris[0], r);
    NoRoot(uris[0]);
    hide SkillFileUnder, SkillRoot;
    assert forall j :: 0 <= j < k ==> uris[1..][j] == uris[j + 1];
  }

  lemma {:induction false} FirstParentIs(uris: seq<Text>, k: nat, root: Text)
    requires FirstRooted(uris, k, root)
    ensures FirstParent(uris) == BeforeLastSlash(root)
    decreases k
  {
    RootExactly(uris[0], root);
    hide SkillFileUnder, SkillRoot, BeforeLastSlash;
    if k > 0 {
      FirstRootedTail(uris, k, root);
      FirstParentIs(uris[1..], k - 1, root);
    }
  }

  lemma {:induction false} NoFirstParent(uris: seq<Text>)
    requires forall j, r :: 0 <= j < |uris| ==> !SkillFileUnder(uris[j], r)
    ensures FirstParent(uris) == []
  {
    if uris != [] {
      NoRoot(uris[0]);
      hide SkillFileUnder, SkillRoot;
      assert forall j :: 0 <= j < |uris[1..]| ==> uris[1..][j] == uris[j + 1];
      NoFirstParent(uris[1..]);
    }
  }

  /**
   The unknown skill is asked for beside the first listed skill with a root, in the directory that holds the root;
   without such a skill or such a directory, directly behind `skill://`.
   */
  lemma BesideTheFirstSkill(entries: seq<Entry>, uris: seq<Text>, at: seq<nat>, k: nat, root: Text)
    requires FirstSkills(entries, uris, at) && FirstRooted(uris, k, root)
    ensures forall parent, name :: SplitsAtLast(root, parent, name) && parent != [] ==>
              Beside(entries) == parent + [SLASH]
    ensures SLASH !in root[1..] ==> Beside(entries) == Ascii("skill://")
  {
    var listed := FirstSkillsListed(entries);
    FirstSkillsAreUnique(entries, uris, ListedSkillUris(entries), at, listed);
    FirstParentIs(uris, k, root);
    forall parent, name | SplitsAtLast(root, parent, name) && parent != [] ensures BeforeLastSlash(root) == parent {
      SplitIs(root, parent, name);
    }
    if LastSlash(root) > 0 {
      assert root[1..][LastSlash(root) - 1] == SLASH;
    }
  }

  lemma BesideNoSkill(entries: seq<Entry>, uris: seq<Text>, at: seq<nat>)
    requires FirstSkills(entries, uris, at) && forall j, r :: 0 <= j < |uris| ==> !SkillFileUnder(uris[j], r)
    ensures Beside(entries) == Ascii("skill://")
  {
    var listed := FirstSkillsListed(entries);
    FirstSkillsAreUnique(entries, uris, ListedSkillUris(entries), at, listed);
    NoFirstParent(uris);
  }

  // ---------- normal form behind a slash ----------

  lemma {:induction false} QuoteAppend(a: Text, b: Text)
    ensures Quote(a + b) == Quote(a) + Quote(b)
  {
    if a == [] {
      assert a + b == b;
    } else {
      assert (a + b)[1..] == a[1..] + b;
      QuoteAppend(a[1..], b);
    }
  }

  lemma {:induction false} SubEscapesAfterSlash(a: Text, b: Text)
    requires a != [] && a[|a| - 1] == SLASH
    ensures SubEscapes(a + b) == SubEscapes(a) + SubEscapes(b)
    ensures SubEscapes(a) != [] && SubEscapes(a)[|SubEscapes(a)| - 1] == SLASH
    decreases |a|
  {
    SameStart(a, b);
    SubEscapesStep(a);
    SubEscapesStep(a + b);
    var n := if IsEscape(a) then 3 else 1;
    SplitAppended(a, b, n);
    if |a| == 1 {
      assert a[1..] == [] && [] + b == b && SubEscapes([]) == [];
    } else {
      SubEscapesAfterSlash(a[n..], b);
      Regroup(if IsEscape(a) then NormalEscape(a) else [a[0]], SubEscapes(a[n..]), SubEscapes(b));
    }
    hide IsEscape, NormalEscape, SubEscapes;
  }

  lemma SubEscapesStep(t: Text)
    requires t != []
    ensures SubEscapes(t) == if IsEscape(t) then NormalEscape(t) + SubEscapes(t[3..]) else [t[0]] + SubEscapes(t[1..])
  {
  }

  /** What the first escape or character of a text ending in `/` is does not depend on what follows the text. */
  lemma SameStart(a: Text, b: Text)
    requires a != [] && a[|a| - 1] == SLASH
    ensures var ab := a + b;
            && ab[0] == a[0] && (IsEscape(ab) <==> IsEscape(a))
            && (IsEscape(a) ==> |a| > 3 && NormalEscape(ab) == NormalEscape(a))
            && (|a| == 1 ==> !IsEscape(a))
  {
    SafeFacts();
    var ab := a + b;
    assert forall i :: 0 <= i < |a| ==> ab[i] == a[i];
    if IsEscape(a) {
      assert a[2] != SLASH;
      assert EscapeValue(ab) == EscapeValue(a);
    }
  }

  lemma LowerSchemeAfterSlash(a: Text, b: Text)
    requires a != [] && a[|a| - 1] == SLASH
    ensures LowerScheme(a + b) == LowerScheme(a) + b
  {
    SafeFacts();
    var n := SchemeRun(a);
    assert n < |a|;
    SchemeRunIs(a + b, n);
    var end := SchemeEnd(a);
    assert SchemeEnd(a + b) == end;
    hide SchemeEnd, SchemeRun, Lower;
    SplitAppended(a, b, end);
    Regroup(Lower(a[..end]), a[end..], b);
  }

  lemma QuoteEndsWithSlash(t: Text)
    requires t != [] && t[|t| - 1] == SLASH
    ensures Quote(t) != [] && Quote(t)[|Quote(t)| - 1] == SLASH
  {
    SafeFacts();
    QuoteAppend(t[..|t| - 1], [SLASH]);
    assert t == t[..|t| - 1] + [SLASH];
    assert Quote([SLASH]) == [SLASH];
  }

  /** Normalization distributes over what follows a `/`. */
  lemma NormalizeAfterSlash(prefix: Text, rest: Text)
    requires prefix != [] && prefix[|prefix| - 1] == SLASH
    ensures Normalize(prefix + rest) == Normalize(prefix) + SubEscapes(Quote(rest))
  {
    QuoteAppend(prefix, rest);
    QuoteEndsWithSlash(prefix);
    hide Quote, SubEscapes, LowerScheme;
    SubEscapesAfterSlash(Quote(prefix), Quote(rest));
    LowerSchemeAfterSlash(SubEscapes(Quote(prefix)), SubEscapes(Quote(rest)));
  }

  /** Text of unreserved characters and slashes is its own spelling. */
  lemma {:induction false} PlainIsNormal(t: Text)
    requires forall c <- t :: Unreserved(c) || c == SLASH
    ensures SubEscapes(Quote(t)) == t
  {
    SafeFacts();
    forall c | c in t ensures Safe(c) && c != PERCENT {
    }
    QuoteOfSafe(t);
    SubEscapesAfter(t, |t|);
    assert t[..|t|] == t && t[|t|..] == [];
  }

  lemma NameIsPlain(n: nat)
    ensures forall c <- NameAt(UNKNOWN_SKILL_NAME, n) + SkillTail() :: Unreserved(c) || c == SLASH
  {
    assert '-' in "-._~" && '.' in "-._~";
    forall i | 0 <= i < |UNKNOWN_SKILL_NAME| ensures Unreserved(UNKNOWN_SKILL_NAME[i]) {
      assert IsLetter(UNKNOWN_SKILL_NAME[i]) || UNKNOWN_SKILL_NAME[i] == '-' as int;
    }
    forall i | 0 <= i < |SKILL_FILE| ensures Unreserved(SKILL_FILE[i]) {
      assert IsLetter(SKILL_FILE[i]) || SKILL_FILE[i] == '.' as int;
    }
    if n > 1 {
      forall i | 0 <= i < |DigitsOf(n)| ensures Unreserved(Ascii(DigitsOf(n))[i]) {
        assert DigitsOf(n)[i] in DigitsOf(n);
      }
    }
  }

  /** The URI asked for has a normal form that no listed skill has. */
  lemma UnknownUriIsUnlisted(entries: seq<Entry>)
    ensures var uri := Beside(entries) + FreeName(UNKNOWN_SKILL_NAME, TakenNames(entries)) + SkillTail();
            Normalize(uri) !in ListedForms(entries)
  {
    var prefix, taken := Beside(entries), TakenNames(entries);
    var name := FreeName(UNKNOWN_SKILL_NAME, taken);
    var n: nat :| 1 <= n && name == NameAt(UNKNOWN_SKILL_NAME, n);
    NameIsPlain(n);
    PlainIsNormal(name + SkillTail());
    NormalizeAfterSlash(prefix, name + SkillTail());
    hide Normalize, Quote, SubEscapes, NameAt, SkillTail, Beside, FreeName;
    Regroup(prefix, name, SkillTail());
    TakenIfListed(entries, name);
  }

  /** A listed form that continues the prefix with a name makes that name taken. */
  lemma TakenIfListed(entries: seq<Entry>, name: Text)
    ensures var form := Normalize(Beside(entries)) + (name + SkillTail());
            form in ListedForms(entries) ==> name in TakenNames(entries)
  {
    hide Normalize, ListedForms;
    var start := Normalize(Beside(entries));
    var form := start + (name + SkillTail());
    assert RemovePrefix(form, start) == name + SkillTail();
    assert RemoveSuffix(name + SkillTail(), SkillTail()) == name;
  }
}
