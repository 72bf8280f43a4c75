/**
 Masked dictionary names in a report: keys that carry credentials are renamed without losing or merging entries.

 How one string is masked is a library matter, so `mask` is any function.
 */
module KeyMasking {
  import opened FreshNames
  import opened Ordering

  ghost predicate Distinct(keys: seq<string>) {
    forall i, j :: 0 <= i < j < |keys| ==> keys[i] != keys[j]
  }

  ghost predicate Injective<K, V>(m: map<K, V>) {
    forall a, b :: a in m && b in m && m[a] == m[b] ==> a == b
  }

  function Changed(keys: seq<string>, mask: string -> string): seq<string> {
    if keys == [] then []
    else (if mask(keys[0]) != keys[0] then [keys[0]] else []) + Changed(keys[1..], mask)
  }

  /** The n-th name tried for a masked key. */
  function AliasName(masked: string, n: nat): string {
    Numbered(masked, " [masked name ", n, "]")
  }

  function AliasNames(masked: string): nat -> string {
    (n: nat) => AliasName(masked, n)
  }

  lemma AliasNamesInjective(masked: string)
    ensures InjectiveFrom(AliasNames(masked), 2)
  {
    var name := AliasNames(masked);
    forall i: nat, j: nat | 2 <= i && 2 <= j && name(i) == name(j) ensures i == j {
      NumberedInjective(masked, " [masked name ", "]", i, j);
    }
  }

  /** The name one masked key gets: the masked text, or its first numbered form that nobody has or may want. */
  function Alias(masked: string, used: set<string>, reserved: set<string>): (alias: string)
    ensures alias !in used
    ensures alias == masked || (alias !in reserved && exists n :: n >= 2 && alias == AliasName(masked, n))
  {
    if masked !in used then masked
    else
      AliasNamesInjective(masked);
      AliasName(masked, FirstFree(used + reserved, AliasNames(masked), 2))
  }

  function Assign(todo: seq<string>, mask: string -> string,
                  names: map<string, string>, used: set<string>, reserved: set<string>): map<string, string>
  {
    if todo == [] then names
    else
      var alias := Alias(mask(todo[0]), used, reserved);
      Assign(todo[1..], mask, names[todo[0] := alias], used + {alias}, reserved)
  }

  function MaskedNames(keys: seq<string>, mask: string -> string): map<string, string> {
    map k | k in keys :: mask(k)
  }

  /** Every masked text, each reserved for the key that may still take it literally. */
  function Reserved(keys: seq<string>, mask: string -> string): set<string> {
    set k | k in keys :: mask(k)
  }

  function Unmasked(keys: seq<string>, mask: string -> string): set<string> {
    set k | k in keys && mask(k) == k
  }

  function Aliases(keys: seq<string>, mask: string -> string): map<string, string> {
    Assign(Sort(Changed(keys, mask), TextLess), mask,
           MaskedNames(keys, mask), Unmasked(keys, mask), Reserved(keys, mask))
  }

  /** The search for one masked key's name. */
  method FindAlias(masked: string, used: set<string>, reserved: set<string>) returns (candidate: string)
    ensures candidate == Alias(masked, used, reserved)
  {
    candidate := masked;
    var suffix := 2;
    if candidate in used {
      AliasNamesInjective(masked);
      ghost var free := FirstFree(used + reserved, AliasNames(masked), 2);
      candidate := masked + " [masked name " + Decimal(suffix) + "]";
      while candidate in used || candidate in reserved
        invariant 2 <= suffix <= free && candidate == AliasName(masked, suffix)
        decreases free - suffix
      {
        assert AliasNames(masked)(suffix) in used + reserved;
        suffix := suffix + 1;
        candidate := masked + " [masked name " + Decimal(suffix) + "]";
      }
      assert forall k: nat :: 2 <= k < suffix ==> AliasNames(masked)(k) in used + reserved;
      FirstFreeIs(used + reserved, AliasNames(masked), 2, suffix);
    }
  }

  /** The dictionary branch of `report_evidence`, up to the names it gives. */
  method MaskNames(keys: seq<string>, mask: string -> string) returns (names: map<string, string>)
    requires Distinct(keys)
    ensures names == Aliases(keys, mask)
  {
    names := MaskedNames(keys, mask);
    var reserved := Reserved(keys, mask);
    var used := Unmasked(keys, mask);
    var originals := Sort(Changed(keys, mask), TextLess);
    for i := 0 to |originals|
      invariant Aliases(keys, mask) == Assign(originals[i..], mask, names, used, reserved)
    {
      var candidate := FindAlias(mask(originals[i]), used, reserved);
      assert originals[i..][1..] == originals[i + 1..];
      names := names[originals[i] := candidate];
      used := used + {candidate};
    }
  }

  // ---------- what the names promise ----------

  lemma {:induction false} ChangedMembers(keys: seq<string>, mask: string -> string)
    ensures forall k :: k in Changed(keys, mask) <==> k in keys && mask(k) != k
    ensures Distinct(keys) ==> Distinct(Changed(keys, mask))
  {
    if keys != [] {
      ChangedMembers(keys[1..], mask);
      assert forall k :: k in keys <==> k == keys[0] || k in keys[1..];
      if Distinct(keys) {
        assert forall i :: 0 <= i < |keys[1..]| ==> keys[1..][i] == keys[i + 1] != keys[0];
        assert keys[0] !in keys[1..];
      }
    }
  }

  lemma SortKeepsMembers(keys: seq<string>)
    ensures forall k :: k in Sort(keys, TextLess) <==> k in keys
    ensures Distinct(keys) ==> Distinct(Sort(keys, TextLess))
  {
    var s := Sort(keys, TextLess);
    forall k ensures k in s <==> k in keys {
      assert k in s <==> k in multiset(s);
      assert k in keys <==> k in multiset(keys);
    }
    if Distinct(keys) {
      DistinctMultiset(keys);
      MultisetDistinct(s);
    }
  }

  lemma {:induction false} DistinctMultiset(keys: seq<string>)
    requires Distinct(keys)
    ensures forall k :: multiset(keys)[k] <= 1
  {
    if keys != [] {
      DistinctMultiset(keys[1..]);
      assert keys == [keys[0]] + keys[1..];
      assert forall i :: 0 <= i < |keys[1..]| ==> keys[1..][i] == keys[i + 1] != keys[0];
      assert keys[0] !in keys[1..];
    }
  }

  lemma MultisetDistinct(keys: seq<string>)
    requires forall k :: multiset(keys)[k] <= 1
    ensures Distinct(keys)
  {
    forall i, j | 0 <= i < j < |keys| ensures keys[i] != keys[j] {
      var head, tail := keys[..j], keys[j..];
      assert keys == head + tail;
      assert head[i] == keys[i] && tail[0] == keys[j];
      assert keys[i] in multiset(head) && keys[j] in multiset(tail);
      assert multiset(keys)[keys[i]] == multiset(head)[keys[i]] + multiset(tail)[keys[i]];
    }
  }

  /** Halfway through: the keys already named have distinct used names, and the rest wait outside `used`. */
  ghost predicate Naming(keys: set<string>, todo: seq<string>, mask: string -> string,
                         names: map<string, string>, used: set<string>)
  {
    && names.Keys == keys && Distinct(todo)
    && (forall k :: k in todo ==> k in keys && mask(k) != k)
    && (forall k :: k in keys && mask(k) == k ==> names[k] == k)
    && (forall k :: k in keys && k !in todo ==> names[k] in used)
    && (forall a, b :: a in keys && b in keys && a !in todo && b !in todo && names[a] == names[b] ==> a == b)
  }

  ghost predicate GoodNames(keys: set<string>, mask: string -> string, names: map<string, string>) {
    && names.Keys == keys
    && Injective(names)
    && forall k :: k in keys && mask(k) == k ==> names[k] == k
  }

  lemma {:induction false} AssignNames(keys: set<string>, todo: seq<string>, mask: string -> string,
                                       names: map<string, string>, used: set<string>, reserved: set<string>)
    requires Naming(keys, todo, mask, names, used)
    ensures GoodNames(keys, mask, Assign(todo, mask, names, used, reserved))
  {
    if todo != [] {
      var original, rest := todo[0], todo[1..];
      var alias := Alias(mask(original), used, reserved);
      assert forall k :: k in todo <==> k == original || k in rest;
      assert forall i :: 0 <= i < |rest| ==> rest[i] == todo[i + 1];
      assert original !in rest;
      AssignNames(keys, rest, mask, names[original := alias], used + {alias}, reserved);
    }
  }

  /** The renaming is one-to-one, so no entry is lost, and it leaves every key alone that needs no masking. */
  lemma AliasesAreGood(keys: seq<string>, mask: string -> string)
    requires Distinct(keys)
    ensures GoodNames((set k | k in keys), mask, Aliases(keys, mask))
  {
    ChangedMembers(keys, mask);
    SortKeepsMembers(Changed(keys, mask));
    var todo := Sort(Changed(keys, mask), TextLess);
    AssignNames((set k | k in keys), todo, mask, MaskedNames(keys, mask), Unmasked(keys, mask), Reserved(keys, mask));
  }

  lemma {:induction false} AssignSpelling(todo: seq<string>, mask: string -> string, names: map<string, string>,
                                          used: set<string>, reserved: set<string>, key: string)
    requires key in names && exists n :: n >= 1 && names[key] == AliasName(mask(key), n)
    ensures var result := Assign(todo, mask, names, used, reserved);
            key in result && exists n :: n >= 1 && result[key] == AliasName(mask(key), n)
    decreases |todo|
  {
    if todo != [] {
      var alias := Alias(mask(todo[0]), used, reserved);
      assert AliasName(mask(todo[0]), 1) == mask(todo[0]);
      AssignSpelling(todo[1..], mask, names[todo[0] := alias], used + {alias}, reserved, key);
    }
  }

  /** A name is spelled from the masked text alone: it never shows what was masked. */
  lemma AliasesShowMaskedTextOnly(keys: seq<string>, mask: string -> string, key: string)
    requires key in keys
    ensures key in Aliases(keys, mask)
    ensures exists n :: n >= 1 && Aliases(keys, mask)[key] == AliasName(mask(key), n)
  {
    assert AliasName(mask(key), 1) == mask(key);
    AssignSpelling(Sort(Changed(keys, mask), TextLess), mask,
                   MaskedNames(keys, mask), Unmasked(keys, mask), Reserved(keys, mask), key);
  }

  lemma ChangedIgnoresOrder(keys: seq<string>, others: seq<string>, mask: string -> string)
    requires Distinct(keys) && Distinct(others)
    requires forall k :: k in keys <==> k in others
    ensures Sort(Changed(keys, mask), TextLess) == Sort(Changed(others, mask), TextLess)
  {
    ChangedMembers(keys, mask);
    ChangedMembers(others, mask);
    var a, b := Changed(keys, mask), Changed(others, mask);
    hide Changed;
    DistinctMultiset(a);
    DistinctMultiset(b);
    forall k ensures multiset(a)[k] == multiset(b)[k] {
      assert k in multiset(a) <==> k in a;
      assert k in multiset(b) <==> k in b;
    }
    assert multiset(a) == multiset(b);
    TextLessIsStrictWeakOrder();
    forall x, y | x in a && y in a && x != y ensures TextLess(x, y) || TextLess(y, x) {
      TextLessTotal(x, y);
    }
    hide TextLess, Sort;
    SortIgnoresOrder(a, b, TextLess);
  }

  /** The names depend on which keys there are, not on the order they were inserted in. */
  lemma AliasesIgnoreOrder(keys: seq<string>, others: seq<string>, mask: string -> string)
    requires Distinct(keys) && Distinct(others)
    requires forall k :: k in keys <==> k in others
    ensures Aliases(keys, mask) == Aliases(others, mask)
  {
    ChangedIgnoresOrder(keys, others, mask);
    SameNames(keys, others, mask);
    hide Changed, MaskedNames, Unmasked, Reserved, Assign, Sort, Distinct;
  }

  lemma SameNames(keys: seq<string>, others: seq<string>, mask: string -> string)
    requires forall k :: k in keys <==> k in others
    ensures MaskedNames(keys, mask) == MaskedNames(others, mask)
    ensures Unmasked(keys, mask) == Unmasked(others, mask)
    ensures Reserved(keys, mask) == Reserved(others, mask)
  {
  }

  // ---------- which name each key gets ----------

  lemma {:induction false} AssignKeeps(todo: seq<string>, mask: string -> string, names: map<string, string>,
                                       used: set<string>, reserved: set<string>, key: string)
    requires key in names && key !in todo
    ensures var result := Assign(todo, mask, names, used, reserved);
            key in result && result[key] == names[key]
    decreases |todo|
  {
    if todo != [] {
      var alias := Alias(mask(todo[0]), used, reserved);
      assert todo[0] in todo && forall k :: k in todo[1..] ==> k in todo;
      AssignKeeps(todo[1..], mask, names[todo[0] := alias], used + {alias}, reserved, key);
    }
  }

  /** The names given to the first `n` keys of the list. */
  ghost function Given(todo: seq<string>, n: nat, names: map<string, string>): set<string>
    requires n <= |todo| && forall k <- todo :: k in names
  {
    set j | 0 <= j < n :: names[todo[j]]
  }

  lemma {:induction false} AssignInTurn(todo: seq<string>, mask: string -> string, names: map<string, string>,
                                        used: set<string>, reserved: set<string>, i: nat)
    requires Distinct(todo) && i < |todo| && forall k <- todo :: k in names
    ensures var result := Assign(todo, mask, names, used, reserved);
            && (forall k <- todo :: k in result)
            && result[todo[i]] == Alias(mask(todo[i]), used + Given(todo, i, result), reserved)
    decreases |todo|
  {
    hide Alias;
    var alias, rest := Alias(mask(todo[0]), used, reserved), todo[1..];
    var more := names[todo[0] := alias];
    var result := Assign(todo, mask, names, used, reserved);
    AssignStep(todo, mask, names, used, reserved);
    TailDistinct(todo);
    AllAssigned(rest, mask, more, used + {alias}, reserved);
    AssignKeeps(rest, mask, more, used + {alias}, reserved, todo[0]);
    hide Assign, Distinct;
    if i == 0 {
      assert Given(todo, 0, result) == {} && used + {} == used;
    } else {
      AssignInTurn(rest, mask, more, used + {alias}, reserved, i - 1);
      GivenMore(todo, i, result);
      hide Given;
      assert used + Given(todo, i, result) == used + {alias} + Given(rest, i - 1, result);
    }
  }

  lemma AssignStep(todo: seq<string>, mask: string -> string, names: map<string, string>,
                   used: set<string>, reserved: set<string>)
    requires todo != []
    ensures var alias := Alias(mask(todo[0]), used, reserved);
            Assign(todo, mask, names, used, reserved)
            == Assign(todo[1..], mask, names[todo[0] := alias], used + {alias}, reserved)
  {
    hide Alias;
  }

  lemma TailDistinct(todo: seq<string>)
    requires Distinct(todo) && todo != []
    ensures Distinct(todo[1..]) && todo[0] !in todo[1..]
    ensures forall k <- todo :: k == todo[0] || k in todo[1..]
  {
    var rest := todo[1..];
    assert forall j :: 0 <= j < |rest| ==> rest[j] == todo[j + 1];
    assert todo == [todo[0]] + rest;
  }

  lemma {:induction false} AllAssigned(todo: seq<string>, mask: string -> string, names: map<string, string>,
                                       used: set<string>, reserved: set<string>)
    ensures Assign(todo, mask, names, used, reserved).Keys == names.Keys + set k | k in todo
    decreases |todo|
  {
    if todo != [] {
      var alias := Alias(mask(todo[0]), used, reserved);
      AllAssigned(todo[1..], mask, names[todo[0] := alias], used + {alias}, reserved);
      assert todo == [todo[0]] + todo[1..];
    }
  }

  lemma GivenMore(todo: seq<string>, i: nat, names: map<string, string>)
    requires 0 < i <= |todo| && forall k <- todo :: k in names
    ensures Given(todo, i, names) == {names[todo[0]]} + Given(todo[1..], i - 1, names)
  {
    forall x | x in Given(todo, i, names) ensures x in {names[todo[0]]} + Given(todo[1..], i - 1, names) {
      var j :| 0 <= j < i && names[todo[j]] == x;
      assert j > 0 ==> todo[1..][j - 1] == todo[j];
    }
    assert forall j :: 0 <= j < i - 1 ==> todo[1..][j] == todo[j + 1];
  }

  /** `name` belongs to a key that needs no masking, or to a masked key before `key` in the order of text. */
  ghost predicate TakenBefore(keys: seq<string>, mask: string -> string, names: map<string, string>,
                              key: string, name: string)
    requires forall k <- keys :: k in names
  {
    exists k <- keys :: names[k] == name && (mask(k) == k || (TextLess(k, key) && mask(k) != k))
  }

  ghost predicate IsMaskOf(keys: seq<string>, mask: string -> string, name: string) {
    exists k <- keys :: mask(k) == name
  }

  ghost function NumberedForm(masked: string, n: nat): string {
    masked + " [masked name " + Decimal(n) + "]"
  }

  /** A numbered name that is taken, or that a key may still take literally. */
  ghost predicate NumberTaken(keys: seq<string>, mask: string -> string, names: map<string, string>,
                              key: string, n: nat)
    requires forall k <- keys :: k in names
  {
    var name := NumberedForm(mask(key), n);
    TakenBefore(keys, mask, names, key, name) || IsMaskOf(keys, mask, name)
  }

  /**
   A masked key gets its masked text unless that is taken, and then the first numbered form, from 2 on, that is
   neither taken nor any key's masked text.
   */
  ghost predicate NamedInTurn(keys: seq<string>, mask: string -> string, names: map<string, string>, key: string)
    requires key in keys && forall k <- keys :: k in names
  {
    if !TakenBefore(keys, mask, names, key, mask(key)) then names[key] == mask(key)
    else exists n: nat ::
      && n >= 2 && names[key] == NumberedForm(mask(key), n)
      && !NumberTaken(keys, mask, names, key, n)
      && forall j: nat :: 2 <= j < n ==> NumberTaken(keys, mask, names, key, j)
  }

  lemma AliasIs(masked: string, used: set<string>, reserved: set<string>)
    ensures masked !in used ==> Alias(masked, used, reserved) == masked
    ensures masked in used ==> exists n: nat ::
      && n >= 2 && Alias(masked, used, reserved) == NumberedForm(masked, n)
      && NumberedForm(masked, n) !in used + reserved
      && forall j: nat :: 2 <= j < n ==> NumberedForm(masked, j) in used + reserved
  {
    if masked in used {
      AliasNamesInjective(masked);
      var n := FirstFree(used + reserved, AliasNames(masked), 2);
      assert AliasNames(masked)(n) == NumberedForm(masked, n);
      forall j: nat | 2 <= j < n ensures NumberedForm(masked, j) in used + reserved {
        assert AliasNames(masked)(j) in used + reserved;
      }
    }
  }

  /** What is used when a key's turn comes is what is taken before it. */
  lemma UsedIsTaken(keys: seq<string>, mask: string -> string, names: map<string, string>, i: nat, name: string)
    requires Distinct(keys) && i < |Sort(Changed(keys, mask), TextLess)|
    requires GoodNames((set k | k in keys), mask, names)
    ensures var todo := Sort(Changed(keys, mask), TextLess);
            && (forall k <- todo :: k in keys && k in names) && (forall k <- keys :: k in names)
            && (name in Unmasked(keys, mask) + Given(todo, i, names) <==> TakenBefore(keys, mask, names, todo[i], name))
  {
    var todo := Sort(Changed(keys, mask), TextLess);
    TodoMembers(keys, mask);
    hide *;
    forall j | 0 <= j < |todo| ensures j < i <==> TextLess(todo[j], todo[i]) {
      BeforeExactly(keys, mask, j, i);
    }
    GoodNamesAre(keys, mask, names);
    TakenInTurn(keys, mask, names, todo, i, name);
  }

  lemma TodoMembers(keys: seq<string>, mask: string -> string)
    ensures forall k :: k in Sort(Changed(keys, mask), TextLess) <==> k in keys && mask(k) != k
  {
    ChangedMembers(keys, mask);
    SortKeepsMembers(Changed(keys, mask));
    hide Sort, Changed;
  }

  lemma GoodNamesAre(keys: seq<string>, mask: string -> string, names: map<string, string>)
    requires GoodNames((set k | k in keys), mask, names)
    ensures forall k <- keys :: k in names && (mask(k) == k ==> names[k] == k)
  {
  }

  /** The names of the first keys of a sorted list, and of the keys beside it, are those taken before the next. */
  lemma TakenInTurn(keys: seq<string>, mask: string -> string, names: map<string, string>, todo: seq<string>,
                    i: nat, name: string)
    requires i < |todo| && (forall k :: k in todo <==> k in keys && mask(k) != k)
    requires forall k <- keys :: k in names && (mask(k) == k ==> names[k] == k)
    requires forall j :: 0 <= j < |todo| ==> (j < i <==> TextLess(todo[j], todo[i]))
    ensures name in Unmasked(keys, mask) + Given(todo, i, names) <==> TakenBefore(keys, mask, names, todo[i], name)
  {
    hide TextLess;
    if name in Given(todo, i, names) {
      var j :| 0 <= j < i && names[todo[j]] == name;
      assert todo[j] in todo;
    }
    if TakenBefore(keys, mask, names, todo[i], name) {
      var k :| k in keys && names[k] == name && (mask(k) == k || (TextLess(k, todo[i]) && mask(k) != k));
      if mask(k) != k {
        var j :| 0 <= j < |todo| && todo[j] == k;
      }
    }
  }

  /** In the sorted list, earlier means smaller. */
  lemma BeforeExactly(keys: seq<string>, mask: string -> string, j: nat, i: nat)
    requires Distinct(keys)
    requires j < |Sort(Changed(keys, mask), TextLess)| && i < |Sort(Changed(keys, mask), TextLess)|
    ensures var todo := Sort(Changed(keys, mask), TextLess);
            j < i <==> TextLess(todo[j], todo[i])
  {
    var todo := Sort(Changed(keys, mask), TextLess);
    ChangedMembers(keys, mask);
    SortKeepsMembers(Changed(keys, mask));
    TextLessIsStrictWeakOrder();
    SortSorted(Changed(keys, mask), TextLess);
    TextLessTotal(todo[j], todo[i]);
    if TextLess(todo[j], todo[i]) {
      TextLessAsymmetric(todo[j], todo[i]);
    }
    hide Sort, Changed, TextLess;
    assert j < i ==> todo[j] != todo[i];
  }

  /** Every key that needs masking is named in turn, in the order of text. */
  lemma AliasesInTurn(keys: seq<string>, mask: string -> string, key: string)
    requires Distinct(keys) && key in keys && mask(key) != key
    ensures forall k <- keys :: k in Aliases(keys, mask)
    ensures NamedInTurn(keys, mask, Aliases(keys, mask), key)
  {
    hide *;
    AliasesAreGood(keys, mask);
    var i := TurnOf(keys, mask, key);
    var names, todo := Aliases(keys, mask), Sort(Changed(keys, mask), TextLess);
    var used, reserved := Unmasked(keys, mask) + Given(todo, i, names), Reserved(keys, mask);
    forall name
      ensures name in used <==> TakenBefore(keys, mask, names, key, name)
      ensures name in reserved <==> IsMaskOf(keys, mask, name)
    {
      UsedIsTaken(keys, mask, names, i, name);
      ReservedIsMask(keys, mask, name);
    }
    AliasIs(mask(key), used, reserved);
    NamedInTurnIs(keys, mask, names, key, used, reserved);
  }

  lemma ReservedIsMask(keys: seq<string>, mask: string -> string, name: string)
    ensures name in Reserved(keys, mask) <==> IsMaskOf(keys, mask, name)
  {
  }

  lemma TurnOf(keys: seq<string>, mask: string -> string, key: string) returns (i: nat)
    requires Distinct(keys) && key in keys && mask(key) != key
    ensures var todo, names := Sort(Changed(keys, mask), TextLess), Aliases(keys, mask);
            && i < |todo| && todo[i] == key && (forall k <- keys :: k in names) && (forall k <- todo :: k in names)
            && names[key] == Alias(mask(key), Unmasked(keys, mask) + Given(todo, i, names), Reserved(keys, mask))
  {
    var todo := Sort(Changed(keys, mask), TextLess);
    ChangedMembers(keys, mask);
    SortKeepsMembers(Changed(keys, mask));
    i :| 0 <= i < |todo| && todo[i] == key;
    AllAssigned(todo, mask, MaskedNames(keys, mask), Unmasked(keys, mask), Reserved(keys, mask));
    AssignInTurn(todo, mask, MaskedNames(keys, mask), Unmasked(keys, mask), Reserved(keys, mask), i);
    hide Sort, Changed, TextLess, Alias, Assign, Given, Distinct;
  }

  lemma NamedInTurnIs(keys: seq<string>, mask: string -> string, names: map<string, string>, key: string,
                      used: set<string>, reserved: set<string>)
    requires key in keys && forall k <- keys :: k in names
    requires forall name :: name in used <==> TakenBefore(keys, mask, names, key, name)
    requires forall name :: name in reserved <==> IsMaskOf(keys, mask, name)
    requires mask(key) !in used ==> names[key] == mask(key)
    requires mask(key) in used ==> exists n: nat ::
      && n >= 2 && names[key] == NumberedForm(mask(key), n)
      && NumberedForm(mask(key), n) !in used + reserved
      && forall j: nat :: 2 <= j < n ==> NumberedForm(mask(key), j) in used + reserved
    ensures NamedInTurn(keys, mask, names, key)
  {
    hide TakenBefore, IsMaskOf, NumberedForm;
    forall j: nat ensures NumberedForm(mask(key), j) in used + reserved <==> NumberTaken(keys, mask, names, key, j) {
      var name := NumberedForm(mask(key), j);
      assert name in used <==> TakenBefore(keys, mask, names, key, name);
      assert name in reserved <==> IsMaskOf(keys, mask, name);
    }
    hide NumberTaken;
    assert mask(key) in used <==> TakenBefore(keys, mask, names, key, mask(key));
    if mask(key) in used {
      var n: nat :| n >= 2 && names[key] == NumberedForm(mask(key), n) && NumberedForm(mask(key), n) !in used + reserved
                    && forall j: nat :: 2 <= j < n ==> NumberedForm(mask(key), j) in used + reserved;
      assert !NumberTaken(keys, mask, names, key, n);
      assert forall j: nat :: 2 <= j < n ==> NumberTaken(keys, mask, names, key, j);
    }
  }

  // ---------- the renamed dictionary ----------

  /** `{names[k]: v}`: a later entry would overwrite an earlier one of the same name. */
  function Renamed<V>(entries: seq<(string, V)>, names: map<string, string>): map<string, V>
    requires forall e <- entries :: e.0 in names
  {
    if entries == [] then map[]
    else
      var last := entries[|entries| - 1];
      Renamed(entries[..|entries| - 1], names)[names[last.0] := last.1]
  }

  function KeysOf<V>(entries: seq<(string, V)>): seq<string> {
    seq(|entries|, i requires 0 <= i < |entries| => entries[i].0)
  }

  /** Renaming one-to-one keeps every entry. */
  lemma {:induction false} RenamedKeepsEntries<V>(entries: seq<(string, V)>, names: map<string, string>)
    requires forall e <- entries :: e.0 in names
    requires Injective(names) && Distinct(KeysOf(entries))
    ensures |Renamed(entries, names)| == |entries|
    ensures forall e <- entries :: names[e.0] in Renamed(entries, names) && Renamed(entries, names)[names[e.0]] == e.1
    ensures forall n <- Renamed(entries, names) :: exists e <- entries :: n == names[e.0]
  {
    if entries != [] {
      var last, front := entries[|entries| - 1], entries[..|entries| - 1];
      forall i, j | 0 <= i < j < |front| ensures KeysOf(front)[i] != KeysOf(front)[j] {
        assert KeysOf(front)[i] == KeysOf(entries)[i] && KeysOf(front)[j] == KeysOf(entries)[j];
      }
      RenamedKeepsEntries(front, names);
      forall e | e in front ensures e.0 != last.0 {
        var i :| 0 <= i < |front| && front[i] == e;
        assert KeysOf(entries)[i] != KeysOf(entries)[|entries| - 1];
      }
      assert names[last.0] !in Renamed(front, names);
      assert forall e :: e in entries <==> e == last || e in front;
    }
  }

  /** Masking a whole dictionary keeps the number of entries, and each entry's value under its own name. */
  lemma MaskedDictionaryKeepsEntries<V>(entries: seq<(string, V)>, mask: string -> string)
    requires Distinct(KeysOf(entries))
    ensures var names := Aliases(KeysOf(entries), mask);
            && (forall e <- entries :: e.0 in names)
            && |Renamed(entries, names)| == |entries|
            && forall e <- entries :: names[e.0] in Renamed(entries, names)
                                      && Renamed(entries, names)[names[e.0]] == e.1
  {
    var keys := KeysOf(entries);
    AliasesAreGood(keys, mask);
    forall e | e in entries ensures e.0 in keys {
      var i :| 0 <= i < |entries| && entries[i] == e;
      assert keys[i] == e.0;
    }
    RenamedKeepsEntries(entries, Aliases(keys, mask));
  }
}
