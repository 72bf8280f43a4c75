/** Which violation a schema offers: the kinds in their order, and within each the first property that has one. */
module ViolationFound {
  import opened FreshNames
  import opened SchemaViolation
  import opened Wrappers

  // ---------- a wrong type ----------

  /** The wrong value for each of the seven JSON types. */
  ghost predicate WrongValue(name: string, v: Json) {
    || (name == "string" && v == Number(42.0))
    || (name == "number" && v == Text("not-a-number"))
    || (name == "integer" && v == Text("not-an-integer"))
    || (name == "boolean" && v == Text("not-a-boolean"))
    || (name == "array" && v == Object([Field("invalid", Bool(true))]))
    || (name == "object" && v == Text("not-an-object"))
    || (name == "null" && v == Number(0.0))
  }

  /** The schema is an object with one declared type, and `v` is the wrong value for it. */
  ghost predicate Mistypes(sub: Json, v: Json) {
    sub.Object? && exists name :: Get(sub.fields, "type") == Some(Text(name)) && WrongValue(name, v)
  }

  lemma WrongForExactly(sub: Json, v: Json)
    ensures WrongFor(sub) == Some(v) <==> Mistypes(sub, v)
  {
    hide Get;
  }

  /** The schema is an object that declares one of the seven types, and no list of types. */
  ghost predicate SingleTyped(sub: Json) {
    sub.Object? && exists name <- ["string", "number", "integer", "boolean", "array", "object", "null"] ::
                     Get(sub.fields, "type") == Some(Text(name))
  }

  lemma MistypesExactly(sub: Json)
    ensures SingleTyped(sub) <==> exists v :: Mistypes(sub, v)
  {
    var v := WrongFor(sub);
    if v.Some? {
      WrongForExactly(sub, v.value);
    }
    forall v | Mistypes(sub, v) ensures SingleTyped(sub) {
      WrongForExactly(sub, v);
    }
    hide Get;
  }

  // ---------- outside an enum or const ----------

  /** The schema is an object that lists the values it allows, or names the only one. */
  ghost predicate Constrains(sub: Json, allowed: seq<Json>) {
    && sub.Object?
    && match Get(sub.fields, "enum")
       case Some(Array(items)) =>
         if items != [] then allowed == items
         else Get(sub.fields, "const").Some? && allowed == [Get(sub.fields, "const").value]
       case _ => Get(sub.fields, "const").Some? && allowed == [Get(sub.fields, "const").value]
  }

  lemma AllowedByExactly(sub: Json, allowed: seq<Json>)
    ensures AllowedBy(sub) == Some(allowed) <==> Constrains(sub, allowed)
  {
    hide Get;
  }

  /** `allowed` has a value Python finds equal. */
  ghost predicate HasEqual(allowed: seq<Json>, v: Json) {
    exists item <- allowed :: PythonEqual(v, item)
  }

  /** `v` is the first of the five candidates that the list does not have. */
  ghost predicate FirstOutside(allowed: seq<Json>, v: Json) {
    var text, number, no := Text("mcpscore-smoke-invalid-value"), Number(42.0), Bool(false);
    var list, dictionary := Array([]), Object([Field("mcpscore", Text("invalid"))]);
    && !HasEqual(allowed, v)
    && (|| v == text
        || (v == number && HasEqual(allowed, text))
        || (v == no && HasEqual(allowed, text) && HasEqual(allowed, number))
        || (v == list && HasEqual(allowed, text) && HasEqual(allowed, number) && HasEqual(allowed, no))
        || (v == dictionary && HasEqual(allowed, text) && HasEqual(allowed, number) && HasEqual(allowed, no)
            && HasEqual(allowed, list)))
  }

  /** A value outside what the schema allows. */
  ghost predicate Exceeds(sub: Json, v: Json) {
    exists allowed :: Constrains(sub, allowed) && FirstOutside(allowed, v)
  }

  lemma OutsideStep(allowed: seq<Json>, k: nat)
    requires k < 5
    ensures |CANDIDATES| == 5
    ensures Outside(allowed, k)
            == if HasEqual(allowed, CANDIDATES[k]) then Outside(allowed, k + 1) else Some(CANDIDATES[k])
    ensures Outside(allowed, 5) == None
  {
    hide PythonEqual;
    assert FoundIn(CANDIDATES[k], allowed) == HasEqual(allowed, CANDIDATES[k]);
  }

  lemma OutsideExactly(allowed: seq<Json>, v: Json)
    ensures Outside(allowed, 0) == Some(v) <==> FirstOutside(allowed, v)
  {
    hide HasEqual, Outside, FoundIn;
    OutsideStep(allowed, 0);
    OutsideStep(allowed, 1);
    OutsideStep(allowed, 2);
    OutsideStep(allowed, 3);
    OutsideStep(allowed, 4);
  }

  lemma OutsideForExactly(sub: Json, v: Json)
    ensures OutsideFor(sub) == Some(v) <==> Exceeds(sub, v)
  {
    forall allowed ensures AllowedBy(sub) == Some(allowed) <==> Constrains(sub, allowed) {
      AllowedByExactly(sub, allowed);
    }
    forall allowed ensures Outside(allowed, 0) == Some(v) <==> FirstOutside(allowed, v) {
      OutsideExactly(allowed, v);
    }
    hide AllowedBy, Constrains, Outside, FirstOutside;
  }

  // ---------- the first property ----------

  /** Property `k` is the first with a bad value, and has that one. */
  ghost predicate FirstAt(properties: Fields, bad: Json -> Option<Json>, k: nat, field: Field) {
    && k < |properties| && field.name == properties[k].name && bad(properties[k].value) == Some(field.value)
    && forall j :: 0 <= j < k ==> bad(properties[j].value).None?
  }

  lemma FirstAtShift(properties: Fields, bad: Json -> Option<Json>, k: nat, field: Field)
    requires properties != [] && bad(properties[0].value).None?
    ensures FirstAt(properties, bad, k + 1, field) <==> FirstAt(properties[1..], bad, k, field)
    ensures !FirstAt(properties, bad, 0, field)
  {
    var rest := properties[1..];
    assert forall j :: 0 <= j < |rest| ==> rest[j] == properties[j + 1];
    if FirstAt(rest, bad, k, field) {
      forall j | 0 <= j < k + 1 ensures bad(properties[j].value).None? {
        assert j > 0 ==> rest[j - 1] == properties[j];
      }
    }
  }

  lemma {:induction false} FirstBadExactly(properties: Fields, bad: Json -> Option<Json>, field: Field)
    ensures FirstBad(properties, bad) == Some(field) <==> exists k: nat :: FirstAt(properties, bad, k, field)
  {
    if properties == [] {
    } else if bad(properties[0].value).Some? {
      FirstAtOnce(properties, bad, field);
    } else {
      var rest := properties[1..];
      FirstBadExactly(rest, bad, field);
      forall k: nat ensures FirstAt(properties, bad, k + 1, field) <==> FirstAt(rest, bad, k, field) {
        FirstAtShift(properties, bad, k, field);
      }
      FirstAtShift(properties, bad, 0, field);
      hide FirstAt;
      if k: nat :| FirstAt(properties, bad, k, field) {
        assert FirstAt(rest, bad, k - 1, field);
      }
      if k: nat :| FirstAt(rest, bad, k, field) {
        assert FirstAt(properties, bad, k + 1, field);
      }
    }
  }

  lemma FirstAtOnce(properties: Fields, bad: Json -> Option<Json>, field: Field)
    requires properties != [] && bad(properties[0].value).Some?
    ensures FirstBad(properties, bad) == Some(field) <==> exists k: nat :: FirstAt(properties, bad, k, field)
  {
    if FirstBad(properties, bad) == Some(field) {
      assert FirstAt(properties, bad, 0, field);
    }
  }

  /** The first text among the names. */
  ghost predicate FirstText(names: seq<Json>, k: nat, name: string) {
    k < |names| && names[k] == Text(name) && forall j :: 0 <= j < k ==> !names[j].Text?
  }

  lemma {:induction false} FirstNameExactly(names: seq<Json>, name: string)
    ensures FirstName(names) == Some(name) <==> exists k: nat :: FirstText(names, k, name)
  {
    if names != [] {
      var rest := names[1..];
      FirstNameExactly(rest, name);
      assert forall j :: 0 <= j < |rest| ==> rest[j] == names[j + 1];
      if names[0].Text? {
        if FirstName(names) == Some(name) {
          assert FirstText(names, 0, name);
        }
      } else {
        if k: nat :| FirstText(names, k, name) {
          assert FirstText(rest, k - 1, name);
        }
        if k: nat :| FirstText(rest, k, name) {
          assert FirstText(names, k + 1, name);
        }
      }
    }
  }

  // ---------- all four ----------

  /** The declared properties; a `properties` that is no object declares none. */
  ghost predicate Declares(schema: Json, properties: Fields) {
    && schema.Object?
    && match Get(schema.fields, "properties")
       case Some(Object(subs)) => properties == subs
       case _ => properties == []
  }

  ghost predicate Requires(schema: Json, names: seq<Json>) {
    && schema.Object?
    && match Get(schema.fields, "required")
       case Some(Array(items)) => names == items
       case _ => names == []
  }

  ghost predicate NoneMistyped(properties: Fields) {
    forall p, v :: p in properties ==> !Mistypes(p.value, v)
  }

  ghost predicate NoneExceeded(properties: Fields) {
    forall p, v :: p in properties ==> !Exceeds(p.value, v)
  }

  /** The unexpected name: the base name, with `_x` behind it as often as it takes to be undeclared. */
  ghost predicate UnexpectedFor(properties: Fields, name: string, n: nat) {
    && name == "mcpscore_smoke_unexpected_property" + Xs(n)
    && (forall p <- properties :: p.name != name)
    && forall k: nat :: k < n ==> exists p <- properties :: p.name == "mcpscore_smoke_unexpected_property" + Xs(k)
  }

  ghost function Xs(n: nat): string {
    if n == 0 then "" else Xs(n - 1) + "_x"
  }

  lemma {:induction false} SuffixedIs(n: nat)
    ensures Suffixed(n) == "mcpscore_smoke_unexpected_property" + Xs(n)
  {
    if n > 0 {
      SuffixedIs(n - 1);
      assert Suffixed(n) == "mcpscore_smoke_unexpected_property" + (Xs(n - 1) + "_x");
    }
  }

  lemma UnexpectedNameExactly(properties: Fields)
    ensures exists n: nat :: UnexpectedFor(properties, UnexpectedName(properties), n)
  {
    SuffixedInjective();
    var names := NamesOf(properties);
    var n := FirstFree(names, Suffixed, 0);
    SuffixedIs(n);
    forall k: nat | k < n ensures exists p <- properties :: p.name == "mcpscore_smoke_unexpected_property" + Xs(k) {
      SuffixedIs(k);
      assert Suffixed(k) in names;
    }
    assert UnexpectedFor(properties, UnexpectedName(properties), n);
  }

  lemma WrongForNone(sub: Json)
    ensures WrongFor(sub).None? <==> forall v :: !Mistypes(sub, v)
  {
    hide WrongFor, Mistypes;
    if WrongFor(sub).Some? {
      WrongForExactly(sub, WrongFor(sub).value);
    }
    forall v | Mistypes(sub, v) ensures WrongFor(sub).Some? {
      WrongForExactly(sub, v);
    }
  }

  lemma OutsideForNone(sub: Json)
    ensures OutsideFor(sub).None? <==> forall v :: !Exceeds(sub, v)
  {
    hide OutsideFor, Exceeds;
    if OutsideFor(sub).Some? {
      OutsideForExactly(sub, OutsideFor(sub).value);
    }
    forall v | Exceeds(sub, v) ensures OutsideFor(sub).Some? {
      OutsideForExactly(sub, v);
    }
  }

  lemma NoneMistypedExactly(properties: Fields)
    ensures FirstBad(properties, WrongFor).None? <==> NoneMistyped(properties)
  {
    hide WrongFor, Mistypes;
    forall p | p in properties ensures WrongFor(p.value).None? <==> forall v :: !Mistypes(p.value, v) {
      WrongForNone(p.value);
    }
  }

  lemma NoneExceededExactly(properties: Fields)
    ensures FirstBad(properties, OutsideFor).None? <==> NoneExceeded(properties)
  {
    hide OutsideFor, Exceeds;
    forall p | p in properties ensures OutsideFor(p.value).None? <==> forall v :: !Exceeds(p.value, v) {
      OutsideForNone(p.value);
    }
  }

  /** The first property with a wrong-typed value, whichever it is. */
  ghost predicate FirstMistyped(properties: Fields, k: nat, field: Field) {
    && k < |properties| && field.name == properties[k].name && Mistypes(properties[k].value, field.value)
    && forall j, v :: 0 <= j < k ==> !Mistypes(properties[j].value, v)
  }

  ghost predicate FirstExceeded(properties: Fields, k: nat, field: Field) {
    && k < |properties| && field.name == properties[k].name && Exceeds(properties[k].value, field.value)
    && forall j, v :: 0 <= j < k ==> !Exceeds(properties[j].value, v)
  }

  lemma FirstMistypedIs(properties: Fields, field: Field)
    requires FirstBad(properties, WrongFor) == Some(field)
    ensures exists k: nat :: FirstMistyped(properties, k, field)
  {
    FirstBadExactly(properties, WrongFor, field);
    var k: nat :| FirstAt(properties, WrongFor, k, field);
    hide WrongFor, Mistypes;
    forall j, v | 0 <= j <= k ensures WrongFor(properties[j].value) == Some(v) <==> Mistypes(properties[j].value, v) {
      WrongForExactly(properties[j].value, v);
    }
    assert FirstMistyped(properties, k, field);
  }

  lemma FirstExceededIs(properties: Fields, field: Field)
    requires FirstBad(properties, OutsideFor) == Some(field)
    ensures exists k: nat :: FirstExceeded(properties, k, field)
  {
    FirstBadExactly(properties, OutsideFor, field);
    var k: nat :| FirstAt(properties, OutsideFor, k, field);
    FirstAtIs(properties, OutsideFor, k, field);
    OutsideForExactly(properties[k].value, field.value);
    hide *;
    forall j, v | 0 <= j < k ensures !Exceeds(properties[j].value, v) {
      OutsideForExactly(properties[j].value, v);
    }
    FirstExceededAt(properties, k, field);
  }

  lemma FirstAtIs(properties: Fields, bad: Json -> Option<Json>, k: nat, field: Field)
    requires FirstAt(properties, bad, k, field)
    ensures k < |properties| && field.name == properties[k].name && bad(properties[k].value) == Some(field.value)
    ensures forall j :: 0 <= j < k ==> bad(properties[j].value).None?
  {
  }

  lemma FirstExceededAt(properties: Fields, k: nat, field: Field)
    requires k < |properties| && field.name == properties[k].name && Exceeds(properties[k].value, field.value)
    requires forall j, v :: 0 <= j < k ==> !Exceeds(properties[j].value, v)
    ensures exists k: nat :: FirstExceeded(properties, k, field)
  {
    hide Exceeds;
    assert FirstExceeded(properties, k, field);
  }

  /**
   What is violated, for every schema: a type before an enum or const, either before a required name, and only then
   the closing of the object; within each kind the first that there is.
   */
  lemma ViolationExactly(schema: Json, properties: Fields, names: seq<Json>)
    requires Declares(schema, properties) && Requires(schema, names)
    ensures match FindViolation(schema)
            case Some(WrongType(field)) => exists k: nat :: FirstMistyped(properties, k, field)
            case Some(NotAllowed(field)) =>
              NoneMistyped(properties) && exists k: nat :: FirstExceeded(properties, k, field)
            case Some(Missing(name)) =>
              NoneMistyped(properties) && NoneExceeded(properties) && exists k: nat :: FirstText(names, k, name)
            case Some(Unexpected(name)) =>
              && NoneMistyped(properties) && NoneExceeded(properties) && (forall n <- names :: !n.Text?)
              && Get(schema.fields, "additionalProperties") == Some(Bool(false))
              && exists n: nat :: UnexpectedFor(properties, name, n)
            case None =>
              && NoneMistyped(properties) && NoneExceeded(properties) && (forall n <- names :: !n.Text?)
              && Get(schema.fields, "additionalProperties") != Some(Bool(false))
  {
    var s := schema.fields;
    assert Properties(s) == properties && MissingName(s) == FirstName(names);
    NoneMistypedExactly(properties);
    NoneExceededExactly(properties);
    UnexpectedNameExactly(properties);
    hide FirstBad, SubSchemas, MissingName, UnexpectedName, NoneMistyped, NoneExceeded, FirstName, UnexpectedFor;
    var wrong, outside := FirstBad(properties, WrongFor), FirstBad(properties, OutsideFor);
    if wrong.Some? {
      FirstMistypedIs(properties, wrong.value);
    }
    if outside.Some? {
      FirstExceededIs(properties, outside.value);
    }
    if FirstName(names).Some? {
      FirstNameExactly(names, FirstName(names).value);
    }
    hide FirstMistyped, FirstExceeded, FirstText, Get;
  }

  /** A property allows every candidate. */
  ghost predicate AllowsCandidates(sub: Json) {
    forall allowed :: Constrains(sub, allowed) ==>
      && HasEqual(allowed, Text("mcpscore-smoke-invalid-value")) && HasEqual(allowed, Number(42.0))
      && HasEqual(allowed, Bool(false)) && HasEqual(allowed, Array([]))
      && HasEqual(allowed, Object([Field("mcpscore", Text("invalid"))]))
  }

  lemma NoneExceedsExactly(sub: Json)
    ensures (forall v :: !Exceeds(sub, v)) <==> AllowsCandidates(sub)
  {
    forall allowed | Constrains(sub, allowed)
      ensures (forall v :: !FirstOutside(allowed, v)) <==>
              && HasEqual(allowed, Text("mcpscore-smoke-invalid-value")) && HasEqual(allowed, Number(42.0))
              && HasEqual(allowed, Bool(false)) && HasEqual(allowed, Array([]))
              && HasEqual(allowed, Object([Field("mcpscore", Text("invalid"))]))
    {
      NothingOutside(allowed);
    }
    hide Constrains, FirstOutside, HasEqual;
    if AllowsCandidates(sub) {
      forall v ensures !Exceeds(sub, v) {
      }
    } else {
      var allowed :| Constrains(sub, allowed) && exists v :: FirstOutside(allowed, v);
      var v :| FirstOutside(allowed, v);
      assert Exceeds(sub, v);
    }
  }

  lemma NothingOutside(allowed: seq<Json>)
    ensures (forall v :: !FirstOutside(allowed, v)) <==>
            && HasEqual(allowed, Text("mcpscore-smoke-invalid-value")) && HasEqual(allowed, Number(42.0))
            && HasEqual(allowed, Bool(false)) && HasEqual(allowed, Array([]))
            && HasEqual(allowed, Object([Field("mcpscore", Text("invalid"))]))
  {
    forall v ensures Outside(allowed, 0) == Some(v) <==> FirstOutside(allowed, v) {
      OutsideExactly(allowed, v);
    }
    OutsideStep(allowed, 0);
    OutsideStep(allowed, 1);
    OutsideStep(allowed, 2);
    OutsideStep(allowed, 3);
    OutsideStep(allowed, 4);
    hide HasEqual, Outside, FirstOutside;
    if Outside(allowed, 0).Some? {
      assert FirstOutside(allowed, Outside(allowed, 0).value);
    }
  }

  /**
   No arguments come back exactly when no property has one of the seven types alone or excludes one of the five
   candidates, no name is required, and the object is not closed.
   */
  lemma NoneExactlyWhenNothingToViolate(schema: Json, properties: Fields, names: seq<Json>)
    requires Declares(schema, properties) && Requires(schema, names)
    ensures InvalidArguments(schema).None? <==>
            && (forall p <- properties :: !SingleTyped(p.value) && AllowsCandidates(p.value))
            && (forall name <- names :: !name.Text?)
            && Get(schema.fields, "additionalProperties") != Some(Bool(false))
  {
    ViolationExactly(schema, properties, names);
    forall p | p in properties
      ensures SingleTyped(p.value) <==> exists v :: Mistypes(p.value, v)
      ensures AllowsCandidates(p.value) <==> forall v :: !Exceeds(p.value, v)
    {
      MistypesExactly(p.value);
      NoneExceedsExactly(p.value);
    }
    assert InvalidArguments(schema).None? <==> FindViolation(schema).None?;
    hide FindViolation, InvalidArguments, Get, SingleTyped, Mistypes, Exceeds, AllowsCandidates, UnexpectedFor;
    if field :| FindViolation(schema) == Some(WrongType(field)) {
      var k: nat :| FirstMistyped(properties, k, field);
      assert properties[k] in properties;
    }
    if field :| FindViolation(schema) == Some(NotAllowed(field)) {
      var k: nat :| FirstExceeded(properties, k, field);
      assert properties[k] in properties;
    }
  }

  // ---------- sample values ----------

  /** The zero value of each type, an object of its required properties, and nothing below four levels. */
  lemma ZeroValuesExactly(s: Fields, name: string, depth: nat)
    requires NothingToDraw(s) && DeclaredType(s) == Some(Text(name))
    ensures SynthesizeValue(Object(s), depth) ==
            if depth >= 4 then Null
            else if name == "object" then Object(SynthesizeObject(s, depth + 1))
            else if name == "string" then Text("")
            else if name == "number" || name == "integer" then Number(0.0)
            else if name == "boolean" then Bool(false)
            else if name == "array" then Array([])
            else Null
  {
    hide Get, NonEmptyList, DeclaredType, SynthesizeObject;
  }

  /** The declared type is the one text, or the first of a list. */
  lemma DeclaredTypeExactly(s: Fields, name: string)
    ensures DeclaredType(s) == Some(Text(name)) <==>
            || Get(s, "type") == Some(Text(name))
            || exists rest :: Get(s, "type") == Some(Array([Text(name)] + rest))
  {
    hide Get;
    var declared := Get(s, "type");
    if NonEmptyList(declared) {
      var items := declared.value.items;
      assert items == [items[0]] + items[1..];
    }
  }

  // ---------- Python's equality ----------

  /** The value with its booleans as the numbers Python takes them for. */
  function Numbers(v: Json): Json
    decreases v
  {
    match v
    case Bool(truth) => Number(if truth then 1.0 else 0.0)
    case Array(items) => Array(seq(|items|, i requires 0 <= i < |items| => Numbers(items[i])))
    case Object(fields) =>
      Object(seq(|fields|, i requires 0 <= i < |fields| => Field(fields[i].name, Numbers(fields[i].value))))
    case _ => v
  }

  /** Python finds two values equal exactly when they are equal JSON once booleans are numbers. */
  lemma {:induction false} PythonEqualExactly(a: Json, b: Json)
    ensures PythonEqual(a, b) <==> JsonEqual(Numbers(a), Numbers(b))
    decreases a, 1
  {
    match a
    case Array(items) =>
      if b.Array? && |items| == |b.items| {
        forall i | 0 <= i < |items|
          ensures PythonEqual(items[i], b.items[i]) <==> JsonEqual(Numbers(a).items[i], Numbers(b).items[i])
        {
          PythonEqualExactly(items[i], b.items[i]);
        }
      }
    case Object(fields) =>
      if b.Object? && |fields| == |b.fields| {
        ObjectsEqualExactly(a, b);
      }
    case _ =>
  }

  lemma {:induction false} ObjectsEqualExactly(a: Json, b: Json)
    requires a.Object? && b.Object? && |a.fields| == |b.fields|
    ensures PythonEqual(a, b) <==> JsonEqual(Numbers(a), Numbers(b))
    decreases a, 0
  {
    var these, those := Numbers(a).fields, Numbers(b).fields;
    forall i, j ensures PythonPair(a.fields, b.fields, i, j) <==> JsonPair(these, those, i, j) {
      if 0 <= i < |these| && 0 <= j < |those| {
        PythonEqualExactly(a.fields[i].value, b.fields[j].value);
      }
    }
    hide PythonPair, JsonPair;
    assert forall i :: PythonHas(a.fields, b.fields, i) <==> JsonHas(these, those, i);
    NumbersOfObject(a);
    NumbersOfObject(b);
    hide *;
    PythonByIndex(a.fields, b.fields);
    JsonByIndex(these, those);
  }

  /** Field `i` of the one has field `j` of the other for its equal. */
  ghost predicate PythonPair(a: Fields, b: Fields, i: int, j: int) {
    0 <= i < |a| && 0 <= j < |b| && a[i].name == b[j].name && PythonEqual(a[i].value, b[j].value)
  }

  ghost predicate JsonPair(a: Fields, b: Fields, i: int, j: int) {
    0 <= i < |a| && 0 <= j < |b| && a[i].name == b[j].name && JsonEqual(a[i].value, b[j].value)
  }

  ghost predicate PythonHas(a: Fields, b: Fields, i: int) {
    exists j :: PythonPair(a, b, i, j)
  }

  ghost predicate JsonHas(a: Fields, b: Fields, i: int) {
    exists j :: JsonPair(a, b, i, j)
  }

  lemma NumbersOfObject(a: Json)
    requires a.Object?
    ensures Numbers(a).Object? && |Numbers(a).fields| == |a.fields| && a == Object(a.fields)
    ensures Numbers(a) == Object(Numbers(a).fields)
  {
  }

  lemma PythonByIndex(a: Fields, b: Fields)
    requires |a| == |b|
    ensures PythonEqual(Object(a), Object(b)) <==> forall i :: 0 <= i < |a| ==> PythonHas(a, b, i)
  {
    assert forall i :: 0 <= i < |a| ==> a[i] in a;
    assert forall j :: 0 <= j < |b| ==> b[j] in b;
    if forall i :: 0 <= i < |a| ==> PythonHas(a, b, i) {
      forall f | f in a ensures exists g <- b :: f.name == g.name && PythonEqual(f.value, g.value) {
        var i :| 0 <= i < |a| && a[i] == f;
        assert PythonHas(a, b, i);
        var j :| PythonPair(a, b, i, j);
        assert b[j] in b;
      }
    }
    if PythonEqual(Object(a), Object(b)) {
      forall i | 0 <= i < |a| ensures PythonHas(a, b, i) {
        var g :| g in b && a[i].name == g.name && PythonEqual(a[i].value, g.value);
        var j :| 0 <= j < |b| && b[j] == g;
        assert PythonPair(a, b, i, j);
      }
    }
  }

  lemma JsonByIndex(a: Fields, b: Fields)
    requires |a| == |b|
    ensures JsonEqual(Object(a), Object(b)) <==> forall i :: 0 <= i < |a| ==> JsonHas(a, b, i)
  {
    assert forall i :: 0 <= i < |a| ==> a[i] in a;
    if forall i :: 0 <= i < |a| ==> JsonHas(a, b, i) {
      forall f | f in a ensures exists g <- b :: f.name == g.name && JsonEqual(f.value, g.value) {
        var i :| 0 <= i < |a| && a[i] == f;
        assert JsonHas(a, b, i);
        var j :| JsonPair(a, b, i, j);
        assert b[j] in b;
      }
    }
    if JsonEqual(Object(a), Object(b)) {
      forall i | 0 <= i < |a| ensures JsonHas(a, b, i) {
        var g :| g in b && a[i].name == g.name && JsonEqual(a[i].value, g.value);
        var j :| 0 <= j < |b| && b[j] == g;
        assert JsonPair(a, b, i, j);
      }
    }
  }
}
