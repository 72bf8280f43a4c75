/**
 Sample arguments and schema violations for tool calls.

 JSON values, the two equalities that matter (JSON Schema's and Python's), what a schema accepts, the sample
 values drawn from a schema, and the four ways of breaking it.  The lemmas compare what is built with what the
 schema accepts.
 */
module SchemaViolation {
  import opened FreshNames
  import opened Wrappers

  // ---------- JSON ----------

  datatype Json =
    | Null
    | Bool(truth: bool)
    | Number(number: real)
    | Text(text: string)
    | Array(items: seq<Json>)
    | Object(fields: Fields)

  datatype Field = Field(name: string, value: Json)

  /** A dictionary in insertion order. */
  type Fields = seq<Field>

  ghost predicate DistinctNames(fields: Fields) {
    forall i, j :: 0 <= i < j < |fields| ==> fields[i].name != fields[j].name
  }

  /** `fields.get(name)` */
  function Get(fields: Fields, name: string): (r: Option<Json>)
    ensures r.None? <==> forall f <- fields :: f.name != name
    ensures r.Some? ==> Field(name, r.value) in fields
  {
    if fields == [] then None
    else if fields[0].name == name then Some(fields[0].value)
    else Get(fields[1..], name)
  }

  /** `fields[name] = value` */
  function Put(fields: Fields, name: string, value: Json): (r: Fields)
    ensures Field(name, value) in r
    ensures forall f <- r :: f == Field(name, value) || f in fields
    ensures forall f <- fields :: f.name != name ==> f in r
  {
    if fields == [] then [Field(name, value)]
    else if fields[0].name == name then [Field(name, value)] + fields[1..]
    else [fields[0]] + Put(fields[1..], name, value)
  }

  /** `fields.pop(name, None)` */
  function Pop(fields: Fields, name: string): (r: Fields)
    ensures forall f :: f in r <==> f in fields && f.name != name
  {
    if fields == [] then []
    else if fields[0].name == name then Pop(fields[1..], name)
    else [fields[0]] + Pop(fields[1..], name)
  }

  /** `0` and `False`, `1` and `True` are equal in Python. */
  function AsNumber(v: Json): Option<real> {
    match v
    case Bool(truth) => Some(if truth then 1.0 else 0.0)
    case Number(number) => Some(number)
    case _ => None
  }

  /** Python's `==` on decoded JSON. */
  predicate PythonEqual(a: Json, b: Json)
    decreases a
  {
    if AsNumber(a).Some? || AsNumber(b).Some? then AsNumber(a) == AsNumber(b)
    else
      match a
      case Array(items) =>
        b.Array? && |items| == |b.items| && forall i :: 0 <= i < |items| ==> PythonEqual(items[i], b.items[i])
      case Object(fields) =>
        b.Object? && |fields| == |b.fields| &&
        forall f <- fields :: exists g <- b.fields :: f.name == g.name && PythonEqual(f.value, g.value)
      case _ => a == b
  }

  /** Equality of JSON values, as `enum` and `const` mean it. */
  predicate JsonEqual(a: Json, b: Json)
    decreases a
  {
    match a
    case Array(items) =>
      b.Array? && |items| == |b.items| && forall i :: 0 <= i < |items| ==> JsonEqual(items[i], b.items[i])
    case Object(fields) =>
      b.Object? && |fields| == |b.fields| &&
      forall f <- fields :: exists g <- b.fields :: f.name == g.name && JsonEqual(f.value, g.value)
    case _ => a == b
  }

  /** Python's equality is the coarser one, so a value Python finds nowhere in a list is truly not in it. */
  lemma {:induction false} JsonEqualIsPythonEqual(a: Json, b: Json)
    requires JsonEqual(a, b)
    ensures PythonEqual(a, b)
    decreases a
  {
    match a
    case Array(items) =>
      forall i | 0 <= i < |items| ensures PythonEqual(items[i], b.items[i]) {
        JsonEqualIsPythonEqual(items[i], b.items[i]);
      }
    case Object(fields) =>
      forall f | f in fields
        ensures exists g <- b.fields :: f.name == g.name && PythonEqual(f.value, g.value)
      {
        var g :| g in b.fields && f.name == g.name && JsonEqual(f.value, g.value);
        JsonEqualIsPythonEqual(f.value, g.value);
      }
    case _ =>
  }

  // ---------- what a schema accepts ----------

  predicate HasType(v: Json, name: string) {
    || (name == "string" && v.Text?)
    || (name == "number" && v.Number?)
    || (name == "integer" && v.Number? && v.number.Floor as real == v.number)
    || (name == "boolean" && v.Bool?)
    || (name == "array" && v.Array?)
    || (name == "object" && v.Object?)
    || (name == "null" && v.Null?)
  }

  /** How patterns match names, and what any keyword not spelled out here demands. */
  datatype Dialect = Dialect(matches: (string, string) -> bool, other: (Fields, Json) -> bool)

  predicate TypeAllows(s: Fields, v: Json) {
    match Get(s, "type")
    case Some(Text(name)) => HasType(v, name)
    case Some(Array(names)) => exists name <- names :: name.Text? && HasType(v, name.text)
    case _ => true
  }

  predicate EnumAllows(s: Fields, v: Json) {
    match Get(s, "enum")
    case Some(Array(items)) => exists item <- items :: JsonEqual(v, item)
    case _ => true
  }

  predicate ConstAllows(s: Fields, v: Json) {
    match Get(s, "const")
    case Some(c) => JsonEqual(v, c)
    case None => true
  }

  predicate RequiredAllows(s: Fields, v: Json) {
    match Get(s, "required")
    case Some(Array(names)) =>
      v.Object? ==> forall name <- names :: name.Text? ==> Get(v.fields, name.text).Some?
    case _ => true
  }

  /** The sub-schemas an object-valued keyword holds. */
  function SubSchemas(s: Fields, keyword: string): (subs: Fields)
    ensures forall sub <- subs :: sub.value < Object(s)
  {
    match Get(s, keyword)
    case Some(Object(subs)) =>
      assert Field(keyword, Object(subs)) in s;
      subs
    case _ => []
  }

  function Properties(s: Fields): Fields { SubSchemas(s, "properties") }

  /** The name is neither declared nor matched by a pattern. */
  predicate Additional(d: Dialect, s: Fields, name: string) {
    && (forall p <- Properties(s) :: p.name != name)
    && (forall p <- SubSchemas(s, "patternProperties") :: !d.matches(p.name, name))
  }

  ghost predicate Accepts(d: Dialect, schema: Json, v: Json)
    decreases schema
  {
    match schema
    case Bool(truth) => truth
    case Object(s) =>
      && TypeAllows(s, v) && EnumAllows(s, v) && ConstAllows(s, v) && RequiredAllows(s, v) && d.other(s, v)
      && (v.Object? ==>
            forall f <- v.fields ::
              && (forall p <- Properties(s) :: p.name == f.name ==> Accepts(d, p.value, f.value))
              && (forall p <- SubSchemas(s, "patternProperties") ::
                    d.matches(p.name, f.name) ==> Accepts(d, p.value, f.value))
              && (Additional(d, s, f.name) && Get(s, "additionalProperties").Some? ==>
                    Accepts(d, Get(s, "additionalProperties").value, f.value)))
    case _ => true
  }

  // ---------- sample values ----------

  const MAX_DEPTH: nat := 4

  function Measure(depth: nat): nat { if depth <= MAX_DEPTH then MAX_DEPTH + 1 - depth else 0 }

  predicate NonEmptyList(v: Option<Json>) {
    v.Some? && v.value.Array? && v.value.items != []
  }

  /** The declared type, the first of several. */
  function DeclaredType(s: Fields): Option<Json> {
    var declared := Get(s, "type");
    if NonEmptyList(declared) then Some(declared.value.items[0]) else declared
  }

  function ZeroValue(name: string): Json {
    if name == "string" then Text("")
    else if name == "number" || name == "integer" then Number(0.0)
    else if name == "boolean" then Bool(false)
    else if name == "array" then Array([])
    else Null
  }

  function SynthesizeValue(schema: Json, depth: nat): Json
    decreases Measure(depth), 0, 0
  {
    if depth >= MAX_DEPTH || !schema.Object? then Null
    else
      var s := schema.fields;
      var fixed := Get(s, "default");
      var constant := Get(s, "const");
      var examples, enum := Get(s, "examples"), Get(s, "enum");
      var anyOf, oneOf := Get(s, "anyOf"), Get(s, "oneOf");
      if fixed.Some? then fixed.value
      else if constant.Some? then constant.value
      else if NonEmptyList(examples) then examples.value.items[0]
      else if NonEmptyList(enum) then enum.value.items[0]
      else if NonEmptyList(anyOf) then SynthesizeValue(anyOf.value.items[0], depth + 1)
      else if NonEmptyList(oneOf) then SynthesizeValue(oneOf.value.items[0], depth + 1)
      else
        match DeclaredType(s)
        case Some(Text(name)) => if name == "object" then Object(SynthesizeObject(s, depth + 1)) else ZeroValue(name)
        case _ => Null
  }

  function SynthesizeObject(s: Fields, depth: nat): Fields
    decreases Measure(depth), 1, 0
  {
    match (Get(s, "properties"), Get(s, "required"))
    case (Some(Object(properties)), Some(Array(required))) => SynthesizeFields(properties, required, |required|, depth)
    case _ => []
  }

  /** The samples for the first `n` required names that are declared with a schema object. */
  function SynthesizeFields(properties: Fields, required: seq<Json>, n: nat, depth: nat): Fields
    requires n <= |required|
    decreases Measure(depth), 0, n + 1
  {
    if n == 0 then []
    else
      var fields := SynthesizeFields(properties, required, n - 1, depth);
      match required[n - 1]
      case Text(name) =>
        (match Get(properties, name)
         case Some(Object(sub)) => Put(fields, name, SynthesizeValue(Object(sub), depth))
         case _ => fields)
      case _ => fields
  }

  function SynthesizeArguments(schema: Json): Fields {
    if schema.Object? then SynthesizeObject(schema.fields, 0) else []
  }

  // ---------- the four violations ----------

  function WrongTyped(name: string): Option<Json> {
    if name == "string" then Some(Number(42.0))
    else if name == "number" then Some(Text("not-a-number"))
    else if name == "integer" then Some(Text("not-an-integer"))
    else if name == "boolean" then Some(Text("not-a-boolean"))
    else if name == "array" then Some(Object([Field("invalid", Bool(true))]))
    else if name == "object" then Some(Text("not-an-object"))
    else if name == "null" then Some(Number(0.0))
    else None
  }

  /** The wrong-typed value for a property with one declared type. */
  function WrongFor(sub: Json): Option<Json> {
    if !sub.Object? then None
    else
      match Get(sub.fields, "type")
      case Some(Text(name)) => WrongTyped(name)
      case _ => None
  }

  const CANDIDATES: seq<Json> := [
    Text("mcpscore-smoke-invalid-value"), Number(42.0), Bool(false), Array([]),
    Object([Field("mcpscore", Text("invalid"))])
  ]

  predicate FoundIn(v: Json, allowed: seq<Json>) {
    exists item <- allowed :: PythonEqual(v, item)
  }

  /** The first of the candidates, from the `k`-th on, that is not in the list. */
  function Outside(allowed: seq<Json>, k: nat): (r: Option<Json>)
    requires k <= |CANDIDATES|
    ensures r.Some? ==> !FoundIn(r.value, allowed)
    ensures r.None? ==> forall i :: k <= i < |CANDIDATES| ==> FoundIn(CANDIDATES[i], allowed)
    decreases |CANDIDATES| - k
  {
    if k == |CANDIDATES| then None
    else if FoundIn(CANDIDATES[k], allowed) then Outside(allowed, k + 1)
    else Some(CANDIDATES[k])
  }

  function AllowedBy(sub: Json): Option<seq<Json>> {
    if !sub.Object? then None
    else
      var enum, constant := Get(sub.fields, "enum"), Get(sub.fields, "const");
      if NonEmptyList(enum) then Some(enum.value.items)
      else if constant.Some? then Some([constant.value])
      else None
  }

  /** The candidate outside an enum or const constraint. */
  function OutsideFor(sub: Json): Option<Json> {
    match AllowedBy(sub)
    case Some(allowed) => Outside(allowed, 0)
    case None => None
  }

  /** The first property for which there is a bad value, with that value. */
  function FirstBad(properties: Fields, bad: Json -> Option<Json>): (r: Option<Field>)
    ensures r.None? <==> forall p <- properties :: bad(p.value).None?
    ensures r.Some? ==> exists p <- properties :: p.name == r.value.name && bad(p.value) == Some(r.value.value)
  {
    if properties == [] then None
    else if bad(properties[0].value).Some? then Some(Field(properties[0].name, bad(properties[0].value).value))
    else FirstBad(properties[1..], bad)
  }

  function FirstName(names: seq<Json>): (r: Option<string>)
    ensures r.None? <==> forall name <- names :: !name.Text?
    ensures r.Some? ==> Text(r.value) in names
  {
    if names == [] then None
    else if names[0].Text? then Some(names[0].text)
    else FirstName(names[1..])
  }

  function MissingName(s: Fields): Option<string> {
    match Get(s, "required") case Some(Array(names)) => FirstName(names) case _ => None
  }

  const UNEXPECTED := "mcpscore_smoke_unexpected_property"

  /** The base name with `n` times `_x` behind it. */
  function Suffixed(n: nat): string {
    if n == 0 then UNEXPECTED else Suffixed(n - 1) + "_x"
  }

  lemma {:induction false} SuffixedLength(n: nat)
    ensures |Suffixed(n)| == |UNEXPECTED| + 2 * n
  {
    if n > 0 {
      SuffixedLength(n - 1);
    }
  }

  lemma SuffixedInjective()
    ensures InjectiveFrom(Suffixed, 0)
  {
    forall i: nat, j: nat | Suffixed(i) == Suffixed(j) ensures i == j {
      SuffixedLength(i);
      SuffixedLength(j);
    }
  }

  function NamesOf(fields: Fields): set<string> {
    set f <- fields :: f.name
  }

  /** The first suffixed name that the schema does not declare. */
  function UnexpectedName(properties: Fields): (name: string)
    ensures forall p <- properties :: p.name != name
  {
    SuffixedInjective();
    var name := Suffixed(FirstFree(NamesOf(properties), Suffixed, 0));
    assert forall p <- properties :: p.name in NamesOf(properties);
    name
  }

  datatype Violation =
    | WrongType(field: Field) | NotAllowed(field: Field) | Missing(name: string) | Unexpected(name: string)

  function FindViolation(schema: Json): Option<Violation> {
    if !schema.Object? then None
    else
      var s := schema.fields;
      var properties := Properties(s);
      var wrong, outside := FirstBad(properties, WrongFor), FirstBad(properties, OutsideFor);
      var missing := MissingName(s);
      if wrong.Some? then Some(WrongType(wrong.value))
      else if outside.Some? then Some(NotAllowed(outside.value))
      else if missing.Some? then Some(Missing(missing.value))
      else if Get(s, "additionalProperties") == Some(Bool(false)) then Some(Unexpected(UnexpectedName(properties)))
      else None
  }

  /** Sample arguments with one deliberate violation. */
  function Violated(arguments: Fields, violation: Violation): Fields {
    match violation
    case WrongType(field) => Put(arguments, field.name, field.value)
    case NotAllowed(field) => Put(arguments, field.name, field.value)
    case Missing(name) => Pop(arguments, name)
    case Unexpected(name) => Put(arguments, name, Bool(true))
  }

  function InvalidArguments(schema: Json): Option<Fields> {
    match FindViolation(schema)
    case Some(violation) => Some(Violated(SynthesizeArguments(schema), violation))
    case None => None
  }

  // ---------- the schema rejects what was built ----------

  lemma WrongForIsRejected(d: Dialect, sub: Json)
    requires WrongFor(sub).Some?
    ensures !Accepts(d, sub, WrongFor(sub).value)
  {
  }

  lemma OutsideForIsRejected(d: Dialect, sub: Json)
    requires OutsideFor(sub).Some?
    ensures !Accepts(d, sub, OutsideFor(sub).value)
  {
    var v := OutsideFor(sub).value;
    forall item | JsonEqual(v, item) ensures PythonEqual(v, item) {
      JsonEqualIsPythonEqual(v, item);
    }
    hide PythonEqual, JsonEqual;
  }

  lemma BadFieldIsRejected(d: Dialect, s: Fields, p: Field, arguments: Fields, bad: Json)
    requires p in Properties(s) && Field(p.name, bad) in arguments && !Accepts(d, p.value, bad)
    ensures !Accepts(d, Object(s), Object(arguments))
  {
  }

  lemma MissingIsRejected(d: Dialect, s: Fields, name: string, arguments: Fields)
    requires MissingName(s) == Some(name) && Get(arguments, name).None?
    ensures !Accepts(d, Object(s), Object(arguments))
  {
    assert !RequiredAllows(s, Object(arguments));
    hide TypeAllows, EnumAllows, ConstAllows, RequiredAllows, SubSchemas, Additional;
  }

  lemma UnexpectedIsRejected(d: Dialect, s: Fields, name: string, arguments: Fields)
    requires Get(s, "additionalProperties") == Some(Bool(false)) && Additional(d, s, name)
    requires Field(name, Bool(true)) in arguments
    ensures !Accepts(d, Object(s), Object(arguments))
  {
    RejectsAll(d, Bool(true));
    hide TypeAllows, EnumAllows, ConstAllows, RequiredAllows, SubSchemas, Additional;
  }

  lemma RejectsAll(d: Dialect, v: Json)
    ensures !Accepts(d, Bool(false), v)
  {
  }

  /**
   The schema rejects the arguments, whatever its other keywords say, unless a pattern accepts the name
   chosen for the unexpected property.
   */
  lemma InvalidArgumentsAreRejected(d: Dialect, schema: Json)
    requires InvalidArguments(schema).Some?
    requires forall name :: FindViolation(schema) == Some(Unexpected(name)) ==> Additional(d, schema.fields, name)
    ensures !Accepts(d, schema, Object(InvalidArguments(schema).value))
  {
    WhatWasFound(schema);
    hide *;
    var s, arguments := schema.fields, InvalidArguments(schema).value;
    match FindViolation(schema).value
    case WrongType(field) => WrongTypeIsRejected(d, s, field, arguments);
    case NotAllowed(field) => NotAllowedIsRejected(d, s, field, arguments);
    case Missing(name) => MissingIsRejected(d, s, name, arguments);
    case Unexpected(name) => UnexpectedIsRejected(d, s, name, arguments);
  }

  lemma WrongTypeIsRejected(d: Dialect, s: Fields, field: Field, arguments: Fields)
    requires FirstBad(Properties(s), WrongFor) == Some(field) && field in arguments
    ensures !Accepts(d, Object(s), Object(arguments))
  {
    hide Accepts, WrongFor, SubSchemas;
    var p :| p in Properties(s) && p.name == field.name && WrongFor(p.value) == Some(field.value);
    WrongForIsRejected(d, p.value);
    BadFieldIsRejected(d, s, p, arguments, field.value);
  }

  lemma NotAllowedIsRejected(d: Dialect, s: Fields, field: Field, arguments: Fields)
    requires FirstBad(Properties(s), OutsideFor) == Some(field) && field in arguments
    ensures !Accepts(d, Object(s), Object(arguments))
  {
    hide Accepts, OutsideFor, SubSchemas;
    var p :| p in Properties(s) && p.name == field.name && OutsideFor(p.value) == Some(field.value);
    OutsideForIsRejected(d, p.value);
    BadFieldIsRejected(d, s, p, arguments, field.value);
  }

  /** Where each violation comes from, and what it leaves in the arguments. */
  lemma WhatWasFound(schema: Json)
    requires InvalidArguments(schema).Some?
    ensures FindViolation(schema).Some? && schema == Object(schema.fields)
    ensures var s, arguments := schema.fields, InvalidArguments(schema).value;
            match FindViolation(schema).value
            case WrongType(field) => FirstBad(Properties(s), WrongFor) == Some(field) && field in arguments
            case NotAllowed(field) => FirstBad(Properties(s), OutsideFor) == Some(field) && field in arguments
            case Missing(name) => MissingName(s) == Some(name) && Get(arguments, name).None?
            case Unexpected(name) =>
              Get(s, "additionalProperties") == Some(Bool(false)) && Field(name, Bool(true)) in arguments
  {
    hide SynthesizeArguments, WrongFor, OutsideFor, SubSchemas, FirstBad, MissingName, UnexpectedName;
  }

  /** The arguments found when only the unexpected property is left to try. */
  lemma UnexpectedAlone(schema: Json, name: string)
    requires FindViolation(schema) == Some(Unexpected(name))
    ensures InvalidArguments(schema) == Some([Field(name, Bool(true))])
  {
    var s := schema.fields;
    match (Get(s, "properties"), Get(s, "required"))
    case (Some(Object(properties)), Some(Array(required))) =>
      NoNamesNoSamples(properties, required, |required|, 0);
    case _ =>
  }

  lemma {:induction false} NoNamesNoSamples(properties: Fields, required: seq<Json>, n: nat, depth: nat)
    requires n <= |required| && forall name <- required :: !name.Text?
    ensures SynthesizeFields(properties, required, n, depth) == []
  {
    if n > 0 {
      NoNamesNoSamples(properties, required, n - 1, depth);
      assert required[n - 1] in required;
    }
  }

  /**
   Exactly when the unexpected property is accepted after all: a pattern takes its name, and neither the schemas
   of the patterns that do nor anything the schema says about the whole object objects.
   */
  lemma UnexpectedAcceptedExactly(d: Dialect, schema: Json, name: string)
    requires FindViolation(schema) == Some(Unexpected(name))
    ensures InvalidArguments(schema) == Some([Field(name, Bool(true))])
    ensures var s, v := schema.fields, Object([Field(name, Bool(true))]);
            Accepts(d, schema, v) <==>
            && !Additional(d, s, name)
            && (forall p <- SubSchemas(s, "patternProperties") ::
                  d.matches(p.name, name) ==> Accepts(d, p.value, Bool(true)))
            && TypeAllows(s, v) && EnumAllows(s, v) && ConstAllows(s, v) && d.other(s, v)
  {
    UnexpectedAlone(schema, name);
    UnexpectedFacts(schema, name, Object([Field(name, Bool(true))]));
    hide *;
    AcceptsOneField(d, schema.fields, Field(name, Bool(true)));
    assert !Accepts(d, Bool(false), Bool(true)) by { RejectsAll(d, Bool(true)); }
  }

  lemma UnexpectedFacts(schema: Json, name: string, v: Json)
    requires FindViolation(schema) == Some(Unexpected(name))
    ensures schema == Object(schema.fields)
    ensures Get(schema.fields, "additionalProperties") == Some(Bool(false)) && RequiredAllows(schema.fields, v)
    ensures forall p <- Properties(schema.fields) :: p.name != name
  {
    match Get(schema.fields, "required")
    case Some(Array(names)) => assert FirstName(names).None?;
    case _ =>
  }

  lemma AcceptsOneField(d: Dialect, s: Fields, f: Field)
    ensures var v := Object([f]);
            Accepts(d, Object(s), v) <==>
            && TypeAllows(s, v) && EnumAllows(s, v) && ConstAllows(s, v) && RequiredAllows(s, v) && d.other(s, v)
            && (forall p <- Properties(s) :: p.name == f.name ==> Accepts(d, p.value, f.value))
            && (forall p <- SubSchemas(s, "patternProperties") ::
                  d.matches(p.name, f.name) ==> Accepts(d, p.value, f.value))
            && (Additional(d, s, f.name) && Get(s, "additionalProperties").Some? ==>
                  Accepts(d, Get(s, "additionalProperties").value, f.value))
  {
    assert [f][0] in [f];
    assert forall g <- [f] :: g == f;
    hide TypeAllows, EnumAllows, ConstAllows, RequiredAllows, SubSchemas, Additional;
  }

  /** A pattern that matches every name defeats the unexpected property. */
  lemma PatternDefeatsUnexpected(d: Dialect)
    requires d.matches("", UNEXPECTED) && forall s, v :: d.other(s, v)
    ensures var schema := Object([Field("additionalProperties", Bool(false)),
                                  Field("patternProperties", Object([Field("", Bool(true))]))]);
            InvalidArguments(schema).Some? && Accepts(d, schema, Object(InvalidArguments(schema).value))
  {
    var patterns := [Field("", Bool(true))];
    var closed, taken := Field("additionalProperties", Bool(false)), Field("patternProperties", Object(patterns));
    var s := [closed, taken];
    var schema := Object(s);
    GetTwo(closed, taken, "properties");
    GetTwo(closed, taken, "required");
    GetTwo(closed, taken, "additionalProperties");
    GetTwo(closed, taken, "patternProperties");
    GetTwo(closed, taken, "type");
    GetTwo(closed, taken, "enum");
    GetTwo(closed, taken, "const");
    hide Get;
    ClosedIsUnexpected(s);
    var v := Object([Field(UNEXPECTED, Bool(true))]);
    assert TypeAllows(s, v) && EnumAllows(s, v) && ConstAllows(s, v);
    assert SubSchemas(s, "patternProperties") == patterns && patterns[0] in patterns;
    assert !Additional(d, s, UNEXPECTED);
    AcceptsAll(d, Bool(true));
    hide TypeAllows, EnumAllows, ConstAllows, SubSchemas, Additional, Accepts, FindViolation, InvalidArguments;
    UnexpectedAcceptedExactly(d, schema, UNEXPECTED);
  }

  /** A closed object that declares and requires nothing leaves only the unexpected property to try. */
  lemma ClosedIsUnexpected(s: Fields)
    requires Get(s, "properties").None? && Get(s, "required").None?
    requires Get(s, "additionalProperties") == Some(Bool(false))
    ensures FindViolation(Object(s)) == Some(Unexpected(UNEXPECTED))
  {
    assert FirstFree(NamesOf([]), Suffixed, 0) == 0 by {
      SuffixedInjective();
    }
    hide Get;
  }

  function GetOfTwo(a: Field, b: Field, name: string): Option<Json> {
    if a.name == name then Some(a.value) else if b.name == name then Some(b.value) else None
  }

  lemma GetTwo(a: Field, b: Field, name: string)
    ensures Get([a, b], name) == GetOfTwo(a, b, name)
  {
    assert [a, b][1..] == [b] && [b][1..] == [];
  }

  lemma AcceptsAll(d: Dialect, v: Json)
    ensures Accepts(d, Bool(true), v)
  {
  }

  // ---------- one deliberate violation ----------

  lemma {:induction false} PutGets(fields: Fields, name: string, value: Json, other: string)
    ensures Get(Put(fields, name, value), other) == if other == name then Some(value) else Get(fields, other)
  {
    if fields != [] && fields[0].name != name {
      PutGets(fields[1..], name, value, other);
    }
  }

  lemma {:induction false} PopGets(fields: Fields, name: string, other: string)
    ensures Get(Pop(fields, name), other) == if other == name then None else Get(fields, other)
  {
    if fields != [] {
      PopGets(fields[1..], name, other);
    }
  }

  /** The name a violation is about, and what is put there. */
  function Target(violation: Violation): string {
    match violation
    case WrongType(field) => field.name
    case NotAllowed(field) => field.name
    case Missing(name) => name
    case Unexpected(name) => name
  }

  function Bad(violation: Violation): Option<Json> {
    match violation
    case WrongType(field) => Some(field.value)
    case NotAllowed(field) => Some(field.value)
    case Missing(_) => None
    case Unexpected(_) => Some(Bool(true))
  }

  /** The arguments sent are the sample arguments in every name but one, and there they are the violation. */
  lemma OneNameDiffers(schema: Json, name: string)
    requires InvalidArguments(schema).Some?
    ensures var violation := FindViolation(schema).value;
            Get(InvalidArguments(schema).value, name) ==
            if name == Target(violation) then Bad(violation) else Get(SynthesizeArguments(schema), name)
  {
    var violation := FindViolation(schema).value;
    var arguments := SynthesizeArguments(schema);
    PopGets(arguments, Target(violation), name);
    if Bad(violation).Some? {
      PutGets(arguments, Target(violation), Bad(violation).value, name);
    }
    hide FindViolation, SynthesizeArguments, Put, Pop, Get;
  }

  // ---------- dictionaries ----------

  lemma {:induction false} PutDistinct(fields: Fields, name: string, value: Json)
    requires DistinctNames(fields)
    ensures DistinctNames(Put(fields, name, value))
  {
    if fields != [] && fields[0].name != name {
      var rest := Put(fields[1..], name, value);
      PutDistinct(fields[1..], name, value);
      forall i | 0 <= i < |rest| ensures rest[i].name != fields[0].name {
        assert rest[i] in rest;
      }
    }
  }

  lemma {:induction false} PopDistinct(fields: Fields, name: string)
    requires DistinctNames(fields)
    ensures DistinctNames(Pop(fields, name))
  {
    if fields != [] {
      var rest := Pop(fields[1..], name);
      PopDistinct(fields[1..], name);
      forall i | 0 <= i < |rest| ensures rest[i].name != fields[0].name {
        assert rest[i] in rest;
      }
    }
  }

  lemma {:induction false} SamplesAreDistinct(properties: Fields, required: seq<Json>, n: nat, depth: nat)
    requires n <= |required|
    ensures DistinctNames(SynthesizeFields(properties, required, n, depth))
  {
    if n > 0 {
      SamplesAreDistinct(properties, required, n - 1, depth);
      var fields := SynthesizeFields(properties, required, n - 1, depth);
      match required[n - 1]
      case Text(name) =>
        match Get(properties, name) {
          case Some(Object(sub)) => PutDistinct(fields, name, SynthesizeValue(Object(sub), depth));
          case _ =>
        }
      case _ =>
    }
    hide SynthesizeValue, DistinctNames;
  }

  /** What is sent is a dictionary: no name twice. */
  lemma InvalidArgumentsAreDistinct(schema: Json)
    requires InvalidArguments(schema).Some?
    ensures DistinctNames(InvalidArguments(schema).value)
  {
    ArgumentsAreDistinct(schema);
    var arguments := SynthesizeArguments(schema);
    var violation := FindViolation(schema).value;
    PopDistinct(arguments, Target(violation));
    if Bad(violation).Some? {
      PutDistinct(arguments, Target(violation), Bad(violation).value);
    }
    hide FindViolation, SynthesizeArguments, DistinctNames, Put, Pop;
  }

  lemma ArgumentsAreDistinct(schema: Json)
    ensures DistinctNames(SynthesizeArguments(schema))
  {
    if schema.Object? {
      match (Get(schema.fields, "properties"), Get(schema.fields, "required"))
      case (Some(Object(properties)), Some(Array(required))) =>
        SamplesAreDistinct(properties, required, |required|, 0);
      case _ =>
    }
  }

  // ---------- the samples themselves ----------

  /** Decoded JSON: every object has each of its names once. */
  ghost predicate IsJson(v: Json)
    decreases v
  {
    match v
    case Array(items) => forall item <- items :: IsJson(item)
    case Object(fields) => DistinctNames(fields) && forall f <- fields :: IsJson(f.value)
    case _ => true
  }

  lemma SubSchemasAreJson(s: Fields, keyword: string)
    requires IsJson(Object(s))
    ensures DistinctNames(SubSchemas(s, keyword)) && forall p <- SubSchemas(s, keyword) :: IsJson(p.value)
  {
    match Get(s, keyword)
    case Some(Object(subs)) =>
      assert Field(keyword, Object(subs)) in s;
      assert IsJson(Object(subs));
    case _ =>
  }

  function RequiredNames(s: Fields): set<string> {
    match Get(s, "required")
    case Some(Array(names)) => set name <- names | name.Text? :: name.text
    case _ => {}
  }

  /** Every required name is declared by a schema object, so every one of them is sampled. */
  predicate AllDeclared(s: Fields) {
    forall name <- RequiredNames(s) :: Get(Properties(s), name).Some? && Get(Properties(s), name).value.Object?
  }

  /** What the keywords about a whole value say of it. */
  ghost predicate WholeAllows(d: Dialect, s: Fields, v: Json) {
    TypeAllows(s, v) && EnumAllows(s, v) && ConstAllows(s, v) && d.other(s, v)
  }

  /** The schemas of the patterns that take a name accept its value. */
  ghost predicate PatternsAccept(d: Dialect, s: Fields, name: string, v: Json) {
    forall q <- SubSchemas(s, "patternProperties") :: d.matches(q.name, name) ==> Accepts(d, q.value, v)
  }

  /**
   What a schema must be like for its sample to be valid.  A `default`, a `const`, a first example, a first enum
   entry and a zero value are taken as they are, so they must be accepted as they are; the sample of a first
   `anyOf` or `oneOf` branch must suit the whole schema; and an object is good when its properties are.
   */
  ghost predicate SampleFits(d: Dialect, schema: Json, depth: nat)
    decreases schema, 1
  {
    if depth >= MAX_DEPTH || !schema.Object? then Accepts(d, schema, Null)
    else
      var s := schema.fields;
      if Get(s, "default").Some? then Accepts(d, schema, Get(s, "default").value)
      else if Get(s, "const").Some? then Accepts(d, schema, Get(s, "const").value)
      else if NonEmptyList(Get(s, "examples")) then Accepts(d, schema, Get(s, "examples").value.items[0])
      else if NonEmptyList(Get(s, "enum")) then Accepts(d, schema, Get(s, "enum").value.items[0])
      else if NonEmptyList(Get(s, "anyOf")) then
        Accepts(d, schema, SynthesizeValue(Get(s, "anyOf").value.items[0], depth + 1))
      else if NonEmptyList(Get(s, "oneOf")) then
        Accepts(d, schema, SynthesizeValue(Get(s, "oneOf").value.items[0], depth + 1))
      else if DeclaredType(s) == Some(Text("object")) then ObjectFits(d, schema, depth + 1)
      else Accepts(d, schema, ZeroOf(DeclaredType(s)))
  }

  function ZeroOf(declared: Option<Json>): Json {
    if declared.Some? && declared.value.Text? then ZeroValue(declared.value.text) else Null
  }

  /**
   What a schema must be like for the object sampled from its required properties to be valid: every required name
   is declared by a schema object whose own sample is good, the patterns that take its name accept it, and the
   keywords about the whole object do.
   */
  ghost predicate ObjectFits(d: Dialect, schema: Json, depth: nat)
    requires schema.Object?
    decreases schema, 0
  {
    var s := schema.fields;
    && WholeAllows(d, s, Object(SynthesizeObject(s, depth)))
    && AllDeclared(s)
    && forall p <- Properties(s) :: p.name in RequiredNames(s) ==>
         SampleFits(d, p.value, depth) && PatternsAccept(d, s, p.name, SynthesizeValue(p.value, depth))
  }

  /** A value passes when the keywords about the whole of it allow it and each of its fields passes. */
  ghost predicate FieldAccepted(d: Dialect, s: Fields, f: Field) {
    && (forall p <- Properties(s) :: p.name == f.name ==> Accepts(d, p.value, f.value))
    && PatternsAccept(d, s, f.name, f.value)
    && (Additional(d, s, f.name) && Get(s, "additionalProperties").Some? ==>
          Accepts(d, Get(s, "additionalProperties").value, f.value))
  }

  lemma AcceptsByParts(d: Dialect, s: Fields, fields: Fields)
    ensures Accepts(d, Object(s), Object(fields)) <==>
            && WholeAllows(d, s, Object(fields)) && RequiredAllows(s, Object(fields))
            && forall f <- fields :: FieldAccepted(d, s, f)
  {
    hide TypeAllows, EnumAllows, ConstAllows, RequiredAllows, SubSchemas, Additional, Get;
  }

  lemma SampleStep(properties: Fields, required: seq<Json>, n: nat, depth: nat)
    requires 0 < n <= |required|
    ensures var before, name := SynthesizeFields(properties, required, n - 1, depth), required[n - 1];
            SynthesizeFields(properties, required, n, depth) ==
            if name.Text? && Get(properties, name.text).Some? && Get(properties, name.text).value.Object?
            then Put(before, name.text, SynthesizeValue(Get(properties, name.text).value, depth))
            else before
  {
    hide SynthesizeValue, Put, Get;
  }

  /** Every sampled field is required, declared, and the sample of its declaration. */
  lemma {:induction false} SampledFields(properties: Fields, required: seq<Json>, n: nat, depth: nat)
    requires n <= |required|
    ensures forall f <- SynthesizeFields(properties, required, n, depth) ::
              && Get(properties, f.name).Some? && Get(properties, f.name).value.Object?
              && Text(f.name) in required
              && f.value == SynthesizeValue(Get(properties, f.name).value, depth)
  {
    if n > 0 {
      SampledFields(properties, required, n - 1, depth);
      SampleStep(properties, required, n, depth);
    }
    hide SynthesizeValue, Get, Put;
  }

  /** Every name that is required and declared with a schema object is sampled. */
  lemma {:induction false} NameIsSampled(properties: Fields, required: seq<Json>, n: nat, depth: nat, name: string)
    requires n <= |required| && Text(name) in required[..n]
    requires Get(properties, name).Some? && Get(properties, name).value.Object?
    ensures Get(SynthesizeFields(properties, required, n, depth), name).Some?
  {
    var last := required[n - 1];
    assert required[..n] == required[..n - 1] + [last];
    SampleStep(properties, required, n, depth);
    if Text(name) in required[..n - 1] {
      NameIsSampled(properties, required, n - 1, depth, name);
    }
    if last.Text? && Get(properties, last.text).Some? {
      PutGets(SynthesizeFields(properties, required, n - 1, depth), last.text,
              SynthesizeValue(Get(properties, last.text).value, depth), name);
    }
    hide SynthesizeValue, SynthesizeFields, Get, Put;
  }

  lemma DistinctGet(fields: Fields, p: Field)
    requires DistinctNames(fields) && p in fields
    ensures Get(fields, p.name) == Some(p.value)
  {
    var r := Get(fields, p.name);
    var i :| 0 <= i < |fields| && fields[i] == p;
    var j :| 0 <= j < |fields| && fields[j] == Field(p.name, r.value);
    assert !(i < j) && !(j < i);
  }

  /** What is sampled: the required names that a schema object declares, each with its sample. */
  lemma SampledNames(s: Fields, depth: nat)
    ensures var fields := SynthesizeObject(s, depth);
            && (forall f <- fields ::
                  && f.name in RequiredNames(s) && Get(Properties(s), f.name).Some?
                  && f.value == SynthesizeValue(Get(Properties(s), f.name).value, depth))
            && (forall name <- RequiredNames(s) ::
                  (Get(Properties(s), name).Some? && Get(Properties(s), name).value.Object?)
                  <==> Get(fields, name).Some?)
  {
    match (Get(s, "properties"), Get(s, "required"))
    case (Some(Object(properties)), Some(Array(required))) =>
      SampledFields(properties, required, |required|, depth);
      assert required[..|required|] == required;
      forall name | name in RequiredNames(s) && Get(properties, name).Some? && Get(properties, name).value.Object?
        ensures Get(SynthesizeObject(s, depth), name).Some?
      {
        NameIsSampled(properties, required, |required|, depth, name);
      }
    case _ =>
  }

  lemma RequiredAllowsSample(s: Fields, depth: nat)
    ensures RequiredAllows(s, Object(SynthesizeObject(s, depth))) <==> AllDeclared(s)
  {
    SampledNames(s, depth);
    hide SynthesizeObject, SubSchemas;
    match Get(s, "required")
    case Some(Array(names)) =>
      forall name | name in names && name.Text? ensures name.text in RequiredNames(s) {}
    case _ =>
  }

  /** The sampled field of a required property passes exactly when the sample suits property and patterns. */
  lemma SampledFieldExactly(d: Dialect, s: Fields, p: Field, v: Json)
    requires DistinctNames(Properties(s)) && p in Properties(s)
    ensures FieldAccepted(d, s, Field(p.name, v)) <==> Accepts(d, p.value, v) && PatternsAccept(d, s, p.name, v)
  {
    forall q | q in Properties(s) && q.name == p.name ensures q == p {
      DistinctGet(Properties(s), p);
      DistinctGet(Properties(s), q);
    }
    hide Accepts, SubSchemas, PatternsAccept, DistinctNames, Get;
  }

  /** The sampled object is valid exactly when each required property's sample is, and nothing else objects. */
  lemma ObjectSampleExactly(d: Dialect, s: Fields, depth: nat)
    requires DistinctNames(Properties(s))
    ensures var v := Object(SynthesizeObject(s, depth));
            Accepts(d, Object(s), v) <==>
            && WholeAllows(d, s, v) && AllDeclared(s)
            && forall p <- Properties(s) :: p.name in RequiredNames(s) ==>
                 Accepts(d, p.value, SynthesizeValue(p.value, depth))
                 && PatternsAccept(d, s, p.name, SynthesizeValue(p.value, depth))
  {
    var fields := SynthesizeObject(s, depth);
    AcceptsByParts(d, s, fields);
    RequiredAllowsSample(s, depth);
    SampledNames(s, depth);
    if AllDeclared(s) {
      forall p | p in Properties(s) && p.name in RequiredNames(s)
        ensures Field(p.name, SynthesizeValue(p.value, depth)) in fields
        ensures FieldAccepted(d, s, Field(p.name, SynthesizeValue(p.value, depth))) <==>
                Accepts(d, p.value, SynthesizeValue(p.value, depth))
                && PatternsAccept(d, s, p.name, SynthesizeValue(p.value, depth))
      {
        DistinctGet(Properties(s), p);
        SampledFieldExactly(d, s, p, SynthesizeValue(p.value, depth));
      }
      forall f | f in fields
        ensures exists p <- Properties(s) ::
                  p.name in RequiredNames(s) && f == Field(p.name, SynthesizeValue(p.value, depth))
      {
        assert Field(f.name, Get(Properties(s), f.name).value) in Properties(s);
      }
    }
    hide *;
  }

  /** None of the keywords that a sample is taken from. */
  predicate NothingToDraw(s: Fields) {
    && Get(s, "default").None? && Get(s, "const").None?
    && !NonEmptyList(Get(s, "examples")) && !NonEmptyList(Get(s, "enum"))
    && !NonEmptyList(Get(s, "anyOf")) && !NonEmptyList(Get(s, "oneOf"))
  }

  /** The sample is an object built from the required properties. */
  predicate BuildsObject(schema: Json, depth: nat) {
    && depth < MAX_DEPTH && schema.Object? && NothingToDraw(schema.fields)
    && DeclaredType(schema.fields) == Some(Text("object"))
  }

  lemma BuiltSample(d: Dialect, schema: Json, depth: nat)
    requires BuildsObject(schema, depth)
    ensures SampleFits(d, schema, depth) == ObjectFits(d, schema, depth + 1)
    ensures SynthesizeValue(schema, depth) == Object(SynthesizeObject(schema.fields, depth + 1))
  {
    hide ObjectFits, SynthesizeObject, Get, NonEmptyList, DeclaredType, Accepts;
  }

  /** A sample that is taken as it is must be accepted as it is. */
  lemma TakenSample(d: Dialect, schema: Json, depth: nat)
    requires !BuildsObject(schema, depth)
    ensures SampleFits(d, schema, depth) == Accepts(d, schema, SynthesizeValue(schema, depth))
  {
    hide ObjectFits, SynthesizeObject, Get, NonEmptyList, DeclaredType, Accepts;
  }

  /** The sample drawn from a schema is valid exactly when the schema fits. */
  lemma {:induction false} SampleExactly(d: Dialect, schema: Json, depth: nat)
    requires IsJson(schema)
    ensures SampleFits(d, schema, depth) <==> Accepts(d, schema, SynthesizeValue(schema, depth))
    decreases schema, 1
  {
    if BuildsObject(schema, depth) {
      BuiltSample(d, schema, depth);
      assert schema.Object?;
      hide *;
      ObjectExactly(d, schema, depth + 1);
    } else {
      TakenSample(d, schema, depth);
    }
  }

  lemma {:induction false} ObjectExactly(d: Dialect, schema: Json, depth: nat)
    requires IsJson(schema) && schema.Object?
    ensures ObjectFits(d, schema, depth) <==> Accepts(d, schema, Object(SynthesizeObject(schema.fields, depth)))
    decreases schema, 0
  {
    var s := schema.fields;
    SubSchemasAreJson(s, "properties");
    forall p | p in Properties(s)
      ensures SampleFits(d, p.value, depth) <==> Accepts(d, p.value, SynthesizeValue(p.value, depth))
    {
      SampleExactly(d, p.value, depth);
    }
    assert schema == Object(s);
    hide SampleFits, Accepts, SynthesizeValue, SynthesizeObject, SubSchemas, WholeAllows, AllDeclared, PatternsAccept;
    hide RequiredNames, IsJson, DistinctNames;
    ObjectSampleExactly(d, s, depth);
  }

  /** The condition on an input schema for its sample arguments. */
  ghost predicate ArgumentsFit(d: Dialect, schema: Json) {
    if schema.Object? then ObjectFits(d, schema, 0) else Accepts(d, schema, Object([]))
  }

  /** The sample arguments of a tool are valid exactly when its input schema fits. */
  lemma SampleArgumentsExactly(d: Dialect, schema: Json)
    requires IsJson(schema)
    ensures ArgumentsFit(d, schema) <==> Accepts(d, schema, Object(SynthesizeArguments(schema)))
  {
    if schema.Object? {
      ObjectExactly(d, schema, 0);
    }
    hide ObjectFits, SynthesizeObject, Accepts, IsJson;
  }

  // ---------- the checks that hold by themselves ----------

  lemma {:induction false} JsonEqualReflexive(v: Json)
    ensures JsonEqual(v, v)
    decreases v
  {
    match v
    case Array(items) =>
      forall i | 0 <= i < |items| ensures JsonEqual(items[i], items[i]) {
        JsonEqualReflexive(items[i]);
      }
    case Object(fields) =>
      forall f | f in fields ensures exists g <- fields :: f.name == g.name && JsonEqual(f.value, g.value) {
        JsonEqualReflexive(f.value);
        assert f in fields;
      }
    case _ =>
  }

  /** Only the keywords about a whole value speak of one that is no object. */
  lemma AcceptsScalar(d: Dialect, s: Fields, v: Json)
    requires !v.Object?
    ensures Accepts(d, Object(s), v) <==> WholeAllows(d, s, v)
  {
    hide TypeAllows, EnumAllows, ConstAllows, SubSchemas, Additional, Get;
  }

  predicate PlainType(name: string) {
    name in ["string", "number", "integer", "boolean", "array", "null"]
  }

  /** The zero value of a plain type always has it, so only keywords not spelled out here can object to it. */
  lemma PlainTypeFits(d: Dialect, s: Fields, name: string, depth: nat)
    requires depth < MAX_DEPTH && DeclaredType(s) == Some(Text(name)) && PlainType(name)
    requires NothingToDraw(s) && Get(s, "enum").None?
    ensures SampleFits(d, Object(s), depth) <==> d.other(s, ZeroValue(name))
  {
    var v := ZeroValue(name);
    ZeroHasType(s, name);
    TakenSample(d, Object(s), depth);
    assert SynthesizeValue(Object(s), depth) == v by {
      hide Get, NonEmptyList, DeclaredType, ZeroValue;
    }
    assert EnumAllows(s, v) && ConstAllows(s, v);
    hide *;
    AcceptsScalar(d, s, v);
    assert WholeAllows(d, s, v) <==> d.other(s, v) by { WholeIs(d, s, v); }
  }

  lemma WholeIs(d: Dialect, s: Fields, v: Json)
    ensures WholeAllows(d, s, v) <==> TypeAllows(s, v) && EnumAllows(s, v) && ConstAllows(s, v) && d.other(s, v)
  {
    hide TypeAllows, EnumAllows, ConstAllows;
  }

  lemma ZeroHasType(s: Fields, name: string)
    requires DeclaredType(s) == Some(Text(name)) && PlainType(name)
    ensures TypeAllows(s, ZeroValue(name)) && !ZeroValue(name).Object?
  {
    assert HasType(ZeroValue(name), name);
    if NonEmptyList(Get(s, "type")) {
      assert Get(s, "type").value.items[0] in Get(s, "type").value.items;
    }
    hide HasType;
  }

  /** A first enum entry that is no object is always one of the enum, so its type decides. */
  lemma EnumEntryFits(d: Dialect, s: Fields, depth: nat)
    requires depth < MAX_DEPTH && Get(s, "default").None? && Get(s, "const").None? && !NonEmptyList(Get(s, "examples"))
    requires NonEmptyList(Get(s, "enum")) && !Get(s, "enum").value.items[0].Object?
    ensures var v := Get(s, "enum").value.items[0];
            SampleFits(d, Object(s), depth) <==> TypeAllows(s, v) && d.other(s, v)
  {
    var v := Get(s, "enum").value.items[0];
    TakenSample(d, Object(s), depth);
    assert SynthesizeValue(Object(s), depth) == v;
    JsonEqualReflexive(v);
    assert v in Get(s, "enum").value.items;
    assert EnumAllows(s, v) && ConstAllows(s, v);
    hide *;
    AcceptsScalar(d, s, v);
    WholeIs(d, s, v);
  }

  /** A `default` of the wrong type is taken as it is, so not every sample is a valid argument. */
  lemma DefaultCanDefeatSample(d: Dialect)
    ensures var name := Field("name", Object([Field("type", Text("string")), Field("default", Number(1.0))]));
            var schema := Object([Field("required", Array([Text("name")])), Field("properties", Object([name]))]);
            !Accepts(d, schema, Object(SynthesizeArguments(schema)))
  {
    var text, one := Field("type", Text("string")), Field("default", Number(1.0));
    var sub, bad := [text, one], Number(1.0);
    var properties, required := [Field("name", Object(sub))], [Text("name")];
    var needs, declares := Field("required", Array(required)), Field("properties", Object(properties));
    var s := [needs, declares];
    GetTwo(text, one, "type");
    GetTwo(text, one, "default");
    GetTwo(needs, declares, "properties");
    GetTwo(needs, declares, "required");
    assert Get(properties, "name") == Some(Object(sub)) && properties[0] in properties;
    assert Put([], "name", bad) == [Field("name", bad)];
    hide Get, Put;
    SampleStep(properties, required, 1, 0);
    assert SynthesizeValue(Object(sub), 0) == bad;
    assert !TypeAllows(sub, bad) && !Accepts(d, Object(sub), bad);
    assert SynthesizeArguments(Object(s)) == [Field("name", bad)];
    hide Accepts, SynthesizeArguments, SynthesizeValue;
    BadFieldIsRejected(d, s, properties[0], [Field("name", bad)], bad);
  }

  // ---------- the functions that search ----------

  function WithField(schema: Json, found: Option<Field>): Option<Fields> {
    match found
    case Some(field) => Some(Put(SynthesizeArguments(schema), field.name, field.value))
    case None => None
  }

  lemma FirstBadStep(properties: Fields, bad: Json -> Option<Json>, i: nat)
    requires i < |properties|
    ensures FirstBad(properties[i..], bad) ==
            match bad(properties[i].value)
            case Some(value) => Some(Field(properties[i].name, value))
            case None => FirstBad(properties[i + 1..], bad)
  {
    assert properties[i..][1..] == properties[i + 1..];
  }

  method WrongTypedViolation(schema: Json, properties: Fields) returns (r: Option<Fields>)
    ensures r == WithField(schema, FirstBad(properties, WrongFor))
  {
    for i := 0 to |properties|
      invariant FirstBad(properties, WrongFor) == FirstBad(properties[i..], WrongFor)
    {
      FirstBadStep(properties, WrongFor, i);
      hide SynthesizeArguments, Put, WrongTyped, FirstBad, Get;
      var sub := properties[i].value;
      if !sub.Object? {
        continue;
      }
      var declared := Get(sub.fields, "type");
      if declared.Some? && declared.value.Text? && WrongTyped(declared.value.text).Some? {
        return Some(Put(SynthesizeArguments(schema), properties[i].name, WrongTyped(declared.value.text).value));
      }
    }
    return None;
  }

  method FirstOutside(allowed: seq<Json>) returns (r: Option<Json>)
    ensures r == Outside(allowed, 0)
  {
    for k := 0 to |CANDIDATES|
      invariant Outside(allowed, 0) == Outside(allowed, k)
    {
      if !FoundIn(CANDIDATES[k], allowed) {
        return Some(CANDIDATES[k]);
      }
    }
    return None;
  }

  method EnumViolation(schema: Json, properties: Fields) returns (r: Option<Fields>)
    ensures r == WithField(schema, FirstBad(properties, OutsideFor))
  {
    for i := 0 to |properties|
      invariant FirstBad(properties, OutsideFor) == FirstBad(properties[i..], OutsideFor)
    {
      FirstBadStep(properties, OutsideFor, i);
      hide SynthesizeArguments, Put, FoundIn, FirstBad, Outside, Get;
      var sub := properties[i].value;
      if !sub.Object? {
        continue;
      }
      var enum, constant := Get(sub.fields, "enum"), Get(sub.fields, "const");
      var allowed;
      if NonEmptyList(enum) {
        allowed := enum.value.items;
      } else if constant.Some? {
        allowed := [constant.value];
      } else {
        continue;
      }
      var candidate := FirstOutside(allowed);
      if candidate.Some? {
        return Some(Put(SynthesizeArguments(schema), properties[i].name, candidate.value));
      }
    }
    return None;
  }

  method MissingRequiredViolation(schema: Json) returns (r: Option<Fields>)
    requires schema.Object?
    ensures r == match MissingName(schema.fields)
                 case Some(name) => Some(Pop(SynthesizeArguments(schema), name))
                 case None => None
  {
    var required := Get(schema.fields, "required");
    if required.None? || !required.value.Array? {
      return None;
    }
    var names := required.value.items;
    for i := 0 to |names|
      invariant FirstName(names) == FirstName(names[i..])
    {
      assert names[i..][1..] == names[i + 1..];
      if names[i].Text? {
        return Some(Pop(SynthesizeArguments(schema), names[i].text));
      }
    }
    return None;
  }

  method UnexpectedPropertyViolation(schema: Json, properties: Fields) returns (r: Option<Fields>)
    requires schema.Object?
    ensures r == if Get(schema.fields, "additionalProperties") == Some(Bool(false))
                 then Some(Put(SynthesizeArguments(schema), UnexpectedName(properties), Bool(true)))
                 else None
  {
    if Get(schema.fields, "additionalProperties") != Some(Bool(false)) {
      return None;
    }
    SuffixedInjective();
    var names := NamesOf(properties);
    var name := UNEXPECTED;
    ghost var n: nat := 0;
    while name in names
      invariant name == Suffixed(n) && n <= FirstFree(names, Suffixed, 0)
      invariant forall k: nat :: k < n ==> Suffixed(k) in names
      decreases FirstFree(names, Suffixed, 0) - n
    {
      name := name + "_x";
      n := n + 1;
    }
    FirstFreeIs(names, Suffixed, 0, n);
    return Some(Put(SynthesizeArguments(schema), name, Bool(true)));
  }

  lemma InFixedOrder(schema: Json)
    requires schema.Object?
    ensures var s := schema.fields;
            var arguments := SynthesizeArguments(schema);
            var wrong, outside := FirstBad(Properties(s), WrongFor), FirstBad(Properties(s), OutsideFor);
            InvalidArguments(schema) ==
            if wrong.Some? then WithField(schema, wrong)
            else if outside.Some? then WithField(schema, outside)
            else if MissingName(s).Some? then Some(Pop(arguments, MissingName(s).value))
            else if Get(s, "additionalProperties") == Some(Bool(false))
              then Some(Put(arguments, UnexpectedName(Properties(s)), Bool(true)))
            else None
  {
    hide SynthesizeArguments, FirstBad, Put, Pop, UnexpectedName, MissingName, SubSchemas;
  }

  /** The four kinds of violation in their fixed order; all are derived, the first that exists is returned. */
  method SynthesizeInvalidArguments(schema: Json) returns (r: Option<Fields>)
    ensures r == InvalidArguments(schema)
  {
    if !schema.Object? {
      return None;
    }
    InFixedOrder(schema);
    hide SynthesizeArguments, FirstBad, Put, Pop, UnexpectedName, MissingName, InvalidArguments, SubSchemas, Get;
    var properties := Properties(schema.fields);
    var wrong := WrongTypedViolation(schema, properties);
    var outside := EnumViolation(schema, properties);
    var missing := MissingRequiredViolation(schema);
    var unexpected := UnexpectedPropertyViolation(schema, properties);
    r := if wrong.Some? then wrong
         else if outside.Some? then outside
         else if missing.Some? then missing
         else unexpected;
  }

  const UNKNOWN_TOOL := "mcpscore_smoke_nonexistent_tool"

  function ToolName(n: nat): string { Numbered(UNKNOWN_TOOL, "_", n, "") }

  lemma ToolNamesInjective()
    ensures InjectiveFrom(ToolName, 1)
  {
    forall i: nat, j: nat | 1 <= i && 1 <= j && ToolName(i) == ToolName(j) ensures i == j {
      NumberedInjective(UNKNOWN_TOOL, "_", "", i, j);
    }
  }

  /** A tool name the catalog does not list, found within one more try than there are tools. */
  method DeriveUnknownToolName(tools: seq<string>) returns (candidate: string)
    ensures candidate !in tools
    ensures exists n: nat :: 1 <= n <= |tools| + 1 && FirstUnlisted(tools, n, candidate)
  {
    var existing := ToSet(tools);
    ToolNamesInjective();
    candidate := UNKNOWN_TOOL;
    var suffix: nat := 2;
    ghost var last := FirstFree(existing, ToolName, 1);
    while candidate in existing
      invariant candidate == ToolName(suffix - 1) && 2 <= suffix <= last + 1
      invariant forall k: nat :: 1 <= k < suffix - 1 ==> ToolName(k) in existing
      decreases last + 1 - suffix
    {
      candidate := UNKNOWN_TOOL + "_" + Decimal(suffix) + "";
      suffix := suffix + 1;
    }
    forall k: nat ensures ToolName(k) == UnknownTool(k) {
      assert UNKNOWN_TOOL + "_" + Decimal(k) + "" == "mcpscore_smoke_nonexistent_tool_" + Decimal(k);
    }
    assert FirstUnlisted(tools, suffix - 1, candidate);
  }

  /** The candidate is the `n`-th name, and all before it are listed. */
  ghost predicate FirstUnlisted(tools: seq<string>, n: nat, candidate: string) {
    candidate == UnknownTool(n) && forall k: nat :: 1 <= k < n ==> UnknownTool(k) in tools
  }

  function UnknownTool(n: nat): string {
    if n <= 1 then "mcpscore_smoke_nonexistent_tool" else "mcpscore_smoke_nonexistent_tool_" + Decimal(n)
  }

  function ToSet(items: seq<string>): (r: set<string>)
    ensures |r| <= |items| && forall x :: x in r <==> x in items
  {
    if items == [] then {} else {items[0]} + ToSet(items[1..])
  }
}
