/**
 Package coordinates: `npm:<name>[@<version>]` and `pypi:<name>[==<version>]`, read and printed.

 `RoundTrip` and `PrintsBackExactly` say that the two directions undo each other, and for which coordinates
 built by hand they do.
 */
module Packages {
  import opened Sequences
  import opened Wrappers

  datatype Result<T> = Ok(value: T) | Err(error: ParseError)

  datatype ParseError = MissingPrefix | UnsupportedRegistry | MissingName | UnusableName | MissingVersion

  // ---------- text ----------

  /** The characters `str.strip` removes and `\s` matches. */
  predicate IsSpace(c: char) {
    || '\U{0009}' <= c <= '\U{000D}' || '\U{001C}' <= c <= '\U{0020}' || c == '\U{0085}' || c == '\U{00A0}'
    || c == '\U{1680}' || '\U{2000}' <= c <= '\U{200A}' || c == '\U{2028}' || c == '\U{2029}'
    || c == '\U{202F}' || c == '\U{205F}' || c == '\U{3000}'
  }

  /** No whitespace at either end. */
  predicate Trimmed(s: string) {
    s == [] || (!IsSpace(s[0]) && !IsSpace(s[|s| - 1]))
  }

  function TrimStart(s: string): (r: string)
    ensures |r| <= |s| && (r == [] || !IsSpace(r[0]))
    ensures s == [] || !IsSpace(s[0]) ==> r == s
  {
    if s == [] || !IsSpace(s[0]) then s else TrimStart(s[1..])
  }

  function TrimEnd(s: string): (r: string)
    ensures r <= s && (r == [] || !IsSpace(r[|r| - 1]))
    ensures s == [] || !IsSpace(s[|s| - 1]) ==> r == s
  {
    if s == [] || !IsSpace(s[|s| - 1]) then s else TrimEnd(s[..|s| - 1])
  }

  /** `s.strip()` */
  function Strip(s: string): string {
    TrimEnd(TrimStart(s))
  }

  lemma StripTrims(s: string)
    ensures Trimmed(Strip(s)) && (Trimmed(s) ==> Strip(s) == s)
  {
  }

  lemma {:induction false} TrimStartKeeps(s: string, c: char)
    requires !IsSpace(c)
    ensures c in TrimStart(s) <==> c in s
  {
    if s != [] && IsSpace(s[0]) {
      TrimStartKeeps(s[1..], c);
      assert s == [s[0]] + s[1..];
    }
  }

  lemma {:induction false} TrimEndKeeps(s: string, c: char)
    requires !IsSpace(c)
    ensures c in TrimEnd(s) <==> c in s
  {
    if s != [] && IsSpace(s[|s| - 1]) {
      TrimEndKeeps(s[..|s| - 1], c);
      assert s == s[..|s| - 1] + [s[|s| - 1]];
    }
  }

  /** Stripping loses nothing but whitespace. */
  lemma StripKeeps(s: string, c: char)
    requires !IsSpace(c)
    ensures c in Strip(s) <==> c in s
  {
    TrimStartKeeps(s, c);
    TrimEndKeeps(TrimStart(s), c);
  }

  /** Where `part` first occurs, or -1. */
  function Find(s: string, part: string): (i: int)
    requires part != []
    ensures i == -1 || (0 <= i <= |s| - |part|)
  {
    if s == [] then -1
    else if part <= s then 0
    else
      var i := Find(s[1..], part);
      if i < 0 then -1 else i + 1
  }

  /** The first occurrence is where the part was put, when its first character does not occur before. */
  lemma {:induction false} FindAfter(before: string, part: string, after: string)
    requires part != [] && part[0] !in before
    ensures Find(before + (part + after), part) == |before|
  {
    var s := before + (part + after);
    if before == [] {
      assert s == part + after;
    } else {
      assert s[0] == before[0] && before[0] in before;
      FindAfter(before[1..], part, after);
      assert s[1..] == before[1..] + (part + after);
    }
  }

  lemma {:induction false} FindNowhere(s: string, part: string)
    requires part != [] && part[0] !in s
    ensures Find(s, part) == -1
  {
    if s != [] {
      assert s[0] in s;
      FindNowhere(s[1..], part);
    }
  }

  /** Where `c` last occurs, or -1. */
  function FindLast(s: string, c: char): (i: int)
    ensures -1 <= i < |s|
    ensures i >= 0 ==> s[i] == c
    ensures forall k :: i < k < |s| ==> s[k] != c
  {
    if s == [] then -1 else if s[|s| - 1] == c then |s| - 1 else FindLast(s[..|s| - 1], c)
  }

  function LowerChar(c: char): char {
    if 'A' <= c <= 'Z' then (c as int - 'A' as int + 'a' as int) as char else c
  }

  function Lower(s: string): string {
    seq(|s|, i requires 0 <= i < |s| => LowerChar(s[i]))
  }

  // ---------- names ----------

  predicate NpmPart(s: string) {
    s != [] && forall c <- s :: c != '/' && c != '@' && !IsSpace(c)
  }

  /** An optional `@scope/` and a name. */
  predicate NpmName(s: string) {
    NpmPart(s) ||
    (s != [] && s[0] == '@' && exists k :: 1 <= k < |s| && s[k] == '/' && NpmPart(s[1..k]) && NpmPart(s[k + 1..]))
  }

  predicate AlphaNumeric(c: char) {
    'A' <= c <= 'Z' || 'a' <= c <= 'z' || '0' <= c <= '9'
  }

  predicate PypiName(s: string) {
    && s != [] && AlphaNumeric(s[0]) && AlphaNumeric(s[|s| - 1])
    && forall c <- s :: AlphaNumeric(c) || c == '.' || c == '_' || c == '-'
  }

  datatype Registry = Npm | Pypi {
    function Value(): string { if Npm? then "npm" else "pypi" }

    function Joiner(): string { if Npm? then "@" else "==" }

    predicate UsableName(name: string) { if Npm? then NpmName(name) else PypiName(name) }
  }

  // ---------- coordinates ----------

  datatype Coordinate = Coordinate(registry: Registry, identifier: string, version: Option<string>) {
    function PinText(): string {
      match version case None => "" case Some(v) => registry.Joiner() + v
    }

    /** The canonical coordinate text. */
    function Display(): string {
      registry.Value() + ":" + identifier + PinText()
    }
  }

  /** What constructing a coordinate does: a blank version means unpinned, any other is stripped. */
  function Make(registry: Registry, identifier: string, version: Option<string>): Coordinate {
    Coordinate(registry, identifier,
               if version.Some? && Strip(version.value) != "" then Some(Strip(version.value)) else None)
  }

  function RegistryOf(prefix: string): Option<Registry> {
    var name := Lower(Strip(prefix));
    if name == "npm" then Some(Npm) else if name == "pypi" then Some(Pypi) else None
  }

  datatype Pin = Pin(pinned: bool, name: string, version: string)

  /** The name and version of an npm remainder: the last `@` separates them unless it comes first. */
  function SplitNpm(remainder: string): Pin {
    var at := FindLast(remainder, '@');
    if at > 0 then Pin(true, remainder[..at], remainder[at + 1..]) else Pin(false, remainder, "")
  }

  /** The name and version of a PyPI remainder: the first `==` separates them. */
  function SplitPypi(remainder: string): Pin {
    var at := Find(remainder, "==");
    if at >= 0 then Pin(true, remainder[..at], remainder[at + 2..]) else Pin(false, remainder, "")
  }

  function ParseRemainder(registry: Registry, remainder: string): Result<Coordinate> {
    var pin := if registry.Npm? then SplitNpm(remainder) else SplitPypi(remainder);
    var name, version := Strip(pin.name), Strip(pin.version);
    if !registry.UsableName(name) then Err(UnusableName)
    else if pin.pinned && version == "" then Err(MissingVersion)
    else Ok(Make(registry, name, if version == "" then None else Some(version)))
  }

  function ParseAfter(prefix: string, rest: string): Result<Coordinate> {
    match RegistryOf(prefix)
    case None => Err(UnsupportedRegistry)
    case Some(registry) =>
      var remainder := Strip(rest);
      if remainder == "" then Err(MissingName) else ParseRemainder(registry, remainder)
  }

  function Parse(raw: string): Result<Coordinate> {
    var text := Strip(raw);
    var colon := Find(text, ":");
    if colon < 0 then Err(MissingPrefix) else ParseAfter(text[..colon], text[colon + 1..])
  }

  // ---------- the round trip ----------

  /** The coordinates whose printed form can be read back. */
  predicate Readable(c: Coordinate) {
    && c.registry.UsableName(c.identifier)
    && (c.version.Some? ==>
          && c.version.value != "" && Trimmed(c.version.value)
          && (c.registry.Npm? ==> '@' !in c.version.value))
  }

  lemma NamesAreTrimmed(registry: Registry, name: string)
    requires registry.UsableName(name)
    ensures name != "" && Trimmed(name)
    ensures registry.Npm? ==> forall k :: 0 < k < |name| ==> name[k] != '@'
    ensures registry.Pypi? ==> '=' !in name
  {
    if registry.Npm? && !NpmPart(name) {
      var k :| 1 <= k < |name| && name[k] == '/' && NpmPart(name[1..k]) && NpmPart(name[k + 1..]);
      assert name[|name| - 1] == name[k + 1..][|name| - k - 2];
      forall i | 0 < i < |name| ensures name[i] != '@' {
        if i < k {
          assert name[i] == name[1..k][i - 1] && name[1..k][i - 1] in name[1..k];
        } else if i > k {
          assert name[i] == name[k + 1..][i - k - 1] && name[k + 1..][i - k - 1] in name[k + 1..];
        }
      }
    } else if registry.Npm? {
      assert forall k :: 0 <= k < |name| ==> name[k] in name;
    }
  }

  lemma ParsedVersionHasNoAt(remainder: string)
    ensures '@' !in SplitNpm(remainder).version
  {
  }

  /** Building a coordinate gives a readable one exactly when its name is usable and its version has no `@`. */
  lemma MadeIsReadable(registry: Registry, identifier: string, version: Option<string>)
    ensures var c := Make(registry, identifier, version);
            Readable(c) <==>
            registry.UsableName(identifier) && (registry.Npm? && c.version.Some? ==> '@' !in version.value)
  {
    if version.Some? {
      StripTrims(version.value);
      StripKeeps(version.value, '@');
    }
    hide Strip, IsSpace, Trimmed, NpmName, PypiName;
  }

  lemma ParsedRemainderIsReadable(registry: Registry, remainder: string)
    requires ParseRemainder(registry, remainder).Ok?
    ensures Readable(ParseRemainder(registry, remainder).value)
  {
    var pin := if registry.Npm? then SplitNpm(remainder) else SplitPypi(remainder);
    var name, version := Strip(pin.name), Strip(pin.version);
    ParsedVersionHasNoAt(remainder);
    StripKeeps(pin.version, '@');
    MadeIsReadable(registry, name, if version == "" then None else Some(version));
    hide Strip, SplitNpm, SplitPypi, Registry.UsableName, Readable, Make;
  }

  /** Whatever is read has a usable name and, if pinned, a version that is not blank. */
  lemma ParsedIsReadable(raw: string)
    requires Parse(raw).Ok?
    ensures Readable(Parse(raw).value)
  {
    hide Strip, Find, ParseRemainder, Readable, RegistryOf;
    var text := Strip(raw);
    var colon := Find(text, ":");
    ParsedRemainderIsReadable(RegistryOf(text[..colon]).value, Strip(text[colon + 1..]));
  }

  lemma SplitsBack(c: Coordinate)
    requires Readable(c)
    ensures var remainder := c.identifier + c.PinText();
            var pin := if c.registry.Npm? then SplitNpm(remainder) else SplitPypi(remainder);
            && remainder != "" && Trimmed(remainder)
            && pin == Pin(c.version.Some?, c.identifier, if c.version.Some? then c.version.value else "")
  {
    var name := c.identifier;
    NamesAreTrimmed(c.registry, name);
    hide Registry.UsableName;
    match c.version
    case None =>
      assert name + "" == name;
      if c.registry.Pypi? {
        FindNowhere(name, "==");
      }
    case Some(v) =>
      if c.registry.Npm? {
        NpmSplit(name, v);
      } else {
        PypiSplit(name, v);
      }
  }

  lemma NpmSplit(name: string, version: string)
    requires name != "" && '@' !in version
    ensures SplitNpm(name + ("@" + version)) == Pin(true, name, version)
  {
    var s := name + ("@" + version);
    assert s[|name|] == '@';
    assert s[|name| + 1..] == version && s[..|name|] == name;
    assert forall k :: |name| < k < |s| ==> s[k] == version[k - |name| - 1];
  }

  lemma PypiSplit(name: string, version: string)
    requires '=' !in name
    ensures SplitPypi(name + ("==" + version)) == Pin(true, name, version)
  {
    var s := name + ("==" + version);
    FindAfter(name, "==", version);
    assert s[..|name|] == name && s[|name| + 2..] == version;
    hide Find;
  }

  lemma PrefixFound(registry: Registry, remainder: string)
    ensures var text := registry.Value() + ":" + remainder;
            var n := |registry.Value()|;
            Find(text, ":") == n && text[..n] == registry.Value() && text[n + 1..] == remainder
  {
    var prefix := registry.Value();
    FindAfter(prefix, ":", remainder);
    assert prefix + ":" + remainder == prefix + (":" + remainder);
    hide Find, Registry.Value;
  }

  lemma RegistryReads(registry: Registry)
    ensures RegistryOf(registry.Value()) == Some(registry)
  {
    var name := registry.Value();
    assert Trimmed(name);
    StripTrims(name);
    assert Lower(name) == name by {
      assert forall i :: 0 <= i < |name| ==> LowerChar(name[i]) == name[i];
    }
    hide Strip, Lower, Trimmed;
  }

  lemma TextIsTrimmed(registry: Registry, remainder: string)
    requires remainder != "" && Trimmed(remainder)
    ensures Trimmed(registry.Value() + ":" + remainder)
  {
    var text := registry.Value() + ":" + remainder;
    assert text[0] == 'n' || text[0] == 'p';
    assert text[|text| - 1] == remainder[|remainder| - 1];
  }

  lemma ParseIs(text: string, colon: nat, registry: Registry)
    requires Trimmed(text) && Find(text, ":") == colon && colon < |text|
    requires RegistryOf(text[..colon]) == Some(registry)
    requires text[colon + 1..] != "" && Trimmed(text[colon + 1..])
    ensures Parse(text) == ParseRemainder(registry, text[colon + 1..])
  {
    StripTrims(text);
    StripTrims(text[colon + 1..]);
    assert Parse(text) == ParseAfter(text[..colon], text[colon + 1..]) by {
      hide ParseAfter, Strip, Find, Trimmed;
    }
    hide Parse, ParseRemainder, Strip, Find, RegistryOf, Trimmed;
  }

  lemma PrefixReads(registry: Registry, remainder: string)
    requires remainder != "" && Trimmed(remainder)
    ensures Parse(registry.Value() + ":" + remainder) == ParseRemainder(registry, remainder)
  {
    PrefixFound(registry, remainder);
    TextIsTrimmed(registry, remainder);
    RegistryReads(registry);
    hide *;
    ParseIs(registry.Value() + ":" + remainder, |registry.Value()|, registry);
  }

  lemma RemainderReads(c: Coordinate)
    requires Readable(c)
    ensures ParseRemainder(c.registry, c.identifier + c.PinText()) == Ok(c)
  {
    SplitsBack(c);
    NamesAreTrimmed(c.registry, c.identifier);
    StripTrims(c.identifier);
    StripTrims("");
    if c.version.Some? {
      StripTrims(c.version.value);
    }
    hide SplitNpm, SplitPypi, Registry.UsableName, Strip, Coordinate.PinText, Trimmed;
  }

  /** Printing a readable coordinate and reading it back gives the same coordinate. */
  lemma DisplayParses(c: Coordinate)
    requires Readable(c)
    ensures Parse(c.Display()) == Ok(c)
  {
    hide *;
    DisplayIs(c);
    SplitsBack(c);
    RemainderReads(c);
    PrefixReads(c.registry, c.identifier + c.PinText());
  }

  lemma DisplayIs(c: Coordinate)
    ensures c.Display() == c.registry.Value() + ":" + (c.identifier + c.PinText())
  {
    Regroup(c.registry.Value() + ":", c.identifier, c.PinText());
    hide Coordinate.PinText, Registry.Value;
  }

  /** `parse(display(parse(s))) == parse(s)` whenever `parse(s)` succeeds. */
  lemma RoundTrip(raw: string)
    requires Parse(raw).Ok?
    ensures Parse(Parse(raw).value.Display()) == Parse(raw)
  {
    ParsedIsReadable(raw);
    DisplayParses(Parse(raw).value);
  }

  /** A coordinate built by hand survives printing and reading exactly when it is one that reading could give. */
  lemma PrintsBackExactly(registry: Registry, identifier: string, version: Option<string>)
    ensures var c := Make(registry, identifier, version);
            Parse(c.Display()) == Ok(c) <==>
            registry.UsableName(identifier) && (registry.Npm? && c.version.Some? ==> '@' !in version.value)
  {
    var c := Make(registry, identifier, version);
    MadeIsReadable(registry, identifier, version);
    hide *;
    if Readable(c) {
      DisplayParses(c);
    }
    if Parse(c.Display()) == Ok(c) {
      ParsedIsReadable(c.Display());
    }
  }

  /** An npm version with an `@` in it, which only a coordinate built by hand can have, is not read back. */
  lemma HandBuiltCanBeLost()
    ensures var c := Make(Npm, "a", Some("1@2"));
            c.version == Some("1@2") && Parse(c.Display()) != Ok(c)
  {
    assert Trimmed("1@2");
    StripTrims("1@2");
    assert '@' in "1@2" by {
      assert "1@2"[1] == '@';
    }
    PrintsBackExactly(Npm, "a", Some("1@2"));
    hide Parse, Strip, Coordinate.Display, Registry.UsableName;
  }
}
