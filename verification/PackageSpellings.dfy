/** Which texts are read as which package coordinate: spacing, letter case and separators spelled out. */
module PackageSpellings {
  import opened Packages
  import opened Sequences
  import opened Wrappers

  ghost predicate Blank(s: string) {
    forall c <- s :: IsSpace(c)
  }

  /** On ASCII text, whitespace is the space and what moves the cursor. */
  lemma SpacesExactly(c: char)
    requires c < '\U{0080}'
    ensures IsSpace(c) <==> c == ' ' || '\t' <= c <= '\r' || '\U{001C}' <= c <= '\U{001F}'
  {
  }

  lemma {:induction false} TrimStartOf(space: string, s: string)
    requires Blank(space) && (s == "" || !IsSpace(s[0]))
    ensures TrimStart(space + s) == s
  {
    if space == "" {
      assert space + s == s;
    } else {
      assert space[0] in space && forall c <- space[1..] :: c in space;
      TrimStartOf(space[1..], s);
      assert (space + s)[1..] == space[1..] + s;
    }
    hide IsSpace;
  }

  lemma {:induction false} TrimEndOf(s: string, space: string)
    requires Blank(space) && (s == "" || !IsSpace(s[|s| - 1]))
    ensures TrimEnd(s + space) == s
  {
    if space == "" {
      assert s + space == s;
    } else {
      var last := |space| - 1;
      assert space[last] in space && forall c <- space[..last] :: c in space;
      TrimEndOf(s, space[..last]);
      assert (s + space)[..|s + space| - 1] == s + space[..last];
    }
    hide IsSpace;
  }

  /** Stripping takes exactly the whitespace around a text. */
  lemma StripOf(before: string, s: string, after: string)
    requires Blank(before) && Blank(after) && Trimmed(s) && s != ""
    ensures Strip(before + s + after) == s
  {
    Regroup(before, s, after);
    TrimStartOf(before, s + after);
    TrimEndOf(s, after);
    hide IsSpace, TrimStart, TrimEnd;
  }

  lemma StripBlank(s: string)
    requires Blank(s)
    ensures Strip(s) == ""
  {
    assert s + "" == s && "" + "" == "";
    TrimStartOf(s, "");
    TrimEndOf("", "");
    hide IsSpace, TrimStart, TrimEnd;
  }

  // ---------- names ----------

  /** Not empty, without slash, `@` or whitespace. */
  ghost predicate Plain(s: string) {
    s != "" && '/' !in s && '@' !in s && forall c <- s :: !IsSpace(c)
  }

  /** An npm name is plain, or `@`, a plain scope, a slash and a plain name. */
  lemma NpmNamesExactly(name: string)
    ensures Npm.UsableName(name) <==>
            Plain(name) || exists scope, base :: Plain(scope) && Plain(base) && name == "@" + scope + "/" + base
  {
    hide *;
    PlainExactly(name);
    UsableIsNpmName(name);
    if Npm.UsableName(name) {
      NpmNameIs(name);
    }
    if Plain(name) {
      PlainIsNpm(name);
    }
    forall scope, base | Plain(scope) && Plain(base) && name == "@" + scope + "/" + base
      ensures Npm.UsableName(name)
    {
      ScopedIsNpm(name, scope, base);
    }
  }

  lemma UsableIsNpmName(name: string)
    ensures Npm.UsableName(name) <==> NpmName(name)
  {
    hide NpmName;
  }

  lemma PlainIsNpm(name: string)
    requires Plain(name)
    ensures NpmName(name)
  {
    hide Plain, NpmPart;
    PlainExactly(name);
  }

  lemma NpmNameIs(name: string)
    requires NpmName(name)
    ensures Plain(name) || exists scope, base :: Plain(scope) && Plain(base) && name == "@" + scope + "/" + base
  {
    hide NpmPart, Plain;
    PlainExactly(name);
    if !NpmPart(name) {
      var k :| 1 <= k < |name| && name[k] == '/' && NpmPart(name[1..k]) && NpmPart(name[k + 1..]);
      var scope, base := name[1..k], name[k + 1..];
      PlainExactly(scope);
      PlainExactly(base);
      assert name == "@" + scope + "/" + base;
    }
  }

  lemma PlainExactly(s: string)
    ensures NpmPart(s) <==> Plain(s)
  {
    hide IsSpace;
  }

  lemma ScopedIsNpm(name: string, scope: string, base: string)
    requires Plain(scope) && Plain(base) && name == "@" + scope + "/" + base
    ensures NpmName(name)
  {
    PlainExactly(scope);
    PlainExactly(base);
    hide NpmPart, Plain;
    var k := 1 + |scope|;
    assert name[1..k] == scope && name[k + 1..] == base && name[k] == '/';
  }

  /** An ASCII digit, capital or small letter. */
  ghost predicate LetterOrDigit(c: char) {
    0x30 <= c as int <= 0x39 || 0x41 <= c as int <= 0x5A || 0x61 <= c as int <= 0x7A
  }

  /** A PyPI name starts and ends with an ASCII letter or digit, with dots, underscores and hyphens in between. */
  lemma PypiNamesExactly(name: string)
    ensures Pypi.UsableName(name) <==>
            && name != "" && LetterOrDigit(name[0]) && LetterOrDigit(name[|name| - 1])
            && forall c <- name :: LetterOrDigit(c) || c in "._-"
  {
    assert forall c :: AlphaNumeric(c) <==> LetterOrDigit(c);
    hide AlphaNumeric, LetterOrDigit;
    assert "._-"[0] == '.' && "._-"[1] == '_' && "._-"[2] == '-';
  }

  // ---------- whole coordinates ----------

  /** The registry's name in any mixture of upper and lower case. */
  ghost predicate NamesRegistry(prefix: string, registry: Registry) {
    match registry
    case Npm => |prefix| == 3 && prefix[0] in "nN" && prefix[1] in "pP" && prefix[2] in "mM"
    case Pypi => |prefix| == 4 && prefix[0] in "pP" && prefix[1] in "yY" && prefix[2] in "pP" && prefix[3] in "iI"
  }

  lemma LowerExactly(prefix: string, registry: Registry)
    ensures Lower(prefix) == registry.Value() <==> NamesRegistry(prefix, registry)
  {
    forall i | 0 <= i < |prefix|
      ensures LowerChar(prefix[i]) == 'n' <==> prefix[i] in "nN"
      ensures LowerChar(prefix[i]) == 'p' <==> prefix[i] in "pP"
      ensures LowerChar(prefix[i]) == 'm' <==> prefix[i] in "mM"
      ensures LowerChar(prefix[i]) == 'y' <==> prefix[i] in "yY"
      ensures LowerChar(prefix[i]) == 'i' <==> prefix[i] in "iI"
    {
    }
    assert forall i :: 0 <= i < |prefix| ==> Lower(prefix)[i] == LowerChar(prefix[i]);
    hide LowerChar;
  }

  lemma RegistryExactly(before: string, prefix: string, after: string)
    requires Blank(before) && Blank(after) && Trimmed(prefix) && prefix != ""
    ensures forall registry ::
              RegistryOf(before + prefix + after) == Some(registry) <==> NamesRegistry(prefix, registry)
  {
    StripOf(before, prefix, after);
    LowerExactly(prefix, Npm);
    LowerExactly(prefix, Pypi);
    hide Strip, Lower, IsSpace;
  }

  lemma SpacedTrims(a: string, space: string, b: string)
    requires Trimmed(a) && Trimmed(b) && a != "" && b != ""
    ensures Trimmed(a + space + b)
  {
    hide IsSpace;
  }

  /** What the registry prefix and the text behind the first colon are, whatever the spacing. */
  lemma ReadsRemainder(registry: Registry, spaces: seq<string>, prefix: string, body: string)
    requires |spaces| == 4 && (forall s <- spaces :: Blank(s)) && NamesRegistry(prefix, registry)
    requires Trimmed(body) && body != ""
    ensures Parse(spaces[0] + (prefix + (spaces[1] + ":" + spaces[2]) + body) + spaces[3])
            == ParseRemainder(registry, body)
  {
    hide *;
    var text := prefix + (spaces[1] + ":" + spaces[2]) + body;
    var head, rest := prefix + spaces[1], spaces[2] + body;
    PrefixTrimmed(prefix, registry);
    SpacedTrims(prefix, spaces[1] + ":" + spaces[2], body);
    StripOf(spaces[0], text, spaces[3]);
    NoColon(prefix, spaces[1], registry);
    FindAfter(head, ":", rest);
    AroundColon(prefix, spaces[1], spaces[2], body);
    NothingIsBlank();
    RegistryExactly("", prefix, spaces[1]);
    StripOf(spaces[2], body, "");
    ParseParts(spaces[0] + text + spaces[3], text, |head|, registry, body);
  }

  lemma NothingIsBlank()
    ensures Blank("")
  {
  }

  lemma AroundColon(prefix: string, space: string, more: string, body: string)
    ensures var head, text := prefix + space, prefix + (space + ":" + more) + body;
            && text == head + (":" + (more + body)) && |head| < |text|
            && text[..|head|] == "" + prefix + space && text[|head| + 1..] == more + body + ""
  {
    var head, text := prefix + space, prefix + (space + ":" + more) + body;
    assert text == head + (":" + (more + body));
    assert ("" + prefix + space) == head && more + body + "" == more + body;
  }

  lemma ParseParts(raw: string, text: string, colon: nat, registry: Registry, body: string)
    requires Strip(raw) == text && Find(text, ":") == colon && colon < |text| && body != ""
    requires RegistryOf(text[..colon]) == Some(registry) && Strip(text[colon + 1..]) == body
    ensures Parse(raw) == ParseRemainder(registry, body)
  {
    hide Strip, Find, RegistryOf, ParseRemainder;
  }

  lemma PrefixTrimmed(prefix: string, registry: Registry)
    requires NamesRegistry(prefix, registry)
    ensures Trimmed(prefix) && prefix != ""
  {
  }

  lemma NoColon(prefix: string, space: string, registry: Registry)
    requires NamesRegistry(prefix, registry) && Blank(space)
    ensures ':' !in prefix + space
  {
    assert !IsSpace(':');
    hide IsSpace;
  }

  /** Any spacing around a usable name and its version, whatever it is, is read as that name and version. */
  lemma PinnedIsRead(registry: Registry, spaces: seq<string>, prefix: string, name: string, version: string)
    requires |spaces| == 6 && (forall s <- spaces :: Blank(s)) && NamesRegistry(prefix, registry)
    requires registry.UsableName(name) && Trimmed(version) && version != ""
    requires registry == Npm ==> '@' !in version
    ensures var separator := if registry == Npm then "@" else "==";
            Parse(spaces[0] + (prefix + (spaces[1] + ":" + spaces[2])
                               + (name + (spaces[3] + separator + spaces[4]) + version)) + spaces[5])
            == Ok(Coordinate(registry, name, Some(version)))
  {
    hide *;
    var separator := if registry == Npm then "@" else "==";
    var body := name + (spaces[3] + separator + spaces[4]) + version;
    NamesAreTrimmed(registry, name);
    SpacedTrims(name, spaces[3] + separator + spaces[4], version);
    ReadsRemainder(registry, [spaces[0], spaces[1], spaces[2], spaces[5]], prefix, body);
    PinSplit(registry, name, spaces[3], spaces[4], version);
    NothingIsBlank();
    StripOf("", name, spaces[3]);
    StripOf(spaces[4], version, "");
    StripTrims(version);
    PinRead(registry, body, name, version, "" + name + spaces[3], spaces[4] + version + "");
  }

  lemma PinSplit(registry: Registry, name: string, space: string, more: string, version: string)
    requires registry.UsableName(name) && Blank(space) && Blank(more) && (registry == Npm ==> '@' !in version)
    ensures var body := name + (space + (if registry == Npm then "@" else "==") + more) + version;
            (if registry.Npm? then SplitNpm(body) else SplitPypi(body))
            == Pin(true, "" + name + space, more + version + "")
  {
    var separator := if registry == Npm then "@" else "==";
    var body := name + (space + separator + more) + version;
    NamesAreTrimmed(registry, name);
    assert !IsSpace('@') && !IsSpace('=');
    hide SplitNpm, SplitPypi, IsSpace, Registry.UsableName;
    assert body == (name + space) + (separator + (more + version));
    assert "" + name + space == name + space && more + version + "" == more + version;
    if registry == Npm {
      NpmSplit(name + space, more + version);
    } else {
      PypiSplit(name + space, more + version);
    }
  }

  lemma PinRead(registry: Registry, body: string, name: string, version: string, head: string, tail: string)
    requires (if registry.Npm? then SplitNpm(body) else SplitPypi(body)) == Pin(true, head, tail)
    requires Strip(head) == name && Strip(tail) == version && version != "" && Strip(version) == version
    requires registry.UsableName(name)
    ensures ParseRemainder(registry, body) == Ok(Coordinate(registry, name, Some(version)))
  {
    hide SplitNpm, SplitPypi, Strip, Registry.UsableName;
  }

  lemma UnpinnedIsRead(registry: Registry, spaces: seq<string>, prefix: string, name: string)
    requires |spaces| == 4 && (forall s <- spaces :: Blank(s)) && NamesRegistry(prefix, registry)
    requires registry.UsableName(name)
    ensures Parse(spaces[0] + (prefix + (spaces[1] + ":" + spaces[2]) + name) + spaces[3])
            == Ok(Coordinate(registry, name, None))
  {
    var c := Coordinate(registry, name, None);
    NamesAreTrimmed(registry, name);
    ReadsRemainder(registry, spaces, prefix, name);
    RemainderReads(c);
    assert name + "" == name;
    hide Strip, SplitNpm, SplitPypi, Trimmed, IsSpace, Blank, NamesRegistry, Registry.UsableName, Parse;
  }

  /** A text without a colon names no registry, whatever else it is. */
  lemma MissingPrefixExactly(raw: string)
    ensures Parse(raw) == Err(MissingPrefix) <==> ':' !in raw
  {
    assert !IsSpace(':');
    StripKeeps(raw, ':');
    var text := Strip(raw);
    if ':' !in text {
      FindNowhere(text, ":");
    } else {
      ColonFound(text);
    }
    hide Strip, Find, IsSpace, RegistryOf, ParseRemainder;
    RemainderIsOther(raw);
  }

  lemma RemainderIsOther(raw: string)
    ensures forall registry, remainder :: ParseRemainder(registry, remainder) != Err(MissingPrefix)
  {
    hide Strip, SplitNpm, SplitPypi, Registry.UsableName;
  }

  lemma {:induction false} ColonFound(s: string)
    requires ':' in s
    ensures Find(s, ":") >= 0
  {
    if s[0] != ':' {
      assert s == [s[0]] + s[1..];
      ColonFound(s[1..]);
    } else {
      assert ":" <= s;
    }
  }
}
