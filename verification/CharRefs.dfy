/**
 Shortening numeric character references before they are decoded.

 `BoundCharrefs` rewrites every numeric reference so that it has few digits.  `Unescape` is what decoding would
 give if numbers of any length could be converted: numeric references, the tables of replaced and dropped code
 points, and named references with their longest-prefix rule.  The lemmas show that shortening first changes
 nothing that a reader sees, and leaves nothing long behind.
 */
module CharRefs {
  import opened Sequences

  const REPLACEMENT: char := '\U{FFFD}'

  // ---------- numeric references ----------

  predicate HexMarker(c: char) { c == 'x' || c == 'X' }

  predicate IsDigit(c: char, hex: bool) {
    '0' <= c <= '9' || (hex && ('a' <= c <= 'f' || 'A' <= c <= 'F'))
  }

  /** The leading digits of a text. */
  function Digits(text: string, hex: bool): (digits: string)
    ensures digits <= text && forall c <- digits :: IsDigit(c, hex)
    ensures |digits| < |text| ==> !IsDigit(text[|digits|], hex)
  {
    if text == [] || !IsDigit(text[0], hex) then [] else [text[0]] + Digits(text[1..], hex)
  }

  /** `;?` */
  function Semicolon(text: string): (semicolon: string)
    ensures semicolon <= text
  {
    if text != [] && text[0] == ';' then ";" else ""
  }

  /** A numeric reference as written: its hex marker if any, all its digits, and its semicolon if any. */
  datatype Ref = NoRef | Ref(marker: string, digits: string, semicolon: string) {
    function Text(): string
      requires Ref?
    {
      "&#" + marker + digits + semicolon
    }

    predicate Hex()
      requires Ref?
    {
      marker != ""
    }
  }

  /** The numeric reference that a text starts with. */
  function RefAt(text: string): (r: Ref)
    ensures r.Ref? ==> r.digits != "" && |r.Text()| <= |text|
  {
    if |text| < 3 || text[0] != '&' || text[1] != '#' then NoRef
    else
      var marker := if HexMarker(text[2]) then [text[2]] else "";
      var body := text[2 + |marker|..];
      var digits := Digits(body, marker != "");
      if digits == "" then NoRef
      else Ref(marker, digits, Semicolon(body[|digits|..]))
  }

  /** The digits without their leading zeros, but at least one digit. */
  function Significant(digits: string): string {
    if |digits| > 1 && digits[0] == '0' then Significant(digits[1..]) else digits
  }

  function DigitLimit(hex: bool): nat { if hex then 6 else 7 }

  function Bounded(r: Ref): string
    requires r.Ref?
  {
    var digits := Significant(r.digits);
    if |digits| > DigitLimit(r.Hex()) then [REPLACEMENT] else r.(digits := digits).Text()
  }

  /** The regular expression's substitution, leftmost match first. */
  function Substitute(text: string): string
    decreases |text|
  {
    if text == [] then []
    else if RefAt(text).Ref? then
      var r := RefAt(text);
      Bounded(r) + Substitute(text[|r.Text()|..])
    else [text[0]] + Substitute(text[1..])
  }

  predicate Mentions(text: string, part: string)
    requires |part| == 2
  {
    |text| >= 2 && (text[..2] == part || Mentions(text[1..], part))
  }

  function BoundCharrefs(text: string): string {
    if Mentions(text, "&#") then Substitute(text) else text
  }

  // ---------- decoding without a limit ----------

  /** The decoder's tables: replaced and dropped code points, and the names. */
  datatype Tables = Tables(replaced: map<nat, string>, dropped: set<nat>, names: map<string, string>) {
    ghost predicate Valid() {
      && (forall n <- replaced :: n <= 0x10FFFF)
      && (forall name <- names :: |name| >= 2 && REPLACEMENT !in name)
    }
  }

  function DigitValue(c: char): nat
    requires IsDigit(c, true)
  {
    if c <= '9' then c as int - '0' as int
    else if c >= 'a' then c as int - 'a' as int + 10
    else c as int - 'A' as int + 10
  }

  function Value(digits: string, base: nat): nat
    requires forall c <- digits :: IsDigit(c, true)
  {
    if digits == [] then 0
    else Value(digits[..|digits| - 1], base) * base + DigitValue(digits[|digits| - 1])
  }

  function CodePointText(t: Tables, n: nat): string {
    if n in t.replaced then t.replaced[n]
    else if 0xD800 <= n <= 0xDFFF || n > 0x10FFFF then [REPLACEMENT]
    else if n in t.dropped then ""
    else [n as char]
  }

  function NumericText(t: Tables, r: Ref): string
    requires r.Ref? && forall c <- r.digits :: IsDigit(c, true)
  {
    CodePointText(t, Value(r.digits, if r.Hex() then 16 else 10))
  }

  predicate NameChar(c: char) {
    c !in "\t\n\U{000C} <&#;"
  }

  /** Up to `limit` leading name characters. */
  function NameRun(text: string, limit: nat): (run: string)
    ensures run <= text && |run| <= limit
    ensures forall c <- run :: NameChar(c)
    ensures |run| < limit && |run| < |text| ==> !NameChar(text[|run|])
  {
    if text == [] || limit == 0 || !NameChar(text[0]) then []
    else [text[0]] + NameRun(text[1..], limit - 1)
  }

  /** The longest known name that is a prefix of `s` of at most `n` characters, or 0; one-letter names do not exist. */
  function LongestName(names: map<string, string>, s: string, n: nat): (x: nat)
    requires n <= |s|
    ensures x <= n && (x > 0 ==> s[..x] in names)
  {
    if n <= 1 then 0 else if s[..n] in names then n else LongestName(names, s, n - 1)
  }

  function NamedText(t: Tables, s: string): string
    requires s != []
  {
    if s in t.names then t.names[s]
    else
      var x := LongestName(t.names, s, |s| - 1);
      if x > 0 then t.names[s[..x]] + s[x..] else "&" + s
  }

  /** What follows an ampersand that may start a name: the run and its semicolon. */
  function NameAt(text: string): (s: string)
    ensures s <= text
  {
    var run := NameRun(text, 32);
    if run == [] then []
    else
      assert text == run + text[|run|..];
      run + Semicolon(text[|run|..])
  }

  function Unescape(t: Tables, text: string): string
    decreases |text|
  {
    if text == [] then []
    else if RefAt(text).Ref? then
      var r := RefAt(text);
      RefDigitsAreHex(text);
      NumericText(t, r) + Unescape(t, text[|r.Text()|..])
    else if text[0] == '&' && NameAt(text[1..]) != [] then
      var s := NameAt(text[1..]);
      NamedText(t, s) + Unescape(t, text[1 + |s|..])
    else [text[0]] + Unescape(t, text[1..])
  }

  lemma RefDigitsAreHex(text: string)
    requires RefAt(text).Ref?
    ensures forall c <- RefAt(text).digits :: IsDigit(c, RefAt(text).Hex())
  {
  }

  // ---------- a shortened reference means the same ----------

  lemma {:induction false} DigitsAppend(digits: string, rest: string, hex: bool)
    requires forall c <- digits :: IsDigit(c, hex)
    requires rest == [] || !IsDigit(rest[0], hex)
    ensures Digits(digits + rest, hex) == digits
  {
    if digits == [] {
      assert digits + rest == rest;
    } else {
      DigitsAppend(digits[1..], rest, hex);
      assert (digits + rest)[1..] == digits[1..] + rest;
    }
  }

  predicate WellFormed(r: Ref) {
    && r.Ref? && r.digits != ""
    && (r.marker == "" || (|r.marker| == 1 && HexMarker(r.marker[0])))
    && (r.semicolon == "" || r.semicolon == ";")
    && forall c <- r.digits :: IsDigit(c, r.Hex())
  }

  /** `rest` can follow the reference without becoming part of it. */
  predicate Follows(r: Ref, rest: string)
    requires r.Ref?
  {
    r.semicolon == "" && rest != [] ==> !IsDigit(rest[0], r.Hex()) && rest[0] != ';'
  }

  lemma RefAtBody(marker: string, body: string)
    requires marker == "" || (|marker| == 1 && HexMarker(marker[0]))
    requires body != [] && (marker == "" ==> !HexMarker(body[0]))
    ensures var digits := Digits(body, marker != "");
            RefAt("&#" + marker + body) ==
            if digits == "" then NoRef else Ref(marker, digits, Semicolon(body[|digits|..]))
  {
    var text := "&#" + marker + body;
    DropPrefix("&#" + marker, body);
    assert text[0] == '&' && text[1] == '#' && text[2] == if marker == "" then body[0] else marker[0];
    assert marker == "" || marker == [marker[0]];
    hide Digits, Semicolon, HexMarker;
  }

  lemma RefParses(r: Ref, rest: string)
    requires WellFormed(r) && Follows(r, rest)
    ensures RefAt(r.Text() + rest) == r
  {
    var after := r.semicolon + rest;
    assert !HexMarker(r.digits[0]) by { assert r.digits[0] in r.digits; }
    RefAtBody(r.marker, r.digits + after);
    DigitsAppend(r.digits, after, r.Hex());
    assert Semicolon(after) == r.semicolon;
    Regroup("&#" + r.marker + r.digits, r.semicolon, rest);
    Regroup("&#" + r.marker, r.digits, after);
    DropPrefix(r.digits, after);
    hide RefAt, Digits, Semicolon, WellFormed, Follows;
  }

  lemma ParsedRef(text: string)
    requires RefAt(text).Ref?
    ensures var r := RefAt(text);
            WellFormed(r) && text == r.Text() + text[|r.Text()|..] && Follows(r, text[|r.Text()|..])
  {
    var r := RefAt(text);
    assert "&#" + r.marker <= text;
    Reassembled(text, "&#" + r.marker, r.digits, r.semicolon);
    hide RefAt, Digits;
  }

  lemma {:induction false} SignificantDigits(digits: string, base: nat)
    requires digits != "" && forall c <- digits :: IsDigit(c, true)
    ensures var s := Significant(digits);
            && s != "" && |s| <= |digits| && (forall c <- s :: c in digits)
            && (|s| > 1 ==> s[0] != '0')
            && Value(s, base) == Value(digits, base)
            && Significant(s) == s
  {
    if |digits| > 1 && digits[0] == '0' {
      SignificantDigits(digits[1..], base);
      LeadingZero(digits[1..], base);
      assert digits == "0" + digits[1..];
    }
  }

  lemma {:induction false} LeadingZero(digits: string, base: nat)
    requires forall c <- digits :: IsDigit(c, true)
    ensures Value("0" + digits, base) == Value(digits, base)
  {
    var padded := "0" + digits;
    if digits == [] {
      assert padded == ['0'] && padded[..0] == [];
    } else {
      LeadingZero(digits[..|digits| - 1], base);
      assert padded[..|padded| - 1] == "0" + digits[..|digits| - 1];
    }
  }

  function Power(base: nat, n: nat): nat { if n == 0 then 1 else base * Power(base, n - 1) }

  lemma ProductGrows(a: nat, b: nat, base: nat)
    requires a <= b
    ensures a * base <= b * base
  {
  }

  /** A number whose first digit is not zero is at least the power its length says. */
  lemma {:induction false} ValueAtLeast(digits: string, base: nat)
    requires digits != "" && digits[0] != '0' && (forall c <- digits :: IsDigit(c, true)) && base >= 1
    ensures Value(digits, base) >= Power(base, |digits| - 1)
  {
    var last := |digits| - 1;
    assert digits[last] in digits;
    if last == 0 {
      assert digits[..0] == [];
    } else {
      var high := digits[..last];
      assert forall c <- high :: c in digits;
      ValueAtLeast(high, base);
      ProductGrows(Power(base, last - 1), Value(high, base), base);
      assert Value(digits, base) == Value(high, base) * base + DigitValue(digits[last]);
      assert Power(base, last) == base * Power(base, last - 1);
      hide Value, Power, DigitValue, IsDigit;
    }
  }

  lemma {:induction false} PowerGrows(base: nat, n: nat, m: nat)
    requires base >= 1 && n <= m
    ensures Power(base, n) <= Power(base, m)
  {
    if n < m {
      PowerGrows(base, n, m - 1);
      ProductGrows(1, base, Power(base, m - 1));
    }
  }

  lemma PowersPastUnicode()
    ensures Power(16, 6) > 0x10FFFF && Power(10, 7) > 0x10FFFF
  {
    assert Power(16, 3) == 4096 && Power(16, 6) == 16777216;
    assert Power(10, 3) == 1000 && Power(10, 6) == 1000000;
  }

  /** A reference with too many significant digits lies past the last code point. */
  lemma LongRefIsReplacement(t: Tables, r: Ref)
    requires t.Valid() && WellFormed(r) && |Significant(r.digits)| > DigitLimit(r.Hex())
    ensures NumericText(t, r) == [REPLACEMENT]
  {
    var base := if r.Hex() then 16 else 10;
    var digits := Significant(r.digits);
    SignificantDigits(r.digits, base);
    ValueAtLeast(digits, base);
    PowerGrows(base, DigitLimit(r.Hex()), |digits| - 1);
    PowersPastUnicode();
  }

  lemma ShortRefKeepsMeaning(t: Tables, r: Ref)
    requires WellFormed(r)
    ensures var short := r.(digits := Significant(r.digits));
            WellFormed(short) && NumericText(t, short) == NumericText(t, r)
  {
    SignificantDigits(r.digits, if r.Hex() then 16 else 10);
  }

  // ---------- what substitution does to the start of a text ----------

  lemma SubstituteRef(r: Ref, rest: string)
    requires WellFormed(r) && Follows(r, rest)
    ensures Substitute(r.Text() + rest) == Bounded(r) + Substitute(rest)
  {
    RefParses(r, rest);
    assert (r.Text() + rest)[|r.Text()|..] == rest;
  }

  /** Substitution changes a first character only from the ampersand of a reference to the replacement. */
  lemma FirstChar(text: string)
    ensures (text == []) == (Substitute(text) == [])
    ensures text != [] ==> (Substitute(text)[0] == text[0] ||
            (RefAt(text).Ref? && Bounded(RefAt(text)) == [REPLACEMENT] && Substitute(text)[0] == REPLACEMENT))
  {
  }

  lemma StillFollows(r: Ref, rest: string)
    requires WellFormed(r) && Follows(r, rest)
    ensures Follows(r, Substitute(rest))
  {
    FirstChar(rest);
  }

  // ---------- names ----------

  lemma {:induction false} LongestNameOfPrefix(t: Tables, run: string, more: string, n: nat)
    requires t.Valid() && (more == [] || more[0] == REPLACEMENT)
    requires |run| <= n <= |run + more|
    ensures LongestName(t.names, run + more, n) == LongestName(t.names, run, |run|)
  {
    var s := run + more;
    if n > |run| {
      assert s[..n][|run|] == REPLACEMENT;
      LongestNameOfPrefix(t, run, more, n - 1);
    } else {
      LongestNameSamePrefix(t.names, s, run, n);
    }
  }

  lemma {:induction false} LongestNameSamePrefix(names: map<string, string>, a: string, b: string, n: nat)
    requires n <= |a| && n <= |b| && a[..n] == b[..n]
    ensures LongestName(names, a, n) == LongestName(names, b, n)
  {
    if n > 1 {
      assert a[..n - 1] == a[..n][..n - 1] && b[..n - 1] == b[..n][..n - 1];
      LongestNameSamePrefix(names, a, b, n - 1);
    }
  }

  lemma NamedTextIsLongest(t: Tables, s: string)
    requires t.Valid() && s != []
    ensures var x := LongestName(t.names, s, |s|);
            NamedText(t, s) == (if x > 0 then t.names[s[..x]] + s[x..] else "&" + s)
  {
    assert s[..|s|] == s;
    assert s[|s|..] == [];
  }

  /** What an ampersand and the name run behind it decode to. */
  function RunText(t: Tables, run: string): string {
    if run == [] then "&" else NamedText(t, run)
  }

  /** A replacement character after a name is text, however much of what follows the name run takes in. */
  lemma NameBeforeReplacement(t: Tables, run: string, more: string)
    requires t.Valid() && more != [] && more[0] == REPLACEMENT
    ensures RunText(t, run + more) == RunText(t, run) + more
  {
    var s := run + more;
    NamedTextIsLongest(t, s);
    LongestNameOfPrefix(t, run, more, |s|);
    var x := LongestName(t.names, run, |run|);
    if run != [] {
      NamedTextIsLongest(t, run);
    }
    SplitAppended(run, more, x);
    Regroup("&", run, more);
    if x > 0 {
      Regroup(t.names[run[..x]], run[x..], more);
    }
    hide NamedText, LongestName;
  }

  lemma NoAmpersandNoRef(text: string)
    requires text != [] && text[0] != '&'
    ensures RefAt(text).NoRef?
  {
  }

  lemma UnescapePlainChar(t: Tables, c: char, rest: string)
    requires c != '&'
    ensures Unescape(t, [c] + rest) == [c] + Unescape(t, rest)
  {
    NoAmpersandNoRef([c] + rest);
    assert ([c] + rest)[1..] == rest;
    hide RefAt, NumericText, NamedText, NameAt;
  }

  /** Text without ampersands decodes to itself. */
  lemma {:induction false} PlainPrefix(t: Tables, plain: string, rest: string)
    requires '&' !in plain
    ensures Unescape(t, plain + rest) == plain + Unescape(t, rest)
  {
    if plain == [] {
      assert plain + rest == rest;
    } else {
      PlainPrefix(t, plain[1..], rest);
      assert plain[0] in plain;
      UnescapePlainChar(t, plain[0], plain[1..] + rest);
      ConsAppend(plain, rest);
      ConsAppend(plain, Unescape(t, rest));
      hide Unescape;
    }
  }

  lemma {:induction false} SubstitutePlain(plain: string, rest: string)
    requires '&' !in plain
    ensures Substitute(plain + rest) == plain + Substitute(rest)
  {
    if plain == [] {
      assert plain + rest == rest;
    } else {
      SubstitutePlain(plain[1..], rest);
      assert (plain + rest)[1..] == plain[1..] + rest;
      assert plain[0] in plain;
      NoAmpersandNoRef(plain + rest);
      hide RefAt, Bounded;
    }
  }

  lemma {:induction false} NameRunIs(text: string, run: string, limit: nat)
    requires run <= text && |run| <= limit && forall c <- run :: NameChar(c)
    requires |run| == limit || |run| == |text| || !NameChar(text[|run|])
    ensures NameRun(text, limit) == run
  {
    if run != [] {
      assert text[0] == run[0] && text[0] in run;
      forall c | c in run[1..] ensures NameChar(c) { assert c in run; }
      NameRunIs(text[1..], run[1..], limit - 1);
    }
  }

  lemma {:induction false} NameRunGoesOn(text: string, run: string, limit: nat)
    requires run <= text && |run| <= limit && forall c <- run :: NameChar(c)
    ensures run <= NameRun(text, limit)
  {
    if run != [] {
      assert text[0] == run[0] && text[0] in run;
      forall c | c in run[1..] ensures NameChar(c) { assert c in run; }
      NameRunGoesOn(text[1..], run[1..], limit - 1);
    }
  }

  // ---------- an ampersand that starts no numeric reference ----------

  /** Whether a text goes on, after its ampersand, as a numeric reference. */
  predicate RefBody(body: string) {
    body != [] && (IsDigit(body[0], false) || (HexMarker(body[0]) && |body| > 1 && IsDigit(body[1], true)))
  }

  lemma RefNeedsBody(text: string)
    ensures RefAt(text).Ref? == (|text| >= 2 && text[0] == '&' && text[1] == '#' && RefBody(text[2..]))
  {
    if |text| >= 3 && text[0] == '&' && text[1] == '#' {
      var marker := if HexMarker(text[2]) then [text[2]] else "";
      assert text[2 + |marker|..] == text[2..][|marker|..];
    }
  }

  lemma BodyStays(body: string)
    requires !RefBody(body)
    ensures !RefBody(Substitute(body))
  {
    FirstChar(body);
    if body != [] && HexMarker(body[0]) {
      assert body == [body[0]] + body[1..];
      SubstitutePlain([body[0]], body[1..]);
      FirstChar(body[1..]);
    }
    hide RefAt, Bounded, Substitute;
  }

  /** An ampersand that started no numeric reference starts none after substitution. */
  lemma NoRefStays(text: string)
    requires text != [] && text[0] == '&' && RefAt(text).NoRef?
    ensures RefAt(['&'] + Substitute(text[1..])).NoRef?
  {
    var tail := text[1..];
    var shortened := ['&'] + Substitute(tail);
    FirstChar(tail);
    RefNeedsBody(text);
    RefNeedsBody(shortened);
    hide RefAt, Bounded, Substitute, RefBody;
    if tail != [] && tail[0] == '#' {
      var body := tail[1..];
      ConsDrop(tail);
      SubstitutePlain(['#'], body);
      BodyStays(body);
      assert body == text[2..];
      assert shortened[2..] == Substitute(body);
    }
  }

  // ---------- the main results ----------

  lemma RefMeaningKept(t: Tables, r: Ref, rest: string)
    requires t.Valid() && WellFormed(r) && Follows(r, rest)
    requires Unescape(t, Substitute(rest)) == Unescape(t, rest)
    ensures Unescape(t, Substitute(r.Text() + rest)) == Unescape(t, r.Text() + rest)
  {
    SubstituteRef(r, rest);
    UnescapeRef(t, r, rest);
    if |Significant(r.digits)| > DigitLimit(r.Hex()) {
      LongRefIsReplacement(t, r);
      PlainPrefix(t, [REPLACEMENT], Substitute(rest));
    } else {
      ShortRefKeepsMeaning(t, r);
      StillFollows(r, rest);
      UnescapeRef(t, r.(digits := Significant(r.digits)), Substitute(rest));
    }
    hide RefAt, NumericText, Substitute, Unescape, Significant;
  }

  lemma UnescapeRef(t: Tables, r: Ref, rest: string)
    requires WellFormed(r) && Follows(r, rest)
    ensures Unescape(t, r.Text() + rest) == NumericText(t, r) + Unescape(t, rest)
  {
    RefParses(r, rest);
    assert (r.Text() + rest)[|r.Text()|..] == rest;
    hide RefAt, NumericText;
  }

  lemma UnescapeName(t: Tables, run: string, rest: string)
    requires RefAt(['&'] + run + rest).NoRef? && NameRun(run + rest, 32) == run
    ensures var semicolon := if run == [] then "" else Semicolon(rest);
            Unescape(t, ['&'] + run + rest) == RunText(t, run + semicolon) + Unescape(t, rest[|semicolon|..])
  {
    var text := ['&'] + run + rest;
    AmpersandSlices(run, rest);
    UnescapeAmpersand(t, text);
    NameAtIs(run, rest);
    if run == [] {
      assert [] + rest == rest && rest[|""|..] == rest;
    } else {
      NestedDrop(text, 1 + |run|, |Semicolon(rest)|);
    }
    hide RefAt, Unescape, NameAt, NameRun, NamedText, Semicolon;
  }

  lemma AmpersandSlices(run: string, rest: string)
    ensures var text := ['&'] + run + rest;
            text[0] == '&' && text[1..] == run + rest && text[1 + |run|..] == rest
  {
  }

  lemma UnescapeAmpersand(t: Tables, text: string)
    requires text != [] && text[0] == '&' && RefAt(text).NoRef?
    ensures var s := NameAt(text[1..]);
            Unescape(t, text) ==
            if s == [] then "&" + Unescape(t, text[1..]) else NamedText(t, s) + Unescape(t, text[1 + |s|..])
  {
    hide RefAt, NumericText, NamedText, NameAt;
  }

  lemma NameAtIs(run: string, rest: string)
    requires NameRun(run + rest, 32) == run
    ensures NameAt(run + rest) == if run == [] then [] else run + Semicolon(rest)
  {
    assert (run + rest)[|run|..] == rest;
    hide NameRun, Semicolon;
  }

  /** The run ends where it did: what follows it still starts with the same character, or the run was full. */
  lemma NameMeaningKept(t: Tables, run: string, rest: string)
    requires RefAt(['&'] + run + rest).NoRef? && NameRun(run + rest, 32) == run
    requires |run| == 32 || rest == [] || Substitute(rest)[0] == rest[0]
    requires var semicolon := if run == [] then "" else Semicolon(rest);
             Unescape(t, Substitute(rest[|semicolon|..])) == Unescape(t, rest[|semicolon|..])
    ensures Unescape(t, Substitute(['&'] + run + rest)) == Unescape(t, ['&'] + run + rest)
  {
    var semicolon := if run == [] then "" else Semicolon(rest);
    var shortened := Substitute(rest);
    SubstituteAmpersand(run, rest);
    RunStays(run, rest);
    SemicolonStays(rest);
    assert rest[|""|..] == rest && shortened[|""|..] == shortened;
    hide *;
    UnescapeName(t, run, rest);
    UnescapeName(t, run, shortened);
  }

  lemma RunStays(run: string, rest: string)
    requires NameRun(run + rest, 32) == run && (|run| == 32 || rest == [] || Substitute(rest)[0] == rest[0])
    ensures NameRun(run + Substitute(rest), 32) == run
  {
    FirstChar(rest);
    RunEnds(run, rest, 32);
    var tail := run + Substitute(rest);
    assert |run| < |tail| ==> tail[|run|] == Substitute(rest)[0];
    NameRunIs(tail, run, 32);
    hide Substitute, NameRun;
  }

  lemma SemicolonStays(rest: string)
    ensures Semicolon(Substitute(rest)) == Semicolon(rest)
    ensures Substitute(rest)[|Semicolon(rest)|..] == Substitute(rest[|Semicolon(rest)|..])
  {
    FirstChar(rest);
    if Semicolon(rest) != "" {
      assert rest == [';'] + rest[1..];
      SubstitutePlain([';'], rest[1..]);
    } else {
      assert rest[0..] == rest;
    }
    hide Substitute;
  }

  lemma RunEnds(run: string, rest: string, limit: nat)
    requires NameRun(run + rest, limit) == run
    ensures |run| <= limit && (forall c <- run :: NameChar(c))
    ensures |run| < limit && rest != [] ==> !NameChar(rest[0])
  {
    assert |run| < limit && rest != [] ==> (run + rest)[|run|] == rest[0];
  }

  /** Substitution leaves alone an ampersand that starts no numeric reference, and the name run behind it. */
  lemma SubstituteAmpersand(run: string, rest: string)
    requires RefAt(['&'] + run + rest).NoRef? && '&' !in run
    ensures Substitute(['&'] + run + rest) == ['&'] + run + Substitute(rest)
    ensures RefAt(['&'] + run + Substitute(rest)).NoRef?
  {
    var text := ['&'] + run + rest;
    Regroup(['&'], run, rest);
    Regroup(['&'], run, Substitute(rest));
    assert text[1..] == run + rest;
    SubstitutePlain(run, rest);
    NoRefStays(text);
    hide RefAt, Bounded;
  }

  /** A name run that reads on into a replacement character, and perhaps past it, decodes to the same text. */
  lemma RunIntoReplacement(t: Tables, run: string, follow: string)
    requires t.Valid() && follow != [] && follow[0] == REPLACEMENT
    requires |run| < 32 && (forall c <- run :: NameChar(c)) && RefAt(['&'] + run + follow).NoRef?
    ensures Unescape(t, ['&'] + run + follow) == RunText(t, run) + Unescape(t, follow)
  {
    hide *;
    var long, more, rest, beyond := ReadOn(run, follow);
    UnescapeName(t, long, rest);
    NameBeforeReplacement(t, run, more);
    PlainPrefix(t, more, beyond);
    Regroup(RunText(t, run), more, Unescape(t, beyond));
  }

  /** The run read from `run` and what follows it, and how much of what follows goes to the name. */
  lemma ReadOn(run: string, follow: string) returns (long: string, more: string, rest: string, beyond: string)
    requires follow != [] && follow[0] == REPLACEMENT && |run| < 32 && forall c <- run :: NameChar(c)
    ensures NameRun(long + rest, 32) == long != [] && ['&'] + run + follow == ['&'] + long + rest
    ensures long + Semicolon(rest) == run + more && rest[|Semicolon(rest)|..] == beyond
    ensures more != [] && more[0] == REPLACEMENT && '&' !in more && follow == more + beyond
  {
    var tail := run + follow;
    long := NameRun(tail, 32);
    LongerRun(run, follow);
    ReadPast(run, follow, long);
    rest := tail[|long|..];
    var semicolon := Semicolon(rest);
    var extra := long[|run|..];
    beyond := rest[|semicolon|..];
    more := extra + semicolon;
    NoAmpersandInRun(long, |run|, rest);
    assert rest == semicolon + beyond;
    hide *;
    RegroupAll(run, extra, semicolon, beyond);
    Regroup(['&'], run, follow);
    Regroup(['&'], long, rest);
  }

  lemma LongerRun(run: string, follow: string)
    requires follow != [] && follow[0] == REPLACEMENT && |run| < 32 && forall c <- run :: NameChar(c)
    ensures run <= NameRun(run + follow, 32) && |NameRun(run + follow, 32)| > |run|
  {
    assert NameChar(REPLACEMENT);
    NameRunGoesOn(run + follow, run + [REPLACEMENT], 32);
    hide NameRun;
  }

  lemma NoAmpersandInRun(run: string, from: nat, rest: string)
    requires from <= |run| && forall c <- run :: NameChar(c)
    ensures '&' !in run[from..] + Semicolon(rest)
  {
    assert !NameChar('&');
    assert forall c <- run[from..] :: c in run;
  }

  /** Where a run that reads on past `run` stops inside what follows. */
  lemma ReadPast(run: string, follow: string, long: string)
    requires run <= long <= run + follow && |long| > |run| && follow != []
    ensures var tail := run + follow;
            tail == long + tail[|long|..] && long == run + long[|run|..] &&
            follow == long[|run|..] + tail[|long|..] && long[|run|..][0] == follow[0]
  {
    var tail := run + follow;
    assert tail[|run|..] == follow;
    assert tail[|run|..] == long[|run|..] + tail[|long|..];
  }

  lemma AmpersandMeaningKept(t: Tables, run: string, rest: string)
    requires t.Valid() && RefAt(['&'] + run + rest).NoRef? && NameRun(run + rest, 32) == run
    requires var semicolon := if run == [] then "" else Semicolon(rest);
             Unescape(t, Substitute(rest[|semicolon|..])) == Unescape(t, rest[|semicolon|..])
    requires Unescape(t, Substitute(rest)) == Unescape(t, rest)
    ensures Unescape(t, Substitute(['&'] + run + rest)) == Unescape(t, ['&'] + run + rest)
  {
    FirstChar(rest);
    if |run| == 32 || rest == [] || Substitute(rest)[0] == rest[0] {
      hide *;
      NameMeaningKept(t, run, rest);
    } else {
      assert Semicolon(rest) == "";
      RunEnds(run, rest, 32);
      assert run + "" == run && rest[|""|..] == rest;
      hide *;
      SubstituteAmpersand(run, rest);
      RunIntoReplacement(t, run, Substitute(rest));
      UnescapeName(t, run, rest);
    }
  }

  lemma {:induction false} SubstituteKeepsMeaning(t: Tables, text: string)
    requires t.Valid()
    ensures Unescape(t, Substitute(text)) == Unescape(t, text)
    decreases |text|
  {
    if text == [] {
    } else if RefAt(text).Ref? {
      var r := RefAt(text);
      ParsedRef(text);
      hide *;
      SubstituteKeepsMeaning(t, text[|r.Text()|..]);
      RefMeaningKept(t, r, text[|r.Text()|..]);
    } else if text[0] == '&' {
      var run := NameRun(text[1..], 32);
      var rest := text[1..][|run|..];
      AmpersandParts(text, run);
      SubstituteKeepsMeaning(t, rest);
      SubstituteKeepsMeaning(t, rest[|Semicolon(rest)|..]);
      hide *;
      AmpersandMeaningKept(t, run, rest);
    } else {
      assert [text[0]] + text[1..] == text;
      hide *;
      SubstituteKeepsMeaning(t, text[1..]);
      SubstitutePlain([text[0]], text[1..]);
      PlainPrefix(t, [text[0]], text[1..]);
      PlainPrefix(t, [text[0]], Substitute(text[1..]));
    }
  }

  lemma AmpersandParts(text: string, run: string)
    requires text != [] && text[0] == '&' && run <= text[1..]
    ensures var rest := text[1..][|run|..];
            text == ['&'] + run + rest && text[1..] == run + rest && rest[|""|..] == rest
  {
  }

  // ---------- idempotence and size ----------

  lemma RefIdempotent(r: Ref, rest: string)
    requires WellFormed(r) && Follows(r, rest) && Substitute(Substitute(rest)) == Substitute(rest)
    ensures Substitute(Bounded(r) + Substitute(rest)) == Bounded(r) + Substitute(rest)
  {
    SignificantDigits(r.digits, 10);
    if |Significant(r.digits)| > DigitLimit(r.Hex()) {
      SubstitutePlain([REPLACEMENT], Substitute(rest));
    } else {
      StillFollows(r, rest);
      SubstituteRef(r.(digits := Significant(r.digits)), Substitute(rest));
    }
    hide RefAt, Substitute, Significant;
  }

  lemma {:induction false} SubstituteIdempotent(text: string)
    ensures Substitute(Substitute(text)) == Substitute(text)
    decreases |text|
  {
    if text == [] {
    } else if RefAt(text).Ref? {
      var r := RefAt(text);
      var rest := text[|r.Text()|..];
      ParsedRef(text);
      SubstituteIdempotent(rest);
      SubstituteRef(r, rest);
      RefIdempotent(r, rest);
    } else if text[0] == '&' {
      SubstituteIdempotent(text[1..]);
      NoRefStays(text);
      SubstituteStep(['&'] + Substitute(text[1..]));
      SubstituteStep(text);
    } else {
      assert text == [text[0]] + text[1..];
      SubstituteIdempotent(text[1..]);
      SubstitutePlain([text[0]], text[1..]);
      SubstitutePlain([text[0]], Substitute(text[1..]));
    }
    hide RefAt, Substitute, Bounded;
  }

  lemma SubstituteStep(text: string)
    requires text != [] && RefAt(text).NoRef?
    ensures Substitute(text) == [text[0]] + Substitute(text[1..])
  {
  }

  /** No numeric reference anywhere in the text has more digits than the limit. */
  predicate AllShort(text: string) {
    text == [] || ((RefAt(text).Ref? ==> |RefAt(text).digits| <= DigitLimit(RefAt(text).Hex())) && AllShort(text[1..]))
  }

  lemma {:induction false} AllShortPlain(plain: string, rest: string)
    requires '&' !in plain && AllShort(rest)
    ensures AllShort(plain + rest)
  {
    if plain == [] {
      assert plain + rest == rest;
    } else {
      AllShortPlain(plain[1..], rest);
      assert plain[0] in plain;
      NoAmpersandNoRef(plain + rest);
      assert (plain + rest)[1..] == plain[1..] + rest;
    }
    hide RefAt;
  }

  /** Every numeric reference left after substitution has at most seven digits, wherever it starts. */
  lemma {:induction false} SubstituteIsShort(text: string)
    ensures AllShort(Substitute(text))
    decreases |text|
  {
    if text == [] {
    } else if RefAt(text).Ref? {
      var r := RefAt(text);
      var rest := text[|r.Text()|..];
      ParsedRef(text);
      SubstituteIsShort(rest);
      SubstituteRef(r, rest);
      if |Significant(r.digits)| > DigitLimit(r.Hex()) {
        AllShortPlain([REPLACEMENT], Substitute(rest));
      } else {
        SignificantDigits(r.digits, 10);
        StillFollows(r, rest);
        AllShortRef(r.(digits := Significant(r.digits)), Substitute(rest));
      }
    } else {
      SubstituteIsShort(text[1..]);
      SubstituteStep(text);
      if text[0] == '&' {
        NoRefStays(text);
      } else {
        NoAmpersandNoRef(Substitute(text));
      }
      assert Substitute(text)[1..] == Substitute(text[1..]);
    }
    hide RefAt, Substitute, Significant;
  }

  lemma RefTextIsPlain(r: Ref)
    requires WellFormed(r)
    ensures r.Text()[0] == '&' && '&' !in r.Text()[1..]
  {
    assert !IsDigit('&', r.Hex());
    assert r.Text()[1..] == "#" + r.marker + r.digits + r.semicolon;
  }

  lemma AllShortRef(r: Ref, rest: string)
    requires WellFormed(r) && Follows(r, rest) && |r.digits| <= DigitLimit(r.Hex()) && AllShort(rest)
    ensures AllShort(r.Text() + rest)
  {
    var text := r.Text() + rest;
    RefParses(r, rest);
    RefTextIsPlain(r);
    AllShortPlain(r.Text()[1..], rest);
    assert text[1..] == r.Text()[1..] + rest;
    hide RefAt, WellFormed, Follows;
  }

  lemma {:induction false} NothingToSubstitute(text: string)
    requires !Mentions(text, "&#")
    ensures Substitute(text) == text
  {
    if text != [] {
      assert |text| >= 2 ==> text[..2] == [text[0], text[1]];
      NothingToSubstitute(text[1..]);
      SubstituteStep(text);
    }
  }

  lemma BoundIsSubstitute(text: string)
    ensures BoundCharrefs(text) == Substitute(text)
  {
    if !Mentions(text, "&#") {
      NothingToSubstitute(text);
    }
  }

  /** Decoding the shortened text gives what decoding the original without any limit would give. */
  lemma ShorteningKeepsMeaning(t: Tables, text: string)
    requires t.Valid()
    ensures Unescape(t, BoundCharrefs(text)) == Unescape(t, text)
  {
    BoundIsSubstitute(text);
    SubstituteKeepsMeaning(t, text);
  }

  /** Shortening twice is shortening once, and it leaves no reference too long to convert. */
  lemma ShorteningIsDone(text: string)
    ensures BoundCharrefs(BoundCharrefs(text)) == BoundCharrefs(text)
    ensures AllShort(BoundCharrefs(text))
  {
    BoundIsSubstitute(text);
    BoundIsSubstitute(Substitute(text));
    SubstituteIdempotent(text);
    SubstituteIsShort(text);
  }
}
