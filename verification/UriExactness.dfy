/**
 Two sharper statements about URI normal form: exactly when it is idempotent, for any text at all, and that it
 identifies exactly the URIs that elementary respellings lead from one to the other.
 */
module UriExactness {
  import opened Sequences
  import opened UriNormalForm
  import opened UriText

  // ---------- exactly when normalizing twice is normalizing once ----------

  /** An escape that normalization would spell differently. */
  predicate Rewritten(escape: Text)
    requires IsEscape(escape) && |escape| == 3
  {
    NormalEscape(escape) != escape
  }

  /** A bare `%` whose next two units, each spelling a hex digit, complete an escape normalization would rewrite. */
  predicate FusesAtFront(units: seq<Unit>) {
    && |units| >= 3 && units[0] == Lit(PERCENT)
    && units[1].Lit? && IsHex(units[1].code) && units[2].Lit? && IsHex(units[2].code)
    && Rewritten([PERCENT, units[1].code, units[2].code])
  }

  /** No bare `%` is completed to such an escape by what decoding puts behind it. */
  predicate NothingFuses(units: seq<Unit>) {
    units == [] || (!FusesAtFront(units) && NothingFuses(units[1..]))
  }

  lemma {:induction false} SubEscapesShrinks(t: Text)
    ensures |SubEscapes(t)| <= |t|
    decreases |t|
  {
    if t != [] {
      SubEscapesShrinks(if IsEscape(t) then t[3..] else t[1..]);
    }
  }

  /** The spelling of units begins with a hex digit exactly when the first unit is one. */
  lemma HexHead(units: seq<Unit>)
    ensures var t := Render(units);
            t != [] && IsHex(t[0]) <==> units != [] && units[0].Lit? && IsHex(units[0].code)
    ensures var t := Render(units);
            t != [] && IsHex(t[0]) ==> t[0] == units[0].code && t[1..] == Render(units[1..])
  {
    SafeFacts();
  }

  /** The spelling of units begins with two hex digits exactly when the first two units are such. */
  lemma TwoHexHeads(units: seq<Unit>)
    ensures var t := Render(units);
            |t| >= 2 && IsHex(t[0]) && IsHex(t[1]) <==>
            |units| >= 2 && units[0].Lit? && IsHex(units[0].code) && units[1].Lit? && IsHex(units[1].code)
    ensures var t := Render(units);
            |t| >= 2 && IsHex(t[0]) && IsHex(t[1]) ==>
            t[0] == units[0].code && t[1] == units[1].code && t[2..] == Render(units[2..])
  {
    var t := Render(units);
    HexHead(units);
    assert Render([]) == [];
    hide Render, IsHex;
    if t != [] && IsHex(t[0]) {
      HexHead(units[1..]);
      assert |t| > 1 ==> t[1] == t[1..][0];
      assert |units| > 1 ==> units[1] == units[1..][0];
      if |t| > 1 {
        NestedDrop(t, 1, 1);
      }
      if |units| > 1 {
        NestedDrop(units, 1, 1);
      }
    }
  }

  /** A `%` starts an escape exactly when two hex digits follow. */
  lemma EscapeAhead(r: Text)
    ensures var t := [PERCENT] + r;
            && t[0] == PERCENT && t[1..] == r && (IsEscape(t) <==> |r| >= 2 && IsHex(r[0]) && IsHex(r[1]))
            && (|r| >= 2 ==> t[..3] == [PERCENT, r[0], r[1]] && t[3..] == r[2..])
  {
  }

  /** The second pass over a bare `%`. */
  lemma SubBarePercent(units: seq<Unit>)
    requires units != [] && units[0] == Lit(PERCENT)
    ensures var t := Render(units);
            IsEscape(t) <==>
            |units| >= 3 && units[1].Lit? && IsHex(units[1].code) && units[2].Lit? && IsHex(units[2].code)
    ensures var t := Render(units);
            IsEscape(t) ==> t[..3] == [PERCENT, units[1].code, units[2].code] && t[3..] == Render(units[3..])
    ensures Render(units)[0] == PERCENT && Render(units)[1..] == Render(units[1..])
  {
    assert Render(units) == [PERCENT] + Render(units[1..]);
    hide *;
    TwoHexHeads(units[1..]);
    EscapeAhead(Render(units[1..]));
    assert |units| >= 3 ==> units[1..][0] == units[1] && units[1..][1] == units[2];
    if |units| >= 3 {
      NestedDrop(units, 1, 2);
    }
  }

  lemma {:induction false} SecondPass(units: seq<Unit>)
    requires forall u <- units :: Proper(u)
    ensures SubEscapes(Render(units)) == Render(units) <==> NothingFuses(units)
    decreases |units|
  {
    if units == [] {
      return;
    }
    SafeFacts();
    var t, rest := Render(units), units[1..];
    assert units[0] in units;
    match units[0] {
      case Enc(b) =>
        assert t == Escape(b) + Render(rest);
        SubEscapesKeeps(b, Render(rest));
        SameTail(Escape(b), SubEscapes(Render(rest)), Render(rest));
        SecondPass(rest);
        hide Render, SubEscapes, Escape;
      case Lit(c) =>
        if c != PERCENT {
          assert t[1..] == Render(rest);
          SecondPass(rest);
          hide Render;
        } else {
          SubBarePercent(units);
          if IsEscape(t) {
            SecondPass(units[3..]);
            SecondPassFused(units);
          } else {
            SecondPass(rest);
          }
        }
    }
  }

  /** The pass keeps an escape and what follows exactly when it keeps both. */
  lemma SubEscapesFront(e: Text, rest: Text)
    requires |e| == 3 && IsEscape(e)
    ensures SubEscapes(e + rest) == NormalEscape(e) + SubEscapes(rest)
    ensures SubEscapes(e + rest) == e + rest <==> NormalEscape(e) == e && SubEscapes(rest) == rest
  {
    var t := e + rest;
    assert t[0] == e[0] && t[1] == e[1] && t[2] == e[2];
    SplitAppended(e, rest, 3);
    assert EscapeValue(t) == EscapeValue(e) && [] + rest == rest;
    assert SubEscapes(t) == NormalEscape(e) + SubEscapes(rest);
    SubEscapesShrinks(rest);
    hide SubEscapes, EscapeValue, IsEscape;
    if NormalEscape(e) == e {
      SameTail(e, SubEscapes(rest), rest);
    } else if |NormalEscape(e)| == 3 {
      SplitAppended(NormalEscape(e), SubEscapes(rest), 3);
      assert e[..3] == e && NormalEscape(e)[..3] == NormalEscape(e);
    }
  }

  /** The second pass over a bare `%` that two hex digits follow. */
  lemma SecondPassFused(units: seq<Unit>)
    requires units != [] && units[0] == Lit(PERCENT) && IsEscape(Render(units)) && |units| >= 3
    requires SubEscapes(Render(units[3..])) == Render(units[3..]) <==> NothingFuses(units[3..])
    ensures SubEscapes(Render(units)) == Render(units) <==> NothingFuses(units)
  {
    SubBarePercent(units);
    FusedUnits(units);
    var e, after := [PERCENT, units[1].code, units[2].code], Render(units[3..]);
    assert Render(units) == e + after && IsEscape(e);
    hide Render, SubEscapes, NothingFuses, IsEscape, NormalEscape;
    SubEscapesFront(e, after);
  }

  lemma FusedUnits(units: seq<Unit>)
    requires |units| >= 3 && units[0] == Lit(PERCENT)
    requires units[1].Lit? && IsHex(units[1].code) && units[2].Lit? && IsHex(units[2].code)
    ensures var e := [PERCENT, units[1].code, units[2].code];
            IsEscape(e) && (NothingFuses(units) <==> NormalEscape(e) == e && NothingFuses(units[3..]))
  {
    SafeFacts();
    HexIsSafe(units[1].code);
    HexIsSafe(units[2].code);
    NestedDrop(units, 1, 1);
    NestedDrop(units, 2, 1);
    assert NothingFuses(units[2..]) == NothingFuses(units[3..]);
    assert NothingFuses(units[1..]) == NothingFuses(units[2..]);
    assert FusesAtFront(units) == Rewritten([PERCENT, units[1].code, units[2].code]);
    hide EscapeValue, NormalEscape;
  }

  lemma {:induction false} NothingFusesSkip(units: seq<Unit>, n: nat)
    requires n <= |units| && forall i :: 0 <= i < n ==> units[i] != Lit(PERCENT)
    ensures NothingFuses(units) <==> NothingFuses(units[n..])
  {
    if n > 0 {
      NothingFusesSkip(units[1..], n - 1);
      assert units[1..][n - 1..] == units[n..];
    }
  }

  /** Folding the scheme touches no bare `%`. */
  lemma FoldSchemeKeepsFusing(units: seq<Unit>)
    ensures NothingFuses(FoldScheme(units)) <==> NothingFuses(units)
  {
    SafeFacts();
    var end, folded := SchemeUnits(units), FoldScheme(units);
    forall i | 0 <= i < end ensures units[i] != Lit(PERCENT) && folded[i] != Lit(PERCENT) {
      if i < SchemeUnitRun(units) {
        assert IsSchemeUnit(units[i]);
      }
    }
    assert folded[end..] == units[end..];
    NothingFusesSkip(units, end);
    NothingFusesSkip(folded, end);
  }

  lemma {:induction false} QuoteOfSafe(t: Text)
    requires forall c <- t :: Safe(c)
    ensures Quote(t) == t
  {
    if t != [] {
      assert t[0] in t;
      QuoteOfSafe(t[1..]);
    }
  }

  lemma {:induction false} RenderIsSafe(units: seq<Unit>)
    requires forall u <- units :: Proper(u)
    ensures forall c <- Render(units) :: Safe(c)
  {
    if units != [] {
      assert units[0] in units;
      SafeFacts();
      RenderIsSafe(units[1..]);
    }
  }

  lemma {:induction false} SubEscapesAfter(t: Text, p: nat)
    requires p <= |t| && PERCENT !in t[..p]
    ensures SubEscapes(t) == t[..p] + SubEscapes(t[p..])
  {
    if p == 0 {
      assert t[p..] == t;
    } else {
      assert t[0] == t[..p][0] != PERCENT;
      assert t[1..][..p - 1] == t[..p][1..];
      SubEscapesAfter(t[1..], p - 1);
      assert t[1..][p - 1..] == t[p..];
      assert t[..p] == [t[0]] + t[1..][..p - 1];
    }
  }

  /** A second pass that keeps the length keeps the first `%`, so the scheme lies before it. */
  lemma SecondPassKeepsPercent(t: Text)
    requires t != [] && t[0] == PERCENT && |SubEscapes(t)| == |t|
    ensures SubEscapes(t)[0] == PERCENT
  {
    SubEscapesShrinks(if IsEscape(t) then t[3..] else t[1..]);
  }

  lemma SchemeEndsBeforePercent(t: Text, p: nat)
    requires p < |t| && t[p] == PERCENT
    ensures SchemeEnd(t) <= p
    ensures forall i :: p <= i < |t| ==> LowerScheme(t)[i] == t[i]
  {
    SafeFacts();
    assert SchemeRun(t) <= p;
  }

  /** Folding the scheme of a second pass cannot undo what the pass changed. */
  lemma LowerSchemeRestoresNothing(t: Text, p: nat)
    requires p <= |t| && PERCENT !in t[..p] && (p < |t| ==> t[p] == PERCENT)
    requires LowerScheme(SubEscapes(t)) == t
    ensures SubEscapes(t) == t
  {
    SubEscapesAfter(t, p);
    var s, tail := SubEscapes(t), t[p..];
    assert |LowerScheme(s)| == |s|;
    if p < |t| {
      SecondPassKeepsPercent(tail);
      SchemeEndsBeforePercent(s, p);
      assert s[p..] == t[p..];
      assert t == t[..p] + t[p..];
    } else {
      assert t[p..] == [] && t[..p] == t;
      assert SubEscapes([]) == [];
    }
    hide SubEscapes, LowerScheme;
  }

  function FirstPercent(t: Text): (p: nat)
    ensures p <= |t| && PERCENT !in t[..p] && (p < |t| ==> t[p] == PERCENT)
  {
    if t == [] || t[0] == PERCENT then 0
    else
      var p := FirstPercent(t[1..]);
      assert t[..p + 1] == [t[0]] + t[1..][..p];
      p + 1
  }

  /**
   On any text, well formed or not, normalizing twice is normalizing once exactly when no bare `%` of the text is
   followed by two characters, written plainly or as escapes, that complete an escape normalization would rewrite.
   */
  lemma IdempotentExactly(uri: Text)
    ensures Normalize(Normalize(uri)) == Normalize(uri) <==> NothingFuses(Units(uri))
  {
    NormalizeSpellsMeaning(uri);
    UnitsProper(uri);
    FoldSchemeFacts(Units(uri));
    var units, t := Meaning(uri), Normalize(uri);
    RenderIsSafe(units);
    QuoteOfSafe(t);
    SecondPass(units);
    FoldSchemeKeepsFusing(Units(uri));
    LowerSchemeOfRender(units);
    if Normalize(t) == t {
      LowerSchemeRestoresNothing(t, FirstPercent(t));
    }
  }

  lemma EscapeThenRest(c: CodePoint, t: Text)
    requires IsEscape(t) && EscapeValue(t) == c && Unreserved(c)
    ensures Units(t) == [Lit(c)] + Units(t[3..])
  {
  }

  /** `%%34%31` */
  const PERCENT_A: Text := [PERCENT, PERCENT, '3' as int, '4' as int, PERCENT, '3' as int, '1' as int]

  lemma UnitsOfPercentA()
    ensures Units(PERCENT_A) == [Lit(PERCENT), Lit('4' as int), Lit('1' as int)]
  {
    var uri := PERCENT_A;
    SafeFacts();
    EscapeThenRest('4' as int, uri[1..]);
    EscapeThenRest('1' as int, uri[4..]);
    assert uri[1..][3..] == uri[4..] && uri[4..][3..] == [];
  }

  /** `%%34%31` becomes `%41`, which becomes `A`. */
  lemma IdempotenceCanFail()
    ensures !WellFormed(PERCENT_A) && Normalize(Normalize(PERCENT_A)) != Normalize(PERCENT_A)
  {
    hide Normalize, Units;
    UnitsOfPercentA();
    IdempotentExactly(PERCENT_A);
    assert EscapeValue([PERCENT, '4' as int, '1' as int]) == 'A' as int;
    assert FusesAtFront(Units(PERCENT_A));
    assert !IsEscape(PERCENT_A[0..]) by {
      assert PERCENT_A[0..][1] == PERCENT;
    }
  }

  // ---------- exactly which spellings are identified ----------

  /** The elementary respellings: an escape's digit case, an unreserved character, one a URI cannot carry. */
  ghost predicate Respelling(plain: Text, escaped: Text) {
    || (IsEscape(plain) && IsEscape(escaped) && |plain| == |escaped| == 3 && EscapeValue(plain) == EscapeValue(escaped))
    || (|plain| == 1 && plain[0] < 0x80 && Unreserved(plain[0]) && escaped == Escape(plain[0]))
    || (|plain| == 1 && !Safe(plain[0]) && escaped == Escapes(Utf8(plain[0])))
  }

  /** One respelling in place, between text whose escapes are complete. */
  ghost predicate RespelledAt(a: Text, b: Text, before: Text, plain: Text, escaped: Text, after: Text) {
    && WellFormed(before) && WellFormed(after) && Respelling(plain, escaped)
    && a == before + plain + after && b == before + escaped + after
  }

  /** Letters of the scheme in another case. */
  ghost predicate SchemeRecased(a: Text, b: Text) {
    && SchemeEnd(a) == SchemeEnd(b) > 0 && |a| == |b|
    && Lower(a[..SchemeEnd(a)]) == Lower(b[..SchemeEnd(a)]) && a[SchemeEnd(a)..] == b[SchemeEnd(a)..]
  }

  ghost predicate Step(a: Text, b: Text) {
    || (exists before, plain, escaped, after :: RespelledAt(a, b, before, plain, escaped, after))
    || SchemeRecased(a, b)
  }

  ghost predicate Chain(texts: seq<Text>) {
    && texts != []
    && (forall t <- texts :: WellFormed(t))
    && forall i :: 0 <= i < |texts| - 1 ==> Step(texts[i], texts[i + 1]) || Step(texts[i + 1], texts[i])
  }

  /** Elementary respellings lead from one URI to the other. */
  ghost predicate SameUpToSpelling(a: Text, b: Text) {
    exists texts :: Chain(texts) && texts[0] == a && texts[|texts| - 1] == b
  }

  lemma WellFormedConcat(a: Text, b: Text)
    requires WellFormed(a) && WellFormed(b)
    ensures WellFormed(a + b)
  {
    var ab := a + b;
    forall i | 0 <= i < |ab| && ab[i] == PERCENT ensures IsEscape(ab[i..]) {
      if i < |a| {
        assert IsEscape(a[i..]);
        assert ab[i] == a[i] && ab[i + 1] == a[i + 1] && ab[i + 2] == a[i + 2];
      } else {
        assert IsEscape(b[i - |a|..]);
        assert ab[i..] == b[i - |a|..];
      }
    }
  }

  lemma EscapeIsWellFormed(t: Text)
    requires IsEscape(t) && |t| == 3
    ensures WellFormed(t)
  {
    SafeFacts();
    assert t[0..] == t;
  }

  lemma {:induction false} EscapesAreWellFormed(octets: seq<Octet>)
    ensures WellFormed(Escapes(octets))
  {
    if octets != [] {
      EscapeIsWellFormed(Escape(octets[0]));
      EscapesAreWellFormed(octets[1..]);
      WellFormedConcat(Escape(octets[0]), Escapes(octets[1..]));
    }
  }

  /** The first unit of a URI: the text that spells it and the text behind. */
  function FirstSpelling(uri: Text): Text
    requires uri != []
  {
    if IsEscape(uri) then uri[..3] else [uri[0]]
  }

  lemma FrontAppend(uri: Text, rest: Text)
    requires uri != [] && (uri[0] == PERCENT ==> IsEscape(uri))
    ensures FirstSpelling(uri + rest) == FirstSpelling(uri)
    ensures (uri + rest)[|FirstSpelling(uri)|..] == uri[|FirstSpelling(uri)|..] + rest
  {
    var whole := uri + rest;
    assert whole[0] == uri[0];
    if IsEscape(uri) {
      assert whole[1] == uri[1] && whole[2] == uri[2];
      assert whole[..3] == uri[..3];
    }
  }

  lemma SameEscape(a: Text, b: Text)
    requires IsEscape(a) && IsEscape(b) && a[..3] == b[..3]
    ensures EscapeValue(a) == EscapeValue(b)
  {
    assert a[..3][1] == b[..3][1] && a[..3][2] == b[..3][2];
  }

  /** The units of one spelling on its own. */
  lemma LoneUnits(first: Text)
    requires (|first| == 3 && IsEscape(first)) || (|first| == 1 && !IsEscape(first))
    ensures Units(first) == if IsEscape(first) then [EscapeUnit(EscapeValue(first))]
                            else if Safe(first[0]) then [Lit(first[0])] else EncAll(Utf8(first[0]))
  {
    assert Units([]) == [];
    if IsEscape(first) {
      assert first[3..] == [];
    } else {
      assert first[1..] == [];
    }
    hide EscapeValue, EscapeUnit, EncAll, Safe;
  }

  lemma UnitsFront(uri: Text)
    requires uri != []
    ensures Units(uri) == Units(FirstSpelling(uri)) + Units(uri[|FirstSpelling(uri)|..])
  {
    var first := FirstSpelling(uri);
    LoneUnits(first);
    if IsEscape(uri) {
      assert EscapeValue(first) == EscapeValue(uri) by { SameEscape(first, uri); }
    }
    hide EscapeValue, EscapeUnit, EncAll, Safe, Utf8;
  }

  /** Reading units respects concatenation after text whose escapes are complete. */
  lemma {:induction false} UnitsAppend(a: Text, b: Text)
    requires WellFormed(a)
    ensures Units(a + b) == Units(a) + Units(b)
    decreases |a|
  {
    if a == [] {
      assert a + b == b;
    } else {
      assert a[0..] == a;
      var first := FirstSpelling(a);
      var after := a[|first|..];
      FrontAppend(a, b);
      UnitsFront(a);
      UnitsFront(a + b);
      WellFormedTail(a, |first|);
      UnitsAppend(after, b);
      hide Units;
      Regroup(Units(first), Units(after), Units(b));
    }
  }

  lemma {:induction false} UnitsOfEscapes(octets: seq<Octet>)
    requires forall b <- octets :: !Unreserved(b)
    ensures Units(Escapes(octets)) == EncAll(octets)
  {
    if octets != [] {
      var e := Escape(octets[0]);
      UnitsOfEscapes(octets[1..]);
      EscapeIsWellFormed(e);
      UnitsAppend(e, Escapes(octets[1..]));
      assert Units(e) == [Enc(octets[0])] by {
        assert octets[0] in octets;
        assert e[3..] == [];
      }
    }
  }

  lemma RespellingKeepsUnits(plain: Text, escaped: Text)
    requires Respelling(plain, escaped)
    ensures WellFormed(plain) && WellFormed(escaped) && Units(plain) == Units(escaped)
  {
    SafeFacts();
    if IsEscape(plain) {
      EscapeIsWellFormed(plain);
      EscapeIsWellFormed(escaped);
      assert plain[3..] == [] && escaped[3..] == [];
    } else if Unreserved(plain[0]) {
      EscapeIsWellFormed(escaped);
      assert plain[1..] == [] && escaped[3..] == [];
      assert WellFormed(plain);
    } else {
      UnsafeOctets(plain[0]);
      UnitsOfEscapes(Utf8(plain[0]));
      EscapesAreWellFormed(Utf8(plain[0]));
      assert plain[1..] == [];
      assert EncAll(Utf8(plain[0])) + Units([]) == EncAll(Utf8(plain[0]));
      assert WellFormed(plain);
    }
  }

  lemma {:induction false} UnitsOfSchemeText(t: Text)
    requires forall c <- t :: c == COLON || IsSchemeChar(c)
    ensures WellFormed(t) && |Units(t)| == |t| && forall i :: 0 <= i < |t| ==> Units(t)[i] == Lit(t[i])
  {
    SafeFacts();
    if t != [] {
      assert t[0] in t;
      if t[0] != COLON {
        SchemeCharIsSafe(t[0]);
      }
      UnitsOfSchemeText(t[1..]);
      assert forall i :: 0 <= i < |t| ==> t[i] in t && t[i] != PERCENT;
      assert Units(t) == [Lit(t[0])] + Units(t[1..]);
    }
  }

  /** A literal scheme is the scheme of the units, and the units behind it are those of the text behind it. */
  lemma UnitsBehindScheme(uri: Text)
    requires SchemeEnd(uri) > 0
    ensures var end := SchemeEnd(uri);
            && Units(uri) == Units(uri[..end]) + Units(uri[end..])
            && |Units(uri[..end])| == end == SchemeUnits(Units(uri))
            && forall i :: 0 <= i < end ==> Units(uri)[i] == Lit(uri[i])
  {
    var end := SchemeEnd(uri);
    var scheme := uri[..end];
    SafeFacts();
    forall c | c in scheme ensures c == COLON || IsSchemeChar(c) {
      var i :| 0 <= i < |scheme| && scheme[i] == c;
    }
    UnitsOfSchemeText(scheme);
    UnitsAppend(scheme, uri[end..]);
    assert scheme + uri[end..] == uri;
    var units := Units(uri);
    forall i | 0 <= i < end ensures units[i] == Lit(uri[i]) {
      assert units[i] == Units(scheme)[i];
    }
    forall i | 0 <= i < end - 1 ensures IsSchemeUnit(units[i]) {
      assert IsSchemeChar(uri[i]);
    }
    SchemeUnitRunIs(units, end - 1);
  }

  lemma RecasedKeepsMeaning(a: Text, b: Text)
    requires SchemeRecased(a, b)
    ensures Meaning(a) == Meaning(b)
  {
    var end := SchemeEnd(a);
    UnitsBehindScheme(a);
    UnitsBehindScheme(b);
    assert Units(a)[end..] == Units(a[end..]) && Units(b)[end..] == Units(b[end..]);
    forall i | 0 <= i < end ensures LowerChar(a[i]) == LowerChar(b[i]) {
      assert Lower(a[..end])[i] == LowerChar(a[i]) && Lower(b[..end])[i] == LowerChar(b[i]);
    }
    SameFolded(Units(a), Units(b), end);
  }

  lemma SameFolded(a: seq<Unit>, b: seq<Unit>, end: nat)
    requires end <= |a| && end <= |b| && a[end..] == b[end..] && SchemeUnits(a) == SchemeUnits(b) == end
    requires forall i :: 0 <= i < end ==> LowerChar(a[i].code) == LowerChar(b[i].code)
    ensures FoldScheme(a) == FoldScheme(b)
  {
    hide SchemeUnits, FoldScheme;
    forall i | end <= i < |a| ensures a[i] == b[i] {
      assert a[i] == a[end..][i - end];
    }
  }

  lemma StepKeepsMeaning(a: Text, b: Text)
    requires Step(a, b)
    ensures Meaning(a) == Meaning(b)
  {
    if SchemeRecased(a, b) {
      RecasedKeepsMeaning(a, b);
    } else {
      var before, plain, escaped, after :| RespelledAt(a, b, before, plain, escaped, after);
      RespellingKeepsUnits(plain, escaped);
      WellFormedConcat(before, plain);
      WellFormedConcat(before, escaped);
      UnitsAppend(before + plain, after);
      UnitsAppend(before + escaped, after);
      UnitsAppend(before, plain);
      UnitsAppend(before, escaped);
    }
  }

  lemma {:induction false} ChainKeepsMeaning(texts: seq<Text>)
    requires Chain(texts)
    ensures Meaning(texts[0]) == Meaning(texts[|texts| - 1])
  {
    if |texts| > 1 {
      assert Step(texts[0], texts[1]) || Step(texts[1], texts[0]);
      if Step(texts[0], texts[1]) {
        StepKeepsMeaning(texts[0], texts[1]);
      } else {
        StepKeepsMeaning(texts[1], texts[0]);
      }
      var rest := texts[1..];
      forall i | 0 <= i < |rest| - 1 ensures Step(rest[i], rest[i + 1]) || Step(rest[i + 1], rest[i]) {
        assert rest[i] == texts[i + 1] && rest[i + 1] == texts[i + 1 + 1];
      }
      ChainKeepsMeaning(rest);
    }
  }

  // ---------- and every URI is led to its normal form ----------

  lemma SameByOneStep(a: Text, b: Text)
    requires WellFormed(a) && WellFormed(b) && (Step(a, b) || Step(b, a))
    ensures SameUpToSpelling(a, b)
  {
    var texts := [a, b];
    assert Chain(texts) && texts[0] == a && texts[|texts| - 1] == b;
  }

  lemma SameReflexive(a: Text)
    requires WellFormed(a)
    ensures SameUpToSpelling(a, a)
  {
    var texts := [a];
    assert Chain(texts) && texts[0] == a && texts[|texts| - 1] == a;
  }

  lemma SameTransitive(a: Text, b: Text, c: Text)
    requires SameUpToSpelling(a, b) && SameUpToSpelling(b, c)
    ensures SameUpToSpelling(a, c)
  {
    hide Step, WellFormed;
    var s :| Chain(s) && s[0] == a && s[|s| - 1] == b;
    var t :| Chain(t) && t[0] == b && t[|t| - 1] == c;
    var texts := s + t[1..];
    forall i | 0 <= i < |texts| - 1 ensures Step(texts[i], texts[i + 1]) || Step(texts[i + 1], texts[i]) {
      if i < |s| - 1 {
        assert texts[i] == s[i] && texts[i + 1] == s[i + 1];
      } else {
        var j := i - (|s| - 1);
        assert texts[i] == t[j] && texts[i + 1] == t[j + 1];
      }
    }
    assert Chain(texts) && texts[0] == a && texts[|texts| - 1] == c;
  }

  lemma SameSymmetric(a: Text, b: Text)
    requires SameUpToSpelling(a, b)
    ensures SameUpToSpelling(b, a)
  {
    hide Step, WellFormed;
    var s :| Chain(s) && s[0] == a && s[|s| - 1] == b;
    var n := |s|;
    var t := seq(n, i requires 0 <= i < n => s[n - 1 - i]);
    forall i | 0 <= i < |t| - 1 ensures Step(t[i], t[i + 1]) || Step(t[i + 1], t[i]) {
      var j := n - 1 - i - 1;
      assert t[i] == s[j + 1] && t[i + 1] == s[j];
      assert Step(s[j], s[j + 1]) || Step(s[j + 1], s[j]);
    }
    assert Chain(t) && t[0] == b && t[|t| - 1] == a;
  }

  lemma SameByRespelling(before: Text, plain: Text, escaped: Text, after: Text)
    requires WellFormed(before) && WellFormed(after) && Respelling(plain, escaped)
    ensures SameUpToSpelling(before + plain + after, before + escaped + after)
    ensures SameUpToSpelling(before + escaped + after, before + plain + after)
  {
    RespellingKeepsUnits(plain, escaped);
    WellFormedConcat(before, plain);
    WellFormedConcat(before, escaped);
    WellFormedConcat(before + plain, after);
    WellFormedConcat(before + escaped, after);
    var a, b := before + plain + after, before + escaped + after;
    assert RespelledAt(a, b, before, plain, escaped, after);
    SameByOneStep(a, b);
    SameByOneStep(b, a);
  }

  /** The first unit, wherever it stands, is led to the way normalization spells it. */
  lemma SameFirstUnit(before: Text, uri: Text)
    requires WellFormed(before) && WellFormed(uri) && uri != []
    ensures var first := FirstSpelling(uri);
            var after := uri[|first|..];
            && WellFormed(after) && WellFormed(Render(Units(first))) && Units(uri) == Units(first) + Units(after)
            && SameUpToSpelling(before + uri, before + Render(Units(first)) + after)
  {
    SafeFacts();
    var first := FirstSpelling(uri);
    var after := uri[|first|..];
    assert first + after == uri;
    assert before + uri == before + first + after;
    WellFormedTail(uri, |first|);
    assert uri[0..] == uri;
    if IsEscape(uri) {
      var b := EscapeValue(uri);
      assert first[3..] == [] && EscapeValue(first) == b;
      EscapeIsWellFormed(first);
      EscapeIsWellFormed(Escape(b));
      SameByRespelling(before, first, Escape(b), after);
      if Unreserved(b) {
        assert Render(Units(first)) == [b];
        SameByRespelling(before, [b], Escape(b), after);
        SameTransitive(before + uri, before + Escape(b) + after, before + [b] + after);
        assert WellFormed([b]);
      } else {
        assert Render(Units(first)) == Escape(b);
      }
    } else {
      assert uri[0] != PERCENT;
      assert first[1..] == [];
      assert WellFormed(first);
      if Safe(uri[0]) {
        assert Render(Units(first)) == first;
        WellFormedConcat(before, uri);
        SameReflexive(before + uri);
      } else {
        UnsafeOctets(uri[0]);
        EncAllRender(Utf8(uri[0]));
        assert Units(first) == EncAll(Utf8(uri[0])) + [];
        assert Units(first) == EncAll(Utf8(uri[0]));
        EscapesAreWellFormed(Utf8(uri[0]));
        SameByRespelling(before, first, Escapes(Utf8(uri[0])), after);
      }
    }
    UnitsAppend(first, after);
  }

  lemma {:induction false} SameAsRendered(before: Text, uri: Text)
    requires WellFormed(before) && WellFormed(uri)
    ensures SameUpToSpelling(before + uri, before + Render(Units(uri)))
    decreases |uri|
  {
    if uri == [] {
      assert before + uri == before + Render(Units(uri));
      WellFormedConcat(before, uri);
      SameReflexive(before + uri);
    } else {
      var first := FirstSpelling(uri);
      var after := uri[|first|..];
      SameFirstUnit(before, uri);
      var spelled := Render(Units(first));
      hide Render, Units, SameUpToSpelling, FirstSpelling, WellFormed;
      WellFormedConcat(before, spelled);
      SameAsRendered(before + spelled, after);
      RenderAppend(Units(first), Units(after));
      Regroup(before, spelled, Render(Units(after)));
      SameTransitive(before + uri, before + spelled + after, before + Render(Units(uri)));
    }
  }

  lemma LowerSchemeKeepsEnd(t: Text)
    requires SchemeEnd(t) > 0
    ensures SchemeRecased(t, LowerScheme(t))
  {
    var end, lowered := SchemeEnd(t), LowerScheme(t);
    assert forall i :: 0 <= i < end - 1 ==> IsSchemeChar(lowered[i]);
    assert lowered[end - 1] == COLON;
    SafeFacts();
    SchemeRunIs(lowered, end - 1);
    assert Lower(lowered[..end]) == Lower(t[..end]);
    assert lowered[end..] == t[end..];
  }

  lemma {:induction false} RenderIsWellFormed(units: seq<Unit>)
    requires Lit(PERCENT) !in units
    ensures WellFormed(Render(units))
  {
    if units != [] {
      assert units[0] in units;
      RenderIsWellFormed(units[1..]);
      if units[0].Enc? {
        EscapeIsWellFormed(Escape(units[0].octet));
      } else {
        assert WellFormed([units[0].code]);
      }
      WellFormedConcat(RenderUnit(units[0]), Render(units[1..]));
    }
  }

  lemma SameAsNormalForm(uri: Text)
    requires WellFormed(uri)
    ensures WellFormed(Normalize(uri)) && SameUpToSpelling(uri, Normalize(uri))
  {
    var t := Render(Units(uri));
    NormalizeSpellsMeaning(uri);
    PassesSpellUnits(uri);
    WellFormedUnits(uri);
    FoldSchemeFacts(Units(uri));
    RenderIsWellFormed(Units(uri));
    RenderIsWellFormed(Meaning(uri));
    SameAsRendered([], uri);
    assert [] + uri == uri && [] + t == t;
    if SchemeEnd(t) > 0 {
      LowerSchemeKeepsEnd(t);
      SameByOneStep(t, Normalize(uri));
      SameTransitive(uri, t, Normalize(uri));
    } else {
      assert Lower(t[..0]) + t[0..] == t;
    }
  }

  /** The normal form identifies two URIs exactly when elementary respellings lead from one to the other. */
  lemma NormalFormIsRespelling(a: Text, b: Text)
    requires WellFormed(a) && WellFormed(b)
    ensures Normalize(a) == Normalize(b) <==> SameUpToSpelling(a, b)
  {
    if Normalize(a) == Normalize(b) {
      SameAsNormalForm(a);
      SameAsNormalForm(b);
      SameSymmetric(b, Normalize(b));
      SameTransitive(a, Normalize(a), b);
    }
    if SameUpToSpelling(a, b) {
      var texts :| Chain(texts) && texts[0] == a && texts[|texts| - 1] == b;
      ChainKeepsMeaning(texts);
      NormalFormIsCanonical(a, b);
    }
  }

  /** An escape of a character that is neither unreserved nor absent from URIs, `%2F` say, never merges with it. */
  lemma ReservedStaysEscaped(before: Text, c: CodePoint, after: Text)
    requires WellFormed(before) && WellFormed(after) && c < 0x80 && Safe(c) && !Unreserved(c) && c != PERCENT
    ensures Normalize(before + Escape(c) + after) != Normalize(before + [c] + after)
  {
    var escaped, plain := before + Escape(c) + after, before + [c] + after;
    EscapeIsWellFormed(Escape(c));
    assert WellFormed([c]);
    WellFormedConcat(before, Escape(c));
    WellFormedConcat(before, [c]);
    WellFormedConcat(before + Escape(c), after);
    WellFormedConcat(before + [c], after);
    UnitsAppend(before + Escape(c), after);
    UnitsAppend(before, Escape(c));
    UnitsAppend(before + [c], after);
    UnitsAppend(before, [c]);
    assert Escape(c)[3..] == [] && [c][1..] == [];
    assert Units(Escape(c)) == [Enc(c)] && Units([c]) == [Lit(c)];
    var i := |Units(before)|;
    assert Units(escaped)[i] == Enc(c) && Units(plain)[i] == Lit(c);
    assert Meaning(escaped)[i].Enc? && Meaning(plain)[i].Lit?;
    NormalFormIsCanonical(escaped, plain);
  }
}
