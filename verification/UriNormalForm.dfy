/**
 What `normalize_uri` promises: one spelling for each meaning of a URI (sections 6.2.2.1 and 6.2.2.2 of RFC 3986).

 A URI is read as units: a character that stands for itself, or an octet that must stay escaped.  Normalization
 is exactly "read the units, fold the scheme, spell them again".
 */
module UriNormalForm {
  import opened Sequences
  import opened UriText

  datatype Unit = Lit(code: CodePoint) | Enc(octet: Octet)

  function EncAll(octets: seq<Octet>): seq<Unit> {
    if octets == [] then [] else [Enc(octets[0])] + EncAll(octets[1..])
  }

  function EscapeUnit(b: Octet): Unit {
    if Unreserved(b) then Lit(b) else Enc(b)
  }

  function Units(uri: Text): seq<Unit> {
    if uri == [] then []
    else if IsEscape(uri) then [EscapeUnit(EscapeValue(uri))] + Units(uri[3..])
    else if Safe(uri[0]) then [Lit(uri[0])] + Units(uri[1..])
    else EncAll(Utf8(uri[0])) + Units(uri[1..])
  }

  function RenderUnit(u: Unit): Text {
    match u
    case Lit(c) => [c]
    case Enc(b) => Escape(b)
  }

  function Render(units: seq<Unit>): Text {
    if units == [] then [] else RenderUnit(units[0]) + Render(units[1..])
  }

  /** Units as normalization leaves them. */
  predicate Proper(u: Unit) {
    match u
    case Lit(c) => Safe(c)
    case Enc(b) => !Unreserved(b)
  }

  /** Every `%` starts a two-digit escape. */
  predicate WellFormed(uri: Text) {
    forall i :: 0 <= i < |uri| && uri[i] == PERCENT ==> IsEscape(uri[i..])
  }

  // ---------- the passes are: read the units, spell them again ----------

  lemma {:induction false} EncAllRender(octets: seq<Octet>)
    ensures Render(EncAll(octets)) == Escapes(octets)
    ensures (forall b <- octets :: !Unreserved(b)) ==> forall u <- EncAll(octets) :: u.Enc? && Proper(u)
  {
    if octets != [] {
      EncAllRender(octets[1..]);
    }
  }

  lemma {:induction false} RenderAppend(a: seq<Unit>, b: seq<Unit>)
    ensures Render(a + b) == Render(a) + Render(b)
  {
    if a == [] {
      assert a + b == b;
    } else {
      assert (a + b)[1..] == a[1..] + b;
      RenderAppend(a[1..], b);
    }
  }

  lemma {:induction false} UnitsProper(uri: Text)
    ensures forall u <- Units(uri) :: Proper(u)
    decreases |uri|
  {
    if uri == [] {
    } else if IsEscape(uri) {
      UnitsProper(uri[3..]);
      var b := EscapeValue(uri);
      assert Unreserved(b) ==> Safe(b);
    } else if Safe(uri[0]) {
      UnitsProper(uri[1..]);
    } else {
      UnitsProper(uri[1..]);
      UnsafeOctets(uri[0]);
      EncAllRender(Utf8(uri[0]));
    }
  }

  lemma SubEscapesKeeps(b: Octet, rest: Text)
    requires !Unreserved(b)
    ensures SubEscapes(Escape(b) + rest) == Escape(b) + SubEscapes(rest)
  {
    var t := Escape(b) + rest;
    assert t[0] == Escape(b)[0] && t[1] == Escape(b)[1] && t[2] == Escape(b)[2];
    assert t[3..] == rest;
    assert EscapeValue(t) == EscapeValue(Escape(b));
  }

  lemma {:induction false} SubEscapesOfEscapes(octets: seq<Octet>, rest: Text)
    requires forall b <- octets :: !Unreserved(b)
    ensures SubEscapes(Escapes(octets) + rest) == Escapes(octets) + SubEscapes(rest)
  {
    if octets == [] {
      assert Escapes(octets) + rest == rest;
    } else {
      var b, tail := octets[0], Escapes(octets[1..]);
      assert b in octets;
      SubEscapesOfEscapes(octets[1..], rest);
      SubEscapesKeeps(b, tail + rest);
      assert Escapes(octets) == Escape(b) + tail;
      hide SubEscapes, Escapes, Escape;
      Regroup(Escape(b), tail, rest);
      Regroup(Escape(b), tail, SubEscapes(rest));
    }
  }

  /** Quoting neither makes nor breaks an escape at the front. */
  lemma QuoteFront(uri: Text)
    requires uri != []
    ensures Safe(uri[0]) ==> Quote(uri) == [uri[0]] + Quote(uri[1..])
    ensures Safe(uri[0]) ==> (IsEscape(uri) <==> IsEscape(Quote(uri)))
    ensures IsEscape(uri) ==> Quote(uri) == uri[..3] + Quote(uri[3..])
  {
    SafeFacts();
    if Safe(uri[0]) && uri[0] == PERCENT {
      var q := Quote(uri);
      assert q == [PERCENT] + Quote(uri[1..]);
      if |uri| > 1 && IsHex(uri[1]) {
        HexIsSafe(uri[1]);
        assert Quote(uri[1..]) == [uri[1]] + Quote(uri[1..][1..]);
        assert uri[1..][1..] == uri[2..];
        if |uri| > 2 && IsHex(uri[2]) {
          HexIsSafe(uri[2]);
          assert Quote(uri[2..]) == [uri[2]] + Quote(uri[2..][1..]);
          assert uri[2..][1..] == uri[3..];
          assert q == uri[..3] + Quote(uri[3..]);
        } else if |uri| > 2 {
          assert Quote(uri[2..])[0] == uri[2] || Quote(uri[2..])[0] == PERCENT;
        }
      } else if |uri| > 1 {
        assert Quote(uri[1..])[0] == uri[1] || Quote(uri[1..])[0] == PERCENT;
      }
    }
  }

  /** The substitution of escapes over the quoted text spells exactly the units. */
  lemma {:induction false} PassesSpellUnits(uri: Text)
    ensures SubEscapes(Quote(uri)) == Render(Units(uri))
    decreases |uri|
  {
    if uri == [] {
      return;
    }
    QuoteFront(uri);
    var q := Quote(uri);
    if IsEscape(uri) {
      SafeFacts();
      assert q[3..] == Quote(uri[3..]);
      assert EscapeValue(q) == EscapeValue(uri);
      PassesSpellUnits(uri[3..]);
    } else if Safe(uri[0]) {
      assert q[1..] == Quote(uri[1..]);
      PassesSpellUnits(uri[1..]);
    } else {
      UnsafeOctets(uri[0]);
      SubEscapesOfEscapes(Utf8(uri[0]), Quote(uri[1..]));
      PassesSpellUnits(uri[1..]);
      EncAllRender(Utf8(uri[0]));
      RenderAppend(EncAll(Utf8(uri[0])), Units(uri[1..]));
    }
  }

  /** Spelling units and reading them back changes nothing, when no unit is a bare `%`. */
  lemma {:induction false} UnitsOfRender(units: seq<Unit>)
    requires forall u <- units :: Proper(u) && u != Lit(PERCENT)
    ensures Units(Render(units)) == units
  {
    if units != [] {
      UnitsOfRender(units[1..]);
      var t := Render(units);
      assert units[0] in units;
      assert Proper(units[0]) && units[0] != Lit(PERCENT);
      match units[0] {
        case Lit(c) =>
          assert t[0] == c;
          assert t[1..] == Render(units[1..]);
          assert Units(t) == [Lit(c)] + Units(t[1..]);
        case Enc(b) =>
          assert t[0] == Escape(b)[0] && t[1] == Escape(b)[1] && t[2] == Escape(b)[2];
          assert t[3..] == Render(units[1..]);
          assert EscapeValue(t) == EscapeValue(Escape(b));
          assert Units(t) == [Enc(b)] + Units(t[3..]);
      }
      assert units == [units[0]] + units[1..];
    }
  }

  lemma WellFormedTail(uri: Text, k: nat)
    requires WellFormed(uri) && k <= |uri|
    ensures WellFormed(uri[k..])
  {
    var tail := uri[k..];
    forall i | 0 <= i < |tail| && tail[i] == PERCENT ensures IsEscape(tail[i..]) {
      assert tail[i] == uri[k + i];
      assert IsEscape(uri[k + i..]);
      assert tail[i..] == uri[k + i..];
    }
  }

  lemma {:induction false} WellFormedUnits(uri: Text)
    requires WellFormed(uri)
    ensures forall u <- Units(uri) :: u != Lit(PERCENT)
    decreases |uri|
  {
    if uri == [] {
      return;
    }
    SafeFacts();
    assert uri[0..] == uri;
    if IsEscape(uri) {
      WellFormedTail(uri, 3);
      WellFormedUnits(uri[3..]);
    } else if Safe(uri[0]) {
      WellFormedTail(uri, 1);
      WellFormedUnits(uri[1..]);
    } else {
      WellFormedTail(uri, 1);
      WellFormedUnits(uri[1..]);
      UnsafeOctets(uri[0]);
      EncAllRender(Utf8(uri[0]));
    }
  }

  // ---------- the scheme ----------

  predicate IsSchemeUnit(u: Unit) {
    u.Lit? && IsSchemeChar(u.code)
  }

  function SchemeUnitRun(units: seq<Unit>): (n: nat)
    ensures n <= |units|
    ensures forall i :: 0 <= i < n ==> IsSchemeUnit(units[i])
    ensures n < |units| ==> !IsSchemeUnit(units[n])
  {
    if units == [] || !IsSchemeUnit(units[0]) then 0 else SchemeUnitRun(units[1..]) + 1
  }

  /** Number of units in the scheme and its colon, or 0. */
  function SchemeUnits(units: seq<Unit>): (end: nat)
    ensures end <= |units|
    ensures forall i :: 0 <= i < end ==> units[i].Lit?
  {
    var n := SchemeUnitRun(units);
    if n > 0 && IsLetter(units[0].code) && n < |units| && units[n] == Lit(COLON) then n + 1 else 0
  }

  function FoldScheme(units: seq<Unit>): (folded: seq<Unit>)
    ensures |folded| == |units|
    ensures forall i :: 0 <= i < |units| ==>
      folded[i] == if i < SchemeUnits(units) then Lit(LowerChar(units[i].code)) else units[i]
  {
    seq(|units|, i requires 0 <= i < |units| =>
      if i < SchemeUnits(units) then Lit(LowerChar(units[i].code)) else units[i])
  }

  /** What a URI means, up to the spellings normalization unifies. */
  function Meaning(uri: Text): seq<Unit> {
    FoldScheme(Units(uri))
  }

  lemma {:induction false} RenderLits(units: seq<Unit>, n: nat)
    requires n <= |units| && forall i :: 0 <= i < n ==> units[i].Lit?
    ensures n <= |Render(units)|
    ensures forall i :: 0 <= i < n ==> Render(units)[i] == units[i].code
    ensures Render(units)[n..] == Render(units[n..])
  {
    if n > 0 {
      RenderLits(units[1..], n - 1);
      assert units[1..][n - 1..] == units[n..];
      assert Render(units)[1..] == Render(units[1..]);
      assert Render(units)[n..] == Render(units)[1..][n - 1..];
      forall i | 0 <= i < n ensures Render(units)[i] == units[i].code {
        if i > 0 {
          assert Render(units)[i] == Render(units[1..])[i - 1];
        }
      }
    }
  }

  lemma SchemeRunIs(t: Text, n: nat)
    requires n <= |t| && forall i :: 0 <= i < n ==> IsSchemeChar(t[i])
    requires n < |t| ==> !IsSchemeChar(t[n])
    ensures SchemeRun(t) == n
  {
  }

  /** The scheme of the spelling is the scheme of the units. */
  lemma SchemeEndOfRender(units: seq<Unit>)
    ensures SchemeEnd(Render(units)) == SchemeUnits(units)
  {
    var n := SchemeUnitRun(units);
    var t := Render(units);
    RenderLits(units, n);
    SafeFacts();
    if n < |units| {
      assert t[n..] == RenderUnit(units[n]) + Render(units[n + 1..]) by {
        assert units[n..][1..] == units[n + 1..];
      }
      assert t[n] == RenderUnit(units[n])[0];
    } else {
      assert t[n..] == [];
    }
    SchemeRunIs(t, n);
  }

  lemma LoweredPrefix(t: Text, lowered: Text, end: nat)
    requires end <= |t| && end <= |lowered| && lowered[end..] == t[end..]
    requires forall i :: 0 <= i < end ==> lowered[i] == LowerChar(t[i])
    ensures lowered == Lower(t[..end]) + t[end..]
  {
    assert lowered == lowered[..end] + lowered[end..];
    assert lowered[..end] == Lower(t[..end]);
  }

  lemma LowerSchemeOfRender(units: seq<Unit>)
    ensures LowerScheme(Render(units)) == Render(FoldScheme(units))
  {
    var end := SchemeUnits(units);
    var folded := FoldScheme(units);
    SchemeEndOfRender(units);
    RenderLits(units, end);
    RenderLits(folded, end);
    hide Render, SchemeUnits, SchemeEnd, FoldScheme;
    assert folded[end..] == units[end..];
    LoweredPrefix(Render(units), Render(folded), end);
  }

  /** Normalization spells the meaning. */
  lemma NormalizeSpellsMeaning(uri: Text)
    ensures Normalize(uri) == Render(Meaning(uri))
  {
    PassesSpellUnits(uri);
    LowerSchemeOfRender(Units(uri));
  }

  lemma SchemeUnitRunIs(units: seq<Unit>, n: nat)
    requires n <= |units| && forall i :: 0 <= i < n ==> IsSchemeUnit(units[i])
    requires n < |units| ==> !IsSchemeUnit(units[n])
    ensures SchemeUnitRun(units) == n
  {
  }

  lemma FoldSchemeFacts(units: seq<Unit>)
    ensures SchemeUnits(FoldScheme(units)) == SchemeUnits(units)
    ensures FoldScheme(FoldScheme(units)) == FoldScheme(units)
    ensures (forall u <- units :: Proper(u)) ==> forall u <- FoldScheme(units) :: Proper(u)
    ensures Lit(PERCENT) !in units ==> Lit(PERCENT) !in FoldScheme(units)
  {
    var folded, n := FoldScheme(units), SchemeUnitRun(units);
    SafeFacts();
    if SchemeUnits(units) > 0 {
      forall i | 0 <= i < n ensures IsSchemeUnit(folded[i]) && folded[i] != Lit(PERCENT) {
        assert IsSchemeUnit(units[i]);
      }
      assert folded[n] == Lit(COLON);
      SchemeUnitRunIs(folded, n);
    } else {
      assert folded == units;
    }
    forall u | u in folded ensures (forall u <- units :: Proper(u)) ==> Proper(u) {
      var i :| 0 <= i < |folded| && folded[i] == u;
      assert units[i] in units;
      if i < n && SchemeUnits(units) > 0 {
        SchemeCharIsSafe(folded[i].code);
      }
    }
  }

  // ---------- idempotent and canonical ----------

  lemma MeaningOfNormalForm(uri: Text)
    requires WellFormed(uri)
    ensures Units(Normalize(uri)) == Meaning(uri)
    ensures Meaning(Normalize(uri)) == Meaning(uri)
  {
    NormalizeSpellsMeaning(uri);
    UnitsProper(uri);
    WellFormedUnits(uri);
    FoldSchemeFacts(Units(uri));
    UnitsOfRender(Meaning(uri));
  }

  /** Normalizing twice is normalizing once. */
  lemma NormalizeIdempotent(uri: Text)
    requires WellFormed(uri)
    ensures Normalize(Normalize(uri)) == Normalize(uri)
  {
    MeaningOfNormalForm(uri);
    NormalizeSpellsMeaning(uri);
    NormalizeSpellsMeaning(Normalize(uri));
  }

  /** Two URIs share their normal form exactly when they share their meaning. */
  lemma NormalFormIsCanonical(a: Text, b: Text)
    requires WellFormed(a) && WellFormed(b)
    ensures Normalize(a) == Normalize(b) <==> Meaning(a) == Meaning(b)
  {
    NormalizeSpellsMeaning(a);
    NormalizeSpellsMeaning(b);
    MeaningOfNormalForm(a);
    MeaningOfNormalForm(b);
  }
}
