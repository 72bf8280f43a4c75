/**
 What a URI says once its escapes are resolved and its octets read as UTF-8, and that normal form never confuses two
 URIs that say different things.

 The decoder below is written from the byte ranges of UTF-8 alone; ill-formed octets stay octets.
 */
module UriDecoding {
  import opened Sequences
  import opened UriExactness
  import opened UriNormalForm
  import opened UriText

  // ---------- the character classes, spelled out ----------

  lemma Letters(c: char)
    ensures IsLetter(c as int) <==> c in "ABCDEFGHIJKLMNOPQRSTUVWXYZabcdefghijklmnopqrstuvwxyz"
  {
    Run('A', "ABCDEFGHIJKLMNOPQRSTUVWXYZ", c);
    Run('a', "abcdefghijklmnopqrstuvwxyz", c);
    assert "ABCDEFGHIJKLMNOPQRSTUVWXYZabcdefghijklmnopqrstuvwxyz" ==
           "ABCDEFGHIJKLMNOPQRSTUVWXYZ" + "abcdefghijklmnopqrstuvwxyz";
  }

  lemma Digits(c: char)
    ensures IsDigit(c as int) <==> c in "0123456789"
  {
    Run('0', "0123456789", c);
  }

  /** Consecutive characters are those between the first and the last. */
  lemma Run(first: char, run: string, c: char)
    requires run != [] && forall i :: 0 <= i < |run| ==> run[i] as int == first as int + i
    ensures c in run <==> first as int <= c as int < first as int + |run|
  {
    if first as int <= c as int < first as int + |run| {
      assert run[c as int - first as int] == c;
    }
  }

  lemma Marks(c: char, marks: string)
    ensures Among(c as int, marks) <==> c in marks
  {
  }

  const ALPHANUMERIC := "ABCDEFGHIJKLMNOPQRSTUVWXYZabcdefghijklmnopqrstuvwxyz" + "0123456789"

  /** The characters of sections 2.1, 2.2, 2.3 and 3.1 of RFC 3986, one by one. */
  lemma CharacterClasses(c: char)
    ensures Unreserved(c as int) <==> c in ALPHANUMERIC + "-._~"
    ensures Safe(c as int) <==> c in ALPHANUMERIC + "-._~" + ":/?#[]@!$&'()*+,;=%"
    ensures IsSchemeChar(c as int) <==> c in ALPHANUMERIC + "+.-"
    ensures IsHex(c as int) <==> c in "0123456789" + "ABCDEF" + "abcdef"
  {
    Letters(c);
    Digits(c);
    Run('A', "ABCDEF", c);
    Run('a', "abcdef", c);
    Marks(c, "-._~");
    Marks(c, ":/?#[]@!$&'()*+,;=%");
    Marks(c, "+.-");
    hide IsLetter, IsDigit, Among;
  }

  /** Escapes are written with these digits and read in either case. */
  lemma EscapeDigits(v: nat)
    requires v < 16
    ensures HexDigit(v) == "0123456789ABCDEF"[v] as int
    ensures IsHex("0123456789abcdef"[v] as int) && HexValue("0123456789abcdef"[v] as int) == v
  {
  }

  // ---------- reading octets as UTF-8 ----------

  /** What octets say: a character, or an octet that is part of none. */
  datatype Piece = Char(code: CodePoint) | Raw(octet: Octet)

  predicate Continues(octets: seq<Octet>, i: nat) {
    i < |octets| && 0x80 <= octets[i] <= 0xBF
  }

  /** The code point of a lead octet's payload and its continuations' payloads. */
  function Three(lead: int, b: int, c: int): int {
    (lead - 0xE0) * 4096 + (b - 0x80) * 64 + (c - 0x80)
  }

  function Four(lead: int, b: int, c: int, d: int): int {
    (lead - 0xF0) * 262144 + (b - 0x80) * 4096 + (c - 0x80) * 64 + (d - 0x80)
  }

  /** How many octets the first character takes, 0 when there is none. */
  function LengthAt(octets: seq<Octet>): (n: nat)
    ensures n <= |octets|
  {
    if octets == [] then 0
    else
      var lead := octets[0];
      if lead <= 0x7F then 1
      else if 0xC2 <= lead <= 0xDF && Continues(octets, 1) then 2
      else if 0xE0 <= lead <= 0xEF && Continues(octets, 1) && Continues(octets, 2)
              && Three(lead, octets[1], octets[2]) >= 0x800 then 3
      else if 0xF0 <= lead <= 0xF4 && Continues(octets, 1) && Continues(octets, 2) && Continues(octets, 3)
              && 0x10000 <= Four(lead, octets[1], octets[2], octets[3]) < 0x110000 then 4
      else 0
  }

  function CodeAt(octets: seq<Octet>): CodePoint
    requires LengthAt(octets) > 0
  {
    var lead: int := octets[0];
    match LengthAt(octets)
    case 1 => lead
    case 2 => (lead - 0xC0) * 64 + (octets[1] as int - 0x80)
    case 3 => Three(lead, octets[1], octets[2])
    case _ => Four(lead, octets[1], octets[2], octets[3])
  }

  function DecodeOctets(octets: seq<Octet>): seq<Piece>
    decreases |octets|
  {
    if octets == [] then []
    else if LengthAt(octets) > 0 then [Char(CodeAt(octets))] + DecodeOctets(octets[LengthAt(octets)..])
    else [Raw(octets[0])] + DecodeOctets(octets[1..])
  }

  // ---------- UTF-8 there and back ----------

  lemma SixBits(c: nat)
    ensures c == c / 64 * 64 + c % 64 && c / 4096 == c / 64 / 64 && c / 262144 == c / 4096 / 64
  {
  }

  lemma SixBitsBack(high: nat, low: nat)
    requires low < 64
    ensures (high * 64 + low) / 64 == high && (high * 64 + low) % 64 == low
  {
  }

  lemma Payloads(c: CodePoint)
    ensures c < 0x10000 ==> Three(0xE0 + c / 4096, 0x80 + c / 64 % 64, 0x80 + c % 64) == c
    ensures Four(0xF0 + c / 262144, 0x80 + c / 4096 % 64, 0x80 + c / 64 % 64, 0x80 + c % 64) == c
  {
    SixBits(c);
    SixBits(c / 64);
    SixBits(c / 4096);
  }

  lemma PayloadsBack(lead: nat, b: nat, c: nat, d: nat)
    requires 0x80 <= b < 0xC0 && 0x80 <= c < 0xC0 && 0x80 <= d < 0xC0
    ensures lead >= 0xE0 ==>
            var n := Three(lead, b, c);
            0xE0 + n / 4096 == lead && 0x80 + n / 64 % 64 == b && 0x80 + n % 64 == c
    ensures lead >= 0xF0 ==>
            var n := Four(lead, b, c, d);
            0xF0 + n / 262144 == lead && 0x80 + n / 4096 % 64 == b && 0x80 + n / 64 % 64 == c && 0x80 + n % 64 == d
  {
    if lead >= 0xE0 {
      var high := (lead - 0xE0) * 64 + (b - 0x80);
      SixBitsBack(high, c - 0x80);
      SixBitsBack(lead - 0xE0, b - 0x80);
      SixBits(high * 64 + (c - 0x80));
    }
    if lead >= 0xF0 {
      var top := (lead - 0xF0) * 64 + (b - 0x80);
      var high := top * 64 + (c - 0x80);
      SixBitsBack(high, d - 0x80);
      SixBitsBack(top, c - 0x80);
      SixBitsBack(lead - 0xF0, b - 0x80);
      SixBits(high * 64 + (d - 0x80));
    }
  }

  lemma Utf8Lengths(c: CodePoint)
    ensures |Utf8(c)| == if c < 0x80 then 1 else if c < 0x800 then 2 else if c < 0x10000 then 3 else 4
    ensures LengthAt(Utf8(c)) == |Utf8(c)| && CodeAt(Utf8(c)) == c
    ensures !(0x80 <= Utf8(c)[0] <= 0xBF)
  {
    Payloads(c);
    SixBits(c);
    hide Three, Four;
  }

  /** The octets of a character decode to it, whatever follows. */
  lemma Utf8Decodes(c: CodePoint, rest: seq<Octet>)
    ensures var octets := Utf8(c) + rest;
            LengthAt(octets) == |Utf8(c)| && CodeAt(octets) == c
  {
    Utf8Lengths(c);
    FirstOnly(Utf8(c), rest);
  }

  /** Whether octets begin with a character, and which, depends on the octets it takes. */
  lemma FirstOnly(octets: seq<Octet>, rest: seq<Octet>)
    requires LengthAt(octets) > 0
    ensures LengthAt(octets + rest) == LengthAt(octets) && CodeAt(octets + rest) == CodeAt(octets)
  {
    var n, all := LengthAt(octets), octets + rest;
    assert all[0] == octets[0];
    assert n > 1 ==> all[1] == octets[1];
    assert n > 2 ==> all[2] == octets[2];
    assert n > 3 ==> all[3] == octets[3];
    hide Three, Four;
  }

  /** And only those octets do. */
  lemma Utf8IsTheOnlySpelling(octets: seq<Octet>)
    requires octets != [] && LengthAt(octets) == |octets|
    ensures octets == Utf8(CodeAt(octets))
  {
    match |octets|
    case 1 =>
    case 2 => TwoOctets(octets[0], octets[1]);
    case 3 => ThreeOctets(octets[0], octets[1], octets[2]);
    case _ => FourOctets(octets[0], octets[1], octets[2], octets[3]);
    hide Three, Four, Utf8;
  }

  lemma TwoOctets(lead: Octet, b: Octet)
    requires 0xC2 <= lead <= 0xDF && 0x80 <= b <= 0xBF
    ensures [lead, b] == Utf8((lead as int - 0xC0) * 64 + (b as int - 0x80))
  {
    SixBitsBack(lead as int - 0xC0, b as int - 0x80);
  }

  lemma ThreeOctets(lead: Octet, b: Octet, c: Octet)
    requires 0xE0 <= lead <= 0xEF && 0x80 <= b <= 0xBF && 0x80 <= c <= 0xBF
    requires Three(lead, b, c) >= 0x800
    ensures Three(lead, b, c) < 0x10000 && [lead, b, c] == Utf8(Three(lead, b, c))
  {
    ThreeBelow(lead, b, c);
    PayloadsBack(lead, b, c, 0x80);
    hide Three, Four;
  }

  lemma ThreeBelow(lead: Octet, b: Octet, c: Octet)
    requires 0xE0 <= lead <= 0xEF && 0x80 <= b <= 0xBF && 0x80 <= c <= 0xBF
    ensures Three(lead, b, c) < 0x10000
  {
  }

  lemma FourOctets(lead: Octet, b: Octet, c: Octet, d: Octet)
    requires 0xF0 <= lead <= 0xF4 && 0x80 <= b <= 0xBF && 0x80 <= c <= 0xBF && 0x80 <= d <= 0xBF
    requires 0x10000 <= Four(lead, b, c, d) < 0x110000
    ensures [lead, b, c, d] == Utf8(Four(lead, b, c, d))
  {
    PayloadsBack(lead, b, c, d);
    hide Three, Four;
  }

  // ---------- what a URI says ----------

  /** The octets of a URI: escapes resolved, other characters in UTF-8. */
  function Octets(uri: Text): seq<Octet>
    decreases |uri|
  {
    if uri == [] then []
    else if IsEscape(uri) then [EscapeValue(uri)] + Octets(uri[3..])
    else Utf8(uri[0]) + Octets(uri[1..])
  }

  function DecodedText(uri: Text): seq<Piece> {
    DecodeOctets(Octets(uri))
  }

  /** Text without escapes says itself. */
  lemma {:induction false} PlainTextDecodes(uri: Text)
    requires PERCENT !in uri
    ensures |DecodedText(uri)| == |uri| && forall i :: 0 <= i < |uri| ==> DecodedText(uri)[i] == Char(uri[i])
  {
    if uri != [] {
      PlainTextDecodes(uri[1..]);
      Utf8Decodes(uri[0], Octets(uri[1..]));
      DropPrefix(Utf8(uri[0]), Octets(uri[1..]));
      hide Utf8, LengthAt, CodeAt;
    }
  }

  /** The octets of units: a literal in UTF-8, an escape as it is. */
  function UnitOctets(units: seq<Unit>): seq<Octet> {
    if units == [] then []
    else (match units[0] case Lit(c) => Utf8(c) case Enc(b) => [b]) + UnitOctets(units[1..])
  }

  lemma {:induction false} UnitOctetsAppend(a: seq<Unit>, b: seq<Unit>)
    ensures UnitOctets(a + b) == UnitOctets(a) + UnitOctets(b)
  {
    if a == [] {
      assert a + b == b;
    } else {
      assert (a + b)[1..] == a[1..] + b;
      UnitOctetsAppend(a[1..], b);
      Regroup(match a[0] case Lit(c) => Utf8(c) case Enc(o) => [o], UnitOctets(a[1..]), UnitOctets(b));
      hide Utf8;
    }
  }

  lemma {:induction false} UnitOctetsOfEncoded(octets: seq<Octet>)
    ensures UnitOctets(EncAll(octets)) == octets
  {
    if octets != [] {
      UnitOctetsOfEncoded(octets[1..]);
    }
  }

  /** Reading the units of a URI keeps its octets. */
  lemma {:induction false} UnitsKeepOctets(uri: Text)
    ensures UnitOctets(Units(uri)) == Octets(uri)
    decreases |uri|
  {
    if uri == [] {
    } else if IsEscape(uri) {
      UnitsKeepOctets(uri[3..]);
    } else if Safe(uri[0]) {
      UnitsKeepOctets(uri[1..]);
    } else {
      UnitsKeepOctets(uri[1..]);
      UnitOctetsAppend(EncAll(Utf8(uri[0])), Units(uri[1..]));
      UnitOctetsOfEncoded(Utf8(uri[0]));
    }
    hide Utf8, EscapeValue;
  }

  // ---------- up to the case of the scheme ----------

  /** The letters before the first colon in lower case. */
  function FoldCase(pieces: seq<Piece>): (folded: seq<Piece>)
    ensures |folded| == |pieces|
  {
    var colon := FirstColon(pieces);
    seq(|pieces|, i requires 0 <= i < |pieces| =>
      if i < colon < |pieces| then LowerPiece(pieces[i]) else pieces[i])
  }

  /** Index of the first colon, or the length. */
  function FirstColon(pieces: seq<Piece>): (i: nat)
    ensures i <= |pieces| && (i < |pieces| ==> pieces[i] == Char(COLON))
    ensures forall k :: 0 <= k < i ==> pieces[k] != Char(COLON)
  {
    if pieces == [] || pieces[0] == Char(COLON) then 0 else FirstColon(pieces[1..]) + 1
  }

  function LowerPiece(p: Piece): Piece {
    match p
    case Char(c) => Char(LowerChar(c))
    case Raw(_) => p
  }

  lemma {:induction false} LiteralsDecode(lits: seq<Unit>, rest: seq<Octet>)
    requires forall u <- lits :: u.Lit?
    ensures DecodeOctets(UnitOctets(lits) + rest) == CharsOf(lits) + DecodeOctets(rest)
  {
    if lits == [] {
      assert UnitOctets(lits) + rest == rest && CharsOf(lits) + DecodeOctets(rest) == DecodeOctets(rest);
    } else {
      var c, more := lits[0].code, UnitOctets(lits[1..]) + rest;
      LiteralsDecode(lits[1..], rest);
      Regroup(Utf8(c), UnitOctets(lits[1..]), rest);
      Utf8Decodes(c, more);
      DropPrefix(Utf8(c), more);
      Regroup([Char(c)], CharsOf(lits[1..]), DecodeOctets(rest));
      assert CharsOf(lits) == [Char(c)] + CharsOf(lits[1..]);
      hide Utf8, LengthAt, CodeAt, CharsOf;
    }
  }

  function CharsOf(lits: seq<Unit>): seq<Piece>
    requires forall u <- lits :: u.Lit?
  {
    seq(|lits|, i requires 0 <= i < |lits| => Char(lits[i].code))
  }

  lemma FoldAgrees(a: seq<Piece>, b: seq<Piece>, rest: seq<Piece>)
    requires |a| == |b| && a != [] && a[|a| - 1] == Char(COLON) && b[|b| - 1] == Char(COLON)
    requires forall i :: 0 <= i < |a| - 1 ==> a[i] != Char(COLON) && b[i] != Char(COLON)
    requires forall i :: 0 <= i < |a| ==> LowerPiece(a[i]) == LowerPiece(b[i])
    ensures FoldCase(a + rest) == FoldCase(b + rest)
  {
    assert FirstColon(a + rest) == |a| - 1 by {
      assert (a + rest)[|a| - 1] == Char(COLON);
      assert forall i :: 0 <= i < |a| - 1 ==> (a + rest)[i] == a[i];
    }
    assert FirstColon(b + rest) == |b| - 1 by {
      assert (b + rest)[|b| - 1] == Char(COLON);
      assert forall i :: 0 <= i < |b| - 1 ==> (b + rest)[i] == b[i];
    }
  }

  /** Folding the scheme of the units changes nothing but the case of letters before the first colon. */
  lemma FoldSchemeSaysTheSame(units: seq<Unit>)
    ensures FoldCase(DecodeOctets(UnitOctets(FoldScheme(units)))) == FoldCase(DecodeOctets(UnitOctets(units)))
  {
    hide *;
    var end, folded := SchemeUnits(units), FoldScheme(units);
    if end == 0 {
      NoSchemeKept(units);
    } else {
      var head, lowered, rest := units[..end], folded[..end], units[end..];
      FoldSplit(units);
      UnitOctetsAppend(head, rest);
      UnitOctetsAppend(lowered, rest);
      LiteralsDecode(head, UnitOctets(rest));
      LiteralsDecode(lowered, UnitOctets(rest));
      SchemeChars(units);
      FoldAgrees(CharsOf(head), CharsOf(lowered), DecodeOctets(UnitOctets(rest)));
    }
  }

  lemma NoSchemeKept(units: seq<Unit>)
    requires SchemeUnits(units) == 0
    ensures FoldScheme(units) == units
  {
    hide SchemeUnits;
  }

  /** The scheme and its colon are literals, before and after folding, and nothing else changes. */
  lemma FoldSplit(units: seq<Unit>)
    ensures var end, folded := SchemeUnits(units), FoldScheme(units);
            && units == units[..end] + units[end..] && folded == folded[..end] + units[end..]
            && (forall u <- units[..end] :: u.Lit?) && (forall u <- folded[..end] :: u.Lit?)
  {
    hide SchemeUnits;
    assert FoldScheme(units)[SchemeUnits(units)..] == units[SchemeUnits(units)..];
  }

  lemma SchemeChars(units: seq<Unit>)
    requires SchemeUnits(units) > 0
    ensures var end, folded := SchemeUnits(units), FoldScheme(units);
            && (forall u <- units[..end] :: u.Lit?) && (forall u <- folded[..end] :: u.Lit?)
            && var a, b := CharsOf(units[..end]), CharsOf(folded[..end]);
               && |a| == |b| && a != [] && a[|a| - 1] == Char(COLON) && b[|b| - 1] == Char(COLON)
               && (forall i :: 0 <= i < |a| - 1 ==> a[i] != Char(COLON) && b[i] != Char(COLON))
               && forall i :: 0 <= i < |a| ==> LowerPiece(a[i]) == LowerPiece(b[i])
  {
    FoldSplit(units);
    SchemeShape(units);
    hide SchemeUnits, FoldScheme, LowerChar;
  }

  lemma SchemeShape(units: seq<Unit>)
    requires SchemeUnits(units) > 0
    ensures var end, folded := SchemeUnits(units), FoldScheme(units);
            && units[end - 1] == Lit(COLON) == folded[end - 1]
            && forall i :: 0 <= i < end - 1 ==>
                 units[i].Lit? && folded[i].Lit? && units[i].code != COLON && folded[i].code != COLON &&
                 LowerChar(units[i].code) == LowerChar(folded[i].code)
  {
    SafeFacts();
  }

  // ---------- the law ----------

  /** URIs with the same normal form say the same, up to the case of the scheme. */
  lemma EqualFormsSayTheSame(a: Text, b: Text)
    requires WellFormed(a) && WellFormed(b) && Normalize(a) == Normalize(b)
    ensures FoldCase(DecodedText(a)) == FoldCase(DecodedText(b))
  {
    NormalFormIsCanonical(a, b);
    UnitsKeepOctets(a);
    UnitsKeepOctets(b);
    FoldSchemeSaysTheSame(Units(a));
    FoldSchemeSaysTheSame(Units(b));
    hide Normalize, Units, FoldScheme, Octets, DecodeOctets, FoldCase, UnitOctets;
  }

  // ---------- distinct characters stay apart ----------

  /** Decoding restarts wherever no continuation octet follows. */
  lemma {:induction false} DecodeSplits(a: seq<Octet>, b: seq<Octet>)
    requires b == [] || !(0x80 <= b[0] <= 0xBF)
    ensures DecodeOctets(a + b) == DecodeOctets(a) + DecodeOctets(b)
    decreases |a|
  {
    if a == [] {
      assert a + b == b;
    } else {
      SameFirst(a, b);
      var n := if LengthAt(a) > 0 then LengthAt(a) else 1;
      SplitAppended(a, b, n);
      DecodeSplits(a[n..], b);
      Regroup(if LengthAt(a) > 0 then [Char(CodeAt(a))] else [Raw(a[0])], DecodeOctets(a[n..]), DecodeOctets(b));
      hide LengthAt, CodeAt;
    }
  }

  lemma SameFirst(a: seq<Octet>, b: seq<Octet>)
    requires a != [] && (b == [] || !(0x80 <= b[0] <= 0xBF))
    ensures (a + b)[0] == a[0] && LengthAt(a + b) == LengthAt(a)
    ensures LengthAt(a) > 0 ==> CodeAt(a + b) == CodeAt(a)
  {
    if LengthAt(a) > 0 {
      FirstOnly(a, b);
    } else {
      var all := a + b;
      assert forall i :: 0 <= i < |a| ==> all[i] == a[i];
      assert forall i :: |a| <= i < |all| ==> all[i] == b[i - |a|];
      assert !Continues(all, |a|);
    }
    hide Three, Four;
  }

  lemma {:induction false} OctetsAppend(a: Text, b: Text)
    requires WellFormed(a)
    ensures Octets(a + b) == Octets(a) + Octets(b)
  {
    UnitsKeepOctets(a + b);
    UnitsKeepOctets(a);
    UnitsKeepOctets(b);
    UnitsAppend(a, b);
    UnitOctetsAppend(Units(a), Units(b));
    hide Octets, Units, UnitOctets;
  }

  /** A character between well-formed text is said where it stands. */
  lemma CharacterIsSaid(before: Text, c: CodePoint, after: Text)
    requires WellFormed(before) && WellFormed(after) && c != PERCENT
    ensures DecodedText(before + [c] + after) ==
            DecodedText(before) + [Char(c)] + DecodeOctets(Octets(after))
  {
    var rest := Octets(after);
    Regroup(before, [c], after);
    OctetsAppend(before, [c] + after);
    assert ([c] + after)[1..] == after;
    assert Octets([c] + after) == Utf8(c) + rest;
    Utf8Decodes(c, rest);
    Utf8Lengths(c);
    assert (Utf8(c) + rest)[0] == Utf8(c)[0];
    DropPrefix(Utf8(c), rest);
    assert DecodeOctets(Utf8(c) + rest) == [Char(c)] + DecodeOctets(rest);
    hide Octets, Utf8, LengthAt, CodeAt, DecodeOctets;
    DecodeSplits(Octets(before), Utf8(c) + rest);
    Regroup(DecodedText(before), [Char(c)], DecodeOctets(rest));
  }

  /**
   Two URIs that differ in one character never share their normal form, unless it is a letter before the first colon.
   */
  lemma DistinctCharactersStayApart(before: Text, c: CodePoint, d: CodePoint, after: Text)
    requires WellFormed(before) && WellFormed(after)
    requires c != PERCENT && d != PERCENT
    requires (!IsLetter(c) && !IsLetter(d)) || Char(COLON) in DecodedText(before)
    requires Normalize(before + [c] + after) == Normalize(before + [d] + after)
    ensures c == d
  {
    OneCharacter(c);
    OneCharacter(d);
    WellFormedConcat(before, [c]);
    WellFormedConcat(before, [d]);
    WellFormedConcat(before + [c], after);
    WellFormedConcat(before + [d], after);
    EqualFormsSayTheSame(before + [c] + after, before + [d] + after);
    CharacterIsSaid(before, c, after);
    CharacterIsSaid(before, d, after);
    var a, b, n := DecodedText(before + [c] + after), DecodedText(before + [d] + after), |DecodedText(before)|;
    assert a[n] == Char(c) && b[n] == Char(d);
    hide Normalize, Octets, DecodeOctets, WellFormed;
    NotFolded(a, n);
    NotFolded(b, n);
    if Char(COLON) in DecodedText(before) {
      var k :| 0 <= k < n && DecodedText(before)[k] == Char(COLON);
      assert a[k] == Char(COLON) && b[k] == Char(COLON);
    }
  }

  /** Folding leaves alone what is no letter and what stands behind a colon. */
  lemma NotFolded(pieces: seq<Piece>, n: nat)
    requires n < |pieces| && pieces[n].Char?
    ensures !IsLetter(pieces[n].code) || (exists k :: 0 <= k < n && pieces[k] == Char(COLON)) ==>
            FoldCase(pieces)[n] == pieces[n]
  {
  }

  lemma OneCharacter(c: CodePoint)
    requires c != PERCENT
    ensures WellFormed([c])
  {
  }

  /** The escapes of a character that a URI cannot carry are the character: the octets that decode to it. */
  lemma EscapedCharacterIsTheCharacter(before: Text, octets: seq<Octet>, after: Text)
    requires WellFormed(before) && WellFormed(after) && octets != [] && LengthAt(octets) == |octets|
    requires !Safe(CodeAt(octets))
    ensures Normalize(before + Escapes(octets) + after) == Normalize(before + [CodeAt(octets)] + after)
  {
    var c := CodeAt(octets);
    Utf8IsTheOnlySpelling(octets);
    SafeFacts();
    OneCharacter(c);
    EscapesAreWellFormed(octets);
    assert Respelling([c], Escapes(octets));
    hide Normalize, Utf8, CodeAt, LengthAt, Escapes, Respelling, Safe;
    WellFormedConcat(before, [c]);
    WellFormedConcat(before, Escapes(octets));
    WellFormedConcat(before + [c], after);
    WellFormedConcat(before + Escapes(octets), after);
    SameByRespelling(before, [c], Escapes(octets), after);
    NormalFormIsRespelling(before + [c] + after, before + Escapes(octets) + after);
  }

  // ---------- the scheme ----------

  /** Letter by letter, the same up to case. */
  predicate SameLetters(a: Text, b: Text) {
    && |a| == |b|
    && forall i :: 0 <= i < |a| ==>
         || a[i] == b[i]
         || (65 <= a[i] <= 90 && b[i] == a[i] + 32)
         || (65 <= b[i] <= 90 && a[i] == b[i] + 32)
  }

  /** Two spellings of a scheme that differ in case are one. */
  lemma SchemeCaseIsFolded(a: Text, b: Text, rest: Text)
    requires a != [] && IsLetter(a[0]) && SameLetters(a, b) && WellFormed(rest)
    requires forall i :: 0 <= i < |a| ==> IsSchemeChar(a[i])
    ensures Normalize(a + [COLON] + rest) == Normalize(b + [COLON] + rest)
  {
    SafeFacts();
    var x, y, n := a + [COLON] + rest, b + [COLON] + rest, |a|;
    forall i | 0 <= i < n ensures LowerChar(a[i]) == LowerChar(b[i]) && IsSchemeChar(b[i]) {
    }
    SchemeRunIs(x, n);
    SchemeRunIs(y, n);
    assert SchemeEnd(x) == n + 1 && IsLetter(b[0]);
    assert x[..n + 1] == a + [COLON] && y[..n + 1] == b + [COLON] && x[n + 1..] == rest == y[n + 1..];
    SchemeIsWellFormed(a);
    SchemeIsWellFormed(b);
    WellFormedConcat(a + [COLON], rest);
    WellFormedConcat(b + [COLON], rest);
    assert SchemeRecased(x, y);
    hide Normalize, SchemeRecased, WellFormed;
    SameByOneStep(x, y);
    NormalFormIsRespelling(x, y);
  }

  lemma SchemeIsWellFormed(scheme: Text)
    requires forall i :: 0 <= i < |scheme| ==> IsSchemeChar(scheme[i])
    ensures WellFormed(scheme + [COLON])
  {
    SafeFacts();
  }
}
