/** What a numeric character reference is, character by character, and what ordinary ones decode to. */
module CharRefForms {
  import opened CharRefs
  import opened FreshNames
  import opened Sequences

  const DECIMALS := "0123456789"
  const HEXADECIMALS := "0123456789abcdefABCDEF"

  ghost predicate AllIn(s: string, chars: string) {
    forall c <- s :: c in chars
  }

  /** A reference as the pattern reads it: `x`, `X` or no marker, all the digits, the semicolon if there is one. */
  ghost predicate Spells(text: string, marker: string, digits: string, semicolon: string) {
    && (marker == "" || marker == "x" || marker == "X")
    && digits != "" && AllIn(digits, if marker == "" then DECIMALS else HEXADECIMALS)
    && (semicolon == "" || semicolon == ";")
    && var written := "&#" + marker + digits + semicolon;
       && written <= text
       && (semicolon == "" && |written| < |text| ==>
             text[|written|] != ';' && text[|written|] !in (if marker == "" then DECIMALS else HEXADECIMALS))
  }

  lemma DigitsAre(c: char)
    ensures IsDigit(c, false) <==> c in "0123456789"
    ensures IsDigit(c, true) <==> c in "0123456789abcdefABCDEF"
  {
    if '0' <= c <= '9' {
      assert "0123456789"[c as int - '0' as int] == c;
      assert "0123456789abcdefABCDEF"[c as int - '0' as int] == c;
    }
    if 'a' <= c <= 'f' {
      assert "0123456789abcdefABCDEF"[c as int - 'a' as int + 10] == c;
    }
    if 'A' <= c <= 'F' {
      assert "0123456789abcdefABCDEF"[c as int - 'A' as int + 16] == c;
    }
  }

  /** A text starts with a reference exactly when it is spelled as one. */
  lemma RefAtExactly(text: string, marker: string, digits: string, semicolon: string)
    ensures RefAt(text) == Ref(marker, digits, semicolon) <==> Spells(text, marker, digits, semicolon)
  {
    forall c
      ensures IsDigit(c, false) <==> c in DECIMALS
      ensures IsDigit(c, true) <==> c in HEXADECIMALS
    {
      DigitsAre(c);
    }
    var r := Ref(marker, digits, semicolon);
    if Spells(text, marker, digits, semicolon) {
      var rest := text[|r.Text()|..];
      assert text == r.Text() + rest;
      assert rest != [] ==> rest[0] == text[|r.Text()|];
      RefParses(r, rest);
    }
    if RefAt(text) == r {
      ParsedRef(text);
      var rest := text[|r.Text()|..];
      assert rest != [] ==> rest[0] == text[|r.Text()|];
      SemicolonIsTaken(text);
    }
    hide RefAt;
  }

  lemma SemicolonIsTaken(text: string)
    requires RefAt(text).Ref?
    ensures var r := RefAt(text);
            r.semicolon == "" && |r.Text()| < |text| ==> text[|r.Text()|] != ';'
  {
  }

  // ---------- what shortening does to it ----------

  ghost predicate Zeros(s: string) {
    forall c <- s :: c == '0'
  }

  lemma {:induction false} SignificantIs(zeros: string, digits: string)
    requires Zeros(zeros) && digits != "" && (digits[0] != '0' || |digits| == 1)
    ensures Significant(zeros + digits) == digits
  {
    if zeros == "" {
      assert zeros + digits == digits;
    } else {
      assert zeros[0] in zeros && forall c <- zeros[1..] :: c in zeros;
      SignificantIs(zeros[1..], digits);
      assert (zeros + digits)[1..] == zeros[1..] + digits;
    }
  }

  /**
   A reference with more than six hexadecimal or seven decimal digits behind its zeros becomes U+FFFD, and any other
   loses its zeros and nothing else.
   */
  lemma ReferenceShortened(marker: string, zeros: string, digits: string, semicolon: string, rest: string)
    requires Zeros(zeros) && digits != "" && (digits[0] != '0' || |digits| == 1)
    requires Spells("&#" + marker + (zeros + digits) + semicolon + rest, marker, zeros + digits, semicolon)
    ensures BoundCharrefs("&#" + marker + (zeros + digits) + semicolon + rest)
            == (if |digits| > (if marker == "" then 7 else 6) then "\U{FFFD}" else "&#" + marker + digits + semicolon)
               + BoundCharrefs(rest)
  {
    var text := "&#" + marker + (zeros + digits) + semicolon + rest;
    var r := Ref(marker, zeros + digits, semicolon);
    RefAtExactly(text, marker, zeros + digits, semicolon);
    ParsedRef(text);
    assert text == r.Text() + rest;
    DropPrefix(r.Text(), rest);
    SubstituteRef(r, rest);
    SignificantIs(zeros, digits);
    BoundIsSubstitute(text);
    BoundIsSubstitute(rest);
    hide RefAt, Substitute, Significant, BoundCharrefs, Spells;
  }

  /** Every character that starts no reference stays, and so does the end. */
  lemma NoReferenceKept(text: string)
    requires forall marker, digits, semicolon :: !Spells(text, marker, digits, semicolon)
    ensures BoundCharrefs(text) == if text == "" then "" else [text[0]] + BoundCharrefs(text[1..])
  {
    if RefAt(text).Ref? {
      var r := RefAt(text);
      RefAtExactly(text, r.marker, r.digits, r.semicolon);
    }
    hide RefAt, Spells;
    if text != "" {
      SubstituteStep(text);
      BoundIsSubstitute(text[1..]);
    }
    BoundIsSubstitute(text);
    hide BoundCharrefs;
  }

  // ---------- what ordinary references decode to ----------

  function HexDigits(upper: bool): string {
    if upper then "0123456789ABCDEF" else "0123456789abcdef"
  }

  function Hex(n: nat, upper: bool): (s: string)
    ensures s != "" && forall c <- s :: c in HexDigits(upper)
  {
    if n < 16 then [HexDigits(upper)[n]] else Hex(n / 16, upper) + [HexDigits(upper)[n % 16]]
  }

  lemma HexDigitsAreHex(s: string, upper: bool)
    requires AllIn(s, HexDigits(upper))
    ensures forall c <- s :: IsDigit(c, true)
    ensures AllIn(s, HEXADECIMALS)
  {
    forall c | c in s ensures IsDigit(c, true) && c in HEXADECIMALS {
      DigitsAre(c);
      var i :| 0 <= i < 16 && HexDigits(upper)[i] == c;
    }
  }

  lemma HexDigitValue(k: nat, upper: bool)
    requires k < 16
    ensures IsDigit(HexDigits(upper)[k], true) && DigitValue(HexDigits(upper)[k]) == k
  {
  }

  lemma {:induction false} HexValue(n: nat, upper: bool)
    ensures forall c <- Hex(n, upper) :: IsDigit(c, true)
    ensures Value(Hex(n, upper), 16) == n
  {
    HexDigitsAreHex(Hex(n, upper), upper);
    HexDigitValue(n % 16, upper);
    var s := Hex(n, upper);
    hide HexDigits, IsDigit, DigitValue;
    if n >= 16 {
      HexValue(n / 16, upper);
      assert s[..|s| - 1] == Hex(n / 16, upper);
    } else {
      assert s[..0] == "";
    }
  }

  lemma {:induction false} DecimalDigits(n: nat)
    ensures forall c <- Decimal(n) :: IsDigit(c, true) && c in DECIMALS
    ensures Value(Decimal(n), 10) == n
  {
    var s := Decimal(n);
    forall c | c in s ensures c in DECIMALS {
      DigitsAre(c);
    }
    if n >= 10 {
      DecimalDigits(n / 10);
      assert s[..|s| - 1] == Decimal(n / 10);
    } else {
      assert s[..0] == "";
    }
  }

  /** The decimal reference to a code point decodes to it, and the hexadecimal one in either case. */
  lemma ReferenceDecodes(t: Tables, n: nat, upper: bool, rest: string)
    ensures Unescape(t, "&#" + Decimal(n) + ";" + rest) == CodePointText(t, n) + Unescape(t, rest)
    ensures Unescape(t, "&#x" + Hex(n, upper) + ";" + rest) == CodePointText(t, n) + Unescape(t, rest)
    ensures Unescape(t, "&#X" + Hex(n, upper) + ";" + rest) == CodePointText(t, n) + Unescape(t, rest)
  {
    DecimalDigits(n);
    HexValue(n, upper);
    HexDigitsAreHex(Hex(n, upper), upper);
    OneReference(t, "", Decimal(n), rest);
    OneReference(t, "x", Hex(n, upper), rest);
    OneReference(t, "X", Hex(n, upper), rest);
    assert "&#" + "x" == "&#x" && "&#" + "X" == "&#X" && "&#" + "" == "&#";
    hide Value, Decimal, Hex, CodePointText, Unescape, AllIn, IsDigit;
  }

  lemma OneReference(t: Tables, marker: string, digits: string, rest: string)
    requires marker == "" || marker == "x" || marker == "X"
    requires digits != "" && AllIn(digits, if marker == "" then DECIMALS else HEXADECIMALS)
    requires forall c <- digits :: IsDigit(c, true)
    ensures Unescape(t, "&#" + marker + digits + ";" + rest) ==
            CodePointText(t, Value(digits, if marker == "" then 10 else 16)) + Unescape(t, rest)
  {
    var text := "&#" + marker + digits + ";" + rest;
    var r := Ref(marker, digits, ";");
    assert Spells(text, marker, digits, ";");
    RefAtExactly(text, marker, digits, ";");
    DropPrefix(r.Text(), rest);
    assert text == r.Text() + rest;
    ParsedRef(text);
    UnescapeRef(t, r, rest);
    hide RefAt, Unescape, CodePointText, Value, Spells;
  }

  /** What a code point decodes to when no table names it: itself, if it is a character at all. */
  lemma CodePointExactly(t: Tables, n: nat)
    ensures n in t.replaced ==> CodePointText(t, n) == t.replaced[n]
    ensures n !in t.replaced && (0xD800 <= n < 0xE000 || n >= 0x110000) ==> CodePointText(t, n) == "\U{FFFD}"
    ensures n !in t.replaced && n in t.dropped && (n < 0xD800 || 0xE000 <= n < 0x110000) ==> CodePointText(t, n) == ""
    ensures n !in t.replaced && n !in t.dropped && (n < 0xD800 || 0xE000 <= n < 0x110000) ==>
            CodePointText(t, n) == [n as char]
  {
  }
}
