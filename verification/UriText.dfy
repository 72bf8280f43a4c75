/**
 The text operations behind URI normal form: code points, UTF-8 with lone surrogates passed through,
 percent-encoding, escape decoding and scheme folding.
 */
module UriText {

  type CodePoint = c: int | 0 <= c < 0x110000
  type Text = seq<CodePoint>
  type Octet = b: int | 0 <= b < 256

  const PERCENT: CodePoint := '%' as int
  const COLON: CodePoint := ':' as int
  const SLASH: CodePoint := '/' as int

  function Ascii(s: string): (t: Text)
    requires forall c <- s :: c as int < 0x80
    ensures |t| == |s| && forall i :: 0 <= i < |s| ==> t[i] == s[i] as int
  {
    seq(|s|, i requires 0 <= i < |s| => s[i] as int)
  }

  predicate IsLetter(c: int) {
    'A' as int <= c <= 'Z' as int || 'a' as int <= c <= 'z' as int
  }

  predicate IsDigit(c: int) {
    '0' as int <= c <= '9' as int
  }

  predicate Among(c: int, marks: string) {
    exists m <- marks :: c == m as int
  }

  /** Section 2.3 of RFC 3986. */
  predicate Unreserved(c: int) {
    IsLetter(c) || IsDigit(c) || Among(c, "-._~")
  }

  /** The characters `quote` leaves alone: what a URI may carry, and `%`. */
  predicate Safe(c: int) {
    Unreserved(c) || Among(c, ":/?#[]@!$&'()*+,;=%")
  }

  // ---------- hexadecimal escapes ----------

  predicate IsHex(c: int) {
    IsDigit(c) || 'A' as int <= c <= 'F' as int || 'a' as int <= c <= 'f' as int
  }

  function HexValue(c: int): (v: int)
    requires IsHex(c)
    ensures 0 <= v < 16
  {
    if IsDigit(c) then c - '0' as int
    else if c >= 'a' as int then c - 'a' as int + 10
    else c - 'A' as int + 10
  }

  function HexDigit(v: int): (c: CodePoint)
    requires 0 <= v < 16
    ensures IsHex(c) && HexValue(c) == v && c < 'a' as int && Unreserved(c)
  {
    if v < 10 then '0' as int + v else 'A' as int + v - 10
  }

  /** `%XX` in uppercase. */
  function Escape(b: Octet): (t: Text)
    ensures |t| == 3 && IsEscape(t) && EscapeValue(t) == b
  {
    [PERCENT, HexDigit(b / 16), HexDigit(b % 16)]
  }

  predicate IsEscape(t: Text) {
    |t| >= 3 && t[0] == PERCENT && IsHex(t[1]) && IsHex(t[2])
  }

  function EscapeValue(t: Text): (b: Octet)
    requires IsEscape(t)
  {
    HexValue(t[1]) * 16 + HexValue(t[2])
  }

  function Escapes(octets: seq<Octet>): Text {
    if octets == [] then [] else Escape(octets[0]) + Escapes(octets[1..])
  }

  // ---------- UTF-8 ----------

  function Utf8(c: CodePoint): (octets: seq<Octet>)
    ensures octets != []
    ensures c < 0x80 ==> octets == [c]
    ensures c >= 0x80 ==> forall b <- octets :: b >= 0x80
  {
    if c < 0x80 then [c]
    else if c < 0x800 then [0xC0 + c / 64, 0x80 + c % 64]
    else if c < 0x10000 then [0xE0 + c / 4096, 0x80 + c / 64 % 64, 0x80 + c % 64]
    else [0xF0 + c / 262144, 0x80 + c / 4096 % 64, 0x80 + c / 64 % 64, 0x80 + c % 64]
  }

  // ---------- the three passes of normalization ----------

  /** `quote(uri, safe=...)` */
  function Quote(t: Text): Text {
    if t == [] then []
    else (if Safe(t[0]) then [t[0]] else Escapes(Utf8(t[0]))) + Quote(t[1..])
  }

  function NormalEscape(t: Text): Text
    requires IsEscape(t)
  {
    if Unreserved(EscapeValue(t)) then [EscapeValue(t)] else Escape(EscapeValue(t))
  }

  /** `_ESCAPE_RE.sub`: the escapes from left to right, each normalized. */
  function SubEscapes(t: Text): Text {
    if t == [] then []
    else if IsEscape(t) then NormalEscape(t) + SubEscapes(t[3..])
    else [t[0]] + SubEscapes(t[1..])
  }

  predicate IsSchemeChar(c: int) {
    IsLetter(c) || IsDigit(c) || Among(c, "+.-")
  }

  /** Number of scheme characters before the first other character. */
  function SchemeRun(t: Text): (n: nat)
    ensures n <= |t|
    ensures forall i :: 0 <= i < n ==> IsSchemeChar(t[i])
    ensures n < |t| ==> !IsSchemeChar(t[n])
  {
    if t == [] || !IsSchemeChar(t[0]) then 0 else SchemeRun(t[1..]) + 1
  }

  /** The end of the match of `^[A-Za-z][A-Za-z0-9+.-]*:`, or 0. */
  function SchemeEnd(t: Text): (end: nat)
    ensures end <= |t|
  {
    var n := SchemeRun(t);
    if n > 0 && IsLetter(t[0]) && n < |t| && t[n] == COLON then n + 1 else 0
  }

  function LowerChar(c: CodePoint): CodePoint {
    if 'A' as int <= c <= 'Z' as int then c + 32 else c
  }

  function Lower(t: Text): Text {
    seq(|t|, i requires 0 <= i < |t| => LowerChar(t[i]))
  }

  function LowerScheme(t: Text): Text {
    Lower(t[..SchemeEnd(t)]) + t[SchemeEnd(t)..]
  }

  /** `normalize_uri` */
  function Normalize(uri: Text): Text {
    LowerScheme(SubEscapes(Quote(uri)))
  }

  // ---------- basic facts ----------

  lemma SafeFacts()
    ensures Safe(PERCENT) && !Unreserved(PERCENT) && !IsHex(PERCENT) && !IsSchemeChar(PERCENT)
    ensures Safe(COLON) && !IsSchemeChar(COLON) && !Unreserved(COLON)
    ensures Safe(SLASH) && !IsSchemeChar(SLASH) && !IsHex(SLASH) && !Unreserved(SLASH)
  {
    assert Among(PERCENT, ":/?#[]@!$&'()*+,;=%") by { assert '%' in ":/?#[]@!$&'()*+,;=%"; }
    assert Among(COLON, ":/?#[]@!$&'()*+,;=%") by { assert ':' in ":/?#[]@!$&'()*+,;=%"; }
    assert Among(SLASH, ":/?#[]@!$&'()*+,;=%") by { assert '/' in ":/?#[]@!$&'()*+,;=%"; }
  }

  lemma HexIsSafe(c: int)
    requires IsHex(c)
    ensures Unreserved(c) && Safe(c) && c != PERCENT
  {
  }

  lemma SchemeCharIsSafe(c: int)
    requires IsSchemeChar(c)
    ensures Safe(c) && c != PERCENT
    ensures 0 <= c < 0x80
  {
    if Among(c, "+.-") {
      assert '+' in ":/?#[]@!$&'()*+,;=%" && '.' in "-._~" && '-' in "-._~";
    }
  }

  /** Characters a URI cannot carry spell escapes that no pass rewrites. */
  lemma UnsafeOctets(c: CodePoint)
    requires !Safe(c)
    ensures forall b <- Utf8(c) :: !Unreserved(b)
  {
  }
}
