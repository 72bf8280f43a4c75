/**
 The line rules of the streaming SSE reader, on bytes.

 `BatchLines` is the reference: drop a leading UTF-8 BOM, turn CRLF and CR into LF, split on LF, and drop an
 empty last piece.  `Take` is what one pass of the incremental line cutter computes from a buffer and a
 carried `skipLf` flag.  The lemmas show that cutting a stream piece by piece is the same as cutting it whole.
 */
module SseLines {
  import opened Sequences

  type Byte = b: int | 0 <= b < 256

  const CR: Byte := 0x0D
  const LF: Byte := 0x0A
  const BOM: seq<Byte> := [0xEF, 0xBB, 0xBF]

  // ---------- the batch reference ----------

  function DropBom(bytes: seq<Byte>): seq<Byte> {
    if BOM <= bytes then bytes[|BOM|..] else bytes
  }

  /** `replace("\r\n", "\n")` */
  function CrlfToLf(bytes: seq<Byte>): seq<Byte> {
    if bytes == [] then []
    else if bytes[0] == CR && |bytes| > 1 && bytes[1] == LF then [LF] + CrlfToLf(bytes[2..])
    else [bytes[0]] + CrlfToLf(bytes[1..])
  }

  /** `replace("\r", "\n")` */
  function CrToLf(bytes: seq<Byte>): seq<Byte> {
    seq(|bytes|, i requires 0 <= i < |bytes| => if bytes[i] == CR then LF else bytes[i])
  }

  function Normalize(bytes: seq<Byte>): seq<Byte> {
    CrToLf(CrlfToLf(bytes))
  }

  /** `split("\n")` */
  function SplitLf(bytes: seq<Byte>): (pieces: seq<seq<Byte>>)
    ensures |pieces| >= 1
  {
    if bytes == [] then [[]]
    else
      var tail := SplitLf(bytes[1..]);
      if bytes[0] == LF then [[]] + tail else [[bytes[0]] + tail[0]] + tail[1..]
  }

  function BatchLines(bytes: seq<Byte>): seq<seq<Byte>> {
    var pieces := SplitLf(Normalize(DropBom(bytes)));
    var last := |pieces| - 1;
    if pieces[last] == [] then pieces[..last] else pieces
  }

  // ---------- the incremental cutter ----------

  /** Index of the first CR or LF, or -1. */
  function LineEnd(bytes: seq<Byte>): (end: int)
    ensures -1 <= end < |bytes|
    ensures end >= 0 ==> bytes[end] == CR || bytes[end] == LF
    ensures forall k :: 0 <= k < (if end < 0 then |bytes| else end) ==> bytes[k] != CR && bytes[k] != LF
  {
    if bytes == [] then -1
    else if bytes[0] == CR || bytes[0] == LF then 0
    else
      var end := LineEnd(bytes[1..]);
      if end < 0 then -1 else end + 1
  }

  datatype Taken = Taken(lines: seq<seq<Byte>>, rest: seq<Byte>, skipLf: bool)

  function Take(bytes: seq<Byte>, skipLf: bool): Taken
    decreases |bytes|
  {
    if bytes == [] then Taken([], [], skipLf)
    else if skipLf && bytes[0] == LF then Take(bytes[1..], false)
    else
      var end := LineEnd(bytes);
      if end < 0 then Taken([], bytes, false)
      else
        var more := Take(bytes[end + 1..], bytes[end] == CR);
        more.(lines := [bytes[..end]] + more.lines)
  }

  /** The lines of a byte string that a terminator has ended. */
  function TerminatedLines(bytes: seq<Byte>): seq<seq<Byte>> {
    Take(DropBom(bytes), false).lines
  }

  lemma LineEndIs(bytes: seq<Byte>, end: nat)
    requires end < |bytes| && (bytes[end] == CR || bytes[end] == LF)
    requires forall k :: 0 <= k < end ==> bytes[k] != CR && bytes[k] != LF
    ensures LineEnd(bytes) == end
  {
  }

  // ---------- cutting twice is cutting once ----------

  lemma LineEndAppend(a: seq<Byte>, b: seq<Byte>)
    requires LineEnd(a) >= 0
    ensures LineEnd(a + b) == LineEnd(a)
  {
    assert forall k :: 0 <= k < |a| ==> (a + b)[k] == a[k];
  }

  /** One more line in front. */
  function WithLine(line: seq<Byte>, taken: Taken): Taken {
    taken.(lines := [line] + taken.lines)
  }

  lemma TakeCutsLine(bytes: seq<Byte>, skipLf: bool)
    requires LineEnd(bytes) >= 0 && !(skipLf && bytes[0] == LF)
    ensures var end := LineEnd(bytes);
            Take(bytes, skipLf) == WithLine(bytes[..end], Take(bytes[end + 1..], bytes[end] == CR))
  {
  }

  lemma TakeIgnoresFlag(bytes: seq<Byte>, skipLf: bool)
    requires bytes != [] && bytes[0] != LF
    ensures Take(bytes, skipLf) == Take(bytes, false)
  {
  }

  /** The steps of the cutter that cut no line. */
  lemma TakeCutsNothing(bytes: seq<Byte>, skipLf: bool)
    ensures bytes == [] ==> Take(bytes, skipLf) == Taken([], [], skipLf)
    ensures skipLf && [LF] <= bytes ==> Take(bytes, skipLf) == Take(bytes[1..], false)
    ensures bytes != [] && LineEnd(bytes) < 0 ==> Take(bytes, skipLf) == Taken([], bytes, false)
  {
  }

  /** A first cut, then a second over what the first left plus the new bytes. */
  function CutAgain(first: Taken, bytes: seq<Byte>): Taken {
    var second := Take(first.rest + bytes, first.skipLf);
    Taken(first.lines + second.lines, second.rest, second.skipLf)
  }

  lemma CutAgainKeepsLine(line: seq<Byte>, first: Taken, bytes: seq<Byte>)
    ensures CutAgain(WithLine(line, first), bytes) == WithLine(line, CutAgain(first, bytes))
  {
    Regroup([line], first.lines, Take(first.rest + bytes, first.skipLf).lines);
  }

  lemma TakeAppendLine(a: seq<Byte>, b: seq<Byte>, skipLf: bool)
    requires LineEnd(a) >= 0 && !(skipLf && a[0] == LF)
    requires var end := LineEnd(a);
             Take(a[end + 1..] + b, a[end] == CR) == CutAgain(Take(a[end + 1..], a[end] == CR), b)
    ensures Take(a + b, skipLf) == CutAgain(Take(a, skipLf), b)
  {
    var end := LineEnd(a);
    LineEndAppend(a, b);
    SplitAppended(a, b, end + 1);
    SplitAppended(a, b, end);
    IndexAppended(a, b, end);
    IndexAppended(a, b, 0);
    hide *;
    TakeCutsLine(a, skipLf);
    TakeCutsLine(a + b, skipLf);
    CutAgainKeepsLine(a[..end], Take(a[end + 1..], a[end] == CR), b);
  }

  /** Cutting twice is cutting everything once. */
  lemma {:induction false} TakeAppend(a: seq<Byte>, b: seq<Byte>, skipLf: bool)
    ensures Take(a + b, skipLf) == CutAgain(Take(a, skipLf), b)
    decreases |a|
  {
    hide Take, LineEnd;
    TakeCutsNothing(a, skipLf);
    if a == [] {
      assert a + b == b;
    } else if skipLf && a[0] == LF {
      SplitAppended(a, b, 1);
      TakeCutsNothing(a + b, skipLf);
      TakeAppend(a[1..], b, false);
    } else if LineEnd(a) >= 0 {
      var end := LineEnd(a);
      hide CutAgain;
      TakeAppend(a[end + 1..], b, a[end] == CR);
      TakeAppendLine(a, b, skipLf);
    } else {
      TakeIgnoresFlag(a + b, skipLf);
    }
  }

  // ---------- the cutter agrees with the reference ----------

  lemma CrToLfCons(byte: Byte, rest: seq<Byte>)
    ensures CrToLf([byte] + rest) == [if byte == CR then LF else byte] + CrToLf(rest)
  {
  }

  lemma NormalizeStep(bytes: seq<Byte>)
    ensures bytes != [] && bytes[0] != CR ==> Normalize(bytes) == [bytes[0]] + Normalize(bytes[1..])
    ensures bytes != [] && bytes[0] == CR && !([CR, LF] <= bytes) ==> Normalize(bytes) == [LF] + Normalize(bytes[1..])
    ensures [CR, LF] <= bytes ==> Normalize(bytes) == [LF] + Normalize(bytes[2..])
  {
    if bytes != [] {
      CrToLfCons(bytes[0], CrlfToLf(bytes[1..]));
      if [CR, LF] <= bytes {
        CrToLfCons(LF, CrlfToLf(bytes[2..]));
      }
    }
    hide CrToLf;
  }

  /** Text without a terminator, then one terminator: the reference splits off exactly that text. */
  lemma {:induction false} SplitAtLineEnd(bytes: seq<Byte>, end: nat)
    requires LineEnd(bytes) == end
    ensures var next := if bytes[end] == CR && end + 1 < |bytes| && bytes[end + 1] == LF then end + 2 else end + 1;
            SplitLf(Normalize(bytes)) == [bytes[..end]] + SplitLf(Normalize(bytes[next..]))
    decreases end
  {
    NormalizeStep(bytes);
    if end == 0 {
      assert bytes[..0] == [];
    } else {
      assert LineEnd(bytes[1..]) == end - 1;
      SplitAtLineEnd(bytes[1..], end - 1);
      var next := if bytes[end] == CR && end + 1 < |bytes| && bytes[end + 1] == LF then end + 2 else end + 1;
      FirstOff(bytes, end, next);
      SplitGrows(bytes[0], Normalize(bytes[1..]));
      assert bytes[0] != CR && bytes[0] != LF;
      assert Normalize(bytes) == [bytes[0]] + Normalize(bytes[1..]);
      hide *;
    }
  }

  /** A byte that ends no line joins the first piece. */
  lemma SplitGrows(byte: Byte, rest: seq<Byte>)
    requires byte != LF
    ensures var tail := SplitLf(rest);
            SplitLf([byte] + rest) == [[byte] + tail[0]] + tail[1..]
  {
    assert ([byte] + rest)[1..] == rest;
  }

  lemma {:induction false} SplitWithoutLineEnd(bytes: seq<Byte>)
    requires LineEnd(bytes) < 0
    ensures SplitLf(Normalize(bytes)) == [bytes]
  {
    if bytes != [] {
      NormalizeStep(bytes);
      SplitWithoutLineEnd(bytes[1..]);
      assert bytes == [bytes[0]] + bytes[1..];
    }
  }

  /**
   The line rules in bytes: line feed, carriage return, and the two together each end a line, nothing else does, and a
   leading EF BB BF is dropped (section 9.2.5 of the WHATWG HTML standard).
   */
  lemma LineRules(line: seq<Byte>, rest: seq<Byte>)
    requires forall b <- line :: b != 13 && b != 10
    ensures SplitLf(Normalize(line)) == [line]
    ensures SplitLf(Normalize(line + [10] + rest)) == [line] + SplitLf(Normalize(rest))
    ensures SplitLf(Normalize(line + [13, 10] + rest)) == [line] + SplitLf(Normalize(rest))
    ensures rest == [] || rest[0] != 10 ==>
            SplitLf(Normalize(line + [13] + rest)) == [line] + SplitLf(Normalize(rest))
    ensures DropBom([0xEF, 0xBB, 0xBF] + rest) == rest
    ensures |rest| < 3 || rest[..3] != [0xEF, 0xBB, 0xBF] ==> DropBom(rest) == rest
  {
    assert forall k :: 0 <= k < |line| ==> line[k] in line;
    SplitWithoutLineEnd(line);
    OneTerminator(line, [10], rest);
    OneTerminator(line, [13, 10], rest);
    if rest == [] || rest[0] != 10 {
      OneTerminator(line, [13], rest);
    }
    DropPrefix([0xEF, 0xBB, 0xBF], rest);
    hide Normalize, SplitLf;
  }

  lemma OneTerminator(line: seq<Byte>, terminator: seq<Byte>, rest: seq<Byte>)
    requires forall b <- line :: b != 13 && b != 10
    requires terminator == [10] || terminator == [13, 10] || (terminator == [13] && (rest == [] || rest[0] != 10))
    ensures SplitLf(Normalize(line + terminator + rest)) == [line] + SplitLf(Normalize(rest))
  {
    var bytes, n := line + terminator + rest, |line|;
    Regroup(line, terminator, rest);
    assert forall k :: 0 <= k < n ==> bytes[k] == line[k] && line[k] in line;
    assert bytes[n] == terminator[0];
    LineEndIs(bytes, n);
    SplitAtLineEnd(bytes, n);
    assert bytes[..n] == line;
    assert bytes[n + |terminator|..] == rest;
    assert n + 1 < |bytes| ==> bytes[n + 1] == (terminator + rest)[1];
    hide Normalize, SplitLf;
  }

  /** The cutter's lines and remainder are exactly the pieces of the reference. */
  lemma {:induction false} TakeIsSplit(bytes: seq<Byte>, skipLf: bool)
    ensures var visible := if skipLf && [LF] <= bytes then bytes[1..] else bytes;
            var taken := Take(bytes, skipLf);
            SplitLf(Normalize(visible)) == taken.lines + [taken.rest]
    decreases |bytes|
  {
    TakeCutsNothing(bytes, skipLf);
    hide Take, LineEnd, Normalize;
    if bytes == [] {
      assert SplitLf(Normalize(bytes)) == [[]] by { SplitWithoutLineEnd(bytes); }
    } else if skipLf && bytes[0] == LF {
      TakeIsSplit(bytes[1..], false);
    } else {
      var end := LineEnd(bytes);
      if end < 0 {
        SplitWithoutLineEnd(bytes);
      } else {
        SplitAtLineEnd(bytes, end);
        TakeCutsLine(bytes, skipLf);
        var rest := bytes[end + 1..];
        TakeIsSplit(rest, bytes[end] == CR);
        if bytes[end] == CR && [LF] <= rest {
          assert rest[1..] == bytes[end + 2..];
        }
        var more := Take(rest, bytes[end] == CR);
        assert [bytes[..end]] + (more.lines + [more.rest]) == ([bytes[..end]] + more.lines) + [more.rest];
      }
    }
  }

  /** What the reader yields for a complete body: every ended line, then a last line nothing ended. */
  lemma ReaderLinesAreBatchLines(bytes: seq<Byte>)
    ensures var taken := Take(DropBom(bytes), false);
            BatchLines(bytes) == taken.lines + (if taken.rest == [] then [] else [taken.rest])
  {
    var taken := Take(DropBom(bytes), false);
    TakeIsSplit(DropBom(bytes), false);
    var pieces := taken.lines + [taken.rest];
    assert pieces[..|pieces| - 1] == taken.lines;
  }

  // ---------- the BOM ----------

  /** Once three bytes, or a byte that is not the BOM's, have arrived, later bytes no longer affect the BOM. */
  lemma DropBomAppend(a: seq<Byte>, b: seq<Byte>)
    requires |a| >= |BOM| || !(a <= BOM)
    ensures DropBom(a + b) == DropBom(a) + b
  {
    var ab := a + b;
    assert forall i :: 0 <= i < |a| ==> ab[i] == a[i];
    if |a| >= |BOM| {
      assert ab[..|BOM|] == a[..|BOM|];
      assert ab[|BOM|..] == a[|BOM|..] + b;
    } else {
      var i :| 0 <= i < |a| && a[i] != BOM[i];
      assert !(BOM <= ab);
    }
  }

  /** A proper beginning of the BOM ends no line. */
  lemma PartialBomHoldsNoLine(a: seq<Byte>)
    requires a <= BOM && |a| < |BOM|
    ensures DropBom(a) == a && TerminatedLines(a) == [] && Take(a, false) == Taken([], a, false)
  {
    assert forall i :: 0 <= i < |a| ==> a[i] == BOM[i];
    assert LineEnd(a) < 0;
  }

  /** Ended lines never change when more bytes arrive. */
  lemma TerminatedLinesGrow(a: seq<Byte>, b: seq<Byte>)
    ensures TerminatedLines(a) <= TerminatedLines(a + b)
  {
    if |a| >= |BOM| || !(a <= BOM) {
      DropBomAppend(a, b);
      TakeAppend(DropBom(a), b, false);
    } else {
      PartialBomHoldsNoLine(a);
    }
  }
}
