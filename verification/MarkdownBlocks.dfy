/**
 How a Markdown document is cut into blocks.

 The parser's tokens arrive with line ranges that may overlap or be empty; a token that shares a line with an
 earlier one is dropped, and the lines no token covers are gathered into runs.  `SourceSpans` is the resulting
 list of line ranges and the lemmas show that it partitions the document.
 */
module MarkdownBlocks {
  import opened Ordering
  import opened Sequences

  datatype TokenKind = Fence | CodeBlock | Inline | HtmlBlock | Other

  datatype LineMap = NoMap | Lines(start: nat, end: nat)

  datatype Token = Token(kind: TokenKind, lineMap: LineMap)

  datatype Origin = FromToken(kind: TokenKind) | Uncovered

  /** The lines `start <= n < end` of the document. */
  datatype Span = Span(start: nat, end: nat, origin: Origin) {
    predicate Holds(n: nat) { start <= n < end }
  }

  datatype Block = Block(line: nat, text: string, origin: Origin)

  // ---------- lines ----------

  /** `not line.strip(" \t")` */
  predicate Blank(line: string) {
    forall c <- line :: c == ' ' || c == '\t'
  }

  /** `"\n".join(lines)` */
  function JoinLines(lines: seq<string>): string {
    if lines == [] then ""
    else if |lines| == 1 then lines[0]
    else lines[0] + "\n" + JoinLines(lines[1..])
  }

  /** Python's `lines[start:end]`, which clamps. */
  function Slice(lines: seq<string>, start: nat, end: nat): seq<string> {
    var stop := if end < |lines| then end else |lines|;
    if start < stop then lines[start..stop] else []
  }

  function BlockOf(lines: seq<string>, firstLine: nat, span: Span): Block {
    Block(firstLine + span.start, JoinLines(Slice(lines, span.start, span.end)), span.origin)
  }

  function BlocksOf(lines: seq<string>, firstLine: nat, spans: seq<Span>): (blocks: seq<Block>)
    ensures |blocks| == |spans|
    ensures forall i :: 0 <= i < |spans| ==> blocks[i] == BlockOf(lines, firstLine, spans[i])
  {
    if spans == [] then []
    else [BlockOf(lines, firstLine, spans[0])] + BlocksOf(lines, firstLine, spans[1..])
  }

  // ---------- the token pass ----------

  function Range(start: nat, end: nat): (lines: set<nat>)
    ensures forall n :: n in lines <==> start <= n < end
    decreases end - start
  {
    if start >= end then {} else {start} + Range(start + 1, end)
  }

  function CoveredLines(spans: seq<Span>): set<nat> {
    if spans == [] then {}
    else
      var last := spans[|spans| - 1];
      CoveredLines(spans[..|spans| - 1]) + Range(last.start, last.end)
  }

  lemma CoveredSnoc(spans: seq<Span>, span: Span)
    ensures CoveredLines(spans + [span]) == CoveredLines(spans) + Range(span.start, span.end)
  {
    assert (spans + [span])[..|spans|] == spans;
  }

  predicate Considered(token: Token) {
    token.lineMap.Lines? && !token.kind.Other?
  }

  function SpanOf(token: Token): Span
    requires Considered(token)
  {
    Span(token.lineMap.start, token.lineMap.end, FromToken(token.kind))
  }

  /** The tokens that share no line with an earlier kept one. */
  function Kept(tokens: seq<Token>): seq<Span> {
    if tokens == [] then []
    else
      var kept, token := Kept(tokens[..|tokens| - 1]), tokens[|tokens| - 1];
      if Considered(token) && CoveredLines(kept) !! Range(token.lineMap.start, token.lineMap.end)
      then kept + [SpanOf(token)]
      else kept
  }

  // ---------- the runs of uncovered lines ----------

  predicate Loose(lines: seq<string>, covered: set<nat>, n: nat) {
    n < |lines| && n !in covered && !Blank(lines[n])
  }

  /** One past the last line of the run that `n` belongs to. */
  function RunEnd(lines: seq<string>, covered: set<nat>, n: nat): (end: nat)
    requires n <= |lines|
    ensures n <= end <= |lines| && !Loose(lines, covered, end)
    ensures forall k :: n <= k < end ==> Loose(lines, covered, k)
    decreases |lines| - n
  {
    if Loose(lines, covered, n) then RunEnd(lines, covered, n + 1) else n
  }

  /** The maximal runs of non-blank uncovered lines, from line `n` on. */
  function RunsFrom(lines: seq<string>, covered: set<nat>, n: nat): seq<Span>
    requires n <= |lines|
    decreases |lines| - n
  {
    if n == |lines| then []
    else if !Loose(lines, covered, n) then RunsFrom(lines, covered, n + 1)
    else
      var end := RunEnd(lines, covered, n);
      [Span(n, end, Uncovered)] + RunsFrom(lines, covered, end)
  }

  predicate StartsBefore(a: Span, b: Span) { a.start < b.start }

  predicate LineBefore(a: Block, b: Block) { a.line < b.line }

  function SourceSpans(lines: seq<string>, tokens: seq<Token>): seq<Span> {
    var kept := Kept(tokens);
    Sort(kept + RunsFrom(lines, CoveredLines(kept), 0), StartsBefore)
  }

  // ---------- the partition ----------

  /** How many of the spans hold line `n`. */
  function Holders(spans: seq<Span>, n: nat): nat {
    if spans == [] then 0
    else (if spans[0].Holds(n) then 1 else 0) + Holders(spans[1..], n)
  }

  lemma {:induction false} HoldersAppend(a: seq<Span>, b: seq<Span>, n: nat)
    ensures Holders(a + b, n) == Holders(a, n) + Holders(b, n)
  {
    if a == [] {
      assert a + b == b;
    } else {
      HoldersAppend(a[1..], b, n);
      assert (a + b)[1..] == a[1..] + b;
    }
  }

  lemma {:induction false} HoldersInsert(x: Span, s: seq<Span>, n: nat)
    ensures Holders(Insert(x, s, StartsBefore), n) == Holders([x], n) + Holders(s, n)
  {
    if s == [] || !StartsBefore(s[0], x) {
      HoldersAppend([x], s, n);
    } else {
      HoldersInsert(x, s[1..], n);
      HoldersAppend([s[0]], Insert(x, s[1..], StartsBefore), n);
      HoldersAppend([s[0]], s[1..], n);
      assert s == [s[0]] + s[1..];
    }
  }

  lemma {:induction false} HoldersSort(s: seq<Span>, n: nat)
    ensures Holders(Sort(s, StartsBefore), n) == Holders(s, n)
  {
    if s != [] {
      HoldersSort(s[1..], n);
      HoldersInsert(s[0], Sort(s[1..], StartsBefore), n);
      HoldersAppend([s[0]], s[1..], n);
      assert s == [s[0]] + s[1..];
    }
  }

  lemma {:induction false} KeptTokensShareNoLine(tokens: seq<Token>, n: nat)
    ensures Holders(Kept(tokens), n) == if n in CoveredLines(Kept(tokens)) then 1 else 0
  {
    if tokens != [] {
      var before, token := tokens[..|tokens| - 1], tokens[|tokens| - 1];
      KeptTokensShareNoLine(before, n);
      if Kept(tokens) != Kept(before) {
        HoldersAppend(Kept(before), [SpanOf(token)], n);
        CoveredSnoc(Kept(before), SpanOf(token));
        hide CoveredLines, Kept;
      }
    }
  }

  lemma {:induction false} RunsHoldLooseLines(lines: seq<string>, covered: set<nat>, from: nat, n: nat)
    requires from <= |lines|
    ensures Holders(RunsFrom(lines, covered, from), n) ==
            if from <= n && Loose(lines, covered, n) then 1 else 0
    decreases |lines| - from
  {
    if from == |lines| {
    } else if !Loose(lines, covered, from) {
      RunsHoldLooseLines(lines, covered, from + 1, n);
    } else {
      var end := RunEnd(lines, covered, from);
      RunsHoldLooseLines(lines, covered, end, n);
      HoldersAppend([Span(from, end, Uncovered)], RunsFrom(lines, covered, end), n);
    }
  }

  /**
   Every line that is not blank lies in exactly one span.  A blank line lies in at most one, and only when a
   kept token covers it.
   */
  lemma EveryLineInOneBlock(lines: seq<string>, tokens: seq<Token>, n: nat)
    ensures var covered := n in CoveredLines(Kept(tokens));
            Holders(SourceSpans(lines, tokens), n) ==
            if covered || (n < |lines| && !Blank(lines[n])) then 1 else 0
  {
    var kept := Kept(tokens);
    var runs := RunsFrom(lines, CoveredLines(kept), 0);
    HoldersSort(kept + runs, n);
    HoldersAppend(kept, runs, n);
    KeptTokensShareNoLine(tokens, n);
    RunsHoldLooseLines(lines, CoveredLines(kept), 0, n);
  }

  lemma {:induction false} HolderCounts(spans: seq<Span>, i: nat, n: nat)
    requires i < |spans| && spans[i].Holds(n)
    ensures Holders(spans, n) >= 1 + Holders(spans[i + 1..], n)
  {
    if i > 0 {
      HolderCounts(spans[1..], i - 1, n);
      assert spans[1..][i..] == spans[i + 1..];
    }
  }

  /** The blocks come in line order and no two of them share a source line. */
  lemma SpansAreDisjointAndOrdered(lines: seq<string>, tokens: seq<Token>, i: nat, j: nat)
    requires i < j < |SourceSpans(lines, tokens)|
    ensures var a, b := SourceSpans(lines, tokens)[i], SourceSpans(lines, tokens)[j];
            a.start <= b.start && Range(a.start, a.end) !! Range(b.start, b.end)
  {
    var spans := SourceSpans(lines, tokens);
    forall a, b | StartsBefore(a, b) ensures !StartsBefore(b, a) {}
    SortSorted(Kept(tokens) + RunsFrom(lines, CoveredLines(Kept(tokens)), 0), StartsBefore);
    forall n: nat | spans[i].Holds(n) && spans[j].Holds(n) ensures false {
      HolderCounts(spans, i, n);
      assert spans[i + 1..][j - i - 1] == spans[j];
      HolderCounts(spans[i + 1..], j - i - 1, n);
      EveryLineInOneBlock(lines, tokens, n);
    }
    forall n | n in Range(spans[i].start, spans[i].end) ensures n !in Range(spans[j].start, spans[j].end) {
      assert spans[i].Holds(n);
    }
  }

  /** A token is dropped only because one of its lines is already taken. */
  lemma {:induction false} DroppedTokensOverlap(tokens: seq<Token>, i: nat)
    requires i < |tokens| && Considered(tokens[i])
    ensures SpanOf(tokens[i]) in Kept(tokens) ||
            exists n :: n in CoveredLines(Kept(tokens[..i])) && SpanOf(tokens[i]).Holds(n)
  {
    if i < |tokens| - 1 {
      var before := tokens[..|tokens| - 1];
      DroppedTokensOverlap(before, i);
      assert before[..i] == tokens[..i];
    } else {
      var line := tokens[i].lineMap;
      if !(CoveredLines(Kept(tokens[..i])) !! Range(line.start, line.end)) {
        var n :| n in CoveredLines(Kept(tokens[..i])) && n in Range(line.start, line.end);
        assert SpanOf(tokens[i]).Holds(n);
      }
    }
  }

  // ---------- the text of a block ----------

  /** `text.split("\n")` */
  function SplitLines(text: string): (lines: seq<string>)
    ensures |lines| >= 1
  {
    if text == [] then [[]]
    else
      var rest := SplitLines(text[1..]);
      if text[0] == '\n' then [[]] + rest else [[text[0]] + rest[0]] + rest[1..]
  }

  lemma {:induction false} SplitOneLine(line: string)
    requires '\n' !in line
    ensures SplitLines(line) == [line]
  {
    if line != [] {
      SplitOneLine(line[1..]);
      assert line == [line[0]] + line[1..];
    }
  }

  lemma {:induction false} SplitFirstLine(line: string, text: string)
    requires '\n' !in line
    ensures SplitLines(line + "\n" + text) == [line] + SplitLines(text)
  {
    var whole := line + "\n" + text;
    if line == [] {
      assert whole == "\n" + text && whole[1..] == text;
    } else {
      SplitFirstLine(line[1..], text);
      assert whole[0] == line[0] && whole[1..] == line[1..] + "\n" + text;
      assert line == [line[0]] + line[1..];
    }
  }

  lemma {:induction false} SplitJoined(lines: seq<string>)
    requires lines != [] && forall line <- lines :: '\n' !in line
    ensures SplitLines(JoinLines(lines)) == lines
  {
    if |lines| == 1 {
      SplitOneLine(lines[0]);
    } else {
      SplitJoined(lines[1..]);
      SplitFirstLine(lines[0], JoinLines(lines[1..]));
      assert lines == [lines[0]] + lines[1..];
    }
  }

  /** A block is its source lines exactly as written, and says where they start. */
  lemma BlockIsItsLines(lines: seq<string>, firstLine: nat, span: Span)
    requires forall line <- lines :: '\n' !in line
    ensures var block, end := BlockOf(lines, firstLine, span), if span.end < |lines| then span.end else |lines|;
            && block.line == firstLine + span.start && block.origin == span.origin
            && if span.start < end then SplitLines(block.text) == lines[span.start..end] else block.text == ""
  {
    var end := if span.end < |lines| then span.end else |lines|;
    if span.start < end {
      SplitJoined(lines[span.start..end]);
    }
  }

  // ---------- which spans there are ----------

  /** The span is the line range of a token that is a block: a fence, a code block, an inline or an HTML block. */
  ghost predicate OfToken(token: Token, span: Span) {
    && token.lineMap == Lines(span.start, span.end) && span.origin == FromToken(token.kind)
    && (token.kind == Fence || token.kind == CodeBlock || token.kind == Inline || token.kind == HtmlBlock)
  }

  ghost predicate ShareLine(a: Span, b: Span) {
    exists n: nat :: a.Holds(n) && b.Holds(n)
  }

  ghost predicate OverlapsEarlier(spans: seq<Span>, at: seq<nat>, i: nat, span: Span)
    requires |at| == |spans|
  {
    exists k :: 0 <= k < |at| && at[k] < i && ShareLine(spans[k], span)
  }

  /** `spans` are the ranges of the tokens at `at`; no two share a line, and every other token shares one with them. */
  ghost predicate KeptFrom(tokens: seq<Token>, spans: seq<Span>, at: seq<nat>) {
    && |at| == |spans|
    && (forall k, l :: 0 <= k < l < |at| ==> at[k] < at[l] && !ShareLine(spans[k], spans[l]))
    && (forall k :: 0 <= k < |at| ==> at[k] < |tokens| && OfToken(tokens[at[k]], spans[k]))
    && forall i: nat, span :: i < |tokens| && OfToken(tokens[i], span) && i !in at ==>
         OverlapsEarlier(spans, at, i, span)
  }

  lemma {:induction false} CoveredExactly(spans: seq<Span>, n: nat)
    ensures n in CoveredLines(spans) <==> exists k :: 0 <= k < |spans| && spans[k].Holds(n)
  {
    if spans != [] {
      var front, last := spans[..|spans| - 1], spans[|spans| - 1];
      CoveredExactly(front, n);
      assert forall k :: 0 <= k < |front| ==> front[k] == spans[k];
    }
  }

  /** A range is disjoint from the covered lines exactly when it shares a line with no span. */
  lemma DisjointExactly(spans: seq<Span>, span: Span)
    ensures CoveredLines(spans) !! Range(span.start, span.end) <==>
            forall k :: 0 <= k < |spans| ==> !ShareLine(spans[k], span)
  {
    forall n: nat ensures n in CoveredLines(spans) <==> exists k :: 0 <= k < |spans| && spans[k].Holds(n) {
      CoveredExactly(spans, n);
    }
    hide CoveredLines;
    if k :| 0 <= k < |spans| && ShareLine(spans[k], span) {
      var n: nat :| spans[k].Holds(n) && span.Holds(n);
      assert n in CoveredLines(spans) && n in Range(span.start, span.end);
    } else {
      forall n | n in CoveredLines(spans) ensures n !in Range(span.start, span.end) {
        var k :| 0 <= k < |spans| && spans[k].Holds(n);
        assert !ShareLine(spans[k], span);
        assert !span.Holds(n);
      }
    }
  }

  lemma OverlapsStays(spans: seq<Span>, at: seq<nat>, more: Span, next: nat, i: nat, span: Span)
    requires |at| == |spans| && OverlapsEarlier(spans, at, i, span)
    ensures OverlapsEarlier(spans + [more], at + [next], i, span)
  {
    var k :| 0 <= k < |at| && at[k] < i && ShareLine(spans[k], span);
    assert (spans + [more])[k] == spans[k] && (at + [next])[k] == at[k];
    hide ShareLine;
  }

  lemma KeptFromMore(tokens: seq<Token>, token: Token, spans: seq<Span>, at: seq<nat>, span: Span)
    requires KeptFrom(tokens, spans, at) && OfToken(token, span)
    requires forall k :: 0 <= k < |spans| ==> !ShareLine(spans[k], span)
    ensures KeptFrom(tokens + [token], spans + [span], at + [|tokens|])
  {
    hide ShareLine, OfToken, OverlapsEarlier;
    forall i: nat, x | i < |tokens| && OfToken(tokens[i], x) && i !in at + [|tokens|]
      ensures OverlapsEarlier(spans + [span], at + [|tokens|], i, x)
    {
      OverlapsStays(spans, at, span, |tokens|, i, x);
    }
    assert |tokens| in at + [|tokens|];
  }

  lemma KeptFromSame(tokens: seq<Token>, token: Token, spans: seq<Span>, at: seq<nat>)
    requires KeptFrom(tokens, spans, at)
    requires forall span :: OfToken(token, span) ==> OverlapsEarlier(spans, at, |tokens|, span)
    ensures KeptFrom(tokens + [token], spans, at)
  {
    hide ShareLine, OfToken, OverlapsEarlier;
  }

  lemma OfTokenExactly(token: Token, span: Span)
    ensures OfToken(token, span) <==> Considered(token) && span == SpanOf(token)
  {
  }

  /** The tokens kept are the greedy choice, made in the order of the tokens. */
  lemma {:induction false} KeptExactly(tokens: seq<Token>) returns (at: seq<nat>)
    ensures KeptFrom(tokens, Kept(tokens), at)
  {
    at := [];
    if tokens != [] {
      var front, token := tokens[..|tokens| - 1], tokens[|tokens| - 1];
      assert tokens == front + [token];
      at := KeptExactly(front);
      var before := Kept(front);
      AllBefore(front, before, at);
      hide KeptFrom, OfToken, Kept, CoveredLines, Range, Considered;
      forall span ensures OfToken(token, span) <==> Considered(token) && span == SpanOf(token) {
        OfTokenExactly(token, span);
      }
      if Considered(token) {
        DisjointExactly(before, SpanOf(token));
      }
      KeptSnoc(tokens, |front|);
      assert tokens[..|front| + 1] == tokens;
      if Considered(token) && CoveredLines(before) !! Range(token.lineMap.start, token.lineMap.end) {
        KeptFromMore(front, token, before, at, SpanOf(token));
        at := at + [|front|];
      } else {
        KeptFromSame(front, token, before, at);
      }
    }
  }

  lemma AllBefore(tokens: seq<Token>, spans: seq<Span>, at: seq<nat>)
    requires KeptFrom(tokens, spans, at)
    ensures |at| == |spans| && forall k :: 0 <= k < |at| ==> at[k] < |tokens|
  {
  }

  /** The line has a character that is neither a space nor a tab, and no kept token covers it. */
  ghost predicate Uncounted(lines: seq<string>, kept: seq<Span>, n: nat) {
    && n < |lines| && (exists c <- lines[n] :: c != ' ' && c != '\t')
    && forall k :: 0 <= k < |kept| ==> !kept[k].Holds(n)
  }

  /** A longest run of such lines. */
  ghost predicate IsRun(lines: seq<string>, kept: seq<Span>, span: Span) {
    && span.origin == Uncovered && span.start < span.end
    && (forall n: nat :: span.Holds(n) ==> Uncounted(lines, kept, n))
    && !Uncounted(lines, kept, span.end) && (span.start > 0 ==> !Uncounted(lines, kept, span.start - 1))
  }

  lemma LooseExactly(lines: seq<string>, kept: seq<Span>, n: nat)
    ensures Loose(lines, CoveredLines(kept), n) <==> Uncounted(lines, kept, n)
  {
    CoveredExactly(kept, n);
  }

  ghost predicate LooseRun(lines: seq<string>, covered: set<nat>, span: Span) {
    && span.origin == Uncovered && span.start < span.end
    && (forall n: nat :: span.Holds(n) ==> Loose(lines, covered, n))
    && !Loose(lines, covered, span.end) && (span.start > 0 ==> !Loose(lines, covered, span.start - 1))
  }

  lemma RunExactly(lines: seq<string>, kept: seq<Span>, span: Span)
    ensures LooseRun(lines, CoveredLines(kept), span) <==> IsRun(lines, kept, span)
  {
    forall n: nat ensures Loose(lines, CoveredLines(kept), n) <==> Uncounted(lines, kept, n) {
      LooseExactly(lines, kept, n);
    }
    hide Loose, Uncounted, CoveredLines;
  }

  /** From a line that does not continue a run, the runs found are the runs there are. */
  lemma {:induction false} RunsAreAll(lines: seq<string>, covered: set<nat>, from: nat, span: Span)
    requires from <= |lines|
    requires from == 0 || !Loose(lines, covered, from - 1) || !Loose(lines, covered, from)
    ensures multiset(RunsFrom(lines, covered, from))[span] ==
            if from <= span.start && LooseRun(lines, covered, span) then 1 else 0
    decreases |lines| - from
  {
    if from == |lines| {
      if from <= span.start && span.start < span.end {
        assert span.Holds(span.start);
      }
    } else if !Loose(lines, covered, from) {
      RunsAreAll(lines, covered, from + 1, span);
      assert span.start == from && span.start < span.end ==> span.Holds(from);
    } else {
      var end := RunEnd(lines, covered, from);
      RunsAreAll(lines, covered, end, span);
      FirstRun(lines, covered, from, end, span);
      hide RunEnd, Loose, LooseRun;
      assert RunsFrom(lines, covered, from) == [Span(from, end, Uncovered)] + RunsFrom(lines, covered, end);
    }
  }

  /** The only run that starts between `from` and the end of its run is that run. */
  lemma FirstRun(lines: seq<string>, covered: set<nat>, from: nat, end: nat, span: Span)
    requires from < end && !Loose(lines, covered, end) && (from == 0 || !Loose(lines, covered, from - 1))
    requires forall k :: from <= k < end ==> Loose(lines, covered, k)
    ensures LooseRun(lines, covered, Span(from, end, Uncovered))
    ensures from <= span.start < end && LooseRun(lines, covered, span) ==> span == Span(from, end, Uncovered)
  {
    hide Loose;
    if from <= span.start < end && LooseRun(lines, covered, span) {
      assert !(from <= span.start - 1 < end);
      assert !(from <= span.end < end) && !span.Holds(end);
    }
  }

  /** The spans are the kept tokens' and the longest runs of uncovered lines that are not blank, each once. */
  lemma SpansExactly(lines: seq<string>, tokens: seq<Token>) returns (kept: seq<Span>, at: seq<nat>)
    ensures KeptFrom(tokens, kept, at)
    ensures forall span :: multiset(SourceSpans(lines, tokens))[span]
                           == multiset(kept)[span] + if IsRun(lines, kept, span) then 1 else 0
  {
    kept := Kept(tokens);
    at := KeptExactly(tokens);
    var runs := RunsFrom(lines, CoveredLines(kept), 0);
    assert multiset(SourceSpans(lines, tokens)) == multiset(kept) + multiset(runs);
    forall span ensures multiset(runs)[span] == if IsRun(lines, kept, span) then 1 else 0 {
      RunsAreAll(lines, CoveredLines(kept), 0, span);
      RunExactly(lines, kept, span);
    }
    hide KeptFrom, IsRun, Kept, CoveredLines, RunsFrom, SourceSpans;
  }

  /** How many spans hold a line: one if it is not blank or a kept token covers it, else none. */
  lemma OneHolderExactly(lines: seq<string>, tokens: seq<Token>, n: nat)
    ensures exists kept: seq<Span>, at: seq<nat> :: KeptFrom(tokens, kept, at) &&
              Holders(SourceSpans(lines, tokens), n) ==
              if (exists k :: 0 <= k < |kept| && kept[k].Holds(n)) ||
                 (n < |lines| && exists c <- lines[n] :: c != ' ' && c != '\t') then 1 else 0
  {
    var at := KeptExactly(tokens);
    EveryLineInOneBlock(lines, tokens, n);
    CoveredExactly(Kept(tokens), n);
    hide KeptFrom, Holders, SourceSpans, Kept, CoveredLines;
    assert KeptFrom(tokens, Kept(tokens), at);
  }

  // ---------- sorting the blocks sorts the spans ----------

  lemma {:induction false} InsertBlock(lines: seq<string>, firstLine: nat, x: Span, spans: seq<Span>)
    ensures Insert(BlockOf(lines, firstLine, x), BlocksOf(lines, firstLine, spans), LineBefore) ==
            BlocksOf(lines, firstLine, Insert(x, spans, StartsBefore))
  {
    if spans == [] || !StartsBefore(spans[0], x) {
    } else {
      InsertBlock(lines, firstLine, x, spans[1..]);
    }
  }

  lemma {:induction false} SortBlocks(lines: seq<string>, firstLine: nat, spans: seq<Span>)
    ensures Sort(BlocksOf(lines, firstLine, spans), LineBefore) ==
            BlocksOf(lines, firstLine, Sort(spans, StartsBefore))
  {
    if spans != [] {
      SortBlocks(lines, firstLine, spans[1..]);
      InsertBlock(lines, firstLine, spans[0], Sort(spans[1..], StartsBefore));
    }
  }

  // ---------- the function ----------

  lemma BlocksSnoc(lines: seq<string>, firstLine: nat, spans: seq<Span>, span: Span)
    ensures BlocksOf(lines, firstLine, spans + [span]) ==
            BlocksOf(lines, firstLine, spans) + [BlockOf(lines, firstLine, span)]
  {
  }

  lemma KeptSnoc(tokens: seq<Token>, i: nat)
    requires i < |tokens|
    ensures var kept, token := Kept(tokens[..i]), tokens[i];
            Kept(tokens[..i + 1]) ==
            if Considered(token) && CoveredLines(kept) !! Range(token.lineMap.start, token.lineMap.end)
            then kept + [SpanOf(token)]
            else kept
  {
    assert tokens[..i + 1][..i] == tokens[..i];
  }

  ghost predicate TokensRead(lines: seq<string>, tokens: seq<Token>, firstLine: nat, i: nat,
                             blocks: seq<Block>, covered: set<nat>) {
    && i <= |tokens|
    && blocks == BlocksOf(lines, firstLine, Kept(tokens[..i]))
    && covered == CoveredLines(Kept(tokens[..i]))
  }

  lemma TokenKept(lines: seq<string>, tokens: seq<Token>, firstLine: nat, i: nat,
                  blocks: seq<Block>, covered: set<nat>)
    requires TokensRead(lines, tokens, firstLine, i, blocks, covered) && i < |tokens| && Considered(tokens[i])
    requires covered * Range(tokens[i].lineMap.start, tokens[i].lineMap.end) == {}
    ensures var start, end := tokens[i].lineMap.start, tokens[i].lineMap.end;
            var block := Block(firstLine + start, JoinLines(Slice(lines, start, end)), FromToken(tokens[i].kind));
            TokensRead(lines, tokens, firstLine, i + 1, blocks + [block], covered + Range(start, end))
  {
    var kept, span := Kept(tokens[..i]), SpanOf(tokens[i]);
    assert covered == CoveredLines(kept) && blocks == BlocksOf(lines, firstLine, kept);
    assert span == Span(tokens[i].lineMap.start, tokens[i].lineMap.end, FromToken(tokens[i].kind));
    hide Kept, CoveredLines, BlocksOf, BlockOf, JoinLines, Slice, Considered, SpanOf;
    KeptOne(tokens, i);
    CoveredSnoc(kept, span);
    BlocksSnoc(lines, firstLine, kept, span);
    BlockIs(lines, firstLine, span);
    hide Range;
  }

  lemma KeptOne(tokens: seq<Token>, i: nat)
    requires i < |tokens| && Considered(tokens[i])
    requires CoveredLines(Kept(tokens[..i])) * Range(tokens[i].lineMap.start, tokens[i].lineMap.end) == {}
    ensures Kept(tokens[..i + 1]) == Kept(tokens[..i]) + [SpanOf(tokens[i])]
  {
    KeptSnoc(tokens, i);
    hide Kept, CoveredLines;
  }

  lemma BlockIs(lines: seq<string>, firstLine: nat, span: Span)
    ensures BlockOf(lines, firstLine, span) ==
            Block(firstLine + span.start, JoinLines(Slice(lines, span.start, span.end)), span.origin)
  {
    hide JoinLines, Slice;
  }

  lemma TokenDropped(lines: seq<string>, tokens: seq<Token>, firstLine: nat, i: nat,
                     blocks: seq<Block>, covered: set<nat>)
    requires TokensRead(lines, tokens, firstLine, i, blocks, covered) && i < |tokens|
    requires Considered(tokens[i]) ==> covered * Range(tokens[i].lineMap.start, tokens[i].lineMap.end) != {}
    ensures TokensRead(lines, tokens, firstLine, i + 1, blocks, covered)
  {
    KeptSnoc(tokens, i);
    hide Kept, CoveredLines, BlocksOf;
  }

  lemma AllTokensRead(lines: seq<string>, tokens: seq<Token>, firstLine: nat, blocks: seq<Block>, covered: set<nat>)
    requires TokensRead(lines, tokens, firstLine, |tokens|, blocks, covered)
    ensures blocks == BlocksOf(lines, firstLine, Kept(tokens)) && covered == CoveredLines(Kept(tokens))
  {
    assert tokens[..|tokens|] == tokens;
  }

  /** The runs up to line `number` are `spans[|kept|..]`, and `run` is the one still open. */
  ghost predicate RunsRead(lines: seq<string>, kept: seq<Span>, covered: set<nat>, number: nat, run: seq<nat>,
                           spans: seq<Span>) {
    && |run| <= number <= |lines| + 1
    && (forall k :: 0 <= k < |run| ==> run[k] == number - |run| + k && Loose(lines, covered, run[k]))
    && (number > |lines| ==> run == [])
    && kept + RunsAhead(lines, covered, 0) == spans + RunsAhead(lines, covered, number - |run|)
  }

  /** The runs from a line on, none past the last. */
  ghost function RunsAhead(lines: seq<string>, covered: set<nat>, n: nat): seq<Span> {
    if n > |lines| then [] else RunsFrom(lines, covered, n)
  }

  lemma {:induction false} RunEndsAt(lines: seq<string>, covered: set<nat>, n: nat, end: nat)
    requires n <= end <= |lines| && !Loose(lines, covered, end)
    requires forall k :: n <= k < end ==> Loose(lines, covered, k)
    ensures RunEnd(lines, covered, n) == end
  {
    assert Loose(lines, covered, n) || n == end;
  }

  lemma RunClosed(lines: seq<string>, kept: seq<Span>, covered: set<nat>, number: nat, run: seq<nat>,
                  spans: seq<Span>)
    requires RunsRead(lines, kept, covered, number, run, spans) && run != [] && !Loose(lines, covered, number)
    ensures RunsRead(lines, kept, covered, number + 1, [], spans + [Span(run[0], run[|run| - 1] + 1, Uncovered)])
  {
    var span := Span(run[0], number, Uncovered);
    assert run[|run| - 1] + 1 == number && number <= |lines|;
    forall k | run[0] <= k < number ensures Loose(lines, covered, k) {
      assert run[k - run[0]] == k;
    }
    OneRun(lines, covered, run[0], number);
    Regroup(spans, [span], RunsAhead(lines, covered, number + 1));
    hide RunsAhead, Loose;
  }

  /** A run and the line that ends it. */
  lemma OneRun(lines: seq<string>, covered: set<nat>, n: nat, end: nat)
    requires n < end <= |lines| && !Loose(lines, covered, end)
    requires forall k :: n <= k < end ==> Loose(lines, covered, k)
    ensures RunsAhead(lines, covered, n) == [Span(n, end, Uncovered)] + RunsAhead(lines, covered, end + 1)
  {
    RunEndsAt(lines, covered, n, end);
    assert RunsFrom(lines, covered, n) == [Span(n, end, Uncovered)] + RunsFrom(lines, covered, end);
    hide Loose, RunEnd;
  }

  lemma RunsStart(lines: seq<string>, kept: seq<Span>, covered: set<nat>)
    ensures RunsRead(lines, kept, covered, 0, [], kept)
  {
  }

  lemma RunIsInterval(lines: seq<string>, kept: seq<Span>, covered: set<nat>, number: nat, run: seq<nat>,
                      spans: seq<Span>)
    requires RunsRead(lines, kept, covered, number, run, spans) && run != []
    ensures number <= |lines| && run[0] < number == run[|run| - 1] + 1
  {
  }

  lemma RunGrows(lines: seq<string>, kept: seq<Span>, covered: set<nat>, number: nat, run: seq<nat>,
                 spans: seq<Span>)
    requires RunsRead(lines, kept, covered, number, run, spans) && Loose(lines, covered, number)
    ensures RunsRead(lines, kept, covered, number + 1, run + [number], spans)
  {
  }

  lemma NoRun(lines: seq<string>, kept: seq<Span>, covered: set<nat>, number: nat, spans: seq<Span>)
    requires RunsRead(lines, kept, covered, number, [], spans) && number <= |lines| && !Loose(lines, covered, number)
    ensures RunsRead(lines, kept, covered, number + 1, [], spans)
  {
  }

  lemma RunsEnd(lines: seq<string>, kept: seq<Span>, covered: set<nat>, run: seq<nat>, spans: seq<Span>)
    requires RunsRead(lines, kept, covered, |lines| + 1, run, spans)
    ensures spans == kept + RunsFrom(lines, covered, 0)
  {
  }

  /** The first pass: a block for each token that no earlier one overlaps. */
  method TokenBlocks(lines: seq<string>, tokens: seq<Token>, firstLine: nat)
    returns (blocks: seq<Block>, covered: set<nat>)
    ensures blocks == BlocksOf(lines, firstLine, Kept(tokens)) && covered == CoveredLines(Kept(tokens))
  {
    blocks := [];
    covered := {};
    assert TokensRead(lines, tokens, firstLine, 0, blocks, covered);
    hide TokensRead, BlocksOf, JoinLines, Slice, CoveredLines, Kept;
    for i := 0 to |tokens|
      invariant TokensRead(lines, tokens, firstLine, i, blocks, covered)
    {
      var token := tokens[i];
      if token.lineMap.Lines? && !token.kind.Other?
         && covered * Range(token.lineMap.start, token.lineMap.end) == {} {
        var start, end := token.lineMap.start, token.lineMap.end;
        TokenKept(lines, tokens, firstLine, i, blocks, covered);
        covered := covered + Range(start, end);
        blocks := blocks + [Block(firstLine + start, JoinLines(Slice(lines, start, end)), FromToken(token.kind))];
      } else {
        TokenDropped(lines, tokens, firstLine, i, blocks, covered);
      }
    }
    AllTokensRead(lines, tokens, firstLine, blocks, covered);
  }

  /** Split a document into blocks; `tokens` is what the parser returned, or nothing when it was not parsed. */
  method MarkdownBlocks(lines: seq<string>, tokens: seq<Token>, firstLine: nat) returns (blocks: seq<Block>)
    ensures blocks == BlocksOf(lines, firstLine, SourceSpans(lines, tokens))
  {
    var covered;
    blocks, covered := TokenBlocks(lines, tokens, firstLine);
    hide RunsRead, BlocksOf, JoinLines, Slice, RunsFrom, CoveredLines, Kept, Insert, Sort;
    ghost var kept := Kept(tokens);
    ghost var spans := kept;
    var run: seq<nat> := [];
    RunsStart(lines, kept, covered);
    for number := 0 to |lines| + 1
      invariant RunsRead(lines, kept, covered, number, run, spans)
      invariant blocks == BlocksOf(lines, firstLine, spans)
    {
      if number < |lines| && number !in covered && !Blank(lines[number]) {
        RunGrows(lines, kept, covered, number, run, spans);
        run := run + [number];
      } else if run != [] {
        RunIsInterval(lines, kept, covered, number, run, spans);
        var start, end := run[0], run[|run| - 1] + 1;
        RunClosed(lines, kept, covered, number, run, spans);
        BlocksSnoc(lines, firstLine, spans, Span(start, end, Uncovered));
        blocks := blocks + [Block(firstLine + start, JoinLines(Slice(lines, start, end)), Uncovered)];
        spans := spans + [Span(start, end, Uncovered)];
        run := [];
      } else {
        NoRun(lines, kept, covered, number, spans);
      }
    }
    RunsEnd(lines, kept, covered, run, spans);
    blocks := Sort(blocks, LineBefore);
    SortBlocks(lines, firstLine, spans);
  }
}
