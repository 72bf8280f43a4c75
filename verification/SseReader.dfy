/**
 The bounded streaming SSE reader: chunks, lines and events, each pulled from the one before it on demand.

 The three generators are objects whose `Next` advances them by one item.  A source is an arbitrary list of
 chunks (empty ones included) that then ends or breaks off.  The main result, `ReadSseResponse`, is that how the
 bytes were chunked does not matter, and that an answer is returned at the first chunk that completes it.
 */
module SseReader {
  import opened Sequences
  import opened SseEvents
  import opened SseLines
  import opened Wrappers

  datatype Pull<+T> = Item(item: T) | End | Capped | Broken

  // ---------- byte strings in chunks ----------

  function Flat(chunks: seq<seq<Byte>>): seq<Byte> {
    if chunks == [] then [] else Flat(chunks[..|chunks| - 1]) + chunks[|chunks| - 1]
  }

  function Clip(bytes: seq<Byte>, cap: nat): seq<Byte> {
    if |bytes| <= cap then bytes else bytes[..cap]
  }

  /** What a reader with this cap has received after `k` chunks. */
  function ReceivedAt(chunks: seq<seq<Byte>>, cap: nat, k: nat): seq<Byte>
    requires k <= |chunks|
  {
    Clip(Flat(chunks[..k]), cap)
  }

  lemma FlatSnoc(chunks: seq<seq<Byte>>, k: nat)
    requires k < |chunks|
    ensures Flat(chunks[..k + 1]) == Flat(chunks[..k]) + chunks[k]
  {
    assert chunks[..k + 1][..k] == chunks[..k];
  }

  lemma {:induction false} FlatPrefix(chunks: seq<seq<Byte>>, k: nat)
    requires k <= |chunks|
    ensures Flat(chunks[..k]) <= Flat(chunks)
    decreases |chunks| - k
  {
    if k == |chunks| {
      assert chunks[..k] == chunks;
    } else {
      FlatSnoc(chunks, k);
      FlatPrefix(chunks, k + 1);
    }
  }

  lemma ReceivedGrows(chunks: seq<seq<Byte>>, cap: nat, k: nat)
    requires k <= |chunks|
    ensures ReceivedAt(chunks, cap, k) <= Clip(Flat(chunks), cap)
  {
    FlatPrefix(chunks, k);
  }

  // ---------- the response body ----------

  /** The chunks of a response body, which ends normally or breaks off with a transport error. */
  class ChunkSource {
    const chunks: seq<seq<Byte>>
    const broken: bool
    var pos: nat

    constructor (chunks: seq<seq<Byte>>, broken: bool)
      ensures this.chunks == chunks && this.broken == broken && pos == 0
    {
      this.chunks, this.broken, this.pos := chunks, broken, 0;
    }

    method Next() returns (pull: Pull<seq<Byte>>)
      requires pos <= |chunks|
      modifies this
      ensures old(pos) < |chunks| ==> pull == Item(chunks[old(pos)]) && pos == old(pos) + 1
      ensures old(pos) == |chunks| ==> pull == (if broken then Broken else End) && pos == old(pos)
    {
      if pos == |chunks| {
        pull := if broken then Broken else End;
      } else {
        pull, pos := Item(chunks[pos]), pos + 1;
      }
    }
  }

  /** `_bounded_chunks`: count bytes before anything is buffered, and stop past the cap. */
  class BoundedChunks {
    const source: ChunkSource
    const cap: nat
    var read: nat
    var raising: bool

    ghost predicate Valid()
      reads this, source
    {
      && source.pos <= |source.chunks|
      && read == |Flat(source.chunks[..source.pos])|
      && (raising <==> read > cap)
    }

    ghost function Received(): seq<Byte>
      requires Valid()
      reads this, source
    {
      ReceivedAt(source.chunks, cap, source.pos)
    }

    constructor (source: ChunkSource, cap: nat)
      requires source.pos == 0
      ensures Valid() && this.source == source && this.cap == cap && Received() == []
    {
      this.source, this.cap, this.read, this.raising := source, cap, 0, false;
    }

    method Next() returns (pull: Pull<seq<Byte>>)
      requires Valid()
      modifies this, source
      ensures Valid()
      ensures pull.Item? ==> source.pos == old(source.pos) + 1 && Received() == old(Received()) + pull.item
      ensures !pull.Item? ==> Received() == old(Received())
      ensures pull.Capped? <==> !pull.Item? && read > cap
      ensures pull.Capped? ==> old(source.pos) <= source.pos <= old(source.pos) + 1
      ensures pull.End? || pull.Broken? ==>
        source.pos == old(source.pos) == |source.chunks| && pull.Broken? == source.broken
    {
      if raising {
        return Capped;
      }
      var next := source.Next();
      if !next.Item? {
        return next;
      }
      FlatSnoc(source.chunks, source.pos - 1);
      ghost var before := Flat(source.chunks[..source.pos - 1]);
      var space := cap - read;
      read := read + |next.item|;
      if read > cap {
        raising := true;
        assert (before + next.item)[..cap] == before + next.item[..space];
        if space > 0 {
          return Item(next.item[..space]);
        }
        return Capped;
      }
      return next;
    }
  }

  datatype Body = Whole(bytes: seq<Byte>) | OverCap | BrokenOff

  /**
   The body of a JSON answer, read whole: exactly the bytes sent when they fit the cap; otherwise the cap is
   signalled, and it is signalled only then.
   */
  method ReadBody(chunks: seq<seq<Byte>>, broken: bool, cap: nat) returns (body: Body)
    ensures body == if |Flat(chunks)| > cap then OverCap
                    else if broken then BrokenOff
                    else Whole(Flat(chunks))
  {
    var source := new ChunkSource(chunks, broken);
    var bounded := new BoundedChunks(source, cap);
    var bytes := [];
    while true
      invariant fresh(source) && fresh(bounded) && bounded.source == source && source.chunks == chunks
      invariant bounded.cap == cap && source.broken == broken
      invariant bounded.Valid() && bytes == bounded.Received()
      decreases |chunks| - source.pos
    {
      var pull := bounded.Next();
      FlatPrefix(chunks, source.pos);
      match pull {
        case Item(chunk) => bytes := bytes + chunk;
        case Capped => return OverCap;
        case Broken =>
          assert chunks[..source.pos] == chunks;
          return BrokenOff;
        case End =>
          assert chunks[..source.pos] == chunks;
          return Whole(bytes);
      }
    }
  }

  /** A mutable byte buffer that the line cutter consumes in place. */
  class ByteArray {
    var data: seq<Byte>

    constructor ()
      ensures data == []
    {
      data := [];
    }
  }

  /** `bytes.find`: the first index of a byte, or -1. */
  method Find(data: seq<Byte>, wanted: Byte) returns (i: int)
    ensures -1 <= i < |data|
    ensures i >= 0 ==> data[i] == wanted
    ensures forall k :: 0 <= k < (if i < 0 then |data| else i) ==> data[k] != wanted
  {
    i := 0;
    while i < |data|
      invariant 0 <= i <= |data|
      invariant forall k :: 0 <= k < i ==> data[k] != wanted
    {
      if data[i] == wanted {
        return;
      }
      i := i + 1;
    }
    i := -1;
  }

  /** The earlier of the first CR and the first LF, or -1 when there is neither. */
  method FirstTerminator(data: seq<Byte>) returns (end: int)
    ensures end == LineEnd(data)
  {
    hide LineEnd;
    var cr := Find(data, CR);
    var lf := Find(data, LF);
    end := if cr < 0 then lf else if lf < 0 then cr else if cr < lf then cr else lf;
    if end >= 0 {
      LineEndIs(data, end);
    }
  }

  /** Cutting what is left, behind the lines already cut, gives the whole. */
  ghost predicate Cutting(whole: Taken, lines: seq<seq<Byte>>, data: seq<Byte>, skipLf: bool) {
    whole == Ahead(lines, Take(data, skipLf))
  }

  lemma CutStart(data: seq<Byte>, skipLf: bool)
    ensures Cutting(Take(data, skipLf), [], data, skipLf)
  {
    assert [] + Take(data, skipLf).lines == Take(data, skipLf).lines;
  }

  /** The second half of a CRLF goes, and anything else stays. */
  lemma CutFlag(whole: Taken, lines: seq<seq<Byte>>, data: seq<Byte>)
    requires data != [] && Cutting(whole, lines, data, true)
    ensures data[0] == LF ==> Cutting(whole, lines, data[1..], false)
    ensures data[0] != LF ==> Cutting(whole, lines, data, false)
  {
    if data[0] == LF {
      TakeCutsNothing(data, true);
    } else {
      TakeIgnoresFlag(data, true);
    }
    hide Take, Ahead;
  }

  /** One pass of the cutter: a line cut off the front goes behind the lines already cut. */
  lemma CutLine(whole: Taken, lines: seq<seq<Byte>>, data: seq<Byte>)
    requires Cutting(whole, lines, data, false) && LineEnd(data) >= 0
    ensures var end := LineEnd(data);
            end < |data| && Cutting(whole, lines + [data[..end]], data[end + 1..], data[end] == CR)
  {
    hide Take, Ahead, LineEnd;
    var end := LineEnd(data);
    TakeCutsLine(data, false);
    AheadTwice(lines, data[..end], Take(data[end + 1..], data[end] == CR));
  }

  lemma AheadTwice(lines: seq<seq<Byte>>, line: seq<Byte>, more: Taken)
    ensures Ahead(lines, more.(lines := [line] + more.lines)) == Ahead(lines + [line], more)
  {
    Regroup(lines, [line], more.lines);
  }

  /** Nothing is left to cut. */
  lemma CutEnd(whole: Taken, lines: seq<seq<Byte>>, data: seq<Byte>, skipLf: bool)
    requires Cutting(whole, lines, data, skipLf) && (data == [] || (LineEnd(data) < 0 && !skipLf))
    ensures whole == Taken(lines, data, skipLf)
  {
    TakeCutsNothing(data, skipLf);
    hide Take, LineEnd;
    assert lines + [] == lines;
  }

  function Ahead(lines: seq<seq<Byte>>, taken: Taken): Taken {
    taken.(lines := lines + taken.lines)
  }

  /** `_take_lines`: remove the complete lines from the buffer. */
  method TakeLines(buffer: ByteArray, skipLf: bool) returns (lines: seq<seq<Byte>>, skip: bool)
    modifies buffer
    ensures Taken(lines, buffer.data, skip) == Take(old(buffer.data), skipLf)
  {
    lines, skip := [], skipLf;
    ghost var whole := Take(buffer.data, skipLf);
    CutStart(buffer.data, skipLf);
    hide *;
    while buffer.data != []
      invariant Cutting(whole, lines, buffer.data, skip)
      decreases |buffer.data|
    {
      var data := buffer.data;
      if skip {
        CutFlag(whole, lines, data);
        skip := false;
        if data[0] == LF {
          buffer.data := data[1..];
          continue;
        }
      }
      var end := FirstTerminator(data);
      if end < 0 {
        break;
      }
      CutLine(whole, lines, data);
      lines := lines + [data[..end]];
      skip := data[end] == CR;
      buffer.data := data[end + 1..];
    }
    CutEnd(whole, lines, buffer.data, skip);
  }

  /** `_bounded_lines`: the lines of a body, without a leading BOM, each handed out as soon as it has ended. */
  class BoundedLines {
    const chunks: BoundedChunks
    const buffer: ByteArray
    var bomChecked: bool
    var skipLf: bool
    var pending: seq<seq<Byte>>
    var ended: bool
    ghost var yielded: seq<seq<Byte>>

    /** Before the BOM is settled nothing was cut; afterwards the buffer is what cutting all of it once leaves. */
    ghost predicate Valid()
      reads this, chunks, chunks.source, buffer
    {
      && chunks.Valid()
      && var received := chunks.Received();
      && (!bomChecked && !ended ==>
            && buffer.data == received && received <= BOM && |received| < |BOM|
            && !skipLf && pending == [] && yielded == [])
      && (bomChecked && !ended ==>
            && (|received| >= |BOM| || !(received <= BOM))
            && Take(DropBom(received), false) == Taken(yielded + pending, buffer.data, skipLf))
      && (ended ==> pending == [] && chunks.read <= chunks.cap && !chunks.source.broken
                    && chunks.source.pos == |chunks.source.chunks|)
    }

    constructor (chunks: BoundedChunks)
      requires chunks.Valid() && chunks.Received() == []
      ensures Valid() && this.chunks == chunks && fresh(buffer) && yielded == [] && !ended
    {
      this.chunks := chunks;
      buffer := new ByteArray();
      bomChecked, skipLf, pending, ended, yielded := false, false, [], false, [];
    }

    /** Append one chunk to the buffer, settle the BOM, and cut the lines it completes. */
    method Accept(chunk: seq<Byte>, ghost before: seq<Byte>)
      requires chunks.Valid() && chunks.Received() == before + chunk && pending == [] && !ended
      requires !bomChecked ==> buffer.data == before && before <= BOM && |before| < |BOM| && !skipLf && yielded == []
      requires bomChecked ==> |before| >= |BOM| || !(before <= BOM)
      requires bomChecked ==> Take(DropBom(before), false) == Taken(yielded, buffer.data, skipLf)
      modifies this, buffer
      ensures Valid() && !ended && yielded == old(yielded)
    {
      hide Take;
      ghost var received := before + chunk;
      buffer.data := buffer.data + chunk;
      if !bomChecked {
        if |buffer.data| < |BOM| && buffer.data <= BOM {
          return;
        }
        if BOM <= buffer.data {
          buffer.data := buffer.data[|BOM|..];
        }
        bomChecked := true;
        assert buffer.data == DropBom(received);
      } else {
        DropBomAppend(before, chunk);
        TakeAppend(DropBom(before), chunk, false);
      }
      pending, skipLf := TakeLines(buffer, skipLf);
      assert [] + pending == pending;
    }

    /** The lines handed out, then those waiting, are the ended lines of what was received. */
    lemma LinesSoFar()
      requires Valid() && !ended
      ensures yielded + pending == TerminatedLines(chunks.Received())
    {
      if !bomChecked {
        PartialBomHoldsNoLine(chunks.Received());
      }
    }

    /** Pull one chunk; the end of the body hands out a last line that nothing ended. */
    method Refill() returns (pull: Option<Pull<seq<Byte>>>)
      requires Valid() && !ended && pending == []
      modifies this, chunks, chunks.source, buffer
      ensures Valid()
      ensures pull.None? ==> !ended && chunks.source.pos == old(chunks.source.pos) + 1 && yielded == old(yielded)
      ensures pull.Some? ==> pending == [] && chunks.Received() == old(chunks.Received())
      ensures pull.Some? ==> old(chunks.source.pos) <= chunks.source.pos <= old(chunks.source.pos) + 1
      ensures pull.Some? ==> (pull.value.Item? || pull.value.End? <==> ended)
      ensures pull.Some? ==> pull.value.Item? ==> pull.value.item != [] && yielded == old(yielded) + [pull.value.item]
      ensures pull.Some? ==> !pull.value.Item? ==> yielded == old(yielded)
      ensures ended ==> yielded == BatchLines(chunks.Received())
      ensures pull.Some? ==> pull.value.Capped? ==> chunks.read > chunks.cap
      ensures pull.Some? ==> pull.value.Broken? ==>
        chunks.source.broken && chunks.read <= chunks.cap && chunks.source.pos == |chunks.source.chunks|
    {
      hide Take, BatchLines;
      ghost var before := chunks.Received();
      assert yielded + pending == yielded;
      var chunk := chunks.Next();
      match chunk {
        case Item(bytes) =>
          Accept(bytes, before);
          return None;
        case End =>
          ended := true;
          ReaderLinesAreBatchLines(before);
          if !bomChecked {
            PartialBomHoldsNoLine(before);
          }
          assert yielded + [] == yielded;
          if buffer.data != [] {
            yielded := yielded + [buffer.data];
            return Some(Item(buffer.data));
          }
          return Some(End);
        case _ =>
          return Some(chunk);
      }
    }

    /** Hand out the first waiting line. */
    method Pop() returns (line: seq<Byte>)
      requires Valid() && pending != []
      modifies this
      ensures Valid() && !ended && line == old(pending)[0]
      ensures yielded == old(yielded) + [line] && pending == old(pending)[1..]
    {
      hide Take;
      assert yielded + pending == (yielded + [pending[0]]) + pending[1..];
      line := pending[0];
      yielded, pending := yielded + [line], pending[1..];
    }

    /** The next line; a chunk is pulled only while no ended line is waiting. */
    method Next() returns (pull: Pull<seq<Byte>>)
      requires Valid() && !ended
      modifies this, chunks, chunks.source, buffer
      ensures Valid()
      ensures old(chunks.source.pos) <= chunks.source.pos
      ensures forall k :: old(chunks.source.pos) <= k < chunks.source.pos ==>
        TerminatedLines(ReceivedAt(chunks.source.chunks, chunks.cap, k)) == old(yielded)
      ensures pull.Item? ==> yielded == old(yielded) + [pull.item]
      ensures pull.Item? && ended ==> pull.item != []
      ensures pull.Item? && !ended ==> chunks.source.pos > old(chunks.source.pos) || |pending| < |old(pending)|
      ensures !pull.Item? ==> yielded == old(yielded) && pending == []
      ensures ended ==> old(yielded) == TerminatedLines(chunks.Received())
      ensures ended ==> yielded == BatchLines(chunks.Received())
      ensures pull.Capped? ==> !ended && chunks.read > chunks.cap
      ensures pull.Broken? ==> !ended && chunks.source.broken && chunks.read <= chunks.cap
                               && chunks.source.pos == |chunks.source.chunks|
      ensures pull.End? ==> ended
    {
      hide Take, TerminatedLines, BatchLines, DropBom, Clip, Flat;
      ghost var start := chunks.source.pos;
      while pending == []
        invariant Valid() && yielded == old(yielded) && !ended
        invariant start <= chunks.source.pos
        invariant pending == old(pending) || start < chunks.source.pos
        invariant forall k :: start <= k < chunks.source.pos ==>
          TerminatedLines(ReceivedAt(chunks.source.chunks, chunks.cap, k)) == yielded
        decreases |chunks.source.chunks| - chunks.source.pos
      {
        LinesSoFar();
        assert yielded + pending == yielded;
        var stop := Refill();
        if stop.Some? {
          return stop.value;
        }
      }
      var line := Pop();
      return Item(line);
    }
  }

  /**
   Every line `_bounded_lines` yields before it ends or raises: the batch lines of a whole body, and otherwise
   the ended lines of what was received.
   */
  method ReadLines(chunks: seq<seq<Byte>>, broken: bool, cap: nat) returns (all: seq<seq<Byte>>, stop: Pull<()>)
    ensures stop == if |Flat(chunks)| > cap then Capped else if broken then Broken else End
    ensures all == if stop == End then BatchLines(Flat(chunks)) else TerminatedLines(Clip(Flat(chunks), cap))
  {
    var source := new ChunkSource(chunks, broken);
    var bounded := new BoundedChunks(source, cap);
    var lines := new BoundedLines(bounded);
    hide Take, LineEnd, DropBom, BatchLines, Flat, Clip;
    all := [];
    while !lines.ended
      invariant fresh(source) && fresh(bounded) && fresh(lines) && fresh(lines.buffer)
      invariant lines.chunks == bounded && bounded.source == source && source.chunks == chunks
      invariant bounded.cap == cap && source.broken == broken
      invariant lines.Valid() && all == lines.yielded
      invariant lines.ended ==> all == BatchLines(bounded.Received())
      decreases !lines.ended, |chunks| - source.pos, |lines.pending|
    {
      var pull := lines.Next();
      if pull.Item? {
        all := all + [pull.item];
      } else if !lines.ended {
        lines.LinesSoFar();
        assert lines.yielded + lines.pending == lines.yielded;
        AllReceived(chunks, source.pos, cap);
        return all, if pull.Capped? then Capped else Broken;
      }
    }
    AllReceived(chunks, source.pos, cap);
    Unclipped(Flat(chunks), cap);
    stop := End;
  }

  lemma Unclipped(bytes: seq<Byte>, cap: nat)
    requires |bytes| <= cap
    ensures Clip(bytes, cap) == bytes
  {
  }

  // ---------- the first answering event ----------

  datatype Verdict<+Id> = Answered(message: Message<Id>) | Unanswered | CapReached | StreamBroke

  /** The answer a body holds, read off the whole byte string at once. */
  function BatchVerdict<Id(==)>(
      bytes: seq<Byte>, broken: bool, cap: nat, codec: Codec<Id>, id: Option<Id>): Verdict<Id>
  {
    var answer := AnswerIn(Clip(bytes, cap), codec, id);
    if answer.Some? then Answered(answer.value)
    else if |bytes| > cap then CapReached
    else if broken then StreamBroke
    else Unanswered
  }

  /** `m` is dispatched by the first event of the body that answers `id`, among those a blank line ended. */
  ghost predicate FirstAnswering<Id>(
      bytes: seq<Byte>, cap: nat, codec: Codec<Id>, id: Option<Id>, m: Message<Id>)
  {
    var groups := Groups(Decoded(TerminatedLines(Clip(bytes, cap)), codec.decode));
    exists i :: 0 <= i < |groups| && MessageOf(groups[i], codec) == Some(m) && Replies(m, id) &&
                forall j :: 0 <= j < i ==>
                  MessageOf(groups[j], codec).None? || !Replies(MessageOf(groups[j], codec).value, id)
  }

  /**
   The verdict is `m` exactly when `m` comes from the first blank-line-ended event within the cap whose message is an
   object with a result or an error under the request's own id, or with an error and no id.
   */
  lemma VerdictExactly<Id>(bytes: seq<Byte>, broken: bool, cap: nat, codec: Codec<Id>, id: Option<Id>, m: Message<Id>)
    ensures BatchVerdict(bytes, broken, cap, codec, id) == Answered(m) <==>
            FirstAnswering(bytes, cap, codec, id, m)
  {
    var groups := Groups(Decoded(TerminatedLines(Clip(bytes, cap)), codec.decode));
    FirstAnswerExactly(groups, codec, id, m);
    hide FirstAnswer, Groups, Decoded, Clip, TerminatedLines, MessageOf, Replies;
  }

  lemma EveryVerdictExactly<Id(!new)>(bytes: seq<Byte>, broken: bool, cap: nat, codec: Codec<Id>, id: Option<Id>)
    ensures forall m :: BatchVerdict(bytes, broken, cap, codec, id) == Answered(m) <==>
                        FirstAnswering(bytes, cap, codec, id, m)
  {
    forall m ensures BatchVerdict(bytes, broken, cap, codec, id) == Answered(m) <==>
                     FirstAnswering(bytes, cap, codec, id, m)
    {
      VerdictExactly(bytes, broken, cap, codec, id, m);
    }
    hide BatchVerdict, FirstAnswering;
  }

  /** A body with one event, a success message: an answer exactly when it carries the request's id. */
  lemma OneSuccessMessage<Id>(bytes: seq<Byte>, broken: bool, cap: nat, codec: Codec<Id>, id: Option<Id>,
                              group: seq<string>, own: Id)
    requires |bytes| <= cap && Groups(Decoded(TerminatedLines(bytes), codec.decode)) == [group]
    requires MessageOf(group, codec) == Some(Object(Some(own), true, false))
    ensures BatchVerdict(bytes, broken, cap, codec, id) ==
            if id == Some(own) then Answered(Object(Some(own), true, false))
            else if broken then StreamBroke else Unanswered
  {
    var m := Object(Some(own), true, false);
    Unclipped(bytes, cap);
    VerdictExactly(bytes, broken, cap, codec, id, m);
    assert FirstAnswering(bytes, cap, codec, id, m) <==> id == Some(own);
    if id != Some(own) {
      var verdict := BatchVerdict(bytes, broken, cap, codec, id);
      if verdict.Answered? {
        VerdictExactly(bytes, broken, cap, codec, id, verdict.message);
      }
    }
    hide Groups, Decoded, Clip, TerminatedLines, MessageOf, AnswerIn;
  }

  /** Whether the first `k` chunks already hold an answer. */
  predicate AnsweredBy<Id(==)>(chunks: seq<seq<Byte>>, k: nat, cap: nat, codec: Codec<Id>, id: Option<Id>)
    requires k <= |chunks|
  {
    AnswerIn(ReceivedAt(chunks, cap, k), codec, id).Some?
  }

  /** Everything was received: after the last chunk, or past the cap. */
  lemma AllReceived(chunks: seq<seq<Byte>>, k: nat, cap: nat)
    requires k <= |chunks| && (k == |chunks| || |Flat(chunks[..k])| > cap)
    ensures ReceivedAt(chunks, cap, k) == Clip(Flat(chunks), cap)
    ensures |Flat(chunks)| > cap <==> |Flat(chunks[..k])| > cap
  {
    FlatPrefix(chunks, k);
    if k == |chunks| {
      assert chunks[..k] == chunks;
    }
  }

  /** An answer the first chunks hold is the answer of the whole body. */
  lemma AnsweredForGood<Id>(chunks: seq<seq<Byte>>, k: nat, cap: nat, codec: Codec<Id>, id: Option<Id>)
    requires k <= |chunks| && AnsweredBy(chunks, k, cap, codec, id)
    ensures AnswerIn(Clip(Flat(chunks), cap), codec, id) == AnswerIn(ReceivedAt(chunks, cap, k), codec, id)
  {
    ReceivedGrows(chunks, cap, k);
    var now, all := ReceivedAt(chunks, cap, k), Clip(Flat(chunks), cap);
    assert all == now + all[|now|..];
    AnswerStays(now, all[|now|..], codec, id);
  }

  /** The data fields the lines have collected since their last blank line. */
  function OpenFields<Id>(lines: seq<seq<Byte>>, codec: Codec<Id>): seq<string> {
    OpenData(Decoded(lines, codec.decode), codec.strip)
  }

  lemma NoLines<Id>(codec: Codec<Id>, id: Option<Id>)
    ensures OpenFields([], codec) == [] && AnswerInLines([], codec, id).None?
  {
  }

  /** What reading one more line does. */
  lemma OneMoreLine<Id>(lines: seq<seq<Byte>>, bytes: seq<Byte>, codec: Codec<Id>, id: Option<Id>)
    requires codec.Valid() && AnswerInLines(lines, codec, id).None?
    ensures var line, data := codec.decode(bytes), OpenFields(lines, codec);
            && OpenFields(lines + [bytes], codec)
               == (if line == "" then [] else if IsData(line) then data + [DataOf(line, codec.strip)] else data)
            && AnswerInLines(lines + [bytes], codec, id)
               == if line == "" && data != [] && AnswersRequest(codec.parse(Join(data)), id)
                  then Some(codec.parse(Join(data))) else None
  {
    DecodedAppend(lines, [bytes], codec.decode);
    assert Decoded([bytes], codec.decode) == [codec.decode(bytes)];
    AnswerSnoc(Decoded(lines, codec.decode), codec.decode(bytes), codec, id);
    OpenDataSnoc(Decoded(lines, codec.decode), codec.decode(bytes), codec.strip);
  }

  /** An answer among the lines handed out is the answer of the bytes received. */
  lemma AnsweredNow<Id>(lines: BoundedLines, codec: Codec<Id>, id: Option<Id>)
    requires lines.Valid() && !lines.ended && AnswerInLines(lines.yielded, codec, id).Some?
    ensures AnswerIn(lines.chunks.Received(), codec, id) == AnswerInLines(lines.yielded, codec, id)
  {
    lines.LinesSoFar();
    DecodedAppend(lines.yielded, lines.pending, codec.decode);
    LinesAnswerStays(Decoded(lines.yielded, codec.decode), Decoded(lines.pending, codec.decode), codec, id);
  }

  /** Read lines until one completes an answer; None when there are no more lines to read. */
  method FirstAnsweringEvent<Id(==)>(lines: BoundedLines, codec: Codec<Id>, id: Option<Id>)
    returns (answer: Option<Message<Id>>, stop: Pull<()>)
    requires codec.Valid() && lines.Valid() && !lines.ended && lines.yielded == [] && lines.chunks.source.pos == 0
    modifies lines, lines.chunks, lines.chunks.source, lines.buffer
    ensures lines.Valid()
    ensures forall k :: 0 <= k < lines.chunks.source.pos ==>
      !AnsweredBy(lines.chunks.source.chunks, k, lines.chunks.cap, codec, id)
    ensures answer == AnswerIn(lines.chunks.Received(), codec, id)
    ensures answer.None? ==>
      || (stop.Capped? && lines.chunks.read > lines.chunks.cap)
      || (lines.chunks.source.pos == |lines.chunks.source.chunks| && lines.chunks.read <= lines.chunks.cap
          && stop == if lines.chunks.source.broken then Broken else End)
  {
    hide Take, LineEnd, DropBom, TerminatedLines, Clip, Flat, ReceivedAt, AnswerInLines, OpenFields, Join;
    var data := [];
    stop := End;
    NoLines(codec, id);
    while !lines.ended
      invariant lines.Valid()
      invariant !lines.ended ==> data == OpenFields(lines.yielded, codec)
      invariant !lines.ended ==> AnswerInLines(lines.yielded, codec, id).None?
      invariant lines.ended ==> AnswerIn(lines.chunks.Received(), codec, id).None? && stop == End
      invariant forall k :: 0 <= k < lines.chunks.source.pos ==>
        !AnsweredBy(lines.chunks.source.chunks, k, lines.chunks.cap, codec, id)
      decreases !lines.ended, |lines.chunks.source.chunks| - lines.chunks.source.pos, |lines.pending|
    {
      ghost var before := lines.yielded;
      var pull := lines.Next();
      if !pull.Item? {
        if !lines.ended {
          lines.LinesSoFar();
          assert lines.yielded + lines.pending == lines.yielded;
          return None, if pull.Capped? then Capped else Broken;
        }
        continue;
      }
      var line := codec.decode(pull.item);
      OneMoreLine(before, pull.item, codec, id);
      if "data:" <= line {
        data := data + [codec.strip(line[5..])];
        continue;
      }
      if line != "" || data == [] {
        continue;
      }
      var message := codec.parse(Join(data));
      data := [];
      if message.NotAnObject? || !(message.hasResult || message.hasError) {
        continue;
      }
      if message.id == id || (message.id == None && message.hasError) {
        AnsweredNow(lines, codec, id);
        return Some(message), End;
      }
    }
    answer := None;
  }

  /** `_read_sse_response`: the chunking is invisible, and no chunk is awaited once an answer is complete. */
  method ReadSseResponse<Id(==,!new)>(
      chunks: seq<seq<Byte>>, broken: bool, cap: nat, codec: Codec<Id>, id: Option<Id>)
    returns (verdict: Verdict<Id>, pulled: nat)
    requires codec.Valid()
    ensures verdict == BatchVerdict(Flat(chunks), broken, cap, codec, id)
    // The message is that of the first event that answers, and there is none exactly when no event does.
    ensures forall m :: verdict == Answered(m) <==> FirstAnswering(Flat(chunks), cap, codec, id, m)
    ensures pulled <= |chunks|
    ensures forall k :: 0 <= k < pulled ==> !AnsweredBy(chunks, k, cap, codec, id)
    ensures verdict.Answered? ==> AnsweredBy(chunks, pulled, cap, codec, id)
  {
    EveryVerdictExactly(Flat(chunks), broken, cap, codec, id);
    hide AnswerIn, Take, Flat, Clip, FirstAnswering;
    var source := new ChunkSource(chunks, broken);
    var bounded := new BoundedChunks(source, cap);
    var lines := new BoundedLines(bounded);
    var answer, stop := FirstAnsweringEvent(lines, codec, id);
    pulled := source.pos;
    if answer.Some? {
      AnsweredForGood(chunks, pulled, cap, codec, id);
      return Answered(answer.value), pulled;
    }
    AllReceived(chunks, pulled, cap);
    verdict := match stop
      case Capped => CapReached
      case Broken => StreamBroke
      case _ => Unanswered;
  }
}
