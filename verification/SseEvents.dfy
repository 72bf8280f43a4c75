/**
 Which event of an SSE body answers a JSON-RPC request.

 The reference splits the lines into groups, each ended by a blank line, and takes the first group whose data
 fields spell a message that answers the request.  UTF-8 decoding, stripping and JSON parsing are libraries:
 they are parameters here, and the only fact asked of them is that decoding some bytes yields some text.
 */
module SseEvents {
  import opened Sequences
  import opened SseLines
  import opened Wrappers

  /** What `json.loads` returned, as far as the reader looks; `id` is None when absent or null. */
  datatype Message<+Id> =
    | NotAnObject
    | Object(id: Option<Id>, hasResult: bool, hasError: bool)

  datatype Codec<!Id> = Codec(decode: seq<Byte> -> string, strip: string -> string, parse: string -> Message<Id>) {
    /** Decoding keeps some text of every nonempty line. */
    ghost predicate Valid() {
      decode([]) == "" && forall line | line != [] :: decode(line) != ""
    }
  }

  const DATA_FIELD := "data:"

  predicate IsData(line: string) {
    DATA_FIELD <= line
  }

  function DataOf(line: string, strip: string -> string): string
    requires IsData(line)
  {
    strip(line[|DATA_FIELD|..])
  }

  function Join(parts: seq<string>): string {
    if parts == [] then ""
    else if |parts| == 1 then parts[0]
    else parts[0] + "\n" + Join(parts[1..])
  }

  predicate AnswersRequest<Id(==)>(message: Message<Id>, id: Option<Id>) {
    && message.Object?
    && (message.hasResult || message.hasError)
    && (message.id == id || (message.id == None && message.hasError))
  }

  // ---------- the reference ----------

  /** The groups of lines a blank line has ended; lines after the last blank line are in none. */
  function Groups(lines: seq<string>): (groups: seq<seq<string>>)
  {
    if "" !in lines then []
    else
      var blank := FirstBlank(lines);
      [lines[..blank]] + Groups(lines[blank + 1..])
  }

  function FirstBlank(lines: seq<string>): (i: nat)
    requires "" in lines
    ensures i < |lines| && lines[i] == "" && forall k :: 0 <= k < i ==> lines[k] != ""
  {
    if lines[0] == "" then 0 else FirstBlank(lines[1..]) + 1
  }

  /** The lines after the last blank line. */
  function OpenGroup(lines: seq<string>): seq<string> {
    if "" !in lines then lines else OpenGroup(lines[FirstBlank(lines) + 1..])
  }

  function DataFields(group: seq<string>, strip: string -> string): seq<string> {
    if group == [] then []
    else (if IsData(group[0]) then [DataOf(group[0], strip)] else []) + DataFields(group[1..], strip)
  }

  /** The message a blank-line-ended group dispatches, if it has any data field. */
  function Dispatched<Id>(group: seq<string>, codec: Codec<Id>): Option<Message<Id>> {
    var data := DataFields(group, codec.strip);
    if data == [] then None else Some(codec.parse(Join(data)))
  }

  function FirstAnswer<Id(==)>(groups: seq<seq<string>>, codec: Codec<Id>, id: Option<Id>): Option<Message<Id>> {
    if groups == [] then None
    else
      var message := Dispatched(groups[0], codec);
      if message.Some? && AnswersRequest(message.value, id) then message
      else FirstAnswer(groups[1..], codec, id)
  }

  function Decoded(lines: seq<seq<Byte>>, decode: seq<Byte> -> string): seq<string> {
    seq(|lines|, i requires 0 <= i < |lines| => decode(lines[i]))
  }

  /** The first group of decoded lines that answers `id`. */
  function AnswerInLines<Id(==)>(lines: seq<seq<Byte>>, codec: Codec<Id>, id: Option<Id>): Option<Message<Id>> {
    FirstAnswer(Groups(Decoded(lines, codec.decode)), codec, id)
  }

  /** The answer a byte string already holds: the first ended event that answers `id`. */
  function AnswerIn<Id(==)>(bytes: seq<Byte>, codec: Codec<Id>, id: Option<Id>): Option<Message<Id>> {
    AnswerInLines(TerminatedLines(bytes), codec, id)
  }

  // ---------- reading line by line ----------

  lemma {:induction false} DataFieldsAppend(a: seq<string>, b: seq<string>, strip: string -> string)
    ensures DataFields(a + b, strip) == DataFields(a, strip) + DataFields(b, strip)
  {
    if a == [] {
      assert a + b == b;
    } else {
      assert (a + b)[1..] == a[1..] + b;
      DataFieldsAppend(a[1..], b, strip);
    }
  }

  lemma FirstBlankIs(lines: seq<string>, i: nat)
    requires i < |lines| && lines[i] == "" && forall k :: 0 <= k < i ==> lines[k] != ""
    ensures FirstBlank(lines) == i
  {
  }

  /** The first blank line stays the first when a line follows. */
  lemma BlankStays(lines: seq<string>, line: string)
    requires "" in lines
    ensures var blank, longer := FirstBlank(lines), lines + [line];
            && "" in longer && FirstBlank(longer) == blank && longer[..blank] == lines[..blank]
            && longer[blank + 1..] == lines[blank + 1..] + [line]
  {
    var blank, longer := FirstBlank(lines), lines + [line];
    assert longer[blank] == "";
    FirstBlankIs(longer, blank);
    hide FirstBlank;
  }

  /** One more line either stays in the open group or, when blank, closes it. */
  lemma {:induction false} GroupsSnoc(lines: seq<string>, line: string)
    ensures Groups(lines + [line]) == Groups(lines) + (if line == "" then [OpenGroup(lines)] else [])
    ensures OpenGroup(lines + [line]) == if line == "" then [] else OpenGroup(lines) + [line]
    decreases |lines|
  {
    hide Groups, OpenGroup, FirstBlank;
    var longer := lines + [line];
    if "" in lines {
      var blank := FirstBlank(lines);
      var rest := lines[blank + 1..];
      GroupsSnoc(rest, line);
      BlankStays(lines, line);
      GroupsStep(lines);
      GroupsStep(longer);
      Regroup([lines[..blank]], Groups(rest), if line == "" then [OpenGroup(rest)] else []);
    } else {
      NoGroups(lines);
      if line == "" {
        assert longer[|lines|] == "";
        FirstBlankIs(longer, |lines|);
        GroupsStep(longer);
        NoGroups([]);
        assert longer[..|lines|] == lines && longer[|lines| + 1..] == [];
      } else {
        NoGroups(longer);
      }
    }
  }

  lemma GroupsStep(lines: seq<string>)
    requires "" in lines
    ensures Groups(lines) == [lines[..FirstBlank(lines)]] + Groups(lines[FirstBlank(lines) + 1..])
    ensures OpenGroup(lines) == OpenGroup(lines[FirstBlank(lines) + 1..])
  {
    hide *;
    GroupsUnfold(lines);
    OpenGroupUnfold(lines);
  }

  lemma GroupsUnfold(lines: seq<string>)
    requires "" in lines
    ensures Groups(lines) == [lines[..FirstBlank(lines)]] + Groups(lines[FirstBlank(lines) + 1..])
  {
    hide FirstBlank, OpenGroup;
  }

  lemma OpenGroupUnfold(lines: seq<string>)
    requires "" in lines
    ensures OpenGroup(lines) == OpenGroup(lines[FirstBlank(lines) + 1..])
  {
    hide FirstBlank, Groups;
  }

  lemma NoGroups(lines: seq<string>)
    requires "" !in lines
    ensures Groups(lines) == [] && OpenGroup(lines) == lines
  {
  }

  lemma {:induction false} FirstAnswerAppend<Id>(
      a: seq<seq<string>>, b: seq<seq<string>>, codec: Codec<Id>, id: Option<Id>)
    ensures FirstAnswer(a, codec, id).Some? ==> FirstAnswer(a + b, codec, id) == FirstAnswer(a, codec, id)
    ensures FirstAnswer(a, codec, id).None? ==> FirstAnswer(a + b, codec, id) == FirstAnswer(b, codec, id)
  {
    if a == [] {
      assert a + b == b;
    } else {
      assert (a + b)[1..] == a[1..] + b;
      FirstAnswerAppend(a[1..], b, codec, id);
    }
  }

  /** The data fields collected since the last blank line. */
  function OpenData(lines: seq<string>, strip: string -> string): seq<string> {
    DataFields(OpenGroup(lines), strip)
  }

  lemma OpenDataSnoc(lines: seq<string>, line: string, strip: string -> string)
    ensures OpenData(lines + [line], strip)
            == if line == "" then []
               else if IsData(line) then OpenData(lines, strip) + [DataOf(line, strip)]
               else OpenData(lines, strip)
  {
    GroupsSnoc(lines, line);
    if line != "" {
      DataFieldsAppend(OpenGroup(lines), [line], strip);
    }
  }

  /** What one more line changes while no answer has been found. */
  lemma AnswerSnoc<Id>(lines: seq<string>, line: string, codec: Codec<Id>, id: Option<Id>)
    requires FirstAnswer(Groups(lines), codec, id).None?
    ensures var data := OpenData(lines, codec.strip);
            FirstAnswer(Groups(lines + [line]), codec, id)
            == if line == "" && data != [] && AnswersRequest(codec.parse(Join(data)), id)
               then Some(codec.parse(Join(data))) else None
  {
    GroupsSnoc(lines, line);
    if line == "" {
      FirstAnswerAppend(Groups(lines), [OpenGroup(lines)], codec, id);
    } else {
      assert Groups(lines) + [] == Groups(lines);
    }
  }

  /** Groups never change when more lines arrive. */
  lemma {:induction false} GroupsGrow(lines: seq<string>, more: seq<string>)
    ensures Groups(lines) <= Groups(lines + more)
    decreases |more|
  {
    hide Groups, OpenGroup;
    if more == [] {
      assert lines + more == lines;
    } else {
      GroupsSnoc(lines, more[0]);
      GroupsGrow(lines + [more[0]], more[1..]);
      assert lines + more == lines + [more[0]] + more[1..];
    }
  }

  lemma LinesAnswerStays<Id>(lines: seq<string>, more: seq<string>, codec: Codec<Id>, id: Option<Id>)
    requires FirstAnswer(Groups(lines), codec, id).Some?
    ensures FirstAnswer(Groups(lines + more), codec, id) == FirstAnswer(Groups(lines), codec, id)
  {
    GroupsGrow(lines, more);
    var a, c := Groups(lines), Groups(lines + more);
    assert c == a + c[|a|..];
    FirstAnswerAppend(a, c[|a|..], codec, id);
  }

  lemma DecodedAppend(a: seq<seq<Byte>>, b: seq<seq<Byte>>, decode: seq<Byte> -> string)
    ensures Decoded(a + b, decode) == Decoded(a, decode) + Decoded(b, decode)
  {
  }

  /** An answer, once held, stays the answer however the stream continues. */
  lemma AnswerStays<Id>(bytes: seq<Byte>, more: seq<Byte>, codec: Codec<Id>, id: Option<Id>)
    requires AnswerIn(bytes, codec, id).Some?
    ensures AnswerIn(bytes + more, codec, id) == AnswerIn(bytes, codec, id)
  {
    TerminatedLinesGrow(bytes, more);
    var a, c := TerminatedLines(bytes), TerminatedLines(bytes + more);
    assert c == a + c[|a|..];
    DecodedAppend(a, c[|a|..], codec.decode);
    LinesAnswerStays(Decoded(a, codec.decode), Decoded(c[|a|..], codec.decode), codec, id);
  }

  // ---------- what an event says, and what answers ----------

  /** The text of an event, line by line: each `data:` line adds a line of text, any other line adds nothing. */
  function EventText(group: seq<string>, strip: string -> string): Option<string> {
    if group == [] then None
    else
      var before, line := EventText(group[..|group| - 1], strip), group[|group| - 1];
      if |line| < 5 || line[..5] != "data:" then before
      else if before.None? then Some(strip(line[5..]))
      else Some(before.value + "\n" + strip(line[5..]))
  }

  function MessageOf<Id>(group: seq<string>, codec: Codec<Id>): Option<Message<Id>> {
    var text := EventText(group, codec.strip);
    if text.None? then None else Some(codec.parse(text.value))
  }

  /** A response to the request: a result or an error under its id, or an error under no id. */
  predicate Replies<Id(==)>(m: Message<Id>, id: Option<Id>) {
    match m
    case NotAnObject => false
    case Object(own, hasResult, hasError) =>
      (own == id && hasResult) || (own == id && hasError) || (own.None? && hasError)
  }

  lemma {:induction false} JoinSnoc(parts: seq<string>, part: string)
    ensures Join(parts + [part]) == if parts == [] then part else Join(parts) + "\n" + part
  {
    var all := parts + [part];
    if |parts| > 0 {
      JoinSnoc(parts[1..], part);
      assert all[1..] == parts[1..] + [part];
      if |parts| > 1 {
        Regroup(parts[0] + "\n", Join(parts[1..]), "\n");
        Regroup(parts[0] + "\n", Join(parts[1..]) + "\n", part);
      } else {
        assert parts[1..] == [];
      }
    }
  }

  /** The collected data fields, joined, are the event's text. */
  lemma {:induction false} TextIsJoined(group: seq<string>, strip: string -> string)
    ensures var data := DataFields(group, strip);
            EventText(group, strip) == if data == [] then None else Some(Join(data))
  {
    if group != [] {
      var front, line := group[..|group| - 1], group[|group| - 1];
      TextIsJoined(front, strip);
      assert group == front + [line];
      DataFieldsAppend(front, [line], strip);
      if IsData(line) {
        JoinSnoc(DataFields(front, strip), DataOf(line, strip));
      }
      OneField(line, strip);
      assert DataFields(front, strip) + [] == DataFields(front, strip);
      hide DataFields, Join;
    }
  }

  lemma OneField(line: string, strip: string -> string)
    ensures IsData(line) <==> |line| >= 5 && line[..5] == "data:"
    ensures DataFields([line], strip) == if |line| >= 5 && line[..5] == "data:" then [strip(line[5..])] else []
    ensures IsData(line) ==> DataOf(line, strip) == strip(line[5..])
  {
  }

  lemma DispatchedIs<Id>(group: seq<string>, codec: Codec<Id>)
    ensures Dispatched(group, codec) == MessageOf(group, codec)
  {
    TextIsJoined(group, codec.strip);
    hide DataFields, Join, EventText;
  }

  /** The first group whose message replies, and no other. */
  lemma {:induction false} FirstAnswerExactly<Id>(
      groups: seq<seq<string>>, codec: Codec<Id>, id: Option<Id>, m: Message<Id>)
    ensures FirstAnswer(groups, codec, id) == Some(m) <==>
            exists i :: 0 <= i < |groups| && MessageOf(groups[i], codec) == Some(m) && Replies(m, id) &&
                        forall j :: 0 <= j < i ==>
                          MessageOf(groups[j], codec).None? || !Replies(MessageOf(groups[j], codec).value, id)
  {
    if groups != [] {
      var rest := groups[1..];
      DispatchedIs(groups[0], codec);
      FirstAnswerExactly(rest, codec, id, m);
      hide MessageOf, Dispatched;
      var first := MessageOf(groups[0], codec);
      if first.Some? && Replies(first.value, id) {
        assert AnswersRequest(first.value, id);
      } else {
        assert forall i :: 0 <= i < |rest| ==> rest[i] == groups[i + 1];
        assert FirstAnswer(groups, codec, id) == FirstAnswer(rest, codec, id);
        if FirstAnswer(rest, codec, id) == Some(m) {
          var i :| 0 <= i < |rest| && MessageOf(rest[i], codec) == Some(m) && Replies(m, id) &&
                   forall j :: 0 <= j < i ==>
                     MessageOf(rest[j], codec).None? || !Replies(MessageOf(rest[j], codec).value, id);
          assert MessageOf(groups[i + 1], codec) == Some(m);
          forall j | 0 <= j < i + 1
            ensures MessageOf(groups[j], codec).None? || !Replies(MessageOf(groups[j], codec).value, id)
          {
            if j > 0 {
              assert groups[j] == rest[j - 1];
            }
          }
        }
      }
    }
  }
}
