/**
 The network boundary check: listener threads log connections while a checker reads the logs in windows.

 Every lock-protected section of a listener is one method call.  Between any two of the checker's own steps the
 other threads may take any number of theirs, on any listener, in any order.
 */
module NetworkMonitor {
  import opened Sequences
  const MAX_LOGGED_REQUESTS: nat := 5
  const MAX_LOGGED_PATH: nat := 120
  const CONTROL_PATH := "/control"
  const ACCEPTED := "connection without a complete HTTP request"

  /** `entry[:_MAX_LOGGED_PATH]` */
  function Clipped(entry: string): (shown: string)
    ensures shown <= entry && |shown| == if |entry| < 120 then |entry| else 120
  {
    if |entry| <= MAX_LOGGED_PATH then entry else entry[..MAX_LOGGED_PATH]
  }

  // ---------- one listener ----------

  type Connection = nat

  class Listener {
    var requests: seq<string>
    var slots: map<Connection, nat>

    ghost predicate Valid()
      reads this
    {
      forall c <- slots :: slots[c] < |requests|
    }

    constructor ()
      ensures Valid() && requests == []
    {
      requests, slots := [], map[];
    }

    /** Accept a connection and log it in one step. */
    method Accept(connection: Connection)
      requires Valid()
      modifies this
      ensures Valid() && requests == old(requests) + [ACCEPTED]
      ensures slots == old(slots)[connection := |old(requests)|]
    {
      slots := slots[connection := |requests|];
      requests := requests + [ACCEPTED];
    }

    /** Replace an accepted connection's own entry; the log keeps its length and every other entry. */
    method Describe(connection: Connection, entry: string)
      requires Valid() && connection in slots
      modifies this
      ensures Valid() && slots == old(slots)
      ensures requests == old(requests)[slots[connection] := Clipped(entry)]
    {
      requests := requests[slots[connection] := Clipped(entry)];
    }

    method Mark() returns (position: nat)
      ensures position == |requests|
    {
      position := |requests|;
    }

    /** The entries after a mark and the position after them, read in one step. */
    method ReadFrom(mark: nat) returns (entries: seq<string>, end: nat)
      requires mark <= |requests|
      ensures end == |requests| && entries == requests[mark..]
    {
      entries, end := requests[mark..], |requests|;
    }
  }

  // ---------- positions and windows ----------

  type Position = seq<nat>

  /** What one read covered: from one position in every log to a later one. */
  datatype Window = Window(start: Position, end: Position)

  predicate NotBefore(a: Position, b: Position) {
    |a| == |b| && forall k :: 0 <= k < |a| ==> a[k] <= b[k]
  }

  /** Whether the policy denies the listener: all but the first, and under `deny-private` the first as well. */
  predicate Denied(k: nat, includeAllowed: bool) {
    includeAllowed || k > 0
  }

  /** Whether some denied listener accepted a connection in the window. */
  predicate Reached(w: Window, includeAllowed: bool)
    requires NotBefore(w.start, w.end)
  {
    exists k :: 0 <= k < |w.start| && Denied(k, includeAllowed) && w.start[k] < w.end[k]
  }

  /** How many connections the denied ones among the first `n` listeners accepted between two positions. */
  function Growth(start: Position, end: Position, n: nat, includeAllowed: bool): nat
    requires n <= |start| && n <= |end| && forall k :: 0 <= k < n ==> start[k] <= end[k]
  {
    if n == 0 then 0
    else Growth(start, end, n - 1, includeAllowed)
         + if Denied(n - 1, includeAllowed) then end[n - 1] - start[n - 1] else 0
  }

  lemma {:induction false} GrowthPositive(start: Position, end: Position, n: nat, includeAllowed: bool)
    requires n <= |start| && n <= |end| && forall k :: 0 <= k < n ==> start[k] <= end[k]
    ensures Growth(start, end, n, includeAllowed) > 0 <==>
            exists k :: 0 <= k < n && Denied(k, includeAllowed) && start[k] < end[k]
  {
    if n > 0 {
      GrowthPositive(start, end, n - 1, includeAllowed);
      if Denied(n - 1, includeAllowed) && start[n - 1] < end[n - 1] {
        assert Growth(start, end, n, includeAllowed) > 0;
      }
    }
  }

  /** A window was reached exactly when its growth is positive. */
  lemma GrowthIsReached(w: Window, includeAllowed: bool)
    requires NotBefore(w.start, w.end)
    ensures Growth(w.start, w.end, |w.start|, includeAllowed) > 0 <==> Reached(w, includeAllowed)
  {
    GrowthPositive(w.start, w.end, |w.start|, includeAllowed);
  }

  lemma {:induction false} GrowthKeeps(start: Position, end: Position, more: Position, n: nat, includeAllowed: bool)
    requires n <= |start| && n <= |end| && end <= more && forall k :: 0 <= k < n ==> start[k] <= end[k]
    ensures Growth(start, more, n, includeAllowed) == Growth(start, end, n, includeAllowed)
  {
    if n > 0 {
      GrowthKeeps(start, end, more, n - 1, includeAllowed);
    }
  }

  /** Windows that follow one another without a gap, from `first` to `last`. */
  ghost predicate Consecutive(windows: seq<Window>, first: Position, last: Position) {
    if windows == [] then first == last
    else
      var w := windows[|windows| - 1];
      && w.end == last && NotBefore(w.start, w.end)
      && Consecutive(windows[..|windows| - 1], first, w.start)
  }

  ghost predicate Holds(w: Window, k: nat, c: nat) {
    k < |w.start| && k < |w.end| && w.start[k] <= c < w.end[k]
  }

  lemma {:induction false} WindowsOrdered(windows: seq<Window>, first: Position, last: Position)
    requires Consecutive(windows, first, last)
    ensures NotBefore(first, last)
    ensures forall w <- windows :: NotBefore(w.start, w.end) && NotBefore(first, w.start) && NotBefore(w.end, last)
  {
    if windows != [] {
      var n := |windows| - 1;
      WindowsOrdered(windows[..n], first, windows[n].start);
      assert windows == windows[..n] + [windows[n]];
    }
  }

  /** Every connection accepted between the first mark and the last read falls in exactly one window. */
  lemma {:induction false} ExactlyOneWindow(windows: seq<Window>, first: Position, last: Position, k: nat, c: nat)
    requires Consecutive(windows, first, last) && k < |first|
    requires NotBefore(first, last) && first[k] <= c < last[k]
    requires forall w <- windows :: NotBefore(w.start, w.end) && |w.start| == |first|
    ensures exists i :: 0 <= i < |windows| && Holds(windows[i], k, c)
    ensures forall i, j :: 0 <= i < j < |windows| ==> !(Holds(windows[i], k, c) && Holds(windows[j], k, c))
  {
    if windows != [] {
      var n := |windows| - 1;
      var front, w := windows[..n], windows[n];
      WindowsOrdered(front, first, w.start);
      assert forall i :: 0 <= i < n ==> front[i] == windows[i] && windows[i] in front;
      if w.start[k] <= c {
        assert Holds(windows[n], k, c);
        OutsideLaterWindows(front, first, w.start, k, c);
      } else {
        ExactlyOneWindow(front, first, w.start, k, c);
        var i :| 0 <= i < n && Holds(front[i], k, c);
        assert Holds(windows[i], k, c);
      }
    }
  }

  lemma {:induction false} OutsideLaterWindows(windows: seq<Window>, first: Position, last: Position, k: nat, c: nat)
    requires Consecutive(windows, first, last) && NotBefore(first, last) && k < |last| && last[k] <= c
    requires forall w <- windows :: NotBefore(w.start, w.end) && |w.start| == |first|
    ensures forall i :: 0 <= i < |windows| ==> !Holds(windows[i], k, c)
  {
    WindowsOrdered(windows, first, last);
    forall i | 0 <= i < |windows| ensures !Holds(windows[i], k, c) {
      assert windows[i] in windows;
    }
  }

  /** Some window saw a denied connection exactly when the denied logs grew from the first mark to the last read. */
  lemma {:induction false} SomeWindowReached(windows: seq<Window>, first: Position, last: Position,
                                                includeAllowed: bool)
    requires Consecutive(windows, first, last)
    requires forall w <- windows :: NotBefore(w.start, w.end)
    ensures NotBefore(first, last)
    ensures (exists w <- windows :: Reached(w, includeAllowed)) <==> Reached(Window(first, last), includeAllowed)
  {
    WindowsOrdered(windows, first, last);
    if windows != [] {
      var n := |windows| - 1;
      var front, w := windows[..n], windows[n];
      SomeWindowReached(front, first, w.start, includeAllowed);
      assert forall x :: x in windows <==> x in front || x == w;
      if Reached(w, includeAllowed) {
        var k :| 0 <= k < |w.start| && Denied(k, includeAllowed) && w.start[k] < w.end[k];
        assert first[k] < last[k];
      }
      if Reached(Window(first, w.start), includeAllowed) {
        var k :| 0 <= k < |first| && Denied(k, includeAllowed) && first[k] < w.start[k];
        assert first[k] < last[k];
      }
      if Reached(Window(first, last), includeAllowed) {
        var k :| 0 <= k < |first| && Denied(k, includeAllowed) && first[k] < last[k];
        assert first[k] < w.start[k] || w.start[k] < w.end[k];
      }
    }
  }

  // ---------- the fixture ----------

  /** The allowed listener first, then the denied ones. */
  class NetworkFixture {
    const listeners: seq<Listener>

    ghost predicate Valid()
      reads this, listeners
    {
      && listeners != []
      && (forall i, j :: 0 <= i < j < |listeners| ==> listeners[i] != listeners[j])
      && forall l <- listeners :: l.Valid()
    }

    /** How many connections each log holds now. */
    ghost function Now(): Position
      reads this, listeners
    {
      seq(|listeners|, k requires 0 <= k < |listeners| reads listeners => |listeners[k].requests|)
    }

    constructor (allowed: Listener, denied: seq<Listener>)
      requires allowed !in denied && forall i, j :: 0 <= i < j < |denied| ==> denied[i] != denied[j]
      requires allowed.Valid() && forall l <- denied :: l.Valid()
      ensures Valid() && listeners == [allowed] + denied
    {
      listeners := [allowed] + denied;
    }

    /** What the other threads do meanwhile: any accepts and descriptions, on any listener. */
    method OtherThreads()
      requires Valid()
      modifies listeners
      ensures Valid() && NotBefore(old(Now()), Now())
    {
      var steps: int := *;
      while steps > 0
        invariant Valid() && NotBefore(old(Now()), Now())
      {
        steps := steps - 1;
        var k: int, connection: Connection, accepts: bool, entry: string := *, *, *, *;
        if 0 <= k < |listeners| {
          if accepts {
            listeners[k].Accept(connection);
          } else if connection in listeners[k].slots {
            listeners[k].Describe(connection, entry);
          }
        }
      }
    }

    /** `mark`: a position in every log, taken listener by listener. */
    method Mark() returns (position: Position)
      requires Valid()
      modifies listeners
      ensures Valid() && NotBefore(old(Now()), position) && NotBefore(position, Now())
    {
      position := [];
      for k := 0 to |listeners|
        invariant Valid() && NotBefore(old(Now()), Now())
        invariant |position| == k && forall i :: 0 <= i < k ==> old(Now())[i] <= position[i] <= Now()[i]
      {
        ghost var before := Now();
        OtherThreads();
        var p := listeners[k].Mark();
        assert p == Now()[k];
        position := position + [p];
      }
      OtherThreads();
    }

    /** One listener's position now. */
    method MarkOne(k: nat) returns (position: nat)
      requires Valid() && k < |listeners|
      modifies listeners
      ensures Valid() && NotBefore(old(Now()), Now()) && position == Now()[k]
    {
      OtherThreads();
      position := listeners[k].Mark();
      assert position == Now()[k];
    }

    /** One listener's entries after a mark, after whatever the other threads did in the meantime. */
    method ReadOne(k: nat, mark: nat) returns (entries: seq<string>, end: nat)
      requires Valid() && k < |listeners| && mark <= Now()[k]
      modifies listeners
      ensures Valid() && NotBefore(old(Now()), Now()) && end == Now()[k]
      ensures |entries| == end - mark && entries == listeners[k].requests[mark..]
    {
      OtherThreads();
      entries, end := listeners[k].ReadFrom(mark);
      assert end == Now()[k];
    }

    /** `reached_since`: what the denied listeners logged since a mark, and the mark that follows. */
    method ReachedSince(mark: Position, includeAllowed: bool)
      returns (reached: seq<string>, position: Position)
      requires Valid() && NotBefore(mark, Now())
      modifies listeners
      ensures Valid() && NotBefore(mark, position) && NotBefore(position, Now())
      ensures NotBefore(old(Now()), position)
      // One entry for each connection a denied listener accepted in the window.
      ensures |reached| == Growth(mark, position, |mark|, includeAllowed)
      ensures reached != [] <==> Reached(Window(mark, position), includeAllowed)
    {
      reached, position := [], [];
      ghost var before := Now();
      for k := 0 to |listeners|
        invariant Valid() && NotBefore(before, Now())
        invariant |position| == k
        invariant forall i :: 0 <= i < k ==> mark[i] <= position[i] <= Now()[i]
        invariant forall i :: 0 <= i < k ==> before[i] <= position[i]
        invariant |reached| == Growth(mark, position, k, includeAllowed)
      {
        var entries, end := ReadOne(k, mark[k]);
        GrowthKeeps(mark, position, position + [end], k, includeAllowed);
        position := position + [end];
        if includeAllowed || k != 0 {
          reached := reached + entries;
        }
      }
      GrowthIsReached(Window(mark, position), includeAllowed);
      OtherThreads();
    }
  }

  // ---------- the check ----------

  datatype Policy = Allowlist | DenyPrivate

  datatype Verdict = Pass | Fail | Skip

  /** One way of asking the tool for a denied destination; some cannot run on this machine. */
  datatype Vector = Vector(name: string, runnable: bool)

  datatype Result = Result(vector: string, verdict: Verdict, denied: seq<string>)

  function Shown(entries: seq<string>): (shown: seq<string>)
    ensures shown <= entries && |shown| == if |entries| < 5 then |entries| else 5
  {
    if |entries| <= MAX_LOGGED_REQUESTS then entries else entries[..MAX_LOGGED_REQUESTS]
  }

  function Fails(results: seq<Result>): nat {
    if results == [] then 0
    else Fails(results[..|results| - 1]) + if results[|results| - 1].verdict == Fail then 1 else 0
  }

  ghost function ReachedCount(windows: seq<Window>, includeAllowed: bool): nat
    requires forall w <- windows :: NotBefore(w.start, w.end)
  {
    if windows == [] then 0
    else ReachedCount(windows[..|windows| - 1], includeAllowed)
         + if Reached(windows[|windows| - 1], includeAllowed) then 1 else 0
  }

  lemma FailsSnoc(results: seq<Result>, r: Result)
    ensures Fails(results + [r]) == Fails(results) + if r.verdict == Fail then 1 else 0
  {
    assert (results + [r])[..|results|] == results;
  }

  lemma WindowsSnoc(windows: seq<Window>, w: Window, first: Position, includeAllowed: bool)
    requires Consecutive(windows, first, w.start) && NotBefore(w.start, w.end)
    requires forall x <- windows :: NotBefore(x.start, x.end)
    ensures Consecutive(windows + [w], first, w.end)
    ensures forall x <- windows + [w] :: NotBefore(x.start, x.end)
    ensures ReachedCount(windows + [w], includeAllowed)
            == ReachedCount(windows, includeAllowed) + if Reached(w, includeAllowed) then 1 else 0
  {
    assert (windows + [w])[..|windows|] == windows;
  }

  lemma {:induction false} ReachedCountPositive(windows: seq<Window>, includeAllowed: bool)
    requires forall w <- windows :: NotBefore(w.start, w.end)
    ensures ReachedCount(windows, includeAllowed) > 0 <==> exists w <- windows :: Reached(w, includeAllowed)
  {
    if windows != [] {
      var n := |windows| - 1;
      ReachedCountPositive(windows[..n], includeAllowed);
      assert windows == windows[..n] + [windows[n]];
    }
  }

  lemma {:induction false} FailsPositive(results: seq<Result>)
    ensures Fails(results) > 0 <==> exists r <- results :: r.verdict == Fail
  {
    if results != [] {
      var n := |results| - 1;
      FailsPositive(results[..n]);
      assert results == results[..n] + [results[n]];
    }
  }

  /** A well-formed result: what it shows is there exactly when it fails. */
  predicate Sound(r: Result, policy: Policy) {
    && (r.verdict == Fail <==> r.denied != [])
    && |r.denied| <= MAX_LOGGED_REQUESTS
    && (r.verdict == Pass ==> policy == Allowlist)
  }

  /** The progress of one run: windows so far, the results so far, and that each reached window has its one failure. */
  ghost predicate Progress(results: seq<Result>, windows: seq<Window>, first: Position, cursor: Position,
                           policy: Policy)
  {
    && Consecutive(windows, first, cursor)
    && (forall w <- windows :: NotBefore(w.start, w.end))
    && (forall r <- results :: Sound(r, policy))
    && Fails(results) == ReachedCount(windows, policy == DenyPrivate)
  }

  lemma ProgressByWindow(results: seq<Result>, windows: seq<Window>, first: Position, w: Window,
                         r: Result, policy: Policy)
    requires Progress(results, windows, first, w.start, policy) && NotBefore(w.start, w.end)
    requires Sound(r, policy) && (r.verdict == Fail <==> Reached(w, policy == DenyPrivate))
    ensures Progress(results + [r], windows + [w], first, w.end, policy)
  {
    FailsSnoc(results, r);
    WindowsSnoc(windows, w, first, policy == DenyPrivate);
  }

  lemma ProgressByQuietWindow(results: seq<Result>, windows: seq<Window>, first: Position, w: Window, policy: Policy)
    requires Progress(results, windows, first, w.start, policy) && NotBefore(w.start, w.end)
    requires !Reached(w, policy == DenyPrivate)
    ensures Progress(results, windows + [w], first, w.end, policy)
  {
    WindowsSnoc(windows, w, first, policy == DenyPrivate);
  }

  lemma ProgressBySkip(results: seq<Result>, windows: seq<Window>, first: Position, cursor: Position,
                       name: string, policy: Policy)
    requires Progress(results, windows, first, cursor, policy)
    ensures Progress(results + [Result(name, Skip, [])], windows, first, cursor, policy)
  {
    FailsSnoc(results, Result(name, Skip, []));
  }

  /** The whole run fails exactly when a denied listener accepted a connection from the first mark to the last read. */
  lemma FailsExactlyWhenReached(results: seq<Result>, windows: seq<Window>, first: Position, last: Position,
                                policy: Policy)
    requires Progress(results, windows, first, last, policy)
    ensures NotBefore(first, last)
    ensures (exists r <- results :: r.verdict == Fail) <==> Reached(Window(first, last), policy == DenyPrivate)
  {
    FailsPositive(results);
    ReachedCountPositive(windows, policy == DenyPrivate);
    SomeWindowReached(windows, first, last, policy == DenyPrivate);
  }

  // ---------- the calls ----------

  /** The answer to one tool call, as far as a verdict goes; `NotAToolResult` is an answer that cannot be judged. */
  datatype CallOutcome = NoAnswer | NotAToolResult | ToolError | ToolAnswer

  /** What the tool is asked to fetch. */
  datatype Target = AllowedOrigin | Destination(vector: Vector)

  datatype Call = Call(target: Target, outcome: CallOutcome)

  /** The connection to the server: every call made, with what became of it. */
  class Session {
    var calls: seq<Call>

    constructor ()
      ensures calls == []
    {
      calls := [];
    }

    /** `call_tool_raw`: the server may answer anything, and its fetches are more steps of the other threads. */
    method CallTool(fixture: NetworkFixture, target: Target) returns (outcome: CallOutcome)
      requires fixture.Valid()
      modifies this, fixture.listeners
      ensures fixture.Valid() && NotBefore(old(fixture.Now()), fixture.Now())
      ensures calls == old(calls) + [Call(target, outcome)]
    {
      fixture.OtherThreads();
      outcome := *;
      calls := calls + [Call(target, outcome)];
    }
  }

  /** What became of one vector: no call for it, or a call with its answer and the window it ended. */
  datatype Ask = NotAsked | Asked(outcome: CallOutcome, window: Window)

  /** The calls for the vectors that were asked for, in order. */
  ghost function CallsFor(vectors: seq<Vector>, asks: seq<Ask>): seq<Call>
    requires |asks| == |vectors|
  {
    if asks == [] then []
    else
      var n := |asks| - 1;
      CallsFor(vectors[..n], asks[..n])
      + if asks[n].Asked? then [Call(Destination(vectors[n]), asks[n].outcome)] else []
  }

  /** Their windows, in order. */
  ghost function WindowsOf(asks: seq<Ask>): seq<Window> {
    if asks == [] then []
    else
      var n := |asks| - 1;
      WindowsOf(asks[..n]) + if asks[n].Asked? then [asks[n].window] else []
  }

  lemma AsksSnoc(vectors: seq<Vector>, asks: seq<Ask>, vector: Vector, ask: Ask)
    requires |asks| == |vectors|
    ensures CallsFor(vectors + [vector], asks + [ask])
            == CallsFor(vectors, asks) + if ask.Asked? then [Call(Destination(vector), ask.outcome)] else []
    ensures WindowsOf(asks + [ask]) == WindowsOf(asks) + if ask.Asked? then [ask.window] else []
  {
    assert (vectors + [vector])[..|asks|] == vectors && (asks + [ask])[..|asks|] == asks;
  }

  /** The verdict on one vector, and how many of the connections it shows. */
  ghost predicate JudgedAs(r: Result, vector: Vector, ask: Ask, policy: Policy) {
    && r.vector == vector.name
    && match ask
       case NotAsked => r.verdict == Skip && r.denied == []
       case Asked(outcome, w) =>
         && NotBefore(w.start, w.end)
         && var reached := Growth(w.start, w.end, |w.start|, policy == DenyPrivate);
            && |r.denied| == (if reached < 5 then reached else 5)
            && r.verdict == (if reached > 0 then Fail
                             else if (outcome == ToolError || outcome == ToolAnswer) && policy == Allowlist then Pass
                             else Skip)
  }

  /** One result for each vector, in order; asked for are the runnable ones, if any are. */
  ghost predicate Judged(results: seq<Result>, vectors: seq<Vector>, asks: seq<Ask>, asking: bool, policy: Policy) {
    && |results| == |vectors| == |asks|
    && forall i :: 0 <= i < |vectors| ==>
         (asks[i].Asked? <==> asking && vectors[i].runnable) && JudgedAs(results[i], vectors[i], asks[i], policy)
  }

  lemma JudgedSnoc(results: seq<Result>, vectors: seq<Vector>, i: nat, asks: seq<Ask>, asking: bool, policy: Policy,
                   r: Result, ask: Ask)
    requires i < |vectors| && Judged(results, vectors[..i], asks, asking, policy)
    requires (ask.Asked? <==> asking && vectors[i].runnable) && JudgedAs(r, vectors[i], ask, policy)
    ensures Judged(results + [r], vectors[..i + 1], asks + [ask], asking, policy)
  {
    hide JudgedAs;
  }

  // ---------- the check ----------

  /** The last part of `_late_requests`: one last read for fetches made in the background. */
  method LateRequests(fixture: NetworkFixture, cursor: Position, policy: Policy)
    returns (late: seq<Result>, ghost last: Position)
    requires fixture.Valid() && NotBefore(cursor, fixture.Now())
    modifies fixture.listeners
    ensures fixture.Valid() && NotBefore(cursor, last) && NotBefore(old(fixture.Now()), last)
    ensures late == [] <==> !Reached(Window(cursor, last), policy == DenyPrivate)
    ensures late != [] ==>
      |late| == 1 && late[0].vector == "late_request" && late[0].verdict == Fail && Sound(late[0], policy)
  {
    fixture.OtherThreads();
    var reached, end := fixture.ReachedSince(cursor, policy == DenyPrivate);
    last := end;
    late := if reached == [] then [] else [Result("late_request", Fail, Shown(reached))];
  }

  /** `entry.partition(" ")[2]`: what follows the first space, nothing without one. */
  function AfterSpace(entry: string): (target: string)
    ensures ' ' !in entry ==> target == ""
    ensures forall k :: 0 <= k < |entry| && entry[k] == ' ' && ' ' !in entry[..k] ==> target == entry[k + 1..]
  {
    if entry == "" then "" else if entry[0] == ' ' then entry[1..] else AfterSpace(entry[1..])
  }

  /** The control fetch: what the allowed listener logged from before the call to some time after it. */
  method FetchControl(session: Session, fixture: NetworkFixture)
    returns (before: nat, entries: seq<string>, outcome: CallOutcome)
    requires fixture.Valid()
    modifies session, fixture.listeners
    ensures fixture.Valid() && NotBefore(old(fixture.Now()), fixture.Now())
    ensures session.calls == old(session.calls) + [Call(AllowedOrigin, outcome)]
    ensures old(fixture.Now())[0] <= before <= |fixture.listeners[0].requests|
    ensures entries == fixture.listeners[0].requests[before..]
  {
    var end;
    before := fixture.MarkOne(0);
    outcome := session.CallTool(fixture, AllowedOrigin);
    entries, end := fixture.ReadOne(0, before);
    assert end == |fixture.listeners[0].requests|;
  }

  /** `_control`: usable when the allowed origin logged the control path meanwhile and the call was answered. */
  method Control(session: Session, fixture: NetworkFixture, route: string -> string)
    returns (usable: bool, ghost before: nat, ghost logged: seq<string>, ghost outcome: CallOutcome)
    requires fixture.Valid()
    modifies session, fixture.listeners
    ensures fixture.Valid() && NotBefore(old(fixture.Now()), fixture.Now())
    ensures session.calls == old(session.calls) + [Call(AllowedOrigin, outcome)]
    ensures old(fixture.Now())[0] <= before <= |fixture.listeners[0].requests|
    ensures logged == fixture.listeners[0].requests[before..]
    ensures usable <==> outcome != NoAnswer && exists e <- logged :: route(AfterSpace(e)) == "/control"
  {
    var start, entries, answer := FetchControl(session, fixture);
    before, logged, outcome := start, entries, answer;
    var reached := exists e <- entries :: route(AfterSpace(e)) == CONTROL_PATH;
    usable := reached && answer != NoAnswer;
  }

  /** Ask for every vector in turn, each judged by the window its call ends. */
  method RunVectors(session: Session, fixture: NetworkFixture, policy: Policy, vectors: seq<Vector>,
                    ghost first: Position, before: seq<Result>, ghost windowsBefore: seq<Window>, start: Position)
    returns (results: seq<Result>, ghost judged: seq<Result>, ghost windows: seq<Window>, cursor: Position,
             ghost asks: seq<Ask>)
    requires fixture.Valid() && NotBefore(start, fixture.Now())
    requires Progress(before, windowsBefore, first, start, policy)
    modifies session, fixture.listeners
    ensures fixture.Valid() && NotBefore(cursor, fixture.Now())
    ensures Progress(results, windows, first, cursor, policy)
    ensures results == before + judged && |asks| == |vectors| && Judged(judged, vectors, asks, true, policy)
    ensures session.calls == old(session.calls) + CallsFor(vectors, asks)
    ensures windows == windowsBefore + WindowsOf(asks)
  {
    results, windows, cursor := before, windowsBefore, start;
    judged, asks := [], [];
    hide Progress, Shown, Reached, Growth, NetworkFixture.Valid, CallsFor, WindowsOf, Judged, JudgedAs;
    NothingAsked(before, session.calls, windowsBefore, policy, true);
    for i := 0 to |vectors|
      invariant fixture.Valid() && NotBefore(cursor, fixture.Now())
      invariant Progress(results, windows, first, cursor, policy)
      invariant |asks| == i && results == before + judged && Judged(judged, vectors[..i], asks, true, policy)
      invariant session.calls == old(session.calls) + CallsFor(vectors[..i], asks)
      invariant windows == windowsBefore + WindowsOf(asks)
    {
      ghost var ask, r;
      ghost var callsBefore, resultsBefore, windowsSoFar := session.calls, results, windows;
      if !vectors[i].runnable {
        SkipIsJudged(vectors[i], policy);
        ask, r := NotAsked, Result(vectors[i].name, Skip, []);
        ProgressBySkip(results, windows, first, cursor, vectors[i].name, policy);
        results := results + [Result(vectors[i].name, Skip, [])];
      } else {
        var result, end, outcome := AskVector(session, fixture, policy, vectors[i], cursor);
        ask, r := Asked(outcome, Window(cursor, end)), result;
        ProgressByWindow(results, windows, first, Window(cursor, end), result, policy);
        results := results + [result];
        windows := windows + [Window(cursor, end)];
        cursor := end;
      }
      JudgedSnoc(judged, vectors, i, asks, true, policy, r, ask);
      AsksSnoc(vectors[..i], asks, vectors[i], ask);
      assert vectors[..i] + [vectors[i]] == vectors[..i + 1];
      Regroup(old(session.calls), CallsFor(vectors[..i], asks),
              if ask.Asked? then [Call(Destination(vectors[i]), ask.outcome)] else []);
      Regroup(windowsBefore, WindowsOf(asks), if ask.Asked? then [ask.window] else []);
      Regroup(before, judged, [r]);
      judged, asks := judged + [r], asks + [ask];
    }
    assert vectors[..|vectors|] == vectors;
  }

  lemma NothingAsked(before: seq<Result>, calls: seq<Call>, windows: seq<Window>, policy: Policy, asking: bool)
    ensures before + [] == before && calls + CallsFor([], []) == calls && windows + WindowsOf([]) == windows
    ensures CallsFor([], []) == [] && WindowsOf([]) == []
    ensures Judged([], [], [], asking, policy)
  {
  }

  lemma SkipIsJudged(vector: Vector, policy: Policy)
    ensures JudgedAs(Result(vector.name, Skip, []), vector, NotAsked, policy)
  {
  }

  /** One vector: the call, and the window it ends. */
  method AskVector(session: Session, fixture: NetworkFixture, policy: Policy, vector: Vector, cursor: Position)
    returns (r: Result, end: Position, outcome: CallOutcome)
    requires fixture.Valid() && NotBefore(cursor, fixture.Now())
    modifies session, fixture.listeners
    ensures fixture.Valid() && NotBefore(cursor, end) && NotBefore(end, fixture.Now())
    ensures session.calls == old(session.calls) + [Call(Destination(vector), outcome)]
    ensures JudgedAs(r, vector, Asked(outcome, Window(cursor, end)), policy)
    ensures Sound(r, policy) && (r.verdict == Fail <==> Reached(Window(cursor, end), policy == DenyPrivate))
  {
    outcome := session.CallTool(fixture, Destination(vector));
    fixture.OtherThreads();
    var reached;
    reached, end := fixture.ReachedSince(cursor, policy == DenyPrivate);
    var verdict;
    if reached != [] {
      verdict := Fail;
    } else if outcome == NoAnswer || outcome == NotAToolResult {
      verdict := Skip;
    } else if policy == DenyPrivate {
      verdict := Skip;
    } else {
      verdict := Pass;
    }
    r := Result(vector.name, verdict, Shown(reached));
  }

  /** Every vector skipped, because the positive control did not reach the allowed origin. */
  method SkipVectors(vectors: seq<Vector>, policy: Policy, before: seq<Result>, ghost windows: seq<Window>,
                     ghost first: Position, ghost cursor: Position)
    returns (results: seq<Result>, ghost judged: seq<Result>, ghost asks: seq<Ask>)
    requires Progress(before, windows, first, cursor, policy)
    ensures Progress(results, windows, first, cursor, policy)
    ensures results == before + judged && |asks| == |vectors| && Judged(judged, vectors, asks, false, policy)
    ensures CallsFor(vectors, asks) == [] && WindowsOf(asks) == []
  {
    results, judged, asks := before, [], [];
    hide Progress, Judged, JudgedAs, CallsFor, WindowsOf;
    NothingAsked(before, [], [], policy, false);
    for i := 0 to |vectors|
      invariant Progress(results, windows, first, cursor, policy)
      invariant |asks| == i && results == before + judged && Judged(judged, vectors[..i], asks, false, policy)
      invariant CallsFor(vectors[..i], asks) == [] && WindowsOf(asks) == []
    {
      SkipIsJudged(vectors[i], policy);
      ghost var r := Result(vectors[i].name, Skip, []);
      JudgedSnoc(judged, vectors, i, asks, false, policy, r, NotAsked);
      AsksSnoc(vectors[..i], asks, vectors[i], NotAsked);
      assert vectors[..i] + [vectors[i]] == vectors[..i + 1];
      Regroup(before, judged, [r]);
      ProgressBySkip(results, windows, first, cursor, vectors[i].name, policy);
      results := results + [Result(vectors[i].name, Skip, [])];
      judged, asks := judged + [r], asks + [NotAsked];
    }
    assert vectors[..|vectors|] == vectors;
  }

  /** One failure of that name exactly when the window was reached. */
  ghost predicate OneFailure(results: seq<Result>, name: string, w: Window, includeAllowed: bool) {
    && NotBefore(w.start, w.end)
    && if Reached(w, includeAllowed) then
         |results| == 1 && results[0].vector == name && results[0].verdict == Fail && results[0].denied != []
       else results == []
  }

  /** The control and the window it ends: anything it sent to a denied listener is a violation. */
  method RunControl(session: Session, fixture: NetworkFixture, route: string -> string, first: Position)
    returns (results: seq<Result>, ghost w: Window, cursor: Position, usable: bool,
             ghost logged: seq<string>, ghost outcome: CallOutcome)
    requires fixture.Valid() && NotBefore(first, fixture.Now())
    modifies session, fixture.listeners
    ensures fixture.Valid() && NotBefore(cursor, fixture.Now()) && w == Window(first, cursor)
    ensures Progress(results, [w], first, cursor, Allowlist)
    ensures OneFailure(results, "positive_control", w, false)
    ensures session.calls == old(session.calls) + [Call(AllowedOrigin, outcome)]
    ensures usable <==> outcome != NoAnswer && exists e <- logged :: route(AfterSpace(e)) == "/control"
  {
    ghost var before;
    usable, before, logged, outcome := Control(session, fixture, route);
    var stray, end := fixture.ReachedSince(first, false);
    cursor, w := end, Window(first, end);
    results := [];
    ProgressAtStart(first, Allowlist);
    if stray == [] {
      ProgressByQuietWindow([], [], first, w, Allowlist);
    } else {
      var r := Result("positive_control", Fail, Shown(stray));
      ProgressByWindow([], [], first, w, r, Allowlist);
      assert [] + [r] == [r];
      results := [r];
    }
    assert [] + [w] == [w];
  }

  /** The last read, and what the whole run then amounts to. */
  method FinishRun(fixture: NetworkFixture, policy: Policy, before: seq<Result>, ghost windowsBefore: seq<Window>,
                   ghost first: Position, cursor: Position)
    returns (results: seq<Result>, ghost w: Window, ghost late: seq<Result>)
    requires fixture.Valid() && NotBefore(cursor, fixture.Now())
    requires Progress(before, windowsBefore, first, cursor, policy)
    modifies fixture.listeners
    ensures fixture.Valid() && Progress(results, windowsBefore + [w], first, w.end, policy)
    ensures NotBefore(old(fixture.Now()), w.end)
    ensures results == before + late && OneFailure(late, "late_request", w, policy == DenyPrivate)
  {
    ghost var last;
    var found;
    found, last := LateRequests(fixture, cursor, policy);
    w := Window(cursor, last);
    late := found;
    results := before + found;
    if found != [] {
      ProgressByWindow(before, windowsBefore, first, w, found[0], policy);
      assert found == [found[0]];
    } else {
      ProgressByQuietWindow(before, windowsBefore, first, w, policy);
      assert before + found == before;
    }
  }

  /** What one run did: the control's answer and log, each vector's call, and the results in their parts. */
  datatype Run = Run(usable: bool, answer: CallOutcome, logged: seq<string>, asks: seq<Ask>,
                     stray: seq<Result>, judged: seq<Result>, late: seq<Result>)

  /**
   The vectors asked for are the runnable ones if the policy is `deny-private` or the control was usable, and none
   otherwise; each is judged by its own window, and the control and the last read by theirs.
   */
  ghost predicate Accounted(run: Run, results: seq<Result>, windows: seq<Window>, calls: seq<Call>,
                            policy: Policy, vectors: seq<Vector>, route: string -> string)
  {
    && Judged(run.judged, vectors, run.asks, policy == DenyPrivate || run.usable, policy)
    && results == run.stray + run.judged + run.late
    && match policy
       case Allowlist =>
         && (run.usable <==> run.answer != NoAnswer && exists e <- run.logged :: route(AfterSpace(e)) == "/control")
         && calls == [Call(AllowedOrigin, run.answer)] + CallsFor(vectors, run.asks)
         && |windows| >= 2 && windows == [windows[0]] + WindowsOf(run.asks) + [windows[|windows| - 1]]
         && OneFailure(run.stray, "positive_control", windows[0], false)
         && OneFailure(run.late, "late_request", windows[|windows| - 1], false)
       case DenyPrivate =>
         && run.stray == [] && calls == CallsFor(vectors, run.asks)
         && |windows| >= 1 && windows == WindowsOf(run.asks) + [windows[|windows| - 1]]
         && OneFailure(run.late, "late_request", windows[|windows| - 1], true)
  }

  /** What the run has before the vectors: the control's call, result and window under `allowlist`, else nothing. */
  ghost predicate Started(run: Run, results: seq<Result>, windows: seq<Window>, calls: seq<Call>, usable: bool,
                          policy: Policy, route: string -> string)
  {
    match policy
    case Allowlist =>
      && run.usable == usable && calls == [Call(AllowedOrigin, run.answer)] && |windows| == 1
      && (usable <==> run.answer != NoAnswer && exists e <- run.logged :: route(AfterSpace(e)) == "/control")
      && run.stray == results && OneFailure(results, "positive_control", windows[0], false)
    case DenyPrivate => usable && run.stray == results == [] && windows == [] && calls == []
  }

  method StartRun(session: Session, fixture: NetworkFixture, policy: Policy, route: string -> string, first: Position)
    returns (results: seq<Result>, ghost windows: seq<Window>, cursor: Position, usable: bool, ghost run: Run,
             ghost calls: seq<Call>)
    requires fixture.Valid() && NotBefore(first, fixture.Now())
    modifies session, fixture.listeners
    ensures fixture.Valid() && NotBefore(cursor, fixture.Now())
    ensures Progress(results, windows, first, cursor, policy) && session.calls == old(session.calls) + calls
    ensures Started(run, results, windows, calls, usable, policy, route)
  {
    hide Progress, NotBefore, NetworkFixture.Valid, OneFailure;
    results, windows, cursor, usable, calls := [], [], first, true, [];
    run := Run(true, NoAnswer, [], [], [], [], []);
    ProgressAtStart(first, policy);
    if policy == Allowlist {
      ghost var w, logged, answer;
      results, w, cursor, usable, logged, answer := RunControl(session, fixture, route, cursor);
      windows, calls := [w], [Call(AllowedOrigin, answer)];
      run := Run(usable, answer, logged, [], results, [], []);
    }
  }

  lemma AddsUp<T>(before: seq<T>, a: seq<T>, b: seq<T>, all: seq<T>)
    requires all == before + (a + b) || all == before + a + b
    ensures before <= all && all[|before|..] == a + b
  {
  }

  /** The parts of a run, put together. */
  lemma AccountedIs(run: Run, stray: seq<Result>, judged: seq<Result>, late: seq<Result>, results: seq<Result>,
                    controlled: seq<Call>, lead: seq<Window>, w: Window, policy: Policy, vectors: seq<Vector>,
                    asks: seq<Ask>, usable: bool, route: string -> string)
    requires Started(run, stray, lead, controlled, usable, policy, route)
    requires |asks| == |vectors| && Judged(judged, vectors, asks, usable, policy)
    requires OneFailure(late, "late_request", w, policy == DenyPrivate) && results == stray + judged + late
    ensures Accounted(run.(asks := asks, judged := judged, late := late), results, lead + WindowsOf(asks) + [w],
                      controlled + CallsFor(vectors, asks), policy, vectors, route)
  {
    hide Judged, OneFailure, CallsFor, WindowsOf;
    var windows := lead + WindowsOf(asks) + [w];
    if policy == Allowlist {
      assert lead == [windows[0]];
    } else {
      assert lead + WindowsOf(asks) == WindowsOf(asks);
      assert controlled + CallsFor(vectors, asks) == CallsFor(vectors, asks);
    }
  }

  /**
   `run_network_checks`.  `first` is the mark taken before the first call and `last` the position of the last read;
   `windows` are the reads in between.
   */
  method RunNetworkChecks(session: Session, fixture: NetworkFixture, inCatalog: bool, policy: Policy,
                          vectors: seq<Vector>, route: string -> string)
    returns (results: seq<Result>, ghost windows: seq<Window>, ghost first: Position, ghost last: Position,
             ghost run: Run)
    requires fixture.Valid()
    modifies session, fixture.listeners
    ensures !inCatalog ==>
      results == [Result("", Skip, [])] && windows == [] && session.calls == old(session.calls)
    ensures inCatalog ==> NotBefore(old(fixture.Now()), first) && NotBefore(first, last)
    // Which vectors were asked for, and how each part of the results follows from its own window.
    ensures inCatalog ==> old(session.calls) <= session.calls &&
                          Accounted(run, results, windows, session.calls[|old(session.calls)|..],
                                    policy, vectors, route)
    // No gap: the windows cover everything from the first mark to the last read, and each reached one fails once.
    ensures inCatalog ==> Progress(results, windows, first, last, policy)
    ensures inCatalog ==>
      ((exists r <- results :: r.verdict == Fail) <==> Reached(Window(first, last), policy == DenyPrivate))
    // Each connection accepted in between, on any listener, falls in exactly one of the windows.
    ensures inCatalog ==> forall k, c :: 0 <= k < |first| && first[k] <= c < last[k] ==> InOneWindow(windows, k, c)
  {
    hide *;
    run := Run(true, NoAnswer, [], [], [], [], []);
    if !inCatalog {
      return [Result("", Skip, [])], [], [], [], run;
    }
    var cursor := fixture.Mark();
    first := cursor;
    var usable;
    ghost var controlled;
    results, windows, cursor, usable, run, controlled := StartRun(session, fixture, policy, route, cursor);
    ghost var lead, stray := windows, results;
    ghost var asks, judged, w, late;
    if usable {
      results, judged, windows, cursor, asks :=
        RunVectors(session, fixture, policy, vectors, first, results, windows, cursor);
    } else {
      results, judged, asks := SkipVectors(vectors, policy, results, windows, first, cursor);
    }
    results, w, late := FinishRun(fixture, policy, results, windows, first, cursor);
    AddsUp(old(session.calls), controlled, CallsFor(vectors, asks), session.calls);
    AddsUp([], lead, WindowsOf(asks), windows);
    AccountedIs(run, stray, judged, late, results, controlled, lead, w, policy, vectors, asks, usable, route);
    windows, last := windows + [w], w.end;
    run := run.(asks := asks, judged := judged, late := late);
    FailsExactlyWhenReached(results, windows, first, last, policy);
    EachInOneWindow(results, windows, first, last, policy);
  }

  /** The connection `c` of listener `k` falls in one of the windows and in no other. */
  ghost predicate InOneWindow(windows: seq<Window>, k: nat, c: nat) {
    exists i :: 0 <= i < |windows| && Holds(windows[i], k, c) &&
      forall j :: 0 <= j < |windows| && j != i ==> !Holds(windows[j], k, c)
  }

  lemma EachInOneWindow(results: seq<Result>, windows: seq<Window>, first: Position, last: Position, policy: Policy)
    requires Progress(results, windows, first, last, policy)
    ensures NotBefore(first, last)
    ensures forall k, c :: 0 <= k < |first| && first[k] <= c < last[k] ==> InOneWindow(windows, k, c)
  {
    WindowsOrdered(windows, first, last);
    forall k, c | 0 <= k < |first| && first[k] <= c < last[k] ensures InOneWindow(windows, k, c) {
      ExactlyOneWindow(windows, first, last, k, c);
      var i :| 0 <= i < |windows| && Holds(windows[i], k, c);
      assert forall j :: 0 <= j < |windows| && j != i ==> !Holds(windows[j], k, c);
    }
  }

  lemma ProgressAtStart(first: Position, policy: Policy)
    ensures Progress([], [], first, first, policy)
  {
  }
}
