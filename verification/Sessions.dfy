/**
 Sessions that probes open with `initialize`, and the promise to try to close every one of them.

 A wire records the events that matter: an answer to `initialize` that issued a session id, an attempt to DELETE
 a session, and an error in closing the very answer that issued one.  What a server or a transport does is a free
 choice at each call.  The last event is the one way to lose a session: an error raised by closing the answer
 leaves the exchange before anyone can try the DELETE.  So what is proved is that every session issued is tried
 unless its answer failed to close, and `Wire.Exchange` says exactly when that is.
 */
module Sessions {
  import opened Wrappers

  // ---------- what the wire saw ----------

  datatype Session = Session(url: string, id: string)

  datatype Event = Issued(session: Session) | DeleteTried(session: Session) | CloseFailed(session: Session)

  function Step(owed: set<Session>, event: Event): set<Session> {
    match event
    case Issued(s) => owed + {s}
    case DeleteTried(s) => owed - {s}
    case CloseFailed(s) => owed - {s}
  }

  /** Sessions still owed a DELETE: issued, with none tried since and no failure to close the answer. */
  function Owed(log: seq<Event>): set<Session> {
    if log == [] then {} else Step(Owed(log[..|log| - 1]), log[|log| - 1])
  }

  predicate Settling(event: Event, s: Session) {
    event == DeleteTried(s) || event == CloseFailed(s)
  }

  /** A session is owed a DELETE exactly when it was issued and nothing settled that afterwards. */
  lemma {:induction false} OwedMeans(log: seq<Event>, s: Session)
    ensures s in Owed(log) <==>
      exists i :: 0 <= i < |log| && log[i] == Issued(s) && forall j :: i < j < |log| ==> !Settling(log[j], s)
  {
    if log != [] {
      var last := |log| - 1;
      OwedMeans(log[..last], s);
      assert forall i :: 0 <= i < last ==> log[..last][i] == log[i];
      if s in Owed(log) {
        if log[last] == Issued(s) {
        } else {
          var i :| 0 <= i < last && log[..last][i] == Issued(s)
                   && forall j :: i < j < last ==> !Settling(log[..last][j], s);
          assert log[i] == Issued(s);
        }
      }
    }
  }

  ghost predicate TriedAfter(log: seq<Event>, i: int, s: Session) {
    exists j :: 0 <= i < j < |log| && log[j] == DeleteTried(s)
  }

  ghost predicate LostAfter(log: seq<Event>, i: int, s: Session) {
    exists j :: 0 <= i < j < |log| && log[j] == CloseFailed(s)
  }

  /** When nothing is owed, every session issued was tried at the URL that issued it, or lost in closing its answer. */
  lemma EverySessionWasTriedOrLost(log: seq<Event>, i: nat)
    requires Owed(log) == {} && i < |log| && log[i].Issued?
    ensures TriedAfter(log, i, log[i].session) || LostAfter(log, i, log[i].session)
  {
    OwedMeans(log, log[i].session);
    var j :| i < j < |log| && Settling(log[j], log[i].session);
  }

  /** An answer that fails to close is the one that has just issued its session. */
  ghost predicate Orderly(log: seq<Event>) {
    forall i :: 0 <= i < |log| && log[i].CloseFailed? ==> i > 0 && log[i - 1] == Issued(log[i].session)
  }

  /** After `n` events, a session whose answer failed to close is never tried again. */
  ghost predicate LostForGood(log: seq<Event>, n: int) {
    forall i, j :: 0 <= n <= i < j < |log| && log[i].CloseFailed? ==> log[j] != DeleteTried(log[i].session)
  }

  /** Every session issued was tried exactly when every answer that issued one could be closed. */
  lemma EverySessionWasTriedExactly(log: seq<Event>)
    requires Owed(log) == {} && Orderly(log) && LostForGood(log, 0)
    ensures (forall i :: 0 <= i < |log| && log[i].Issued? ==> TriedAfter(log, i, log[i].session)) <==>
            (forall event <- log :: !event.CloseFailed?)
  {
    if forall event <- log :: !event.CloseFailed? {
      forall i | 0 <= i < |log| && log[i].Issued? ensures TriedAfter(log, i, log[i].session) {
        EverySessionWasTriedOrLost(log, i);
      }
    }
    if exists event <- log :: event.CloseFailed? {
      var i :| 0 <= i < |log| && log[i].CloseFailed?;
      var s := log[i].session;
      assert log[i - 1] == Issued(s);
      assert !TriedAfter(log, i - 1, s);
    }
    hide Owed;
  }

  // ---------- how many were lost ----------

  /** How many answers failed to close. */
  function Losses(log: seq<Event>): nat {
    if log == [] then 0
    else Losses(log[..|log| - 1]) + if log[|log| - 1].CloseFailed? then 1 else 0
  }

  lemma LossesSnoc(log: seq<Event>, event: Event)
    ensures Losses(log + [event]) == Losses(log) + if event.CloseFailed? then 1 else 0
  {
    assert (log + [event])[..|log|] == log;
  }

  lemma {:induction false} LossesGrow(log: seq<Event>, n: nat)
    requires n <= |log|
    ensures Losses(log[..n]) <= Losses(log)
    ensures forall i :: n <= i < |log| && log[i].CloseFailed? ==> Losses(log[..n]) < Losses(log)
  {
    var last := |log| - 1;
    if n < |log| {
      LossesGrow(log[..last], n);
      assert log[..last][..n] == log[..n];
      assert forall i :: n <= i < last ==> log[..last][i] == log[i];
    } else {
      assert log[..n] == log;
    }
  }

  /** Between the two logs no answer failed to close, or only the last event is one and the call has raised. */
  ghost predicate LeavesWhenLost(before: seq<Event>, after: seq<Event>, returned: bool) {
    || Losses(after) == Losses(before)
    || (!returned && after != [] && after[|after| - 1].CloseFailed? && Losses(after) == Losses(before) + 1)
  }

  /** Whoever leaves at a loss never tries that session again. */
  lemma LeavingLosesForGood(before: seq<Event>, after: seq<Event>)
    requires before <= after && LeavesWhenLost(before, after, false)
    ensures LostForGood(after, |before|)
  {
    var n, last := |before|, |after| - 1;
    assert after[..n] == before;
    LossesGrow(after, n);
    if Losses(after) != Losses(before) {
      assert n == |after| ==> after == before;
      LossesGrow(after[..last], n);
      assert after[..last][..n] == before;
      forall i | n <= i < last ensures !after[i].CloseFailed? {
        assert after[..last][i] == after[i];
      }
    }
    hide Losses;
  }

  lemma OwedSnoc(log: seq<Event>, event: Event)
    ensures Owed(log + [event]) == Step(Owed(log), event)
    ensures Orderly(log) && (event.CloseFailed? ==> log != [] && log[|log| - 1] == Issued(event.session)) ==>
            Orderly(log + [event])
  {
    assert (log + [event])[..|log|] == log;
  }

  /** After `n` events, everything happened at one URL. */
  ghost predicate OnlyAt(log: seq<Event>, n: int, url: string) {
    forall i :: 0 <= n <= i < |log| ==> log[i].session.url == url
  }

  ghost predicate Distinct(urls: seq<string>) {
    forall i, j :: 0 <= i < j < |urls| ==> urls[i] != urls[j]
  }

  /** After `n` events, answers failed to close only at these URLs. */
  ghost predicate LostAt(log: seq<Event>, n: int, urls: seq<string>) {
    forall i :: 0 <= n <= i < |log| && log[i].CloseFailed? ==> log[i].session.url in urls
  }

  lemma NothingLostYet(before: seq<Event>, after: seq<Event>, urls: seq<string>)
    requires before <= after && Losses(after) == Losses(before)
    ensures LostAt(after, |before|, urls[..0]) && LostForGood(after, |before|)
  {
    assert after[..|before|] == before;
    LossesGrow(after, |before|);
    hide Losses;
  }

  /** Going on to the next address neither tries nor forgets what was lost at the earlier ones. */
  lemma LostAtNext(before: seq<Event>, after: seq<Event>, n: nat, urls: seq<string>, k: nat)
    requires n <= |before| && before <= after && k < |urls|
    requires LostAt(before, n, urls[..k]) && OnlyAt(after, |before|, urls[k]) && LostForGood(after, |before|)
    ensures LostAt(after, n, urls[..k + 1])
    ensures Distinct(urls) && LostForGood(before, n) ==> LostForGood(after, n)
  {
    assert urls[..k + 1] == urls[..k] + [urls[k]];
    forall i | n <= i < |after| && after[i].CloseFailed? ensures after[i].session.url in urls[..k + 1] {
      assert i < |before| ==> before[i] == after[i];
    }
    if Distinct(urls) && LostForGood(before, n) {
      forall i, j | n <= i < j < |after| && after[i].CloseFailed? ensures after[j] != DeleteTried(after[i].session) {
        if i < |before| {
          assert before[i] == after[i] && after[i].session.url in urls[..k];
          assert j < |before| ==> before[j] == after[j];
        }
      }
    }
  }

  /** What happens to a wire while a probe runs: events are added, and no session is owed that was not before. */
  ghost predicate Settles(before: seq<Event>, after: seq<Event>) {
    before <= after && Owed(after) <= Owed(before) && (Orderly(before) ==> Orderly(after))
  }

  // ---------- probes that run side by side ----------

  /** `merged` interleaves the events of all the logs. */
  ghost predicate Interleaves(logs: seq<seq<Event>>, merged: seq<Event>)
    decreases |merged|
  {
    if merged == [] then forall log <- logs :: log == []
    else exists k :: 0 <= k < |logs| && LastIs(logs[k], merged[|merged| - 1]) &&
                     Interleaves(logs[k := logs[k][..|logs[k]| - 1]], merged[..|merged| - 1])
  }

  predicate LastIs(log: seq<Event>, event: Event) {
    log != [] && log[|log| - 1] == event
  }

  /** However the events of any number of probes interleave, a session is owed only if one of them owes it. */
  lemma {:induction false} InterleavedOweNoMore(logs: seq<seq<Event>>, merged: seq<Event>, s: Session)
    requires Interleaves(logs, merged) && s in Owed(merged)
    ensures exists k :: 0 <= k < |logs| && s in Owed(logs[k])
    decreases |merged|
  {
    var last, front := merged[|merged| - 1], merged[..|merged| - 1];
    var k :| 0 <= k < |logs| && LastIs(logs[k], last) && Interleaves(logs[k := logs[k][..|logs[k]| - 1]], front);
    var shorter := logs[k := logs[k][..|logs[k]| - 1]];
    if last == Issued(s) {
      assert s in Owed(logs[k]);
    } else {
      assert s in Owed(front) && !Settling(last, s);
      InterleavedOweNoMore(shorter, front, s);
      var j :| 0 <= j < |shorter| && s in Owed(shorter[j]);
      assert s in Owed(logs[j]);
    }
  }

  /** Probes that each owe nothing leave every session tried or lost, however their requests interleave. */
  lemma TogetherEverySessionWasTriedOrLost(logs: seq<seq<Event>>, merged: seq<Event>, i: nat)
    requires Interleaves(logs, merged) && (forall log <- logs :: Owed(log) == {})
    requires i < |merged| && merged[i].Issued?
    ensures TriedAfter(merged, i, merged[i].session) || LostAfter(merged, i, merged[i].session)
  {
    forall s | s in Owed(merged) ensures false {
      InterleavedOweNoMore(logs, merged, s);
    }
    assert Owed(merged) == {};
    EverySessionWasTriedOrLost(merged, i);
  }

  // ---------- answers and failures ----------

  datatype Unreadable = Encoded | Capped | Unfinished

  /** An HTTP answer as far as the probes look; an empty `sessionId` is none. */
  datatype Answer = Answer(
    status: int, sessionId: string, finalUrl: string, unobservable: Option<Unreadable>,
    hasResult: bool, supportedVersions: bool, protocolVersion: bool, negotiated: Option<string>, invalidToken: bool)

  datatype Failure = ReadTimeout(answered: bool) | TransportError(answered: bool, refused: bool) | OtherFailure

  datatype Call<+T> = Returned(value: T) | Raised(failure: Failure)

  datatype Outcome = Supported | Unsupported | NotApplicable | Errored

  predicate Success(status: int) {
    200 <= status < 300
  }

  predicate AuthGated(status: int) {
    status == 401 || status == 403
  }

  predicate Redirected(status: int) {
    status in {301, 302, 303, 307, 308}
  }

  predicate TokenRefused(answer: Answer) {
    AuthGated(answer.status) || (400 <= answer.status < 500 && answer.invalidToken)
  }

  predicate Inconclusive(status: int) {
    status == 408 || status == 429 || status >= 500
  }

  datatype Verb = Initialize | OtherMethod

  datatype Request = Request(url: string, verb: Verb)

  /** After `n` requests, the next one was that. */
  ghost predicate Begun(sent: seq<Request>, n: int, request: Request) {
    0 <= n < |sent| && sent[n] == request
  }

  /** After `n` requests, the last two were the same, sent to that URL. */
  ghost predicate Repeated(sent: seq<Request>, n: int, url: string) {
    0 <= n <= |sent| - 2 && sent[|sent| - 2] == sent[|sent| - 1] && sent[|sent| - 1].url == url
  }

  /** After `n` requests, the last two were one request to the two URLs. */
  ghost predicate Compared(sent: seq<Request>, n: int, url: string, other: string) {
    && 0 <= n <= |sent| - 2 && sent[|sent| - 2].verb == sent[|sent| - 1].verb
    && sent[|sent| - 2].url == url && sent[|sent| - 1].url == other
  }

  ghost predicate Judged(call: Call<Outcome>) {
    call == Returned(Supported) || call == Returned(Unsupported)
  }

  function SessionOf(url: string, id: string): set<Session> {
    if id == "" then {} else {Session(url, id)}
  }

  datatype Replay = ServedReplay | RefusedReplay | InconclusiveReplay | ClosedReplay | UnknownReplay

  datatype LegacySession = LegacySession(initialize: Answer, initialized: int)

  /** What opening a session came to: the session if there is one, the answer, and the URL that answered. */
  datatype Opened = Opened(session: Option<LegacySession>, response: Answer, url: string)

  /**
   What the transport does with one request.  The request may fail before any answer; an answer's headers may arrive
   and its body then fail; closing the answer may fail the first time, and again in the end if the body failed.
   */
  datatype Transport = Transport(
    answers: bool, failure: Failure, answer: Answer, bodyFails: bool, timedOut: bool, transport: bool,
    closeFails: bool, closeFailsAgain: bool, closeFailure: Failure)

  /** The URL that answered. */
  function AnsweredAt(url: string, followRedirects: bool, answer: Answer): string {
    if followRedirects && answer.finalUrl != "" then answer.finalUrl else url
  }

  /** The session that an exchange issues. */
  function IssuedBy(url: string, kind: Verb, followRedirects: bool, t: Transport): Option<Session> {
    if t.answers && kind == Initialize && t.answer.sessionId != ""
    then Some(Session(AnsweredAt(url, followRedirects, t.answer), t.answer.sessionId))
    else None
  }

  lemma IssuedByIs(url: string, kind: Verb, followRedirects: bool, t: Transport)
    ensures IssuedBy(url, kind, followRedirects, t)
            == if t.answers && kind == Initialize && t.answer.sessionId != ""
               then Some(Session(if followRedirects && t.answer.finalUrl != "" then t.answer.finalUrl else url,
                                 t.answer.sessionId))
               else None
  {
  }

  /** The sessions an answer to a request leaves for its caller to close. */
  function LeftBy(kind: Verb, answer: Answer): set<Session> {
    if kind == Initialize then SessionOf(answer.finalUrl, answer.sessionId) else {}
  }

  // ---------- one HTTP exchange ----------

  class Wire {
    var log: seq<Event>
    /** The JSON-RPC requests sent so far. */
    ghost var sent: seq<Request>

    constructor ()
      ensures log == [] && sent == []
    {
      log, sent := [], [];
    }

    method Record(event: Event)
      requires event.CloseFailed? ==> log != [] && log[|log| - 1] == Issued(event.session)
      modifies this
      ensures log == old(log) + [event] && Owed(log) == Step(old(Owed(log)), event) && sent == old(sent)
      ensures old(Orderly(log)) ==> Orderly(log)
      ensures Losses(log) == old(Losses(log)) + if event.CloseFailed? then 1 else 0
    {
      OwedSnoc(log, event);
      LossesSnoc(log, event);
      log := log + [event];
    }

    /** `end_session`: best effort, never raises; whatever becomes of the DELETE, it was tried. */
    method EndSession(url: string, id: string)
      modifies this
      ensures log == old(log) + (if id == "" then [] else [DeleteTried(Session(url, id))]) && sent == old(sent)
      ensures Owed(log) == old(Owed(log)) - SessionOf(url, id) && (old(Orderly(log)) ==> Orderly(log))
      ensures Losses(log) == old(Losses(log))
    {
      if id != "" {
        Record(DeleteTried(Session(url, id)));
      }
    }

    /**
     `post_rpc`, against a transport that does as it is told.  An answer to `initialize` that carries a session id
     has issued a session at the URL that answered.  The answer is closed once its body was read, or first of all
     when the body fails; an error in closing it leaves at once.
     */
    method Exchange(url: string, kind: Verb, followRedirects: bool, closeOnFailure: bool, t: Transport)
      returns (call: Call<Answer>)
      requires kind == Initialize ==> closeOnFailure
      modifies this
      // An answer to `initialize` that carries a session id issues it at the URL that answered, which is returned.
      ensures t.answers && kind == Initialize && t.answer.sessionId != "" ==>
        && |log| > |old(log)| && log[|old(log)|].Issued? && log[|old(log)|].session.id == t.answer.sessionId
        && log[|old(log)|].session.url == if followRedirects && t.answer.finalUrl != "" then t.answer.finalUrl else url
      ensures call.Returned? ==>
        call.value.finalUrl == if followRedirects && t.answer.finalUrl != "" then t.answer.finalUrl else url
      // A session issued is handed on with the answer, tried, or lost: lost exactly when its answer fails to close.
      ensures IssuedBy(url, kind, followRedirects, t).Some? ==>
        var s := IssuedBy(url, kind, followRedirects, t).value;
        log == old(log) + [Issued(s)] + (if t.closeFails then [CloseFailed(s)]
                                         else if t.bodyFails then [DeleteTried(s)] else [])
      ensures kind == Initialize && IssuedBy(url, kind, followRedirects, t).None? ==> log == old(log)
      ensures call.Raised? <==>
        !t.answers || t.closeFails || (t.bodyFails && (t.closeFailsAgain || !(t.timedOut && t.answer.status >= 400)))
      ensures call.Returned? ==>
        && call.value.sessionId == t.answer.sessionId && call.value.status == t.answer.status
      ensures old(log) <= log && (old(Orderly(log)) ==> Orderly(log))
      ensures call.Raised? ==> Owed(log) <= old(Owed(log))
      ensures call.Returned? ==> Owed(log) <= old(Owed(log)) + LeftBy(kind, call.value)
      ensures LeavesWhenLost(old(log), log, call.Returned?)
      ensures kind == OtherMethod ==> Losses(log) == old(Losses(log))
      ensures !followRedirects ==> OnlyAt(log, |old(log)|, url)
      ensures sent == old(sent) + [Request(url, kind)]
    {
      hide Owed, Orderly, Losses, IssuedBy;
      IssuedByIs(url, kind, followRedirects, t);
      sent := sent + [Request(url, kind)];
      if !t.answers {
        return Raised(t.failure);
      }
      var answer := t.answer;
      if !followRedirects || answer.finalUrl == "" {
        answer := answer.(finalUrl := url);
      }
      var issues := kind == Initialize && answer.sessionId != "";
      var session := Session(answer.finalUrl, answer.sessionId);
      if issues {
        Record(Issued(session));
      }
      if t.closeFails {
        // Raised from the final close, or from the one before the cleanup: either way nobody tries the session.
        if issues {
          Record(CloseFailed(session));
        }
        return Raised(t.closeFailure);
      }
      if !t.bodyFails {
        // Read, or left unread because it is encoded or past the cap.
        return Returned(answer);
      }
      if closeOnFailure {
        EndSession(answer.finalUrl, answer.sessionId);
      }
      if t.closeFailsAgain {
        return Raised(t.closeFailure);
      }
      if t.timedOut && answer.status >= 400 {
        return Returned(answer.(unobservable := Some(Unfinished), hasResult := false, supportedVersions := false,
                                protocolVersion := false, negotiated := None));
      }
      return Raised(if t.timedOut then ReadTimeout(true)
                    else if t.transport then TransportError(true, false) else OtherFailure);
    }

    /** `post_rpc`, against any transport. */
    method PostRpc(url: string, kind: Verb, followRedirects: bool, closeOnFailure: bool) returns (call: Call<Answer>)
      requires kind == Initialize ==> closeOnFailure
      modifies this
      ensures old(log) <= log && (old(Orderly(log)) ==> Orderly(log))
      ensures call.Raised? ==> Owed(log) <= old(Owed(log))
      ensures call.Returned? ==> Owed(log) <= old(Owed(log)) + LeftBy(kind, call.value)
      ensures call.Returned? ==> call.value.finalUrl == url || (followRedirects && call.value.finalUrl != "")
      // The session that comes with the answer was issued at the URL that answered.
      ensures call.Returned? && kind == Initialize && call.value.sessionId != "" ==>
        |log| > |old(log)| && log[|old(log)|] == Issued(Session(call.value.finalUrl, call.value.sessionId))
      ensures LeavesWhenLost(old(log), log, call.Returned?)
      ensures kind == OtherMethod ==> Losses(log) == old(Losses(log))
      ensures !followRedirects ==> OnlyAt(log, |old(log)|, url)
      ensures sent == old(sent) + [Request(url, kind)]
    {
      var t: Transport := *;
      call := Exchange(url, kind, followRedirects, closeOnFailure, t);
    }

    /** `post_raw`, `get_status`: a request that opens no session and closes none. */
    method RequestStatus() returns (call: Call<int>)
      ensures log == old(log) && sent == old(sent)
    {
      call := *;
    }

    /** `request_status("DELETE", ...)`: the attempt counts whether or not an answer comes. */
    method DeleteStatus(url: string, id: string) returns (call: Call<int>)
      modifies this
      ensures old(log) <= log && Owed(log) == old(Owed(log)) - {Session(url, id)}
      ensures Losses(log) == old(Losses(log)) && sent == old(sent)
      ensures old(Orderly(log)) ==> Orderly(log)
    {
      Record(DeleteTried(Session(url, id)));
      call := *;
    }

    // ---------- controls ----------

    /** `_accepted_control`: `server/discover`, else `initialize`; the answer says which shape was accepted. */
    method AcceptedControl(url: string) returns (call: Call<Option<Verb>>)
      modifies this
      ensures Settles(old(log), log)
      ensures LeavesWhenLost(old(log), log, call.Returned?)
      ensures old(sent) <= sent && Begun(sent, |old(sent)|, Request(url, OtherMethod))
      // The shape accepted is that of the last request.
      ensures call.Returned? && call.value.Some? ==> sent[|sent| - 1] == Request(url, call.value.value)
    {
      hide Owed, Orderly, Step, Losses;
      var first := PostRpc(url, OtherMethod, false, true);
      if first.Raised? {
        return Raised(first.failure);
      }
      var control := first.value;
      if control.unobservable.Some? {
        return Returned(None);
      }
      var shape := OtherMethod;
      var accepted := Success(control.status) && control.supportedVersions;
      if !AuthGated(control.status) && !accepted {
        var second := PostRpc(url, Initialize, false, true);
        if second.Raised? {
          return Raised(second.failure);
        }
        control := second.value;
        EndSession(url, control.sessionId);
        if control.unobservable.Some? {
          return Returned(None);
        }
        shape := Initialize;
        accepted := Success(control.status) && control.protocolVersion;
      }
      if AuthGated(control.status) || !accepted {
        return Returned(None);
      }
      return Returned(Some(shape));
    }

    /** Repeat an accepted control and close what the repetition begun. */
    method RepeatControl(url: string, shape: Verb) returns (call: Call<Answer>)
      modifies this
      ensures Settles(old(log), log)
      ensures LeavesWhenLost(old(log), log, call.Returned?)
      ensures OnlyAt(log, |old(log)|, url)
      ensures sent == old(sent) + [Request(url, shape)]
    {
      call := PostRpc(url, shape, false, true);
      if call.Returned? && shape == Initialize {
        EndSession(url, call.value.sessionId);
      }
    }

    /** `_probe_origin_validation` */
    method ProbeOriginValidation(url: string) returns (call: Call<Outcome>)
      modifies this
      ensures Settles(old(log), log)
      ensures LeavesWhenLost(old(log), log, call.Returned?)
      ensures old(sent) <= sent && Begun(sent, |old(sent)|, Request(url, OtherMethod))
      // A verdict rests on an accepted control and the same request again.
      ensures Judged(call) ==> Repeated(sent, |old(sent)|, url)
    {
      var control := AcceptedControl(url);
      if control.Raised? {
        return Raised(control.failure);
      }
      if control.value.None? {
        return Returned(NotApplicable);
      }
      var spoofed := RepeatControl(url, control.value.value);
      if spoofed.Raised? {
        return Raised(spoofed.failure);
      }
      return Returned(if spoofed.value.status == 403 then Supported else Unsupported);
    }

    /** `_probe_host_validation`, for a loopback target */
    method ProbeHostValidation(url: string) returns (call: Call<Outcome>)
      modifies this
      ensures Settles(old(log), log)
      ensures LeavesWhenLost(old(log), log, call.Returned?)
      ensures old(sent) <= sent && Begun(sent, |old(sent)|, Request(url, OtherMethod))
      ensures Judged(call) ==> Repeated(sent, |old(sent)|, url)
    {
      var control := AcceptedControl(url);
      if control.Raised? {
        return Raised(control.failure);
      }
      if control.value.None? {
        return Returned(NotApplicable);
      }
      var spoofed := RepeatControl(url, control.value.value);
      if spoofed.Raised? {
        return Raised(spoofed.failure);
      }
      var status := spoofed.value.status;
      return Returned(if Inconclusive(status) then Errored
                      else if 400 <= status < 500 then Supported else Unsupported);
    }

    /** `_replay_control`: transport errors are an answer here, anything else still propagates. */
    method ReplayControl(url: string, shape: Verb) returns (call: Call<Replay>)
      modifies this
      ensures Settles(old(log), log)
      ensures LeavesWhenLost(old(log), log, false) && OnlyAt(log, |old(log)|, url)
      ensures sent == old(sent) + [Request(url, shape)]
    {
      var replay := RepeatControl(url, shape);
      match replay {
        case Raised(OtherFailure) => return Raised(OtherFailure);
        case Raised(ReadTimeout(answered)) =>
          return Returned(if answered then InconclusiveReplay else UnknownReplay);
        case Raised(TransportError(answered, refused)) =>
          return Returned(if answered then InconclusiveReplay else if refused then ClosedReplay else UnknownReplay);
        case Returned(answer) =>
          var field := if shape == OtherMethod then answer.supportedVersions else answer.protocolVersion;
          return Returned(if Success(answer.status) && field then ServedReplay
                          else if Inconclusive(answer.status) || answer.unobservable.Some? then InconclusiveReplay
                          else RefusedReplay);
      }
    }

    /** `_probe_local_bind`: the control on loopback, then on every address that may be listening. */
    method ProbeLocalBind(url: string, addresses: seq<string>) returns (call: Call<Outcome>)
      modifies this
      ensures Settles(old(log), log)
      // The addresses of one machine are distinct, so no session lost at one is tried at another.
      ensures Distinct(addresses) ==> LostForGood(log, |old(log)|)
      ensures old(sent) <= sent && Begun(sent, |old(sent)|, Request(url, OtherMethod))
    {
      hide Owed, Orderly, Step, Losses;
      var control := AcceptedControl(url);
      LeavingLosesForGood(old(log), log);
      if control.Raised? {
        return Raised(control.failure);
      }
      if control.value.None? {
        return Returned(NotApplicable);
      }
      NothingLostYet(old(log), log, addresses);
      var serving, unknown := 0, 0;
      for i := 0 to |addresses|
        invariant Settles(old(log), log)
        invariant Distinct(addresses) ==> LostForGood(log, |old(log)|)
        invariant LostAt(log, |old(log)|, addresses[..i])
        invariant old(sent) <= sent && Begun(sent, |old(sent)|, Request(url, OtherMethod))
      {
        var listening: bool, known: bool := *, *;
        if known && listening {
          ghost var before := log;
          var replay := ReplayControl(addresses[i], control.value.value);
          LeavingLosesForGood(before, log);
          LostAtNext(before, log, |old(log)|, addresses, i);
          if replay.Raised? {
            return Raised(replay.failure);
          }
          serving := serving + if replay.value == ServedReplay then 1 else 0;
          unknown := unknown + if replay.value in {InconclusiveReplay, UnknownReplay} then 1 else 0;
        } else if !known {
          unknown := unknown + 1;
        }
      }
      return Returned(if serving > 0 then Unsupported else if unknown > 0 then Errored else Supported);
    }

    // ---------- credentials ----------

    /** `_probe_invalid_token`: `tools/list`, then `initialize`, both with a fabricated token. */
    method ProbeInvalidToken(url: string) returns (call: Call<Outcome>)
      modifies this
      ensures Settles(old(log), log)
      ensures LeavesWhenLost(old(log), log, call.Returned?)
      ensures old(sent) <= sent && Begun(sent, |old(sent)|, Request(url, OtherMethod))
    {
      hide Owed, Orderly, Step, Losses;
      for attempt := 0 to 2
        invariant Settles(old(log), log)
        invariant Losses(log) == old(Losses(log))
        invariant old(sent) <= sent && (attempt > 0 ==> Begun(sent, |old(sent)|, Request(url, OtherMethod)))
        invariant attempt == 0 ==> sent == old(sent)
      {
        var kind := if attempt == 0 then OtherMethod else Initialize;
        var sent := PostRpc(url, kind, false, true);
        if sent.Raised? {
          return Raised(sent.failure);
        }
        var answer := sent.value;
        EndSession(url, answer.sessionId);
        if TokenRefused(answer) {
          return Returned(Supported);
        }
        if Success(answer.status) {
          if kind == Initialize {
            call := JudgeServedInitialize(url);
            return;
          }
          return Returned(Unsupported);
        }
        if Redirected(answer.status) {
          return Returned(NotApplicable);
        }
        if !(400 <= answer.status < 500) || answer.status in {408, 429} {
          break;
        }
      }
      return Returned(NotApplicable);
    }

    /** `_judge_served_initialize`: the same `initialize` without the token. */
    method JudgeServedInitialize(url: string) returns (call: Call<Outcome>)
      modifies this
      ensures Settles(old(log), log)
      ensures LeavesWhenLost(old(log), log, call.Returned?)
      ensures sent == old(sent) + [Request(url, Initialize)]
    {
      var control := PostRpc(url, Initialize, false, true);
      if control.Raised? {
        return Raised(control.failure);
      }
      EndSession(url, control.value.sessionId);
      return Returned(if TokenRefused(control.value) then Unsupported else NotApplicable);
    }

    /** `_probe_query_credential`: each request to the URL as given and to the URL without its credential. */
    method ProbeQueryCredential(url: string, stripped: string) returns (call: Call<Outcome>)
      modifies this
      ensures Settles(old(log), log)
      ensures LeavesWhenLost(old(log), log, call.Returned?)
      ensures old(sent) <= sent && Begun(sent, |old(sent)|, Request(url, OtherMethod))
      // A verdict compares one request with and without the credential.
      ensures Judged(call) ==> Compared(sent, |old(sent)|, url, stripped)
    {
      hide Owed, Orderly, Step, Losses;
      for attempt := 0 to 2
        invariant Settles(old(log), log)
        invariant Losses(log) == old(Losses(log))
        invariant old(sent) <= sent && (attempt > 0 ==> Begun(sent, |old(sent)|, Request(url, OtherMethod)))
        invariant attempt == 0 ==> sent == old(sent)
      {
        var kind := if attempt == 0 then OtherMethod else Initialize;
        var first := PostRpc(url, kind, false, true);
        if first.Raised? {
          return Raised(first.failure);
        }
        EndSession(url, first.value.sessionId);
        var second := PostRpc(stripped, kind, false, true);
        if second.Raised? {
          return Raised(second.failure);
        }
        EndSession(stripped, second.value.sessionId);
        var given, without := first.value.status, second.value.status;
        var servedGiven := Success(given) && first.value.hasResult;
        var servedWithout := Success(without) && second.value.hasResult;
        if servedGiven && TokenRefused(second.value) {
          return Returned(Unsupported);
        }
        if kind == OtherMethod && servedGiven && servedWithout {
          return Returned(Supported);
        }
        var plain := 400 <= given < 500 && given !in {408, 429} && !TokenRefused(first.value);
        if !(plain && 400 <= without < 500 && without !in {408, 429}) {
          break;
        }
      }
      return Returned(NotApplicable);
    }

    // ---------- legacy sessions ----------

    /** `_open_legacy_session`: an open session is handed on only with a completed handshake request. */
    method OpenLegacySession(url: string) returns (call: Call<Opened>)
      modifies this
      ensures old(log) <= log && (old(Orderly(log)) ==> Orderly(log))
      ensures LeavesWhenLost(old(log), log, call.Returned?)
      ensures call.Raised? ==> Owed(log) <= old(Owed(log))
      ensures call.Returned? && call.value.session.None? ==> Owed(log) <= old(Owed(log))
      ensures call.Returned? && call.value.session.Some? ==>
        Owed(log) <= old(Owed(log)) + SessionOf(call.value.url, call.value.session.value.initialize.sessionId)
      // The URL handed on is the one that answered, where the session was issued.
      ensures call.Returned? ==> call.value.url == call.value.response.finalUrl
      ensures call.Returned? && call.value.session.Some? ==> call.value.session.value.initialize == call.value.response
      ensures call.Returned? && call.value.response.sessionId != "" ==>
        |log| > |old(log)| && log[|old(log)|] == Issued(Session(call.value.url, call.value.response.sessionId))
      ensures sent == old(sent) + [Request(url, Initialize)]
    {
      var sent := PostRpc(url, Initialize, true, true);
      if sent.Raised? {
        return Raised(sent.failure);
      }
      var response := sent.value;
      var target := if response.finalUrl != "" && response.finalUrl != url then response.finalUrl else url;
      if !Success(response.status) || response.negotiated.None? {
        // A session ID may have come with an answer the probe cannot use.
        EndSession(target, response.sessionId);
        return Returned(Opened(None, response, target));
      }
      var initialized := RequestStatus();
      if initialized.Raised? {
        EndSession(target, response.sessionId);
        return Raised(initialized.failure);
      }
      return Returned(Opened(Some(LegacySession(response, initialized.value)), response, target));
    }

    /** `_incomplete_handshake`: close the session of a handshake the server did not accept. */
    method IncompleteHandshake(session: LegacySession, url: string) returns (incomplete: bool)
      modifies this
      ensures Settles(old(log), log)
      ensures Losses(log) == old(Losses(log))
      ensures incomplete ==> Owed(log) == old(Owed(log)) - SessionOf(url, session.initialize.sessionId)
      ensures incomplete <==> !Success(session.initialized)
      ensures sent == old(sent)
    {
      if Success(session.initialized) {
        return false;
      }
      EndSession(url, session.initialize.sessionId);
      incomplete := true;
    }

    /** `_session_gone`: a ping inside the session. */
    method SessionGone(session: LegacySession, url: string) returns (call: Call<bool>)
      modifies this
      ensures Settles(old(log), log)
      ensures Losses(log) == old(Losses(log))
      ensures old(sent) <= sent
    {
      if session.initialize.sessionId == "" {
        return Returned(false);
      }
      var ping := PostRpc(url, OtherMethod, false, false);
      if ping.Raised? {
        return Raised(ping.failure);
      }
      return Returned(ping.value.status == 404);
    }

    /** `_probe_notification_accepted` */
    method ProbeNotificationAccepted(url: string) returns (call: Call<Outcome>)
      modifies this
      ensures Settles(old(log), log)
      ensures LeavesWhenLost(old(log), log, call.Returned?)
      ensures old(sent) <= sent && Begun(sent, |old(sent)|, Request(url, Initialize))
    {
      hide Owed, Orderly, Step, Losses;
      var begun := OpenLegacySession(url);
      if begun.Raised? {
        return Raised(begun.failure);
      }
      var status := 0;
      if begun.value.session.Some? {
        var session := begun.value.session.value;
        EndSession(begun.value.url, session.initialize.sessionId);
        status := session.initialized;
      } else if AuthGated(begun.value.response.status) || begun.value.response.unobservable.Some? {
        return Returned(NotApplicable);
      } else {
        var sent := RequestStatus();
        if sent.Raised? {
          return Raised(sent.failure);
        }
        status := sent.value;
        if AuthGated(status) {
          return Returned(NotApplicable);
        }
      }
      var bodyRead: bool, bodyEmpty: bool := *, *;
      if Redirected(status) || (status == 202 && !bodyRead) {
        return Returned(NotApplicable);
      }
      return Returned(if status == 202 then (if bodyEmpty then Supported else Unsupported)
                      else if status >= 400 then Supported else Unsupported);
    }

    /** The requests of `_probe_invalid_request` once a session is open or known not to be. */
    method JudgeInvalidRequest(session: Option<LegacySession>, url: string) returns (call: Call<Outcome>)
      modifies this
      ensures Settles(old(log), log)
      ensures Losses(log) == old(Losses(log))
      ensures old(sent) <= sent
      // A verdict rests on a valid request and the invalid one.
      ensures Judged(call) ==>
        |sent| >= |old(sent)| + 2 && sent[|old(sent)|] == sent[|old(sent)| + 1] == Request(url, OtherMethod)
    {
      hide Owed, Orderly, Step, Losses;
      var control := PostRpc(url, OtherMethod, false, false);
      if control.Raised? {
        return Raised(control.failure);
      }
      if AuthGated(control.value.status) || !control.value.hasResult {
        return Returned(NotApplicable);
      }
      var rejected := PostRpc(url, OtherMethod, false, false);
      if rejected.Raised? {
        if !rejected.failure.ReadTimeout? {
          return Raised(rejected.failure);
        }
        var again := PostRpc(url, OtherMethod, false, false);
        if again.Raised? {
          return Raised(again.failure);
        }
        if !again.value.hasResult {
          return Raised(rejected.failure);
        }
        return Returned(Unsupported);
      }
      if session.Some? && rejected.value.status == 404 {
        var gone := SessionGone(session.value, url);
        if gone.Raised? {
          return Raised(gone.failure);
        }
        if gone.value {
          return Returned(NotApplicable);
        }
      }
      var status := rejected.value.status;
      if AuthGated(status) || Redirected(status) {
        return Returned(NotApplicable);
      }
      if rejected.value.unobservable.Some? {
        return Returned(if status >= 500 then Unsupported else if status >= 400 then Supported else NotApplicable);
      }
      var hasError: bool := *;
      return Returned(if rejected.value.hasResult || status >= 500 then Unsupported
                      else if hasError || status >= 400 then Supported else Unsupported);
    }

    /** `_probe_invalid_request` */
    method ProbeInvalidRequest(url: string) returns (call: Call<Outcome>)
      modifies this
      ensures Settles(old(log), log)
      ensures LeavesWhenLost(old(log), log, call.Returned?)
      ensures old(sent) <= sent && Begun(sent, |old(sent)|, Request(url, Initialize))
      ensures Judged(call) ==> |sent| >= |old(sent)| + 3
    {
      hide Owed, Orderly, Step, Losses;
      var begun := OpenLegacySession(url);
      if begun.Raised? {
        return Raised(begun.failure);
      }
      var session, target, response := begun.value.session, begun.value.url, begun.value.response;
      if session.Some? {
        var incomplete := IncompleteHandshake(session.value, target);
        if incomplete {
          return Returned(NotApplicable);
        }
      } else if AuthGated(response.status) || response.unobservable.Some? {
        return Returned(NotApplicable);
      }
      call := JudgeInvalidRequest(session, target);
      // finally
      if session.Some? {
        EndSession(target, session.value.initialize.sessionId);
      }
    }

    /** `_probe_get_stream` */
    method ProbeGetStream(url: string) returns (call: Call<Outcome>)
      modifies this
      ensures Settles(old(log), log)
      ensures LeavesWhenLost(old(log), log, call.Returned?)
      ensures old(sent) <= sent && Begun(sent, |old(sent)|, Request(url, Initialize))
    {
      hide Owed, Orderly, Step, Losses;
      var begun := OpenLegacySession(url);
      if begun.Raised? {
        return Raised(begun.failure);
      }
      if begun.value.session.None? {
        return Returned(NotApplicable);
      }
      var session, target := begun.value.session.value, begun.value.url;
      var incomplete := IncompleteHandshake(session, target);
      if incomplete {
        return Returned(NotApplicable);
      }
      var got := RequestStatus();
      var gone: Call<bool> := Returned(false);
      if got.Returned? && got.value == 404 {
        gone := SessionGone(session, target);
      }
      // finally
      EndSession(target, session.initialize.sessionId);
      if got.Raised? {
        return Raised(got.failure);
      }
      if gone.Raised? {
        return Raised(gone.failure);
      }
      if gone.value || AuthGated(got.value) || Redirected(got.value) {
        return Returned(NotApplicable);
      }
      var eventStream: bool := *;
      return Returned(if got.value == 405 || (Success(got.value) && eventStream) then Supported else Unsupported);
    }

    /** `_observe_session_delete`: the judged DELETE; whatever it comes to, that DELETE was tried. */
    method ObserveSessionDelete(session: LegacySession, url: string) returns (call: Call<(Outcome, bool)>)
      requires session.initialize.sessionId != ""
      modifies this
      ensures Settles(old(log), log)
      ensures Losses(log) == old(Losses(log))
      ensures Owed(log) <= old(Owed(log)) - SessionOf(url, session.initialize.sessionId)
      ensures old(sent) <= sent
    {
      hide Owed, Orderly, Step, Losses;
      var deleted := DeleteStatus(url, session.initialize.sessionId);
      if deleted.Raised? {
        return Raised(deleted.failure);
      }
      var status := deleted.value;
      if AuthGated(status) || Redirected(status) {
        return Returned((NotApplicable, false));
      }
      if status == 405 {
        return Returned((Supported, true));
      }
      if status == 404 {
        var gone := SessionGone(session, url);
        if gone.Raised? {
          return Raised(gone.failure);
        }
        if gone.value {
          return Returned((NotApplicable, true));
        }
      }
      if !Success(status) {
        return Returned((Unsupported, false));
      }
      var after := PostRpc(url, OtherMethod, false, false);
      if after.Raised? {
        return Raised(after.failure);
      }
      var answer := after.value;
      var outcome := if AuthGated(answer.status) || Redirected(answer.status)
                        || (answer.unobservable.Some? && Success(answer.status)) || answer.hasResult then NotApplicable
                     else if answer.status == 404 then Supported else Unsupported;
      return Returned((outcome, answer.status == 404));
    }

    /** `_probe_session_delete` */
    method ProbeSessionDelete(url: string) returns (call: Call<Outcome>)
      modifies this
      ensures Settles(old(log), log)
      ensures LeavesWhenLost(old(log), log, call.Returned?)
      ensures old(sent) <= sent && Begun(sent, |old(sent)|, Request(url, Initialize))
    {
      hide Owed, Orderly, Step, Losses;
      var begun := OpenLegacySession(url);
      if begun.Raised? {
        return Raised(begun.failure);
      }
      if begun.value.session.None? {
        return Returned(NotApplicable);
      }
      var session, target := begun.value.session.value, begun.value.url;
      var incomplete := IncompleteHandshake(session, target);
      if incomplete {
        return Returned(NotApplicable);
      }
      if session.initialize.sessionId == "" {
        return Returned(NotApplicable);
      }
      var observed := ObserveSessionDelete(session, target);
      var closed := observed.Returned? && observed.value.1;
      // finally
      if !closed {
        EndSession(target, session.initialize.sessionId);
      }
      return if observed.Raised? then Raised(observed.failure) else Returned(observed.value.0);
    }

    // ---------- a whole probe ----------

    /** `run_one`: one probe, whose failure is data. */
    method RunOne(probe: Probe, url: string) returns (outcome: Outcome)
      modifies this
      ensures Settles(old(log), log)
      ensures probe.WellFormed() ==> LostForGood(log, |old(log)|)
      ensures !probe.LocalBind? && Losses(log) != old(Losses(log)) ==> outcome == Errored
      ensures old(sent) <= sent && Begun(sent, |old(sent)|, Request(url, probe.FirstVerb()))
      ensures outcome == Supported || outcome == Unsupported ==> Rests(probe, url, sent, |old(sent)|)
    {
      hide Owed, Orderly, Step, Losses;
      var call: Call<Outcome>;
      match probe {
        case OriginValidation => call := ProbeOriginValidation(url);
        case HostValidation => call := ProbeHostValidation(url);
        case LocalBind(addresses) => call := ProbeLocalBind(url, addresses);
        case InvalidToken => call := ProbeInvalidToken(url);
        case QueryCredential(stripped) => call := ProbeQueryCredential(url, stripped);
        case NotificationAccepted => call := ProbeNotificationAccepted(url);
        case InvalidRequest => call := ProbeInvalidRequest(url);
        case GetStream => call := ProbeGetStream(url);
        case SessionDelete => call := ProbeSessionDelete(url);
      }
      if !probe.LocalBind? {
        LeavingLosesForGood(old(log), log);
      }
      outcome := if call.Returned? then call.value else Errored;
    }
  }

  /** The probes that send `initialize`. */
  datatype Probe =
    | OriginValidation | HostValidation | LocalBind(addresses: seq<string>) | InvalidToken
    | QueryCredential(stripped: string) | NotificationAccepted | InvalidRequest | GetStream | SessionDelete
  {
    /** The addresses of a machine are distinct. */
    ghost predicate WellFormed() { LocalBind? ==> Distinct(addresses) }

    /** What a probe starts with: `server/discover`, `tools/list` or `initialize`. */
    ghost function FirstVerb(): Verb {
      if OriginValidation? || HostValidation? || LocalBind? || InvalidToken? || QueryCredential? then OtherMethod
      else Initialize
    }
  }

  /** The requests a verdict rests on. */
  ghost predicate Rests(probe: Probe, url: string, sent: seq<Request>, n: int) {
    match probe
    case OriginValidation | HostValidation => Repeated(sent, n, url)
    case QueryCredential(stripped) => Compared(sent, n, url, stripped)
    case InvalidRequest => |sent| >= n + 3
    case _ => |sent| >= n + 1
  }

  /**
   From an empty wire, any of the probes has tried every session it was issued exactly when every answer that issued
   one could be closed; a probe that lost one reports an error, unless it goes on to other addresses.
   */
  method RunProbe(probe: Probe, url: string)
    returns (outcome: Outcome, log: seq<Event>, ghost sent: seq<Request>)
    ensures Owed(log) == {} && Orderly(log)
    ensures forall i :: 0 <= i < |log| && log[i].Issued? ==>
              TriedAfter(log, i, log[i].session) || LostAfter(log, i, log[i].session)
    ensures probe.WellFormed() ==>
      ((forall i :: 0 <= i < |log| && log[i].Issued? ==> TriedAfter(log, i, log[i].session)) <==>
       (forall event <- log :: !event.CloseFailed?))
    ensures (exists event <- log :: event.CloseFailed?) ==> probe.LocalBind? || outcome == Errored
    // It did send its requests: the first one always, and before a verdict those that the verdict rests on.
    ensures Begun(sent, 0, Request(url, probe.FirstVerb()))
    ensures outcome == Supported || outcome == Unsupported ==> Rests(probe, url, sent, 0)
  {
    var wire := new Wire();
    assert Owed([]) == {} && Orderly([]) && Losses([]) == 0;
    outcome := wire.RunOne(probe, url);
    log, sent := wire.log, wire.sent;
    hide Owed, Orderly, Losses;
    assert Owed(log) == {};
    forall i | 0 <= i < |log| && log[i].Issued?
      ensures TriedAfter(log, i, log[i].session) || LostAfter(log, i, log[i].session)
    {
      EverySessionWasTriedOrLost(log, i);
    }
    if probe.WellFormed() {
      EverySessionWasTriedExactly(log);
    }
    assert log[..0] == [];
    LossesGrow(log, 0);
  }

  lemma LostIsNotTried(log: seq<Event>, id: string, url: string)
    requires log == [Issued(Session(url, id)), CloseFailed(Session(url, id))]
    ensures !TriedAfter(log, 0, Session(url, id))
  {
  }

  /** An answer that issues a session and then fails to close: nobody tries the session. */
  method ClosingCanLoseSession(url: string, id: string) returns (call: Call<Answer>, log: seq<Event>)
    requires id != ""
    ensures call.Raised? && log == [Issued(Session(url, id)), CloseFailed(Session(url, id))]
    ensures !TriedAfter(log, 0, Session(url, id))
  {
    var answer := Answer(200, id, url, None, true, false, true, None, false);
    var t := Transport(true, OtherFailure, answer, false, false, false, true, false, OtherFailure);
    assert IssuedBy(url, Initialize, false, t) == Some(Session(url, id));
    hide *;
    var wire := new Wire();
    call := wire.Exchange(url, Initialize, false, true, t);
    log := wire.log;
    LostIsNotTried(log, id, url);
  }
}
