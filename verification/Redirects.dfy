/** Following redirects only while they stay on the endpoint's origin. */
module Redirects {
  import opened Wrappers

  datatype Scheme = Http | Https | OtherScheme(name: string)

  datatype Verb = Get | Head | Post | Query | OtherVerb(name: string)

  /** A parsed URL; `port` is None for the scheme's default port, and empty `userinfo` is none. */
  datatype Url = Url(scheme: Scheme, userinfo: string, host: string, port: Option<nat>,
                     path: string, query: Option<string>, fragment: Option<string>)

  datatype Request = Request(verb: Verb, url: Url)

  /** A response, with the request the client built for its redirect, or the `Location` of a hand-built one. */
  datatype Response = Response(request: Request, status: nat, next: Option<Request>, location: Option<Url>)

  const REDIRECT_STATUSES: set<nat> := {301, 302, 303, 307, 308}

  datatype Refusal = Downgrade | OffOrigin | Credentials | MethodChange(from: Verb, to: Verb)

  // ---------- the policy ----------

  predicate WithinOrigin(sent: Url, location: Url) {
    || (sent.scheme == location.scheme && sent.host == location.host && sent.port == location.port)
    || (sent.host == location.host && sent.scheme == Http && sent.port == None
        && location.scheme == Https && location.port == None)
  }

  function RedirectedVerb(status: nat, verb: Verb): Verb {
    if status == 303 && verb != Head then Get
    else if status == 302 && verb != Head && verb != Query then Get
    else if status == 301 && verb == Post then Get
    else verb
  }

  function RedirectTarget(response: Response): Option<Url> {
    if response.status !in REDIRECT_STATUSES then None
    else if response.next.Some? then Some(response.next.value.url)
    else response.location
  }

  function RefusalOf(response: Response, target: Url): Option<Refusal> {
    var sent := response.request;
    if sent.url.scheme == Https && target.scheme == Http then Some(Downgrade)
    else if !WithinOrigin(sent.url, target) then Some(OffOrigin)
    else if target.userinfo != "" && target.userinfo != sent.url.userinfo then Some(Credentials)
    else
      var redirected := if response.next.Some? then response.next.value.verb
                        else RedirectedVerb(response.status, sent.verb);
      if redirected != sent.verb then Some(MethodChange(sent.verb, redirected)) else None
  }

  /** Whether the policy follows a response's redirect. */
  predicate Follows(response: Response) {
    RedirectTarget(response).Some? && RefusalOf(response, RedirectTarget(response).value).None?
  }

  datatype Why = Refused(refusal: Refusal) | TooManyRedirects

  datatype Report = Report(target: Url, why: Why)

  /** `unfollowed_redirect`, its target without the parts that may carry credentials. */
  function UnfollowedRedirect(response: Response): Option<Report> {
    var target := RedirectTarget(response);
    if target.None? then None
    else
      var refusal := RefusalOf(response, target.value);
      Some(Report(target.value.(userinfo := "", query := None, fragment := None),
                  if refusal.Some? then Refused(refusal.value) else TooManyRedirects))
  }

  // ---------- what is followed ----------

  /** Same scheme, host and port; or from http to https with both ports the default ones. */
  ghost predicate SamePlace(a: Url, b: Url) {
    && a.host == b.host
    && ((a.scheme == b.scheme && a.port == b.port)
        || (a.scheme == Http && b.scheme == Https && a.port == None && b.port == None))
  }

  /** Whether a client keeps the method when it follows a redirect of that status. */
  ghost predicate KeepsVerb(status: nat, verb: Verb) {
    match status
    case 301 => verb != Post
    case 302 => verb == Get || verb == Head || verb == Query
    case 303 => verb == Get || verb == Head
    case _ => true
  }

  /** What the response's redirect leads to, were it followed: the URL, and whether the method stays. */
  ghost predicate LeadsTo(response: Response, target: Url, keepsVerb: bool) {
    && (response.status == 301 || response.status == 302 || response.status == 303 || response.status == 307 ||
        response.status == 308)
    && if response.next.Some? then
         response.next.value.url == target && (keepsVerb <==> response.next.value.verb == response.request.verb)
       else
         response.location == Some(target) && (keepsVerb <==> KeepsVerb(response.status, response.request.verb))
  }

  /** The request just sent may follow to `target`: its own place, no new userinfo, the same method. */
  ghost predicate MayFollow(sent: Url, target: Url, keepsVerb: bool) {
    SamePlace(sent, target) && (target.userinfo == "" || target.userinfo == sent.userinfo) && keepsVerb
  }

  ghost predicate Allowed(response: Response, target: Url) {
    exists keepsVerb :: LeadsTo(response, target, keepsVerb) && MayFollow(response.request.url, target, keepsVerb)
  }

  /** A redirect is followed exactly when it leads somewhere the request may follow to. */
  lemma FollowsExactly(response: Response)
    ensures Follows(response) <==> exists target :: Allowed(response, target)
    ensures forall target :: Allowed(response, target) ==> RedirectTarget(response) == Some(target)
  {
    if Follows(response) {
      var target := RedirectTarget(response).value;
      var keepsVerb := if response.next.Some? then response.next.value.verb == response.request.verb
                       else KeepsVerb(response.status, response.request.verb);
      assert LeadsTo(response, target, keepsVerb);
      assert Allowed(response, target);
    }
  }

  /** The reasons in the order they are given: those that hold for any request come first. */
  lemma RefusalExactly(response: Response, target: Url, keepsVerb: bool)
    requires LeadsTo(response, target, keepsVerb)
    ensures RedirectTarget(response) == Some(target)
    ensures var sent, refusal := response.request.url, RefusalOf(response, target);
            && (refusal == Some(Downgrade) <==> sent.scheme == Https && target.scheme == Http)
            && (refusal == Some(OffOrigin) <==>
                !SamePlace(sent, target) && !(sent.scheme == Https && target.scheme == Http))
            && (refusal == Some(Credentials) <==>
                SamePlace(sent, target) && target.userinfo != "" && target.userinfo != sent.userinfo)
            && (refusal.Some? && refusal.value.MethodChange? <==>
                SamePlace(sent, target) && (target.userinfo == "" || target.userinfo == sent.userinfo) && !keepsVerb)
            && (refusal.Some? && refusal.value.MethodChange? ==>
                refusal.value.from == response.request.verb && refusal.value.to != refusal.value.from
                && refusal.value.to == if response.next.Some? then response.next.value.verb else Get)
  {
  }

  /** Without such a lead there is nothing to follow or to report. */
  lemma NoTargetExactly(response: Response)
    ensures RedirectTarget(response).None? <==> forall target, keepsVerb :: !LeadsTo(response, target, keepsVerb)
  {
    if RedirectTarget(response).Some? {
      var target := RedirectTarget(response).value;
      var keepsVerb := if response.next.Some? then response.next.value.verb == response.request.verb
                       else KeepsVerb(response.status, response.request.verb);
      assert LeadsTo(response, target, keepsVerb);
    }
  }

  // ---------- sending ----------

  /** What came back, beside the request it answers. */
  datatype Answer = Answer(status: nat, next: Option<Request>, location: Option<Url>)

  /** Any server at all: what it answers may depend on every request so far. */
  type Server = seq<Request> -> Answer

  function ResponseTo(server: Server, sent: seq<Request>): Response
    requires sent != []
  {
    var answer := server(sent);
    Response(sent[|sent| - 1], answer.status, answer.next, answer.location)
  }

  /** Each request after the first is the one the client built for a redirect the policy follows. */
  ghost predicate Chain(server: Server, sent: seq<Request>) {
    && sent != []
    && forall i :: 1 <= i < |sent| ==>
         Follows(ResponseTo(server, sent[..i])) && ResponseTo(server, sent[..i]).next == Some(sent[i])
  }

  lemma AllHopsAllowed(server: Server, sent: seq<Request>)
    requires Chain(server, sent)
    ensures forall i :: 1 <= i < |sent| ==> Allowed(ResponseTo(server, sent[..i]), sent[i].url)
  {
    forall i | 1 <= i < |sent| ensures Allowed(ResponseTo(server, sent[..i]), sent[i].url) {
      FollowsExactly(ResponseTo(server, sent[..i]));
    }
    hide Allowed;
  }

  /** `send_within_origin`; `sent` is every request that went out. */
  method SendWithinOrigin(server: Server, request: Request, maxRedirects: nat)
    returns (response: Response, sent: seq<Request>)
    ensures Chain(server, sent) && sent[0] == request
    ensures response == ResponseTo(server, sent)
    ensures |sent| <= maxRedirects + 1
    // It stops only at a response it may not follow, or with the budget spent.
    ensures Follows(response) && response.next.Some? ==> |sent| == maxRedirects + 1
    // So it follows exactly the redirects it may: each hop was one, and the last response is none within the budget.
    ensures forall i :: 1 <= i < |sent| ==> Allowed(ResponseTo(server, sent[..i]), sent[i].url)
    ensures |sent| <= maxRedirects && response.next.Some? ==> forall target :: !Allowed(response, target)
  {
    var followed := 0;
    var current := request;
    sent := [];
    while true
      invariant followed <= maxRedirects && |sent| == followed
      invariant sent == [] ==> current == request
      invariant sent != [] ==>
        && Chain(server, sent) && sent[0] == request
        && Follows(ResponseTo(server, sent)) && ResponseTo(server, sent).next == Some(current)
      decreases maxRedirects - followed
    {
      ghost var before := sent;
      sent := sent + [current];
      assert forall i :: 1 <= i <= |before| ==> sent[..i] == before[..i];
      assert before[..|before|] == before;
      var answer := server(sent);
      response := Response(current, answer.status, answer.next, answer.location);
      var target := RedirectTarget(response);
      var next := response.next;
      AllHopsAllowed(server, sent);
      FollowsExactly(response);
      if target.None? || next.None? || RefusalOf(response, target.value).Some? {
        return;
      }
      if followed == maxRedirects {
        return;
      }
      current := next.value;
      followed := followed + 1;
    }
  }

  // ---------- safety over whole chains ----------

  /** The origin itself, or its https upgrade on the default ports. */
  predicate SameOrUpgraded(first: Url, later: Url) {
    && later.host == first.host
    && ((later.scheme == first.scheme && later.port == first.port)
        || (first.scheme == Http && first.port == None && later.scheme == Https && later.port == None))
  }

  /** One followed hop: where it may go and what it keeps. */
  lemma FollowedHop(response: Response)
    requires Follows(response) && response.next.Some?
    ensures var sent, next := response.request, response.next.value;
            && WithinOrigin(sent.url, next.url)
            && next.verb == sent.verb
            && (next.url.userinfo == sent.url.userinfo || next.url.userinfo == "")
            && !(sent.url.scheme == Https && next.url.scheme == Http)
  {
  }

  /**
   Every request of a chain stays on the first one's host and port or its default-port https upgrade, keeps its
   method, and carries its userinfo or none.
   */
  lemma {:induction false} ChainStaysWithinOrigin(server: Server, sent: seq<Request>, k: nat)
    requires Chain(server, sent) && k < |sent|
    ensures SameOrUpgraded(sent[0].url, sent[k].url)
    ensures sent[k].verb == sent[0].verb
    ensures sent[k].url.userinfo == sent[0].url.userinfo || sent[k].url.userinfo == ""
  {
    if k > 0 {
      ChainStaysWithinOrigin(server, sent, k - 1);
      assert sent[..k][k - 1] == sent[k - 1];
      FollowedHop(ResponseTo(server, sent[..k]));
    }
  }

  /** Along a chain https never falls back to http, and dropped userinfo never comes back. */
  lemma {:induction false} ChainNeverFallsBack(server: Server, sent: seq<Request>, i: nat, j: nat)
    requires Chain(server, sent) && i <= j < |sent|
    ensures sent[i].url.scheme == Https ==> sent[j].url.scheme == Https && sent[j].url.port == sent[i].url.port
    ensures sent[i].url.userinfo == "" ==> sent[j].url.userinfo == ""
    decreases j - i
  {
    if i < j {
      ChainNeverFallsBack(server, sent, i, j - 1);
      assert sent[..j][j - 1] == sent[j - 1];
      FollowedHop(ResponseTo(server, sent[..j]));
    }
  }

  // ---------- the report on the final response ----------

  /** A client builds the request for every redirect it reports a target of. */
  predicate ClientBuilt(response: Response) {
    response.status in REDIRECT_STATUSES ==> response.next.Some? || response.location.None?
  }

  /** The report says "too many redirects" exactly when the policy would have followed the redirect. */
  lemma ReportSaysTooManyExactly(response: Response)
    ensures UnfollowedRedirect(response).None? <==> RedirectTarget(response).None?
    ensures Follows(response) <==>
            UnfollowedRedirect(response).Some? && UnfollowedRedirect(response).value.why == TooManyRedirects
    ensures UnfollowedRedirect(response).Some? ==>
            var target := UnfollowedRedirect(response).value.target;
            && target.userinfo == "" && target.query == None && target.fragment == None
            && var whole := RedirectTarget(response).value;
               target.scheme == whole.scheme && target.host == whole.host && target.port == whole.port &&
               target.path == whole.path
    ensures UnfollowedRedirect(response).Some? && !Follows(response) ==>
            RefusalOf(response, RedirectTarget(response).value) ==
            Some(UnfollowedRedirect(response).value.why.refusal)
  {
  }

  predicate SaysTooMany(report: Option<Report>) {
    report.Some? && report.value.why == TooManyRedirects
  }

  /**
   After a send, the report's "too many redirects" means a followable redirect that met a spent budget, exactly
   unless the last response is a followable one for which no request was built and budget is left.
   */
  method SendAndReport(server: Server, request: Request, maxRedirects: nat)
    returns (report: Option<Report>, sent: seq<Request>)
    ensures Chain(server, sent) && sent[0] == request && |sent| <= maxRedirects + 1
    ensures report == UnfollowedRedirect(ResponseTo(server, sent))
    ensures var response := ResponseTo(server, sent);
            (SaysTooMany(report) <==> Follows(response) && |sent| == maxRedirects + 1) <==>
            (!Follows(response) || response.next.Some? || |sent| == maxRedirects + 1)
    // A response the client built is never the exception.
    ensures ClientBuilt(ResponseTo(server, sent)) ==>
      (SaysTooMany(report) <==> Follows(ResponseTo(server, sent)) && |sent| == maxRedirects + 1)
  {
    var response;
    response, sent := SendWithinOrigin(server, request, maxRedirects);
    ReportSaysTooManyExactly(response);
    report := UnfollowedRedirect(response);
  }

  /**
   A send to a server whose hand-built 301 names a `Location` on its own origin but no built request: one request
   goes out, and whatever the budget, "too many redirects" is reported.
   */
  method HandBuiltReportsTooMany(maxRedirects: nat) returns (report: Option<Report>, sent: seq<Request>)
    ensures |sent| == 1 && SaysTooMany(report)
  {
    var url := Url(Https, "", "h", None, "/", None, None);
    var server: Server := (requests: seq<Request>) => Answer(301, None, Some(url));
    report, sent := SendAndReport(server, Request(Get, url), maxRedirects);
    assert Follows(ResponseTo(server, sent));
  }
}
