# mcpscore: a verified model

mcpscore audits servers that speak the Model Context Protocol.  This project models the parts of it that are
hardest to get right and proves what they promise, for every input, every server and every run:

- the streaming reader of Server-Sent Events (`SseLines`, `SseEvents`, `SseReader`);
- the probes that open sessions on the server and must try to close each of them (`Sessions`);
- the URI normal form, the skill URI no server can have listed, and the collection of skills under a deadline
  that may cancel any call (`UriText`, `UriNormalForm`, `UriExactness`, `UriDecoding`, `SkillUris`, `SkillsCollector`);
- the split of a Markdown document into blocks (`MarkdownBlocks`);
- the scoring engine with its skips, readiness promotion, switched-off and re-ranked rules and its gate (`Rules`,
  `Scoring`, `ScoringLaws`, `RunOutcome`);
- the same-origin redirect follower (`Redirects`) and the network-boundary monitor (`NetworkMonitor`);
- listing pages (`Pagination`), arguments that violate a schema (`SchemaViolation`, `ViolationFound`), masked dictionary
  keys (`KeyMasking`), shortened character references (`CharRefs`, `CharRefForms`) and package coordinates (`Packages`,
  `PackageSpellings`);
- the shared parts: numbered fresh names (`FreshNames`), Python's orders and sorting (`Ordering`), rearranged sequences
  (`Sequences`) and `Option` (`Wrappers`).

The server, the network and the other threads are arbitrary: a script of answers of any content, nondeterministic
steps, or a function from requests to responses.  Code that changes state is a method or a class, proved against a
function of its inputs; the laws of that function are the lemmas beside it.  `dafny verify dfyconfig.toml` checks the
whole project.

What the code does not keep is stated as well, each with an input that shows it and the exact condition under
which it does hold:

- normalizing a URI is not idempotent on every text: `%%34%31` becomes `%41` and then `A`
  (`UriExactness.IdempotenceCanFail`); it is exactly when no bare `%` is completed to an escape that would be rewritten
  (`UriExactness.IdempotentExactly`);
- a session that the final answer of an exchange issued can be lost: an error in closing that very answer leaves before
  the DELETE is tried (`Sessions.ClosingCanLoseSession`, exactly then: `Sessions.Wire.Exchange`); a probe tries every
  session it was issued exactly when every answer that issued one could be closed (`Sessions.RunProbe`);
- the unexpected property does not violate a schema whose patterns take its name
  (`SchemaViolation.PatternDefeatsUnexpected`, exactly when: `SchemaViolation.UnexpectedAcceptedExactly`);
- sample arguments need not satisfy the schema, although their documentation says so: a `default` is taken as it is
  (`SchemaViolation.DefaultCanDefeatSample`); they do exactly when every required name is declared by a schema object,
  the values that are taken as they are suit the schemas they are taken from, and so on down the nested objects
  (`SchemaViolation.SampleArgumentsExactly`);
- a package coordinate built by hand need not survive printing and reading: an npm version `1@2` does not
  (`Packages.HandBuiltCanBeLost`, exactly when: `Packages.PrintsBackExactly`).

A response that no client built is outside what a client can meet, since it builds the next request for every redirect
with a `Location`; a substitute client can hand one over, and then "too many redirects" is reported after a single
request (`Redirects.HandBuiltReportsTooMany`).  For the client's own responses the report is right about the budget
(`Redirects.SendAndReport`).

## Model

| member | source | states |
|---|---|---|
| SseLines.TakeAppend | mcpscore/probes.py:552-575 | Cutting lines from a buffer, then from its remainder with more bytes, gives the lines, remainder and carried flag of cutting everything at once |
| SseLines.TakeIsSplit | mcpscore/probes.py:552-575 | The lines and the remainder are exactly the pieces of the reference: CRLF and CR turned into LF, split on LF |
| SseLines.ReaderLinesAreBatchLines | mcpscore/skills.py:225-232 | The ended lines, then a non-empty last one, are the batch reference's lines |
| SseLines.TerminatedLinesGrow | mcpscore/probes.py:578-595 | Lines handed out never change when more bytes arrive, a BOM arriving in pieces included |
| SseLines.LineRules | mcpscore/probes.py:552-575 | Any line that a CR, an LF or both end is the next line, byte for byte, and anything else ends none |
| SseEvents.GroupsSnoc | mcpscore/probes.py:598-618 | One more line extends the open event or, when blank, ends it |
| SseEvents.AnswerSnoc | mcpscore/probes.py:598-618 | The reader's step agrees with finding the first answering event of all lines; an unterminated event is none |
| SseEvents.AnswerStays | mcpscore/probes.py:598-618 | An answer found stays the answer however the stream continues |
| SseReader.BoundedChunks.Next | mcpscore/probes.py:529-546 | Chunks pass through until the cap; the cap is signalled exactly when more bytes than it have arrived |
| SseReader.ReadBody | mcpscore/probes.py:529-546 | For every chunking, the whole body is delivered exactly when it fits the cap |
| SseReader.TakeLines | mcpscore/probes.py:552-575 | The loop that deletes from the byte buffer leaves and returns what the cutter function says |
| SseReader.BoundedLines.Next | mcpscore/probes.py:578-595 | The next line; no chunk is pulled while an ended line waits, and at the end the lines are the batch lines |
| SseReader.ReadLines | mcpscore/probes.py:578-595 | For every cut into chunks, the lines are those of the batch reference, and the cap is signalled exactly when the total exceeds it |
| SseReader.AnsweredForGood | mcpscore/probes.py:598-618 | An answer held by the first chunks is the answer of the whole capped body |
| SseReader.ReadSseResponse | mcpscore/probes.py:598-618 | For every chunking, the answer returned is the message of the first event, ended by a blank line within the cap, that carries a result or an error under the request's id, or an error under none; no chunk is awaited after the one that completes it |
| SseReader.VerdictExactly | mcpscore/probes.py:598-618 | The same for the specification: the verdict is a message exactly when it comes from that event |
| SseReader.OneSuccessMessage | mcpscore/probes.py:598-618 | A body with one success message answers the request with its id, and no other |
| Sessions.OwedMeans | mcpscore/probes.py:926-961 | A session is owed a DELETE exactly when it was issued and since then none was tried and its answer closed |
| Sessions.EverySessionWasTriedOrLost | mcpscore/probes.py:926-961 | Nothing owed means that every issued session got a later DELETE attempt at the URL that issued it, or its answer failed to close |
| Sessions.EverySessionWasTriedExactly | mcpscore/probes.py:808-838 | When nothing is owed and nothing lost is tried again, every issued session was tried exactly when every answer that issued one could be closed |
| Sessions.Wire.Exchange | mcpscore/probes.py:732-838 | A session is issued at the URL that answered, the same that is returned; it is handed on with the answer, tried, or lost, and lost exactly when closing the answer fails the first time |
| Sessions.Wire.PostRpc | mcpscore/probes.py:732-838 | Against any transport: when it raises, it leaves no session owed; when it returns, at most the one its final answer carries, at the URL that answered |
| Sessions.ClosingCanLoseSession | mcpscore/probes.py:809-838 | An answer that issues a session and fails to close: the call raises and nobody tries the session |
| Sessions.InterleavedOweNoMore | mcpscore/probes.py:3597-3598 | However the events of any number of concurrent probes interleave, a session is owed only if one of them owes it |
| Sessions.TogetherEverySessionWasTriedOrLost | mcpscore/probes.py:3597-3598 | So probes that each owe nothing leave every session tried or lost together |
| Sessions.RunProbe | mcpscore/probes.py:3543-3552 | From an empty wire, any probe that sends initialize ends, returning or raising, with every issued session tried later or lost in closing its answer; all were tried exactly when no answer failed to close, and a loss is reported as an error unless other addresses follow; a verdict comes only after the requests it rests on |
| Sessions.Wire.EndSession | mcpscore/probes.py:926-961 | The attempt is made whatever becomes of it, and closes exactly that session |
| Sessions.Wire.AcceptedControl | mcpscore/probes.py:2401-2486 | The discover-then-initialize control owes no session a DELETE on any path |
| Sessions.Wire.ProbeOriginValidation | mcpscore/probes.py:2489-2520 | Owes no session a DELETE, returning or raising; a verdict comes only after an accepted control and the same request again |
| Sessions.Wire.ProbeHostValidation | mcpscore/probes.py:2523-2574 | Owes no session a DELETE, returning or raising; a verdict comes only after an accepted control and the same request again |
| Sessions.Wire.ReplayControl | mcpscore/probes.py:2647-2682 | A replayed control owes no session a DELETE, transport errors included |
| Sessions.Wire.ProbeLocalBind | mcpscore/probes.py:2743-2838 | Owes no session a DELETE over any list of addresses, and over distinct ones never tries a session lost at another |
| Sessions.Wire.ProbeInvalidToken | mcpscore/probes.py:1767-1815 | Owes no session a DELETE although a fabricated token may be served |
| Sessions.Wire.JudgeServedInitialize | mcpscore/probes.py:1818-1832 | The repeated initialize is closed too |
| Sessions.Wire.ProbeQueryCredential | mcpscore/probes.py:1835-1893 | Both the request with the credential and the one without are closed, and a verdict compares the two |
| Sessions.Wire.OpenLegacySession | mcpscore/probes.py:2978-3011 | Hands on at most its own session, with the URL that answered and issued it; when the handshake notification raises, the session was tried first |
| Sessions.Wire.IncompleteHandshake | mcpscore/probes.py:3019-3030 | A handshake the server did not accept closes its session, an accepted one stays open |
| Sessions.Wire.ProbeNotificationAccepted | mcpscore/probes.py:3059-3102 | Owes no session a DELETE |
| Sessions.Wire.ProbeInvalidRequest | mcpscore/probes.py:3141-3197 | Owes no session a DELETE |
| Sessions.Wire.ProbeGetStream | mcpscore/probes.py:3200-3235 | Owes no session a DELETE |
| Sessions.Wire.ObserveSessionDelete | mcpscore/probes.py:3279-3306 | The judged DELETE was tried on every path |
| Sessions.Wire.ProbeSessionDelete | mcpscore/probes.py:3238-3266 | Owes no session a DELETE, whether or not the judged DELETE answered |
| UriNormalForm.NormalizeSpellsMeaning | mcpscore/skills.py:508-529 | Normalizing spells what the URI means: its literal and escaped octets, scheme folded |
| UriNormalForm.NormalizeIdempotent | mcpscore/skills.py:519-529 | Idempotent on every URI whose `%` signs start escapes |
| UriNormalForm.NormalFormIsCanonical | mcpscore/skills.py:519-529 | Two such URIs share their normal form exactly when they share their meaning |
| UriExactness.NormalFormIsRespelling | mcpscore/skills.py:508-529 | They do exactly when respellings lead from one to the other: scheme case, escape case, escaping of unreserved or non-URI characters (sections 6.2.2.1 and 6.2.2.2 of RFC 3986) |
| UriDecoding.CharacterClasses | mcpscore/skills.py:508-529 | Which ASCII characters are unreserved, legal in a URI, or part of a scheme, character by character |
| UriDecoding.Utf8Decodes | mcpscore/skills.py:527 | The octets of every character decode back to it, whatever follows |
| UriDecoding.Utf8IsTheOnlySpelling | mcpscore/skills.py:527 | No other octets decode to it as one character |
| UriDecoding.EqualFormsSayTheSame | mcpscore/skills.py:508-529 | URIs with one normal form decode to the same text, up to the case of the scheme |
| UriDecoding.DistinctCharactersStayApart | mcpscore/skills.py:508-529 | URIs that differ in one character have different normal forms, unless it is a letter before the first colon |
| UriDecoding.EscapedCharacterIsTheCharacter | mcpscore/skills.py:508-529 | A character outside ASCII and its escaped octets share their normal form |
| UriDecoding.SchemeCaseIsFolded | mcpscore/skills.py:508-518 | Schemes that differ in case alone share their normal form |
| UriExactness.ReservedStaysEscaped | mcpscore/skills.py:508-529 | An escaped reserved character, `%2F` say, never merges with the plain one |
| UriExactness.IdempotentExactly | mcpscore/skills.py:519-529 | On any text at all, idempotent exactly when no bare `%` is completed to an escape that would be rewritten |
| UriExactness.IdempotenceCanFail | mcpscore/skills.py:519-529 | A text that normalizes differently twice |
| SkillUris.CollectSkillUris | mcpscore/skills.py:762-768 | The loop returns the first 32 distinct normal forms of the listing, in order of appearance, each as it was first spelled |
| SkillUris.FirstSkillsListed | mcpscore/skills.py:762-768 | The same for the specification: the k-th URI is spelled by the entry that is first of its form with k forms before it, as many as there are forms, at most 32 |
| SkillUris.FirstSkillsAreUnique | mcpscore/skills.py:762-768 | Only one sequence of URIs is that |
| SkillUris.DistinctUrisFacts | mcpscore/skills.py:762-768 | No two kept URIs share a normal form, no listed form is missed, nothing is invented |
| SkillUris.UnusedName | mcpscore/skills.py:771-777 | The first name not taken, found within one more try than names are taken |
| SkillUris.NormalizeAfterSlash | mcpscore/skills.py:519-529 | Normalization distributes over what follows a `/` |
| SkillUris.UnknownSkillUri | mcpscore/skills.py:780-793 | The URI asked for differs in normal form from every listed one, and has the first name of its series that no listed URI has under the prefix |
| SkillUris.BesideTheFirstSkill | mcpscore/skills.py:780-793 | It is put beside the first listed skill that has a root, in the directory that holds the root, or behind `skill://` if there is none |
| SkillUris.BesideNoSkill | mcpscore/skills.py:780-793 | Without such a skill it is put behind `skill://` |
| SkillUris.RootExactly | mcpscore/skills.py:166-172 | The root of a skill is what its SKILL.md, in any spelling, stands right under |
| SkillUris.UnknownUriIsUnlisted | mcpscore/skills.py:780-793 | The same for the specification, for every listing |
| SkillsCollector.List | mcpscore/skills.py:721-759 | For every server and every cancelled await the evidence says which pages arrived and whether that was everything |
| SkillsCollector.ListingFacts | mcpscore/skills.py:721-759 | At most 20 pages; every page but the last named a cursor, none twice; the end was reached exactly when the last page had none |
| SkillsCollector.ListingStops | mcpscore/skills.py:721-759 | Every page with a new cursor is followed by one more call, up to 20; the reason recorded is what the last page or the last call was |
| SkillsCollector.EntriesInPageOrder | mcpscore/skills.py:741-747 | The entries of pages read one after the other are those of each, in order |
| SkillsCollector.Get | mcpscore/skills.py:804-816 | The calls are for the first 32 distinct URIs; finished in any order, cancelled anywhere, each answered URI is recorded once, in listing order when not cancelled, and then one call goes to an unlisted URI |
| SkillsCollector.AnswersSortBack | mcpscore/skills.py:804-816 | Sorting by listing position restores listing order from any completion order |
| SkillsCollector.AnsweredOrTimedOut | mcpscore/skills.py:944-972 | Answers and the timeouts recorded for the rest give every listed URI exactly one call |
| SkillsCollector.CollectSkills | mcpscore/skills.py:944-972 | The evidence after any cancellation: entries are the received pages, an unmarked listing was read to its end, each of the first 32 distinct listed URIs has one call with the server's answer or a timeout, all answered and in order when the deadline did not strike |
| MarkdownBlocks.MarkdownBlocks | mcpscore/skills.py:421-472 | The two passes return exactly the blocks of the specified line ranges, sorted by line |
| MarkdownBlocks.EveryLineInOneBlock | mcpscore/skills.py:421-472 | For any token ranges, each non-blank line is in exactly one block, a blank one in at most one and only inside a kept token |
| MarkdownBlocks.SpansAreDisjointAndOrdered | mcpscore/skills.py:421-472 | No two blocks share a source line, and they come in line order |
| MarkdownBlocks.BlockIsItsLines | mcpscore/skills.py:351-358 | A block's text splits back into its source lines exactly as written, from the line it names, cut off at the end of the document |
| MarkdownBlocks.DroppedTokensOverlap | mcpscore/skills.py:439-443 | A token is dropped only because an earlier kept one has one of its lines |
| MarkdownBlocks.KeptExactly | mcpscore/skills.py:436-443 | The blocks of tokens are the greedy choice among fences, code, inline and HTML tokens, in token order |
| MarkdownBlocks.SpansExactly | mcpscore/skills.py:421-472 | The spans are those of the kept tokens and the longest runs of other lines with more than spaces and tabs, each once |
| MarkdownBlocks.OneHolderExactly | mcpscore/skills.py:421-472 | The partition with blank spelled out: one span for a line with any other character or under a kept token, none for the rest |
| Rules.AppliesToInterval | mcpscore/rules/base.py:369-391 | What applies to two versions applies to every version between them |
| Rules.OrderIgnoresRegistration | mcpscore/rules/base.py:429-453 | With distinct identities the execution order is independent of registration order |
| Scoring.MCPAuditor.Consider | mcpscore/mcp_auditor.py:593-677 | One rule changes the run as specified, with its skip reason or its result |
| Scoring.MCPAuditor.RunAllRules | mcpscore/mcp_auditor.py:593-677 | From a reset state, the fields end as the run specified for the registered rules |
| Scoring.MCPAuditor.ConfigGateFailures | mcpscore/mcp_auditor.py:726-739 | The counted failures at or above the threshold, none without one |
| RunOutcome.SkipReasonExactly | mcpscore/mcp_auditor.py:526-575 | Which reason a rule is skipped for, if any: version range, missing evidence, its own reason, the configuration, in this order |
| RunOutcome.ApplicabilityVersionIs | mcpscore/mcp_auditor.py:561-575 | The version judged: the latest for modern evidence, else that of the first recovered field, else the negotiated one |
| RunOutcome.ResultExactly | mcpscore/mcp_auditor.py:640-724 | A result is the check's verdict with the rule's identity, its citation unless it has one, and the configured severity |
| RunOutcome.ListsExactly | mcpscore/mcp_auditor.py:593-677 | Each rule considered is in exactly the list it belongs to, in the order considered |
| RunOutcome.ConsideredExactly | mcpscore/rules/base.py:429-453 | Rules are considered by group order, group, rule order and id, and only those of the target's kind |
| RunOutcome.PointsExactly | mcpscore/rules/base.py:41-47 | Points are 5, 3, 2 and 1 for each critical, high, medium and low result |
| RunOutcome.TotalsExactly | mcpscore/mcp_auditor.py:613-677 | Readiness points count in the main score exactly on a full audit of a server with the modern lifecycle |
| RunOutcome.GatePicked | mcpscore/mcp_auditor.py:726-739 | The gate lists the failures of the threshold's severity or a higher one, in order |
| RunOutcome.DefaultsExactly | mcpscore/mcp_auditor.py:706-724 | The defaults kept are the own severities of exactly the re-ranked rules |
| ScoringLaws.ExactlyOneList | mcpscore/mcp_auditor.py:577-677 | Every rule for the target ends in exactly one of the three lists, once, and no other rule in any |
| ScoringLaws.ScoresAreWeights | mcpscore/mcp_auditor.py:640-677 | Scores are the weights of passed and of all counted results, at most the maximum, equal exactly when all passed |
| ScoringLaws.RunIgnoresRegistration | mcpscore/mcp_auditor.py:593-677 | The whole outcome is the same for every permutation of the rules |
| ScoringLaws.ConfigurationIsAChangeOfWeight | mcpscore/mcp_auditor.py:679-724 | Against the unconfigured run: same verdicts, and the four totals differ by exactly the off and re-rank deltas |
| ScoringLaws.ConfigurationKeepsCanonicalSkips | mcpscore/mcp_auditor.py:593-684 | Every canonical skip keeps reason and place; all others are the configuration's own |
| ScoringLaws.GateIsExact | mcpscore/mcp_auditor.py:726-739 | The gate lists exactly the counted failures still on whose configured weight reaches the threshold |
| Redirects.SendWithinOrigin | mcpscore/redirects.py:182-206 | The requests sent form a chain of allowed hops, at most one more than the budget; within the budget the last response is no redirect it may follow |
| Redirects.FollowsExactly | mcpscore/redirects.py:64-145 | A redirect is followed exactly when its status is one of five and its target has the same host, with the same scheme and port or from default-port http to https, no new userinfo and the same method |
| Redirects.RefusalExactly | mcpscore/redirects.py:113-145 | Which reason is given for a redirect not followed |
| Redirects.ChainStaysWithinOrigin | mcpscore/redirects.py:64-80 | Every request of a chain goes to the first one's host and port or its default-port https upgrade, same method, same userinfo or none |
| Redirects.ChainNeverFallsBack | mcpscore/redirects.py:113-145 | Along a chain https never becomes http again and dropped userinfo never returns |
| Redirects.SendAndReport | mcpscore/redirects.py:161-206 | For the client's own responses, "too many redirects" is reported exactly when a followable redirect met a spent budget; otherwise exactly unless a followable redirect without a built request met budget left |
| Redirects.HandBuiltReportsTooMany | mcpscore/redirects.py:83-100 | A send whose only request meets a hand-built 301 is reported so whatever the budget |
| NetworkMonitor.ExactlyOneWindow | mcpscore/smoke_network.py:377-391 | Each connection between the first mark and the last read falls in exactly one window |
| NetworkMonitor.SomeWindowReached | mcpscore/smoke_network.py:377-391 | Some window saw a denied connection exactly when the denied logs grew over the whole run |
| NetworkMonitor.NetworkFixture.ReachedSince | mcpscore/smoke_network.py:377-391 | With any accepts and rewrites in between, as many entries are reported as the counted listeners accepted connections in the window |
| NetworkMonitor.FailsExactlyWhenReached | mcpscore/smoke_network.py:436-541 | A failure is in the results exactly when some denied connection was accepted |
| NetworkMonitor.LateRequests | mcpscore/smoke_network.py:522-541 | The last read fails once exactly when its window was reached |
| NetworkMonitor.Control | mcpscore/smoke_network.py:422-433 | The control is usable exactly when it was answered and the allowed origin logged the control path meanwhile |
| NetworkMonitor.AskVector | mcpscore/smoke_network.py:491-518 | One call, judged by the window it ends: Fail if reached, else Pass if answered with a tool result under an allowlist, else Skip |
| NetworkMonitor.RunNetworkChecks | mcpscore/smoke_network.py:436-519 | The vectors asked for are the runnable ones, in order, if private addresses are denied or the control was usable, and none otherwise, each judged by its own window; the windows leave no gap, each connection in between falls in exactly one of them, and a failure is among the results exactly when a denied listener was reached |
| Pagination.Client.ListAllPages | mcpscore/mcp_client.py:1491-1570 | None exactly when the first page failed, incomplete exactly when no cursor-free page came, the error's index is the number of pages, other listings untouched |
| Pagination.NoCursorSentTwice | mcpscore/mcp_client.py:1491-1570 | At most the page bound of requests, no cursor twice |
| Pagination.WalkItems | mcpscore/mcp_client.py:1491-1570 | What is collected is the concatenation of the pages received |
| Pagination.RaisedWithinScript | mcpscore/mcp_client.py:1491-1570 | A recorded failure is the one the server raised after that many pages, and the end is a page without a cursor |
| Pagination.WalkExactly | mcpscore/mcp_client.py:1491-1570 | Pages are fetched as long as each names a cursor that is new, at most 100, every request with the cursor of the page before, and the stop is what ended that |
| SchemaViolation.JsonEqualIsPythonEqual | mcpscore/smoke.py:303-320 | A value Python finds nowhere in an enum is outside it in JSON's sense too |
| SchemaViolation.SynthesizeInvalidArguments | mcpscore/smoke.py:348-374 | The four searching loops and their order compute the specified violation |
| SchemaViolation.InvalidArgumentsAreRejected | mcpscore/smoke.py:290-374 | Whatever the schema's other keywords say, it rejects the arguments, unless a pattern takes the unexpected name |
| SchemaViolation.UnexpectedAcceptedExactly | mcpscore/smoke.py:336-345 | Exactly when the arguments that consist of the unexpected property alone are accepted after all |
| SchemaViolation.PatternDefeatsUnexpected | mcpscore/smoke.py:336-345 | A schema that accepts the arguments meant to violate it |
| ViolationFound.NoneExactlyWhenNothingToViolate | mcpscore/smoke.py:290-374 | None exactly when no property has one of the seven types alone or excludes one of the five candidates, no name is required, and the object is not closed |
| ViolationFound.ViolationExactly | mcpscore/smoke.py:290-374 | Which violation is found: a wrong type before an enum or const, either before a required name, the closed object last, and within each kind the first |
| ViolationFound.PythonEqualExactly | mcpscore/smoke.py:303-320 | Python finds two values equal exactly when they are equal JSON once booleans are numbers |
| SchemaViolation.OneNameDiffers | mcpscore/smoke.py:290-374 | The arguments are the sample arguments in every name but one |
| SchemaViolation.InvalidArgumentsAreDistinct | mcpscore/smoke.py:240-374 | What is sent is a dictionary, no name twice |
| SchemaViolation.ObjectSampleExactly | mcpscore/smoke.py:240-254 | The sampled object is accepted exactly when every required name is declared by a schema object, each such sample is accepted, by patterns too, and the keywords about the whole object allow it |
| SchemaViolation.SampleExactly | mcpscore/smoke.py:206-254 | Down all nested objects, a sample is accepted exactly when the values taken as they are suit their schemas |
| SchemaViolation.SampleArgumentsExactly | mcpscore/smoke.py:257-266 | The sample arguments are valid exactly when the input schema is such a one |
| SchemaViolation.PlainTypeFits | mcpscore/smoke.py:231-237 | The zero value of a plain type always has that type |
| SchemaViolation.EnumEntryFits | mcpscore/smoke.py:223-225 | A first enum entry that is no object is accepted exactly when its type is |
| SchemaViolation.DefaultCanDefeatSample | mcpscore/smoke.py:217-218 | A schema whose sample arguments it rejects |
| SchemaViolation.UnexpectedPropertyViolation | mcpscore/smoke.py:336-345 | The suffix search ends, at the first name the schema does not declare |
| SchemaViolation.DeriveUnknownToolName | mcpscore/smoke.py:556-571 | A name absent from the catalog, the first of its series, within one more try than there are tools |
| KeyMasking.MaskNames | mcpscore/report_evidence.py:53-71 | The nested loops give the specified name to every key |
| KeyMasking.AliasesAreGood | mcpscore/report_evidence.py:53-71 | Names are one-to-one, and a key that needs no masking keeps its own |
| KeyMasking.AliasesShowMaskedTextOnly | mcpscore/report_evidence.py:53-71 | A name is the masked text or a numbered form of it |
| KeyMasking.AliasesInTurn | mcpscore/report_evidence.py:53-71 | In text order each masked key gets its masked text unless that is taken, then the first numbered form that is neither taken nor any key's masked text |
| KeyMasking.AliasesIgnoreOrder | mcpscore/report_evidence.py:53-71 | Insertion order does not matter |
| KeyMasking.MaskedDictionaryKeepsEntries | mcpscore/report_evidence.py:53-71 | The dictionary keeps its number of entries, each value under its key's name |
| CharRefs.ShorteningKeepsMeaning | mcpscore/html_text.py:6-26 | Unlimited decoding of the original equals decoding of the shortened text, named references and their longest-prefix rule included (section 13.2.5.80 of the WHATWG HTML standard) |
| CharRefs.ShorteningIsDone | mcpscore/html_text.py:6-21 | Shortening is idempotent and leaves no numeric reference of more than six hex or seven decimal digits |
| CharRefs.LongRefIsReplacement | mcpscore/html_text.py:10-16 | A longer reference lies past U+10FFFF whatever its digits |
| CharRefForms.RefAtExactly | mcpscore/html_text.py:7 | What a numeric reference is, character by character |
| CharRefForms.ReferenceShortened | mcpscore/html_text.py:10-21 | A reference with more than six hexadecimal or seven decimal digits behind its zeros becomes U+FFFD; any other loses its zeros alone |
| CharRefForms.NoReferenceKept | mcpscore/html_text.py:19-21 | Every character that starts no reference stays |
| CharRefForms.ReferenceDecodes | mcpscore/html_text.py:24-26 | The reference to a code point, decimal or hexadecimal in either case, decodes to it |
| Packages.RoundTrip | mcpscore/packages.py:106-190 | Reading, printing and reading gives what reading gave, for both registries |
| Packages.ParsedIsReadable | mcpscore/packages.py:128-182 | A read coordinate has a usable name and, if pinned, a version that is not blank |
| Packages.DisplayParses | mcpscore/packages.py:185-190 | Every such coordinate prints to a text that reads back as itself |
| Packages.HandBuiltCanBeLost | mcpscore/packages.py:106-125 | A coordinate built by hand that is not read back |
| Packages.PrintsBackExactly | mcpscore/packages.py:106-190 | A coordinate built by hand survives exactly when its name is usable and an npm version has no `@` |
| PackageSpellings.PinnedIsRead | mcpscore/packages.py:128-182 | Any spacing and any letter case of the registry around a usable name and a version is read as that name and version |
| PackageSpellings.UnpinnedIsRead | mcpscore/packages.py:128-182 | The same without a version |
| PackageSpellings.NpmNamesExactly | mcpscore/packages.py:82 | An npm name is plain, or a plain scope and a plain name |
| PackageSpellings.MissingPrefixExactly | mcpscore/packages.py:147-150 | A text names no registry exactly when it has no colon |
| FreshNames.FirstFree | mcpscore/report_evidence.py:64-71 | Among one more distinct name than are taken there is a free one, and the search stops at the first |
| FreshNames.NumberedInjective | mcpscore/smoke.py:566-571 | Distinct numbers give distinct names |
| Ordering.SortIgnoresOrder | mcpscore/rules/base.py:429-453 | Sorting distinguishable elements forgets the order they came in |
| Ordering.TextLessExactly | mcpscore/rules/base.py:429-453 | Text order is decided at the first difference, where one text ends or has the smaller character |

## Left out

- UTF-8 decoding, JSON parsing and `str.strip` of an SSE field are parameters of the reader; only that decoding turns
  no bytes, and nothing but no bytes, into no text is required.
- The JSON parser is total here: text that is no JSON is one more message that answers nothing, and an error other than
  that, such as the recursion limit on deep nesting, is not modelled.
- HTTP, TLS, stdio, OAuth and DNS: requests are answered by an arbitrary server, and headers, credentials and bodies
  are not modelled.
- What the probes conclude from a status code, and the messages, hints and logs everywhere.
- Cancelling a coroutine in the middle of a session probe: `post_rpc` catches `Exception` only, so the claim does not cover it.
- Sessions.Wire.Exchange: only the final answer of an exchange issues a session; one on an intermediate redirect answer,
  which is closed and left behind, is not modelled.
- Sessions.Wire.EndSession: a DELETE whose request cannot even be built counts as an attempt.
- Sessions.Wire.PostRpc: of a probe's requests the contracts state the first and those a verdict rests on, by URL and kind.
- Wall-clock time: every deadline is an arbitrary cancelled await.
- The files and directories a skills collection reads after its calls, and the parsing of their contents.
- The limit on concurrent reads only rules out some completion orders; all are allowed here.
- Rules are their version range, group and severity with an arbitrary check and skip reason; the individual rule
  bodies, reports, SARIF output and suggested fixes are not modelled.
- Scoring.MCPAuditor.RunAllRules: starts from a reset state as `_reset_run_state` leaves it; it does not clear the defaults of
  re-ranked rules, so those are described relative to what was there before.
- Markdown tokens, their rendered text and their prose: a block here is its line, its source text and where it came
  from.  Token line ranges are arbitrary.
- Masking of one text is an arbitrary function; dictionary keys that are not text and the recursion over values are
  not modelled.
- SchemaViolation.InvalidArgumentsAreRejected: draft dialects in which `$ref` silences the keywords beside it are not modelled.
- What `anyOf`, `oneOf`, `items`, `$ref` and every other keyword not spelled out demand of a value is an arbitrary
  predicate of schema and value.
- Numbers in JSON are reals: infinities and NaN do not occur.
- Texts are sequences of Unicode scalar values; a lone surrogate inside a Python string is not represented, except in
  URIs, whose characters are integers.
- CharRefs.ShorteningKeepsMeaning: the decoder's tables are arbitrary, with no one-letter name and no name that contains U+FFFD.
- The lock and socket of a listener: each accept, rewrite and read is one atomic step.  How the path of a request target
  is split off, and the URL and message of a result, are not modelled.
- SkillsCollector.CollectSkills: the budget of the file reads, which marks the evidence too, belongs to those reads.
- The registry metadata fetch, the npm launcher, the documentation site, the command line.
