/**
 Collecting a server's skills under a deadline that may cancel any call in flight.

 The server is an arbitrary script of answers, and each await either returns one or is cancelled.  Whatever
 happens, the evidence left behind is consistent: it says what was received and whether that was everything.
 */
module SkillsCollector {
  import opened Ordering
  import opened Sequences
  import opened SkillUris
  import opened UriText
  import opened Wrappers

  const MAX_LIST_PAGES: nat := 20

  datatype Await<+T> = Answered(value: T) | Cancelled

  datatype Failure = Timeout | Refused(code: int)

  /** `nextCursor` of a page: absent or null, text, or something else. */
  datatype Cursor = NoCursor | Next(text: string) | NotText

  /** One page; `complete` is whether its `resultType` says so. */
  datatype Page = Page(skills: seq<Entry>, next: Cursor, complete: bool)

  datatype ListAnswer = Failed(failure: Failure) | NotAListing | Listed(page: Page)

  /** What the server would answer to the first, second, ... call, for as many calls as are ever made. */
  type Script = seq<Await<ListAnswer>>

  predicate Long(script: Script) {
    |script| == MAX_LIST_PAGES
  }

  // ---------- the listing, as a function of the server's script ----------

  datatype Stop =
    | NoMorePages | BadCursor | PageLimit | ListingFailed(failure: Failure) | ListingMalformed | ListingCancelled

  datatype Listing = Listing(pages: seq<Page>, stop: Stop)

  function Prepend(pages: seq<Page>, rest: Listing): Listing {
    rest.(pages := pages + rest.pages)
  }

  function ListingFrom(script: Script, page: nat, seen: set<string>): Listing
    requires Long(script) && page <= MAX_LIST_PAGES
    decreases MAX_LIST_PAGES - page
  {
    if page == MAX_LIST_PAGES then Listing([], PageLimit)
    else match script[page]
      case Cancelled => Listing([], ListingCancelled)
      case Answered(Failed(failure)) => Listing([], ListingFailed(failure))
      case Answered(NotAListing) => Listing([], ListingMalformed)
      case Answered(Listed(p)) =>
        match p.next
        case NoCursor => Listing([p], NoMorePages)
        case NotText => Listing([p], BadCursor)
        case Next(cursor) =>
          if cursor in seen then Listing([p], BadCursor)
          else Prepend([p], ListingFrom(script, page + 1, seen + {cursor}))
  }

  function ListingOf(script: Script): Listing
    requires Long(script)
  {
    ListingFrom(script, 0, {})
  }

  function AllEntries(pages: seq<Page>): seq<Entry> {
    if pages == [] then [] else AllEntries(pages[..|pages| - 1]) + pages[|pages| - 1].skills
  }

  predicate EveryPageComplete(pages: seq<Page>) {
    forall p <- pages :: p.complete
  }

  /** The server was read to the end: its last page had no cursor, and when stateless every page was complete. */
  predicate ReadToTheEnd(listing: Listing, stateless: bool) {
    listing.stop == NoMorePages && (stateless ==> EveryPageComplete(listing.pages))
  }

  // ---------- the evidence ----------

  datatype GetOutcome = Skill(text: string) | NoSkill | GetFailed(failure: Failure)

  datatype SkillGet<+U> = SkillGet(uri: U, outcome: GetOutcome)

  /** Where the caching attributes of the first stateless page come from. */
  datatype Hints = NoHints | HintsOf(answer: ListAnswer)

  class SkillsEvidence {
    const stateless: bool
    var entries: Option<seq<Entry>>
    var listError: Option<Failure>
    var listMalformed: bool
    var listIncomplete: bool
    var statelessList: Hints
    var gets: seq<SkillGet<Text>>
    var unknownGet: Option<SkillGet<Text>>
    var budgetExhausted: bool

    constructor (stateless: bool)
      ensures this.stateless == stateless && entries == None && listError == None && !listMalformed
      ensures !listIncomplete && statelessList == NoHints && gets == [] && unknownGet == None && !budgetExhausted
    {
      this.stateless := stateless;
      entries, listError, listMalformed, listIncomplete := None, None, false, false;
      statelessList, gets, unknownGet, budgetExhausted := NoHints, [], None, false;
    }

    /** `evidence.entries or []` */
    function Listed(): seq<Entry>
      reads this`entries
    {
      if entries.Some? then entries.value else []
    }
  }

  /** The listing fields of the evidence say what the listing was. */
  ghost predicate Records(listing: Listing, stateless: bool,
                          entries: Option<seq<Entry>>, error: Option<Failure>, malformed: bool, incomplete: bool)
  {
    && entries == (if listing.pages == [] then None else Some(AllEntries(listing.pages)))
    && error == (if listing.pages == [] && listing.stop.ListingFailed? then Some(listing.stop.failure) else None)
    && (malformed <==> listing.stop == ListingMalformed)
    && (incomplete <==> listing.pages != [] && !ReadToTheEnd(listing, stateless))
  }

  lemma RecordsAre(pages: seq<Page>, stop: Stop, stateless: bool)
    ensures Records(Listing(pages, stop), stateless,
                    if pages == [] then None else Some(AllEntries(pages)),
                    if pages == [] && stop.ListingFailed? then Some(stop.failure) else None,
                    stop == ListingMalformed,
                    pages != [] && !(stop == NoMorePages && (stateless ==> EveryPageComplete(pages))))
  {
  }

  /** How an answer that is no page ends the listing. */
  function StopAt(answer: ListAnswer): (stop: Stop)
    requires !answer.Listed?
    ensures stop != ListingCancelled
  {
    if answer.Failed? then ListingFailed(answer.failure) else ListingMalformed
  }

  /** The listing is the pages received so far, then whatever the rest of the script adds. */
  ghost predicate Reached(whole: Listing, script: Script, page: nat, seen: set<string>, pages: seq<Page>) {
    Long(script) && page <= MAX_LIST_PAGES && whole == Prepend(pages, ListingFrom(script, page, seen))
  }

  lemma LimitReached(whole: Listing, script: Script, seen: set<string>, pages: seq<Page>)
    requires Reached(whole, script, MAX_LIST_PAGES, seen, pages)
    ensures whole == Listing(pages, PageLimit)
  {
    assert pages + [] == pages;
  }

  lemma NoListing(whole: Listing, script: Script, page: nat, seen: set<string>, pages: seq<Page>)
    requires Reached(whole, script, page, seen, pages) && page < MAX_LIST_PAGES
    requires script[page].Answered? ==> !script[page].value.Listed?
    ensures whole == Listing(pages, if script[page].Answered? then StopAt(script[page].value) else ListingCancelled)
  {
    assert pages + [] == pages;
  }

  lemma LastPage(whole: Listing, script: Script, page: nat, seen: set<string>, pages: seq<Page>, p: Page)
    requires Reached(whole, script, page, seen, pages) && page < MAX_LIST_PAGES && script[page] == Answered(Listed(p))
    requires !(p.next.Next? && p.next.text !in seen)
    ensures whole == Listing(pages + [p], if p.next.NoCursor? then NoMorePages else BadCursor)
  {
  }

  lemma OnePageMore(whole: Listing, script: Script, page: nat, seen: set<string>, pages: seq<Page>, p: Page)
    requires Reached(whole, script, page, seen, pages) && page < MAX_LIST_PAGES && script[page] == Answered(Listed(p))
    requires p.next.Next? && p.next.text !in seen
    ensures Reached(whole, script, page + 1, seen + {p.next.text}, pages + [p])
  {
    PrependTwice(pages, [p], ListingFrom(script, page + 1, seen + {p.next.text}));
  }

  lemma PrependTwice(a: seq<Page>, b: seq<Page>, rest: Listing)
    ensures Prepend(a, Prepend(b, rest)) == Prepend(a + b, rest)
  {
    assert a + (b + rest.pages) == (a + b) + rest.pages;
  }

  lemma PagesSnoc(pages: seq<Page>, p: Page)
    ensures AllEntries(pages + [p]) == AllEntries(pages) + p.skills
    ensures EveryPageComplete(pages + [p]) <==> EveryPageComplete(pages) && p.complete
  {
    assert (pages + [p])[..|pages|] == pages;
  }

  /** The caching attributes a stateless listing keeps: those of whatever its first call was answered. */
  function FirstHints(script: Script, stateless: bool): Hints
    requires Long(script)
  {
    if stateless && script[0].Answered? then HintsOf(script[0].value) else NoHints
  }

  lemma FirstHintsAre(script: Script, stateless: bool)
    requires Long(script)
    ensures stateless && script[0].Answered? ==> FirstHints(script, stateless) == HintsOf(script[0].value)
    ensures !stateless || script[0].Cancelled? ==> FirstHints(script, stateless) == NoHints
  {
  }

  /** The answer to the call for page `page` was an error or not a listing. */
  method RecordNoListing(answer: ListAnswer, page: nat, entries: seq<Entry>, evidence: SkillsEvidence)
    requires !answer.Listed?
    modifies evidence`entries, evidence`listError, evidence`listMalformed, evidence`listIncomplete
    ensures evidence.entries
            == if page > 0 then Some(entries) else if answer.NotAListing? then None else old(evidence.entries)
    ensures evidence.listError
            == if answer.Failed? && page == 0 then Some(answer.failure) else old(evidence.listError)
    ensures evidence.listMalformed == (answer.NotAListing? || old(evidence.listMalformed))
    ensures evidence.listIncomplete == ((answer.Failed? && page > 0) || old(evidence.listIncomplete))
  {
    if answer.Failed? {
      if page == 0 {
        evidence.listError := Some(answer.failure);
      } else {
        evidence.entries := Some(entries);
        evidence.listIncomplete := true;
      }
    } else {
      evidence.listMalformed := true;
      evidence.entries := if page > 0 then Some(entries) else None;
    }
  }

  /** A page was received: say so at once, and say whether its cursor leads on. */
  method RecordPage(next: Cursor, entries: seq<Entry>, seen: set<string>, unfinished: bool, evidence: SkillsEvidence)
    returns (more: bool)
    modifies evidence`entries, evidence`listIncomplete
    ensures more <==> next.Next? && next.text !in seen
    ensures evidence.entries == Some(entries)
    ensures evidence.listIncomplete <==> next != NoCursor || unfinished
  {
    // Visible after every page, so a deadline keeps the pages already received.
    evidence.entries, evidence.listIncomplete := Some(entries), true;
    if !next.Next? || next.text in seen {
      evidence.entries := Some(entries);
      evidence.listIncomplete := next != NoCursor || unfinished;
      return false;
    }
    more := true;
  }

  /** What the evidence and the locals of the loop say between two pages. */
  ghost predicate Progress(stateless: bool, pages: seq<Page>, received: seq<Entry>, unfinished: bool,
                           entries: Option<seq<Entry>>, error: Option<Failure>, malformed: bool, incomplete: bool)
  {
    && received == AllEntries(pages) && (unfinished <==> stateless && !EveryPageComplete(pages))
    && entries == (if pages == [] then None else Some(received))
    && error == None && !malformed && incomplete == (pages != [])
  }

  lemma CancelledRecords(stateless: bool, pages: seq<Page>, received: seq<Entry>, unfinished: bool,
                         entries: Option<seq<Entry>>, error: Option<Failure>, malformed: bool, incomplete: bool)
    requires Progress(stateless, pages, received, unfinished, entries, error, malformed, incomplete)
    ensures Records(Listing(pages, ListingCancelled), stateless, entries, error, malformed, incomplete)
  {
    RecordsAre(pages, ListingCancelled, stateless);
    hide AllEntries, EveryPageComplete, Records;
  }

  lemma NoListingRecords(stateless: bool, pages: seq<Page>, received: seq<Entry>, unfinished: bool,
                         entries: Option<seq<Entry>>, error: Option<Failure>, malformed: bool, incomplete: bool,
                         answer: ListAnswer)
    requires Progress(stateless, pages, received, unfinished, entries, error, malformed, incomplete) && !answer.Listed?
    ensures Records(Listing(pages, StopAt(answer)), stateless,
                    if |pages| > 0 then Some(received) else if answer.NotAListing? then None else entries,
                    if answer.Failed? && |pages| == 0 then Some(answer.failure) else error,
                    answer.NotAListing? || malformed,
                    (answer.Failed? && |pages| > 0) || incomplete)
  {
    RecordsAre(pages, StopAt(answer), stateless);
    hide AllEntries, EveryPageComplete, Records;
  }

  lemma LastPageRecords(stateless: bool, pages: seq<Page>, received: seq<Entry>, unfinished: bool,
                        entries: Option<seq<Entry>>, error: Option<Failure>, malformed: bool, incomplete: bool, p: Page)
    requires Progress(stateless, pages, received, unfinished, entries, error, malformed, incomplete)
    ensures Records(Listing(pages + [p], if p.next.NoCursor? then NoMorePages else BadCursor), stateless,
                    Some(received + p.skills), error, malformed,
                    p.next != NoCursor || unfinished || (stateless && !p.complete))
  {
    PagesSnoc(pages, p);
    RecordsAre(pages + [p], if p.next.NoCursor? then NoMorePages else BadCursor, stateless);
    hide AllEntries, EveryPageComplete, Records;
  }

  lemma PageProgress(stateless: bool, pages: seq<Page>, received: seq<Entry>, unfinished: bool,
                     entries: Option<seq<Entry>>, error: Option<Failure>, malformed: bool, incomplete: bool, p: Page)
    requires Progress(stateless, pages, received, unfinished, entries, error, malformed, incomplete)
    ensures Progress(stateless, pages + [p], received + p.skills, unfinished || (stateless && !p.complete),
                     Some(received + p.skills), error, malformed, true)
  {
    PagesSnoc(pages, p);
    hide AllEntries, EveryPageComplete;
  }

  lemma LimitRecords(stateless: bool, pages: seq<Page>, received: seq<Entry>, unfinished: bool,
                     entries: Option<seq<Entry>>, error: Option<Failure>, malformed: bool, incomplete: bool)
    requires Progress(stateless, pages, received, unfinished, entries, error, malformed, incomplete) && pages != []
    ensures Records(Listing(pages, PageLimit), stateless, Some(received), error, malformed, true)
  {
    RecordsAre(pages, PageLimit, stateless);
    hide AllEntries, EveryPageComplete, Records;
  }

  /** One page of the loop: keep its skills, and find out whether its cursor leads on. */
  method ReceivePage(p: Page, received: seq<Entry>, unfinished: bool, seen: set<string>, evidence: SkillsEvidence,
                     ghost whole: Listing, ghost script: Script, ghost pages: seq<Page>)
    returns (entries: seq<Entry>, stillUnfinished: bool, more: bool, ghost read: seq<Page>)
    requires Reached(whole, script, |pages|, seen, pages) && |pages| < MAX_LIST_PAGES
    requires script[|pages|] == Answered(Listed(p))
    requires Progress(evidence.stateless, pages, received, unfinished, evidence.entries, evidence.listError,
                      evidence.listMalformed, evidence.listIncomplete)
    modifies evidence`entries, evidence`listIncomplete
    ensures more ==> p.next.Next? && |read| == |pages| + 1 &&
                     Reached(whole, script, |read|, seen + {p.next.text}, read) &&
                     Progress(evidence.stateless, read, entries, stillUnfinished, evidence.entries, evidence.listError,
                              evidence.listMalformed, evidence.listIncomplete)
    ensures !more ==> whole.stop != ListingCancelled &&
                      Records(whole, evidence.stateless, evidence.entries, evidence.listError,
                              evidence.listMalformed, evidence.listIncomplete)
  {
    hide Progress, Records;
    LastPageRecords(evidence.stateless, pages, received, unfinished, evidence.entries, evidence.listError,
                    evidence.listMalformed, evidence.listIncomplete, p);
    PageProgress(evidence.stateless, pages, received, unfinished, evidence.entries, evidence.listError,
                 evidence.listMalformed, evidence.listIncomplete, p);
    read := pages + [p];
    entries := received + p.skills;
    stillUnfinished := unfinished || (evidence.stateless && !p.complete);
    more := RecordPage(p.next, entries, seen, stillUnfinished, evidence);
    if more {
      OnePageMore(whole, script, |pages|, seen, pages, p);
    } else {
      LastPage(whole, script, |pages|, seen, pages, p);
    }
    hide Reached;
  }

  /** One turn of the loop: the next call is cancelled, or answered and recorded. */
  method ReadPage(await: Await<ListAnswer>, page: nat, received: seq<Entry>, unfinished: bool,
                  seen: set<string>, evidence: SkillsEvidence, ghost whole: Listing, ghost script: Script,
                  ghost pages: seq<Page>)
    returns (entries: seq<Entry>, stillUnfinished: bool, more: bool, cancelled: bool, ghost read: seq<Page>)
    requires page == |pages| < MAX_LIST_PAGES && Reached(whole, script, page, seen, pages) && script[page] == await
    requires Progress(evidence.stateless, pages, received, unfinished, evidence.entries, evidence.listError,
                      evidence.listMalformed, evidence.listIncomplete)
    requires evidence.statelessList == if page > 0 then FirstHints(script, evidence.stateless) else NoHints
    modifies evidence`entries, evidence`listError, evidence`listMalformed, evidence`listIncomplete
    modifies evidence`statelessList
    ensures evidence.statelessList == FirstHints(script, evidence.stateless)
    ensures more ==> !cancelled && CursorOf(await).Next? && |read| == page + 1 &&
                     Reached(whole, script, |read|, seen + {CursorOf(await).text}, read) &&
                     Progress(evidence.stateless, read, entries, stillUnfinished, evidence.entries, evidence.listError,
                              evidence.listMalformed, evidence.listIncomplete)
    ensures !more ==> (cancelled <==> whole.stop == ListingCancelled) &&
                      Records(whole, evidence.stateless, evidence.entries, evidence.listError,
                              evidence.listMalformed, evidence.listIncomplete)
  {
    FirstHintsAre(script, evidence.stateless);
    hide Progress, Records, Reached, FirstHints;
    entries, stillUnfinished, more, cancelled, read := received, unfinished, false, false, pages;
    if await.Cancelled? {
      NoListing(whole, script, page, seen, pages);
      CancelledRecords(evidence.stateless, pages, received, unfinished, evidence.entries, evidence.listError,
                       evidence.listMalformed, evidence.listIncomplete);
      cancelled := true;
    } else {
      var answer := await.value;
      if evidence.stateless && page == 0 {
        evidence.statelessList := HintsOf(answer);
      }
      if answer.Listed? {
        entries, stillUnfinished, more, read :=
          ReceivePage(answer.page, received, unfinished, seen, evidence, whole, script, pages);
      } else {
        NoListing(whole, script, page, seen, pages);
        NoListingRecords(evidence.stateless, pages, received, unfinished, evidence.entries, evidence.listError,
                         evidence.listMalformed, evidence.listIncomplete, answer);
        RecordNoListing(answer, page, received, evidence);
      }
    }
  }

  /** The cursor an answered page gives, if there is one. */
  function CursorOf(await: Await<ListAnswer>): Cursor {
    if await.Answered? && await.value.Listed? then await.value.page.next else NoCursor
  }

  /** `_list`: page after page until the server stops, misbehaves, or the deadline cancels the call in flight. */
  method List(script: Script, evidence: SkillsEvidence) returns (cancelled: bool)
    requires Long(script) && evidence.entries == None && evidence.listError == None
    requires !evidence.listMalformed && !evidence.listIncomplete && evidence.statelessList == NoHints
    modifies evidence`entries, evidence`listError, evidence`listMalformed, evidence`listIncomplete
    modifies evidence`statelessList
    ensures Records(ListingOf(script), evidence.stateless,
                    evidence.entries, evidence.listError, evidence.listMalformed, evidence.listIncomplete)
    ensures cancelled <==> ListingOf(script).stop == ListingCancelled
    ensures evidence.statelessList == FirstHints(script, evidence.stateless)
  {
    var entries := [];
    var seen: set<string> := {};
    var unfinished := false;
    ghost var pages, whole := [], ListingOf(script);
    assert Reached(whole, script, 0, seen, pages);
    assert Progress(evidence.stateless, pages, entries, unfinished, None, None, false, false);
    assert |script| == MAX_LIST_PAGES;
    hide *;
    for page := 0 to MAX_LIST_PAGES
      invariant |pages| == page && Reached(whole, script, page, seen, pages)
      invariant Progress(evidence.stateless, pages, entries, unfinished, evidence.entries, evidence.listError,
                         evidence.listMalformed, evidence.listIncomplete)
      invariant evidence.statelessList == if page > 0 then FirstHints(script, evidence.stateless) else NoHints
    {
      var more;
      entries, unfinished, more, cancelled, pages :=
        ReadPage(script[page], page, entries, unfinished, seen, evidence, whole, script, pages);
      if !more {
        return;
      }
      seen := seen + {CursorOf(script[page]).text};
    }
    LimitReached(whole, script, seen, pages);
    LimitRecords(evidence.stateless, pages, entries, unfinished, evidence.entries, evidence.listError,
                 evidence.listMalformed, evidence.listIncomplete);
    evidence.entries := Some(entries);
    evidence.listIncomplete := true;
    cancelled := false;
  }

  // ---------- skills/get, concurrently ----------

  function UrisOf<U(==)>(gets: seq<SkillGet<U>>): seq<U> {
    seq(|gets|, i requires 0 <= i < |gets| => gets[i].uri)
  }

  ghost predicate AllDistinct<U>(uris: seq<U>) {
    forall i, j :: 0 <= i < j < |uris| ==> uris[i] != uris[j]
  }

  function PositionOf<U(==)>(uris: seq<U>, uri: U): (i: nat)
    ensures i <= |uris|
    ensures i < |uris| ==> uris[i] == uri
    ensures uri in uris ==> i < |uris|
  {
    if uris == [] || uris[0] == uri then 0 else PositionOf(uris[1..], uri) + 1
  }

  /** The sort key `order[got.uri]`. */
  function Before<U(==)>(uris: seq<U>): (SkillGet<U>, SkillGet<U>) -> bool {
    (a: SkillGet<U>, b: SkillGet<U>) => PositionOf(uris, a.uri) < PositionOf(uris, b.uri)
  }

  function Answers<U(==)>(uris: seq<U>, server: U -> GetOutcome): seq<SkillGet<U>> {
    seq(|uris|, i requires 0 <= i < |uris| => SkillGet(uris[i], server(uris[i])))
  }

  lemma PositionIs<U>(uris: seq<U>, i: nat)
    requires AllDistinct(uris) && i < |uris|
    ensures PositionOf(uris, uris[i]) == i
  {
    var j := PositionOf(uris, uris[i]);
    assert uris[i] in uris && uris[j] == uris[i];
  }

  lemma AnswersInOrder<U>(uris: seq<U>, server: U -> GetOutcome)
    requires AllDistinct(uris)
    ensures Sorted(Answers(uris, server), Before(uris))
    ensures forall a, b :: a in Answers(uris, server) && b in Answers(uris, server) && a != b ==>
              Before(uris)(a, b) || Before(uris)(b, a)
  {
    var target, less := Answers(uris, server), Before(uris);
    forall i, j | 0 <= i < j < |target| ensures !less(target[j], target[i]) {
      PositionIs(uris, i);
      PositionIs(uris, j);
    }
    forall a, b | a in target && b in target && a != b ensures less(a, b) || less(b, a) {
      var i :| 0 <= i < |target| && target[i] == a;
      var j :| 0 <= j < |target| && target[j] == b;
      PositionIs(uris, i);
      PositionIs(uris, j);
    }
  }

  /** Answers in any completion order sort back into listing order. */
  lemma AnswersSortBack<U(!new)>(uris: seq<U>, done: seq<U>, server: U -> GetOutcome)
    requires AllDistinct(uris) && multiset(done) == multiset(uris)
    ensures Sort(Answers(done, server), Before(uris)) == Answers(uris, server)
  {
    var target, less := Answers(uris, server), Before(uris);
    AnswersInOrder(uris, server);
    SameAnswers(done, uris, server);
    assert StrictWeakOrder(less);
    SortSorted(Answers(done, server), less);
    var sorted := Sort(Answers(done, server), less);
    hide Answers, Before, Sort, Sorted;
    forall a | a in sorted ensures a in target {
      assert a in multiset(sorted);
    }
    SortedIsUnique(sorted, target, less);
  }

  lemma {:induction false} AnswerCount<U>(uris: seq<U>, server: U -> GetOutcome, x: SkillGet<U>)
    ensures multiset(Answers(uris, server))[x] == if x.outcome == server(x.uri) then multiset(uris)[x.uri] else 0
  {
    if uris != [] {
      var last := |uris| - 1;
      AnswerCount(uris[..last], server, x);
      assert uris == uris[..last] + [uris[last]];
      AnswersSnoc(uris[..last], uris[last], server);
    }
  }

  lemma SameAnswers<U>(a: seq<U>, b: seq<U>, server: U -> GetOutcome)
    requires multiset(a) == multiset(b)
    ensures multiset(Answers(a, server)) == multiset(Answers(b, server))
  {
    forall x: SkillGet<U> ensures multiset(Answers(a, server))[x] == multiset(Answers(b, server))[x] {
      AnswerCount(a, server, x);
      AnswerCount(b, server, x);
    }
  }

  lemma RemovedFrom<T>(s: seq<T>, i: nat)
    requires i < |s|
    ensures multiset(s) == multiset{s[i]} + multiset(s[..i] + s[i + 1..])
  {
    assert s == s[..i] + [s[i]] + s[i + 1..];
  }

  lemma AnswersOfNone<U>(server: U -> GetOutcome)
    ensures Answers([], server) == []
  {
  }

  lemma AnswersSnoc<U>(done: seq<U>, uri: U, server: U -> GetOutcome)
    ensures Answers(done + [uri], server) == Answers(done, server) + [SkillGet(uri, server(uri))]
  {
  }

  /** `asyncio.gather` of the calls: they finish in any order, and the deadline may cancel after any of them. */
  method Gather(uris: seq<Text>, server: Text -> GetOutcome, evidence: SkillsEvidence)
    returns (cancelled: bool, ghost done: seq<Text>)
    requires evidence.gets == [] && AllDistinct(uris)
    modifies evidence`gets
    ensures evidence.gets == Answers(done, server) && multiset(done) <= multiset(uris)
    ensures !cancelled ==> multiset(done) == multiset(uris)
  {
    hide Answers, AllDistinct;
    AnswersOfNone(server);
    var flying := uris;
    done := [];
    while flying != []
      invariant multiset(done) + multiset(flying) == multiset(uris)
      invariant evidence.gets == Answers(done, server)
      decreases |flying|
    {
      var deadline: bool := *;
      if deadline {
        return true, done;
      }
      var i :| 0 <= i < |flying|;
      var uri := flying[i];
      RemovedFrom(flying, i);
      flying := flying[..i] + flying[i + 1..];
      AnswersSnoc(done, uri, server);
      done := done + [uri];
      evidence.gets := evidence.gets + [SkillGet(uri, server(uri))];
    }
    cancelled := false;
  }

  /**
   `_get`: every listed skill, then one that is not listed.  The deadline may cancel the calls, or the final one.
   */
  method Get(server: Text -> GetOutcome, evidence: SkillsEvidence)
    returns (cancelled: bool, ghost done: seq<Text>, ghost uris: seq<Text>, ghost at: seq<nat>)
    requires evidence.gets == [] && evidence.unknownGet == None
    modifies evidence`gets, evidence`unknownGet
    ensures FirstSkills(evidence.Listed(), uris, at) && uris == ListedSkillUris(evidence.Listed())
    ensures evidence.gets == Answers(done, server) && multiset(done) <= multiset(uris)
    ensures !cancelled ==> done == uris && AnsweredBy(evidence.gets, uris, server)
    ensures evidence.unknownGet.Some? <==> !cancelled
    ensures evidence.unknownGet.Some? ==> UnknownAsked(evidence.Listed(), evidence.unknownGet.value, server)
  {
    hide *;
    at := FirstSkillsListed(evidence.Listed());
    ListedUrisDistinct(evidence.Listed());
    var listed := CollectSkillUris(evidence.Listed());
    uris := listed;
    cancelled, done := Gather(listed, server, evidence);
    if cancelled {
      return;
    }
    AnswersSortBack(listed, done, server);
    AnswersAre(listed, server);
    evidence.gets := Sort(evidence.gets, Before(listed));
    done := listed;
    cancelled := *;
    if cancelled {
      return;
    }
    var unknown := UnknownSkillUri(evidence.Listed());
    evidence.unknownGet := Some(SkillGet(unknown, server(unknown)));
    UnknownAskedIs(evidence.Listed(), unknown, server);
  }

  lemma UnknownAskedIs(entries: seq<Entry>, uri: Text, server: Text -> GetOutcome)
    requires Normalize(uri) !in ListedForms(entries) && exists n: nat :: FirstUnused(entries, Beside(entries), n, uri)
    ensures UnknownAsked(entries, SkillGet(uri, server(uri)), server)
  {
  }

  /** The calls recorded are those for `uris`, in that order, each with the server's own answer. */
  ghost predicate AnsweredBy<U>(gets: seq<SkillGet<U>>, uris: seq<U>, server: U -> GetOutcome) {
    |gets| == |uris| && forall k :: 0 <= k < |uris| ==> gets[k] == SkillGet(uris[k], server(uris[k]))
  }

  lemma AnswersAre<U>(uris: seq<U>, server: U -> GetOutcome)
    ensures AnsweredBy(Answers(uris, server), uris, server)
  {
  }

  /** The call for an unknown skill: beside the first listed one, under the first name no listed URI uses. */
  ghost predicate UnknownAsked(entries: seq<Entry>, get: SkillGet<Text>, server: Text -> GetOutcome) {
    && get.outcome == server(get.uri)
    && Normalize(get.uri) !in ListedForms(entries)
    && exists n: nat :: FirstUnused(entries, Beside(entries), n, get.uri)
  }

  lemma ListedUrisDistinct(entries: seq<Entry>)
    ensures AllDistinct(ListedSkillUris(entries))
  {
    DistinctUrisFacts(entries);
  }

  // ---------- collect_skills ----------

  /** The listed URIs not answered, in listing order, each recorded as a timeout. */
  function TimedOut<U(==)>(uris: seq<U>, done: seq<U>): (gets: seq<SkillGet<U>>)
    ensures forall g <- gets :: g.uri in uris && g.uri !in done && g.outcome == GetFailed(Timeout)
    ensures forall u <- uris :: u !in done ==> SkillGet(u, GetFailed(Timeout)) in gets
  {
    if uris == [] then []
    else (if uris[0] in done then [] else [SkillGet(uris[0], GetFailed(Timeout))]) + TimedOut(uris[1..], done)
  }

  lemma {:induction false} TimedOutUris<U>(uris: seq<U>, done: seq<U>)
    requires AllDistinct(uris)
    ensures AllDistinct(UrisOf(TimedOut(uris, done)))
  {
    if uris != [] {
      TailDistinct(uris);
      TimedOutUris(uris[1..], done);
      var rest := TimedOut(uris[1..], done);
      assert forall g <- rest :: g.uri in uris[1..];
      var late := TimedOut(uris, done);
      if uris[0] in done {
        assert late == rest;
      } else {
        assert late == [SkillGet(uris[0], GetFailed(Timeout))] + rest;
        DistinctCons(uris[0], rest, late);
      }
    }
  }

  lemma TailDistinct<U>(uris: seq<U>)
    requires AllDistinct(uris) && uris != []
    ensures AllDistinct(uris[1..]) && uris[0] !in uris[1..]
  {
    assert forall i :: 0 <= i < |uris[1..]| ==> uris[1..][i] == uris[i + 1] != uris[0];
  }

  lemma DistinctCons<U>(uri: U, rest: seq<SkillGet<U>>, gets: seq<SkillGet<U>>)
    requires AllDistinct(UrisOf(rest)) && (forall g <- rest :: g.uri != uri)
    requires |gets| == |rest| + 1 && gets[0].uri == uri && gets[1..] == rest
    ensures AllDistinct(UrisOf(gets))
  {
    forall i, j | 0 <= i < j < |gets| ensures UrisOf(gets)[i] != UrisOf(gets)[j] {
      assert gets[j] == rest[j - 1] && UrisOf(gets)[j] == UrisOf(rest)[j - 1];
      if i > 0 {
        assert gets[i] == rest[i - 1] && UrisOf(gets)[i] == UrisOf(rest)[i - 1];
      }
    }
  }

  /** Every listed URI has exactly one recorded call, and nothing else has. */
  ghost predicate OneGetEach<U>(uris: seq<U>, gets: seq<SkillGet<U>>) {
    && AllDistinct(UrisOf(gets))
    && (forall g <- gets :: g.uri in uris)
    && (forall u <- uris :: exists g <- gets :: g.uri == u)
  }

  lemma AnsweredOrTimedOut<U>(uris: seq<U>, done: seq<U>, server: U -> GetOutcome)
    requires AllDistinct(uris) && multiset(done) <= multiset(uris)
    ensures OneGetEach(uris, Answers(done, server) + TimedOut(uris, done))
  {
    AnsweredOrLateDistinct(uris, done, server);
    var answers, late := Answers(done, server), TimedOut(uris, done);
    var gets: seq<SkillGet<U>> := answers + late;
    hide Answers, TimedOut, AllDistinct;
    forall g: SkillGet<U> | g in gets ensures g.uri in uris {
      if g in answers {
        assert g.uri in multiset(done);
        assert g.uri in multiset(uris);
      }
    }
    forall u | u in uris ensures exists g: SkillGet<U> <- gets :: g.uri == u {
      if u in done {
        var i :| 0 <= i < |done| && done[i] == u;
        assert answers[i] in gets;
      } else {
        assert SkillGet(u, GetFailed(Timeout)) in gets;
      }
    }
  }

  lemma AnsweredOrLateDistinct<U>(uris: seq<U>, done: seq<U>, server: U -> GetOutcome)
    requires AllDistinct(uris) && multiset(done) <= multiset(uris)
    ensures AllDistinct(UrisOf(Answers(done, server) + TimedOut(uris, done)))
  {
    var late := TimedOut(uris, done);
    TimedOutUris(uris, done);
    DistinctBelow(uris, done);
    UrisOfBoth(done, server, late);
    forall u | u in UrisOf(late) ensures u !in done {
      var i :| 0 <= i < |late| && UrisOf(late)[i] == u;
      assert late[i] in late;
    }
    hide TimedOut, UrisOf, Answers;
    DistinctConcat(done, UrisOf(late));
  }

  lemma UrisOfBoth<U>(done: seq<U>, server: U -> GetOutcome, late: seq<SkillGet<U>>)
    ensures UrisOf(Answers(done, server) + late) == done + UrisOf(late)
  {
  }

  lemma DistinctConcat<U>(a: seq<U>, b: seq<U>)
    requires AllDistinct(a) && AllDistinct(b) && forall u <- b :: u !in a
    ensures AllDistinct(a + b)
  {
    var all := a + b;
    forall i, j | 0 <= i < j < |all| ensures all[i] != all[j] {
      if i < |a| <= j {
        assert all[j] == b[j - |a|] && all[j] in b;
        assert all[i] in a;
      }
    }
  }

  lemma DistinctBelow<U>(uris: seq<U>, done: seq<U>)
    requires AllDistinct(uris) && multiset(done) <= multiset(uris)
    ensures AllDistinct(done)
  {
    forall i, j | 0 <= i < j < |done| ensures done[i] != done[j] {
      var head, tail := done[..j], done[j..];
      assert done == head + tail;
      assert done[i] in multiset(head) by { assert head[i] == done[i]; }
      assert done[j] in multiset(tail) by { assert tail[0] == done[j]; }
      assert multiset(done)[done[i]] == multiset(head)[done[i]] + multiset(tail)[done[i]];
      AtMostOnce(uris, done[i]);
    }
  }

  lemma {:induction false} AtMostOnce<U>(uris: seq<U>, uri: U)
    requires AllDistinct(uris)
    ensures multiset(uris)[uri] <= 1
  {
    if uris != [] {
      TailDistinct(uris);
      AtMostOnce(uris[1..], uri);
      assert uris == [uris[0]] + uris[1..];
    }
  }

  /**
   `collect_skills`: whatever the server answers and whenever the deadline strikes, the evidence is consistent.
   `late` is whether the deadline struck during the directory or file reads that run beside the calls.
   */
  method CollectSkills(stateless: bool, script: Script, server: Text -> GetOutcome, late: bool)
    returns (evidence: SkillsEvidence, ghost uris: seq<Text>, ghost at: seq<nat>)
    requires Long(script)
    ensures fresh(evidence) && evidence.stateless == stateless
    // What was received is what is recorded, and every failure leaves its own mark.
    ensures var listing := ListingOf(script);
            && evidence.entries == (if listing.pages == [] then None else Some(AllEntries(listing.pages)))
            && evidence.listError == (if listing.pages != [] then None
                                      else if listing.stop.ListingFailed? then Some(listing.stop.failure)
                                      else if listing.stop.ListingCancelled? then Some(Timeout) else None)
            && (evidence.listMalformed <==> listing.stop == ListingMalformed)
            && (evidence.listIncomplete <==> listing.pages != [] && !ReadToTheEnd(listing, stateless))
    // Once the listing is over, the first 32 distinct URIs listed have exactly one recorded call each, which has the
    // server's answer or, past the deadline, a timeout; before the deadline they are in listing order.
    ensures FirstSkills(evidence.Listed(), uris, at)
    ensures ListingOf(script).stop.ListingCancelled? ==> evidence.gets == [] && evidence.budgetExhausted
    ensures !ListingOf(script).stop.ListingCancelled? ==> OneGetEach(uris, evidence.gets)
    ensures forall get <- evidence.gets :: get.outcome == server(get.uri) || get.outcome == GetFailed(Timeout)
    ensures !evidence.budgetExhausted ==> AnsweredBy(evidence.gets, uris, server)
    ensures !evidence.budgetExhausted ==>
      evidence.unknownGet.Some? && UnknownAsked(evidence.Listed(), evidence.unknownGet.value, server)
    ensures late ==> evidence.budgetExhausted
  {
    hide ListingOf, ReadToTheEnd, AllEntries, ListedSkillUris, Answers, TimedOut, OneGetEach, Normalize, ListedForms;
    hide UnknownAsked, FirstSkills, AnsweredBy;
    evidence := new SkillsEvidence(stateless);
    var cancelled := List(script, evidence);
    if cancelled {
      evidence.budgetExhausted := true;
      if evidence.entries.None? {
        evidence.listError := Some(Timeout);
      } else {
        evidence.listIncomplete := true;
        CancelledIsNotTheEnd(script, stateless);
      }
      uris := ListedSkillUris(evidence.Listed());
      at := FirstSkillsListed(evidence.Listed());
      return;
    }
    ListedUrisDistinct(evidence.Listed());
    ghost var done;
    cancelled, done, uris, at := Get(server, evidence);
    OutcomesAre(uris, done, server);
    if cancelled || late {
      evidence.budgetExhausted := true;
      var listed := CollectSkillUris(evidence.Listed());
      UrisOfAnswers(done, server);
      AnsweredOrTimedOut(uris, done, server);
      evidence.gets := evidence.gets + TimedOut(listed, UrisOf(evidence.gets));
    } else {
      AnsweredOrTimedOut(uris, done, server);
      TimedOutNone(uris, uris);
      assert evidence.gets + [] == evidence.gets;
    }
  }

  /** Each recorded outcome is the server's own answer or a timeout. */
  lemma OutcomesAre<U(!new)>(uris: seq<U>, done: seq<U>, server: U -> GetOutcome)
    ensures forall get <- Answers(done, server) :: get.outcome == server(get.uri)
    ensures forall get <- Answers(done, server) + TimedOut(uris, done) ::
              get.outcome == server(get.uri) || get.outcome == GetFailed(Timeout)
  {
    hide TimedOut;
  }

  lemma CancelledIsNotTheEnd(script: Script, stateless: bool)
    requires Long(script) && ListingOf(script).stop.ListingCancelled?
    ensures !ReadToTheEnd(ListingOf(script), stateless)
  {
  }

  lemma UrisOfAnswers<U>(uris: seq<U>, server: U -> GetOutcome)
    ensures UrisOf(Answers(uris, server)) == uris
  {
  }

  lemma {:induction false} TimedOutNone<U>(uris: seq<U>, done: seq<U>)
    requires forall u <- uris :: u in done
    ensures TimedOut(uris, done) == []
  {
    if uris != [] {
      TimedOutNone(uris[1..], done);
    }
  }

  // ---------- the listing itself ----------

  /** At most 20 pages, and every page but the last named a new cursor. */
  lemma {:induction false} ListingFacts(script: Script, page: nat, seen: set<string>)
    requires Long(script) && page <= MAX_LIST_PAGES
    ensures var listing := ListingFrom(script, page, seen);
            && |listing.pages| <= MAX_LIST_PAGES - page
            && (forall i :: 0 <= i < |listing.pages| ==>
                  page + i < MAX_LIST_PAGES && script[page + i] == Answered(Listed(listing.pages[i])))
            && (forall i :: 0 <= i < |listing.pages| - 1 ==>
                  listing.pages[i].next.Next? && listing.pages[i].next.text !in seen)
            && (forall i, j :: 0 <= i < j < |listing.pages| - 1 ==> listing.pages[i].next != listing.pages[j].next)
            && (listing.stop == NoMorePages <==>
                  listing.pages != [] && listing.pages[|listing.pages| - 1].next == NoCursor)
    decreases MAX_LIST_PAGES - page
  {
    if page < MAX_LIST_PAGES && script[page].Answered? && script[page].value.Listed? {
      var p := script[page].value.page;
      if p.next.Next? && p.next.text !in seen {
        ListingFacts(script, page + 1, seen + {p.next.text});
        var rest := ListingFrom(script, page + 1, seen + {p.next.text});
        var listing := ListingFrom(script, page, seen);
        assert listing.pages == [p] + rest.pages;
        forall i | 0 <= i < |listing.pages|
          ensures page + i < MAX_LIST_PAGES && script[page + i] == Answered(Listed(listing.pages[i]))
        {
          if i > 0 {
            assert listing.pages[i] == rest.pages[i - 1];
            assert script[page + 1 + (i - 1)] == Answered(Listed(rest.pages[i - 1]));
          }
        }
      }
    }
  }

  /** The last page read, if any, names a cursor that neither `seen` nor an earlier page had. */
  ghost predicate LeadsOn(pages: seq<Page>, seen: set<string>) {
    pages != [] ==>
      var next := pages[|pages| - 1].next;
      && next.Next? && next.text !in seen
      && forall i :: 0 <= i < |pages| - 1 ==> pages[i].next != next
  }

  /** Why the listing ended, for call number `asked` and the pages before it. */
  ghost predicate EndsWith(script: Script, asked: nat, pages: seq<Page>, seen: set<string>, stop: Stop)
    requires Long(script) && asked <= MAX_LIST_PAGES
  {
    if LeadsOn(pages, seen) then
      if asked == 20 then stop == PageLimit
      else match script[asked]
        case Cancelled => stop == ListingCancelled
        case Answered(Failed(failure)) => stop == ListingFailed(failure)
        case Answered(NotAListing) => stop == ListingMalformed
        case Answered(Listed(_)) => false
    else if pages[|pages| - 1].next.NoCursor? then stop == NoMorePages
    else stop == BadCursor
  }

  lemma LeadsOnCons(p: Page, rest: seq<Page>, seen: set<string>)
    requires p.next.Next? && p.next.text !in seen
    ensures LeadsOn([p] + rest, seen) <==> LeadsOn(rest, seen + {p.next.text})
  {
    var pages := [p] + rest;
    assert forall i :: 0 <= i < |rest| ==> pages[i + 1] == rest[i];
    if rest != [] {
      var next := rest[|rest| - 1].next;
      assert pages[|pages| - 1].next == next && pages[0] == p;
      if LeadsOn(rest, seen + {p.next.text}) {
        forall i | 0 <= i < |pages| - 1 ensures pages[i].next != next {
          assert i > 0 ==> pages[i] == rest[i - 1];
        }
      }
    }
  }

  /**
   The listing stops exactly where it must: a page whose cursor is new is followed by one more call, up to 20, and the
   reason recorded is what the last page or the last call was.
   */
  lemma {:induction false} ListingStops(script: Script, page: nat, seen: set<string>)
    requires Long(script) && page <= MAX_LIST_PAGES
    ensures var listing := ListingFrom(script, page, seen);
            && page + |listing.pages| <= MAX_LIST_PAGES
            && EndsWith(script, page + |listing.pages|, listing.pages, seen, listing.stop)
    decreases MAX_LIST_PAGES - page
  {
    if page < MAX_LIST_PAGES && script[page].Answered? && script[page].value.Listed? {
      var p := script[page].value.page;
      if p.next.Next? && p.next.text !in seen {
        ListingStops(script, page + 1, seen + {p.next.text});
        LeadsOnCons(p, ListingFrom(script, page + 1, seen + {p.next.text}).pages, seen);
        hide LeadsOn;
      } else {
        assert !LeadsOn([p], seen);
      }
    }
  }

  /** The entries of a listing are those of its pages, in order. */
  lemma {:induction false} EntriesInPageOrder(a: seq<Page>, b: seq<Page>)
    ensures AllEntries(a + b) == AllEntries(a) + AllEntries(b)
  {
    NoEntries();
    hide AllEntries, EveryPageComplete;
    if b == [] {
      assert a + b == a && AllEntries(a) + [] == AllEntries(a);
    } else {
      var front, last := b[..|b| - 1], b[|b| - 1];
      assert b == front + [last];
      EntriesInPageOrder(a, front);
      PagesSnoc(front, last);
      PagesSnoc(a + front, last);
      Regroup(a, front, [last]);
      Regroup(AllEntries(a), AllEntries(front), last.skills);
    }
  }

  lemma NoEntries()
    ensures AllEntries([]) == []
  {
  }

  lemma OnePageEntries(p: Page)
    ensures AllEntries([p]) == p.skills
  {
    assert [] + [p] == [p];
    PagesSnoc([], p);
    NoEntries();
    hide AllEntries;
  }
}
