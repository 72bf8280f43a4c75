/** Collecting a paginated listing from any server, however it pages, repeats cursors or fails. */
module Pagination {
  import opened Wrappers

  const MAX_LISTING_PAGES: nat := 100

  /** Why a page request raised, as far as the diagnostics tell failures apart. */
  datatype Failure = InvalidResponse | BudgetExhausted | RequestTimedOut | RpcError(code: int) | OtherFailure

  datatype Outcome = CollectionError | TimeoutOutcome | RpcErrorOutcome

  datatype ListingError = ListingError(outcome: Outcome, pageIndex: nat, errorCode: Option<int>)

  datatype Answer<+T> = Raised(failure: Failure) | Page(items: seq<T>, next: Option<string>)

  function Diagnose(failure: Failure, page: nat): ListingError {
    match failure
    case InvalidResponse | OtherFailure => ListingError(CollectionError, page, None)
    case BudgetExhausted | RequestTimedOut => ListingError(TimeoutOutcome, page, None)
    case RpcError(code) => ListingError(RpcErrorOutcome, page, Some(code))
  }

  /** What the failure was, where it happened, and the server's own code if it sent one. */
  lemma DiagnoseExactly(failure: Failure, page: nat)
    ensures var error := Diagnose(failure, page);
            && error.pageIndex == page
            && (error.outcome == TimeoutOutcome <==> failure == BudgetExhausted || failure == RequestTimedOut)
            && (error.outcome == RpcErrorOutcome <==> error.errorCode.Some?)
            && forall code :: error.errorCode == Some(code) <==> failure == RpcError(code)
  {
  }

  // ---------- the walk over the pages, as a function of the server's answers ----------

  datatype Stop = LastPage | RepeatedCursor | PageLimit | PageRaised(failure: Failure)

  datatype Walk<+T> = Walk(items: seq<T>, pages: nat, cursors: seq<string>, stop: Stop)

  ghost predicate Script<T>(script: seq<Answer<T>>) {
    |script| == MAX_LISTING_PAGES
  }

  /** Where the walk over the answers from `page` on gets, given the cursors already followed. */
  ghost function WalkFrom<T>(script: seq<Answer<T>>, page: nat, seen: set<string>): Walk<T>
    requires Script(script) && page <= MAX_LISTING_PAGES
    decreases MAX_LISTING_PAGES - page
  {
    if page == MAX_LISTING_PAGES then Walk([], 0, [], PageLimit)
    else if script[page].Raised? then Walk([], 0, [], PageRaised(script[page].failure))
    else
      var items, next := script[page].items, script[page].next;
      if next.None? then Walk(items, 1, [], LastPage)
      else if next.value in seen then Walk(items, 1, [], RepeatedCursor)
      else
        var rest := WalkFrom(script, page + 1, seen + {next.value});
        Walk(items + rest.items, rest.pages + 1, [next.value] + rest.cursors, rest.stop)
  }

  ghost function WalkOf<T>(script: seq<Answer<T>>): Walk<T>
    requires Script(script)
  {
    WalkFrom(script, 0, {})
  }

  /** The walk is what was collected so far, then whatever the rest of the answers add. */
  ghost predicate Reached<T>(walk: Walk<T>, script: seq<Answer<T>>, page: nat, seen: set<string>,
                             items: seq<T>, cursors: seq<string>)
  {
    && Script(script) && page <= MAX_LISTING_PAGES
    && var rest := WalkFrom(script, page, seen);
    walk == Walk(items + rest.items, page + rest.pages, cursors + rest.cursors, rest.stop)
  }

  lemma StoppedHere<T>(walk: Walk<T>, script: seq<Answer<T>>, page: nat, seen: set<string>,
                       items: seq<T>, cursors: seq<string>)
    requires Reached(walk, script, page, seen, items, cursors)
    requires page < MAX_LISTING_PAGES ==> script[page].Raised?
    ensures walk == Walk(items, page, cursors,
                         if page == MAX_LISTING_PAGES then PageLimit else PageRaised(script[page].failure))
  {
    assert items + [] == items && cursors + [] == cursors;
  }

  lemma EndedHere<T>(walk: Walk<T>, script: seq<Answer<T>>, page: nat, seen: set<string>,
                     items: seq<T>, cursors: seq<string>)
    requires Reached(walk, script, page, seen, items, cursors) && page < MAX_LISTING_PAGES && script[page].Page?
    requires script[page].next.Some? ==> script[page].next.value in seen
    ensures walk == Walk(items + script[page].items, page + 1, cursors,
                         if script[page].next.None? then LastPage else RepeatedCursor)
  {
    assert cursors + [] == cursors;
  }

  lemma OnePageMore<T>(walk: Walk<T>, script: seq<Answer<T>>, page: nat, seen: set<string>,
                       items: seq<T>, cursors: seq<string>)
    requires Reached(walk, script, page, seen, items, cursors) && page < MAX_LISTING_PAGES && script[page].Page?
    requires script[page].next.Some? && script[page].next.value !in seen
    ensures var cursor := script[page].next.value;
            Reached(walk, script, page + 1, seen + {cursor}, items + script[page].items, cursors + [cursor])
  {
    var cursor := script[page].next.value;
    var rest := WalkFrom(script, page + 1, seen + {cursor});
    assert (items + script[page].items) + rest.items == items + (script[page].items + rest.items);
    assert (cursors + [cursor]) + rest.cursors == cursors + ([cursor] + rest.cursors);
  }

  // ---------- what any walk keeps ----------

  /** One request a page, and one more when a request raised. */
  ghost function RequestCount<T>(walk: Walk<T>): nat {
    walk.pages + if walk.stop.PageRaised? then 1 else 0
  }

  /** The cursors sent with the first `n` requests: none, then each page's cursor with the next request. */
  ghost function Sent(cursors: seq<string>, n: nat): seq<Option<string>> {
    seq(n, k requires 0 <= k < n => if 0 < k <= |cursors| then Some(cursors[k - 1]) else None)
  }

  lemma SentOneMore(cursors: seq<string>, n: nat)
    requires n <= |cursors|
    ensures Sent(cursors, n + 1) == Sent(cursors, n) + [if n == 0 then None else Some(cursors[n - 1])]
  {
  }

  lemma SentBefore(cursors: seq<string>, c: string, n: nat)
    requires n <= |cursors| + 1
    ensures Sent(cursors + [c], n) == Sent(cursors, n)
  {
  }

  ghost function Requests<T>(walk: Walk<T>): seq<Option<string>> {
    Sent(walk.cursors, RequestCount(walk))
  }

  lemma {:induction false} WalkFacts<T>(script: seq<Answer<T>>, page: nat, seen: set<string>)
    requires Script(script) && page <= MAX_LISTING_PAGES
    ensures var walk := WalkFrom(script, page, seen);
            && page + walk.pages <= MAX_LISTING_PAGES
            && |walk.cursors| == walk.pages - (if walk.stop.LastPage? || walk.stop.RepeatedCursor? then 1 else 0)
            && (forall i :: 0 <= i < |walk.cursors| ==> walk.cursors[i] !in seen)
            && (forall i, j :: 0 <= i < j < |walk.cursors| ==> walk.cursors[i] != walk.cursors[j])
    decreases MAX_LISTING_PAGES - page
  {
    if page < MAX_LISTING_PAGES && script[page].Page? {
      var next := script[page].next;
      if next.Some? && next.value !in seen {
        WalkFacts(script, page + 1, seen + {next.value});
      }
    }
  }

  /** At most one request a page within the bound, and no cursor is sent twice. */
  lemma NoCursorSentTwice<T>(script: seq<Answer<T>>)
    requires Script(script)
    ensures var walk := WalkOf(script);
            && RequestCount(walk) <= |walk.cursors| + 1
            && |Requests(walk)| <= MAX_LISTING_PAGES
            && forall i, j :: 0 <= i < j < |Requests(walk)| ==> Requests(walk)[i] != Requests(walk)[j]
  {
    WalkFacts(script, 0, {});
    RaisedWithinScript(script, 0, {});
  }

  lemma {:induction false} RaisedWithinScript<T>(script: seq<Answer<T>>, page: nat, seen: set<string>)
    requires Script(script) && page <= MAX_LISTING_PAGES
    ensures var walk := WalkFrom(script, page, seen);
            && (walk.stop.PageRaised? ==> page + walk.pages < MAX_LISTING_PAGES
                                          && script[page + walk.pages] == Raised(walk.stop.failure))
            && (walk.stop == LastPage <==>
                  walk.pages > 0 && page + walk.pages <= MAX_LISTING_PAGES
                  && script[page + walk.pages - 1].Page? && script[page + walk.pages - 1].next.None?)
    decreases MAX_LISTING_PAGES - page
  {
    if page < MAX_LISTING_PAGES && script[page].Page? {
      var next := script[page].next;
      if next.Some? && next.value !in seen {
        RaisedWithinScript(script, page + 1, seen + {next.value});
      }
    }
  }

  ghost function ItemsOf<T>(script: seq<Answer<T>>, pages: nat): seq<T>
    requires pages <= |script| && forall k :: 0 <= k < pages ==> script[k].Page?
  {
    if pages == 0 then [] else ItemsOf(script, pages - 1) + script[pages - 1].items
  }

  /** The items collected are those of the pages received, in order. */
  lemma {:induction false} WalkItems<T>(walk: Walk<T>, script: seq<Answer<T>>, page: nat, seen: set<string>,
                                        items: seq<T>, cursors: seq<string>)
    requires Reached(walk, script, page, seen, items, cursors)
    requires (forall k :: 0 <= k < page ==> script[k].Page?) && items == ItemsOf(script, page)
    ensures walk.pages <= MAX_LISTING_PAGES && forall k :: 0 <= k < walk.pages ==> script[k].Page?
    ensures walk.items == ItemsOf(script, walk.pages)
    decreases MAX_LISTING_PAGES - page
  {
    if page == MAX_LISTING_PAGES || script[page].Raised? {
      StoppedHere(walk, script, page, seen, items, cursors);
    } else if script[page].next.None? || script[page].next.value in seen {
      EndedHere(walk, script, page, seen, items, cursors);
    } else {
      var cursor := script[page].next.value;
      OnePageMore(walk, script, page, seen, items, cursors);
      WalkItems(walk, script, page + 1, seen + {cursor}, items + script[page].items, cursors + [cursor]);
    }
  }

  // ---------- where a walk ends ----------

  /** After `n` pages from `page` on, the last of them, if any, named a cursor that is new. */
  ghost predicate LeadsOn<T>(script: seq<Answer<T>>, page: nat, n: nat, seen: set<string>)
    requires page + n <= |script| && forall k :: page <= k < page + n ==> script[k].Page?
  {
    n > 0 ==>
      var next := script[page + n - 1].next;
      next.Some? && next.value !in seen && forall k :: page <= k < page + n - 1 ==> script[k].next != next
  }

  /** What the walk stops for after `n` pages, by the last page or by the next answer. */
  ghost predicate StopsFor<T>(script: seq<Answer<T>>, page: nat, n: nat, seen: set<string>, stop: Stop)
    requires Script(script) && page + n <= |script| && forall k :: page <= k < page + n ==> script[k].Page?
  {
    if LeadsOn(script, page, n, seen) then
      if page + n == 100 then stop == PageLimit
      else script[page + n].Raised? && stop == PageRaised(script[page + n].failure)
    else if script[page + n - 1].next.None? then stop == LastPage
    else stop == RepeatedCursor
  }

  lemma LeadsOnAfter<T>(script: seq<Answer<T>>, page: nat, n: nat, seen: set<string>)
    requires page + n + 1 <= |script| && forall k :: page <= k <= page + n ==> script[k].Page?
    requires script[page].next.Some? && script[page].next.value !in seen
    ensures LeadsOn(script, page, n + 1, seen) <==>
            LeadsOn(script, page + 1, n, seen + {script[page].next.value})
  {
  }

  lemma LeadsOnNone<T>(script: seq<Answer<T>>, page: nat, seen: set<string>)
    requires page <= |script|
    ensures LeadsOn(script, page, 0, seen)
  {
  }

  /** From `page` on, `n` pages arrived, each but the last with a new cursor, and the walk stopped for `stop`. */
  ghost predicate Ends<T>(script: seq<Answer<T>>, page: nat, seen: set<string>, n: nat, stop: Stop) {
    && Script(script) && page + n <= |script| && (forall k :: page <= k < page + n ==> script[k].Page?)
    && (forall m :: 0 <= m < n ==> LeadsOn(script, page, m, seen))
    && StopsFor(script, page, n, seen, stop)
  }

  lemma EndsLater<T>(script: seq<Answer<T>>, page: nat, seen: set<string>, n: nat, stop: Stop)
    requires page < |script| && script[page].Page?
    requires script[page].next.Some? && script[page].next.value !in seen
    requires Ends(script, page + 1, seen + {script[page].next.value}, n, stop)
    ensures Ends(script, page, seen, n + 1, stop)
  {
    hide LeadsOn;
    var more := seen + {script[page].next.value};
    forall m | 0 <= m < n + 1 ensures LeadsOn(script, page, m, seen) {
      if m > 0 {
        LeadsOnAfter(script, page, m - 1, seen);
      } else {
        LeadsOnNone(script, page, seen);
      }
    }
    LeadsOnAfter(script, page, n, seen);
    assert page + 1 + n == page + (n + 1);
    if n == 0 {
      LeadsOnNone(script, page + 1, more);
    }
  }

  lemma EndsHere<T>(script: seq<Answer<T>>, page: nat, seen: set<string>)
    requires Script(script) && page <= |script|
    ensures page == |script| ==> Ends(script, page, seen, 0, PageLimit)
    ensures page < |script| && script[page].Raised? ==> Ends(script, page, seen, 0, PageRaised(script[page].failure))
    ensures page < |script| && script[page].Page? && script[page].next.None? ==> Ends(script, page, seen, 1, LastPage)
    ensures page < |script| && script[page].Page? && script[page].next.Some? && script[page].next.value in seen ==>
            Ends(script, page, seen, 1, RepeatedCursor)
  {
  }

  /** The walk goes on exactly while pages name new cursors, follows each of them, and stops for what ends that. */
  lemma {:induction false} WalkStops<T>(script: seq<Answer<T>>, page: nat, seen: set<string>)
    requires Script(script) && page <= MAX_LISTING_PAGES
    ensures var walk := WalkFrom(script, page, seen);
            && Ends(script, page, seen, walk.pages, walk.stop)
            && NamesAll(script, page, walk.cursors)
    decreases MAX_LISTING_PAGES - page
  {
    EndsHere(script, page, seen);
    hide Ends;
    if page < MAX_LISTING_PAGES && script[page].Page? {
      var next := script[page].next;
      if next.Some? && next.value !in seen {
        var more := seen + {next.value};
        var rest := WalkFrom(script, page + 1, more);
        WalkStops(script, page + 1, more);
        EndsLater(script, page, seen, rest.pages, rest.stop);
        var cursors := WalkFrom(script, page, seen).cursors;
        assert cursors == [next.value] + rest.cursors;
        NamesMore(script, page, next.value, rest.cursors);
      }
    }
  }

  /** The pages from `page` on named these cursors. */
  ghost predicate NamesAll<T>(script: seq<Answer<T>>, page: nat, cursors: seq<string>) {
    forall k :: 0 <= k < |cursors| ==> Names(script, page + k, cursors[k])
  }

  lemma NamesMore<T>(script: seq<Answer<T>>, page: nat, cursor: string, cursors: seq<string>)
    requires Names(script, page, cursor) && NamesAll(script, page + 1, cursors)
    ensures NamesAll(script, page, [cursor] + cursors)
  {
    hide Names;
    var all := [cursor] + cursors;
    forall k | 0 <= k < |all| ensures Names(script, page + k, all[k]) {
      if k > 0 {
        assert Names(script, page + 1 + (k - 1), cursors[k - 1]);
      }
    }
  }

  /** Page `i` arrived and named that cursor. */
  ghost predicate Names<T>(script: seq<Answer<T>>, i: nat, cursor: string) {
    i < |script| && script[i].Page? && script[i].next == Some(cursor)
  }

  /**
   The whole walk: pages as long as each names a cursor no page before it named, at most 100 of them; the first
   request without a cursor and every later one with the cursor of the page before.
   */
  lemma WalkExactly<T>(script: seq<Answer<T>>)
    requires Script(script)
    ensures var walk := WalkOf(script);
            && walk.pages <= 100 && Ends(script, 0, {}, walk.pages, walk.stop)
            && |Requests(walk)| == walk.pages + (if walk.stop.PageRaised? then 1 else 0)
            && forall k :: 0 <= k < |Requests(walk)| ==> FollowsPage(script, k, Requests(walk)[k])
  {
    WalkStops(script, 0, {});
    WalkFacts(script, 0, {});
    EndsWithin(script, WalkOf(script).pages, WalkOf(script).stop);
    hide *;
    RequestsFollow(script, WalkOf(script));
  }

  /** Request `k` carries no cursor if it is the first, and otherwise the one the page before it named. */
  ghost predicate FollowsPage<T>(script: seq<Answer<T>>, k: nat, request: Option<string>) {
    if k == 0 then request == None else k <= |script| && script[k - 1].Page? && request == script[k - 1].next
  }

  /** The requests of a walk whose cursors are those its pages named. */
  lemma RequestsFollow<T>(script: seq<Answer<T>>, walk: Walk<T>)
    requires NamesAll(script, 0, walk.cursors)
    requires |walk.cursors| == walk.pages - (if walk.stop.LastPage? || walk.stop.RepeatedCursor? then 1 else 0)
    ensures |Requests(walk)| == walk.pages + (if walk.stop.PageRaised? then 1 else 0)
    ensures forall k :: 0 <= k < |Requests(walk)| ==> FollowsPage(script, k, Requests(walk)[k])
  {
    forall k | 0 <= k < |Requests(walk)|
      ensures FollowsPage(script, k, Requests(walk)[k])
    {
      if k > 0 {
        assert Names(script, 0 + (k - 1), walk.cursors[k - 1]);
      }
    }
  }

  lemma EndsWithin<T>(script: seq<Answer<T>>, n: nat, stop: Stop)
    requires Ends(script, 0, {}, n, stop)
    ensures n <= 100
  {
    hide LeadsOn, StopsFor;
  }

  // ---------- the client ----------

  /** Dropping a mark first makes no difference to setting it. */
  lemma MarkedAfresh<K, V>(names: set<K>, errors: map<K, V>, k: K, v: V)
    ensures names - {k} + {k} == names + {k} && (errors - {k})[k := v] == errors[k := v]
  {
  }

  // ---------- the loop's state ----------

  /** Between two pages: what was reached, what was sent, and the cursor to send next. */
  ghost predicate Walking<T>(walk: Walk<T>, script: seq<Answer<T>>, page: nat, seen: set<string>, items: seq<T>,
                             cursors: seq<string>, cursor: Option<string>, requests: seq<Option<string>>)
  {
    && Reached(walk, script, page, seen, items, cursors)
    && |cursors| == page && requests == Sent(cursors, page)
    && cursor == (if page == 0 then None else Some(cursors[page - 1]))
    && (page > 0 ==> script[0].Page?)
  }

  lemma WalkingAt<T>(walk: Walk<T>, script: seq<Answer<T>>, page: nat, seen: set<string>, items: seq<T>,
                     cursors: seq<string>, cursor: Option<string>, requests: seq<Option<string>>)
    requires Walking(walk, script, page, seen, items, cursors, cursor, requests)
    ensures |script| == MAX_LISTING_PAGES && (page > 0 ==> script[0].Page?)
  {
    hide WalkFrom, Sent;
  }

  lemma WalkStopped<T>(walk: Walk<T>, script: seq<Answer<T>>, page: nat, seen: set<string>, items: seq<T>,
                       cursors: seq<string>, cursor: Option<string>, requests: seq<Option<string>>)
    requires page < MAX_LISTING_PAGES && |requests| > 0 && requests[|requests| - 1] == cursor
    requires Walking(walk, script, page, seen, items, cursors, cursor, requests[..|requests| - 1])
    requires script[page].Raised?
    ensures walk.items == items && walk.pages == page && walk.stop == PageRaised(script[page].failure)
    ensures requests == Requests(walk)
  {
    StoppedHere(walk, script, page, seen, items, cursors);
    SentOneMore(cursors, page);
    assert requests == requests[..|requests| - 1] + [cursor];
    hide Reached, Sent;
  }

  lemma WalkEnded<T>(walk: Walk<T>, script: seq<Answer<T>>, page: nat, seen: set<string>, items: seq<T>,
                     cursors: seq<string>, cursor: Option<string>, requests: seq<Option<string>>)
    requires page < MAX_LISTING_PAGES && |requests| > 0 && requests[|requests| - 1] == cursor
    requires Walking(walk, script, page, seen, items, cursors, cursor, requests[..|requests| - 1])
    requires script[page].Page? && (script[page].next.Some? ==> script[page].next.value in seen)
    ensures walk.items == items + script[page].items
    ensures walk.stop == if script[page].next.None? then LastPage else RepeatedCursor
    ensures requests == Requests(walk) && script[0].Page?
  {
    EndedHere(walk, script, page, seen, items, cursors);
    SentOneMore(cursors, page);
    assert requests == requests[..|requests| - 1] + [cursor];
    hide Reached, Sent;
  }

  lemma WalkGoesOn<T>(walk: Walk<T>, script: seq<Answer<T>>, page: nat, seen: set<string>, items: seq<T>,
                      cursors: seq<string>, cursor: Option<string>, requests: seq<Option<string>>)
    requires page < MAX_LISTING_PAGES && |requests| > 0 && requests[|requests| - 1] == cursor
    requires Walking(walk, script, page, seen, items, cursors, cursor, requests[..|requests| - 1])
    requires script[page].Page? && script[page].next.Some? && script[page].next.value !in seen
    ensures var next := script[page].next;
            Walking(walk, script, page + 1, seen + {next.value}, items + script[page].items, cursors + [next.value],
                    next, requests)
  {
    OnePageMore(walk, script, page, seen, items, cursors);
    SentOneMore(cursors, page);
    SentBefore(cursors, script[page].next.value, page + 1);
    assert requests == requests[..|requests| - 1] + [cursor];
    hide Reached, Sent;
  }

  lemma WalkLimited<T>(walk: Walk<T>, script: seq<Answer<T>>, seen: set<string>, items: seq<T>,
                       cursors: seq<string>, cursor: Option<string>, requests: seq<Option<string>>)
    requires Walking(walk, script, MAX_LISTING_PAGES, seen, items, cursors, cursor, requests)
    ensures walk.items == items && walk.stop == PageLimit && requests == Requests(walk) && script[0].Page?
  {
    StoppedHere(walk, script, MAX_LISTING_PAGES, seen, items, cursors);
    hide Reached, Sent;
  }


  class Client {
    var incompleteListings: set<string>
    var listingErrors: map<string, ListingError>

    constructor ()
      ensures incompleteListings == {} && listingErrors == map[]
    {
      incompleteListings, listingErrors := {}, map[];
    }

    method RecordFailure(listing: string, failure: Failure, page: nat)
      modifies this
      ensures incompleteListings == old(incompleteListings) + {listing}
      ensures listingErrors == old(listingErrors)[listing := Diagnose(failure, page)]
    {
      incompleteListings := incompleteListings + {listing};
      listingErrors := listingErrors[listing := Diagnose(failure, page)];
    }

    /** `_list_all_pages`, against any server; `requests` are the cursors sent, the first request without one. */
    method ListAllPages<T>(script: seq<Answer<T>>, listing: string)
      returns (collected: Option<seq<T>>, ghost requests: seq<Option<string>>)
      requires Script(script)
      modifies this
      // Nothing was collected exactly when the very first page failed; otherwise every page received is kept.
      ensures collected == if script[0].Raised? then None else Some(WalkOf(script).items)
      // The listing is marked incomplete exactly when no page without a cursor was reached; others keep their mark.
      ensures incompleteListings == if WalkOf(script).stop == LastPage then old(incompleteListings) - {listing}
                                    else old(incompleteListings) + {listing}
      // An error is recorded exactly when a page request raised, with the number of pages collected before it.
      ensures listingErrors ==
              if WalkOf(script).stop.PageRaised?
              then old(listingErrors)[listing := Diagnose(WalkOf(script).stop.failure, WalkOf(script).pages)]
              else old(listingErrors) - {listing}
      ensures requests == Requests(WalkOf(script))
    {
      ghost var walk := WalkOf(script);
      var items: seq<T> := [];
      var seen: set<string> := {};
      var cursor: Option<string> := None;
      ghost var cursors: seq<string> := [];
      requests := [];
      incompleteListings := incompleteListings - {listing};
      listingErrors := listingErrors - {listing};
      assert Walking(walk, script, 0, seen, items, cursors, cursor, requests);
      hide *;
      for page := 0 to MAX_LISTING_PAGES
        invariant Walking(walk, script, page, seen, items, cursors, cursor, requests)
        invariant incompleteListings == old(incompleteListings) - {listing}
        invariant listingErrors == old(listingErrors) - {listing}
      {
        WalkingAt(walk, script, page, seen, items, cursors, cursor, requests);
        assert (requests + [cursor])[..|requests|] == requests;
        requests := requests + [cursor];
        var answer := script[page];
        if answer.Raised? {
          WalkStopped(walk, script, page, seen, items, cursors, cursor, requests);
          MarkedAfresh(old(incompleteListings), old(listingErrors), listing, Diagnose(answer.failure, page));
          RecordFailure(listing, answer.failure, page);
          collected := if page == 0 then None else Some(items);
          return;
        }
        ghost var before := items;
        items := items + answer.items;
        if answer.next.None? || answer.next.value in seen {
          WalkEnded(walk, script, page, seen, before, cursors, cursor, requests);
          if answer.next.Some? {
            incompleteListings := incompleteListings + {listing};
          }
          return Some(items), requests;
        }
        WalkGoesOn(walk, script, page, seen, before, cursors, cursor, requests);
        seen := seen + {answer.next.value};
        cursor := answer.next;
        cursors := cursors + [answer.next.value];
      }
      WalkLimited(walk, script, seen, items, cursors, cursor, requests);
      incompleteListings := incompleteListings + {listing};
      collected := Some(items);
    }
  }
}
