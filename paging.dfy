/** The sequential page loops of the list screens, as functions of the answer the
    service gives for each page number. RickNMorty's `fetchPages` stops at the limit,
    at a page without a next page, or at the first failure; GGRickMorty's `fetchNextPage`
    also hands a result to a completion handler, and its character variant has no
    next-page flag at all. For RickNMorty's loops, `respond(p)` stands for
    `Repositories.PageFromResponse` of the service's answer for page p. */
module Paging {
  import opened Wrappers
  import opened Seqs
  import opened Models
  import opened Services
  import opened Repositories

  /** The items the successful answers among `pages` carry, page after page. */
  function Received<R, T>(pages: seq<int>, respond: int -> Result<R, ServiceError>, itemsOf: R -> seq<T>): seq<T> {
    if pages == [] then []
    else (if respond(pages[0]).Success? then itemsOf(respond(pages[0]).value) else [])
         + Received(pages[1..], respond, itemsOf)
  }

  function PageItems<T>(p: Page<T>): seq<T> {
    p.items
  }

  function EnvelopeResults<T>(e: Envelope<T>): seq<T> {
    e.results
  }

  /** Page numbers `from, from + 1, ...`, in order and without gaps. */
  predicate Consecutive(pages: seq<int>, from: int) {
    forall i :: 0 <= i < |pages| ==> pages[i] == from + i
  }

  // RickNMorty: LocationViewModel.fetchPages / EpisodeViewModel.fetchPages

  /** Where `fetchPages(currentPage:limit:)` leaves the accumulated items and the
      next-page flag, which pages it asked for, and the error it stopped on, if any. */
  datatype FetchOutcome<T> = FetchOutcome(items: seq<T>, nextPageAvailable: bool, requested: seq<int>, error: Option<ServiceError>)

  function FetchPages<T>(page: int, limit: int, available: bool, items: seq<T>,
                         respond: int -> Result<Page<T>, ServiceError>): FetchOutcome<T>
    decreases limit - page
  {
    if !(page <= limit && available) then FetchOutcome(items, available, [], None)
    else match respond(page)
      case Failure(e) => FetchOutcome(items, available, [page], Some(e))
      case Success(p) =>
        if page == limit || !p.hasNextPage then FetchOutcome(items + p.items, p.hasNextPage, [page], None)
        else
          var r := FetchPages(page + 1, limit, p.hasNextPage, items + p.items, respond);
          r.(requested := [page] + r.requested)
  }

  /** One step of `FetchPages`, case by case: nothing to ask for, a failed page, a last
      page (the limit, or no next page), or an answered page after which the fetch goes
      on from the next page. */
  lemma FetchPagesStep<T>(page: int, limit: int, available: bool, items: seq<T>,
                          respond: int -> Result<Page<T>, ServiceError>)
    ensures !(page <= limit && available) ==>
      FetchPages(page, limit, available, items, respond) == FetchOutcome(items, available, [], None)
    ensures page <= limit && available && respond(page).Failure? ==>
      FetchPages(page, limit, available, items, respond) == FetchOutcome(items, available, [page], Some(respond(page).error))
    ensures page <= limit && available && respond(page).Success? ==>
      var p := respond(page).value;
      var r := FetchPages(page, limit, available, items, respond);
      if page == limit || !p.hasNextPage then r == FetchOutcome(items + p.items, p.hasNextPage, [page], None)
      else
        var rest := FetchPages(page + 1, limit, p.hasNextPage, items + p.items, respond);
        && r.items == rest.items && r.nextPageAvailable == rest.nextPageAvailable
        && r.requested == [page] + rest.requested && r.error == rest.error
  {
  }

  /** Pages are asked for in order from `page`, never past the limit, and none at all when
      the guard fails on entry. */
  lemma {:induction false} FetchPagesRequests<T>(page: int, limit: int, available: bool, items: seq<T>,
                                                  respond: int -> Result<Page<T>, ServiceError>)
    ensures Consecutive(FetchPages(page, limit, available, items, respond).requested, page)
    ensures |FetchPages(page, limit, available, items, respond).requested| <= if page <= limit then limit - page + 1 else 0
    ensures FetchPages(page, limit, available, items, respond).requested == [] <==> !(page <= limit && available)
    decreases limit - page
  {
    if page <= limit && available && respond(page).Success? && !(page == limit || !respond(page).value.hasNextPage) {
      var p := respond(page).value;
      FetchPagesRequests(page + 1, limit, p.hasNextPage, items + p.items, respond);
    }
  }

  /** The accumulator only grows: every answered page's items are appended, in page order. */
  lemma {:induction false} FetchPagesItems<T>(page: int, limit: int, available: bool, items: seq<T>,
                                               respond: int -> Result<Page<T>, ServiceError>)
    ensures FetchPages(page, limit, available, items, respond).items
         == items + Received(FetchPages(page, limit, available, items, respond).requested, respond, PageItems)
    decreases limit - page
  {
    var r := FetchPages(page, limit, available, items, respond);
    if page <= limit && available {
      match respond(page)
      case Failure(e) =>
        assert r.requested == [page];
        assert Received(r.requested, respond, PageItems) == [] + Received([page][1..], respond, PageItems);
      case Success(p) =>
        if page == limit || !p.hasNextPage {
          assert r.requested == [page];
          assert Received(r.requested, respond, PageItems) == p.items + Received([page][1..], respond, PageItems);
        } else {
          var rest := FetchPages(page + 1, limit, p.hasNextPage, items + p.items, respond);
          FetchPagesItems(page + 1, limit, p.hasNextPage, items + p.items, respond);
          assert r.requested == [page] + rest.requested;
          assert r.requested[1..] == rest.requested;
        }
    }
  }

  /** Every page before the last one asked for was below the limit and was answered
      with a next page: only such an answer lets the loop go on. */
  lemma {:induction false} FetchPagesContinued<T>(page: int, limit: int, available: bool, items: seq<T>,
                                                   respond: int -> Result<Page<T>, ServiceError>)
    ensures var r := FetchPages(page, limit, available, items, respond);
      forall i :: 0 <= i < |r.requested| - 1 ==>
        r.requested[i] < limit && respond(r.requested[i]).Success? && respond(r.requested[i]).value.hasNextPage
    decreases limit - page
  {
    var r := FetchPages(page, limit, available, items, respond);
    if page <= limit && available && respond(page).Success? && !(page == limit || !respond(page).value.hasNextPage) {
      var p := respond(page).value;
      var rest := FetchPages(page + 1, limit, p.hasNextPage, items + p.items, respond);
      FetchPagesContinued(page + 1, limit, p.hasNextPage, items + p.items, respond);
      FetchPagesStep(page, limit, available, items, respond);
      assert forall i :: 1 <= i < |r.requested| ==> r.requested[i] == rest.requested[i - 1];
    }
  }

  /** Why the loop stopped: with no page asked for, nothing changes; otherwise the last
      page failed (and then the error is its error), or reached the limit, or had no next
      page. The flag is the last answered page's. */
  lemma {:induction false} FetchPagesStop<T>(page: int, limit: int, available: bool, items: seq<T>,
                                              respond: int -> Result<Page<T>, ServiceError>)
    ensures var r := FetchPages(page, limit, available, items, respond);
      && (r.requested == [] ==> r.error == None && r.nextPageAvailable == available)
      && (r.requested != [] ==>
            var last := r.requested[|r.requested| - 1];
            && (r.error.Some? <==> respond(last).Failure?)
            && (r.error.Some? ==> r.error.value == respond(last).error)
            && (respond(last).Success? ==>
                  && r.nextPageAvailable == respond(last).value.hasNextPage
                  && (last == limit || !respond(last).value.hasNextPage)))
    decreases limit - page
  {
    if page <= limit && available && respond(page).Success? && !(page == limit || !respond(page).value.hasNextPage) {
      var p := respond(page).value;
      var rest := FetchPages(page + 1, limit, p.hasNextPage, items + p.items, respond);
      FetchPagesStop(page + 1, limit, p.hasNextPage, items + p.items, respond);
      FetchPagesRequests(page + 1, limit, p.hasNextPage, items + p.items, respond);
      FetchPagesStep(page, limit, available, items, respond);
      assert rest.requested != [];
    }
  }

  // GGRickMorty: GGLocationViewModel.fetchLocations / GGEpisodeViewModel.fetchEpisodes

  /** Where `fetchNextPage` leaves the accumulator and the next-page flag, which pages it
      asked for, and what it hands to the completion handler. */
  datatype GGOutcome<T> = GGOutcome(items: seq<T>, nextPageAvailable: bool, requested: seq<int>,
                                    completion: Result<seq<T>, ServiceError>)

  function GGFetch<T>(page: int, limit: int, available: bool, items: seq<T>,
                      respond: int -> Result<Envelope<T>, ServiceError>): GGOutcome<T>
    decreases limit - page
  {
    if page <= limit && available then
      match respond(page)
      case Failure(e) => GGOutcome(items, available, [page], Failure(e))
      case Success(env) =>
        var flag := HasNextPage(env.info.next);
        if page == limit then GGOutcome(items + env.results, flag, [page], Success(env.results))
        else
          var r := GGFetch(page + 1, limit, flag, items + env.results, respond);
          r.(requested := [page] + r.requested)
    else GGOutcome(items, available, [], Success(items))
  }

  /** One step of `GGFetch`, case by case: nothing to ask for, a failed page, the limit
      page answered, or an answered page below the limit after which the fetch goes on
      from the next page with the flag that page reported. */
  lemma GGFetchStep<T>(page: int, limit: int, available: bool, items: seq<T>,
                       respond: int -> Result<Envelope<T>, ServiceError>)
    ensures !(page <= limit && available) ==>
      GGFetch(page, limit, available, items, respond) == GGOutcome(items, available, [], Success(items))
    ensures page <= limit && available && respond(page).Failure? ==>
      GGFetch(page, limit, available, items, respond) == GGOutcome(items, available, [page], Failure(respond(page).error))
    ensures page == limit && available && respond(page).Success? ==>
      var env := respond(page).value;
      GGFetch(page, limit, available, items, respond)
        == GGOutcome(items + env.results, HasNextPage(env.info.next), [page], Success(env.results))
    ensures page < limit && available && respond(page).Success? ==>
      var env := respond(page).value;
      var r := GGFetch(page, limit, available, items, respond);
      var rest := GGFetch(page + 1, limit, HasNextPage(env.info.next), items + env.results, respond);
      && r.items == rest.items && r.nextPageAvailable == rest.nextPageAvailable
      && r.requested == [page] + rest.requested && r.completion == rest.completion
  {
  }

  /** Pages are asked for in order from `page`, at most up to the limit; with the flag
      down, no page is asked for at all, so a repeat fetch after the last page only hands
      back the accumulator. */
  lemma {:induction false} GGFetchRequests<T>(page: int, limit: int, available: bool, items: seq<T>,
                                               respond: int -> Result<Envelope<T>, ServiceError>)
    ensures Consecutive(GGFetch(page, limit, available, items, respond).requested, page)
    ensures |GGFetch(page, limit, available, items, respond).requested| <= if page <= limit then limit - page + 1 else 0
    ensures GGFetch(page, limit, available, items, respond).requested == [] <==> !(page <= limit && available)
    ensures !available ==> GGFetch(page, limit, available, items, respond) == GGOutcome(items, false, [], Success(items))
    decreases limit - page
  {
    if page <= limit && available && respond(page).Success? && page != limit {
      var env := respond(page).value;
      GGFetchRequests(page + 1, limit, HasNextPage(env.info.next), items + env.results, respond);
    }
  }

  /** Every answered page is appended to the accumulator, in page order. */
  lemma {:induction false} GGFetchItems<T>(page: int, limit: int, available: bool, items: seq<T>,
                                            respond: int -> Result<Envelope<T>, ServiceError>)
    ensures GGFetch(page, limit, available, items, respond).items
         == items + Received(GGFetch(page, limit, available, items, respond).requested, respond, EnvelopeResults)
    decreases limit - page
  {
    var r := GGFetch(page, limit, available, items, respond);
    if page <= limit && available {
      match respond(page)
      case Failure(e) =>
        assert Received(r.requested, respond, EnvelopeResults) == [] + Received([page][1..], respond, EnvelopeResults);
      case Success(env) =>
        if page == limit {
          assert Received(r.requested, respond, EnvelopeResults) == env.results + Received([page][1..], respond, EnvelopeResults);
        } else {
          var rest := GGFetch(page + 1, limit, HasNextPage(env.info.next), items + env.results, respond);
          GGFetchItems(page + 1, limit, HasNextPage(env.info.next), items + env.results, respond);
          assert r.requested[1..] == rest.requested;
        }
    }
  }

  /** What the completion handler receives: the error of a failed page; only the last
      page's results when the limit page is answered; the whole accumulator when the loop
      stops early because a page had no next page (or no page was asked for). */
  lemma {:induction false} GGFetchCompletion<T>(page: int, limit: int, available: bool, items: seq<T>,
                                                 respond: int -> Result<Envelope<T>, ServiceError>)
    ensures var r := GGFetch(page, limit, available, items, respond);
      && (r.requested == [] ==> r.completion == Success(items))
      && (r.requested != [] ==>
            var last := r.requested[|r.requested| - 1];
            && (respond(last).Failure? ==> r.completion == Failure(respond(last).error) && r.items == items + Received(r.requested, respond, EnvelopeResults))
            && (respond(last).Success? && last == limit ==> r.completion == Success(respond(last).value.results))
            && (respond(last).Success? && last != limit ==> r.completion == Success(r.items) && !r.nextPageAvailable)
            && (respond(last).Success? ==> r.nextPageAvailable == HasNextPage(respond(last).value.info.next)))
    decreases limit - page
  {
    var r := GGFetch(page, limit, available, items, respond);
    GGFetchItems(page, limit, available, items, respond);
    if page <= limit && available && respond(page).Success? && page != limit {
      var env := respond(page).value;
      var flag := HasNextPage(env.info.next);
      var rest := GGFetch(page + 1, limit, flag, items + env.results, respond);
      GGFetchCompletion(page + 1, limit, flag, items + env.results, respond);
      GGFetchItems(page + 1, limit, flag, items + env.results, respond);
      GGFetchRequests(page + 1, limit, flag, items + env.results, respond);
      assert r.requested == [page] + rest.requested;
      if rest.requested == [] {
        assert !flag;
      } else {
        assert r.requested[|r.requested| - 1] == rest.requested[|rest.requested| - 1];
      }
    }
  }

  // GGRickMorty: GGCharacterListViewModel.fetchCharacters

  /** The character loop: like `GGFetch` but with no next-page flag, so every page up to
      the limit is asked for unless one fails (the outcome's flag is always down). */
  function GGFetchAll<T>(page: int, limit: int, items: seq<T>,
                         respond: int -> Result<Envelope<T>, ServiceError>): GGOutcome<T>
    decreases limit - page
  {
    if page <= limit then
      match respond(page)
      case Failure(e) => GGOutcome(items, false, [page], Failure(e))
      case Success(env) =>
        if page == limit then GGOutcome(items + env.results, false, [page], Success(env.results))
        else
          var r := GGFetchAll(page + 1, limit, items + env.results, respond);
          r.(requested := [page] + r.requested)
    else GGOutcome(items, false, [], Success(items))
  }

  /** Pages are asked for strictly in order, each only after the one before it was
      answered, with no next-page check: every page before the last one asked for was
      answered, and nothing is asked for past the limit. */
  lemma {:induction false} GGFetchAllRequests<T>(page: int, limit: int, items: seq<T>,
                                                  respond: int -> Result<Envelope<T>, ServiceError>)
    ensures var r := GGFetchAll(page, limit, items, respond);
      && Consecutive(r.requested, page)
      && (forall i :: 0 <= i < |r.requested| - 1 ==> respond(r.requested[i]).Success?)
      && (r.requested == [] <==> page > limit)
      && (page > limit ==> r.completion == Success(items))
    decreases limit - page
  {
    if page <= limit && respond(page).Success? && page != limit {
      var env := respond(page).value;
      GGFetchAllRequests(page + 1, limit, items + env.results, respond);
    }
  }

  /** The accumulator grows by the results of every page asked for, in order. */
  lemma {:induction false} GGFetchAllItems<T>(page: int, limit: int, items: seq<T>,
                                               respond: int -> Result<Envelope<T>, ServiceError>)
    ensures GGFetchAll(page, limit, items, respond).items
         == items + Received(GGFetchAll(page, limit, items, respond).requested, respond, EnvelopeResults)
    decreases limit - page
  {
    var r := GGFetchAll(page, limit, items, respond);
    if page <= limit {
      match respond(page)
      case Failure(e) =>
        assert Received(r.requested, respond, EnvelopeResults) == [] + Received([page][1..], respond, EnvelopeResults);
      case Success(env) =>
        if page == limit {
          assert Received(r.requested, respond, EnvelopeResults) == env.results + Received([page][1..], respond, EnvelopeResults);
        } else {
          var rest := GGFetchAll(page + 1, limit, items + env.results, respond);
          GGFetchAllItems(page + 1, limit, items + env.results, respond);
          assert r.requested[1..] == rest.requested;
        }
    }
  }

  /** The first failure stops the loop and goes to the completion handler; otherwise the
      loop runs to the limit and hands on only the last page's results. */
  lemma {:induction false} GGFetchAllCompletion<T>(page: int, limit: int, items: seq<T>,
                                                    respond: int -> Result<Envelope<T>, ServiceError>)
    requires page <= limit
    ensures var r := GGFetchAll(page, limit, items, respond);
      && r.requested != []
      && var last := r.requested[|r.requested| - 1];
      && (respond(last).Failure? ==> r.completion == Failure(respond(last).error))
      && (respond(last).Success? ==> last == limit && r.completion == Success(respond(last).value.results))
    decreases limit - page
  {
    var r := GGFetchAll(page, limit, items, respond);
    if respond(page).Success? && page != limit {
      var env := respond(page).value;
      var rest := GGFetchAll(page + 1, limit, items + env.results, respond);
      GGFetchAllCompletion(page + 1, limit, items + env.results, respond);
      assert r.requested[|r.requested| - 1] == rest.requested[|rest.requested| - 1];
    }
  }
}
