/** GGRickMorty's episode list screen (`GGEpisodeViewModel`): pages are appended to
    `episodes` one after another, a next-page flag that is never raised again stops
    later fetches, and the search result is kept in a list of its own. */
module GGEpisodeList {
  import opened Wrappers
  import opened Seqs
  import opened Text
  import opened Models
  import opened Projection
  import opened Services
  import opened Repositories
  import opened Paging

  function EpisodeName(e: Episode): string {
    e.name
  }

  class GGEpisodeViewModel {
    var episodes: seq<Episode>
    var searchedEpisodes: seq<Episode>
    var isSearchBarActive: bool
    var isNextPageAvailable: bool

    /** The search result is made of held episodes, in their order. */
    predicate Valid()
      reads this`episodes, this`searchedEpisodes
    {
      IsSubsequence(searchedEpisodes, episodes)
    }

    constructor ()
      ensures Valid()
      ensures episodes == [] && searchedEpisodes == [] && !isSearchBarActive && isNextPageAvailable
    {
      episodes := [];
      searchedEpisodes := [];
      isSearchBarActive := false;
      isNextPageAvailable := true;
    }

    /** `fetchAllEpisodes(page:completion:)`: `response` is the service's answer for the
        page. A decoded envelope sets the flag from its `next` link and hands on its
        results; a failure is handed on and leaves the flag alone. */
    method FetchAllEpisodes(response: Result<Envelope<Episode>, ServiceError>)
      returns (completion: Result<seq<Episode>, ServiceError>)
      modifies this`isNextPageAvailable
      ensures response.Success? ==>
        completion == Success(response.value.results) && isNextPageAvailable == HasNextPage(response.value.info.next)
      ensures response.Failure? ==>
        completion == Failure(response.error) && isNextPageAvailable == old(isNextPageAvailable)
    {
      match response
      case Success(envelope) =>
        isNextPageAvailable := HasNextPage(envelope.info.next);
        completion := Success(envelope.results);
      case Failure(e) =>
        completion := Failure(e);
    }

    /** `fetchEpisodes(limit:completion:)`: from page 1, each page is asked for once the
        one before it was answered, while the page is within the limit and the flag is up;
        the flag is not raised first, so once a page reported no next page every later
        call asks for nothing. `respond` is the service's answer for each page number; the
        outcome is `GGFetch`. */
    method FetchEpisodes(limit: int, respond: int -> Result<Envelope<Episode>, ServiceError>)
      returns (requested: seq<int>, completion: Result<seq<Episode>, ServiceError>)
      requires Valid()
      modifies this`episodes, this`isNextPageAvailable
      ensures GGOutcome(episodes, isNextPageAvailable, requested, completion)
           == GGFetch(1, limit, old(isNextPageAvailable), old(episodes), respond)
      ensures Valid()
    {
      ghost var target := GGFetch(1, limit, isNextPageAvailable, episodes, respond);
      var page := 1;
      requested := [];
      while page <= limit && isNextPageAvailable
        invariant Valid()
        invariant var r := GGFetch(page, limit, isNextPageAvailable, episodes, respond);
          r.(requested := requested + r.requested) == target
        decreases limit - page
      {
        var done, pageCompletion := FetchPage(page, limit, respond);
        if done {
          requested := requested + [page];
          completion := pageCompletion;
          return;
        }
        ghost var rest := GGFetch(page + 1, limit, isNextPageAvailable, episodes, respond);
        assert (requested + [page]) + rest.requested == requested + ([page] + rest.requested);
        requested := requested + [page];
        page := page + 1;
      }
      GGFetchStep(page, limit, isNextPageAvailable, episodes, respond);
      completion := Success(episodes);
    }

    /** One pass of the loop in `fetchEpisodes`: the page is asked for and its answer is
        applied. `done` says the loop ends here, with `completion` handed on; otherwise the
        fetch goes on from the next page. */
    method FetchPage(page: int, limit: int, respond: int -> Result<Envelope<Episode>, ServiceError>)
      returns (done: bool, completion: Result<seq<Episode>, ServiceError>)
      requires Valid() && page <= limit && isNextPageAvailable
      modifies this`episodes, this`isNextPageAvailable
      ensures Valid()
      ensures var r := GGFetch(page, limit, true, old(episodes), respond);
        if done then GGOutcome(episodes, isNextPageAvailable, [page], completion) == r
        else
          && page < limit
          && var rest := GGFetch(page + 1, limit, isNextPageAvailable, episodes, respond);
          r == rest.(requested := [page] + rest.requested)
    {
      GGFetchStep(page, limit, true, episodes, respond);
      var result := FetchAllEpisodes(respond(page));
      if result.Failure? {
        return true, Failure(result.error);
      }
      AppendResponse(result.value);
      if page == limit {
        return true, Success(result.value);
      }
      return false, Success(result.value);
    }

    /** Appends one page's episodes; the search result stays made of held ones. */
    method AppendResponse(response: seq<Episode>)
      requires Valid()
      modifies this`episodes
      ensures episodes == old(episodes) + response
      ensures Valid()
    {
      SubsequenceExtend(searchedEpisodes, episodes, response);
      episodes := episodes + response;
    }

    /** `searchForEpisodes(with:)`: always over every held episode, whatever the state
        of the search bar. */
    method SearchForEpisodes(term: string)
      modifies this`searchedEpisodes
      ensures searchedEpisodes == NameSearch(episodes, EpisodeName, term)
      ensures Valid()
    {
      searchedEpisodes := NameSearch(episodes, EpisodeName, term);
      NameSearchIsSubsequence(episodes, EpisodeName, term);
    }

    /** The list the screen shows: the search result while the search bar is active. */
    function Source(): (r: seq<Episode>)
      reads this`episodes, this`searchedEpisodes, this`isSearchBarActive
    {
      if isSearchBarActive then searchedEpisodes else episodes
    }

    /** `getNumberOfItems`: never more than the episodes held. */
    method GetNumberOfItems() returns (n: int)
      requires Valid()
      ensures n == |Source()| && n <= |episodes|
      ensures !isSearchBarActive ==> n == |episodes|
    {
      if isSearchBarActive {
        n := |searchedEpisodes|;
        SubsequenceLength(searchedEpisodes, episodes);
      } else {
        n := |episodes|;
      }
    }

    /** `getEpisode(at:)`: the subscript is unchecked, so the index must be within the
        shown list; the episode returned is always a held one. */
    method GetEpisode(index: int) returns (e: Episode)
      requires Valid()
      requires 0 <= index < |Source()|
      ensures e == Source()[index] && e in episodes
    {
      if isSearchBarActive {
        e := searchedEpisodes[index];
        SubsequenceMembers(searchedEpisodes, episodes, e);
      } else {
        e := episodes[index];
      }
    }

    method SetIsSearchBarActive(isActive: bool)
      modifies this`isSearchBarActive
      ensures isSearchBarActive == isActive
    {
      isSearchBarActive := isActive;
    }
  }
}
