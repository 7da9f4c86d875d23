/** GGRickMorty's location list screen (`GGLocationViewModel`): pages are appended to
    `locations` one after another, a next-page flag that is never raised again stops
    later fetches, and the search result is kept in a list of its own. */
module GGLocationList {
  import opened Wrappers
  import opened Seqs
  import opened Text
  import opened Models
  import opened Projection
  import opened Services
  import opened Repositories
  import opened Paging

  function LocationName(l: Location): string {
    l.name
  }

  class GGLocationViewModel {
    var locations: seq<Location>
    var searchedLocations: seq<Location>
    var isSearchBarActive: bool
    var isNextPageAvailable: bool

    /** The search result is made of held locations, in their order. */
    predicate Valid()
      reads this`locations, this`searchedLocations
    {
      IsSubsequence(searchedLocations, locations)
    }

    constructor ()
      ensures Valid()
      ensures locations == [] && searchedLocations == [] && !isSearchBarActive && isNextPageAvailable
    {
      locations := [];
      searchedLocations := [];
      isSearchBarActive := false;
      isNextPageAvailable := true;
    }

    /** `fetchAllLocations(page:completion:)`: `response` is the service's answer for the
        page. A decoded envelope sets the flag from its `next` link and hands on its
        results; a failure is handed on and leaves the flag alone. */
    method FetchAllLocations(response: Result<Envelope<Location>, ServiceError>)
      returns (completion: Result<seq<Location>, ServiceError>)
      modifies this`isNextPageAvailable
      ensures response.Success? ==>
        completion == Success(response.value.results) && isNextPageAvailable == HasNextPage(response.value.info.next)
      ensures response.Failure? ==>
        completion == Failure(response.error) && isNextPageAvailable == old(isNextPageAvailable)
    {
      match response
      case Success(envelope) =>
        isNextPageAvailable := HasNextPage(envelope.info.next);
        completion := Success(envelope.results);
      case Failure(e) =>
        completion := Failure(e);
    }

    /** `fetchLocations(limit:completion:)`: from page 1, each page is asked for once the
        one before it was answered, while the page is within the limit and the flag is up;
        the flag is not raised first, so once a page reported no next page every later
        call asks for nothing. `respond` is the service's answer for each page number; the
        outcome is `GGFetch`. */
    method FetchLocations(limit: int, respond: int -> Result<Envelope<Location>, ServiceError>)
      returns (requested: seq<int>, completion: Result<seq<Location>, ServiceError>)
      requires Valid()
      modifies this`locations, this`isNextPageAvailable
      ensures GGOutcome(locations, isNextPageAvailable, requested, completion)
           == GGFetch(1, limit, old(isNextPageAvailable), old(locations), respond)
      ensures Valid()
    {
      ghost var target := GGFetch(1, limit, isNextPageAvailable, locations, respond);
      var page := 1;
      requested := [];
      while page <= limit && isNextPageAvailable
        invariant Valid()
        invariant var r := GGFetch(page, limit, isNextPageAvailable, locations, respond);
          r.(requested := requested + r.requested) == target
        decreases limit - page
      {
        var done, pageCompletion := FetchPage(page, limit, respond);
        if done {
          requested := requested + [page];
          completion := pageCompletion;
          return;
        }
        ghost var rest := GGFetch(page + 1, limit, isNextPageAvailable, locations, respond);
        assert (requested + [page]) + rest.requested == requested + ([page] + rest.requested);
        requested := requested + [page];
        page := page + 1;
      }
      GGFetchStep(page, limit, isNextPageAvailable, locations, respond);
      completion := Success(locations);
    }

    /** One pass of the loop in `fetchLocations`: the page is asked for and its answer is
        applied. `done` says the loop ends here, with `completion` handed on; otherwise the
        fetch goes on from the next page. */
    method FetchPage(page: int, limit: int, respond: int -> Result<Envelope<Location>, ServiceError>)
      returns (done: bool, completion: Result<seq<Location>, ServiceError>)
      requires Valid() && page <= limit && isNextPageAvailable
      modifies this`locations, this`isNextPageAvailable
      ensures Valid()
      ensures var r := GGFetch(page, limit, true, old(locations), respond);
        if done then GGOutcome(locations, isNextPageAvailable, [page], completion) == r
        else
          && page < limit
          && var rest := GGFetch(page + 1, limit, isNextPageAvailable, locations, respond);
          r == rest.(requested := [page] + rest.requested)
    {
      GGFetchStep(page, limit, true, locations, respond);
      var result := FetchAllLocations(respond(page));
      if result.Failure? {
        return true, Failure(result.error);
      }
      AppendResponse(result.value);
      if page == limit {
        return true, Success(result.value);
      }
      return false, Success(result.value);
    }

    /** Appends one page's locations; the search result stays made of held ones. */
    method AppendResponse(response: seq<Location>)
      requires Valid()
      modifies this`locations
      ensures locations == old(locations) + response
      ensures Valid()
    {
      SubsequenceExtend(searchedLocations, locations, response);
      locations := locations + response;
    }

    /** `searchForLocations(with:)`: always over every held location, whatever the state
        of the search bar. */
    method SearchForLocations(term: string)
      modifies this`searchedLocations
      ensures searchedLocations == NameSearch(locations, LocationName, term)
      ensures Valid()
    {
      searchedLocations := NameSearch(locations, LocationName, term);
      NameSearchIsSubsequence(locations, LocationName, term);
    }

    /** The list the screen shows: the search result while the search bar is active. */
    function Source(): (r: seq<Location>)
      reads this`locations, this`searchedLocations, this`isSearchBarActive
    {
      if isSearchBarActive then searchedLocations else locations
    }

    /** `getNumberOfItems`: never more than the locations held. */
    method GetNumberOfItems() returns (n: int)
      requires Valid()
      ensures n == |Source()| && n <= |locations|
      ensures !isSearchBarActive ==> n == |locations|
    {
      if isSearchBarActive {
        n := |searchedLocations|;
        SubsequenceLength(searchedLocations, locations);
      } else {
        n := |locations|;
      }
    }

    /** `getCharacter(at:)`: the subscript is unchecked, so the index must be within the
        shown list; the location returned is always a held one. */
    method GetLocation(index: int) returns (l: Location)
      requires Valid()
      requires 0 <= index < |Source()|
      ensures l == Source()[index] && l in locations
    {
      if isSearchBarActive {
        l := searchedLocations[index];
        SubsequenceMembers(searchedLocations, locations, l);
      } else {
        l := locations[index];
      }
    }

    method SetIsSearchBarActive(isActive: bool)
      modifies this`isSearchBarActive
      ensures isSearchBarActive == isActive
    {
      isSearchBarActive := isActive;
    }
  }
}
