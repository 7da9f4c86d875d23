/** RickNMorty's location list screen (`LocationViewModel`): pages of locations are
    fetched one after another and appended, and the rows are the locations whose name
    matches the search. */
module LocationList {
  import opened Wrappers
  import opened Seqs
  import opened Text
  import opened Models
  import opened Projection
  import opened DisplayData
  import opened Services
  import opened Repositories
  import opened Paging

  function LocationName(l: Location): string {
    l.name
  }

  class LocationViewModel {
    var allLocations: seq<Location>
    var isNextPageAvailable: bool
    var displayLocations: seq<LocationDisplayData>
    var isLoading: bool
    var errorMessage: Option<ServiceError>
    var searchText: string
    var isSearchBarActive: bool
    /** The locations the rows were last computed from. */
    ghost var shown: seq<Location>

    function Visible(): seq<Location>
      reads this`allLocations, this`searchText, this`isSearchBarActive
    {
      Searched(allLocations, LocationName, searchText, isSearchBarActive)
    }

    /** The rows show, in order, some of the held locations. A failed fetch leaves the rows
        as they were while earlier pages may already have been appended, so the rows are
        not always the current search result; they are always held locations. */
    ghost predicate Valid()
      reads this`displayLocations, this`shown, this`allLocations
    {
      displayLocations == Map(LocationToDisplay, shown) && IsSubsequence(shown, allLocations)
    }

    constructor ()
      ensures Valid()
      ensures allLocations == [] && displayLocations == [] && isNextPageAvailable
      ensures !isLoading && errorMessage == None && searchText == "" && !isSearchBarActive
    {
      allLocations := [];
      isNextPageAvailable := true;
      displayLocations := [];
      isLoading := false;
      errorMessage := None;
      searchText := "";
      isSearchBarActive := false;
      shown := [];
    }

    /** `updateDisplayLocations`: the search step, then one row per location. */
    method UpdateDisplayLocations()
      modifies this`displayLocations, this`shown
      ensures Valid() && shown == Visible()
      ensures displayLocations == Map(LocationToDisplay, Visible())
    {
      var filtered := allLocations;
      if isSearchBarActive && searchText != "" {
        filtered := Searched(filtered, LocationName, searchText, isSearchBarActive);
      }
      displayLocations := Map(LocationToDisplay, filtered);
      shown := filtered;
      SearchedIsSubsequence(allLocations, LocationName, searchText, isSearchBarActive);
    }

    /** The value handler's first two steps: the page's locations are appended and the
        flag takes the page's value. The rows are left alone. */
    method AppendPage(p: Page<Location>)
      requires Valid()
      modifies this`allLocations, this`isNextPageAvailable
      ensures Valid()
      ensures allLocations == old(allLocations) + p.items && isNextPageAvailable == p.hasNextPage
    {
      SubsequenceExtend(shown, allLocations, p.items);
      allLocations := allLocations + p.items;
      isNextPageAvailable := p.hasNextPage;
    }

    /** `fetchLocations(limit:)`: the loading state is set, the error cleared and the flag
        raised, then the pages are fetched from page 1. `respond` is the repository's
        answer for each page number. The outcome is `FetchPages`; the rows are recomputed
        unless a page failed. */
    method FetchLocations(limit: int, respond: int -> Result<Page<Location>, ServiceError>)
      returns (requested: seq<int>)
      requires Valid()
      modifies this`allLocations, this`isNextPageAvailable, this`displayLocations, this`shown
      modifies this`isLoading, this`errorMessage
      ensures FetchOutcome(allLocations, isNextPageAvailable, requested, errorMessage)
           == FetchPages(1, limit, true, old(allLocations), respond)
      ensures errorMessage.None? ==> displayLocations == Map(LocationToDisplay, Visible())
      ensures errorMessage.Some? ==> displayLocations == old(displayLocations)
      ensures Valid() && !isLoading
    {
      isLoading := true;
      errorMessage := None;
      isNextPageAvailable := true;
      requested := FetchPagesFrom(1, limit, respond);
    }

    /** `fetchPages(currentPage:limit:)`: with the page past the limit or the flag down,
        the loading ends and the rows are recomputed; otherwise the page is asked for. A
        failure ends the loading with its error. An answered page is appended and sets the
        flag; the last one (the limit, or no next page) ends the loading and recomputes the
        rows, any other goes on with the next page. */
    method FetchPagesFrom(currentPage: int, limit: int, respond: int -> Result<Page<Location>, ServiceError>)
      returns (requested: seq<int>)
      requires Valid() && errorMessage == None
      modifies this`allLocations, this`isNextPageAvailable, this`displayLocations, this`shown
      modifies this`isLoading, this`errorMessage
      ensures FetchOutcome(allLocations, isNextPageAvailable, requested, errorMessage)
           == FetchPages(currentPage, limit, old(isNextPageAvailable), old(allLocations), respond)
      ensures errorMessage.None? ==> displayLocations == Map(LocationToDisplay, Visible())
      ensures errorMessage.Some? ==> displayLocations == old(displayLocations)
      ensures Valid() && !isLoading
      decreases limit - currentPage
    {
      FetchPagesStep(currentPage, limit, isNextPageAvailable, allLocations, respond);
      if !(currentPage <= limit && isNextPageAvailable) {
        isLoading := false;
        UpdateDisplayLocations();
        return [];
      }
      requested := [currentPage];
      match respond(currentPage)
      case Failure(e) =>
        isLoading := false;
        errorMessage := Some(e);
      case Success(p) =>
        AppendPage(p);
        if currentPage == limit || !p.hasNextPage {
          isLoading := false;
          UpdateDisplayLocations();
        } else {
          var rest := FetchPagesFrom(currentPage + 1, limit, respond);
          requested := [currentPage] + rest;
        }
    }

    method SearchForLocations(term: string, isActive: bool)
      modifies this
      ensures searchText == term && isSearchBarActive == isActive
      ensures Valid() && displayLocations == Map(LocationToDisplay, Visible())
      ensures allLocations == old(allLocations) && isNextPageAvailable == old(isNextPageAvailable)
      ensures isLoading == old(isLoading) && errorMessage == old(errorMessage)
    {
      searchText := term;
      isSearchBarActive := isActive;
      UpdateDisplayLocations();
    }

    /** `numberOfItems`: the row count, never more than the locations held. */
    method NumberOfItems() returns (n: int)
      requires Valid()
      ensures n == |displayLocations| && n <= |allLocations|
    {
      n := |displayLocations|;
      SubsequenceLength(shown, allLocations);
    }

    /** `location(at:)`: the subscript is unchecked, so the index must be a row; the row
        shows a held location. */
    method LocationAt(index: int) returns (d: LocationDisplayData)
      requires Valid()
      requires 0 <= index < |displayLocations|
      ensures d == displayLocations[index]
      ensures exists l :: l in allLocations && d == LocationToDisplay(l)
    {
      d := displayLocations[index];
      SubsequenceMembers(shown, allLocations, shown[index]);
    }

    /** `getOriginalLocation(at:)`: the first held location with the row's id. The
        force-unwrap never fails, because every row comes from a held location. */
    method GetOriginalLocation(index: int) returns (l: Location)
      requires Valid()
      requires 0 <= index < |displayLocations|
      ensures l in allLocations && l.id == displayLocations[index].id
      ensures exists k :: (0 <= k < |allLocations| && allLocations[k] == l
        && forall j :: 0 <= j < k ==> allLocations[j].id != l.id)
    {
      var id := displayLocations[index].id;
      SubsequenceMembers(shown, allLocations, shown[index]);
      ghost var m :| 0 <= m < |allLocations| && allLocations[m] == shown[index];
      var k := FirstIndex(allLocations, (x: Location) => x.id == id);
      l := allLocations[k];
      assert allLocations[k] == l;
    }
  }
}
