/** RickNMorty's episode list screen (`EpisodeViewModel`): pages of episodes are
    fetched one after another and appended, and the rows are the episodes whose name
    matches the search. */
module EpisodeList {
  import opened Wrappers
  import opened Seqs
  import opened Text
  import opened Models
  import opened Projection
  import opened DisplayData
  import opened Services
  import opened Repositories
  import opened Paging

  function EpisodeName(e: Episode): string {
    e.name
  }

  class EpisodeViewModel {
    var allEpisodes: seq<Episode>
    var isNextPageAvailable: bool
    var displayEpisodes: seq<EpisodeDisplayData>
    var isLoading: bool
    var errorMessage: Option<ServiceError>
    var searchText: string
    var isSearchBarActive: bool
    /** The episodes the rows were last computed from. */
    ghost var shown: seq<Episode>

    function Visible(): seq<Episode>
      reads this`allEpisodes, this`searchText, this`isSearchBarActive
    {
      Searched(allEpisodes, EpisodeName, searchText, isSearchBarActive)
    }

    /** The rows show, in order, some of the held episodes. A failed fetch leaves the rows
        as they were while earlier pages may already have been appended, so the rows are
        not always the current search result; they are always held episodes. */
    ghost predicate Valid()
      reads this`displayEpisodes, this`shown, this`allEpisodes
    {
      displayEpisodes == Map(EpisodeToDisplay, shown) && IsSubsequence(shown, allEpisodes)
    }

    constructor ()
      ensures Valid()
      ensures allEpisodes == [] && displayEpisodes == [] && isNextPageAvailable
      ensures !isLoading && errorMessage == None && searchText == "" && !isSearchBarActive
    {
      allEpisodes := [];
      isNextPageAvailable := true;
      displayEpisodes := [];
      isLoading := false;
      errorMessage := None;
      searchText := "";
      isSearchBarActive := false;
      shown := [];
    }

    /** `updateDisplayEpisodes`: the search step, then one row per episode. */
    method UpdateDisplayEpisodes()
      modifies this`displayEpisodes, this`shown
      ensures Valid() && shown == Visible()
      ensures displayEpisodes == Map(EpisodeToDisplay, Visible())
    {
      var filtered := allEpisodes;
      if isSearchBarActive && searchText != "" {
        filtered := Searched(filtered, EpisodeName, searchText, isSearchBarActive);
      }
      displayEpisodes := Map(EpisodeToDisplay, filtered);
      shown := filtered;
      SearchedIsSubsequence(allEpisodes, EpisodeName, searchText, isSearchBarActive);
    }

    /** The value handler's first two steps: the page's episodes are appended and the
        flag takes the page's value. The rows are left alone. */
    method AppendPage(p: Page<Episode>)
      requires Valid()
      modifies this`allEpisodes, this`isNextPageAvailable
      ensures Valid()
      ensures allEpisodes == old(allEpisodes) + p.items && isNextPageAvailable == p.hasNextPage
    {
      SubsequenceExtend(shown, allEpisodes, p.items);
      allEpisodes := allEpisodes + p.items;
      isNextPageAvailable := p.hasNextPage;
    }

    /** `fetchEpisodes(limit:)`: the loading state is set, the error cleared and the flag
        raised, then the pages are fetched from page 1. `respond` is the repository's
        answer for each page number. The outcome is `FetchPages`; the rows are recomputed
        unless a page failed. */
    method FetchEpisodes(limit: int, respond: int -> Result<Page<Episode>, ServiceError>)
      returns (requested: seq<int>)
      requires Valid()
      modifies this`allEpisodes, this`isNextPageAvailable, this`displayEpisodes, this`shown
      modifies this`isLoading, this`errorMessage
      ensures FetchOutcome(allEpisodes, isNextPageAvailable, requested, errorMessage)
           == FetchPages(1, limit, true, old(allEpisodes), respond)
      ensures errorMessage.None? ==> displayEpisodes == Map(EpisodeToDisplay, Visible())
      ensures errorMessage.Some? ==> displayEpisodes == old(displayEpisodes)
      ensures Valid() && !isLoading
    {
      isLoading := true;
      errorMessage := None;
      isNextPageAvailable := true;
      requested := FetchPagesFrom(1, limit, respond);
    }

    /** `fetchPages(currentPage:limit:)`: with the page past the limit or the flag down,
        the loading ends and the rows are recomputed; otherwise the page is asked for. A
        failure ends the loading with its error. An answered page is appended and sets the
        flag; the last one (the limit, or no next page) ends the loading and recomputes the
        rows, any other goes on with the next page. */
    method FetchPagesFrom(currentPage: int, limit: int, respond: int -> Result<Page<Episode>, ServiceError>)
      returns (requested: seq<int>)
      requires Valid() && errorMessage == None
      modifies this`allEpisodes, this`isNextPageAvailable, this`displayEpisodes, this`shown
      modifies this`isLoading, this`errorMessage
      ensures FetchOutcome(allEpisodes, isNextPageAvailable, requested, errorMessage)
           == FetchPages(currentPage, limit, old(isNextPageAvailable), old(allEpisodes), respond)
      ensures errorMessage.None? ==> displayEpisodes == Map(EpisodeToDisplay, Visible())
      ensures errorMessage.Some? ==> displayEpisodes == old(displayEpisodes)
      ensures Valid() && !isLoading
      decreases limit - currentPage
    {
      FetchPagesStep(currentPage, limit, isNextPageAvailable, allEpisodes, respond);
      if !(currentPage <= limit && isNextPageAvailable) {
        isLoading := false;
        UpdateDisplayEpisodes();
        return [];
      }
      requested := [currentPage];
      match respond(currentPage)
      case Failure(e) =>
        isLoading := false;
        errorMessage := Some(e);
      case Success(p) =>
        AppendPage(p);
        if currentPage == limit || !p.hasNextPage {
          isLoading := false;
          UpdateDisplayEpisodes();
        } else {
          var rest := FetchPagesFrom(currentPage + 1, limit, respond);
          requested := [currentPage] + rest;
        }
    }

    method SearchForEpisodes(term: string, isActive: bool)
      modifies this
      ensures searchText == term && isSearchBarActive == isActive
      ensures Valid() && displayEpisodes == Map(EpisodeToDisplay, Visible())
      ensures allEpisodes == old(allEpisodes) && isNextPageAvailable == old(isNextPageAvailable)
      ensures isLoading == old(isLoading) && errorMessage == old(errorMessage)
    {
      searchText := term;
      isSearchBarActive := isActive;
      UpdateDisplayEpisodes();
    }

    /** `numberOfItems`: the row count, never more than the episodes held. */
    method NumberOfItems() returns (n: int)
      requires Valid()
      ensures n == |displayEpisodes| && n <= |allEpisodes|
    {
      n := |displayEpisodes|;
      SubsequenceLength(shown, allEpisodes);
    }

    /** `episode(at:)`: the subscript is unchecked, so the index must be a row; the row
        shows a held episode. */
    method EpisodeAt(index: int) returns (d: EpisodeDisplayData)
      requires Valid()
      requires 0 <= index < |displayEpisodes|
      ensures d == displayEpisodes[index]
      ensures exists e :: e in allEpisodes && d == EpisodeToDisplay(e)
    {
      d := displayEpisodes[index];
      SubsequenceMembers(shown, allEpisodes, shown[index]);
    }

    /** `getOriginalEpisode(at:)`: the first held episode with the row's id. The
        force-unwrap never fails, because every row comes from a held episode. */
    method GetOriginalEpisode(index: int) returns (e: Episode)
      requires Valid()
      requires 0 <= index < |displayEpisodes|
      ensures e in allEpisodes && e.id == displayEpisodes[index].id
      ensures exists k :: (0 <= k < |allEpisodes| && allEpisodes[k] == e
        && forall j :: 0 <= j < k ==> allEpisodes[j].id != e.id)
    {
      var id := displayEpisodes[index].id;
      SubsequenceMembers(shown, allEpisodes, shown[index]);
      ghost var m :| 0 <= m < |allEpisodes| && allEpisodes[m] == shown[index];
      var k := FirstIndex(allEpisodes, (x: Episode) => x.id == id);
      e := allEpisodes[k];
      assert allEpisodes[k] == e;
    }
  }
}
