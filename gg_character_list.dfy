/** GGRickMorty's character list screen (`GGCharacterListViewModel`): pages of
    characters are appended one after another, and the search result and the filter
    result are kept in lists of their own; which list the screen shows depends on the
    search bar and on whether the filter matched anything. */
module GGCharacterList {
  import opened Wrappers
  import opened Seqs
  import opened Text
  import opened Models
  import opened Projection
  import opened Services
  import opened Paging

  /** The per-character rule of `applyFilter(filters:)`, branch by branch: no filter keeps
      every character, one filter must be hit, and with several the filters hit must be
      as many as the filters. */
  predicate GGPasses(c: Character, filters: seq<string>) {
    if |filters| == 0 then true
    else if |filters| == 1 then CharacterHits(c, filters[0])
    else |Keep(filters, f => CharacterHits(c, f))| == |filters|
  }

  /** All three branches mean "every selected value is hit", which is also RickNMorty's
      rule: both apps filter alike. */
  lemma GGPassesIffEveryFilterHits(c: Character, filters: seq<string>)
    ensures GGPasses(c, filters) <==> forall i :: 0 <= i < |filters| ==> CharacterHits(c, filters[i])
    ensures GGPasses(c, filters) <==> PassesFilters(c, filters, CharacterHits)
  {
    KeepAllIff(filters, f => CharacterHits(c, f));
    PassesIffEveryFilterHits(c, filters, CharacterHits);
  }

  /** The characters `applyFilter(filters:)` keeps, in order. */
  function FilteredCharacters(all: seq<Character>, filters: seq<string>): (r: seq<Character>)
    ensures |r| <= |all|
  {
    Keep(all, c => GGPasses(c, filters))
  }

  lemma FilteredCharactersMembers(all: seq<Character>, filters: seq<string>, c: Character)
    ensures c in FilteredCharacters(all, filters) <==>
      c in all && forall i :: 0 <= i < |filters| ==> CharacterHits(c, filters[i])
    ensures filters == [] ==> FilteredCharacters(all, filters) == all
  {
    KeepMembers(all, x => GGPasses(x, filters), c);
    GGPassesIffEveryFilterHits(c, filters);
    if filters == [] {
      KeepAllIff(all, x => GGPasses(x, filters));
    }
  }

  class GGCharacterListViewModel {
    var characters: seq<Character>
    var searchedCharacters: seq<Character>
    var filteredCharacters: seq<Character>
    var selectedFilters: seq<string>
    var isFiltersActive: bool
    var isSearchBarActive: bool

    /** The search and filter results are made of held characters, in their order, and the
        filter counts as active exactly when its result is not empty. */
    predicate Valid()
      reads this`characters, this`searchedCharacters, this`filteredCharacters, this`isFiltersActive
    {
      && IsSubsequence(searchedCharacters, characters)
      && IsSubsequence(filteredCharacters, characters)
      && (isFiltersActive <==> filteredCharacters != [])
    }

    constructor ()
      ensures Valid()
      ensures characters == [] && searchedCharacters == [] && filteredCharacters == []
      ensures selectedFilters == [] && !isFiltersActive && !isSearchBarActive
    {
      characters := [];
      searchedCharacters := [];
      filteredCharacters := [];
      selectedFilters := [];
      isFiltersActive := false;
      isSearchBarActive := false;
    }

    /** `fetchAllCharacters(page:completion:)`: `response` is the service's answer for the
        page; a decoded envelope hands on its results, a failure its error. Nothing on
        the screen changes. */
    method FetchAllCharacters(response: Result<Envelope<Character>, ServiceError>)
      returns (completion: Result<seq<Character>, ServiceError>)
      ensures completion.Success? <==> response.Success?
      ensures response.Success? ==> completion.value == response.value.results
      ensures response.Failure? ==> completion.error == response.error
    {
      match response
      case Success(envelope) =>
        completion := Success(envelope.results);
      case Failure(e) =>
        completion := Failure(e);
    }

    /** `fetchCharacters(limit:completion:)`: from page 1, each page is asked for once the
        one before it was answered, up to the limit, with no next-page check. `respond` is
        the service's answer for each page number; the outcome is `GGFetchAll`. */
    method FetchCharacters(limit: int, respond: int -> Result<Envelope<Character>, ServiceError>)
      returns (requested: seq<int>, completion: Result<seq<Character>, ServiceError>)
      requires Valid()
      modifies this`characters
      ensures var r := GGFetchAll(1, limit, old(characters), respond);
        && characters == r.items
        && requested == r.requested
        && completion == r.completion
      ensures Valid()
    {
      ghost var target := GGFetchAll(1, limit, characters, respond);
      var page := 1;
      requested := [];
      while page <= limit
        invariant Valid()
        invariant var r := GGFetchAll(page, limit, characters, respond);
          && r.items == target.items && requested + r.requested == target.requested
          && r.completion == target.completion
        decreases limit - page
      {
        requested := requested + [page];
        var result := FetchAllCharacters(respond(page));
        match result
        case Success(response) =>
          SubsequenceExtend(searchedCharacters, characters, response);
          SubsequenceExtend(filteredCharacters, characters, response);
          characters := characters + response;
          if page == limit {
            completion := Success(response);
            return;
          }
          page := page + 1;
        case Failure(e) =>
          completion := Failure(e);
          return;
      }
      completion := Success(characters);
    }

    /** `applyFilter(filters:)`. A filter that matches nothing leaves the filter inactive,
        so the screen goes back to showing every character rather than none. */
    method ApplyFilter(filters: seq<string>)
      requires Valid()
      modifies this`selectedFilters, this`filteredCharacters, this`isFiltersActive
      ensures selectedFilters == filters
      ensures filteredCharacters == FilteredCharacters(characters, filters)
      ensures isFiltersActive <==> filteredCharacters != []
      ensures !isSearchBarActive && filteredCharacters == [] ==> Source() == characters
      ensures Valid()
    {
      selectedFilters := filters;
      filteredCharacters := FilteredCharacters(characters, filters);
      KeepIsSubsequence(characters, c => GGPasses(c, filters));
      isFiltersActive := if filteredCharacters == [] then false else true;
    }

    method ResetFilters()
      requires Valid()
      modifies this`selectedFilters, this`filteredCharacters, this`isFiltersActive
      ensures selectedFilters == [] && filteredCharacters == [] && !isFiltersActive
      ensures !isSearchBarActive ==> Source() == characters
      ensures Valid()
    {
      selectedFilters := [];
      filteredCharacters := [];
      isFiltersActive := false;
    }

    /** `searchForCharacters(with:)`: always over every held character, whatever filter is
        selected and whatever the state of the search bar. */
    method SearchForCharacters(term: string)
      requires Valid()
      modifies this`searchedCharacters
      ensures searchedCharacters == NameSearch(characters, CharacterName, term)
      ensures Valid()
    {
      searchedCharacters := NameSearch(characters, CharacterName, term);
      NameSearchIsSubsequence(characters, CharacterName, term);
    }

    /** The list the screen shows: the search result while the search bar is active, else
        the filter result while the filter is active, else every character. */
    function Source(): (r: seq<Character>)
      reads this`characters, this`searchedCharacters, this`filteredCharacters
      reads this`isFiltersActive, this`isSearchBarActive
    {
      if isSearchBarActive then searchedCharacters
      else if isFiltersActive then filteredCharacters
      else characters
    }

    /** `getNumberOfItems`: never more than the characters held. */
    method GetNumberOfItems() returns (n: int)
      requires Valid()
      ensures n == |Source()| && n <= |characters|
    {
      if isSearchBarActive {
        n := |searchedCharacters|;
        SubsequenceLength(searchedCharacters, characters);
      } else if isFiltersActive {
        n := |filteredCharacters|;
        SubsequenceLength(filteredCharacters, characters);
      } else {
        n := |characters|;
      }
    }

    /** `getCharacter(at:)`: the subscript is unchecked, so the index must be within the
        shown list; the character returned is always a held one. */
    method GetCharacter(index: int) returns (c: Character)
      requires Valid()
      requires 0 <= index < |Source()|
      ensures c == Source()[index] && c in characters
    {
      if isSearchBarActive {
        c := searchedCharacters[index];
        SubsequenceMembers(searchedCharacters, characters, c);
      } else if isFiltersActive {
        c := filteredCharacters[index];
        SubsequenceMembers(filteredCharacters, characters, c);
      } else {
        c := characters[index];
      }
    }

    method GetSelectedFilters() returns (r: seq<string>)
      ensures r == selectedFilters
    {
      r := selectedFilters;
    }

    method SetIsSearchBarActive(isActive: bool)
      modifies this`isSearchBarActive
      ensures isSearchBarActive == isActive
    {
      isSearchBarActive := isActive;
    }
  }
}
