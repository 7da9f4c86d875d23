/** RickNMorty's character list screen (`CharacterListViewModel`): the accumulated
    characters, the search and filter state, and the display rows derived from them. */
module CharacterList {
  import opened Wrappers
  import opened Seqs
  import opened Text
  import opened Models
  import opened Projection
  import opened DisplayData
  import opened Services

  /** The characters the screen shows, for given state. */
  function VisibleCharacters(all: seq<Character>, term: string, active: bool, filters: seq<string>): seq<Character> {
    Project(all, CharacterName, term, active, filters, CharacterHits)
  }

  class CharacterListViewModel {
    var allCharacters: seq<Character>
    var displayCharacters: seq<CharacterDisplayData>
    var isLoading: bool
    var errorMessage: Option<ServiceError>
    var selectedFilters: seq<string>
    var searchText: string
    var isSearchBarActive: bool

    function Visible(): seq<Character>
      reads this`allCharacters, this`searchText, this`isSearchBarActive, this`selectedFilters
    {
      VisibleCharacters(allCharacters, searchText, isSearchBarActive, selectedFilters)
    }

    /** The display rows are always the visible characters, mapped row by row. */
    predicate Valid()
      reads this`displayCharacters, this`allCharacters, this`searchText, this`isSearchBarActive, this`selectedFilters
    {
      displayCharacters == Map(CharacterToDisplay, Visible())
    }

    constructor ()
      ensures Valid()
      ensures allCharacters == [] && displayCharacters == [] && selectedFilters == []
      ensures !isLoading && errorMessage == None && searchText == "" && !isSearchBarActive
    {
      allCharacters := [];
      displayCharacters := [];
      isLoading := false;
      errorMessage := None;
      selectedFilters := [];
      searchText := "";
      isSearchBarActive := false;
    }

    /** `updateDisplayCharacters`: search first, then filter, then map to rows. */
    method UpdateDisplayCharacters()
      modifies this
      ensures Valid()
      ensures allCharacters == old(allCharacters) && selectedFilters == old(selectedFilters)
      ensures searchText == old(searchText) && isSearchBarActive == old(isSearchBarActive)
      ensures isLoading == old(isLoading) && errorMessage == old(errorMessage)
    {
      var filtered := allCharacters;
      if isSearchBarActive && searchText != "" {
        filtered := Searched(filtered, CharacterName, searchText, isSearchBarActive);
      }
      if selectedFilters != [] {
        filtered := Filtered(filtered, selectedFilters, CharacterHits);
      }
      displayCharacters := Map(CharacterToDisplay, filtered);
    }

    /** `fetchCharacters(limit:)`. One request is made for each page `1...limit` (a closed
        range, which traps for a limit below 1); `collected` is what the merged requests
        deliver: every page's characters, or the first error. */
    method FetchCharacters(limit: int, collected: Result<seq<seq<Character>>, ServiceError>)
      returns (requested: seq<int>)
      requires limit >= 1
      modifies this
      ensures |requested| == limit && forall i :: 0 <= i < limit ==> requested[i] == i + 1
      ensures !isLoading
      ensures selectedFilters == old(selectedFilters)
      ensures searchText == old(searchText) && isSearchBarActive == old(isSearchBarActive)
      ensures collected.Success? ==>
        allCharacters == Flatten(collected.value) && errorMessage == None && Valid()
      ensures collected.Failure? ==>
        && allCharacters == old(allCharacters)
        && displayCharacters == old(displayCharacters)
        && errorMessage == Some(collected.error)
    {
      isLoading := true;
      errorMessage := None;
      requested := Range(1, limit);
      match collected
      case Success(results) =>
        allCharacters := Flatten(results);
        UpdateDisplayCharacters();
        isLoading := false;
      case Failure(error) =>
        isLoading := false;
        errorMessage := Some(error);
    }

    method ApplyFilter(filters: seq<string>)
      modifies this
      ensures selectedFilters == filters && Valid()
      ensures allCharacters == old(allCharacters)
      ensures searchText == old(searchText) && isSearchBarActive == old(isSearchBarActive)
      ensures isLoading == old(isLoading) && errorMessage == old(errorMessage)
    {
      selectedFilters := filters;
      UpdateDisplayCharacters();
    }

    /** `resetFilters`: the same state as `applyFilter(filters: [])`. */
    method ResetFilters()
      modifies this
      ensures selectedFilters == [] && Valid()
      ensures allCharacters == old(allCharacters)
      ensures searchText == old(searchText) && isSearchBarActive == old(isSearchBarActive)
      ensures isLoading == old(isLoading) && errorMessage == old(errorMessage)
    {
      selectedFilters := [];
      UpdateDisplayCharacters();
    }

    method SearchForCharacters(term: string, isActive: bool)
      modifies this
      ensures searchText == term && isSearchBarActive == isActive && Valid()
      ensures allCharacters == old(allCharacters) && selectedFilters == old(selectedFilters)
      ensures isLoading == old(isLoading) && errorMessage == old(errorMessage)
    {
      searchText := term;
      isSearchBarActive := isActive;
      UpdateDisplayCharacters();
    }

    /** `numberOfItems`: the row count, never more than the characters held. */
    method NumberOfItems() returns (n: int)
      requires Valid()
      ensures n == |displayCharacters|
      ensures n <= |allCharacters|
    {
      n := |displayCharacters|;
      ProjectIsSubsequence(allCharacters, CharacterName, searchText, isSearchBarActive, selectedFilters, CharacterHits);
    }

    /** `character(at:)`: the subscript is unchecked, so the index must be a row. The row
        shows a held character that passes the search and every filter. */
    method CharacterAt(index: int) returns (d: CharacterDisplayData)
      requires Valid()
      requires 0 <= index < |displayCharacters|
      ensures d == displayCharacters[index]
      ensures exists c :: (c in allCharacters && d == CharacterToDisplay(c)
        && (isSearchBarActive && searchText != "" ==> SearchHit(c.name, searchText))
        && (forall i :: 0 <= i < |selectedFilters| ==> CharacterHits(c, selectedFilters[i])))
    {
      d := displayCharacters[index];
      var c := Visible()[index];
      ProjectMembers(allCharacters, CharacterName, searchText, isSearchBarActive, selectedFilters, CharacterHits, c);
    }

    /** The position, among the held characters, of the character a row shows. */
    lemma HeldRow(index: int) returns (m: int)
      requires Valid()
      requires 0 <= index < |displayCharacters|
      ensures 0 <= m < |allCharacters| && allCharacters[m].id == displayCharacters[index].id
    {
      ProjectElement(allCharacters, CharacterName, searchText, isSearchBarActive, selectedFilters, CharacterHits, index);
      m :| 0 <= m < |allCharacters| && allCharacters[m] == Visible()[index];
    }

    /** `getOriginalCharacter(at:)`: the first held character with the row's id. The
        force-unwrap never fails, because every row comes from a held character. */
    method GetOriginalCharacter(index: int) returns (c: Character)
      requires Valid()
      requires 0 <= index < |displayCharacters|
      ensures c in allCharacters && c.id == displayCharacters[index].id
      ensures exists k :: (0 <= k < |allCharacters| && allCharacters[k] == c
        && forall j :: 0 <= j < k ==> allCharacters[j].id != c.id)
    {
      var id := displayCharacters[index].id;
      var m := HeldRow(index);
      var k := FirstIndex(allCharacters, (x: Character) => x.id == id);
      c := allCharacters[k];
      assert allCharacters[k] == c;
    }
  }

  /** Example: the projection unfolded on three characters without a search, each kept
      exactly when it passes the filters (all of them when no filter is selected). */
  lemma VisibleOfThree(a: Character, b: Character, c: Character, filters: seq<string>)
    ensures VisibleCharacters([a, b, c], "", false, filters) ==
      (if filters == [] || PassesFilters(a, filters, CharacterHits) then [a] else [])
      + (if filters == [] || PassesFilters(b, filters, CharacterHits) then [b] else [])
      + (if filters == [] || PassesFilters(c, filters, CharacterHits) then [c] else [])
  {
    ProjectCons(a, [b, c], CharacterName, "", filters, CharacterHits);
    ProjectCons(b, [c], CharacterName, "", filters, CharacterHits);
    ProjectCons(c, [], CharacterName, "", filters, CharacterHits);
  }

  /** The filter examples of the repository's tests: over an alive human male, a dead
      human male and an alive human female, "Alive" keeps two and "Alive" with "Female"
      keeps only the female. */
  lemma FilterExamples(rick: Character, morty: Character, summer: Character)
    requires rick.status == Alive && rick.species == "Human" && rick.gender == Male
    requires morty.status == Dead && morty.species == "Human" && morty.gender == Male
    requires summer.status == Alive && summer.species == "Human" && summer.gender == Female
    ensures VisibleCharacters([rick, morty, summer], "", false, ["Alive"]) == [rick, summer]
    ensures VisibleCharacters([rick, morty, summer], "", false, ["Alive", "Female"]) == [summer]
    ensures VisibleCharacters([rick, morty, summer], "", false, []) == [rick, morty, summer]
  {
    VisibleOfThree(rick, morty, summer, ["Alive"]);
    VisibleOfThree(rick, morty, summer, ["Alive", "Female"]);
    VisibleOfThree(rick, morty, summer, []);
    PassesIffEveryFilterHits(rick, ["Alive", "Female"], CharacterHits);
    PassesIffEveryFilterHits(morty, ["Alive", "Female"], CharacterHits);
    PassesIffEveryFilterHits(summer, ["Alive", "Female"], CharacterHits);
  }
}
