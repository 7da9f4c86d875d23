/** RickNMorty's favourites screen (`FavoriteViewModel`): the favourites read from the
    store, the search and filter projection over them, and the edit mode with its set of
    selected row indices. Whether the store's fetches succeed is an input. */
module Favorites {
  import opened Wrappers
  import opened Seqs
  import opened Text
  import opened Models
  import opened Projection
  import opened DisplayData
  import opened FavoriteRepository

  type Row = CharacterDetailDisplayData

  /** `favorite.name ?? ""`, the name the search and the row use. */
  function FavoriteName(f: FavoriteRecord): string {
    f.name.GetOr("")
  }

  /** A favourite hits a filter value when its stored status, species or gender equals it;
      a missing attribute equals nothing. */
  predicate FavoriteHits(f: FavoriteRecord, x: string) {
    f.status == Some(x) || f.species == Some(x) || f.gender == Some(x)
  }

  /** The row a favourite is shown as: name, species, origin and image only; status,
      gender, location and the episode list stay empty. */
  function FavoriteRow(f: FavoriteRecord): (r: Row)
    ensures r.name == FavoriteName(f) && r.species == f.species.GetOr("")
    ensures r.origin == f.origin.GetOr("") && r.imageURL == f.imageURL.GetOr("")
    ensures r.status == "" && r.gender == "" && r.statusImageName == "" && r.genderImageName == ""
    ensures r.location == "" && r.createdText == "" && r.episodeURLs == []
  {
    CharacterDetailDisplayData(FavoriteName(f), "", "", "", "", f.species.GetOr(""), "",
                               f.origin.GetOr(""), "", f.imageURL.GetOr(""), [])
  }

  function VisibleFavorites(all: seq<FavoriteRecord>, term: string, active: bool, filters: seq<string>): seq<FavoriteRecord> {
    Project(all, FavoriteName, term, active, filters, FavoriteHits)
  }

  /** Every row shows one of the favourites held. */
  predicate RowsHeld(rows: seq<Row>, all: seq<FavoriteRecord>) {
    forall i :: 0 <= i < |rows| ==> exists k :: 0 <= k < |all| && rows[i] == FavoriteRow(all[k])
  }

  lemma ProjectionRowsHeld(all: seq<FavoriteRecord>, term: string, active: bool, filters: seq<string>)
    ensures RowsHeld(Map(FavoriteRow, VisibleFavorites(all, term, active, filters)), all)
  {
    var v := VisibleFavorites(all, term, active, filters);
    forall i | 0 <= i < |v|
      ensures exists k :: 0 <= k < |all| && Map(FavoriteRow, v)[i] == FavoriteRow(all[k])
    {
      ProjectElement(all, FavoriteName, term, active, filters, FavoriteHits, i);
      var k :| 0 <= k < |all| && all[k] == v[i];
    }
  }

  /** `displayCharacters.removeAll { $0.name == name }`. */
  function WithoutName(rows: seq<Row>, name: string): (r: seq<Row>)
    ensures |r| <= |rows|
  {
    Keep(rows, (d: Row) => d.name != name)
  }

  /** Removing by name drops every row with that name and keeps every other row, in order. */
  lemma WithoutNameMembers(rows: seq<Row>, name: string, d: Row)
    ensures d in WithoutName(rows, name) <==> d in rows && d.name != name
    ensures IsSubsequence(WithoutName(rows, name), rows)
  {
    KeepMembers(rows, (e: Row) => e.name != name, d);
    KeepIsSubsequence(rows, (e: Row) => e.name != name);
  }

  lemma WithoutNameRowsHeld(rows: seq<Row>, name: string, all: seq<FavoriteRecord>)
    requires RowsHeld(rows, all)
    ensures RowsHeld(WithoutName(rows, name), all)
  {
    var r := WithoutName(rows, name);
    forall i | 0 <= i < |r| ensures exists k :: 0 <= k < |all| && r[i] == FavoriteRow(all[k]) {
      WithoutNameMembers(rows, name, r[i]);
      var j :| 0 <= j < |rows| && rows[j] == r[i];
    }
  }

  /** `selectedIndices` after a toggle of `i`. */
  function ToggleSet(s: set<int>, i: int): (r: set<int>)
    ensures i in r <==> i !in s
    ensures forall j :: j != i ==> (j in r <==> j in s)
  {
    if i in s then s - {i} else s + {i}
  }

  /** Two toggles of the same index restore the selection. */
  lemma ToggleTwice(s: set<int>, i: int)
    ensures ToggleSet(ToggleSet(s, i), i) == s
  {
    assert forall j :: j in ToggleSet(ToggleSet(s, i), i) <==> j in s;
  }

  predicate StrictlyDescending(s: seq<int>) {
    forall i, j :: 0 <= i < j < |s| ==> s[i] > s[j]
  }

  /** Some element of a non-empty set. */
  lemma Pick<T>(s: set<T>) returns (x: T)
    requires s != {}
    ensures x in s
  {
    x :| x in s;
  }

  lemma {:induction false} SetHasMax(s: set<int>)
    requires s != {}
    ensures exists m :: m in s && forall y :: y in s ==> y <= m
    decreases |s|
  {
    var x := Pick(s);
    var rest := s - {x};
    if rest == {} {
      assert s == {x};
    } else {
      SetHasMax(rest);
      var m :| m in rest && forall y :: y in rest ==> y <= m;
      var top := if m < x then x else m;
      forall y | y in s ensures y <= top {
        if y != x { assert y in rest; }
      }
    }
  }

  /** `selectedIndices.sorted(by: >)`: the indices, largest first, each once. */
  method SortDescending(s: set<int>) returns (r: seq<int>)
    ensures StrictlyDescending(r)
    ensures forall x :: x in r <==> x in s
  {
    r := [];
    var rest := s;
    while rest != {}
      invariant rest <= s
      invariant forall x :: x in r <==> x in s && x !in rest
      invariant StrictlyDescending(r)
      invariant forall i, y :: 0 <= i < |r| && y in rest ==> y < r[i]
      decreases |rest|
    {
      SetHasMax(rest);
      var m :| m in rest && forall y :: y in rest ==> y <= m;
      r := r + [m];
      rest := rest - {m};
    }
  }

  /** The favourites screen and the store together, as `removeSelectedFavorites` changes them. */
  datatype Removal = Removal(rows: seq<Row>, records: seq<FavoriteRecord>)

  /** The effect of visiting the indices in the given order: a visited index that is still
      a row has its name removed from the store (first record only) and from the rows (every
      row with that name); an index past the end is skipped. `reachable` holds the visited
      indices for which the store answers; a visit the store does not answer changes nothing. */
  function RemoveSteps(rows: seq<Row>, records: seq<FavoriteRecord>, indices: seq<int>, reachable: set<int>): Removal
    decreases |indices|
  {
    if indices == [] then Removal(rows, records)
    else
      var i := indices[0];
      if 0 <= i < |rows| && i in reachable && HasName(records, rows[i].name) then
        RemoveSteps(WithoutName(rows, rows[i].name), RemoveFirstNamed(records, rows[i].name), indices[1..], reachable)
      else RemoveSteps(rows, records, indices[1..], reachable)
  }

  predicate DistinctNames(rows: seq<Row>) {
    forall i, j :: 0 <= i < j < |rows| ==> rows[i].name != rows[j].name
  }

  /** When names are unique, removing a row's name removes that row alone. */
  lemma {:induction false} WithoutUniqueName(rows: seq<Row>, i: int)
    requires DistinctNames(rows)
    requires 0 <= i < |rows|
    ensures WithoutName(rows, rows[i].name) == rows[..i] + rows[i + 1..]
  {
    var name := rows[i].name;
    if i == 0 {
      KeepAllIff(rows[1..], (d: Row) => d.name != name);
    } else {
      assert DistinctNames(rows[1..]) by {
        forall a, b | 0 <= a < b < |rows| - 1 ensures rows[1..][a].name != rows[1..][b].name {
          assert rows[1..][a] == rows[a + 1] && rows[1..][b] == rows[b + 1];
        }
      }
      WithoutUniqueName(rows[1..], i - 1);
      assert rows[1..][i - 1] == rows[i];
      assert rows[..i] + rows[i + 1..] == [rows[0]] + (rows[1..][..i - 1] + rows[1..][i..]);
    }
  }

  /** The visit only ever removes rows. */
  lemma {:induction false} RemoveStepsShrinks(rows: seq<Row>, records: seq<FavoriteRecord>, indices: seq<int>, reachable: set<int>, d: Row)
    requires d in RemoveSteps(rows, records, indices, reachable).rows
    ensures d in rows
    decreases |indices|
  {
    if indices != [] {
      var i := indices[0];
      if 0 <= i < |rows| && i in reachable && HasName(records, rows[i].name) {
        RemoveStepsShrinks(WithoutName(rows, rows[i].name), RemoveFirstNamed(records, rows[i].name), indices[1..], reachable, d);
        WithoutNameMembers(rows, rows[i].name, d);
      } else {
        RemoveStepsShrinks(rows, records, indices[1..], reachable, d);
      }
    }
  }

  /** Removing the row at `i`, when names are unique: the rows before it stay in place,
      the rows after it move down by one, names stay unique and the row itself is gone. */
  lemma DropUniqueRow(rows: seq<Row>, i: int) returns (rows': seq<Row>)
    requires DistinctNames(rows)
    requires 0 <= i < |rows|
    ensures rows' == WithoutName(rows, rows[i].name)
    ensures |rows'| == |rows| - 1
    ensures forall j :: 0 <= j < i ==> rows'[j] == rows[j]
    ensures forall j :: i < j < |rows| ==> rows'[j - 1] == rows[j]
    ensures DistinctNames(rows')
    ensures rows[i] !in rows'
  {
    WithoutUniqueName(rows, i);
    rows' := rows[..i] + rows[i + 1..];
    DropKeepsDistinct(rows, i);
    forall k | 0 <= k < |rows'| ensures rows'[k] != rows[i] {
      var k0 := if k < i then k else k + 1;
      assert rows'[k] == rows[k0];
    }
  }

  /** Dropping a row keeps the other names unique. */
  lemma DropKeepsDistinct(rows: seq<Row>, i: int)
    requires DistinctNames(rows)
    requires 0 <= i < |rows|
    ensures DistinctNames(rows[..i] + rows[i + 1..])
  {
    var rows' := rows[..i] + rows[i + 1..];
    forall a, b | 0 <= a < b < |rows'| ensures rows'[a].name != rows'[b].name {
      var a0 := if a < i then a else a + 1;
      var b0 := if b < i then b else b + 1;
      assert rows'[a] == rows[a0] && rows'[b] == rows[b0];
    }
  }

  /** The rest of a strictly descending visit is strictly descending and lies below its head. */
  lemma DescendingTail(indices: seq<int>)
    requires StrictlyDescending(indices) && indices != []
    ensures StrictlyDescending(indices[1..])
    ensures forall k :: 0 <= k < |indices| - 1 ==> indices[1..][k] == indices[k + 1] < indices[0]
    ensures forall j :: j in indices <==> j == indices[0] || j in indices[1..]
  {
    assert indices == [indices[0]] + indices[1..];
  }

  /** What the descending visit is for: when the rows' names are unique, the selected
      indices are rows and every selected row's name is stored, the visit removes exactly
      the selected rows for which the store answers. */
  lemma {:induction false} DescendingVisitRemovesSelected(rows: seq<Row>, records: seq<FavoriteRecord>, indices: seq<int>, reachable: set<int>)
    requires DistinctNames(rows)
    requires StrictlyDescending(indices)
    requires forall k :: 0 <= k < |indices| ==> 0 <= indices[k] < |rows| && HasName(records, rows[indices[k]].name)
    ensures forall j :: 0 <= j < |rows| ==>
      (rows[j] in RemoveSteps(rows, records, indices, reachable).rows <==> !(j in indices && j in reachable))
    decreases |indices|, 1
  {
    if indices != [] {
      if indices[0] in reachable {
        VisitRemovesHead(rows, records, indices, reachable);
      } else {
        VisitSkipsHead(rows, records, indices, reachable);
      }
    }
  }

  /** A first visit the store does not answer leaves the rest of the visit to decide. */
  lemma {:induction false} VisitSkipsHead(rows: seq<Row>, records: seq<FavoriteRecord>, indices: seq<int>, reachable: set<int>)
    requires DistinctNames(rows)
    requires StrictlyDescending(indices) && indices != [] && indices[0] !in reachable
    requires forall k :: 0 <= k < |indices| ==> 0 <= indices[k] < |rows| && HasName(records, rows[indices[k]].name)
    ensures forall j :: 0 <= j < |rows| ==>
      (rows[j] in RemoveSteps(rows, records, indices, reachable).rows <==> !(j in indices && j in reachable))
    decreases |indices|, 0
  {
    DescendingTail(indices);
    DescendingVisitRemovesSelected(rows, records, indices[1..], reachable);
  }

  /** A first visit the store answers removes that row and shifts the later ones down. */
  lemma {:induction false} VisitRemovesHead(rows: seq<Row>, records: seq<FavoriteRecord>, indices: seq<int>, reachable: set<int>)
    requires DistinctNames(rows)
    requires StrictlyDescending(indices) && indices != [] && indices[0] in reachable
    requires forall k :: 0 <= k < |indices| ==> 0 <= indices[k] < |rows| && HasName(records, rows[indices[k]].name)
    ensures forall j :: 0 <= j < |rows| ==>
      (rows[j] in RemoveSteps(rows, records, indices, reachable).rows <==> !(j in indices && j in reachable))
    decreases |indices|, 0
  {
    var i := indices[0];
    var name := rows[i].name;
    var rest := indices[1..];
    DescendingTail(indices);
    var rows' := DropUniqueRow(rows, i);
    var records' := RemoveFirstNamed(records, name);
    forall k | 0 <= k < |rest|
      ensures 0 <= rest[k] < |rows'| && HasName(records', rows'[rest[k]].name)
    {
      RemoveFirstNamedKeepsOthers(records, name, rows[rest[k]].name);
    }
    DescendingVisitRemovesSelected(rows', records', rest, reachable);
    var result := RemoveSteps(rows, records, indices, reachable);
    assert result == RemoveSteps(rows', records', rest, reachable);
    forall j | 0 <= j < |rows| ensures rows[j] in result.rows <==> !(j in indices && j in reachable) {
      if j > i {
        assert j - 1 !in rest && j !in indices;
      } else if j == i && rows[i] in result.rows {
        RemoveStepsShrinks(rows', records', rest, reachable, rows[i]);
      }
    }
  }

  /** `getOriginalCharacter` for a found favourite: id 0, missing texts become "", and a
      missing or unrecognised status or gender becomes unknown. */
  function FavoriteToCharacter(f: FavoriteRecord): (c: Character)
    ensures c.id == 0 && c.name == FavoriteName(f) && c.species == f.species.GetOr("")
    ensures c.status == StatusFromRaw(f.status.GetOr("unknown")).GetOr(CharacterStatus.Unknown)
    ensures c.gender == GenderFromRaw(f.gender.GetOr("unknown")).GetOr(CharacterGender.Unknown)
    ensures c.origin.name == f.origin.GetOr("") && c.location.name == f.location.GetOr("")
    ensures c.image == f.imageURL.GetOr("") && c.episode == f.episodes.GetOr([])
    ensures c.created == f.created.GetOr("") && c.kind == "" && c.url == ""
  {
    Character(0, FavoriteName(f), StatusFromRaw(f.status.GetOr("unknown")).GetOr(CharacterStatus.Unknown),
              f.species.GetOr(""), "", GenderFromRaw(f.gender.GetOr("unknown")).GetOr(CharacterGender.Unknown),
              Place(f.origin.GetOr(""), ""), Place(f.location.GetOr(""), ""),
              f.imageURL.GetOr(""), f.episodes.GetOr([]), "", f.created.GetOr(""))
  }

  /** A stored status or gender is recovered exactly when it is a raw value; anything
      else, including a missing one, reads as unknown. */
  lemma FavoriteStatusGender(f: FavoriteRecord)
    ensures f.status.Some? && StatusFromRaw(f.status.value).Some? ==> FavoriteToCharacter(f).status.RawValue() == f.status.value
    ensures f.status.None? || StatusFromRaw(f.status.value).None? ==> FavoriteToCharacter(f).status == CharacterStatus.Unknown
    ensures f.gender.Some? && GenderFromRaw(f.gender.value).Some? ==> FavoriteToCharacter(f).gender.RawValue() == f.gender.value
    ensures f.gender.None? || GenderFromRaw(f.gender.value).None? ==> FavoriteToCharacter(f).gender == CharacterGender.Unknown
  {
  }

  /** The placeholder returned when no favourite has the row's name. */
  function EmptyCharacter(): (c: Character)
    ensures c.id == 0 && c.name == "" && c.status == CharacterStatus.Unknown && c.gender == CharacterGender.Unknown
  {
    Character(0, "", CharacterStatus.Unknown, "", "", CharacterGender.Unknown, Place("", ""), Place("", ""), "", [], "", "")
  }

  class FavoriteViewModel {
    const store: FavoriteStore
    var allFavorites: seq<FavoriteRecord>
    var displayCharacters: seq<Row>
    var isLoading: bool
    var errorMessage: Option<string>
    var selectedFilters: seq<string>
    var isEditMode: bool
    var selectedIndices: set<int>
    var searchText: string
    var isSearchBarActive: bool

    /** Every row shows a favourite held by the screen. */
    predicate Valid()
      reads this`displayCharacters, this`allFavorites
    {
      RowsHeld(displayCharacters, allFavorites)
    }

    constructor (store: FavoriteStore)
      ensures Valid() && this.store == store
      ensures allFavorites == [] && displayCharacters == [] && selectedFilters == []
      ensures !isEditMode && selectedIndices == {} && !isLoading && errorMessage == None
      ensures searchText == "" && !isSearchBarActive
    {
      this.store := store;
      allFavorites := [];
      displayCharacters := [];
      isLoading := false;
      errorMessage := None;
      selectedFilters := [];
      isEditMode := false;
      selectedIndices := {};
      searchText := "";
      isSearchBarActive := false;
    }

    /** `updateDisplayCharacters`: the same search and three-way filter as the character
        list, over the stored texts. */
    method UpdateDisplayCharacters()
      modifies this
      ensures displayCharacters == Map(FavoriteRow, VisibleFavorites(allFavorites, searchText, isSearchBarActive, selectedFilters))
      ensures Valid()
      ensures allFavorites == old(allFavorites) && selectedFilters == old(selectedFilters)
      ensures searchText == old(searchText) && isSearchBarActive == old(isSearchBarActive)
      ensures isEditMode == old(isEditMode) && selectedIndices == old(selectedIndices)
      ensures isLoading == old(isLoading) && errorMessage == old(errorMessage)
    {
      var filtered := allFavorites;
      if isSearchBarActive && searchText != "" {
        filtered := Searched(filtered, FavoriteName, searchText, isSearchBarActive);
      }
      if selectedFilters != [] {
        filtered := Filtered(filtered, selectedFilters, FavoriteHits);
      }
      displayCharacters := Map(FavoriteRow, filtered);
      ProjectionRowsHeld(allFavorites, searchText, isSearchBarActive, selectedFilters);
    }

    /** `fetchFavoriteCharacters`: reloads every favourite from the store (none when the
        fetch fails) and recomputes the rows. */
    method FetchFavoriteCharacters(fetchSucceeds: bool)
      modifies this
      ensures allFavorites == (if fetchSucceeds then store.records else [])
      ensures displayCharacters == Map(FavoriteRow, VisibleFavorites(allFavorites, searchText, isSearchBarActive, selectedFilters))
      ensures Valid() && !isLoading && errorMessage == None
      ensures selectedFilters == old(selectedFilters)
      ensures searchText == old(searchText) && isSearchBarActive == old(isSearchBarActive)
      ensures isEditMode == old(isEditMode) && selectedIndices == old(selectedIndices)
    {
      isLoading := true;
      errorMessage := None;
      allFavorites := store.GetFavoriteCharacters(fetchSucceeds);
      UpdateDisplayCharacters();
      isLoading := false;
    }

    method ApplyFilter(filters: seq<string>)
      modifies this
      ensures selectedFilters == filters
      ensures displayCharacters == Map(FavoriteRow, VisibleFavorites(allFavorites, searchText, isSearchBarActive, filters))
      ensures Valid() && allFavorites == old(allFavorites)
      ensures searchText == old(searchText) && isSearchBarActive == old(isSearchBarActive)
      ensures isEditMode == old(isEditMode) && selectedIndices == old(selectedIndices)
      ensures isLoading == old(isLoading) && errorMessage == old(errorMessage)
    {
      selectedFilters := filters;
      UpdateDisplayCharacters();
    }

    method ResetFilters()
      modifies this
      ensures selectedFilters == []
      ensures displayCharacters == Map(FavoriteRow, VisibleFavorites(allFavorites, searchText, isSearchBarActive, []))
      ensures Valid() && allFavorites == old(allFavorites)
      ensures searchText == old(searchText) && isSearchBarActive == old(isSearchBarActive)
      ensures isEditMode == old(isEditMode) && selectedIndices == old(selectedIndices)
      ensures isLoading == old(isLoading) && errorMessage == old(errorMessage)
    {
      selectedFilters := [];
      UpdateDisplayCharacters();
    }

    method SearchForCharacters(term: string, isActive: bool)
      modifies this
      ensures searchText == term && isSearchBarActive == isActive
      ensures displayCharacters == Map(FavoriteRow, VisibleFavorites(allFavorites, term, isActive, selectedFilters))
      ensures Valid() && allFavorites == old(allFavorites) && selectedFilters == old(selectedFilters)
      ensures isEditMode == old(isEditMode) && selectedIndices == old(selectedIndices)
      ensures isLoading == old(isLoading) && errorMessage == old(errorMessage)
    {
      searchText := term;
      isSearchBarActive := isActive;
      UpdateDisplayCharacters();
    }

    /** `removeFavorite(byName:)`: asks the store to remove the first favourite with the
        name; on success every row with that name leaves the screen, on failure nothing
        changes. The held favourites are not reloaded. */
    method RemoveFavorite(name: string, fetchSucceeds: bool) returns (ok: bool)
      requires Valid()
      modifies this`displayCharacters, store`records
      ensures ok <==> fetchSucceeds && HasName(old(store.records), name)
      ensures ok ==> store.records == RemoveFirstNamed(old(store.records), name)
      ensures ok ==> displayCharacters == WithoutName(old(displayCharacters), name)
      ensures !ok ==> store.records == old(store.records) && displayCharacters == old(displayCharacters)
      ensures Valid()
    {
      ok := store.RemoveFavorite(name, fetchSucceeds);
      if ok {
        WithoutNameRowsHeld(displayCharacters, name, allFavorites);
        displayCharacters := WithoutName(displayCharacters, name);
      }
    }

    method NumberOfItems() returns (n: int)
      ensures n == |displayCharacters|
    {
      n := |displayCharacters|;
    }

    /** `character(at:)`: guarded on both sides. */
    method CharacterAt(index: int) returns (r: Option<Row>)
      ensures r.None? <==> index < 0 || index >= |displayCharacters|
      ensures r.Some? ==> r.value == displayCharacters[index]
    {
      if index < 0 || index >= |displayCharacters| {
        return None;
      }
      r := Some(displayCharacters[index]);
    }

    /** `getOriginalCharacter(at:)`: the first held favourite whose name (or "") equals
        the row's name, rebuilt as a character; the placeholder when there is none. */
    method GetOriginalCharacter(index: int) returns (c: Character)
      requires 0 <= index < |displayCharacters|
      ensures (exists k :: 0 <= k < |allFavorites| && FavoriteName(allFavorites[k]) == displayCharacters[index].name) ==>
        exists k :: (0 <= k < |allFavorites| && FavoriteName(allFavorites[k]) == displayCharacters[index].name
          && (forall j :: 0 <= j < k ==> FavoriteName(allFavorites[j]) != displayCharacters[index].name)
          && c == FavoriteToCharacter(allFavorites[k]))
      ensures (forall k :: 0 <= k < |allFavorites| ==> FavoriteName(allFavorites[k]) != displayCharacters[index].name) ==>
        c == EmptyCharacter()
    {
      var name := displayCharacters[index].name;
      var k := 0;
      while k < |allFavorites| && FavoriteName(allFavorites[k]) != name
        invariant 0 <= k <= |allFavorites|
        invariant forall j :: 0 <= j < k ==> FavoriteName(allFavorites[j]) != name
        decreases |allFavorites| - k
      {
        k := k + 1;
      }
      if k == |allFavorites| {
        return EmptyCharacter();
      }
      c := FavoriteToCharacter(allFavorites[k]);
    }

    /** Every row names a held favourite, so `getOriginalCharacter` never falls back to
        the placeholder. */
    lemma RowHasFavorite(index: int)
      requires Valid()
      requires 0 <= index < |displayCharacters|
      ensures exists k :: 0 <= k < |allFavorites| && FavoriteName(allFavorites[k]) == displayCharacters[index].name
    {
      assert RowsHeld(displayCharacters, allFavorites);
      var k :| 0 <= k < |allFavorites| && displayCharacters[index] == FavoriteRow(allFavorites[k]);
    }

    method ToggleEditMode()
      modifies this
      ensures isEditMode == !old(isEditMode)
      ensures selectedIndices == if isEditMode then old(selectedIndices) else {}
      ensures displayCharacters == old(displayCharacters) && allFavorites == old(allFavorites)
      ensures selectedFilters == old(selectedFilters)
      ensures searchText == old(searchText) && isSearchBarActive == old(isSearchBarActive)
      ensures isLoading == old(isLoading) && errorMessage == old(errorMessage)
    {
      isEditMode := !isEditMode;
      if !isEditMode {
        selectedIndices := {};
      }
    }

    /** `exitEditMode`: the end state does not depend on the start state, so a second
        call changes nothing. */
    method ExitEditMode()
      modifies this
      ensures !isEditMode && selectedIndices == {}
      ensures displayCharacters == old(displayCharacters) && allFavorites == old(allFavorites)
      ensures selectedFilters == old(selectedFilters)
      ensures searchText == old(searchText) && isSearchBarActive == old(isSearchBarActive)
      ensures isLoading == old(isLoading) && errorMessage == old(errorMessage)
    {
      isEditMode := false;
      selectedIndices := {};
    }

    method ToggleSelection(index: int)
      modifies this
      ensures selectedIndices == ToggleSet(old(selectedIndices), index)
      ensures isEditMode == old(isEditMode)
      ensures displayCharacters == old(displayCharacters) && allFavorites == old(allFavorites)
      ensures selectedFilters == old(selectedFilters)
      ensures searchText == old(searchText) && isSearchBarActive == old(isSearchBarActive)
      ensures isLoading == old(isLoading) && errorMessage == old(errorMessage)
    {
      if index in selectedIndices {
        selectedIndices := selectedIndices - {index};
      } else {
        selectedIndices := selectedIndices + {index};
      }
    }

    method IsSelected(index: int) returns (b: bool)
      ensures b <==> index in selectedIndices
    {
      b := index in selectedIndices;
    }

    method HasSelectedItems() returns (b: bool)
      ensures b <==> selectedIndices != {}
    {
      b := selectedIndices != {};
    }

    method SelectedItemsCount() returns (n: int)
      ensures n == |selectedIndices|
    {
      n := |selectedIndices|;
    }

    /** One visit of `removeSelectedFavorites`: the row at `index`, if there is one, is
        removed by name, and only when the store still holds that name. */
    method RemoveSelectedRow(index: int, available: bool)
      requires Valid()
      modifies this`displayCharacters, store`records
      ensures Valid()
      ensures var rows := old(displayCharacters);
        if 0 <= index < |rows| && available && HasName(old(store.records), rows[index].name) then
          displayCharacters == WithoutName(rows, rows[index].name)
          && store.records == RemoveFirstNamed(old(store.records), rows[index].name)
        else
          displayCharacters == rows && store.records == old(store.records)
    {
      var row := CharacterAt(index);
      if row.Some? {
        var _ := RemoveFavorite(row.value.name, available);
      }
    }

    /** `removeSelectedFavorites`: visits the selected indices largest first, removes each
        one that is still a row, then clears the selection and reloads from the store.
        `visited` is the order of the visit. Each visit meets the store on its own:
        `reachable` holds the selected indices whose removal the store answers, and
        `reloadAvailable` says whether the final reload does. */
    method RemoveSelectedFavorites(reachable: set<int>, reloadAvailable: bool) returns (visited: seq<int>)
      requires Valid()
      modifies this, store
      ensures StrictlyDescending(visited)
      ensures forall i :: i in visited <==> i in old(selectedIndices)
      ensures store.records == RemoveSteps(old(displayCharacters), old(store.records), visited, reachable).records
      ensures selectedIndices == {}
      ensures allFavorites == (if reloadAvailable then store.records else [])
      ensures displayCharacters == Map(FavoriteRow, VisibleFavorites(allFavorites, old(searchText), old(isSearchBarActive), old(selectedFilters)))
      ensures Valid() && isEditMode == old(isEditMode) && selectedFilters == old(selectedFilters)
      ensures searchText == old(searchText) && isSearchBarActive == old(isSearchBarActive)
      ensures !isLoading && errorMessage == None
    {
      visited := SortDescending(selectedIndices);
      var k := 0;
      while k < |visited|
        invariant 0 <= k <= |visited|
        invariant Valid()
        invariant RemoveSteps(displayCharacters, store.records, visited[k..], reachable)
               == RemoveSteps(old(displayCharacters), old(store.records), visited, reachable)
        invariant isEditMode == old(isEditMode) && selectedFilters == old(selectedFilters)
        invariant searchText == old(searchText) && isSearchBarActive == old(isSearchBarActive)
      {
        assert visited[k..][1..] == visited[k + 1..];
        RemoveSelectedRow(visited[k], visited[k] in reachable);
        k := k + 1;
      }
      selectedIndices := {};
      FetchFavoriteCharacters(reloadAvailable);
    }
  }
}
