# Rick and Morty browser: list, paging and favourites logic in Dafny

A Dafny model of the client-side logic shared by the two iOS apps of this repository, RickNMorty and GGRickMorty. Both apps browse the characters, locations and episodes of the public Rick and Morty API. The model covers:

- the list screens' search and attribute filter (case-insensitive name search; no filter, one filter as an OR over status, species and gender, several filters each hitting one of them);
- the page loops that fetch locations, episodes and characters page by page, each with its own stop conditions, accumulator and completion;
- the favourites screen's edit mode, multi-selection and removal, over a favourites store held as a sequence of records;
- the filter sheet's tag groups, with one selected tag per group and a flat list of selected titles;
- endpoint paths, request URLs, request building and the guard chain that classifies responses;
- the repositories' next-page flag;
- the display records of characters, episodes and locations, including the icon tables and the season taken from an "SxxEyy" code;
- the detail screens, with their recomputed detail records and checked accessors;
- the logger's level threshold;
- hexadecimal colour parsing and the app palette;
- the ranges of the two-line attributed text.

Screens whose fields change step by step are classes. Their methods carry `modifies` clauses and keep a `Valid()` invariant that ties the shown rows to a specification function of the held data. Page loops are methods that consume the answer the service gives for each page number (`respond`). Pure mappings are functions, and lemmas relate them.

RickNMorty's `Endpoint` and `Services` and GGRickMorty's `GGEndpoint` and `GGService` have the same code. Each pair is modelled once, in the `Endpoint` and `Services` modules. The location and episode screens of each app share their paging specification in `Paging`.

## Model

| member | source | states |
|---|---|---|
| Models.StatusFromRaw | GGRickMorty/Models/DataTypes/GGCharacter.swift:42-46 | decoding a status string gives a case only when that case's raw value is exactly the string |
| Models.GenderFromRaw | GGRickMorty/Models/DataTypes/GGCharacter.swift:48-53 | decoding a gender string gives a case only when that case's raw value is exactly the string |
| Models.RawValuesRoundTrip | GGRickMorty/Models/DataTypes/GGCharacter.swift:42-53 | every case decodes back from its raw value, and a string decodes exactly when it is one of the listed raw values |
| Models.CapitalisedUnknownIsNotRaw | GGRickMorty/ViewModels/GGBottomSheetViewModel.swift:20-22 | the sheet's capitalised "Unknown" tag is the raw value of no status and no gender |
| Endpoint.Path | RickNMorty/APIClient/Endpoint.swift:19-28 | every path is a '/' followed by a lower-case resource name |
| Endpoint.PathInjective | RickNMorty/APIClient/Endpoint.swift:19-28 | different endpoints have different paths, told apart by their second character |
| Services.HTTPMethodRawValuesDistinct | RickNMorty/APIClient/Services.swift:114-123 | the four methods have distinct raw values |
| Services.BaseUrlChars | RickNMorty/APIClient/Services.swift:32 | the base URL is made of URL characters and holds no '?' |
| Services.UrlString | RickNMorty/APIClient/Services.swift:52-55 | the URL string always starts with the base URL followed by the endpoint path |
| Services.BasePathChars | RickNMorty/APIClient/Services.swift:52 | the base URL and path together are made of URL characters and hold no '?' |
| Services.PageQueryChars | RickNMorty/APIClient/Services.swift:53-55 | the page query, negative page numbers included, is made of URL characters |
| Services.UrlStringShape | RickNMorty/APIClient/Services.swift:52-59 | every URL string is made of URL characters, so URL(string:) accepts it and the invalid-URL branch is never taken; it holds a '?' exactly when a page is given |
| Services.UrlStringInjective | RickNMorty/APIClient/Services.swift:52-55 | equal URL strings come from the same endpoint and the same page, or both from no page |
| Services.RequestFor | RickNMorty/APIClient/Services.swift:52-74 | building fails exactly when a POST with parameters fails to serialise; otherwise the request has the URL string and the method's raw value, and carries a body exactly for a POST with parameters |
| Services.Classify | RickNMorty/APIClient/Services.swift:80-107 | a transport error wins, then a missing or non-2xx HTTP response, then missing data, which gives the DataErrorDomain error; a decode failure hands on the decoder's own error; the result is a success exactly when all three checks pass and the data decodes, and it is then the decoded value |
| Services.MakeRequest | RickNMorty/APIClient/Services.swift:50-109 | the completion is called exactly once: with the serialisation error when the request cannot be built, otherwise with the classification of the exchange, after the request built by RequestFor was sent |
| Repositories.HasNextPage | RickNMorty/Repositories/EpisodeRepository.swift:43 | there is a next page exactly when the envelope names one with a non-empty URL, so a missing or empty next link means none |
| Repositories.PageFromResponse | RickNMorty/Repositories/EpisodeRepository.swift:40-47 | a decoded envelope gives its results in order with the derived flag; a failure is passed on unchanged |
| Projection.PassesIffEveryFilterHits | RickNMorty/ViewModels/CharacterListViewModel.swift:96-108 | the one-filter branch and the counting branch both mean that the record hits every selected filter value |
| Projection.NameSearch | RickNMorty/ViewModels/CharacterListViewModel.swift:91 | the search result is never longer than the list searched |
| Projection.NameSearchMembers | RickNMorty/ViewModels/CharacterListViewModel.swift:91 | a record is found exactly when it is in the list and its lower-cased name contains the lower-cased term |
| Projection.NameSearchIsSubsequence | RickNMorty/ViewModels/CharacterListViewModel.swift:91 | the search keeps the records in their order |
| Projection.Searched | RickNMorty/ViewModels/CharacterListViewModel.swift:90-92 | with the search bar inactive or an empty term the list is left as it is |
| Projection.SearchedMembers | RickNMorty/ViewModels/CharacterListViewModel.swift:90-92 | a record survives the search step exactly when it is in the list and, if the search applies, its name matches |
| Projection.SearchedIsSubsequence | RickNMorty/ViewModels/CharacterListViewModel.swift:90-92 | the search step keeps the records in their order |
| Projection.Filtered | RickNMorty/ViewModels/CharacterListViewModel.swift:95 | with no filter selected the list is left as it is |
| Projection.ProjectMembers | RickNMorty/ViewModels/CharacterListViewModel.swift:86-112 | a record is shown exactly when it is held, matches the search if the search applies, and hits every selected filter |
| Projection.ProjectIsSubsequence | RickNMorty/ViewModels/CharacterListViewModel.swift:86-112 | the shown records keep their order from the held list, so there are never more rows than records |
| Projection.ProjectCons | RickNMorty/ViewModels/CharacterListViewModel.swift:95-109 | with the search off, the first record is shown exactly when no filter is selected or it passes them, ahead of the projection of the rest |
| Projection.ProjectElement | RickNMorty/ViewModels/CharacterListViewModel.swift:86-112 | every shown record is a held record |
| Projection.ProjectNothingSelected | RickNMorty/ViewModels/CharacterListViewModel.swift:90-95 | an inactive search or an empty term, with no filter, shows the whole list |
| Projection.UnknownTagMatchesOnlySpecies | GGRickMorty/Models/DataTypes/GGCharacter.swift:42-53 | the filter sheet's "Unknown" hits a character exactly when its species is "Unknown", since no status or gender raw value is capitalised |
| CharacterList.CharacterListViewModel.constructor | RickNMorty/ViewModels/CharacterListViewModel.swift:16-30 | no characters or rows, no filter, no search, not loading and no error |
| CharacterList.CharacterListViewModel.UpdateDisplayCharacters | RickNMorty/ViewModels/CharacterListViewModel.swift:86-113 | the rows are the display records of the characters the search and the filter keep, in order |
| CharacterList.CharacterListViewModel.FetchCharacters | RickNMorty/ViewModels/CharacterListViewModel.swift:33-54 | one request for each page 1 to the limit; on success the held characters are the delivered pages flattened and the rows are recomputed; on failure the characters and rows stay and the error is set; loading ends either way |
| CharacterList.CharacterListViewModel.ApplyFilter | RickNMorty/ViewModels/CharacterListViewModel.swift:56-59 | the filters are stored and the rows recomputed under them |
| CharacterList.CharacterListViewModel.ResetFilters | RickNMorty/ViewModels/CharacterListViewModel.swift:61-64 | the filters are emptied and the rows are the ones `applyFilter(filters: [])` would give |
| CharacterList.CharacterListViewModel.SearchForCharacters | RickNMorty/ViewModels/CharacterListViewModel.swift:66-70 | the term and the search-bar state are stored and the rows recomputed under them |
| CharacterList.CharacterListViewModel.NumberOfItems | RickNMorty/ViewModels/CharacterListViewModel.swift:72-74 | the row count, never more than the characters held |
| CharacterList.CharacterListViewModel.CharacterAt | RickNMorty/ViewModels/CharacterListViewModel.swift:76-78 | the row at the index, which shows a held character that matches the search and hits every filter |
| CharacterList.CharacterListViewModel.HeldRow | RickNMorty/ViewModels/CharacterListViewModel.swift:80-83 | every row's id is the id of some held character |
| CharacterList.CharacterListViewModel.GetOriginalCharacter | RickNMorty/ViewModels/CharacterListViewModel.swift:80-83 | the first held character with the row's id; one always exists, so the force-unwrap never fails |
| CharacterList.VisibleOfThree | RickNMorty/ViewModels/CharacterListViewModel.swift:95-112 | example: the projection unfolded on a list of three characters without a search, used by FilterExamples |
| CharacterList.FilterExamples | RickNMorty/ViewModels/CharacterListViewModel.swift:95-108 | over an alive human male, a dead human male and an alive human female, "Alive" keeps the first and third, "Alive" with "Female" keeps the third, and no filter keeps all three |
| Favorites.FavoriteRow | RickNMorty/ViewModels/FavoriteViewModel.swift:189-202 | a favourite's row carries its name (or ""), species, origin and image URL; status, gender, their icons, location, created text and episode links are empty |
| Favorites.ProjectionRowsHeld | RickNMorty/ViewModels/FavoriteViewModel.swift:163-202 | every row the projection produces is the row of a favourite the screen holds |
| Favorites.WithoutNameMembers | RickNMorty/ViewModels/FavoriteViewModel.swift:63 | removing rows by name drops exactly the rows with that name and keeps every other row, in order |
| Favorites.WithoutNameRowsHeld | RickNMorty/ViewModels/FavoriteViewModel.swift:60-66 | removing rows by name keeps every remaining row backed by a held favourite |
| Favorites.ToggleSet | RickNMorty/ViewModels/FavoriteViewModel.swift:130-136 | the toggled index is selected exactly when it was not; every other index keeps its state |
| Favorites.ToggleTwice | RickNMorty/ViewModels/FavoriteViewModel.swift:130-136 | toggling the same index twice restores the selection |
| Favorites.SetHasMax | RickNMorty/ViewModels/FavoriteViewModel.swift:151 | a non-empty set of indices has a largest element, which the descending sort takes first |
| Favorites.SortDescending | RickNMorty/ViewModels/FavoriteViewModel.swift:151 | the selected indices sorted largest first: strictly descending and holding exactly the selected indices |
| Favorites.WithoutUniqueName | RickNMorty/ViewModels/FavoriteViewModel.swift:63 | when row names are unique, removing a row's name removes that row alone |
| Favorites.RemoveStepsShrinks | RickNMorty/ViewModels/FavoriteViewModel.swift:150-157 | the removal visit never adds a row |
| Favorites.DropUniqueRow | RickNMorty/ViewModels/FavoriteViewModel.swift:150-157 | removing a uniquely named row leaves the rows before it in place and moves the ones after it down by one, so the smaller selected indices still point at the same rows |
| Favorites.DropKeepsDistinct | RickNMorty/ViewModels/FavoriteViewModel.swift:150-157 | dropping one row keeps the remaining names unique |
| Favorites.DescendingVisitRemovesSelected | RickNMorty/ViewModels/FavoriteViewModel.swift:150-157 | with unique names, stored selected rows and a descending visit, a row survives exactly when its index was not selected or the store did not answer that visit |
| Favorites.VisitSkipsHead | RickNMorty/ViewModels/FavoriteViewModel.swift:153-157 | a first visit the store does not answer removes nothing, and the rest of the visit alone decides which rows survive |
| Favorites.VisitRemovesHead | RickNMorty/ViewModels/FavoriteViewModel.swift:153-157 | a first visit the store answers removes exactly that row, and the later, smaller indices still name the same rows |
| Favorites.FavoriteToCharacter | RickNMorty/ViewModels/FavoriteViewModel.swift:96-114 | the rebuilt character has id 0, missing texts become "", and status and gender are decoded from their raw values, unknown when missing or unrecognised |
| Favorites.FavoriteStatusGender | RickNMorty/ViewModels/FavoriteViewModel.swift:96-99 | a stored status or gender survives exactly when it is a raw value; a missing or unrecognised one becomes unknown |
| Favorites.EmptyCharacter | RickNMorty/ViewModels/FavoriteViewModel.swift:79-93 | the placeholder character has id 0, an empty name and unknown status and gender |
| Favorites.FavoriteViewModel.constructor | RickNMorty/ViewModels/FavoriteViewModel.swift:14-31 | a new screen holds no favourites or rows, has no filter, no search, no selection and is not in edit mode |
| Favorites.FavoriteViewModel.UpdateDisplayCharacters | RickNMorty/ViewModels/FavoriteViewModel.swift:163-203 | the rows are the search-and-filter projection of the held favourites, each shown as its row, and every row is backed by a held favourite |
| Favorites.FavoriteViewModel.FetchFavoriteCharacters | RickNMorty/ViewModels/FavoriteViewModel.swift:34-42 | the screen holds every stored favourite (none when the fetch fails), the rows are recomputed, loading is over and there is no error |
| Favorites.FavoriteViewModel.ApplyFilter | RickNMorty/ViewModels/FavoriteViewModel.swift:44-47 | the filters are stored and the rows become the projection under them; the held favourites, search, edit state, selection, loading flag and error stay as they were |
| Favorites.FavoriteViewModel.ResetFilters | RickNMorty/ViewModels/FavoriteViewModel.swift:49-52 | the filters are emptied and the rows become the projection with no filter; every other field stays as it was |
| Favorites.FavoriteViewModel.SearchForCharacters | RickNMorty/ViewModels/FavoriteViewModel.swift:54-58 | the term and the search-bar state are stored and the rows become the projection under them; the filters, edit state, selection, loading flag and error stay as they were |
| Favorites.FavoriteViewModel.RemoveFavorite | RickNMorty/ViewModels/FavoriteViewModel.swift:60-66 | succeeds exactly when the store's fetch works and holds the name; then the store loses the first record with that name and the screen every row with it, otherwise neither changes |
| Favorites.FavoriteViewModel.NumberOfItems | RickNMorty/ViewModels/FavoriteViewModel.swift:68-70 | the number of rows |
| Favorites.FavoriteViewModel.CharacterAt | RickNMorty/ViewModels/FavoriteViewModel.swift:72-75 | absent exactly when the index is negative or past the end, otherwise the row at the index |
| Favorites.FavoriteViewModel.GetOriginalCharacter | RickNMorty/ViewModels/FavoriteViewModel.swift:77-115 | the first held favourite whose name equals the row's, rebuilt as a character; the placeholder when none has it |
| Favorites.FavoriteViewModel.RowHasFavorite | RickNMorty/ViewModels/FavoriteViewModel.swift:78-79 | every row's name belongs to a held favourite, so the placeholder is never returned for a shown row |
| Favorites.FavoriteViewModel.ToggleEditMode | RickNMorty/ViewModels/FavoriteViewModel.swift:118-123 | edit mode flips, and the selection is emptied when edit mode ends; rows, favourites, filters, search, loading flag and error stay as they were |
| Favorites.FavoriteViewModel.ExitEditMode | RickNMorty/ViewModels/FavoriteViewModel.swift:125-128 | edit mode is off and the selection empty whatever the state before, so a second call changes nothing; rows, favourites, filters, search, loading flag and error stay as they were |
| Favorites.FavoriteViewModel.ToggleSelection | RickNMorty/ViewModels/FavoriteViewModel.swift:130-136 | the selection becomes the toggle of the index; edit mode, rows, favourites, filters, search, loading flag and error stay as they were |
| Favorites.FavoriteViewModel.IsSelected | RickNMorty/ViewModels/FavoriteViewModel.swift:138-140 | true exactly when the index is selected |
| Favorites.FavoriteViewModel.HasSelectedItems | RickNMorty/ViewModels/FavoriteViewModel.swift:142-144 | true exactly when the selection is not empty |
| Favorites.FavoriteViewModel.SelectedItemsCount | RickNMorty/ViewModels/FavoriteViewModel.swift:146-148 | the number of selected indices |
| Favorites.FavoriteViewModel.RemoveSelectedRow | RickNMorty/ViewModels/FavoriteViewModel.swift:153-157 | one visited index: a row still there whose name is stored leaves the store (first record) and the screen (every row with the name); otherwise nothing changes |
| Favorites.FavoriteViewModel.RemoveSelectedFavorites | RickNMorty/ViewModels/FavoriteViewModel.swift:150-161 | the selected indices are visited strictly largest first, each visit meeting the store on its own (answered or not), the store ends as that visit leaves it, the selection is emptied and the screen reloads from the store, with an outcome of its own, and shows the reloaded favourites under the unchanged filters and search, with loading off and no error |
| FavoriteRepository.FirstNamed | RickNMorty/Repositories/FavoriteRepository.swift:41-46 | absent exactly when no record has the name; otherwise the position of a record with the name before which none has it |
| FavoriteRepository.RemoveFirstNamedDeletesOne | RickNMorty/Repositories/FavoriteRepository.swift:46-50 | removing by name deletes exactly one record, the first with that name, and keeps the others in their order |
| FavoriteRepository.DropAt | RickNMorty/Repositories/FavoriteRepository.swift:47 | deleting the record at a position loses that record only and closes the gap |
| FavoriteRepository.RemoveFirstNamedKeepsOthers | RickNMorty/Repositories/FavoriteRepository.swift:39-56 | removing one name leaves every other name exactly as much a favourite as before |
| FavoriteRepository.AddMakesFavorite | RickNMorty/Repositories/FavoriteRepository.swift:32-37 | after a named record is added, its name is a favourite |
| FavoriteRepository.RemoveOnlyRecord | RickNMorty/Repositories/FavoriteRepository.swift:39-56 | after a removal the name is no longer a favourite exactly when it was held by only one record |
| FavoriteRepository.FavoriteStore.constructor | RickNMorty/Repositories/FavoriteRepository.swift:13-15 | the store starts with the records it is given |
| FavoriteRepository.FavoriteStore.GetFavoriteCharacters | RickNMorty/Repositories/FavoriteRepository.swift:18-29 | every stored record when the fetch succeeds, none when it fails |
| FavoriteRepository.FavoriteStore.AddFavorite | RickNMorty/Repositories/FavoriteRepository.swift:32-37 | the record is appended without any duplicate check and the answer is always true |
| FavoriteRepository.FavoriteStore.RemoveFavorite | RickNMorty/Repositories/FavoriteRepository.swift:39-56 | true exactly when the fetch succeeds and some record has the name, and then only the first such record is deleted; otherwise the store is unchanged |
| FavoriteRepository.FavoriteStore.IsFavorite | RickNMorty/Repositories/FavoriteRepository.swift:59-71 | true exactly when the count succeeds and some stored record has the name |
| Favorites.WithoutName | RickNMorty/ViewModels/FavoriteViewModel.swift:63 | removing the rows with a name never adds a row |
| GGCharacterList.FilteredCharacters | GGRickMorty/ViewModels/GGCharacterListViewModel.swift:73-91 | the filter never adds a character |
| Text.Lower | RickNMorty/ViewModels/CharacterListViewModel.swift:91 | lower-casing keeps the length and maps each character on its own, moving only the capital letters |
| Text.LowerIdempotent | RickNMorty/ViewModels/CharacterListViewModel.swift:91 | lower-casing twice is lower-casing once |
| Text.ContainsIffOccurs | RickNMorty/ViewModels/CharacterListViewModel.swift:91 | contains holds exactly when the term occurs at some position of the text |
| Text.SearchIgnoresCase | RickNMorty/ViewModels/CharacterListViewModel.swift:91 | the name search gives the same answer when either side is lower-cased first |
| Text.DigitStringRoundTrip | RickNMorty/APIClient/Services.swift:54 | the decimal digits of a page number read back as that number |
| Text.IntToString | RickNMorty/APIClient/Services.swift:54 | a number is rendered as its decimal digits, with a leading '-' when negative |
| Text.IntToStringInjective | RickNMorty/APIClient/Services.swift:54 | different numbers render differently |
| Seqs.Keep | RickNMorty/ViewModels/CharacterListViewModel.swift:91 | a filter never adds an element |
| Seqs.KeepMembers | RickNMorty/ViewModels/CharacterListViewModel.swift:91 | an element survives a filter exactly when it was there and passes |
| Seqs.KeepIsSubsequence | RickNMorty/ViewModels/CharacterListViewModel.swift:91 | a filter keeps the surviving elements in their order |
| Seqs.KeepAllIff | RickNMorty/ViewModels/CharacterListViewModel.swift:95-109 | a filter keeps the whole list exactly when every element passes, and then gives the list back |
| Seqs.SubsequenceMembers | RickNMorty/ViewModels/CharacterListViewModel.swift:86-112 | every element of an order-preserving sublist is an element of the list |
| Seqs.SubsequenceLength | RickNMorty/ViewModels/CharacterListViewModel.swift:72-74 | an order-preserving sublist is never longer than the list |
| Seqs.SubsequenceRefl | RickNMorty/ViewModels/CharacterListViewModel.swift:90-95 | a list is a sublist of itself, so skipping a step keeps every record |
| Seqs.SubsequenceTrans | RickNMorty/ViewModels/CharacterListViewModel.swift:86-112 | a sublist of a sublist is a sublist, so chaining search and filter keeps the order |
| Seqs.SubsequenceExtend | RickNMorty/ViewModels/CharacterListViewModel.swift:50 | a sublist stays a sublist when more elements are appended to the list, as each fetched page is |
| Seqs.RemoveAll | RickNMorty/ViewModels/FavoriteViewModel.swift:63 | removing every copy of a value leaves none, and adds nothing |
| Seqs.RemoveAllMembers | GGRickMorty/ViewModels/GGBottomSheetViewModel.swift:62 | a value survives removal of another exactly when it was there |
| Seqs.FirstIndex | RickNMorty/ViewModels/CharacterListViewModel.swift:82 | the first position whose element passes, or the length when none does, and no earlier element passes |
| Seqs.Map | RickNMorty/ViewModels/CharacterListViewModel.swift:112 | mapping keeps the length and maps each element in place |
| Seqs.FlattenAppend | RickNMorty/ViewModels/CharacterListViewModel.swift:50 | flattening the pages with one more page appended is flattening the pages and then appending that page |
| Seqs.Range | RickNMorty/ViewModels/CharacterListViewModel.swift:37-39 | the page numbers from the first to the last, one each, in order, and none when the range is empty |
| GGCharacterList.GGPassesIffEveryFilterHits | GGRickMorty/ViewModels/GGCharacterListViewModel.swift:73-91 | the three branches (no filter, one filter, several) all mean that every filter value is hit by the status, species or gender, which is RickNMorty's rule too |
| GGCharacterList.FilteredCharactersMembers | GGRickMorty/ViewModels/GGCharacterListViewModel.swift:73-91 | a character is kept exactly when it is held and hits every filter value; with no filter every character is kept, in order |
| GGCharacterList.GGCharacterListViewModel.constructor | GGRickMorty/ViewModels/GGCharacterListViewModel.swift:13-18 | every list is empty, no filter is selected or active and the search bar is inactive |
| GGCharacterList.GGCharacterListViewModel.FetchAllCharacters | GGRickMorty/ViewModels/GGCharacterListViewModel.swift:21-30 | a decoded page hands on exactly its results, a failure exactly its error |
| GGCharacterList.GGCharacterListViewModel.FetchCharacters | GGRickMorty/ViewModels/GGCharacterListViewModel.swift:32-69 | the held characters, the pages asked for and the completion are those of the page loop `GGFetchAll` from page 1 |
| GGCharacterList.GGCharacterListViewModel.ApplyFilter | GGRickMorty/ViewModels/GGCharacterListViewModel.swift:71-93 | the filters are stored, the filter result is the characters that pass, and the filter is active exactly when that result is not empty, so an empty result shows every character |
| GGCharacterList.GGCharacterListViewModel.ResetFilters | GGRickMorty/ViewModels/GGCharacterListViewModel.swift:95-99 | the filters and their result are emptied and the filter is inactive |
| GGCharacterList.GGCharacterListViewModel.SearchForCharacters | GGRickMorty/ViewModels/GGCharacterListViewModel.swift:101-105 | the search result is the case-insensitive name search over every held character |
| GGCharacterList.GGCharacterListViewModel.GetNumberOfItems | GGRickMorty/ViewModels/GGCharacterListViewModel.swift:107-115 | the length of the shown list (search, else filter, else all), never more than the characters held |
| GGCharacterList.GGCharacterListViewModel.GetCharacter | GGRickMorty/ViewModels/GGCharacterListViewModel.swift:117-125 | the element of the same shown list, always a held character |
| GGCharacterList.GGCharacterListViewModel.GetSelectedFilters | GGRickMorty/ViewModels/GGCharacterListViewModel.swift:127-129 | the stored filters |
| GGCharacterList.GGCharacterListViewModel.SetIsSearchBarActive | GGRickMorty/ViewModels/GGCharacterListViewModel.swift:131-133 | the search-bar state is the one given |
| BottomSheet.TagGroups | GGRickMorty/ViewModels/GGBottomSheetViewModel.swift:20-22 | titles are distinct within each group, and "Unknown" is both a status and a gender title but not a species title |
| BottomSheet.DropOthersMembers | GGRickMorty/ViewModels/GGBottomSheetViewModel.swift:46-53 | deselecting the other selected tags removes exactly their titles, every occurrence, from the filter list |
| BottomSheet.PressedSelection | GGRickMorty/ViewModels/GGBottomSheetViewModel.swift:47-56 | after a press the pressed tag has flipped and every other tag of the group is deselected, so at most one is selected |
| BottomSheet.PressedFiltersMembers | GGRickMorty/ViewModels/GGBottomSheetViewModel.swift:44-64 | after a press the pressed title is listed exactly when its tag ends selected; another title stays exactly when no other selected tag carried it; nothing else is added |
| BottomSheet.SharedUnknownTitle | GGRickMorty/ViewModels/GGBottomSheetViewModel.swift:20-22 | pressing the selected status "Unknown" removes "Unknown" from the list although the gender "Unknown" stays selected |
| BottomSheet.TagGroup.constructor | GGRickMorty/ViewModels/GGBottomSheetViewModel.swift:25-28 | a group set up with its titles has none of them selected |
| BottomSheet.GGBottomSheetViewModel.constructor | GGRickMorty/ViewModels/GGBottomSheetViewModel.swift:18 | the filter list starts empty |
| BottomSheet.GGBottomSheetViewModel.TagPressed | GGRickMorty/ViewModels/GGBottomSheetViewModel.swift:44-64 | the group's selection and the filter list become `PressedSelection` and `PressedFilters` of the old state |
| BottomSheet.GGBottomSheetViewModel.ApplySelectedFilter | GGRickMorty/ViewModels/GGBottomSheetViewModel.swift:30-35 | the first tag whose title is listed becomes selected and no other tag changes |
| BottomSheet.GGBottomSheetViewModel.ApplyButtonTapped | GGRickMorty/ViewModels/GGBottomSheetViewModel.swift:37-39 | the delegate receives the filter list unchanged |
| Paging.FetchPagesStep | RickNMorty/ViewModels/LocationViewModel.swift:43-70 | one step of the page loop: the guard fails and nothing is asked for; a failed page stops with its error; an answered last page (the limit, or no next page) is appended and stops; any other answered page is appended and the loop goes on from the next page |
| Paging.FetchPagesRequests | RickNMorty/ViewModels/LocationViewModel.swift:44-48 | pages are asked for in order from the first page, at most up to the limit, and none at all exactly when the guard fails on entry |
| Paging.FetchPagesItems | RickNMorty/ViewModels/LocationViewModel.swift:59 | the accumulator ends as the old one followed by the items of every answered page, in page order, so it is never cleared |
| Paging.FetchPagesContinued | RickNMorty/ViewModels/LocationViewModel.swift:62-67 | every page before the last one asked for was below the limit and answered with a next page |
| Paging.FetchPagesStop | RickNMorty/ViewModels/LocationViewModel.swift:52-67 | the loop stops on a failure (with that page's error), at the limit, or at a page without a next page; the flag is the last answered page's; with no page asked for, nothing changes |
| Paging.GGFetchStep | GGRickMorty/ViewModels/GGLocationViewModel.swift:36-64 | one step of `fetchNextPage`: past the limit or with the flag down the completion gets the accumulator; a failure is handed on; the limit page hands on its own results; a page below the limit is appended and the loop goes on with the flag that page reported |
| Paging.GGFetchRequests | GGRickMorty/ViewModels/GGLocationViewModel.swift:37 | pages are asked for in order from the first page, at most up to the limit; with the flag down nothing is asked for and the completion gets the accumulator, so a repeat fetch after the last page asks for nothing |
| Paging.GGFetchItems | GGRickMorty/ViewModels/GGLocationViewModel.swift:43 | the accumulator ends as the old one followed by the results of every answered page, in page order |
| Paging.GGFetchCompletion | GGRickMorty/ViewModels/GGLocationViewModel.swift:46-62 | the completion gets a failed page's error, only the last page's results at the limit, and the whole accumulator when a page without a next page stopped the loop early |
| Paging.GGFetchAllRequests | GGRickMorty/ViewModels/GGCharacterListViewModel.swift:36-57 | character pages are asked for in order from the first, each after the one before it was answered, with no next-page check; nothing is asked for exactly when the limit is below 1, and then the completion gets the held characters |
| Paging.GGFetchAllItems | GGRickMorty/ViewModels/GGCharacterListViewModel.swift:43 | the characters end as the old ones followed by the results of every answered page, in page order, so fetching never clears them |
| Paging.GGFetchAllCompletion | GGRickMorty/ViewModels/GGCharacterListViewModel.swift:46-57 | with a limit of at least 1, a failure stops the loop and its error is handed on; otherwise the loop reaches the limit and hands on only the last page's results |
| LocationList.LocationViewModel.constructor | RickNMorty/ViewModels/LocationViewModel.swift:17-31 | no locations or rows, the flag up, not loading, no error and no search |
| LocationList.LocationViewModel.UpdateDisplayLocations | RickNMorty/ViewModels/LocationViewModel.swift:91-100 | the rows are the display records of the locations the search keeps (all of them unless the search is active with a non-empty term), in order |
| LocationList.LocationViewModel.AppendPage | RickNMorty/ViewModels/LocationViewModel.swift:59-60 | the page's locations are appended and the flag takes the page's next-page value |
| LocationList.LocationViewModel.FetchLocations | RickNMorty/ViewModels/LocationViewModel.swift:34-40 | the locations, the flag, the pages asked for and the error are those of the page loop from page 1 with the flag raised; the rows are recomputed unless a page failed, and loading is over |
| LocationList.LocationViewModel.FetchPagesFrom | RickNMorty/ViewModels/LocationViewModel.swift:43-70 | the same outcome from any page with the current flag: rows recomputed when the guard fails or the last page is answered, left as they were after a failure |
| LocationList.LocationViewModel.SearchForLocations | RickNMorty/ViewModels/LocationViewModel.swift:72-76 | the term and the search-bar state are stored and the rows become the search result over every held location |
| LocationList.LocationViewModel.NumberOfItems | RickNMorty/ViewModels/LocationViewModel.swift:78-80 | the row count, never more than the locations held |
| LocationList.LocationViewModel.LocationAt | RickNMorty/ViewModels/LocationViewModel.swift:82-84 | the row at the index, which shows a held location |
| LocationList.LocationViewModel.GetOriginalLocation | RickNMorty/ViewModels/LocationViewModel.swift:86-89 | the first held location with the row's id; one always exists, so the force-unwrap never fails |
| EpisodeList.EpisodeViewModel.constructor | RickNMorty/ViewModels/EpisodeViewModel.swift:16-30 | no episodes or rows, the flag up, not loading, no error and no search |
| EpisodeList.EpisodeViewModel.UpdateDisplayEpisodes | RickNMorty/ViewModels/EpisodeViewModel.swift:90-99 | the rows are the display records of the episodes the search keeps, in order |
| EpisodeList.EpisodeViewModel.AppendPage | RickNMorty/ViewModels/EpisodeViewModel.swift:58-59 | the page's episodes are appended and the flag takes the page's next-page value |
| EpisodeList.EpisodeViewModel.FetchEpisodes | RickNMorty/ViewModels/EpisodeViewModel.swift:33-39 | the episodes, the flag, the pages asked for and the error are those of the page loop from page 1 with the flag raised; the rows are recomputed unless a page failed, and loading is over |
| EpisodeList.EpisodeViewModel.FetchPagesFrom | RickNMorty/ViewModels/EpisodeViewModel.swift:42-69 | the same outcome from any page with the current flag: rows recomputed when the guard fails or the last page is answered, left as they were after a failure |
| EpisodeList.EpisodeViewModel.SearchForEpisodes | RickNMorty/ViewModels/EpisodeViewModel.swift:71-75 | the term and the search-bar state are stored and the rows become the search result over every held episode |
| EpisodeList.EpisodeViewModel.NumberOfItems | RickNMorty/ViewModels/EpisodeViewModel.swift:77-79 | the row count, never more than the episodes held |
| EpisodeList.EpisodeViewModel.EpisodeAt | RickNMorty/ViewModels/EpisodeViewModel.swift:81-83 | the row at the index, which shows a held episode |
| EpisodeList.EpisodeViewModel.GetOriginalEpisode | RickNMorty/ViewModels/EpisodeViewModel.swift:85-88 | the first held episode with the row's id; one always exists |
| GGLocationList.GGLocationViewModel.constructor | GGRickMorty/ViewModels/GGLocationViewModel.swift:13-16 | no locations, an empty search result, the search bar inactive and the flag up |
| GGLocationList.GGLocationViewModel.FetchAllLocations | GGRickMorty/ViewModels/GGLocationViewModel.swift:19-30 | a decoded page sets the flag from its `next` link (up exactly when present and non-empty) and hands on its results; a failure is handed on and leaves the flag alone |
| GGLocationList.GGLocationViewModel.FetchLocations | GGRickMorty/ViewModels/GGLocationViewModel.swift:32-69 | the locations, the flag, the pages asked for and the completion are those of `GGFetch` from page 1 with the flag as it was, since the flag is not raised first |
| GGLocationList.GGLocationViewModel.FetchPage | GGRickMorty/ViewModels/GGLocationViewModel.swift:38-58 | one pass of the loop either ends it with the outcome `GGFetch` gives for this page, or appends a page below the limit and leaves the rest to the next page |
| GGLocationList.GGLocationViewModel.AppendResponse | GGRickMorty/ViewModels/GGLocationViewModel.swift:43 | the page's locations are appended and the search result stays made of held locations |
| GGLocationList.GGLocationViewModel.SearchForLocations | GGRickMorty/ViewModels/GGLocationViewModel.swift:71-75 | the search result is the case-insensitive name search over every held location, in order |
| GGLocationList.GGLocationViewModel.GetNumberOfItems | GGRickMorty/ViewModels/GGLocationViewModel.swift:77-83 | the length of the search result while the search bar is active, else of every location; never more than the locations held |
| GGLocationList.GGLocationViewModel.GetLocation | GGRickMorty/ViewModels/GGLocationViewModel.swift:85-91 | the element of the same list, always a held location |
| GGLocationList.GGLocationViewModel.SetIsSearchBarActive | GGRickMorty/ViewModels/GGLocationViewModel.swift:93-95 | the search-bar state is the one given |
| GGEpisodeList.GGEpisodeViewModel.constructor | GGRickMorty/ViewModels/GGEpisodeViewModel.swift:13-16 | no episodes, an empty search result, the search bar inactive and the flag up |
| GGEpisodeList.GGEpisodeViewModel.FetchAllEpisodes | GGRickMorty/ViewModels/GGEpisodeViewModel.swift:19-30 | a decoded page sets the flag from its `next` link and hands on its results; a failure is handed on and leaves the flag alone |
| GGEpisodeList.GGEpisodeViewModel.FetchEpisodes | GGRickMorty/ViewModels/GGEpisodeViewModel.swift:32-69 | the episodes, the flag, the pages asked for and the completion are those of `GGFetch` from page 1 with the flag as it was |
| GGEpisodeList.GGEpisodeViewModel.FetchPage | GGRickMorty/ViewModels/GGEpisodeViewModel.swift:38-58 | one pass of the loop either ends it with the outcome `GGFetch` gives for this page, or appends a page below the limit and leaves the rest to the next page |
| GGEpisodeList.GGEpisodeViewModel.AppendResponse | GGRickMorty/ViewModels/GGEpisodeViewModel.swift:43 | the page's episodes are appended and the search result stays made of held episodes |
| GGEpisodeList.GGEpisodeViewModel.SearchForEpisodes | GGRickMorty/ViewModels/GGEpisodeViewModel.swift:71-75 | the search result is the case-insensitive name search over every held episode, in order |
| GGEpisodeList.GGEpisodeViewModel.GetNumberOfItems | GGRickMorty/ViewModels/GGEpisodeViewModel.swift:77-83 | the length of the search result while the search bar is active, else of every episode; never more than the episodes held |
| GGEpisodeList.GGEpisodeViewModel.GetEpisode | GGRickMorty/ViewModels/GGEpisodeViewModel.swift:85-91 | the element of the same list, always a held episode |
| GGEpisodeList.GGEpisodeViewModel.SetIsSearchBarActive | GGRickMorty/ViewModels/GGEpisodeViewModel.swift:93-95 | the search-bar state is the one given |
| DisplayData.CharacterToDisplay | RickNMorty/ViewModels/DisplayData/CharacterDisplayData.swift:33-40 | a list row keeps the character's id, name and species and shows its image, so the id lookup behind a row can find the character again |
| DisplayData.StatusImageName | RickNMorty/ViewModels/DisplayData/CharacterDisplayData.swift:43-49 | every status icon is an "ic_" asset name |
| DisplayData.GenderImageName | RickNMorty/ViewModels/DisplayData/CharacterDisplayData.swift:51-57 | every gender icon is an "ic_" asset name |
| DisplayData.ImageNameTables | RickNMorty/ViewModels/DisplayData/CharacterDisplayData.swift:43-57 | distinct statuses get distinct icons; two genders share an icon exactly when they are equal or both genderless-or-unknown |
| DisplayData.CharacterToDetail | RickNMorty/ViewModels/DisplayData/CharacterDisplayData.swift:42-72 | the detail record's labelled texts, icons, origin and location names, image, the whole episode list of the character and its created date as the text the left-out styling starts from |
| DisplayData.DetailTextsRecoverValues | RickNMorty/ViewModels/DisplayData/CharacterDisplayData.swift:61-70 | dropping the "Status: ", "Gender: " and "Species: " prefixes gives back the raw values, and there are as many episode links as episodes |
| DisplayData.BeforeFirst | RickNMorty/ViewModels/DisplayData/EpisodeDisplayData.swift:29 | the first piece of the code split at "E": a prefix without "E", followed in the code by an "E" unless it is the whole code |
| DisplayData.Without | RickNMorty/ViewModels/DisplayData/EpisodeDisplayData.swift:30 | removing every "S" never lengthens the text |
| DisplayData.WithoutMembers | RickNMorty/ViewModels/DisplayData/EpisodeDisplayData.swift:30 | a character survives the removal exactly when it was there and is not the removed one |
| DisplayData.SeasonShape | RickNMorty/ViewModels/DisplayData/EpisodeDisplayData.swift:29-30 | the season holds neither "S" nor "E" and is never longer than the code; a code without "E" gives the whole code without its "S"s, and an empty code gives "" |
| DisplayData.SeasonOfFirstEpisode | RickNMorty/ViewModels/DisplayData/EpisodeDisplayData.swift:29-30 | example: the season of "S01E01" is "01" |
| DisplayData.EpisodeToDisplay | RickNMorty/ViewModels/DisplayData/EpisodeDisplayData.swift:28-39 | an episode row keeps the id, name, code and air date and adds the season of the code |
| DisplayData.LocationToDisplay | RickNMorty/ViewModels/DisplayData/LocationDisplayData.swift:27-34 | a location row keeps the id, name, type and dimension |
| CharacterDetail.DetailOf | RickNMorty/ViewModels/CharacterDetailViewModel.swift:17-21 | a detail record exists exactly when a character is given, with its name and its episode links |
| CharacterDetail.CharacterDetailViewModel.constructor | RickNMorty/ViewModels/CharacterDetailViewModel.swift:17-21 | no character leaves the detail empty; a character gives its detail record |
| CharacterDetail.CharacterDetailViewModel.Configure | RickNMorty/ViewModels/CharacterDetailViewModel.swift:24-26 | the detail becomes the new character's record |
| CharacterDetail.CharacterDetailViewModel.NumberOfEpisodes | RickNMorty/ViewModels/CharacterDetailViewModel.swift:28-30 | the number of episode links, or 0 without a detail |
| CharacterDetail.CharacterDetailViewModel.EpisodeURL | RickNMorty/ViewModels/CharacterDetailViewModel.swift:32-34 | absent exactly when there is no detail; otherwise the link at the index, which must be in range because the subscript is unchecked |
| EpisodeDetail.StyledHeading | RickNMorty/ViewModels/EpisodeDetailViewModel.swift:61-68 | the heading keeps its text and its styled range starts at offset 9 and ends exactly at the end of the text |
| EpisodeDetail.EpisodeDetailFor | RickNMorty/ViewModels/EpisodeDetailViewModel.swift:52-58 | the detail record carries the episode's name and the title "Characters" |
| EpisodeDetail.HeadingStylesDate | RickNMorty/ViewModels/EpisodeDetailViewModel.swift:45-48 | the heading starts with "Air Date: " and its styled range, from offset 9 to the end, covers the space and the whole formatted date, so it always fits |
| EpisodeDetail.DetailOf | RickNMorty/ViewModels/EpisodeDetailViewModel.swift:39-43 | a detail record exists exactly when there is an episode |
| EpisodeDetail.EpisodeDetailViewModel.constructor | RickNMorty/ViewModels/EpisodeDetailViewModel.swift:23-26 | the episode is stored and the detail record belongs to it |
| EpisodeDetail.EpisodeDetailViewModel.SetEpisode | RickNMorty/ViewModels/EpisodeDetailViewModel.swift:14-18 | every assignment of the episode recomputes the detail record |
| EpisodeDetail.EpisodeDetailViewModel.UpdateDisplayData | RickNMorty/ViewModels/EpisodeDetailViewModel.swift:39-59 | the detail record is the current episode's, or absent without one |
| EpisodeDetail.EpisodeDetailViewModel.NumberOfCharacters | RickNMorty/ViewModels/EpisodeDetailViewModel.swift:29-31 | the number of character links, or 0 without an episode |
| EpisodeDetail.EpisodeDetailViewModel.CharacterAt | RickNMorty/ViewModels/EpisodeDetailViewModel.swift:33-36 | present exactly when the index is within the character links, and then the link at it; a negative index is not guarded |
| LocationDetail.LocationDetailFor | RickNMorty/ViewModels/LocationDetailViewModel.swift:45-57 | the detail record carries the location's name, the title "Residents" and a dimension text split into title and value |
| LocationDetail.LocationDetailTexts | RickNMorty/ViewModels/LocationDetailViewModel.swift:45-49 | the type text is "Type: " followed by the type, and the dimension text is "Dimension:" and a newline followed by the dimension |
| LocationDetail.DetailOf | RickNMorty/ViewModels/LocationDetailViewModel.swift:39-43 | a detail record exists exactly when there is a location |
| LocationDetail.LocationDetailViewModel.constructor | RickNMorty/ViewModels/LocationDetailViewModel.swift:23-26 | the location is stored and the detail record belongs to it |
| LocationDetail.LocationDetailViewModel.SetLocation | RickNMorty/ViewModels/LocationDetailViewModel.swift:14-18 | every assignment of the location recomputes the detail record |
| LocationDetail.LocationDetailViewModel.UpdateDisplayData | RickNMorty/ViewModels/LocationDetailViewModel.swift:39-59 | the detail record is the current location's, or absent without one |
| LocationDetail.LocationDetailViewModel.NumberOfResidents | RickNMorty/ViewModels/LocationDetailViewModel.swift:29-31 | the number of resident links, or 0 without a location |
| LocationDetail.LocationDetailViewModel.ResidentAt | RickNMorty/ViewModels/LocationDetailViewModel.swift:33-36 | present exactly when the index is within the resident links, and then the link at it; a negative index is not guarded |
| AttributedText.LineBreak | GGRickMorty/Utilities/Helpers/AttributedString+Helper.swift:11-24 | the text is the title, a line break and the subtitle; the title range starts at 0 and covers the title line, the subtitle range starts where it ends and ends at the end of the text |
| AttributedText.AttributedStringForLineBreak | GGRickMorty/Utilities/Helpers/AttributedString+Helper.swift:11-24 | laying down the title line and then appending the subtitle yields the two-range text of LineBreak |
| GGCharacterDetail.GGCharacterDetailViewModel.constructor | GGRickMorty/ViewModels/GGCharacterDetailViewModel.swift:14 | a new screen has no character |
| GGCharacterDetail.GGCharacterDetailViewModel.StatusImageName | GGRickMorty/ViewModels/GGCharacterDetailViewModel.swift:17-27 | absent exactly when there is no character; otherwise the same status icon as the RickNMorty detail record |
| GGCharacterDetail.GGCharacterDetailViewModel.GenderImageName | GGRickMorty/ViewModels/GGCharacterDetailViewModel.swift:29-39 | absent exactly when there is no character; otherwise the same gender icon as the RickNMorty detail record |
| GGCharacterDetail.GGCharacterDetailViewModel.ConfigureLabel | GGRickMorty/ViewModels/GGCharacterDetailViewModel.swift:46-65 | without a character the label is untouched; otherwise every label is set, the status, gender and species texts agree with the RickNMorty detail record, and origin and location get their labelled prefixes |
| Logging.ShouldLogIffAtLeastThreshold | RickNMorty/Utilities/CommonHelper.swift:100-111 | the case table of shouldLog is a threshold: a level is logged exactly when it is at least as severe as the configured level |
| Logging.ShouldLogMonotone | RickNMorty/Utilities/CommonHelper.swift:100-111 | a logged level stays logged under any lower threshold, and every more severe level is logged too |
| Logging.ThresholdCases | RickNMorty/Utilities/CommonHelper.swift:62 | errors are always logged, debug messages only at the debug threshold, and at the default threshold every level is logged |
| Logging.EmojiForLevel | RickNMorty/Utilities/CommonHelper.swift:83-94 | every level has a non-empty emoji |
| Logging.LevelsDistinguishable | RickNMorty/Utilities/CommonHelper.swift:32-41 | distinct levels have distinct emojis and distinct raw values |
| Logging.LogLine | RickNMorty/Utilities/CommonHelper.swift:73-76 | the printed line starts with the level's emoji and ends with the message |
| Logging.Logger.constructor | RickNMorty/Utilities/CommonHelper.swift:62 | a new logger's threshold is debug |
| Logging.Logger.Log | RickNMorty/Utilities/CommonHelper.swift:71-77 | a line is printed exactly when the level reaches the threshold, and it is the formatted line |
| HexColor.HexDigitValue | RickNMorty/Utilities/Extensions/UIColor+Ext.swift:17 | every hexadecimal digit is worth less than sixteen |
| HexColor.TrailingJunk | RickNMorty/Utilities/Extensions/UIColor+Ext.swift:12 | counts exactly the non-alphanumeric characters at the end of the string, stopping at the last alphanumeric one |
| HexColor.TrimBounds | RickNMorty/Utilities/Extensions/UIColor+Ext.swift:12 | the trimmed span begins and ends with an alphanumeric character and only non-alphanumeric characters lie outside it; it is empty exactly when there is no alphanumeric character |
| HexColor.Trim | RickNMorty/Utilities/Extensions/UIColor+Ext.swift:12 | trimming keeps the contiguous middle of the string between its first and last alphanumeric characters, and gives "" exactly when there is none |
| HexColor.ScanHexDigits | RickNMorty/Utilities/Extensions/UIColor+Ext.swift:16-17 | the digit-by-digit scan of a string of hexadecimal digits computes its base-16 value |
| HexColor.Red | RickNMorty/Utilities/Extensions/UIColor+Ext.swift:18 | the red channel is an 8-bit value |
| HexColor.Green | RickNMorty/Utilities/Extensions/UIColor+Ext.swift:19 | the green channel is an 8-bit value |
| HexColor.Blue | RickNMorty/Utilities/Extensions/UIColor+Ext.swift:20 | the blue channel is an 8-bit value |
| HexColor.ChannelsReconstruct | RickNMorty/Utilities/Extensions/UIColor+Ext.swift:18-20 | a 24-bit value is exactly its three channels put back together, so the masks lose nothing |
| HexColor.DigitsValuePrefix | RickNMorty/Utilities/Extensions/UIColor+Ext.swift:17 | each further digit shifts the scanned value four bits up and fills the low four |
| HexColor.PairValue | RickNMorty/Utilities/Extensions/UIColor+Ext.swift:17 | a two-digit string is worth sixteen times its first digit plus its second |
| HexColor.SixDigitChannels | RickNMorty/Utilities/Extensions/UIColor+Ext.swift:16-20 | six hexadecimal digits give a value of at most 24 bits whose red, green and blue channels are the first, second and third digit pairs |
| HexColor.ChannelsOfBytes | RickNMorty/Utilities/Extensions/UIColor+Ext.swift:18-20 | three bytes laid out most significant first come back out of the red, green and blue masks |
| HexColor.FromHexString | RickNMorty/Utilities/Extensions/UIColor+Ext.swift:11-22 | the initialiser fails exactly when the trimmed text is not six characters long; six hexadecimal digits give three 8-bit channels |
| HexColor.FromHexStringChannels | RickNMorty/Utilities/Extensions/UIColor+Ext.swift:11-22 | a string whose trimmed text is six hexadecimal digits gives the channels of its three digit pairs, whatever junk surrounded them |
| HexColor.InitHexString | RickNMorty/Utilities/Extensions/UIColor+Ext.swift:11-22 | the step-by-step initialiser gives the same result as FromHexString |
| HexColor.OrFallback | RickNMorty/Utilities/Extensions/UIColor+Ext.swift:25 | the fallback colour is used exactly when parsing failed; otherwise the parsed channels are kept |
| HexColor.PaletteEntry | RickNMorty/Utilities/Extensions/UIColor+Ext.swift:24-50 | a '#' followed by six hexadecimal digits trims to the six digits, parses, and never falls back |
| HexColor.AppLightGrey | RickNMorty/Utilities/Extensions/UIColor+Ext.swift:24-26 | the colour is (237, 237, 237) and not the system grey |
| HexColor.AppGrey | RickNMorty/Utilities/Extensions/UIColor+Ext.swift:28-30 | the colour is (190, 190, 190) and not the system grey |
| HexColor.AppNeonGreen | RickNMorty/Utilities/Extensions/UIColor+Ext.swift:32-34 | the colour is (211, 255, 34) and not the system green |
| HexColor.AppPrimaryDark | RickNMorty/Utilities/Extensions/UIColor+Ext.swift:36-38 | the colour is (30, 31, 29) and not black |
| HexColor.AppSecondaryDark | RickNMorty/Utilities/Extensions/UIColor+Ext.swift:40-42 | the colour is (55, 55, 55) and not dark grey |
| HexColor.AppAccent | RickNMorty/Utilities/Extensions/UIColor+Ext.swift:44-46 | the colour is (221, 73, 171) and not the system pink |
| HexColor.AppLightBackground | RickNMorty/Utilities/Extensions/UIColor+Ext.swift:48-50 | the colour is (240, 240, 240) and not light grey |

## Left out

- Network and Combine timing: the service's answers are inputs. The paging loops receive the answer for each page number as `respond`. For RickNMorty's character list, the result collected by `MergeMany(...).collect()` is an input, because its page order depends on completion timing.
- `errorMessage` holds the error value itself; the `localizedDescription` text is not modelled.
- CoreData: the favourites store is the sequence of its records. Whether a fetch or count request fails is a parameter. `saveContext` and its `fatalError` are not modelled, nor the order in which a fetch returns records.
- JSON serialisation and decoding are parameters (`serialize`, `decode`) of `Services.RequestFor`, `Services.Classify` and `Services.MakeRequest`.
- UIKit and fonts: labels, image views, tag views and fonts are not modelled. A label's text is returned instead of written, and a font is reduced to the range it covers. The conversion of colour channels to `CGFloat` and alpha is not modelled.
- Date formatting: `formatDate` is a parameter of the episode detail screen. GGRickMorty/Utilities/Extensions/String+Ext.swift:11-38 defines `formatDate` (the `DateFormatter` patterns) and the no-argument `attributedStringForCreatedText` ("Created\n" followed by the formatted date, with a font on each part); GGRickMorty's created label is left out as date and font styling, which is what `GGCharacterDetail.GGCharacterDetailViewModel.ConfigureLabel` abstracts as `CreatedText(c.created)`. RickNMorty's own `attributedStringForCreatedText`, GGRickMorty's `attributedStringForCreatedText(isDetail:)`, `formatEpisodeString` and `styleEpisode` are not part of this model, because their definitions are not among the repository files modelled here. The `createdText` and `episodeText` fields of the episode and location detail records are left out.
- Services.MakeRequest: the `InvalidURLDomain` branch is not modelled. The model assumes that `URL(string:)` accepts every string made of URL characters (`UrlChar`), and `Services.UrlStringShape` proves that every URL string the service builds is one; Foundation's URL parser itself is not modelled.
- Favorites.FavoriteViewModel.RemoveSelectedFavorites: whether the store answers each removal and the final reload are inputs (`reachable`, `reloadAvailable`); the CoreData errors behind a failed answer are not modelled.
- HexColor.FromHexString: a trimmed six-character string that is not all hexadecimal digits gives `ScannerDependent`, because Foundation's `Scanner` behaviour on such input is not modelled.
- Text.Lower: `lowercased()` is the ASCII case map; Unicode case folding is not modelled. For the same reason `HexColor.IsAlphanumeric` covers ASCII letters and digits only.
- AttributedText.LineBreak: lengths count characters, while `NSRange` counts UTF-16 units, so the ranges are exact only for text whose characters are one unit each. EpisodeDetail.StyledHeading has the same limitation.
- GG search with an empty term: GGRickMorty does not guard it. The model's `Contains` holds for the empty term, and nothing is claimed about what `String.contains("")` does.
- Logging.Logger.Log: the file name is given already trimmed to its last path component, the time is given, and the line is returned instead of printed. `Logger.shared` and the failure logging of the repositories are not modelled.
- The label glue of GGRickMorty's episode and location detail screens is not modelled; it pushes into labels the strings the RickNMorty detail screens build.
- The tap, edit and alert plumbing of the view controllers is not modelled, nor the favourite toggles that `CharacterDetailViewController` calls but the shown `CharacterDetailViewModel` does not define.
- CharacterList.CharacterListViewModel.FetchCharacters: requires a limit of at least 1, because the range `1...limit` traps otherwise.
- CharacterDetail.CharacterDetailViewModel.EpisodeURL: requires an index within the episode links when there is a detail, because the subscript is unchecked and traps otherwise.
- EpisodeDetail.EpisodeDetailViewModel.CharacterAt: requires a non-negative index when there is an episode, because only the upper bound is guarded and a negative index traps.
- LocationDetail.LocationDetailViewModel.ResidentAt: requires a non-negative index when there is a location, for the same reason.
- EpisodeDetail.StyledHeading: requires text of at least 9 characters, because `NSRange(location: 9, ...)` would lie outside a shorter text; every heading is at least 10 characters long.
- CharacterList.CharacterListViewModel.CharacterAt, GetOriginalCharacter and the corresponding accessors of the location, episode, favourites and GG screens require an index in range, because their subscripts are unchecked.
- HexColor.OrFallback: requires a parse result other than `ScannerDependent`; the palette literals are all '#' and six hexadecimal digits, so they never reach that case.
