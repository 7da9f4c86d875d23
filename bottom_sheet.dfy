/** GGRickMorty's filter sheet (`GGBottomSheetViewModel`): three groups of tags (status,
    species, gender), at most one selected tag per group, and one flat list of the
    selected titles that is handed to the character list. */
module BottomSheet {
  import opened Seqs

  const StatusTags: seq<string> := ["Alive", "Dead", "Unknown"]
  const SpeciesTags: seq<string> := ["Alien", "Animal", "Mythological Creature", "Human"]
  const GenderTags: seq<string> := ["Male", "Female", "Genderless", "Unknown"]

  /** No title repeats within a group, but "Unknown" is both a status tag and a gender
      tag, so the flat list cannot tell which group an "Unknown" came from. */
  lemma TagGroups()
    ensures forall i, j :: 0 <= i < j < |StatusTags| ==> StatusTags[i] != StatusTags[j]
    ensures forall i, j :: 0 <= i < j < |SpeciesTags| ==> SpeciesTags[i] != SpeciesTags[j]
    ensures forall i, j :: 0 <= i < j < |GenderTags| ==> GenderTags[i] != GenderTags[j]
    ensures StatusTags[2] == GenderTags[3] == "Unknown" && "Unknown" !in SpeciesTags
  {
  }

  /** The filter list after the other selected tags of the group, from position `j` on,
      have been deselected one after another: each one's title is removed everywhere. */
  function DropOthers(filters: seq<string>, titles: seq<string>, selected: seq<bool>, index: int, j: nat): seq<string>
    requires |selected| == |titles|
    decreases |titles| - j
  {
    if j >= |titles| then filters
    else DropOthers(if selected[j] && j != index then RemoveAll(filters, titles[j]) else filters,
                    titles, selected, index, j + 1)
  }

  /** A title survives exactly when it was there and no other selected tag from `j` on
      carries it. */
  lemma {:induction false} DropOthersMembers(filters: seq<string>, titles: seq<string>, selected: seq<bool>,
                                             index: int, j: nat, f: string)
    requires |selected| == |titles|
    ensures f in DropOthers(filters, titles, selected, index, j) <==>
      f in filters && forall k :: j <= k < |titles| && selected[k] && k != index ==> titles[k] != f
    decreases |titles| - j
  {
    if j < |titles| {
      var next := if selected[j] && j != index then RemoveAll(filters, titles[j]) else filters;
      DropOthersMembers(next, titles, selected, index, j + 1, f);
      if selected[j] && j != index {
        RemoveAllMembers(filters, titles[j], f);
      }
    }
  }

  /** The group's selection after a press on `index`: the pressed tag flips, every other
      tag ends deselected. */
  function PressedSelection(selected: seq<bool>, index: int): (r: seq<bool>)
    requires 0 <= index < |selected|
    ensures |r| == |selected|
    ensures r[index] == !selected[index]
    ensures forall j :: 0 <= j < |r| && j != index ==> !r[j]
  {
    seq(|selected|, j requires 0 <= j < |selected| => j == index && !selected[index])
  }

  /** The filter list after a press on `index`: the other selected tags' titles are
      removed, then the pressed title is appended if the tag became selected, or every
      occurrence of it is removed if it became deselected. */
  function PressedFilters(filters: seq<string>, titles: seq<string>, selected: seq<bool>, index: int): seq<string>
    requires |selected| == |titles| && 0 <= index < |titles|
  {
    var rest := DropOthers(filters, titles, selected, index, 0);
    if !selected[index] then rest + [titles[index]] else RemoveAll(rest, titles[index])
  }

  /** After a press: the pressed title is listed exactly when its tag ends selected; any
      other title is listed exactly when it was listed and no other selected tag of the
      group carried it; nothing new appears but the pressed title. */
  lemma PressedFiltersMembers(filters: seq<string>, titles: seq<string>, selected: seq<bool>, index: int, f: string)
    requires |selected| == |titles| && 0 <= index < |titles|
    ensures titles[index] in PressedFilters(filters, titles, selected, index) <==> PressedSelection(selected, index)[index]
    ensures f != titles[index] ==>
      (f in PressedFilters(filters, titles, selected, index) <==>
        f in filters && forall k :: 0 <= k < |titles| && selected[k] && k != index ==> titles[k] != f)
    ensures f in PressedFilters(filters, titles, selected, index) ==> f in filters || f == titles[index]
  {
    var rest := DropOthers(filters, titles, selected, index, 0);
    DropOthersMembers(filters, titles, selected, index, 0, f);
    RemoveAllMembers(rest, titles[index], f);
    RemoveAllMembers(rest, titles[index], titles[index]);
  }

  /** Deselecting the status group's "Unknown" drops "Unknown" from the list, even when
      the gender group's "Unknown" tag is still selected. */
  lemma SharedUnknownTitle(filters: seq<string>, status: seq<bool>, gender: seq<bool>)
    requires |status| == |StatusTags| && |gender| == |GenderTags|
    requires status[2] && gender[3]
    ensures "Unknown" !in PressedFilters(filters, StatusTags, status, 2)
    ensures GenderTags[3] == "Unknown"
  {
    PressedFiltersMembers(filters, StatusTags, status, 2, "Unknown");
  }

  /** One `TagListView`: its tags' titles, fixed when the sheet is set up, and which of
      its tags are selected. */
  class TagGroup {
    const titles: seq<string>
    var selected: seq<bool>

    predicate Valid()
      reads this`selected
    {
      |selected| == |titles|
    }

    constructor (titles: seq<string>)
      ensures this.titles == titles && Valid()
      ensures forall j :: 0 <= j < |selected| ==> !selected[j]
    {
      this.titles := titles;
      selected := seq(|titles|, j => false);
    }
  }

  class GGBottomSheetViewModel {
    var selectedFilters: seq<string>

    constructor ()
      ensures selectedFilters == []
    {
      selectedFilters := [];
    }

    /** `tagPressed(_:tagView:sender:)` for the tag at `index` of `sender`: every other
        selected tag of that group is deselected and its title removed, then the pressed
        tag flips and its title is appended or removed. */
    method TagPressed(title: string, index: int, sender: TagGroup)
      requires sender.Valid() && 0 <= index < |sender.titles| && title == sender.titles[index]
      modifies this`selectedFilters, sender`selected
      ensures sender.Valid()
      ensures sender.selected == PressedSelection(old(sender.selected), index)
      ensures selectedFilters == PressedFilters(old(selectedFilters), sender.titles, old(sender.selected), index)
    {
      var j := 0;
      while j < |sender.titles|
        invariant 0 <= j <= |sender.titles| && sender.Valid()
        invariant forall k :: 0 <= k < |sender.titles| ==>
          sender.selected[k] == (if k < j && k != index then false else old(sender.selected[k]))
        invariant DropOthers(selectedFilters, sender.titles, old(sender.selected), index, j)
               == DropOthers(old(selectedFilters), sender.titles, old(sender.selected), index, 0)
      {
        if sender.selected[j] && j != index {
          sender.selected := sender.selected[j := false];
          selectedFilters := RemoveAll(selectedFilters, sender.titles[j]);
        }
        j := j + 1;
      }
      sender.selected := sender.selected[index := !sender.selected[index]];
      if sender.selected[index] {
        selectedFilters := selectedFilters + [title];
      } else {
        selectedFilters := RemoveAll(selectedFilters, title);
      }
    }

    /** `applySelectedFilter(to:selectedFilters:)`: the first tag of the group whose title
        is among `filters` is selected; no other tag changes. */
    method ApplySelectedFilter(filterView: TagGroup, filters: seq<string>)
      requires filterView.Valid()
      modifies filterView`selected
      ensures filterView.Valid()
      ensures forall j :: 0 <= j < |filterView.titles| ==>
        filterView.selected[j] ==
          (old(filterView.selected[j]) || (filterView.titles[j] in filters && forall i :: 0 <= i < j ==> filterView.titles[i] !in filters))
    {
      var k := FirstIndex(filterView.titles, (t: string) => t in filters);
      if k < |filterView.titles| {
        filterView.selected := filterView.selected[k := true];
      }
    }

    /** `applyButtonTapped`: the delegate receives the list as it is. */
    method ApplyButtonTapped() returns (filters: seq<string>)
      ensures filters == selectedFilters
    {
      filters := selectedFilters;
    }
  }
}
