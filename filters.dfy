/** The list projection every list screen recomputes: a case-insensitive name search,
    then the attribute filter with its three-way rule. It is written once over any record
    type, given how to read a record's name and whether a record "hits" a filter value. */
module Projection {
  import opened Seqs
  import opened Text
  import opened Models

  /** The per-record filter rule: with exactly one filter, the record must hit it; with
      several, the filters the record hits must be as many as the filters. */
  predicate PassesFilters<T>(x: T, filters: seq<string>, hits: (T, string) -> bool) {
    if |filters| == 1 then hits(x, filters[0])
    else |Keep(filters, f => hits(x, f))| == |filters|
  }

  /** Both branches of the rule mean the same thing: every selected filter value is hit. */
  lemma PassesIffEveryFilterHits<T>(x: T, filters: seq<string>, hits: (T, string) -> bool)
    ensures PassesFilters(x, filters, hits) <==> forall i :: 0 <= i < |filters| ==> hits(x, filters[i])
  {
    KeepAllIff(filters, f => hits(x, f));
  }

  /** The records whose lower-cased name contains the lower-cased term, in order. */
  function NameSearch<T>(all: seq<T>, name: T -> string, term: string): (r: seq<T>)
    ensures |r| <= |all|
  {
    Keep(all, x => SearchHit(name(x), term))
  }

  lemma NameSearchMembers<T>(all: seq<T>, name: T -> string, term: string, x: T)
    ensures x in NameSearch(all, name, term) <==> x in all && SearchHit(name(x), term)
  {
    KeepMembers(all, y => SearchHit(name(y), term), x);
  }

  lemma NameSearchIsSubsequence<T>(all: seq<T>, name: T -> string, term: string)
    ensures IsSubsequence(NameSearch(all, name, term), all)
  {
    KeepIsSubsequence(all, y => SearchHit(name(y), term));
  }

  /** The search step: applied only when the search bar is active and the term non-empty. */
  function Searched<T>(all: seq<T>, name: T -> string, term: string, active: bool): (r: seq<T>)
    ensures !(active && term != "") ==> r == all
  {
    if active && term != "" then NameSearch(all, name, term) else all
  }

  /** A record survives the search exactly when it is in the list and, if the search
      applies, its lower-cased name contains the lower-cased term. */
  lemma SearchedMembers<T>(all: seq<T>, name: T -> string, term: string, active: bool, x: T)
    ensures x in Searched(all, name, term, active) <==> x in all && (active && term != "" ==> SearchHit(name(x), term))
  {
    if active && term != "" {
      NameSearchMembers(all, name, term, x);
    }
  }

  lemma SearchedIsSubsequence<T>(all: seq<T>, name: T -> string, term: string, active: bool)
    ensures IsSubsequence(Searched(all, name, term, active), all)
  {
    if active && term != "" {
      NameSearchIsSubsequence(all, name, term);
    } else {
      SubsequenceRefl(all);
    }
  }

  /** The filter step: applied only when some filter is selected. */
  function Filtered<T>(s: seq<T>, filters: seq<string>, hits: (T, string) -> bool): (r: seq<T>)
    ensures filters == [] ==> r == s
  {
    if filters != [] then Keep(s, x => PassesFilters(x, filters, hits)) else s
  }

  /** The records `updateDisplayCharacters` keeps, before they are mapped to display rows. */
  function Project<T>(all: seq<T>, name: T -> string, term: string, active: bool,
                      filters: seq<string>, hits: (T, string) -> bool): seq<T>
  {
    Filtered(Searched(all, name, term, active), filters, hits)
  }

  /** A record is shown exactly when it is in the list, matches the search (if the search
      applies) and hits every selected filter. */
  lemma ProjectMembers<T>(all: seq<T>, name: T -> string, term: string, active: bool,
                          filters: seq<string>, hits: (T, string) -> bool, x: T)
    ensures x in Project(all, name, term, active, filters, hits) <==>
      && x in all
      && (active && term != "" ==> SearchHit(name(x), term))
      && (forall i :: 0 <= i < |filters| ==> hits(x, filters[i]))
  {
    var searched := Searched(all, name, term, active);
    if active && term != "" {
      NameSearchMembers(all, name, term, x);
    }
    if filters != [] {
      KeepMembers(searched, y => PassesFilters(y, filters, hits), x);
    }
    PassesIffEveryFilterHits(x, filters, hits);
  }

  /** The shown records keep their relative order from the accumulated list, so there are
      never more rows than records. */
  lemma ProjectIsSubsequence<T>(all: seq<T>, name: T -> string, term: string, active: bool,
                                filters: seq<string>, hits: (T, string) -> bool)
    ensures IsSubsequence(Project(all, name, term, active, filters, hits), all)
    ensures |Project(all, name, term, active, filters, hits)| <= |all|
  {
    var searched := Searched(all, name, term, active);
    var r := Project(all, name, term, active, filters, hits);
    if active && term != "" {
      NameSearchIsSubsequence(all, name, term);
    } else {
      SubsequenceRefl(all);
    }
    if filters != [] {
      KeepIsSubsequence(searched, y => PassesFilters(y, filters, hits));
    } else {
      SubsequenceRefl(searched);
    }
    SubsequenceTrans(r, searched, all);
    SubsequenceLength(r, all);
  }

  /** The projection with the search off, one record at a time: the head is kept exactly
      when no filter is selected or it passes them. */
  lemma ProjectCons<T>(x: T, rest: seq<T>, name: T -> string, term: string,
                       filters: seq<string>, hits: (T, string) -> bool)
    ensures Project([x] + rest, name, term, false, filters, hits) ==
      (if filters == [] || PassesFilters(x, filters, hits) then [x] else [])
      + Project(rest, name, term, false, filters, hits)
  {
    assert ([x] + rest)[1..] == rest;
  }

  /** Every shown record is one of the accumulated records. */
  lemma ProjectElement<T>(all: seq<T>, name: T -> string, term: string, active: bool,
                          filters: seq<string>, hits: (T, string) -> bool, k: int)
    requires 0 <= k < |Project(all, name, term, active, filters, hits)|
    ensures Project(all, name, term, active, filters, hits)[k] in all
  {
    ProjectMembers(all, name, term, active, filters, hits, Project(all, name, term, active, filters, hits)[k]);
  }

  /** When every record passes both steps nothing is hidden: an inactive search and no
      filters show the whole list. */
  lemma ProjectNothingSelected<T>(all: seq<T>, name: T -> string, term: string,
                                  filters: seq<string>, hits: (T, string) -> bool)
    ensures Project(all, name, term, false, [], hits) == all
    ensures Project(all, name, "", true, [], hits) == all
  {
  }

  /** A character hits a filter value when its status raw value, its species or its gender
      raw value equals it. */
  predicate CharacterHits(c: Character, f: string) {
    c.status.RawValue() == f || c.species == f || c.gender.RawValue() == f
  }

  /** The filter sheet's capitalised "Unknown" never equals a raw value, so it selects
      only characters whose species is literally "Unknown". */
  lemma UnknownTagMatchesOnlySpecies(c: Character)
    ensures CharacterHits(c, "Unknown") <==> c.species == "Unknown"
  {
    CapitalisedUnknownIsNotRaw();
  }

  function CharacterName(c: Character): string {
    c.name
  }
}
