/** The display records the list and detail screens show, and the mappings from the
    decoded API records to them. */
module DisplayData {
  import opened Seqs
  import opened Models

  datatype CharacterDisplayData = CharacterDisplayData(id: int, name: string, species: string, imageURL: string)

  /** `createdText` holds the text the created-date styling starts from; the styling is
      not part of this model. */
  datatype CharacterDetailDisplayData = CharacterDetailDisplayData(
    name: string,
    status: string,
    statusImageName: string,
    gender: string,
    genderImageName: string,
    species: string,
    createdText: string,
    origin: string,
    location: string,
    imageURL: string,
    episodeURLs: seq<string>)

  datatype EpisodeDisplayData = EpisodeDisplayData(id: int, name: string, episode: string, airDate: string, season: string)

  datatype LocationDisplayData = LocationDisplayData(id: int, name: string, kind: string, dimension: string)

  /** `CharacterModel.toDisplayData`: the row keeps the record's id, which is how the
      list screens find the record behind a row again. */
  function CharacterToDisplay(c: Character): (r: CharacterDisplayData)
    ensures r.id == c.id && r.name == c.name
    ensures r.species == c.species && r.imageURL == c.image
  {
    CharacterDisplayData(c.id, c.name, c.species, c.image)
  }

  /** The status icon: one icon per status. */
  function StatusImageName(st: CharacterStatus): (r: string)
    ensures |r| > 3 && r[..3] == "ic_"
  {
    match st
    case Alive => "ic_alive"
    case Dead => "ic_dead"
    case Unknown => "ic_unknown"
  }

  /** The gender icon: genderless and unknown share "ic_unknown". */
  function GenderImageName(g: CharacterGender): (r: string)
    ensures |r| > 3 && r[..3] == "ic_"
  {
    match g
    case Male => "ic_male"
    case Female => "ic_female"
    case Genderless => "ic_unknown"
    case Unknown => "ic_unknown"
  }

  /** Distinct statuses get distinct icons; two genders share an icon exactly when they
      are equal or both in {genderless, unknown}. */
  lemma ImageNameTables(s1: CharacterStatus, s2: CharacterStatus, g1: CharacterGender, g2: CharacterGender)
    ensures StatusImageName(s1) == StatusImageName(s2) <==> s1 == s2
    ensures GenderImageName(g1) == GenderImageName(g2) <==>
      g1 == g2 || (g1 in {Genderless, CharacterGender.Unknown} && g2 in {Genderless, CharacterGender.Unknown})
  {
  }

  /** `CharacterModel.toDetailDisplayData`. */
  function CharacterToDetail(c: Character): (r: CharacterDetailDisplayData)
    ensures r.name == c.name && r.imageURL == c.image
    ensures r.status == "Status: " + c.status.RawValue() && r.statusImageName == StatusImageName(c.status)
    ensures r.gender == "Gender: " + c.gender.RawValue() && r.genderImageName == GenderImageName(c.gender)
    ensures r.species == "Species: " + c.species
    ensures r.origin == c.origin.name && r.location == c.location.name
    ensures r.episodeURLs == c.episode
    ensures r.createdText == c.created
  {
    CharacterDetailDisplayData(
      c.name,
      "Status: " + c.status.RawValue(), StatusImageName(c.status),
      "Gender: " + c.gender.RawValue(), GenderImageName(c.gender),
      "Species: " + c.species,
      c.created,
      c.origin.name, c.location.name, c.image, c.episode)
  }

  /** The labelled texts give back the value they label: dropping the prefix recovers the
      raw value, so two characters with different statuses never show the same text. */
  lemma DetailTextsRecoverValues(c: Character)
    ensures CharacterToDetail(c).status[|"Status: "|..] == c.status.RawValue()
    ensures CharacterToDetail(c).gender[|"Gender: "|..] == c.gender.RawValue()
    ensures CharacterToDetail(c).species[|"Species: "|..] == c.species
    ensures |CharacterToDetail(c).episodeURLs| == |c.episode|
  {
  }

  /** The text of `s` up to (not including) the first `c`: the first piece of
      `s.components(separatedBy: c)`, which is all of `s` when `c` does not occur. */
  function BeforeFirst(s: string, c: char): (r: string)
    ensures |r| <= |s| && r == s[..|r|]
    ensures c !in r
    ensures |r| < |s| ==> s[|r|] == c
  {
    if s == [] then []
    else if s[0] == c then []
    else [s[0]] + BeforeFirst(s[1..], c)
  }

  /** `replacingOccurrences(of: c, with: "")` for a single character. */
  function Without(s: string, c: char): (r: string)
    ensures |r| <= |s|
  {
    Keep(s, ch => ch != c)
  }

  lemma WithoutMembers(s: string, c: char, d: char)
    ensures d in Without(s, c) <==> d in s && d != c
  {
    KeepMembers(s, ch => ch != c, d);
  }

  /** The season shown for an episode code "SxxEyy". */
  function Season(code: string): string {
    Without(BeforeFirst(code, 'E'), 'S')
  }

  /** The season never holds an 'S' or an 'E' and is never longer than the code; a code
      without 'E' gives the whole code minus its 'S's. */
  lemma SeasonShape(code: string)
    ensures 'S' !in Season(code) && 'E' !in Season(code)
    ensures |Season(code)| <= |code|
    ensures 'E' !in code ==> Season(code) == Without(code, 'S')
    ensures code == "" ==> Season(code) == ""
  {
    var before := BeforeFirst(code, 'E');
    WithoutMembers(before, 'S', 'S');
    WithoutMembers(before, 'S', 'E');
    if 'E' !in code {
      assert before == code[..|code|] == code;
    }
  }

  /** Example: the season of the first episode's code. */
  lemma SeasonOfFirstEpisode()
    ensures Season("S01E01") == "01"
  {
    assert BeforeFirst("S01E01", 'E') == "S01" by {
      assert "S01E01"[1..] == "01E01";
      assert "01E01"[1..] == "1E01";
      assert "1E01"[1..] == "E01";
    }
    assert Without("S01", 'S') == "01" by {
      assert "S01"[1..] == "01";
      assert "01"[1..] == "1";
      assert "1"[1..] == "";
    }
  }

  /** `EpisodeModel.toDisplayData`. */
  function EpisodeToDisplay(e: Episode): (r: EpisodeDisplayData)
    ensures r.id == e.id && r.name == e.name && r.episode == e.episode && r.airDate == e.airDate
    ensures r.season == Season(e.episode)
  {
    EpisodeDisplayData(e.id, e.name, e.episode, e.airDate, Season(e.episode))
  }

  /** `LocationModel.toDisplayData`: a field-for-field copy. */
  function LocationToDisplay(l: Location): (r: LocationDisplayData)
    ensures r.id == l.id && r.name == l.name && r.kind == l.kind && r.dimension == l.dimension
  {
    LocationDisplayData(l.id, l.name, l.kind, l.dimension)
  }
}
