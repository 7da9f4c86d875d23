/** The decoded API records: characters with their raw-value enums, locations,
    episodes and the paging envelope `{info, results}` every list endpoint returns. */
module Models {
  import opened Wrappers

  datatype CharacterStatus = Alive | Dead | Unknown {
    function RawValue(): (r: string)
      ensures |r| > 0
    {
      match this
      case Alive => "Alive"
      case Dead => "Dead"
      case Unknown => "unknown"
    }
  }

  /** `CharacterStatus(rawValue:)`: `None` for anything that is not exactly a raw value. */
  function StatusFromRaw(s: string): (r: Option<CharacterStatus>)
    ensures r.Some? ==> r.value.RawValue() == s
  {
    if s == "Alive" then Some(Alive)
    else if s == "Dead" then Some(Dead)
    else if s == "unknown" then Some(CharacterStatus.Unknown)
    else None
  }

  datatype CharacterGender = Male | Female | Genderless | Unknown {
    function RawValue(): (r: string)
      ensures |r| > 0
    {
      match this
      case Male => "Male"
      case Female => "Female"
      case Genderless => "Genderless"
      case Unknown => "unknown"
    }
  }

  /** `CharacterGender(rawValue:)`. */
  function GenderFromRaw(s: string): (r: Option<CharacterGender>)
    ensures r.Some? ==> r.value.RawValue() == s
  {
    if s == "Male" then Some(Male)
    else if s == "Female" then Some(Female)
    else if s == "Genderless" then Some(Genderless)
    else if s == "unknown" then Some(CharacterGender.Unknown)
    else None
  }

  /** Decoding a raw value gives back the case it came from, and a string decodes exactly
      when it is some case's raw value. */
  lemma RawValuesRoundTrip(st: CharacterStatus, g: CharacterGender, s: string)
    ensures StatusFromRaw(st.RawValue()) == Some(st)
    ensures GenderFromRaw(g.RawValue()) == Some(g)
    ensures StatusFromRaw(s).Some? <==> s in {"Alive", "Dead", "unknown"}
    ensures GenderFromRaw(s).Some? <==> s in {"Male", "Female", "Genderless", "unknown"}
  {
  }

  /** The capitalised "Unknown" of the filter sheet is not a raw value of either enum. */
  lemma CapitalisedUnknownIsNotRaw()
    ensures StatusFromRaw("Unknown") == None
    ensures GenderFromRaw("Unknown") == None
    ensures forall st: CharacterStatus :: st.RawValue() != "Unknown"
    ensures forall g: CharacterGender :: g.RawValue() != "Unknown"
  {
  }

  /** The paging metadata: `next` and `prev` may be absent, `count` and `pages` may not. */
  datatype Info = Info(count: int, pages: int, next: Option<string>, prev: Option<string>)

  /** A decoded page `{info, results}`. */
  datatype Envelope<T> = Envelope(info: Info, results: seq<T>)

  datatype Place = Place(name: string, url: string)

  datatype Character = Character(
    id: int,
    name: string,
    status: CharacterStatus,
    species: string,
    kind: string,        // the API's `type`
    gender: CharacterGender,
    origin: Place,
    location: Place,
    image: string,
    episode: seq<string>,
    url: string,
    created: string)

  datatype Location = Location(
    id: int,
    name: string,
    kind: string,        // the API's `type`
    dimension: string,
    residents: seq<string>,
    url: string,
    created: string)

  datatype Episode = Episode(
    id: int,
    name: string,
    airDate: string,
    episode: string,     // the "SxxExx" code
    characters: seq<string>,
    url: string,
    created: string)
}
