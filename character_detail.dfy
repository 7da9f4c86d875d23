/** RickNMorty's character detail screen (`CharacterDetailViewModel`): the detail record
    of the character being shown, if any, and its episode links. */
module CharacterDetail {
  import opened Wrappers
  import opened Models
  import opened DisplayData

  /** The detail record for an optional character. */
  function DetailOf(character: Option<Character>): (r: Option<CharacterDetailDisplayData>)
    ensures r.Some? <==> character.Some?
    ensures r.Some? ==> r.value.episodeURLs == character.value.episode && r.value.name == character.value.name
  {
    match character
    case None => None
    case Some(c) => Some(CharacterToDetail(c))
  }

  class CharacterDetailViewModel {
    var displayCharacterDetail: Option<CharacterDetailDisplayData>

    /** `init(character:)`: no character leaves the detail empty. */
    constructor (character: Option<Character>)
      ensures displayCharacterDetail == DetailOf(character)
    {
      match character
      case None =>
        displayCharacterDetail := None;
      case Some(c) =>
        displayCharacterDetail := Some(CharacterToDetail(c));
    }

    /** `configure(with:)`: the detail is replaced by the new character's. */
    method Configure(character: Character)
      modifies this
      ensures displayCharacterDetail == DetailOf(Some(character))
    {
      displayCharacterDetail := Some(CharacterToDetail(character));
    }

    /** `numberOfEpisodes`: the number of episode links, or 0 without a character. */
    method NumberOfEpisodes() returns (n: int)
      ensures displayCharacterDetail.None? ==> n == 0
      ensures displayCharacterDetail.Some? ==> n == |displayCharacterDetail.value.episodeURLs|
    {
      n := if displayCharacterDetail.Some? then |displayCharacterDetail.value.episodeURLs| else 0;
    }

    /** `episodeURL(at:)`: `nil` without a character; otherwise the subscript is unchecked,
        so the index must be one of the links. */
    method EpisodeURL(index: int) returns (r: Option<string>)
      requires displayCharacterDetail.Some? ==> 0 <= index < |displayCharacterDetail.value.episodeURLs|
      ensures r.Some? <==> displayCharacterDetail.Some?
      ensures r.Some? ==> r.value == displayCharacterDetail.value.episodeURLs[index]
    {
      match displayCharacterDetail
      case None =>
        r := None;
      case Some(d) =>
        r := Some(d.episodeURLs[index]);
    }
  }
}
