/** RickNMorty's episode detail screen (`EpisodeDetailViewModel`): the episode shown, if
    any, the detail record recomputed whenever the episode is set, and the episode's
    character links. Air dates are formatted by a date formatter that is not part of
    this model; the screen is given it as `formatDate`. */
module EpisodeDetail {
  import opened Wrappers
  import opened Models
  import opened AttributedText

  /** The heading text and the range that gets the larger font. */
  datatype HeadingText = HeadingText(text: string, styledRange: TextRange)

  datatype EpisodeDetailDisplayData = EpisodeDetailDisplayData(name: string, headingText: HeadingText, charactersTitle: string)

  /** `createStyledHeadingText(_:)`: the range from offset 9 to the end of the text. The
      range must lie inside the text for the attribute to be added. */
  function StyledHeading(text: string): (r: HeadingText)
    requires |text| >= 9
    ensures r.text == text
    ensures 0 <= r.styledRange.location && 0 <= r.styledRange.length && r.styledRange.End() == |text|
  {
    HeadingText(text, TextRange(9, |text| - 9))
  }

  /** The detail record of `updateDisplayData()`, given the formatted air date. */
  function EpisodeDetailFor(e: Episode, airDateText: string): (r: EpisodeDetailDisplayData)
    ensures r.name == e.name && r.charactersTitle == "Characters"
  {
    EpisodeDetailDisplayData(e.name, StyledHeading("Air Date: " + airDateText), "Characters")
  }

  /** The heading starts with "Air Date: ", and its styled range starts at the space after
      the colon and runs to the end, so it always fits and covers the whole date. */
  lemma HeadingStylesDate(e: Episode, airDateText: string)
    ensures var h := EpisodeDetailFor(e, airDateText).headingText;
      && h.text[..10] == "Air Date: "
      && h.styledRange.location == 9
      && h.text[h.styledRange.location..h.styledRange.End()] == " " + airDateText
  {
    var h := EpisodeDetailFor(e, airDateText).headingText;
    assert h.text == "Air Date: " + airDateText;
    assert h.text[9..] == " " + airDateText;
  }

  function DetailOf(episode: Option<Episode>, formatDate: string -> string): (r: Option<EpisodeDetailDisplayData>)
    ensures r.Some? <==> episode.Some?
  {
    match episode
    case None => None
    case Some(e) => Some(EpisodeDetailFor(e, formatDate(e.airDate)))
  }

  class EpisodeDetailViewModel {
    const formatDate: string -> string
    var episode: Option<Episode>
    var displayEpisodeDetail: Option<EpisodeDetailDisplayData>

    /** The detail record always belongs to the current episode. */
    predicate Valid()
      reads this`episode, this`displayEpisodeDetail
    {
      displayEpisodeDetail == DetailOf(episode, formatDate)
    }

    /** The character links of the current episode; none without an episode. */
    function Characters(): seq<string>
      reads this`episode
    {
      if episode.Some? then episode.value.characters else []
    }

    /** `init(episode:)`: the property is set without its observer, then the record is
        computed explicitly. */
    constructor (episode: Option<Episode>, formatDate: string -> string)
      ensures this.episode == episode && this.formatDate == formatDate && Valid()
    {
      this.formatDate := formatDate;
      this.episode := episode;
      new;
      UpdateDisplayData();
    }

    /** The `didSet` of `episode`: every assignment recomputes the record. */
    method SetEpisode(e: Option<Episode>)
      modifies this`episode, this`displayEpisodeDetail
      ensures episode == e && Valid()
    {
      episode := e;
      UpdateDisplayData();
    }

    /** `updateDisplayData()`. */
    method UpdateDisplayData()
      modifies this`displayEpisodeDetail
      ensures Valid()
    {
      match episode
      case None =>
        displayEpisodeDetail := None;
      case Some(e) =>
        var headingText := "Air Date: " + formatDate(e.airDate);
        var heading := StyledHeading(headingText);
        displayEpisodeDetail := Some(EpisodeDetailDisplayData(e.name, heading, "Characters"));
    }

    /** `numberOfCharacters()`. */
    method NumberOfCharacters() returns (n: int)
      ensures n == |Characters()|
      ensures episode.None? ==> n == 0
    {
      n := if episode.Some? then |episode.value.characters| else 0;
    }

    /** `character(at:)`: `nil` without an episode or past the end; a negative index is
        not guarded and would reach the subscript. */
    method CharacterAt(index: int) returns (r: Option<string>)
      requires episode.Some? ==> index >= 0
      ensures r.Some? <==> 0 <= index < |Characters()|
      ensures r.Some? ==> r.value == Characters()[index]
    {
      if episode.None? || index >= |episode.value.characters| {
        r := None;
      } else {
        r := Some(episode.value.characters[index]);
      }
    }
  }
}
