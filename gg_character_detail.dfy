/** GGRickMorty's character detail screen (`GGCharacterDetailViewModel`): the icon names
    for the shown character and the text each detail label receives. Writing into the
    labels is modelled as returning what the label would receive. */
module GGCharacterDetail {
  import opened Wrappers
  import Models
  import DisplayData

  datatype LabelType = Name | Status | Gender | Species | Created | Origin | Location

  /** What `configure(_:for:)` does to a label: nothing, set a plain text, or set the
      styled created-date text built from the `created` string (the styling is not part
      of this model). */
  datatype LabelContent = Unchanged | Text(text: string) | CreatedText(created: string)

  class GGCharacterDetailViewModel {
    var character: Option<Models.Character>

    constructor ()
      ensures character == None
    {
      character := None;
    }

    /** `statusImageName`: absent exactly when there is no character; otherwise the same
        icon the RickNMorty detail screen shows. */
    function StatusImageName(): (r: Option<string>)
      reads this`character
      ensures r.None? <==> character.None?
      ensures r.Some? ==> r.value == DisplayData.StatusImageName(character.value.status)
    {
      match character
      case None => None
      case Some(c) =>
        match c.status
        case Alive => Some("ic_alive")
        case Dead => Some("ic_dead")
        case Unknown => Some("ic_unknown")
    }

    /** `genderImageName`: absent exactly when there is no character; genderless and
        unknown share one icon, as on the RickNMorty detail screen. */
    function GenderImageName(): (r: Option<string>)
      reads this`character
      ensures r.None? <==> character.None?
      ensures r.Some? ==> r.value == DisplayData.GenderImageName(character.value.gender)
    {
      match character
      case None => None
      case Some(c) =>
        match c.gender
        case Male => Some("ic_male")
        case Female => Some("ic_female")
        case Genderless | Unknown => Some("ic_unknown")
    }

    /** `configure(_:for:)`: without a character the label is left alone. The status,
        gender and species texts are the ones the RickNMorty detail record carries; origin
        and location get a label prefix that the RickNMorty record does not have. */
    method ConfigureLabel(kind: LabelType) returns (r: LabelContent)
      ensures character.None? ==> r == Unchanged
      ensures character.Some? ==> r != Unchanged
      ensures character.Some? ==>
        var c := character.value;
        var d := DisplayData.CharacterToDetail(c);
        && (kind == Name ==> r == Text(DisplayData.CharacterToDisplay(c).name))
        && (kind == Status ==> r == Text(d.status))
        && (kind == Gender ==> r == Text(d.gender))
        && (kind == Species ==> r == Text(d.species))
        && (kind == Created ==> r == CreatedText(c.created))
        && (kind == Origin ==> r == Text("Origin: " + d.origin))
        && (kind == Location ==> r == Text("Location: " + d.location))
    {
      if character.None? {
        return Unchanged;
      }
      var c := character.value;
      match kind
      case Name => r := Text(c.name);
      case Status => r := Text("Status: " + c.status.RawValue());
      case Gender => r := Text("Gender: " + c.gender.RawValue());
      case Species => r := Text("Species: " + c.species);
      case Created => r := CreatedText(c.created);
      case Origin => r := Text("Origin: " + c.origin.name);
      case Location => r := Text("Location: " + c.location.name);
    }
  }
}
