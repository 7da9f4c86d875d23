/** RickNMorty's location detail screen (`LocationDetailViewModel`): the location shown,
    if any, the detail record recomputed whenever the location is set, and the
    location's resident links. */
module LocationDetail {
  import opened Wrappers
  import opened Models
  import opened AttributedText

  datatype LocationDetailDisplayData = LocationDetailDisplayData(
    name: string,
    typeText: string,
    dimensionText: LineBreakText,
    residentsTitle: string)

  /** The detail record of `updateDisplayData()`. */
  function LocationDetailFor(l: Location): (r: LocationDetailDisplayData)
    ensures r.name == l.name && r.residentsTitle == "Residents"
    ensures Splits(r.dimensionText)
  {
    LocationDetailDisplayData(l.name, "Type: " + l.kind, LineBreak("Dimension:", l.dimension), "Residents")
  }

  /** The texts give back the values they label: the type after its prefix, and the
      dimension as the second line under the title "Dimension:". */
  lemma LocationDetailTexts(l: Location)
    ensures var d := LocationDetailFor(l);
      && d.typeText[..6] == "Type: " && d.typeText[6..] == l.kind
      && d.dimensionText.text[..d.dimensionText.titleRange.End()] == "Dimension:\n"
      && d.dimensionText.text[d.dimensionText.subTitleRange.location..] == l.dimension
  {
    var d := LocationDetailFor(l);
    assert d.typeText == "Type: " + l.kind;
  }

  function DetailOf(location: Option<Location>): (r: Option<LocationDetailDisplayData>)
    ensures r.Some? <==> location.Some?
  {
    match location
    case None => None
    case Some(l) => Some(LocationDetailFor(l))
  }

  class LocationDetailViewModel {
    var location: Option<Location>
    var displayLocationDetail: Option<LocationDetailDisplayData>

    /** The detail record always belongs to the current location. */
    predicate Valid()
      reads this`location, this`displayLocationDetail
    {
      displayLocationDetail == DetailOf(location)
    }

    /** The resident links of the current location; none without a location. */
    function Residents(): seq<string>
      reads this`location
    {
      if location.Some? then location.value.residents else []
    }

    /** `init(location:)`: the property is set without its observer, then the record is
        computed explicitly. */
    constructor (location: Option<Location>)
      ensures this.location == location && Valid()
    {
      this.location := location;
      new;
      UpdateDisplayData();
    }

    /** The `didSet` of `location`: every assignment recomputes the record. */
    method SetLocation(l: Option<Location>)
      modifies this`location, this`displayLocationDetail
      ensures location == l && Valid()
    {
      location := l;
      UpdateDisplayData();
    }

    /** `updateDisplayData()`. */
    method UpdateDisplayData()
      modifies this`displayLocationDetail
      ensures Valid()
    {
      match location
      case None =>
        displayLocationDetail := None;
      case Some(l) =>
        var typeText := "Type: " + l.kind;
        var dimensionText := AttributedStringForLineBreak("Dimension:", l.dimension);
        displayLocationDetail := Some(LocationDetailDisplayData(l.name, typeText, dimensionText, "Residents"));
    }

    /** `numberOfResidents()`. */
    method NumberOfResidents() returns (n: int)
      ensures n == |Residents()|
      ensures location.None? ==> n == 0
    {
      n := if location.Some? then |location.value.residents| else 0;
    }

    /** `resident(at:)`: `nil` without a location or past the end; a negative index is
        not guarded and would reach the subscript. */
    method ResidentAt(index: int) returns (r: Option<string>)
      requires location.Some? ==> index >= 0
      ensures r.Some? <==> 0 <= index < |Residents()|
      ensures r.Some? ==> r.value == Residents()[index]
    {
      if location.None? || index >= |location.value.residents| {
        r := None;
      } else {
        r := Some(location.value.residents[index]);
      }
    }
  }
}
