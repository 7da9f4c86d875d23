/** The episode and location repositories: each turns a decoded page envelope into the
    page's items plus a "has next page" flag, and passes failures through. */
module Repositories {
  import opened Wrappers
  import opened Models
  import opened Services

  /** `!(info.next?.isEmpty ?? true)`: there is a next page exactly when the envelope
      names one with a non-empty URL. */
  function HasNextPage(next: Option<string>): (r: bool)
    ensures next.None? ==> !r
    ensures next == Some("") ==> !r
    ensures r <==> next.Some? && |next.value| > 0
  {
    !(if next.Some? then next.value == "" else true)
  }

  /** What `fetchEpisodes(page:)` and `fetchLocations(page:)` publish. */
  datatype Page<T> = Page(items: seq<T>, hasNextPage: bool)

  /** The mapping inside the repositories' `Future`: a decoded envelope becomes its results,
      in order, with the derived flag; a failure is passed on unchanged. */
  function PageFromResponse<T>(response: Result<Envelope<T>, ServiceError>): (r: Result<Page<T>, ServiceError>)
    ensures r.Success? <==> response.Success?
    ensures r.Success? ==> r.value.items == response.value.results
    ensures r.Success? ==> r.value.hasNextPage == HasNextPage(response.value.info.next)
    ensures r.Failure? ==> r.error == response.error
  {
    match response
    case Success(envelope) => Success(Page(envelope.results, HasNextPage(envelope.info.next)))
    case Failure(e) => Failure(e)
  }
}
