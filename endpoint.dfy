/** The API endpoints and their paths. RickNMorty's `Endpoint` and GGRickMorty's
    `GGEndpoint` are the same three-case enum with the same `path` switch. */
module Endpoint {

  datatype Endpoint = CharacterEndpoint | LocationEndpoint | EpisodeEndpoint

  /** `Endpoint.path`: a slash followed by the lower-case resource name. */
  function Path(e: Endpoint): (r: string)
    ensures |r| >= 2 && r[0] == '/'
    ensures forall i :: 1 <= i < |r| ==> 'a' <= r[i] <= 'z'
  {
    match e
    case CharacterEndpoint => "/character"
    case LocationEndpoint => "/location"
    case EpisodeEndpoint => "/episode"
  }

  /** Different endpoints have different paths, and the second character alone tells them apart. */
  lemma PathInjective(e1: Endpoint, e2: Endpoint)
    ensures Path(e1)[1] == Path(e2)[1] ==> e1 == e2
    ensures Path(e1) == Path(e2) ==> e1 == e2
  {
  }
}
