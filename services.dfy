/** The HTTP client (`Services.makeRequest`, duplicated as `GGService.makeRequest`):
    URL construction, request building and the guard chain that classifies what the
    URL-loading system hands back. The network exchange itself is an input. */
module Services {
  import opened Wrappers
  import opened Text
  import opened Endpoint

  type Bytes = seq<bv8>

  const BaseURL: string := "https://rickandmortyapi.com/api"

  datatype HTTPMethod = Get | Post | Put | Delete {
    function RawValue(): (r: string)
      ensures |r| >= 3
    {
      match this
      case Get => "GET"
      case Post => "POST"
      case Put => "PUT"
      case Delete => "DELETE"
    }
  }

  lemma HTTPMethodRawValuesDistinct(m1: HTTPMethod, m2: HTTPMethod)
    ensures m1.RawValue() == m2.RawValue() ==> m1 == m2
  {
  }

  /** The errors `makeRequest` reports: the errors the system hands over unchanged
      (transport, serialisation, decoding), and the `NSError`s it makes itself. */
  datatype ServiceError =
    | Underlying(description: string)
    | NSError(domain: string, code: int)

  /** A character that may appear in a URL string without percent-encoding; `URL(string:)`
      accepts a string made of these. */
  predicate UrlChar(c: char) {
    || ('a' <= c <= 'z') || ('A' <= c <= 'Z') || ('0' <= c <= '9')
    || c == '-' || c == '.' || c == '_' || c == '~' || c == ':' || c == '/' || c == '?'
    || c == '#' || c == '[' || c == ']' || c == '@' || c == '!' || c == '$' || c == '&'
    || c == '\'' || c == '(' || c == ')' || c == '*' || c == '+' || c == ',' || c == ';' || c == '='
  }

  lemma BaseUrlChars()
    ensures forall i :: 0 <= i < |BaseURL| ==> UrlChar(BaseURL[i]) && BaseURL[i] != '?'
  {
  }

  /** `"\(baseURL)\(endpoint.path)"`, followed by `"?page=\(page)"` when a page is given. */
  function UrlString(e: Endpoint, page: Option<int>): (r: string)
    ensures |r| >= |BaseURL| + |Path(e)|
    ensures r[..|BaseURL| + |Path(e)|] == BaseURL + Path(e)
  {
    match page
    case None => BaseURL + Path(e)
    case Some(p) => BaseURL + Path(e) + "?page=" + IntToString(p)
  }

  /** The base URL followed by an endpoint path is made of URL characters, none a '?'. */
  lemma BasePathChars(e: Endpoint)
    ensures var base := BaseURL + Path(e);
      forall i :: 0 <= i < |base| ==> UrlChar(base[i]) && base[i] != '?'
  {
    BaseUrlChars();
    var base := BaseURL + Path(e);
    forall i | 0 <= i < |base| ensures UrlChar(base[i]) && base[i] != '?' {
      if i >= |BaseURL| {
        assert base[i] == Path(e)[i - |BaseURL|];
      }
    }
  }

  /** The page query is made of URL characters. */
  lemma PageQueryChars(p: int)
    ensures var q := "?page=" + IntToString(p);
      forall i :: 0 <= i < |q| ==> UrlChar(q[i])
  {
    var d := IntToString(p);
    assert forall i :: 0 <= i < |d| ==> d[i] == '-' || '0' <= d[i] <= '9';
    var q := "?page=" + d;
    forall i | 0 <= i < |q| ensures UrlChar(q[i]) {
      if i >= 6 {
        assert q[i] == d[i - 6];
      }
    }
  }

  /** Every URL string is made of URL characters, so `URL(string:)` never fails on it and
      the "InvalidURLDomain" branch is dead; and it holds a '?' exactly when a page is given. */
  lemma UrlStringShape(e: Endpoint, page: Option<int>)
    ensures forall i :: 0 <= i < |UrlString(e, page)| ==> UrlChar(UrlString(e, page)[i])
    ensures ('?' in UrlString(e, page)) <==> page.Some?
  {
    var base := BaseURL + Path(e);
    BasePathChars(e);
    if page.Some? {
      var q := "?page=" + IntToString(page.value);
      PageQueryChars(page.value);
      var u := base + q;
      assert u == UrlString(e, page);
      assert u[|base|] == '?';
      forall i | 0 <= i < |u| ensures UrlChar(u[i]) {
        if i >= |base| {
          assert u[i] == q[i - |base|];
        }
      }
    } else {
      assert base == UrlString(e, page);
    }
  }

  /** Distinct endpoint/page pairs give distinct URL strings: the string determines the
      endpoint and whether, and which, page is asked for. */
  lemma {:induction false} UrlStringInjective(e1: Endpoint, p1: Option<int>, e2: Endpoint, p2: Option<int>)
    requires UrlString(e1, p1) == UrlString(e2, p2)
    ensures e1 == e2 && p1 == p2
  {
    var u := UrlString(e1, p1);
    var n := |BaseURL|;
    assert u[n + 1] == Path(e1)[1] by {
      assert u[..n + |Path(e1)|] == BaseURL + Path(e1);
    }
    assert u[n + 1] == Path(e2)[1] by {
      assert u[..n + |Path(e2)|] == BaseURL + Path(e2);
    }
    PathInjective(e1, e2);
    var k := n + |Path(e1)|;
    if p1.Some? && p2.Some? {
      var s1 := BaseURL + Path(e1) + "?page=" + IntToString(p1.value);
      var s2 := BaseURL + Path(e2) + "?page=" + IntToString(p2.value);
      assert s1 == u && s2 == u;
      assert s1[k + 6..] == IntToString(p1.value);
      assert s2[k + 6..] == IntToString(p2.value);
      IntToStringInjective(p1.value, p2.value);
    }
  }

  /** The request that is handed to the URL session. */
  datatype Request = Request(url: string, httpMethod: string, body: Option<Bytes>)

  /** The request `makeRequest` builds, or the serialisation error that stops it. */
  function RequestFor<P>(e: Endpoint, page: Option<int>, m: HTTPMethod, parameters: Option<P>,
                         serialize: P -> Result<Bytes, string>): (r: Result<Request, ServiceError>)
    ensures r.Failure? <==> m == Post && parameters.Some? && serialize(parameters.value).Failure?
    ensures r.Success? ==> r.value.url == UrlString(e, page) && r.value.httpMethod == m.RawValue()
    ensures r.Success? ==> (r.value.body.Some? <==> m == Post && parameters.Some?)
  {
    if m == Post && parameters.Some? then
      match serialize(parameters.value)
      case Success(b) => Success(Request(UrlString(e, page), m.RawValue(), Some(b)))
      case Failure(err) => Failure(Underlying(err))
    else Success(Request(UrlString(e, page), m.RawValue(), None))
  }

  datatype HttpResponse = HTTPURLResponse(statusCode: int) | OtherResponse

  /** What the data task's completion handler receives. */
  datatype Exchange = Exchange(error: Option<string>, response: Option<HttpResponse>, data: Option<Bytes>)

  predicate IsSuccessResponse(r: Option<HttpResponse>) {
    r.Some? && r.value.HTTPURLResponse? && 200 <= r.value.statusCode <= 299
  }

  /** The guard chain of the completion handler: transport error, then status, then
      missing data, then decoding. */
  function Classify<T>(x: Exchange, decode: Bytes -> Result<T, string>): (r: Result<T, ServiceError>)
    ensures x.error.Some? ==> r == Failure(Underlying(x.error.value))
    ensures x.error.None? && !IsSuccessResponse(x.response) ==> r == Failure(NSError("HTTPErrorDomain", -1))
    ensures x.error.None? && IsSuccessResponse(x.response) && x.data.None? ==> r == Failure(NSError("DataErrorDomain", -1))
    ensures x.error.None? && IsSuccessResponse(x.response) && x.data.Some? && decode(x.data.value).Failure? ==>
      r == Failure(Underlying(decode(x.data.value).error))
    ensures r.Success? <==>
      x.error.None? && IsSuccessResponse(x.response) && x.data.Some? && decode(x.data.value).Success?
    ensures r.Success? ==> r.value == decode(x.data.value).value
  {
    if x.error.Some? then Failure(Underlying(x.error.value))
    else if !IsSuccessResponse(x.response) then Failure(NSError("HTTPErrorDomain", -1))
    else if x.data.None? then Failure(NSError("DataErrorDomain", -1))
    else match decode(x.data.value)
      case Success(v) => Success(v)
      case Failure(err) => Failure(Underlying(err))
  }

  /** `makeRequest`, step by step. `sent` is the request given to the session (none when
      building it failed) and `completions` lists every call of the completion handler. */
  method MakeRequest<P, T>(e: Endpoint, page: Option<int>, m: HTTPMethod, parameters: Option<P>,
                           serialize: P -> Result<Bytes, string>, x: Exchange,
                           decode: Bytes -> Result<T, string>)
    returns (sent: Option<Request>, completions: seq<Result<T, ServiceError>>)
    ensures |completions| == 1
    ensures sent.Some? <==> RequestFor(e, page, m, parameters, serialize).Success?
    ensures sent.Some? ==> sent.value == RequestFor(e, page, m, parameters, serialize).value
    ensures sent.Some? ==> completions[0] == Classify(x, decode)
    ensures sent.None? ==> completions[0] == Failure(RequestFor(e, page, m, parameters, serialize).error)
  {
    completions := [];
    var urlString := BaseURL + Path(e);
    if page.Some? {
      urlString := urlString + "?page=" + IntToString(page.value);
    }
    var request := Request(urlString, m.RawValue(), None);
    if m == Post {
      if parameters.Some? {
        var body := serialize(parameters.value);
        if body.Failure? {
          completions := completions + [Failure(Underlying(body.error))];
          sent := None;
          return;
        }
        request := request.(body := Some(body.value));
      }
    }
    sent := Some(request);
    if x.error.Some? {
      completions := completions + [Failure(Underlying(x.error.value))];
      return;
    }
    if !IsSuccessResponse(x.response) {
      completions := completions + [Failure(NSError("HTTPErrorDomain", -1))];
      return;
    }
    if x.data.None? {
      completions := completions + [Failure(NSError("DataErrorDomain", -1))];
      return;
    }
    var decoded := decode(x.data.value);
    if decoded.Success? {
      completions := completions + [Success(decoded.value)];
    } else {
      completions := completions + [Failure(Underlying(decoded.error))];
    }
  }
}
