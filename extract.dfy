/** extractFullURLs: one fetched URL's outcome turned into its list of
    endpoints or an error. The HTTP round trip itself is not modelled: its
    outcome is an input. */
module Extract {

  import opened Patterns

  /** What the round trip gave: the error client.Get returned, the error
      reading the body returned, or the whole body. */
  datatype Response = TransportError(message: string) | ReadError(message: string) | Body(text: string)

  /** A list of endpoints, or the message of the error returned instead. */
  datatype Result<T> = Success(value: T) | Failure(error: string)

  const NoSuchHost: string := "no such host"
  const RequestFailed: string := "failed to make HTTP request: "
  const ReadFailed: string := "failed to read response body: "

  /** `sub` occurs in `s` at or after position `k`. */
  function ContainsFrom(s: string, sub: string, k: nat): (b: bool)
    requires k <= |s|
    ensures b <==> exists i: nat :: k <= i && HasPrefixAt(s, i, sub)
    decreases |s| - k
  {
    if HasPrefixAt(s, k, sub) then true
    else if k == |s| then false
    else ContainsFrom(s, sub, k + 1)
  }

  /** strings.Contains: `sub` occurs somewhere in `s`. */
  function Contains(s: string, sub: string): (b: bool)
    ensures b <==> exists i: nat :: HasPrefixAt(s, i, sub)
  {
    ContainsFrom(s, sub, 0)
  }

  /** What extractFullURLs returns when client.Get fails: an empty list and
      no error for a host that does not resolve, but only while error
      messages are displayed; an error for everything else. */
  function HostRule(noDisplayErrors: bool, message: string): (r: Result<seq<string>>)
    ensures r.Success? <==>
              !noDisplayErrors &&
              exists i: nat :: HasPrefixAt(message, i, NoSuchHost)
    ensures r.Success? ==> r.value == []
    ensures r.Failure? ==> r.error == RequestFailed + message
  {
    if !noDisplayErrors && Contains(message, NoSuchHost) then Success([])
    else Failure(RequestFailed + message)
  }

  /** extractFullURLs after the round trip: an error for a failed request
      (subject to the host rule) or a failed read; otherwise every absolute
      match in body order followed by every relative match in body order. */
  method ExtractFullURLs(noDisplayErrors: bool, response: Response) returns (r: Result<seq<string>>)
    ensures response.TransportError? ==> r == HostRule(noDisplayErrors, response.message)
    ensures response.ReadError? ==> r == Failure(ReadFailed + response.message)
    ensures response.Body? ==>
              r == Success(FindAllString(Absolute, response.text) + FindAllString(Relative, response.text))
  {
    match response
    case TransportError(message) =>
      r := HostRule(noDisplayErrors, message);
    case ReadError(message) =>
      r := Failure(ReadFailed + message);
    case Body(body) =>
      var fullMatches := FindAll(Absolute, body);
      var urls: seq<string> := [];
      for k := 0 to |fullMatches|
        invariant urls == fullMatches[..k]
      {
        urls := urls + [fullMatches[k]];
      }
      assert urls == fullMatches[..|fullMatches|] == fullMatches;
      var relativeMatches := FindAll(Relative, body);
      for k := 0 to |relativeMatches|
        invariant urls == fullMatches + relativeMatches[..k]
      {
        urls := urls + [relativeMatches[k]];
      }
      assert relativeMatches[..|relativeMatches|] == relativeMatches;
      r := Success(urls);
  }

  /** Every endpoint extracted from a body is an absolute URL from the first
      pass or a whole-line relative path from the second, and the two kinds
      never coincide. */
  lemma ExtractedEndpointShape(body: string, m: string)
    requires m in FindAllString(Absolute, body) + FindAllString(Relative, body)
    ensures IsAbsoluteURL(m) != IsRelativePath(m)
    ensures m in FindAllString(Absolute, body) <==> IsAbsoluteURL(m)
  {
    AbsoluteURLHead(m);
    if m in FindAllString(Absolute, body) {
      AbsoluteMatchShape(body, m);
    } else {
      RelativeMatchShape(body, m);
    }
  }

  /** An absolute URL starts with the letter h. */
  lemma AbsoluteURLHead(m: string)
    ensures IsAbsoluteURL(m) ==> m[0] == 'h'
  {
    if |m| > 7 && m[..7] == "http://" {
      assert m[..7][0] == 'h';
    }
    if |m| > 8 && m[..8] == "https://" {
      assert m[..8][0] == 'h';
    }
  }
}
