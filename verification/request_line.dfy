/** The request line: `method request-target HTTP-version`. */
module RequestLines {
  import opened Wrappers
  import opened PyStr
  import opened Errors

  /** The methods the parser has a header hook for. */
  datatype Method = GET | POST

  /**
   * The request target as `urlparse` leaves it. Splitting it into path and
   * query (`urlparse`, `unquote`, `parse_qs`) is library code and stays
   * outside the model; the record carries the raw target it is a function of.
   */
  datatype ParsedUrl = ParsedUrl(raw: string)

  datatype RequestLine = RequestLine(httpMethod: Method, url: ParsedUrl, version: string, versionParts: seq<string>)

  /** The versions the parser accepts, `HTTP/1.1` and `HTTP/1.0`. */
  predicate IsSupportedVersion(v: string) {
    v == "HTTP/1.1" || v == "HTTP/1.0"
  }

  function MethodName(m: Method): string {
    match m
    case GET => "GET"
    case POST => "POST"
  }

  /** The method a name selects, or None for a name with no hook. */
  function MethodOf(name: string): (r: Option<Method>)
    ensures r.Some? <==> name == "GET" || name == "POST"
    ensures r.Some? ==> MethodName(r.value) == name
  {
    if name == "GET" then Some(GET)
    else if name == "POST" then Some(POST)
    else None
  }

  /** Every method is selected by its own name. */
  lemma MethodOfName(m: Method)
    ensures MethodOf(MethodName(m)) == Some(m)
  {
  }

  /** `HTTP_VERSION`: the text after the slash, split on the dot. */
  function VersionParts(v: string): (r: seq<string>)
    requires IsSupportedVersion(v)
    ensures |r| == 2 && r[0] == "1"
    ensures r[1] == [v[7]]
  {
    if v == "HTTP/1.1" then ["1", "1"] else ["1", "0"]
  }

  /**
   * `parse_request_line`: exactly three whitespace-separated words, the
   * version checked before the method. The error class says which test
   * failed first.
   */
  function ParseRequestLine(line: string): (r: Result<RequestLine, HttpError>)
    ensures r == Failure(BadRequest) <==> |Words(line)| != 3
    ensures r == Failure(VersionNotSupported) <==>
      |Words(line)| == 3 && !IsSupportedVersion(Words(line)[2])
    ensures r == Failure(NotImplemented) <==>
      |Words(line)| == 3 && IsSupportedVersion(Words(line)[2]) && MethodOf(Words(line)[0]).None?
    ensures r.Success? ==>
      var w := Words(line);
      && |w| == 3
      && MethodName(r.value.httpMethod) == w[0]
      && r.value.url == ParsedUrl(w[1])
      && r.value.version == w[2]
      && IsSupportedVersion(r.value.version)
  {
    var w := Words(line);
    if |w| != 3 then Failure(BadRequest)
    else
      var name, target, version := w[0], w[1], w[2];
      if !IsSupportedVersion(version) then Failure(VersionNotSupported)
      else
        match MethodOf(name)
        case None => Failure(NotImplemented)
        case Some(m) => Success(RequestLine(m, ParsedUrl(target), version, VersionParts(version)))
  }

  lemma JoinSpacedThree(a: string, b: string, c: string)
    ensures JoinSpaced([a, b, c]) == a + " " + b + " " + c
  {
    assert [a, b, c][1..] == [b, c];
    assert [b, c][1..] == [c];
    assert JoinSpaced([b, c]) == b + " " + c;
    assert JoinSpaced([a, b, c]) == a + " " + (b + " " + c);
    assert a + " " + (b + " " + c) == a + " " + b + " " + c;
  }

  /**
   * A line written as `method target version` with single spaces parses back
   * into those three parts, whatever non-blank target it names.
   */
  lemma ParseWrittenRequestLine(m: Method, target: string, version: string)
    requires IsWord(target) && IsSupportedVersion(version)
    ensures ParseRequestLine(MethodName(m) + " " + target + " " + version)
         == Success(RequestLine(m, ParsedUrl(target), version, VersionParts(version)))
  {
    var words := [MethodName(m), target, version];
    assert IsWord(MethodName(m));
    assert IsWord(version);
    WordsOfJoinSpaced(words);
    JoinSpacedThree(MethodName(m), target, version);
  }

  /**
   * Trailing whitespace, a stray `\r` included, is dropped by `split()`: a
   * written request line followed by blanks parses as the line alone.
   */
  lemma ParsePaddedRequestLine(m: Method, target: string, version: string, trail: string)
    requires IsWord(target) && IsSupportedVersion(version) && AllSpace(trail)
    ensures ParseRequestLine(MethodName(m) + " " + target + " " + version + trail)
         == Success(RequestLine(m, ParsedUrl(target), version, VersionParts(version)))
  {
    var words := [MethodName(m), target, version];
    assert IsWord(MethodName(m));
    assert IsWord(version);
    WordsOfJoinSpacedPadded(words, trail);
    JoinSpacedThree(MethodName(m), target, version);
  }
}
