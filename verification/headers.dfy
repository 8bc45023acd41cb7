/**
 * Header lines: `header_from_line`, `is_invalid_header_name`, obsolete line
 * folding (section 3.2.4 of RFC 7230), `_flush_header_buffer` and the loop of
 * `store_headers_from_lines`.
 */
module Headers {
  import opened Wrappers
  import opened ByteSeq
  import opened Utf8
  import opened PyStr
  import opened Errors

  /** A header value: the text after the colon, or a list once continuation lines fold into it. */
  datatype HeaderValue = Single(text: string) | Folded(parts: seq<string>)

  /** The header being assembled (`_header_buffer`), not yet stored. */
  datatype PendingHeader = PendingHeader(key: string, value: HeaderValue)

  type HeaderMap = map<string, HeaderValue>

  /** What the header lines after the request line left behind. */
  datatype HeaderBatch = HeaderBatch(pending: Option<PendingHeader>, headers: HeaderMap, body: Option<Bytes>)

  /** The texts a value holds, in order. */
  function Parts(v: HeaderValue): seq<string> {
    match v
    case Single(t) => [t]
    case Folded(p) => p
  }

  /** A character of INVALID_CHAR_REGEX: controls, DEL, space, tab and the HTTP delimiters. */
  predicate IsInvalidChar(c: char) {
    c as int <= 0x1F || c as int == 0x7F || c in "(),/:;<=>?@[]{} \t\\\""
  }

  /** `INVALID_CHAR_REGEX.search(s)`: the index of the first invalid character, or -1. */
  function SearchInvalid(s: string): (r: int)
    ensures r == -1 <==> forall i :: 0 <= i < |s| ==> !IsInvalidChar(s[i])
    ensures r != -1 ==> 0 <= r < |s| && IsInvalidChar(s[r])
    ensures r != -1 ==> forall i :: 0 <= i < r ==> !IsInvalidChar(s[i])
  {
    if |s| == 0 then -1
    else if IsInvalidChar(s[0]) then 0
    else
      var r := SearchInvalid(s[1..]);
      if r == -1 then -1 else r + 1
  }

  /** `is_invalid_header_name`. */
  function IsInvalidHeaderName(s: string): (r: bool)
    ensures r <==> s == [] || exists i :: 0 <= i < |s| && IsInvalidChar(s[i])
  {
    s == [] || SearchInvalid(s) != -1
  }

  /** `line` is `name`, the first colon, and `text`. */
  predicate SplitsAt(line: string, name: string, text: string) {
    line == name + ":" + text && ':' !in name
  }

  /**
   * `header_from_line`: split at the first colon, strip both sides, reject an
   * invalid name, and keep the name upper-cased with the value as a single text.
   */
  function HeaderFromLine(line: string): (r: Result<PendingHeader, HttpError>)
    ensures ':' !in line ==> r == Failure(InvalidHeader)
    ensures r.Failure? ==> r.error == InvalidHeader
    ensures forall name, text :: SplitsAt(line, name, text) ==>
      && (r.Success? <==> !IsInvalidHeaderName(Strip(name)))
      && (r.Success? ==> r.value == PendingHeader(Upper(Strip(name)), Single(Strip(text))))
  {
    match SplitAtColon(line)
    case None => Failure(InvalidHeader)
    case Some(parts) =>
      ColonSplitUnique(line, parts.0, parts.1);
      var key := Strip(parts.0);
      if IsInvalidHeaderName(key) then Failure(InvalidHeader)
      else Success(PendingHeader(Upper(key), Single(Strip(parts.1))))
  }

  lemma ColonIndex(line: string, name: string, text: string)
    requires SplitsAt(line, name, text)
    ensures |name| < |line| && line[|name|] == ':'
    ensures forall i :: 0 <= i < |name| ==> line[i] != ':'
  {
    assert forall i :: 0 <= i < |name| ==> line[i] == name[i];
  }

  /** A line has one split at its first colon. */
  lemma ColonSplitUnique(line: string, name: string, text: string)
    requires SplitsAt(line, name, text)
    ensures forall name', text' :: SplitsAt(line, name', text') ==> name' == name && text' == text
  {
    forall name', text' | SplitsAt(line, name', text')
      ensures name' == name && text' == text
    {
      ColonIndex(line, name, text);
      ColonIndex(line, name', text');
      assert |name'| == |name|;
      assert line[..|name|] == name;
      assert line[..|name'|] == name';
      assert line[|name| + 1..] == text;
      assert line[|name'| + 1..] == text';
    }
  }

  lemma ValidNameHasNoColon(name: string)
    requires !IsInvalidHeaderName(name)
    ensures ':' !in name
  {
    forall i | 0 <= i < |name| ensures name[i] != ':' {
      assert !IsInvalidChar(name[i]);
    }
  }

  lemma StripWritten(name: string, text: string)
    requires IsTrimmed(name) && IsTrimmed(text)
    ensures Strip(name) == name && Strip(" " + text) == text
  {
    StripPadded([], name, []);
    assert [] + name + [] == name;
    assert AllSpace(" ");
    StripPadded(" ", text, []);
    assert " " + text + [] == " " + text;
  }

  /** A header written as `Name: value` parses back into its upper-cased name and its value. */
  lemma HeaderFromWrittenLine(name: string, text: string)
    requires !IsInvalidHeaderName(name) && IsTrimmed(name) && IsTrimmed(text)
    ensures HeaderFromLine(name + ": " + text) == Success(PendingHeader(Upper(name), Single(text)))
  {
    var line := name + ": " + text;
    var rest := " " + text;
    assert line == name + ":" + rest;
    ValidNameHasNoColon(name);
    assert SplitsAt(line, name, rest);
    StripWritten(name, text);
  }

  lemma ColonRegroup(name: string, text: string, trail: string, line: string)
    requires line == name + ": " + text + trail
    ensures line == name + ":" + (" " + text + trail)
  {
  }

  /** Trailing whitespace, a stray `\r` included, is stripped off the value. */
  lemma HeaderFromPaddedLine(name: string, text: string, trail: string, line: string)
    requires !IsInvalidHeaderName(name) && IsTrimmed(name) && IsTrimmed(text) && AllSpace(trail)
    requires line == name + ": " + text + trail
    ensures HeaderFromLine(line) == Success(PendingHeader(Upper(name), Single(text)))
  {
    PaddedLineParts(name, text, trail, line);
  }

  lemma PaddedLineParts(name: string, text: string, trail: string, line: string)
    requires !IsInvalidHeaderName(name) && IsTrimmed(name) && IsTrimmed(text) && AllSpace(trail)
    requires line == name + ": " + text + trail
    ensures SplitsAt(line, name, " " + text + trail)
    ensures Strip(name) == name && Strip(" " + text + trail) == text
  {
    ColonRegroup(name, text, trail, line);
    ValidNameHasNoColon(name);
    StripWritten(name, text);
    assert AllSpace(" ");
    StripPadded(" ", text, trail);
  }

  /** Folding one continuation text into a value: a single text becomes a list of two, a list grows by one. */
  function Fold(v: HeaderValue, t: string): (r: HeaderValue)
    ensures r.Folded?
    ensures Parts(r) == Parts(v) + [t]
  {
    match v
    case Single(s) => Folded([s, t])
    case Folded(p) => Folded(p + [t])
  }

  /** Folding several continuation texts into a value, one after another. */
  function FoldAll(v: HeaderValue, ts: seq<string>): HeaderValue
    decreases |ts|
  {
    if |ts| == 0 then v else FoldAll(Fold(v, ts[0]), ts[1..])
  }

  /** Folding keeps the texts a value held and appends the new ones in order; any one of them makes it a list. */
  lemma {:induction false} FoldAllParts(v: HeaderValue, ts: seq<string>)
    ensures Parts(FoldAll(v, ts)) == Parts(v) + ts
    ensures |ts| > 0 ==> FoldAll(v, ts).Folded?
    decreases |ts|
  {
    if |ts| > 0 {
      FoldAllParts(Fold(v, ts[0]), ts[1..]);
      assert Parts(v) + ts == Parts(v) + [ts[0]] + ts[1..];
    }
  }

  /** `_flush_header_buffer`: store the pending header under its name, overwriting an earlier one. */
  function Flush(headers: HeaderMap, h: PendingHeader): (r: HeaderMap)
    ensures h.key in r && r[h.key] == h.value
    ensures r.Keys == headers.Keys + {h.key}
    ensures forall k :: k in headers && k != h.key ==> r[k] == headers[k]
  {
    headers[h.key := h.value]
  }

  /** A later header with the same name replaces the earlier one: the last write wins. */
  lemma FlushLastWins(headers: HeaderMap, h1: PendingHeader, h2: PendingHeader)
    requires h1.key == h2.key
    ensures Flush(Flush(headers, h1), h2) == Flush(headers, h2)
  {
  }

  /** The index of the first blank line, or -1. */
  function FirstBlank(lines: seq<Bytes>): (r: int)
    ensures r == -1 <==> forall k :: 0 <= k < |lines| ==> lines[k] != []
    ensures r != -1 ==> 0 <= r < |lines| && lines[r] == []
    ensures r != -1 ==> forall k :: 0 <= k < r ==> lines[k] != []
  {
    if |lines| == 0 then -1
    else if lines[0] == [] then 0
    else
      var r := FirstBlank(lines[1..]);
      if r == -1 then -1 else r + 1
  }

  /** Every stored name and the pending name are upper-case. */
  predicate Canonical(pending: Option<PendingHeader>, headers: HeaderMap) {
    && (pending.Some? ==> Upper(pending.value.key) == pending.value.key)
    && forall k :: k in headers ==> Upper(k) == k
  }

  /**
   * `store_headers_from_lines`. Lines are handled in order until the first
   * blank one, which flushes the pending header, keeps the remaining lines
   * joined with no separator as the body, and ends the headers. A blank line
   * with nothing pending subscripts None: that is the `Crash` outcome.
   */
  function StoreHeaders(pending: Option<PendingHeader>, headers: HeaderMap, lines: seq<Bytes>): Result<HeaderBatch, Fault>
    decreases |lines|
  {
    if |lines| == 0 then Success(HeaderBatch(pending, headers, None))
    else if lines[0] == [] then
      match pending
      case None => Failure(Crash)
      case Some(h) => Success(HeaderBatch(None, Flush(headers, h), Some(Concat(lines))))
    else
      match Decode(lines[0])
      case None => Failure(Http(BadRequest))
      case Some(line) =>
        if StartsWithBlank(line) then
          match pending
          case None => Failure(Http(InvalidHeader))
          case Some(h) =>
            StoreHeaders(Some(h.(value := Fold(h.value, Strip(line)))), headers, lines[1..])
        else
          var flushed := if pending.Some? then Flush(headers, pending.value) else headers;
          match HeaderFromLine(line)
          case Failure(e) => Failure(Http(e))
          case Success(h) => StoreHeaders(Some(h), flushed, lines[1..])
  }

  /**
   * A continuation line, one that starts with a space or a tab, appends its
   * stripped text to the pending value and leaves the header pending.
   */
  lemma StoreContinuation(h: PendingHeader, headers: HeaderMap, lines: seq<Bytes>, line: string)
    requires |lines| > 0 && lines[0] != [] && Decode(lines[0]) == Some(line) && StartsWithBlank(line)
    ensures StoreHeaders(Some(h), headers, lines)
         == StoreHeaders(Some(h.(value := Fold(h.value, Strip(line)))), headers, lines[1..])
  {
  }

  /** A continuation line with no header before it to continue is refused, whatever follows it. */
  lemma ContinuationWithoutHeader(headers: HeaderMap, lines: seq<Bytes>, line: string)
    requires |lines| > 0 && lines[0] != [] && Decode(lines[0]) == Some(line) && StartsWithBlank(line)
    ensures StoreHeaders(None, headers, lines) == Failure(Http(InvalidHeader))
  {
  }

  /** A non-blank line that is not UTF-8 is a bad request, whatever is pending and whatever follows it. */
  lemma UndecodableHeaderLine(pending: Option<PendingHeader>, headers: HeaderMap, lines: seq<Bytes>)
    requires |lines| > 0 && lines[0] != [] && Decode(lines[0]).None?
    ensures StoreHeaders(pending, headers, lines) == Failure(Http(BadRequest))
  {
  }

  /** The lines after a non-blank first line have their first blank line one place earlier. */
  lemma FirstBlankTail(lines: seq<Bytes>)
    requires |lines| > 0 && lines[0] != []
    ensures FirstBlank(lines) == -1 <==> FirstBlank(lines[1..]) == -1
    ensures FirstBlank(lines) != -1 ==>
      FirstBlank(lines) == FirstBlank(lines[1..]) + 1
      && lines[FirstBlank(lines)..] == lines[1..][FirstBlank(lines[1..])..]
  {
  }

  /**
   * What storing header lines leaves: only the three faults of the source
   * are raised; when a blank line is among the lines nothing is left pending
   * and the body buffer is the lines from that blank one on, joined; without
   * one there is no body buffer yet and, given any line, a pending header.
   */
  lemma {:induction false} StoreHeadersOutcome(pending: Option<PendingHeader>, headers: HeaderMap, lines: seq<Bytes>)
    decreases |lines|
    ensures var r := StoreHeaders(pending, headers, lines);
      && (r.Failure? ==> r.error in {Http(BadRequest), Http(InvalidHeader), Crash})
      && (r.Success? && FirstBlank(lines) != -1 ==>
            r.value.pending.None? && r.value.body == Some(Concat(lines[FirstBlank(lines)..])))
      && (r.Success? && FirstBlank(lines) == -1 ==>
            r.value.body.None? && (|lines| > 0 ==> r.value.pending.Some?))
      && (|lines| == 0 ==> r == Success(HeaderBatch(pending, headers, None)))
  {
    if |lines| > 0 && lines[0] != [] {
      FirstBlankTail(lines);
      match Decode(lines[0])
      case None =>
      case Some(line) =>
        if StartsWithBlank(line) {
          match pending
          case None =>
          case Some(h) =>
            StoreHeadersOutcome(Some(h.(value := Fold(h.value, Strip(line)))), headers, lines[1..]);
        } else {
          var flushed := if pending.Some? then Flush(headers, pending.value) else headers;
          match HeaderFromLine(line)
          case Failure(e) =>
          case Success(h) =>
            StoreHeadersOutcome(Some(h), flushed, lines[1..]);
        }
    }
  }

  /** Storing header lines never drops a stored name, and keeps every name upper-case. */
  lemma {:induction false} StoreHeadersCanonical(pending: Option<PendingHeader>, headers: HeaderMap, lines: seq<Bytes>)
    decreases |lines|
    ensures var r := StoreHeaders(pending, headers, lines);
      && (r.Success? ==> headers.Keys <= r.value.headers.Keys)
      && (r.Success? && Canonical(pending, headers) ==> Canonical(r.value.pending, r.value.headers))
  {
    if |lines| > 0 && lines[0] != [] {
      match Decode(lines[0])
      case None =>
      case Some(line) =>
        if StartsWithBlank(line) {
          match pending
          case None =>
          case Some(h) =>
            StoreHeadersCanonical(Some(h.(value := Fold(h.value, Strip(line)))), headers, lines[1..]);
        } else {
          var flushed := if pending.Some? then Flush(headers, pending.value) else headers;
          match HeaderFromLine(line)
          case Failure(e) =>
          case Success(h) =>
            UpperIdempotent(Strip(SplitAtColon(line).value.0));
            assert SplitsAt(line, SplitAtColon(line).value.0, SplitAtColon(line).value.1);
            StoreHeadersCanonical(Some(h), flushed, lines[1..]);
        }
    }
  }
}
