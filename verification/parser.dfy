/**
 * `Parser.consume`: one step of the per-connection request parser, as a pure
 * function from the parser's state and a chunk of bytes to the next state,
 * the callbacks made to the parent (`set_request_line`, `set_headers`) and
 * the value returned, or the fault raised.
 */
module Parser {
  import opened Wrappers
  import opened ByteSeq
  import opened Utf8
  import opened PyStr
  import opened Errors
  import opened RequestLines
  import opened Headers

  /** MAX_REQUEST_LENGTH: the cumulative size limit, 1 MiB. */
  const MaxRequestLength: nat := 1024 * 1024

  /** The locked line terminator, `EOL_TOKEN`. */
  datatype Eol = Lf | CrLf {
    function Token(): (t: Bytes)
      ensures IsLineToken(t)
    {
      if Lf? then [LF] else [CR, LF]
    }
  }

  /** A callback to the parent. */
  datatype Event =
    | SetRequestLine(httpMethod: Method, url: ParsedUrl, version: string)
    | SetHeaders(headers: HeaderMap)

  /** The attributes of a `Parser` instance that `consume` reads and writes. */
  datatype State = State(
    eol: Option<Eol>,
    buffer: seq<Bytes>,
    requestLength: nat,
    needsRequestLine: bool,
    needsHeaders: bool,
    requestLine: Option<RequestLine>,
    pending: Option<PendingHeader>,
    headers: HeaderMap,
    body: Option<Bytes>)

  /** A freshly constructed parser. */
  const Initial: State := State(None, [], 0, true, true, None, None, map[], None)

  /** The outcome of a successful `consume`: the new state, the callbacks made, the value returned. */
  datatype Step = Step(state: State, events: seq<Event>, ret: Option<Bytes>)

  function LineEvent(rl: RequestLine): Event {
    SetRequestLine(rl.httpMethod, rl.url, rl.version)
  }

  /** The states a parser can be in between calls. */
  predicate Valid(p: State) {
    && p.requestLength <= MaxRequestLength
    && (p.needsRequestLine ==> p.needsHeaders && p.requestLine.None? && p.pending.None? && p.headers == map[])
    && (!p.needsRequestLine ==> p.requestLine.Some?)
    && (p.needsHeaders ==> p.body.None?)
    && (!p.needsHeaders ==> p.pending.None? && p.body.Some?)
    && Canonical(p.pending, p.headers)
  }

  /**
   * The callbacks owed for going from `p` to `q`: `set_request_line` when the
   * request line got parsed, then `set_headers` when the headers ended.
   */
  function Announced(p: State, q: State): seq<Event> {
    (if p.needsRequestLine && !q.needsRequestLine && q.requestLine.Some? then [LineEvent(q.requestLine.value)] else [])
    + (if p.needsHeaders && !q.needsHeaders then [SetHeaders(q.headers)] else [])
  }

  /** Python's `string[i - 1]`, where index -1 is the last byte. */
  function PrevByte(data: Bytes, i: nat): byte
    requires i < |data|
  {
    if i == 0 then data[|data| - 1] else data[i - 1]
  }

  /**
   * `find_newline`. Until a terminator is locked, a chunk with no `\n`
   * reports -1 and locks nothing; the first `\n` locks `\r\n` if the byte
   * before it is `\r` and `\n` otherwise. From then on the result is the
   * index of the locked terminator in the chunk.
   */
  function FindNewline(eol: Option<Eol>, data: Bytes): (r: (Option<Eol>, int))
    ensures eol.Some? ==> r.0 == eol
    ensures eol.None? && !Contains(data, [LF]) ==> r == (None, -1)
    ensures eol.None? && Contains(data, [LF]) ==>
      r.0 == Some(if PrevByte(data, Find(data, [LF])) == CR then CrLf else Lf)
    ensures r.0.Some? ==> r.1 == Find(data, r.0.value.Token())
  {
    match eol
    case Some(e) => (eol, Find(data, e.Token()))
    case None =>
      var at := Find(data, [LF]);
      if at == -1 then (None, -1)
      else
        var e := if PrevByte(data, at) == CR then CrLf else Lf;
        (Some(e), Find(data, e.Token()))
  }

  /**
   * The line buffering of `consume`: the buffered fragments and the chunk,
   * joined and split on the terminator, give the complete lines and the new
   * buffer. The new buffer holds the trailing fragment, or nothing when the
   * chunk ends with the terminator.
   */
  function Frame(buffer: seq<Bytes>, data: Bytes, eol: Eol): (r: (seq<Bytes>, seq<Bytes>))
  {
    var tok := eol.Token();
    var pieces := Split(Concat(buffer) + data, tok);
    (pieces[..|pieces| - 1], if !EndsWith(data, tok) then [pieces[|pieces| - 1]] else [])
  }

  /**
   * Framing loses nothing: the lines, each put back with its terminator, and
   * the new buffer rebuild the buffered bytes and the chunk. No line and no
   * kept fragment holds the terminator, a fragment is kept exactly when the
   * chunk does not end with the terminator, and a chunk holding the
   * terminator completes at least one line.
   */
  lemma FrameSpec(buffer: seq<Bytes>, data: Bytes, eol: Eol)
    ensures var r := Frame(buffer, data, eol);
      && Terminated(r.0, eol.Token()) + Concat(r.1) == Concat(buffer) + data
      && (forall k :: 0 <= k < |r.0| ==> !Contains(r.0[k], eol.Token()))
      && !Contains(Concat(r.1), eol.Token())
      && (EndsWith(data, eol.Token()) ==> r.1 == [])
      && (!EndsWith(data, eol.Token()) ==> |r.1| == 1)
      && (Contains(data, eol.Token()) ==> |r.0| >= 1)
  {
    var tok := eol.Token();
    var pieces := Split(Concat(buffer) + data, tok);
    var last := pieces[|pieces| - 1];
    assert Concat([last]) == last;
    PiecesRebuild(Concat(buffer) + data, tok);
    if EndsWith(data, tok) {
      PiecesEndEmpty(Concat(buffer), data, tok);
    }
    if Contains(data, tok) {
      PiecesAtLeastTwo(Concat(buffer), data, tok);
    }
  }

  /** A chunk holding the terminator completes at least one line. */
  lemma FrameCompletes(buffer: seq<Bytes>, data: Bytes, eol: Eol)
    requires Contains(data, eol.Token())
    ensures |Frame(buffer, data, eol).0| >= 1
  {
    PiecesAtLeastTwo(Concat(buffer), data, eol.Token());
  }

  /** Framing a chunk whose joined bytes split into `pieces`: all but the last are the lines. */
  lemma FrameIs(buffer: seq<Bytes>, data: Bytes, eol: Eol, pieces: seq<Bytes>)
    requires Split(Concat(buffer) + data, eol.Token()) == pieces
    ensures |pieces| >= 1
    ensures Frame(buffer, data, eol)
         == (pieces[..|pieces| - 1], if EndsWith(data, eol.Token()) then [] else [pieces[|pieces| - 1]])
  {
  }

  lemma PiecesRebuild(joined: Bytes, tok: Bytes)
    requires |tok| > 0
    ensures var pieces := Split(joined, tok);
      && Terminated(pieces[..|pieces| - 1], tok) + pieces[|pieces| - 1] == joined
      && (forall k :: 0 <= k < |pieces| ==> !Contains(pieces[k], tok))
  {
    SplitJoin(joined, tok);
    SplitSnoc(Split(joined, tok), tok);
  }

  lemma PiecesEndEmpty(prefix: Bytes, data: Bytes, tok: Bytes)
    requires IsLineToken(tok) && EndsWith(data, tok)
    ensures Split(prefix + data, tok)[|Split(prefix + data, tok)| - 1] == []
  {
    EndsWithAfter(prefix, data, tok);
    SplitEndingWithToken(prefix + data, tok);
  }

  lemma PiecesAtLeastTwo(prefix: Bytes, data: Bytes, tok: Bytes)
    requires |tok| > 0 && Contains(data, tok)
    ensures |Split(prefix + data, tok)| >= 2
  {
    ContainsAfter(prefix, data, tok);
    SplitContaining(prefix + data, tok);
  }

  lemma SplitSnoc(pieces: seq<Bytes>, tok: Bytes)
    requires |pieces| >= 1
    ensures Terminated(pieces[..|pieces| - 1], tok) + pieces[|pieces| - 1] == JoinWith(pieces, tok)
  {
    assert pieces == pieces[..|pieces| - 1] + [pieces[|pieces| - 1]];
    JoinWithSnoc(pieces[..|pieces| - 1], pieces[|pieces| - 1], tok);
  }

  lemma EndsWithAfter(prefix: Bytes, data: Bytes, tok: Bytes)
    requires EndsWith(data, tok)
    ensures EndsWith(prefix + data, tok)
  {
    var joined := prefix + data;
    assert joined[|joined| - |tok|..] == data[|data| - |tok|..];
  }

  lemma ContainsAfter(prefix: Bytes, data: Bytes, tok: Bytes)
    requires Contains(data, tok)
    ensures Contains(prefix + data, tok)
  {
    var joined := prefix + data;
    var i :| 0 <= i <= |data| && OccursAt(data, tok, i);
    assert joined[|prefix|..] == data;
    OccursInSuffix(joined, tok, |prefix|, i);
  }

  /**
   * The header part of `consume`, on the lines left after the request line.
   * With no lines it returns None; while headers are needed it stores them
   * and, if a blank line ended them, announces them; it returns the body
   * buffer as it then stands.
   */
  function ProcessHeaderLines(p: State, events: seq<Event>, lines: seq<Bytes>): (r: Result<Step, Fault>)
  {
    if |lines| == 0 then Success(Step(p, events, None))
    else if p.needsHeaders then
      match StoreHeaders(p.pending, p.headers, lines)
      case Failure(f) => Failure(f)
      case Success(batch) =>
        var q := p.(pending := batch.pending, headers := batch.headers,
                    body := if batch.body.Some? then batch.body else p.body);
        if batch.pending.None? then
          var done := q.(needsHeaders := false);
          Success(Step(done, events + [SetHeaders(done.headers)], done.body))
        else Success(Step(q, events, q.body))
    else Success(Step(p, events, p.body))
  }

  /**
   * The header part touches only the header attributes; once the headers are
   * done it changes nothing. It returns None for no lines and the body
   * buffer otherwise, announces the headers exactly when they end (with a
   * body buffer then in place), and keeps a valid state valid.
   */
  lemma ProcessHeaderLinesSpec(p: State, events: seq<Event>, lines: seq<Bytes>)
    ensures var r := ProcessHeaderLines(p, events, lines);
      r.Success? ==>
        && r.value.state.needsRequestLine == p.needsRequestLine
        && r.value.state.requestLine == p.requestLine
        && r.value.state.eol == p.eol && r.value.state.buffer == p.buffer
        && r.value.state.requestLength == p.requestLength
        && (!p.needsHeaders ==> r.value.state == p)
        && (p.needsHeaders && !r.value.state.needsHeaders ==> r.value.state.body.Some?)
        && r.value.ret == (if |lines| == 0 then None else r.value.state.body)
        && r.value.events == events + Announced(p.(needsRequestLine := false), r.value.state)
        && (Valid(p) && !p.needsRequestLine ==> Valid(r.value.state))
  {
    if |lines| > 0 && p.needsHeaders {
      StoreHeadersOutcome(p.pending, p.headers, lines);
      StoreHeadersCanonical(p.pending, p.headers, lines);
    }
  }

  /**
   * The request-line part of `consume`: while the request line is needed,
   * the first complete line is decoded and parsed, `set_request_line` is
   * called, and the rest go to the header part.
   */
  function ProcessLines(p: State, lines: seq<Bytes>): (r: Result<Step, Fault>)
    requires p.needsRequestLine ==> |lines| > 0
  {
    if p.needsRequestLine then
      match Decode(lines[0])
      case None => Failure(Http(BadRequest))
      case Some(text) =>
        match ParseRequestLine(text)
        case Failure(e) => Failure(Http(e))
        case Success(rl) =>
          var q := p.(requestLine := Some(rl), needsRequestLine := false);
          ProcessHeaderLines(q, [LineEvent(rl)], lines[1..])
    else ProcessHeaderLines(p, [], lines)
  }

  /**
   * After the complete lines of a chunk are processed the request line is
   * known and never replaced; the line buffering and the length are left
   * alone; done headers stay done and unchanged; the value returned is None
   * or the body buffer, and the body buffer when the headers just ended;
   * the callbacks are exactly those owed; and a valid state stays valid.
   */
  lemma ProcessLinesSpec(p: State, lines: seq<Bytes>)
    requires p.needsRequestLine ==> |lines| > 0
    ensures var r := ProcessLines(p, lines);
      r.Success? ==>
        && (p.needsRequestLine ==> r.value.state.requestLine.Some?)
        && !r.value.state.needsRequestLine
        && (!p.needsRequestLine ==> r.value.state.requestLine == p.requestLine)
        && r.value.state.eol == p.eol && r.value.state.buffer == p.buffer
        && r.value.state.requestLength == p.requestLength
        && (!p.needsHeaders ==>
              && !r.value.state.needsHeaders
              && r.value.state.headers == p.headers
              && r.value.state.body == p.body
              && (r.value.ret == None || r.value.ret == p.body))
        && (r.value.ret == None || r.value.ret == r.value.state.body)
        && (p.needsHeaders && !r.value.state.needsHeaders ==>
              r.value.state.body.Some? && r.value.ret == r.value.state.body)
        && r.value.events == Announced(p, r.value.state)
        && (Valid(p) ==> Valid(r.value.state))
  {
    if p.needsRequestLine {
      match Decode(lines[0])
      case None =>
      case Some(text) =>
        match ParseRequestLine(text)
        case Failure(e) =>
        case Success(rl) =>
          var q := p.(requestLine := Some(rl), needsRequestLine := false);
          ProcessHeaderLinesSpec(q, [LineEvent(rl)], lines[1..]);
    } else {
      ProcessHeaderLinesSpec(p, [], lines);
    }
  }

  /**
   * The request line is the first complete line: one that does not decode is
   * a bad request, one that does not parse raises what the parse raised,
   * and one that parses is the request line stored.
   */
  lemma ProcessRequestLine(p: State, lines: seq<Bytes>)
    requires p.needsRequestLine && |lines| > 0
    ensures Decode(lines[0]).None? ==> ProcessLines(p, lines) == Failure(Http(BadRequest))
    ensures Decode(lines[0]).Some? && ParseRequestLine(Decode(lines[0]).value).Failure? ==>
      ProcessLines(p, lines) == Failure(Http(ParseRequestLine(Decode(lines[0]).value).error))
    ensures ProcessLines(p, lines).Success? ==>
      && Decode(lines[0]).Some? && ParseRequestLine(Decode(lines[0]).value).Success?
      && ProcessLines(p, lines).value.state.requestLine == Some(ParseRequestLine(Decode(lines[0]).value).value)
  {
    if Decode(lines[0]).Some? && ParseRequestLine(Decode(lines[0]).value).Success? {
      var rl := ParseRequestLine(Decode(lines[0]).value).value;
      ProcessHeaderLinesSpec(p.(requestLine := Some(rl), needsRequestLine := false), [LineEvent(rl)], lines[1..]);
    }
  }

  /** A request line that decodes and parses is stored and announced, and the rest go to the header part. */
  lemma RequestLineStep(p: State, lines: seq<Bytes>, text: string, rl: RequestLine)
    requires p.needsRequestLine && |lines| > 0
    requires Decode(lines[0]) == Some(text) && ParseRequestLine(text) == Success(rl)
    ensures ProcessLines(p, lines)
         == ProcessHeaderLines(p.(requestLine := Some(rl), needsRequestLine := false), [LineEvent(rl)], lines[1..])
  {
  }

  /** Header lines that cannot be stored raise what storing raised. */
  lemma HeaderLinesFail(p: State, events: seq<Event>, lines: seq<Bytes>)
    requires |lines| > 0 && p.needsHeaders
    requires StoreHeaders(p.pending, p.headers, lines).Failure?
    ensures ProcessHeaderLines(p, events, lines) == Failure(StoreHeaders(p.pending, p.headers, lines).error)
  {
  }

  /** Header lines that end the headers announce the map and return the body buffer. */
  lemma HeaderLinesDone(p: State, events: seq<Event>, lines: seq<Bytes>, batch: HeaderBatch)
    requires |lines| > 0 && p.needsHeaders
    requires StoreHeaders(p.pending, p.headers, lines) == Success(batch)
    requires batch.pending.None? && batch.body.Some?
    ensures
      var q := p.(pending := None, headers := batch.headers, body := batch.body, needsHeaders := false);
      ProcessHeaderLines(p, events, lines) == Success(Step(q, events + [SetHeaders(q.headers)], q.body))
  {
  }

  /**
   * A first chunk of lines holding the request line and header lines that
   * end the headers: both callbacks are made, in order, and the body buffer
   * is returned.
   */
  lemma HeadProcessed(p: State, lines: seq<Bytes>, text: string, rl: RequestLine, batch: HeaderBatch)
    requires p.needsRequestLine && p.needsHeaders && p.pending.None? && p.headers == map[]
    requires |lines| > 1 && Decode(lines[0]) == Some(text) && ParseRequestLine(text) == Success(rl)
    requires StoreHeaders(None, map[], lines[1..]) == Success(batch)
    requires batch.pending.None? && batch.body.Some?
    ensures
      var q := p.(requestLine := Some(rl), needsRequestLine := false, needsHeaders := false,
                  headers := batch.headers, body := batch.body);
      ProcessLines(p, lines) == Success(Step(q, [LineEvent(rl), SetHeaders(batch.headers)], batch.body))
  {
    var q0 := p.(requestLine := Some(rl), needsRequestLine := false);
    RequestLineStep(p, lines, text, rl);
    HeaderLinesDone(q0, [LineEvent(rl)], lines[1..], batch);
    assert [LineEvent(rl)] + [SetHeaders(batch.headers)] == [LineEvent(rl), SetHeaders(batch.headers)];
  }

  /** As above, but with header lines that cannot be stored: what storing raised is raised. */
  lemma HeadFailed(p: State, lines: seq<Bytes>, text: string, rl: RequestLine)
    requires p.needsRequestLine && p.needsHeaders && p.pending.None? && p.headers == map[]
    requires |lines| > 1 && Decode(lines[0]) == Some(text) && ParseRequestLine(text) == Success(rl)
    requires StoreHeaders(None, map[], lines[1..]).Failure?
    ensures ProcessLines(p, lines) == Failure(StoreHeaders(None, map[], lines[1..]).error)
  {
    var q0 := p.(requestLine := Some(rl), needsRequestLine := false);
    RequestLineStep(p, lines, text, rl);
    HeaderLinesFail(q0, [LineEvent(rl)], lines[1..]);
  }

  /**
   * `consume(data)`. The size limit is checked first, on the running total
   * including this chunk. A chunk in which `find_newline` finds no terminator
   * is buffered whole. Otherwise the complete lines are processed and the
   * trailing fragment is kept.
   */
  function Consume(p: State, data: Bytes): (r: Result<Step, Fault>)
  {
    var length := p.requestLength + |data|;
    if length > MaxRequestLength then Failure(Http(BadRequest))
    else
      var found := FindNewline(p.eol, data);
      var p1 := p.(requestLength := length, eol := found.0);
      if found.1 == -1 then Success(Step(p1.(buffer := p.buffer + [data]), [], None))
      else
        FrameCompletes(p.buffer, data, found.0.value);
        var framed := Frame(p.buffer, data, found.0.value);
        ProcessLines(p1.(buffer := framed.1), framed.0)
  }

  /** A chunk in which a terminator is found is framed and its complete lines processed. */
  lemma ConsumeLines(p: State, data: Bytes, eol: Eol, at: int, lines: seq<Bytes>, buffer: seq<Bytes>)
    requires p.requestLength + |data| <= MaxRequestLength
    requires FindNewline(p.eol, data) == (Some(eol), at) && at != -1
    requires Frame(p.buffer, data, eol) == (lines, buffer)
    ensures p.needsRequestLine ==> |lines| > 0
    ensures Consume(p, data) == ProcessLines(p.(requestLength := p.requestLength + |data|, eol := Some(eol), buffer := buffer), lines)
  {
    assert Contains(data, eol.Token()) by {
      assert Find(data, eol.Token()) == at;
    }
    FrameCompletes(p.buffer, data, eol);
    var q := p.(requestLength := p.requestLength + |data|, eol := Some(eol), buffer := buffer);
    assert p.(requestLength := p.requestLength + |data|, eol := Some(eol)).(buffer := buffer) == q;
  }

  /**
   * The checks `consume` makes before any line is processed: a chunk that
   * takes the running total past the limit is a bad request; the running
   * total grows by the chunk; a locked terminator stays locked; and a chunk
   * in which no terminator is found is only buffered, with nothing returned
   * and no callback made.
   */
  lemma ConsumeChecks(p: State, data: Bytes)
    ensures p.requestLength + |data| > MaxRequestLength ==> Consume(p, data) == Failure(Http(BadRequest))
    ensures var r := Consume(p, data);
      r.Success? ==>
        && r.value.state.requestLength == p.requestLength + |data|
        && (p.eol.Some? ==> r.value.state.eol == p.eol)
        && (FindNewline(p.eol, data).1 == -1 ==>
              r.value == Step(p.(requestLength := p.requestLength + |data|, eol := FindNewline(p.eol, data).0,
                                 buffer := p.buffer + [data]), [], None))
  {
    var (eol, at) := FindNewline(p.eol, data);
    if p.requestLength + |data| <= MaxRequestLength && at != -1 {
      var (lines, buffer) := Frame(p.buffer, data, eol.value);
      ConsumeLines(p, data, eol.value, at, lines, buffer);
      ProcessLinesSpec(p.(requestLength := p.requestLength + |data|, eol := eol, buffer := buffer), lines);
    }
  }

  /**
   * What `consume` does to the parse's progress: a parsed request line is
   * never replaced; done headers stay done and unchanged and only the body
   * buffer, or nothing, is returned; nothing is returned while headers are
   * still needed; the call that ends the headers has a body buffer in place
   * and returns it; the callbacks made are exactly those owed; and a valid
   * state stays valid.
   */
  lemma ConsumeProgress(p: State, data: Bytes)
    ensures var r := Consume(p, data);
      r.Success? ==>
        && (!p.needsRequestLine ==>
              !r.value.state.needsRequestLine && r.value.state.requestLine == p.requestLine)
        && (!p.needsHeaders ==>
              && !r.value.state.needsHeaders
              && r.value.state.headers == p.headers
              && r.value.state.body == p.body
              && (r.value.ret == None || r.value.ret == p.body))
        && (Valid(p) && r.value.state.needsHeaders ==> r.value.ret == None)
        && (p.needsHeaders && !r.value.state.needsHeaders ==>
              r.value.state.body.Some? && r.value.ret == r.value.state.body)
        && r.value.events == Announced(p, r.value.state)
        && (Valid(p) ==> Valid(r.value.state))
  {
    var (eol, at) := FindNewline(p.eol, data);
    if p.requestLength + |data| <= MaxRequestLength && at != -1 {
      var (lines, buffer) := Frame(p.buffer, data, eol.value);
      ConsumeLines(p, data, eol.value, at, lines, buffer);
      ProcessLinesSpec(p.(requestLength := p.requestLength + |data|, eol := eol, buffer := buffer), lines);
    }
  }

  /**
   * A chunk that completes the request head while the request line is
   * still needed: the terminator is locked, both callbacks are made in
   * order, the headers are done and the body buffer is returned, the
   * trailing fragment kept.
   */
  lemma ConsumeHeadFrom(p: State, data: Bytes, e: Eol, at: int, lines: seq<Bytes>, buffer: seq<Bytes>, text: string, rl: RequestLine, batch: HeaderBatch, q: State)
    requires p.needsRequestLine && p.needsHeaders && p.pending.None? && p.headers == map[]
    requires p.requestLength + |data| <= MaxRequestLength
    requires FindNewline(p.eol, data) == (Some(e), at) && at != -1
    requires Frame(p.buffer, data, e) == (lines, buffer)
    requires |lines| > 1 && Decode(lines[0]) == Some(text) && ParseRequestLine(text) == Success(rl)
    requires StoreHeaders(None, map[], lines[1..]) == Success(batch)
    requires batch.pending.None? && batch.body.Some?
    requires q == p.(requestLength := p.requestLength + |data|, eol := Some(e), buffer := buffer,
                     requestLine := Some(rl), needsRequestLine := false, needsHeaders := false,
                     headers := batch.headers, body := batch.body)
    ensures Consume(p, data) == Success(Step(q, [LineEvent(rl), SetHeaders(batch.headers)], batch.body))
  {
    var p1 := p.(requestLength := p.requestLength + |data|, eol := Some(e), buffer := buffer);
    assert Consume(p, data) == ProcessLines(p1, lines) by {
      ConsumeLines(p, data, e, at, lines, buffer);
    }
    assert q == p1.(requestLine := Some(rl), needsRequestLine := false, needsHeaders := false,
                    headers := batch.headers, body := batch.body);
    HeadProcessed(p1, lines, text, rl, batch);
  }

  /** The same, for the first chunk a fresh parser is given. */
  lemma ConsumeHead(data: Bytes, e: Eol, at: int, lines: seq<Bytes>, buffer: seq<Bytes>, text: string, rl: RequestLine, batch: HeaderBatch)
    requires |data| <= MaxRequestLength
    requires FindNewline(None, data) == (Some(e), at) && at != -1
    requires Frame([], data, e) == (lines, buffer)
    requires |lines| > 1 && Decode(lines[0]) == Some(text) && ParseRequestLine(text) == Success(rl)
    requires StoreHeaders(None, map[], lines[1..]) == Success(batch)
    requires batch.pending.None? && batch.body.Some?
    ensures Consume(Initial, data)
         == Success(Step(State(Some(e), buffer, |data|, false, false, Some(rl), None, batch.headers, batch.body),
                         [LineEvent(rl), SetHeaders(batch.headers)], batch.body))
  {
    var q := State(Some(e), buffer, |data|, false, false, Some(rl), None, batch.headers, batch.body);
    assert q == Initial.(requestLength := Initial.requestLength + |data|, eol := Some(e), buffer := buffer,
                         requestLine := Some(rl), needsRequestLine := false, needsHeaders := false,
                         headers := batch.headers, body := batch.body);
    ConsumeHeadFrom(Initial, data, e, at, lines, buffer, text, rl, batch, q);
  }

  /** As above, but with header lines that cannot be stored: what storing raised is raised. */
  lemma ConsumeHeadFails(data: Bytes, e: Eol, at: int, lines: seq<Bytes>, buffer: seq<Bytes>, text: string, rl: RequestLine)
    requires |data| <= MaxRequestLength
    requires FindNewline(None, data) == (Some(e), at) && at != -1
    requires Frame([], data, e) == (lines, buffer)
    requires |lines| > 1 && Decode(lines[0]) == Some(text) && ParseRequestLine(text) == Success(rl)
    requires StoreHeaders(None, map[], lines[1..]).Failure?
    ensures Consume(Initial, data) == Failure(StoreHeaders(None, map[], lines[1..]).error)
  {
    var p1 := State(Some(e), buffer, |data|, true, true, None, None, map[], None);
    assert Consume(Initial, data) == ProcessLines(p1, lines) by {
      ConsumeLines(Initial, data, e, at, lines, buffer);
      assert Initial.(requestLength := Initial.requestLength + |data|, eol := Some(e), buffer := buffer) == p1;
    }
    HeadFailed(p1, lines, text, rl);
  }
}
