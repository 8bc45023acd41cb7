/**
 * Requests that arrive over several `consume` calls: bytes are buffered
 * until a `\n` shows up, the terminator is locked by the first chunk that
 * holds one, and where the chunks are cut can change the outcome.
 */
module ChunkedRequests {
  import opened Wrappers
  import opened ByteSeq
  import opened Utf8
  import opened PyStr
  import opened Errors
  import opened RequestLines
  import opened Headers
  import opened Parser
  import opened ParserRun
  import opened WrittenRequests

  /** While no terminator is locked, a chunk with no `\n` is appended to the line buffer; nothing is called or returned. */
  lemma ConsumeBuffers(p: State, data: Bytes)
    requires p.eol.None? && LF !in data && p.requestLength + |data| <= MaxRequestLength
    ensures Consume(p, data)
         == Success(Step(p.(requestLength := p.requestLength + |data|, buffer := p.buffer + [data]), [], None))
  {
    NoLfNoToken(data, Lf);
    assert Lf.Token() == [LF];
    ConsumeChecks(p, data);
    assert p.(requestLength := p.requestLength + |data|, eol := None, buffer := p.buffer + [data])
        == p.(requestLength := p.requestLength + |data|, buffer := p.buffer + [data]);
  }

  /**
   * A chunk that starts with the first `\n` locks `\n`, whatever came
   * before it in earlier chunks: the byte looked at is Python's `data[-1]`,
   * the chunk's last byte.
   */
  lemma LeadingNewlineLocksLf(data: Bytes)
    requires |data| > 0 && data[0] == LF && data[|data| - 1] != CR
    ensures FindNewline(None, data) == (Some(Lf), 0)
  {
    assert data[0..1] == [LF];
    assert OccursAt(data, [LF], 0);
  }

  /** Splitting bytes that were joined with `\n` from pieces without one. */
  lemma FrameJoined(buffer: seq<Bytes>, data: Bytes, parts: seq<Bytes>)
    requires |parts| >= 1 && parts[|parts| - 1] == []
    requires forall k :: 0 <= k < |parts| ==> LF !in parts[k]
    requires Concat(buffer) + data == JoinWith(parts, [LF])
    requires EndsWith(data, [LF])
    ensures Frame(buffer, data, Lf) == (parts[..|parts| - 1], [])
  {
    forall k | 0 <= k < |parts| ensures !Contains(parts[k], [LF]) {
      NoLfNoToken(parts[k], Lf);
    }
    SplitInvertsJoin(parts, [LF]);
    FrameIs(buffer, data, Lf, parts);
  }

  /** With the line buffer holding `x` and no `\n` anywhere yet, a lone `\n` locks `\n` and completes `x` as a line. */
  lemma NewlineCompletesBuffer(p: State, x: Bytes)
    requires p.eol.None? && p.needsRequestLine && Concat(p.buffer) == x && LF !in x
    requires p.requestLength + 1 <= MaxRequestLength
    ensures Consume(p, [LF]) == ProcessLines(p.(requestLength := p.requestLength + 1, eol := Some(Lf), buffer := []), [x])
  {
    LeadingNewlineLocksLf([LF]);
    assert JoinWith([x, []], [LF]) == x + [LF] + [] by {
      assert [x, []][1..] == [[]];
    }
    FrameJoined(p.buffer, [LF], [x, []]);
    assert [x, []][..1] == [x];
    ConsumeLines(p, [LF], Lf, 0, [x], []);
  }

  /** A request line that is the only complete line is stored and announced; nothing is returned. */
  lemma RequestLineAlone(p: State, x: Bytes, text: string, rl: RequestLine)
    requires p.needsRequestLine && Decode(x) == Some(text) && ParseRequestLine(text) == Success(rl)
    ensures ProcessLines(p, [x]) == Success(Step(p.(requestLine := Some(rl), needsRequestLine := false), [LineEvent(rl)], None))
  {
    RequestLineStep(p, [x], text, rl);
    assert [x][1..] == [];
  }

  lemma ConcatPair(a: Bytes, b: Bytes)
    ensures Concat([a, b]) == a + b
  {
    assert [a, b][1..] == [b];
    assert [b][1..] == [];
    assert Concat([b]) == b + [];
  }

  /** A last call that succeeds. */
  lemma RunOne(p: State, c: Bytes, last: Step)
    requires Consume(p, c) == Success(last)
    ensures Run(p, [c]) == Success(Trace(last.state, last.events, [last.ret]))
  {
    assert [c][1..] == [];
    assert Run(last.state, []) == Success(Trace(last.state, [], []));
    assert last.events + [] == last.events && [last.ret] + [] == [last.ret];
  }

  /** A call that only buffers, followed by a run that succeeds. */
  lemma RunAfterBuffering(p: State, c: Bytes, s: State, rest: seq<Bytes>, t: Trace, chunks: seq<Bytes>, whole: Trace)
    requires Consume(p, c) == Success(Step(s, [], None))
    requires Run(s, rest) == Success(t)
    requires |chunks| > 0 && chunks[0] == c && chunks[1..] == rest
    requires whole == Trace(t.state, t.events, [None] + t.results)
    ensures Run(p, chunks) == Success(whole)
  {
    assert [] + t.events == t.events;
  }

  /** The state after buffering `a` and then `b` from a fresh parser. */
  function Buffered(a: Bytes, b: Bytes): State {
    State(None, [a, b], |a| + |b|, true, true, None, None, map[], None)
  }

  /** The state after the request line `rl`, `n` bytes in all, was completed with `\n` locked. */
  function LineDone(n: nat, rl: RequestLine): State {
    State(Some(Lf), [], n, false, true, Some(rl), None, map[], None)
  }

  /** The lone `\n` after two buffered chunks completes the line, which parses. */
  lemma NewlineAfterPieces(a: Bytes, b: Bytes, text: string, rl: RequestLine)
    requires LF !in a && LF !in b && |a| + |b| < MaxRequestLength
    requires Decode(a + b) == Some(text) && ParseRequestLine(text) == Success(rl)
    ensures Run(Buffered(a, b), [[LF]]) == Success(Trace(LineDone(|a| + |b| + 1, rl), [LineEvent(rl)], [None]))
  {
    var p := Buffered(a, b);
    var s3 := State(Some(Lf), [], |a| + |b| + 1, true, true, None, None, map[], None);
    var q := LineDone(|a| + |b| + 1, rl);
    assert Consume(p, [LF]) == Success(Step(q, [LineEvent(rl)], None)) by {
      ConcatPair(a, b);
      NewlineCompletesBuffer(p, a + b);
      assert p.(requestLength := p.requestLength + 1, eol := Some(Lf), buffer := []) == s3;
      RequestLineAlone(s3, a + b, text, rl);
      assert s3.(requestLine := Some(rl), needsRequestLine := false) == q;
    }
    RunOne(p, [LF], Step(q, [LineEvent(rl)], None));
  }

  lemma AbsentFromParts(a: Bytes, b: Bytes, c: byte)
    requires c !in a + b
    ensures c !in a && c !in b
  {
    assert forall k :: 0 <= k < |a| ==> a[k] == (a + b)[k];
    assert forall k :: 0 <= k < |b| ==> b[k] == (a + b)[|a| + k];
  }

  /** The chunks after the first, in the runs below. */
  lemma Tails(a: Bytes, b: Bytes)
    ensures [a, b, [LF]][1..] == [b, [LF]]
    ensures [b, [LF]][1..] == [[LF]]
  {
  }

  /** One more call that returned nothing. */
  lemma NoneFirst(rs: seq<Option<Bytes>>)
    ensures rs == [None] ==> [None] + rs == [None, None]
    ensures rs == [None, None] ==> [None] + rs == [None, None, None]
  {
  }

  /** The state after buffering `a` alone from a fresh parser. */
  function BufferedOne(a: Bytes): State {
    State(None, [a], |a|, true, true, None, None, map[], None)
  }

  lemma BufferFirst(a: Bytes)
    requires LF !in a && |a| <= MaxRequestLength
    ensures Consume(Initial, a) == Success(Step(BufferedOne(a), [], None))
  {
    ConsumeBuffers(Initial, a);
    assert Initial.(requestLength := Initial.requestLength + |a|, buffer := Initial.buffer + [a]) == BufferedOne(a);
  }

  lemma BufferSecond(a: Bytes, b: Bytes)
    requires LF !in b && |a| + |b| <= MaxRequestLength
    ensures Consume(BufferedOne(a), b) == Success(Step(Buffered(a, b), [], None))
  {
    assert [a] + [b] == [a, b];
    ConsumeBuffers(BufferedOne(a), b);
  }

  /** The second piece is buffered too, and then the lone `\n` completes the line. */
  lemma SecondPiece(a: Bytes, b: Bytes, text: string, rl: RequestLine)
    requires LF !in a && LF !in b && |a| + |b| < MaxRequestLength
    requires Decode(a + b) == Some(text) && ParseRequestLine(text) == Success(rl)
    ensures Run(BufferedOne(a), [b, [LF]]) == Success(Trace(LineDone(|a| + |b| + 1, rl), [LineEvent(rl)], [None, None]))
  {
    var t2 := Trace(LineDone(|a| + |b| + 1, rl), [LineEvent(rl)], [None]);
    NewlineAfterPieces(a, b, text, rl);
    BufferSecond(a, b);
    NoneFirst(t2.results);
    Tails(a, b);
    RunAfterBuffering(BufferedOne(a), b, Buffered(a, b), [[LF]], t2, [b, [LF]],
                      Trace(LineDone(|a| + |b| + 1, rl), [LineEvent(rl)], [None, None]));
  }

  /**
   * A request line cut anywhere into two chunks and then a lone `\n`: the
   * first two calls only buffer, the first of them leaving its chunk alone
   * in the buffer; the third locks `\n`, completes the line and announces
   * it, and the headers are still needed. No call returns anything.
   */
  lemma RequestLineInPieces(m: Method, target: string, version: string, a: Bytes, b: Bytes)
    requires IsWord(target) && IsSupportedVersion(version)
    requires a + b == Encode(RequestLineText(m, target, version))
    requires |a| + |b| < MaxRequestLength
    ensures Consume(Initial, a) == Success(Step(State(None, [a], |a|, true, true, None, None, map[], None), [], None))
    ensures Run(Initial, [a, b, [LF]])
         == Success(Trace(State(Some(Lf), [], |a| + |b| + 1, false, true,
                                Some(RequestLine(m, ParsedUrl(target), version, VersionParts(version))), None, map[], None),
                          [SetRequestLine(m, ParsedUrl(target), version)], [None, None, None]))
  {
    var text := RequestLineText(m, target, version);
    var rl := RequestLine(m, ParsedUrl(target), version, VersionParts(version));
    assert LF !in a && LF !in b by {
      RequestLineNoBreak(m, target, version);
      EncodedLineClean(text, Lf);
      AbsentFromParts(a, b, LF);
    }
    DecodeEncode(text);
    ParseWrittenRequestLine(m, target, version);
    var t1 := Trace(LineDone(|a| + |b| + 1, rl), [LineEvent(rl)], [None, None]);
    var want := Trace(State(Some(Lf), [], |a| + |b| + 1, false, true, Some(rl), None, map[], None),
                      [SetRequestLine(m, ParsedUrl(target), version)], [None, None, None]);
    SecondPiece(a, b, text, rl);
    BufferFirst(a);
    NoneFirst(t1.results);
    Tails(a, b);
    assert want == Trace(t1.state, t1.events, [None] + t1.results);
    RunAfterBuffering(Initial, a, BufferedOne(a), [b, [LF]], t1, [a, b, [LF]], want);
  }

  /** A lone `\r`: whitespace to `split()` and `strip()`, one byte encoded, no colon. */
  lemma CarriageReturnText()
    ensures AllSpace("\r") && Encode("\r") == [CR] && Decode([CR]) == Some("\r")
    ensures !StartsWithBlank("\r") && ':' !in "\r"
  {
    assert EncodeChar('\r') == [CR];
    assert Encode("\r") == EncodeChar('\r') + Encode([]);
    DecodeEncode("\r");
  }

  /** A request line that kept the `\r` of its terminator still decodes and parses as written. */
  lemma RequestLineWithCr(m: Method, target: string, version: string)
    requires IsWord(target) && IsSupportedVersion(version)
    ensures Decode(Encode(RequestLineText(m, target, version)) + [CR]) == Some(RequestLineText(m, target, version) + "\r")
    ensures ParseRequestLine(RequestLineText(m, target, version) + "\r")
         == Success(RequestLine(m, ParsedUrl(target), version, VersionParts(version)))
  {
    var text := RequestLineText(m, target, version);
    CarriageReturnText();
    EncodeAppend(text, "\r");
    DecodeEncode(text + "\r");
    ParsePaddedRequestLine(m, target, version, "\r");
  }

  /** A header line that kept the `\r` of its terminator is still read as the header written. */
  lemma HeaderLineWithCr(h: WrittenHeader)
    requires WellWritten(h)
    ensures Decode(Encode(HeaderText(h)) + [CR]) == Some(HeaderText(h) + "\r")
    ensures !StartsWithBlank(HeaderText(h) + "\r")
    ensures HeaderFromLine(HeaderText(h) + "\r") == Success(PendingHeader(Upper(h.name), Single(h.text)))
  {
    var line := HeaderText(h) + "\r";
    CarriageReturnText();
    assert Decode(Encode(HeaderText(h)) + [CR]) == Some(line) by {
      EncodeAppend(HeaderText(h), "\r");
      DecodeEncode(line);
    }
    assert !StartsWithBlank(line) by {
      WellWrittenNoLineBreak(h);
      assert line[0] == HeaderText(h)[0];
    }
    HeaderFromPaddedLine(h.name, h.text, "\r", line);
  }

  /**
   * The header lines as `\n` frames them: the header with its `\r`, then the
   * `\r` of the blank line alone, which is no continuation and has no colon.
   */
  lemma HeadersWithCrFail(h: WrittenHeader)
    requires WellWritten(h)
    ensures StoreHeaders(None, map[], [Encode(HeaderText(h)) + [CR], [CR]]) == Failure(Http(InvalidHeader))
  {
    var lines := [Encode(HeaderText(h)) + [CR], [CR]];
    HeaderLineWithCr(h);
    CarriageReturnText();
    assert lines[1..] == [[CR]];
    assert [[CR]][1..] == [];
  }

  lemma JoinedWithCr(p0: Bytes, p1: Bytes, b: Bytes)
    requires b == [LF] + p1 + [CR, LF, CR, LF]
    ensures JoinWith([p0 + [CR], p1 + [CR], [CR], []], [LF]) == (p0 + [CR]) + b
  {
    var parts := [p0 + [CR], p1 + [CR], [CR], []];
    assert parts[1..] == [p1 + [CR], [CR], []];
    assert parts[1..][1..] == [[CR], []];
    assert parts[1..][1..][1..] == [[]];
    var j2 := JoinWith([[CR], []], [LF]);
    assert [[CR], []][1..] == [[]];
    assert j2 == [CR] + [LF] + JoinWith([[]], [LF]);
    assert j2 == [CR, LF];
    var j1 := JoinWith([p1 + [CR], [CR], []], [LF]);
    assert j1 == p1 + [CR] + [LF] + j2;
    assert j1 == p1 + [CR, LF, CR, LF];
    assert JoinWith(parts, [LF]) == p0 + [CR] + [LF] + j1;
  }

  /**
   * A second chunk that starts with the `\n` of a `\r\n` cut in two locks
   * `\n`, and framing leaves every `\r` at the end of its line: the request
   * line, the header line, and the blank line reduced to its `\r`.
   */
  lemma CrCutFrame(x: Bytes, y: Bytes, b: Bytes)
    requires LF !in x && LF !in y
    requires b == [LF] + y + [CR, LF, CR, LF]
    ensures FindNewline(None, b) == (Some(Lf), 0)
    ensures Frame([x + [CR]], b, Lf) == ([x + [CR], y + [CR], [CR]], [])
  {
    LeadingNewlineLocksLf(b);
    var parts := [x + [CR], y + [CR], [CR], []];
    assert Concat([x + [CR]]) + b == JoinWith(parts, [LF]) by {
      assert Concat([x + [CR]]) == x + [CR] + [];
      JoinedWithCr(x, y, b);
    }
    assert EndsWith(b, [LF]) by {
      assert b[|b| - 1..] == [LF];
    }
    FrameJoined([x + [CR]], b, parts);
    assert parts[..3] == [x + [CR], y + [CR], [CR]];
  }

  lemma ThreeTail(l0: Bytes, l1: Bytes, l2: Bytes)
    ensures [l0, l1, l2][0] == l0 && [l0, l1, l2][1..] == [l1, l2]
  {
  }

  /**
   * The second chunk, `\n` and the rest of the head, after the first chunk
   * ended in the `\r` of the request line's terminator: the request line
   * still parses, the header line is read, and then the lone `\r` of the
   * blank line is taken for a header line without a colon.
   */
  lemma CrCutSecondCall(m: Method, target: string, version: string, h: WrittenHeader, a: Bytes, b: Bytes)
    requires IsWord(target) && IsSupportedVersion(version) && WellWritten(h)
    requires a == Encode(RequestLineText(m, target, version)) + [CR]
    requires b == [LF] + Encode(HeaderText(h)) + [CR, LF, CR, LF]
    requires |a| + |b| <= MaxRequestLength
    ensures Consume(BufferedOne(a), b) == Failure(Http(InvalidHeader))
  {
    var text := RequestLineText(m, target, version);
    var x, y := Encode(text), Encode(HeaderText(h));
    var rl := RequestLine(m, ParsedUrl(target), version, VersionParts(version));
    assert LF !in x && LF !in y by {
      RequestLineNoBreak(m, target, version);
      EncodedLineClean(text, Lf);
      WellWrittenNoLineBreak(h);
      EncodedLineClean(HeaderText(h), Lf);
    }
    var lines := [x + [CR], y + [CR], [CR]];
    var p := BufferedOne(a);
    CrCutFrame(x, y, b);
    ConsumeLines(p, b, Lf, 0, lines, []);
    RequestLineWithCr(m, target, version);
    HeadersWithCrFail(h);
    ThreeTail(x + [CR], y + [CR], [CR]);
    HeadFailed(p.(requestLength := p.requestLength + |b|, eol := Some(Lf), buffer := []), lines, text + "\r", rl);
  }

  lemma TerminatedThree(l0: Bytes, l1: Bytes, l2: Bytes, tok: Bytes)
    ensures Terminated([l0, l1, l2], tok) == l0 + tok + l1 + tok + l2 + tok
  {
    assert [l0, l1, l2][1..] == [l1, l2];
    assert [l1, l2][1..] == [l2];
    assert [l2][1..] == [];
    assert Terminated([l2], tok) == l2 + tok + [];
    assert Terminated([l1, l2], tok) == l1 + tok + (l2 + tok);
    assert Terminated([l0, l1, l2], tok) == l0 + tok + (l1 + tok + (l2 + tok));
  }

  lemma OneHeaderLines(m: Method, target: string, version: string, h: WrittenHeader)
    requires h.folds == []
    ensures [RequestLineText(m, target, version)] + HeaderTexts([h]) + [""] == [RequestLineText(m, target, version), HeaderText(h), ""]
  {
    assert Continuations(h.folds) == [];
    assert HeaderTexts([h]) == [HeaderText(h)];
  }

  /** The two chunks of the cut make up the request head written with `\r\n`. */
  lemma CrCutWhole(m: Method, target: string, version: string, h: WrittenHeader, a: Bytes, b: Bytes)
    requires h.folds == []
    requires a == Encode(RequestLineText(m, target, version)) + [CR]
    requires b == [LF] + Encode(HeaderText(h)) + [CR, LF, CR, LF]
    ensures a + b == Encode(RequestText(m, target, version, [h], CrLf))
  {
    var lines := [RequestLineText(m, target, version), HeaderText(h), ""];
    var x, y := Encode(lines[0]), Encode(lines[1]);
    OneHeaderLines(m, target, version, h);
    EncodeTerminated(lines, CrLf);
    assert EncodeAll(lines) == [x, y, []];
    TerminatedThree(x, y, [], [CR, LF]);
    assert x + [CR, LF] + y + [CR, LF] + [] + [CR, LF] == a + b;
  }

  lemma NoTail(s: string)
    ensures s + "" == s
  {
  }

  lemma OneHeaderMap(h: WrittenHeader)
    ensures HeadersOf(map[], [h]) == map[Upper(h.name) := ValueOf(h)]
  {
    assert [h][1..] == [];
  }

  /** The head with one header, folded or not, in one chunk: both callbacks, the header stored, an empty body buffer returned. */
  lemma OneHeaderWhole(m: Method, target: string, version: string, h: WrittenHeader, data: Bytes)
    requires IsWord(target) && IsSupportedVersion(version) && WellWritten(h)
    requires data == Encode(RequestText(m, target, version, [h], CrLf)) && |data| <= MaxRequestLength
    ensures var hm := map[Upper(h.name) := ValueOf(h)];
      var rl := RequestLine(m, ParsedUrl(target), version, VersionParts(version));
      Consume(Initial, data)
      == Success(Step(State(Some(CrLf), [], |data|, false, false, Some(rl), None, hm, Some([])),
                      [SetRequestLine(m, ParsedUrl(target), version), SetHeaders(hm)], Some([])))
  {
    NoTail(RequestText(m, target, version, [h], CrLf));
    OneHeaderMap(h);
    assert NoLineBreak("");
    ConsumeWrittenRequest(m, target, version, [h], CrLf, "");
  }

  /** A call that succeeds followed by one that fails: the run fails with the second call's fault. */
  lemma RunFailsSecond(p: State, c: Bytes, d: Bytes, first: Step, f: Fault)
    requires Consume(p, c) == Success(first) && Consume(first.state, d) == Failure(f)
    ensures Run(p, [c, d]) == Failure(f)
  {
    assert [c, d][0] == c && [c, d][1..] == [d];
    assert [d][0] == d;
  }

  /**
   * Where a request is cut into chunks changes the outcome. A request head
   * written with `\r\n` and one header line is parsed whole in one chunk;
   * cut right after the request line's `\r`, the first chunk holds no `\n`
   * and is buffered, and the second starts with the `\n`. The byte before
   * index 0 is read as Python's `data[-1]`, the chunk's last byte, a `\n`,
   * so `\n` is locked; every line keeps its `\r`, and the blank line that
   * should end the headers is left as a lone `\r`, a header line with no
   * colon: the header is invalid.
   */
  lemma CutAtCarriageReturn(m: Method, target: string, version: string, h: WrittenHeader, a: Bytes, b: Bytes)
    requires IsWord(target) && IsSupportedVersion(version) && WellWritten(h) && h.folds == []
    requires a == Encode(RequestLineText(m, target, version)) + [CR]
    requires b == [LF] + Encode(HeaderText(h)) + [CR, LF, CR, LF]
    requires |a| + |b| <= MaxRequestLength
    ensures a + b == Encode(RequestText(m, target, version, [h], CrLf))
    ensures Consume(Initial, a + b).Success?
    ensures Consume(Initial, a + b).value.state.headers == map[Upper(h.name) := Single(h.text)]
    ensures Run(Initial, [a, b]) == Failure(Http(InvalidHeader))
  {
    CrCutWhole(m, target, version, h, a, b);
    OneHeaderWhole(m, target, version, h, a + b);
    assert LF !in a by {
      RequestLineNoBreak(m, target, version);
      EncodedLineClean(RequestLineText(m, target, version), Lf);
    }
    BufferFirst(a);
    CrCutSecondCall(m, target, version, h, a, b);
    RunFailsSecond(Initial, a, b, Step(BufferedOne(a), [], None), Http(InvalidHeader));
  }
}
