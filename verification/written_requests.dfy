/**
 * The other direction of the parser: how a client writes a request as
 * text, and what the parser makes of it. These lemmas pair `consume` with
 * that writer: a request written in one piece is read back into its
 * request line and header map.
 */
module WrittenRequests {
  import opened Wrappers
  import opened ByteSeq
  import opened Utf8
  import opened PyStr
  import opened Errors
  import opened RequestLines
  import opened Headers
  import opened Parser

  /**
   * A header as a client writes it: the line `name: text`, then, for each
   * text in `folds`, a continuation line holding a space and that text.
   */
  datatype WrittenHeader = WrittenHeader(name: string, text: string, folds: seq<string>)

  predicate NoLineBreak(s: string) {
    '\n' !in s && '\r' !in s
  }

  /** A header whose line the parser accepts as written. */
  predicate WellWritten(h: WrittenHeader) {
    && !IsInvalidHeaderName(h.name) && IsTrimmed(h.name) && IsTrimmed(h.text) && NoLineBreak(h.text)
    && forall k :: 0 <= k < |h.folds| ==> IsTrimmed(h.folds[k]) && NoLineBreak(h.folds[k])
  }

  /** The first line of a header. */
  function HeaderText(h: WrittenHeader): string {
    h.name + ": " + h.text
  }

  /** Continuation lines folding the texts `fs`, in order, into the header before them. */
  function Continuations(fs: seq<string>): seq<string> {
    seq(|fs|, k requires 0 <= k < |fs| => " " + fs[k])
  }

  /** The lines one header is written on. */
  function HeaderLines(h: WrittenHeader): seq<string> {
    [HeaderText(h)] + Continuations(h.folds)
  }

  /** The lines the headers `hs` are written on, one header after another. */
  function HeaderTexts(hs: seq<WrittenHeader>): seq<string> {
    if |hs| == 0 then [] else HeaderLines(hs[0]) + HeaderTexts(hs[1..])
  }

  /**
   * The value a header is meant to be read back as: its text alone, or,
   * once it has continuation lines, its text followed by each folded text.
   */
  function ValueOf(h: WrittenHeader): HeaderValue {
    if h.folds == [] then Single(h.text) else Folded([h.text] + h.folds)
  }

  function EolText(e: Eol): string {
    if e.Lf? then "\n" else "\r\n"
  }

  /** Every line followed by the terminator. */
  function TerminatedText(lines: seq<string>, eol: string): string {
    if |lines| == 0 then [] else lines[0] + eol + TerminatedText(lines[1..], eol)
  }

  function EncodeAll(lines: seq<string>): (r: seq<Bytes>)
    ensures |r| == |lines|
    ensures forall k :: 0 <= k < |lines| ==> r[k] == Encode(lines[k])
  {
    if |lines| == 0 then [] else [Encode(lines[0])] + EncodeAll(lines[1..])
  }

  /** The header map that storing `hs` in order into `acc` gives, later names overwriting earlier ones. */
  function HeadersOf(acc: HeaderMap, hs: seq<WrittenHeader>): HeaderMap
    decreases |hs|
  {
    if |hs| == 0 then acc
    else HeadersOf(acc[Upper(hs[0].name) := ValueOf(hs[0])], hs[1..])
  }

  function RequestLineText(m: Method, target: string, version: string): string {
    MethodName(m) + " " + target + " " + version
  }

  /** A whole request head: the request line, the header lines, the blank line. */
  function RequestText(m: Method, target: string, version: string, hs: seq<WrittenHeader>, e: Eol): string {
    TerminatedText([RequestLineText(m, target, version)] + HeaderTexts(hs) + [""], EolText(e))
  }

  lemma {:induction false} EncodeAppend(a: string, b: string)
    ensures Encode(a + b) == Encode(a) + Encode(b)
  {
    if |a| > 0 {
      assert (a + b)[0] == a[0];
      assert (a + b)[1..] == a[1..] + b;
      EncodeAppend(a[1..], b);
    } else {
      assert a + b == b;
    }
  }

  lemma EncodeEol(e: Eol)
    ensures Encode(EolText(e)) == e.Token()
  {
    if e.Lf? {
      assert EolText(e)[1..] == [];
    } else {
      assert EolText(e)[1..] == ['\n'];
      assert Encode(['\n']) == [LF];
      assert EncodeChar('\r') == [CR];
    }
  }

  lemma {:induction false} EncodeTerminated(lines: seq<string>, e: Eol)
    ensures Encode(TerminatedText(lines, EolText(e))) == Terminated(EncodeAll(lines), e.Token())
  {
    if |lines| > 0 {
      var t := TerminatedText(lines[1..], EolText(e));
      EncodeAppend(lines[0] + EolText(e), t);
      EncodeAppend(lines[0], EolText(e));
      EncodeEol(e);
      EncodeTerminated(lines[1..], e);
      assert EncodeAll(lines)[1..] == EncodeAll(lines[1..]);
    }
  }

  /** An ASCII byte appears in an encoding only where its character appears in the text. */
  lemma {:induction false} EncodeAvoidsAscii(s: string, b: byte)
    requires b < 0x80
    requires (b as int) as char !in s
    ensures b !in Encode(s)
  {
    if |s| > 0 {
      EncodeAvoidsAscii(s[1..], b);
      assert s[0] != (b as int) as char;
      var e := EncodeChar(s[0]);
      assert b !in e;
    }
  }

  /** Bytes with no `\n` contain neither terminator. */
  lemma NoLfNoToken(x: Bytes, e: Eol)
    requires LF !in x
    ensures !Contains(x, e.Token())
  {
    forall i | 0 <= i <= |x| ensures !OccursAt(x, e.Token(), i) {
      if i + |e.Token()| <= |x| {
        assert x[i + |e.Token()| - 1] != LF;
        assert x[i..i + |e.Token()|][|e.Token()| - 1] != LF;
      }
    }
  }

  /** The encoding of a line with no line break contains no terminator and no `\r`. */
  lemma EncodedLineClean(s: string, e: Eol)
    requires NoLineBreak(s)
    ensures !Contains(Encode(s), e.Token())
    ensures LF !in Encode(s) && CR !in Encode(s)
  {
    EncodeAvoidsAscii(s, LF);
    EncodeAvoidsAscii(s, CR);
    NoLfNoToken(Encode(s), e);
  }

  lemma WellWrittenNoLineBreak(h: WrittenHeader)
    requires WellWritten(h)
    ensures NoLineBreak(HeaderText(h))
    ensures !StartsWithBlank(HeaderText(h))
  {
    forall i | 0 <= i < |h.name| ensures h.name[i] != '\n' && h.name[i] != '\r' && h.name[i] != ' ' && h.name[i] != '\t' {
      assert !IsInvalidChar(h.name[i]);
    }
    assert HeaderText(h)[0] == h.name[0];
  }

  lemma WordNoLineBreak(w: string)
    requires IsWord(w)
    ensures NoLineBreak(w)
  {
    forall i | 0 <= i < |w| ensures w[i] != '\n' && w[i] != '\r' {
      assert !IsSpace(w[i]);
    }
  }

  lemma {:induction false} EncodeNonEmpty(s: string)
    requires |s| > 0
    ensures |Encode(s)| > 0
  {
  }

  function FlushPending(headers: HeaderMap, pending: Option<PendingHeader>): HeaderMap {
    if pending.Some? then Flush(headers, pending.value) else headers
  }

  /** One well-written header line flushes what was pending and becomes the pending header. */
  lemma StoreWrittenLine(pending: Option<PendingHeader>, headers: HeaderMap, h: WrittenHeader, lines: seq<Bytes>)
    requires WellWritten(h)
    requires |lines| > 0 && lines[0] == Encode(HeaderText(h))
    ensures StoreHeaders(pending, headers, lines)
         == StoreHeaders(Some(PendingHeader(Upper(h.name), Single(h.text))), FlushPending(headers, pending), lines[1..])
  {
    var text := HeaderText(h);
    EncodeNonEmpty(text);
    DecodeEncode(text);
    WellWrittenNoLineBreak(h);
    HeaderFromWrittenLine(h.name, h.text);
  }

  /** A blank line ends the headers, flushing the pending one; with none pending it is the `Crash` outcome. */
  lemma StoreBlank(pending: Option<PendingHeader>, headers: HeaderMap, rest: seq<Bytes>)
    ensures pending.None? ==> StoreHeaders(pending, headers, [[]] + rest) == Failure(Crash)
    ensures pending.Some? ==>
      StoreHeaders(pending, headers, [[]] + rest) == Success(HeaderBatch(None, Flush(headers, pending.value), Some(Concat(rest))))
  {
    var lines: seq<Bytes> := [[]] + rest;
    assert lines[0] == [] && lines[1..] == rest;
    assert Concat(lines) == Concat(rest);
    if pending.Some? {
      assert StoreHeaders(pending, headers, lines) == Success(HeaderBatch(None, Flush(headers, pending.value), Some(Concat(lines))));
    }
  }

  /** The lines of the first header, its continuation lines, then the lines of the other headers. */
  lemma WrittenLinesTail(hs: seq<WrittenHeader>, rest: seq<Bytes>)
    requires |hs| > 0
    ensures var lines := EncodeAll(HeaderTexts(hs)) + [[]] + rest;
      && lines[0] == Encode(HeaderText(hs[0]))
      && lines[1..] == EncodeAll(Continuations(hs[0].folds)) + (EncodeAll(HeaderTexts(hs[1..])) + [[]] + rest)
  {
    var first, conts, later := HeaderText(hs[0]), Continuations(hs[0].folds), HeaderTexts(hs[1..]);
    assert HeaderTexts(hs) == [first] + (conts + later);
    EncodeAllCons(first, conts + later);
    EncodeAllAppend(conts, later);
    ConsSplit(Encode(first), EncodeAll(conts) + EncodeAll(later), [], rest);
    Regroup4(EncodeAll(conts), EncodeAll(later), [[]], rest);
  }

  lemma EncodeAllCons(first: string, more: seq<string>)
    ensures EncodeAll([first] + more) == [Encode(first)] + EncodeAll(more)
  {
    assert ([first] + more)[1..] == more;
  }

  lemma ContinuationsCons(fs: seq<string>)
    requires |fs| > 0
    ensures Continuations(fs) == [" " + fs[0]] + Continuations(fs[1..])
  {
  }

  lemma Regroup4<T>(a: seq<T>, b: seq<T>, c: seq<T>, d: seq<T>)
    ensures a + b + c + d == a + (b + c + d)
  {
  }

  lemma ConsTail<T>(x: T, b: seq<T>, r: seq<T>)
    ensures ([x] + b + r)[0] == x && ([x] + b + r)[1..] == b + r
  {
  }

  lemma ConsSplit<T>(x: T, b: seq<T>, y: T, r: seq<T>)
    ensures ([x] + b + [y] + r)[0] == x && ([x] + b + [y] + r)[1..] == b + [y] + r
  {
  }

  /**
   * Continuation lines, however many, fold their texts in order into the
   * pending value, which stays pending; nothing is stored meanwhile.
   */
  lemma {:induction false} StoreFolds(h: PendingHeader, headers: HeaderMap, folds: seq<string>, rest: seq<Bytes>)
    requires forall k :: 0 <= k < |folds| ==> IsTrimmed(folds[k])
    ensures StoreHeaders(Some(h), headers, EncodeAll(Continuations(folds)) + rest)
         == StoreHeaders(Some(h.(value := FoldAll(h.value, folds))), headers, rest)
    decreases |folds|
  {
    if |folds| > 0 {
      var line := " " + folds[0];
      var lines := EncodeAll(Continuations(folds)) + rest;
      ContinuationsCons(folds);
      EncodeAllCons(line, Continuations(folds[1..]));
      ConsTail(Encode(line), EncodeAll(Continuations(folds[1..])), rest);
      EncodeNonEmpty(line);
      DecodeEncode(line);
      assert Strip(line) == folds[0] by {
        assert line == " " + folds[0] + "";
        StripPadded(" ", folds[0], "");
      }
      var h1 := h.(value := Fold(h.value, folds[0]));
      StoreContinuation(h, headers, lines, line);
      StoreFolds(h1, headers, folds[1..], rest);
      assert FoldAll(h.value, folds) == FoldAll(h1.value, folds[1..]);
    } else {
      assert Continuations(folds) == [];
      assert EncodeAll(Continuations(folds)) + rest == rest;
    }
  }

  /** Folding a header's continuation texts into its text gives the value it is meant to be read back as. */
  lemma WrittenValue(h: WrittenHeader)
    ensures FoldAll(Single(h.text), h.folds) == ValueOf(h)
  {
    FoldAllParts(Single(h.text), h.folds);
  }

  /**
   * Header lines written one per line and ended by a blank line are stored
   * in order, the last one with a given name winning, and what follows the
   * blank line becomes the body. With no header at all and nothing pending
   * the blank line is the `Crash` outcome.
   */
  lemma {:induction false} StoreWritten(pending: Option<PendingHeader>, headers: HeaderMap, hs: seq<WrittenHeader>, rest: seq<Bytes>)
    requires forall k :: 0 <= k < |hs| ==> WellWritten(hs[k])
    ensures pending.None? && |hs| == 0 ==>
      StoreHeaders(pending, headers, EncodeAll(HeaderTexts(hs)) + [[]] + rest) == Failure(Crash)
    ensures pending.Some? || |hs| > 0 ==>
      StoreHeaders(pending, headers, EncodeAll(HeaderTexts(hs)) + [[]] + rest)
      == Success(HeaderBatch(None, HeadersOf(FlushPending(headers, pending), hs), Some(Concat(rest))))
    decreases |hs|
  {
    var lines := EncodeAll(HeaderTexts(hs)) + [[]] + rest;
    if |hs| == 0 {
      assert lines == [[]] + rest;
      StoreBlank(pending, headers, rest);
    } else {
      var h := hs[0];
      var ph := PendingHeader(Upper(h.name), Single(h.text));
      WrittenLinesTail(hs, rest);
      StoreWrittenLine(pending, headers, h, lines);
      StoreFolds(ph, FlushPending(headers, pending), h.folds, EncodeAll(HeaderTexts(hs[1..])) + [[]] + rest);
      WrittenValue(h);
      StoreWritten(Some(PendingHeader(Upper(h.name), ValueOf(h))), FlushPending(headers, pending), hs[1..], rest);
    }
  }

  /** The last index whose header name upper-cases to `k`, or -1. */
  function LastNamed(hs: seq<WrittenHeader>, k: string): (r: int)
    ensures -1 <= r < |hs|
    ensures r >= 0 ==> Upper(hs[r].name) == k
    ensures r >= 0 ==> forall j :: r < j < |hs| ==> Upper(hs[j].name) != k
    ensures r == -1 ==> forall j :: 0 <= j < |hs| ==> Upper(hs[j].name) != k
  {
    if |hs| == 0 then -1
    else
      var r := LastNamed(hs[1..], k);
      if r >= 0 then r + 1
      else if Upper(hs[0].name) == k then 0
      else -1
  }

  /**
   * Storing headers in order: a name is present when it was present before
   * or some header carries it, and then its value is that of the last such
   * header; names no header carries keep their old value.
   */
  lemma {:induction false} HeadersOfLookup(acc: HeaderMap, hs: seq<WrittenHeader>, k: string)
    ensures k in HeadersOf(acc, hs) <==> k in acc || LastNamed(hs, k) >= 0
    ensures LastNamed(hs, k) >= 0 ==> HeadersOf(acc, hs)[k] == ValueOf(hs[LastNamed(hs, k)])
    ensures LastNamed(hs, k) == -1 && k in acc ==> HeadersOf(acc, hs)[k] == acc[k]
    decreases |hs|
  {
    if |hs| > 0 {
      HeadersOfLookup(acc[Upper(hs[0].name) := ValueOf(hs[0])], hs[1..], k);
    }
  }

  lemma TerminatedEndsWith(lines: seq<Bytes>, tok: Bytes)
    requires |lines| > 0
    ensures EndsWith(Terminated(lines, tok), tok)
  {
    if |lines| > 1 {
      TerminatedEndsWith(lines[1..], tok);
      EndsWithAfter(lines[0] + tok, Terminated(lines[1..], tok), tok);
    }
  }

  /**
   * The first `\n` of a first request line with no `\r` or `\n` in it sits
   * right after that line's terminator, so the terminator it was written
   * with is the one that gets locked.
   */
  lemma FirstLineLocks(x: Bytes, e: Eol, rest: Bytes)
    requires |x| > 0 && LF !in x && CR !in x
    ensures FindNewline(None, x + e.Token() + rest) == (Some(e), |x|)
  {
    var d := x + e.Token() + rest;
    NoLfNoToken(x, Lf);
    NoLfNoToken(x, e);
    if e.Lf? {
      FindAfterPiece(x, [LF], rest);
      assert PrevByte(d, |x|) == x[|x| - 1];
    } else {
      var xc := x + [CR];
      assert LF !in xc;
      NoLfNoToken(xc, Lf);
      assert d == xc + [LF] + rest;
      FindAfterPiece(xc, [LF], rest);
      assert PrevByte(d, |x| + 1) == CR;
      FindAfterPiece(x, [CR, LF], rest);
    }
  }

  /** Complete lines with no terminator in them, and a fragment with no `\n`, frame back into themselves. */
  lemma FrameWritten(lines: seq<Bytes>, tail: Bytes, e: Eol)
    requires |lines| > 0
    requires forall k :: 0 <= k < |lines| ==> !Contains(lines[k], e.Token())
    requires LF !in tail
    ensures Frame([], Terminated(lines, e.Token()) + tail, e) == (lines, if tail == [] then [] else [tail])
  {
    var tok := e.Token();
    var data := Terminated(lines, tok) + tail;
    var parts := lines + [tail];
    SplitWritten(lines, tail, e);
    EndsWithWritten(lines, tail, e);
    FrameIs([], data, e, parts);
    assert parts[..|parts| - 1] == lines;
  }

  lemma SplitWritten(lines: seq<Bytes>, tail: Bytes, e: Eol)
    requires forall k :: 0 <= k < |lines| ==> !Contains(lines[k], e.Token())
    requires LF !in tail
    ensures Split(Concat([]) + (Terminated(lines, e.Token()) + tail), e.Token()) == lines + [tail]
  {
    var tok := e.Token();
    var data := Terminated(lines, tok) + tail;
    assert Concat([]) + data == data;
    NoLfNoToken(tail, e);
    JoinWithSnoc(lines, tail, tok);
    SplitInvertsJoin(lines + [tail], tok);
  }

  lemma EndsWithWritten(lines: seq<Bytes>, tail: Bytes, e: Eol)
    requires |lines| > 0
    requires LF !in tail
    ensures EndsWith(Terminated(lines, e.Token()) + tail, e.Token()) <==> tail == []
  {
    var tok := e.Token();
    var data := Terminated(lines, tok) + tail;
    if tail == [] {
      assert data == Terminated(lines, tok);
      TerminatedEndsWith(lines, tok);
    } else {
      assert data[|data| - 1] == tail[|tail| - 1];
      assert tok[|tok| - 1] == LF;
    }
  }

  /** The written lines of a request head, request line first and blank line last. */
  function HeadLines(m: Method, target: string, version: string, hs: seq<WrittenHeader>): seq<string> {
    [RequestLineText(m, target, version)] + HeaderTexts(hs) + [""]
  }

  /** The lines of a request head carry no line break of their own. */
  lemma HeadLinesClean(m: Method, target: string, version: string, hs: seq<WrittenHeader>, e: Eol)
    requires IsWord(target) && IsSupportedVersion(version)
    requires forall k :: 0 <= k < |hs| ==> WellWritten(hs[k])
    ensures forall k :: 0 <= k < |HeadLines(m, target, version, hs)| ==>
      !Contains(Encode(HeadLines(m, target, version, hs)[k]), e.Token())
    ensures LF !in Encode(RequestLineText(m, target, version)) && CR !in Encode(RequestLineText(m, target, version))
  {
    var lines := HeadLines(m, target, version, hs);
    forall k | 0 <= k < |lines| ensures !Contains(Encode(lines[k]), e.Token()) {
      HeadLineNoBreak(m, target, version, hs, k);
      EncodedLineClean(lines[k], e);
    }
    RequestLineNoBreak(m, target, version);
    EncodedLineClean(RequestLineText(m, target, version), e);
  }

  lemma RequestLineNoBreak(m: Method, target: string, version: string)
    requires IsWord(target) && IsSupportedVersion(version)
    ensures NoLineBreak(RequestLineText(m, target, version))
  {
    WordNoLineBreak(target);
    assert NoLineBreak(MethodName(m));
    assert NoLineBreak(version);
  }

  lemma HeadLineNoBreak(m: Method, target: string, version: string, hs: seq<WrittenHeader>, k: int)
    requires IsWord(target) && IsSupportedVersion(version)
    requires forall k :: 0 <= k < |hs| ==> WellWritten(hs[k])
    requires 0 <= k < |HeadLines(m, target, version, hs)|
    ensures NoLineBreak(HeadLines(m, target, version, hs)[k])
  {
    var lines := HeadLines(m, target, version, hs);
    if k == 0 {
      RequestLineNoBreak(m, target, version);
    } else if k <= |HeaderTexts(hs)| {
      assert lines[k] == HeaderTexts(hs)[k - 1];
      HeaderTextsNoBreak(hs);
    } else {
      assert lines[k] == "";
    }
  }

  /** No line of well-written headers, first line or continuation, holds a line break. */
  lemma {:induction false} HeaderTextsNoBreak(hs: seq<WrittenHeader>)
    requires forall k :: 0 <= k < |hs| ==> WellWritten(hs[k])
    ensures forall k :: 0 <= k < |HeaderTexts(hs)| ==> NoLineBreak(HeaderTexts(hs)[k])
    decreases |hs|
  {
    if |hs| > 0 {
      var h := hs[0];
      var lines := HeaderLines(h);
      forall k | 0 <= k < |lines| ensures NoLineBreak(lines[k]) {
        if k == 0 {
          WellWrittenNoLineBreak(h);
        } else {
          assert lines[k] == " " + h.folds[k - 1];
        }
      }
      HeaderTextsNoBreak(hs[1..]);
      assert HeaderTexts(hs) == lines + HeaderTexts(hs[1..]);
    }
  }

  lemma HeadLinesEncode(first: string, middle: seq<string>)
    ensures EncodeAll([first] + (middle + [""])) == [Encode(first)] + (EncodeAll(middle) + [[]])
  {
    var all := [first] + (middle + [""]);
    assert all[1..] == middle + [""];
    EncodeAllAppend(middle, [""]);
    assert EncodeAll([""]) == [[]];
  }

  lemma {:induction false} EncodeAllAppend(a: seq<string>, b: seq<string>)
    ensures EncodeAll(a + b) == EncodeAll(a) + EncodeAll(b)
  {
    if |a| > 0 {
      assert (a + b)[1..] == a[1..] + b;
      EncodeAllAppend(a[1..], b);
    } else {
      assert a + b == b;
    }
  }

  /** The request line of a written head decodes and parses back; the header lines follow it. */
  lemma HeadLinesDecode(m: Method, target: string, version: string, hs: seq<WrittenHeader>)
    requires IsWord(target) && IsSupportedVersion(version)
    ensures var lines := EncodeAll(HeadLines(m, target, version, hs));
      && |lines| > 1
      && Decode(lines[0]) == Some(RequestLineText(m, target, version))
      && ParseRequestLine(RequestLineText(m, target, version))
         == Success(RequestLine(m, ParsedUrl(target), version, VersionParts(version)))
      && lines[1..] == EncodeAll(HeaderTexts(hs)) + [[]]
  {
    var text := RequestLineText(m, target, version);
    var heads := HeadLines(m, target, version, hs);
    assert heads == [text] + (HeaderTexts(hs) + [""]);
    HeadLinesEncode(text, HeaderTexts(hs));
    DecodeEncode(text);
    ParseWrittenRequestLine(m, target, version);
  }

  /** The header lines of a written head, up to its blank line, store into the written map. */
  lemma StoreWrittenHead(hs: seq<WrittenHeader>)
    requires forall k :: 0 <= k < |hs| ==> WellWritten(hs[k])
    ensures StoreHeaders(None, map[], EncodeAll(HeaderTexts(hs)) + [[]])
         == if |hs| == 0 then Failure(Crash) else Success(HeaderBatch(None, HeadersOf(map[], hs), Some([])))
  {
    StoreWritten(None, map[], hs, []);
    assert EncodeAll(HeaderTexts(hs)) + [[]] + [] == EncodeAll(HeaderTexts(hs)) + [[]];
    assert Concat([]) == [];
  }

  function BufferOf(tail: string): seq<Bytes> {
    if tail == "" then [] else [Encode(tail)]
  }

  /**
   * A request head written in one piece locks the terminator it was written
   * with and frames into its own lines, the start of the body left over.
   */
  lemma WrittenHeadFrames(m: Method, target: string, version: string, hs: seq<WrittenHeader>, e: Eol, tail: string)
    requires IsWord(target) && IsSupportedVersion(version)
    requires forall k :: 0 <= k < |hs| ==> WellWritten(hs[k])
    requires NoLineBreak(tail)
    ensures var data := Encode(RequestText(m, target, version, hs, e) + tail);
      && FindNewline(None, data) == (Some(e), |Encode(RequestLineText(m, target, version))|)
      && Frame([], data, e) == (EncodeAll(HeadLines(m, target, version, hs)), BufferOf(tail))
  {
    var tok := e.Token();
    var lines := EncodeAll(HeadLines(m, target, version, hs));
    var data := Encode(RequestText(m, target, version, hs, e) + tail);
    var x := Encode(RequestLineText(m, target, version));
    var rest := Terminated(lines[1..], tok) + Encode(tail);
    assert data == Terminated(lines, tok) + Encode(tail) by {
      EncodeAppend(RequestText(m, target, version, hs, e), tail);
      EncodeTerminated(HeadLines(m, target, version, hs), e);
    }
    HeadLinesClean(m, target, version, hs, e);
    EncodedLineClean(tail, e);
    assert |lines| > 0 && lines[0] == x;
    assert data == x + tok + rest by {
      TerminatedCons(lines, tok, Encode(tail));
    }
    assert |x| > 0 by {
      EncodeNonEmpty(RequestLineText(m, target, version));
    }
    FirstLineLocks(x, e, rest);
    FrameWritten(lines, Encode(tail), e);
    assert Encode(tail) == [] <==> tail == "" by {
      if tail != "" {
        EncodeNonEmpty(tail);
      }
    }
  }

  lemma TerminatedCons(lines: seq<Bytes>, tok: Bytes, tail: Bytes)
    requires |lines| > 0
    ensures Terminated(lines, tok) + tail == lines[0] + tok + (Terminated(lines[1..], tok) + tail)
  {
  }

  /**
   * A request head written in one piece, with the terminator `e` and an
   * optional start of the body that has no line break, is consumed in one
   * call: the terminator is locked, the request line and the header map are
   * announced, the headers are done, and the (empty) body buffer is
   * returned; the start of the body stays in the line buffer. Without any
   * header line the blank line is the `Crash` outcome.
   */
  lemma ConsumeWrittenRequest(m: Method, target: string, version: string, hs: seq<WrittenHeader>, e: Eol, tail: string)
    requires IsWord(target) && IsSupportedVersion(version)
    requires forall k :: 0 <= k < |hs| ==> WellWritten(hs[k])
    requires NoLineBreak(tail)
    requires |Encode(RequestText(m, target, version, hs, e) + tail)| <= MaxRequestLength
    ensures |hs| == 0 ==> Consume(Initial, Encode(RequestText(m, target, version, hs, e) + tail)) == Failure(Crash)
    ensures |hs| > 0 ==>
      var data := Encode(RequestText(m, target, version, hs, e) + tail);
      var rl := RequestLine(m, ParsedUrl(target), version, VersionParts(version));
      var q := State(Some(e), BufferOf(tail), |data|, false, false, Some(rl), None, HeadersOf(map[], hs), Some([]));
      Consume(Initial, data) == Success(Step(q, [SetRequestLine(m, ParsedUrl(target), version), SetHeaders(q.headers)], Some([])))
  {
    var data := Encode(RequestText(m, target, version, hs, e) + tail);
    var lines := EncodeAll(HeadLines(m, target, version, hs));
    var text := RequestLineText(m, target, version);
    var rl := RequestLine(m, ParsedUrl(target), version, VersionParts(version));
    WrittenHeadFrames(m, target, version, hs, e, tail);
    HeadLinesDecode(m, target, version, hs);
    StoreWrittenHead(hs);
    if |hs| == 0 {
      ConsumeHeadFails(data, e, |Encode(text)|, lines, BufferOf(tail), text, rl);
    } else {
      ConsumeHead(data, e, |Encode(text)|, lines, BufferOf(tail), text, rl, HeaderBatch(None, HeadersOf(map[], hs), Some([])));
    }
  }

  /** Framing a first chunk completes its first line, whatever follows that line's terminator. */
  lemma FrameFirstLine(x: Bytes, e: Eol, rest: Bytes)
    requires !Contains(x, e.Token())
    ensures |Frame([], x + e.Token() + rest, e).0| >= 1
    ensures Frame([], x + e.Token() + rest, e).0[0] == x
  {
    var tok := e.Token();
    var data := x + tok + rest;
    assert Concat([]) + data == data;
    FindAfterPiece(x, tok, rest);
    SplitAt(data, tok);
    assert data[..|x|] == x;
    FrameIs([], data, e, Split(data, tok));
  }

  /**
   * A first line that `parse_request_line` refuses makes the first chunk
   * that completes it raise the same error, whatever follows the line.
   */
  lemma ConsumeRefusedRequestLine(line: string, e: Eol, rest: Bytes)
    requires |line| > 0 && NoLineBreak(line)
    requires ParseRequestLine(line).Failure?
    requires |Encode(line) + e.Token() + rest| <= MaxRequestLength
    ensures Consume(Initial, Encode(line) + e.Token() + rest) == Failure(Http(ParseRequestLine(line).error))
  {
    var x := Encode(line);
    var data := x + e.Token() + rest;
    EncodedLineClean(line, e);
    EncodeNonEmpty(line);
    FirstLineLocks(x, e, rest);
    FrameFirstLine(x, e, rest);
    var framed := Frame([], data, e);
    ConsumeLines(Initial, data, e, |x|, framed.0, framed.1);
    var q := Initial.(requestLength := Initial.requestLength + |data|, eol := Some(e), buffer := framed.1);
    DecodeEncode(line);
    ProcessRequestLine(q, framed.0);
  }

  /** Framing a first chunk completes its first two lines, whatever follows the second line's terminator. */
  lemma FrameFirstTwoLines(x: Bytes, y: Bytes, e: Eol, rest: Bytes)
    requires !Contains(x, e.Token()) && !Contains(y, e.Token())
    ensures var lines := Frame([], x + e.Token() + (y + e.Token() + rest), e).0;
      |lines| >= 2 && lines[0] == x && lines[1] == y
  {
    var tok := e.Token();
    var data := x + tok + (y + tok + rest);
    var pieces := [x] + ([y] + Split(rest, tok));
    assert Split(Concat([]) + data, tok) == pieces by {
      assert Concat([]) + data == data;
      SplitPiece(x, tok, y + tok + rest);
      SplitPiece(y, tok, rest);
    }
    var lines := pieces[..|pieces| - 1];
    assert Frame([], data, e).0 == lines by {
      FrameIs([], data, e, pieces);
    }
    assert |lines| >= 2 && lines[0] == x && lines[1] == y;
  }

  lemma SplitPiece(x: Bytes, tok: Bytes, rest: Bytes)
    requires IsLineToken(tok) && !Contains(x, tok)
    ensures Split(x + tok + rest, tok) == [x] + Split(rest, tok)
  {
    var data := x + tok + rest;
    assert Find(data, tok) == |x| by {
      FindAfterPiece(x, tok, rest);
    }
    assert data[..|x|] == x;
    assert data[|x| + |tok|..] == rest;
    SplitAt(data, tok);
  }

  /**
   * A written request line and any second line with no terminator in it:
   * the request line locks the terminator, frames, decodes and parses, and
   * the second line is the first header line.
   */
  lemma SecondLineFrames(m: Method, target: string, version: string, y: Bytes, e: Eol, rest: Bytes)
    requires IsWord(target) && IsSupportedVersion(version)
    requires !Contains(y, e.Token())
    ensures var x := Encode(RequestLineText(m, target, version));
      var data := x + e.Token() + (y + e.Token() + rest);
      var lines := Frame([], data, e).0;
      && FindNewline(None, data) == (Some(e), |x|)
      && |lines| > 1 && lines[1..][0] == y
      && Decode(lines[0]) == Some(RequestLineText(m, target, version))
      && ParseRequestLine(RequestLineText(m, target, version))
         == Success(RequestLine(m, ParsedUrl(target), version, VersionParts(version)))
  {
    var text := RequestLineText(m, target, version);
    var x := Encode(text);
    RequestLineNoBreak(m, target, version);
    EncodedLineClean(text, e);
    EncodeNonEmpty(text);
    FirstLineLocks(x, e, y + e.Token() + rest);
    FrameFirstTwoLines(x, y, e, rest);
    DecodeEncode(text);
    ParseWrittenRequestLine(m, target, version);
  }

  /**
   * A head whose first header line is a continuation line, with no header
   * before it to continue, is refused as an invalid header, whatever
   * follows that line.
   */
  lemma ConsumeOrphanContinuation(m: Method, target: string, version: string, line: string, e: Eol, rest: Bytes)
    requires IsWord(target) && IsSupportedVersion(version)
    requires StartsWithBlank(line) && NoLineBreak(line)
    requires |Encode(RequestLineText(m, target, version)) + e.Token() + (Encode(line) + e.Token() + rest)| <= MaxRequestLength
    ensures Consume(Initial, Encode(RequestLineText(m, target, version)) + e.Token() + (Encode(line) + e.Token() + rest))
         == Failure(Http(InvalidHeader))
  {
    var text := RequestLineText(m, target, version);
    var y := Encode(line);
    var data := Encode(text) + e.Token() + (y + e.Token() + rest);
    var framed := Frame([], data, e);
    EncodedLineClean(line, e);
    EncodeNonEmpty(line);
    DecodeEncode(line);
    SecondLineFrames(m, target, version, y, e, rest);
    ContinuationWithoutHeader(map[], framed.0[1..], line);
    ConsumeHeadFails(data, e, |Encode(text)|, framed.0, framed.1, text, RequestLine(m, ParsedUrl(target), version, VersionParts(version)));
  }

  /**
   * A head whose first header line is not UTF-8 is a bad request, whatever
   * follows that line.
   */
  lemma ConsumeUndecodableHeader(m: Method, target: string, version: string, y: Bytes, e: Eol, rest: Bytes)
    requires IsWord(target) && IsSupportedVersion(version)
    requires y != [] && LF !in y && Decode(y).None?
    requires |Encode(RequestLineText(m, target, version)) + e.Token() + (y + e.Token() + rest)| <= MaxRequestLength
    ensures Consume(Initial, Encode(RequestLineText(m, target, version)) + e.Token() + (y + e.Token() + rest))
         == Failure(Http(BadRequest))
  {
    var text := RequestLineText(m, target, version);
    var data := Encode(text) + e.Token() + (y + e.Token() + rest);
    var framed := Frame([], data, e);
    NoLfNoToken(y, e);
    SecondLineFrames(m, target, version, y, e, rest);
    UndecodableHeaderLine(None, map[], framed.0[1..]);
    ConsumeHeadFails(data, e, |Encode(text)|, framed.0, framed.1, text, RequestLine(m, ParsedUrl(target), version, VersionParts(version)));
  }
}
