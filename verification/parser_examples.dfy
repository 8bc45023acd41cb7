/**
 * The parser's own test scenarios, worked through the model: where the
 * line terminator locks, how the request line parses, a request line fed
 * in three pieces, whole request heads, and the requests that are refused.
 */
module ParserExamples {
  import opened Wrappers
  import opened ByteSeq
  import opened Utf8
  import opened PyStr
  import opened Errors
  import opened RequestLines
  import opened Headers
  import opened Parser
  import opened ParserRun
  import opened WrittenRequests

  lemma EncodeLine(x: string, e: Eol, rest: string)
    ensures Encode(x + EolText(e) + rest) == Encode(x) + e.Token() + Encode(rest)
  {
    EncodeAppend(x + EolText(e), rest);
    EncodeAppend(x, EolText(e));
    EncodeEol(e);
  }

  predicate IsAscii(s: string) {
    forall i :: 0 <= i < |s| ==> s[i] as int < 0x80
  }

  /** An ASCII text encodes to one byte per character. */
  lemma {:induction false} EncodeAsciiLength(s: string)
    requires IsAscii(s)
    ensures |Encode(s)| == |s|
  {
    if |s| > 0 {
      assert IsAscii(s[1..]) by {
        assert forall i :: 0 <= i < |s| - 1 ==> s[1..][i] == s[i + 1];
      }
      EncodeAsciiLength(s[1..]);
    }
  }

  /** A first line, ending in `\n`, locks `\n` and finds it at the end of the line. */
  lemma FindNewlineLf()
    ensures FindNewline(None, Encode("a line\n")) == (Some(Lf), 6)
  {
    EncodedLineClean("a line", Lf);
    EncodeAsciiLength("a line");
    assert Encode("a line\n") == Encode("a line") + Lf.Token() + [] by {
      EncodeLine("a line", Lf, "");
      assert "a line" + EolText(Lf) + "" == "a line\n";
    }
    FirstLineLocks(Encode("a line"), Lf, []);
  }

  /** A first line ending in `\r\n` locks `\r\n` and finds it at the same place. */
  lemma FindNewlineCrLf()
    ensures FindNewline(None, Encode("a line\r\n")) == (Some(CrLf), 6)
  {
    EncodedLineClean("a line", Lf);
    EncodeAsciiLength("a line");
    assert Encode("a line\r\n") == Encode("a line") + CrLf.Token() + [] by {
      EncodeLine("a line", CrLf, "");
      assert "a line" + EolText(CrLf) + "" == "a line\r\n";
    }
    FirstLineLocks(Encode("a line"), CrLf, []);
  }

  /**
   * A chunk with no `\n` reports -1: a fresh parser locks nothing, and one
   * already locked to `\r\n`, as the second parser of the test is, stays locked.
   */
  lemma FindNewlineMissing()
    ensures FindNewline(None, Encode("no newline")) == (None, -1)
    ensures FindNewline(Some(CrLf), Encode("no newline")) == (Some(CrLf), -1)
  {
    EncodedLineClean("no newline", Lf);
    NoLfNoToken(Encode("no newline"), Lf);
    NoLfNoToken(Encode("no newline"), CrLf);
  }

  /** `"GET /path?test=true&q=1 HTTP/1.1"` is a GET of that target, version 1.1. */
  lemma ParseGetWithQuery(target: string)
    requires target == "/path?test=true&q=1"
    ensures ParseRequestLine("GET " + target + " HTTP/1.1")
         == Success(RequestLine(GET, ParsedUrl(target), "HTTP/1.1", ["1", "1"]))
  {
    assert IsWord(target);
    ParseWrittenRequestLine(GET, target, "HTTP/1.1");
    assert MethodName(GET) == "GET";
    assert "GET" + " " + target + " " + "HTTP/1.1" == "GET " + target + " HTTP/1.1";
  }

  /** The words of a three-word line with single spaces. */
  lemma ThreeWords(a: string, b: string, c: string)
    requires IsWord(a) && IsWord(b) && IsWord(c)
    ensures Words(a + " " + b + " " + c) == [a, b, c]
  {
    assert AllWords([a, b, c]);
    WordsOfJoinSpaced([a, b, c]);
    JoinSpacedThree(a, b, c);
  }

  /** A refused request line, with no line break, ended by `\r\n` and followed by anything. */
  lemma RefuseLine(line: string, rest: Bytes)
    requires |line| > 0 && IsAscii(line) && NoLineBreak(line)
    requires |line| + 2 + |rest| <= MaxRequestLength
    requires ParseRequestLine(line).Failure?
    ensures Consume(Initial, Encode(line) + CrLf.Token() + rest) == Failure(Http(ParseRequestLine(line).error))
  {
    EncodeAsciiLength(line);
    ConsumeRefusedRequestLine(line, CrLf, rest);
  }

  /** A request line of one word is a bad request, whatever the header lines after it. */
  lemma RefuseOneWord(rest: Bytes)
    requires |rest| <= MaxRequestLength - 6
    ensures Consume(Initial, Encode("OOPS") + CrLf.Token() + rest) == Failure(Http(BadRequest))
  {
    assert IsWord("OOPS");
    WordsOfWord("OOPS");
    RefuseLine("OOPS", rest);
  }

  lemma AsciiAppend(x: string, y: string)
    requires IsAscii(x) && IsAscii(y)
    ensures IsAscii(x + y)
  {
    assert forall i :: |x| <= i < |x + y| ==> (x + y)[i] == y[i - |x|];
  }

  /**
   * A three-word request line is refused for its version before its method:
   * a version other than 1.0 and 1.1 is not supported, and a method with no
   * hook is not implemented.
   */
  lemma RefuseWrittenLine(a: string, b: string, c: string, rest: Bytes)
    requires IsWord(a) && IsWord(b) && IsWord(c)
    requires IsAscii(a) && IsAscii(b) && IsAscii(c)
    requires |a| + |b| + |c| + 4 + |rest| <= MaxRequestLength
    requires !IsSupportedVersion(c) || MethodOf(a).None?
    ensures Consume(Initial, Encode(a + " " + b + " " + c) + CrLf.Token() + rest)
         == Failure(Http(if !IsSupportedVersion(c) then VersionNotSupported else NotImplemented))
  {
    var line := a + " " + b + " " + c;
    ThreeWords(a, b, c);
    assert IsAscii(line) by {
      AsciiAppend(a, " ");
      AsciiAppend(a + " ", b);
      AsciiAppend(a + " " + b, " ");
      AsciiAppend(a + " " + b + " ", c);
    }
    WordNoLineBreak(a);
    WordNoLineBreak(b);
    WordNoLineBreak(c);
    RefuseLine(line, rest);
  }

  /** A method with no hook is not implemented. */
  lemma RefuseUnknownMethod(rest: Bytes)
    requires |rest| <= MaxRequestLength - 21
    ensures Consume(Initial, Encode("OOPS /path HTTP/1.1") + CrLf.Token() + rest) == Failure(Http(NotImplemented))
  {
    assert "OOPS" + " " + "/path" + " " + "HTTP/1.1" == "OOPS /path HTTP/1.1";
    assert IsWord("OOPS") && IsWord("/path") && IsWord("HTTP/1.1");
    RefuseWrittenLine("OOPS", "/path", "HTTP/1.1", rest);
  }

  /** A version other than 1.0 and 1.1 is refused, before the method is looked at. */
  lemma RefuseVersion(rest: Bytes)
    requires |rest| <= MaxRequestLength - 21
    ensures Consume(Initial, Encode("OOPS /path HTTP/1.3") + CrLf.Token() + rest) == Failure(Http(VersionNotSupported))
  {
    assert "OOPS" + " " + "/path" + " " + "HTTP/1.3" == "OOPS /path HTTP/1.3";
    assert IsWord("OOPS") && IsWord("/path") && IsWord("HTTP/1.3");
    RefuseWrittenLine("OOPS", "/path", "HTTP/1.3", rest);
  }

  /** Before any line terminator is seen, a chunk with no `\n` is only buffered. */
  lemma BufferWithoutNewline(data: Bytes)
    requires LF !in data && |data| <= MaxRequestLength
    ensures Consume(Initial, data) == Success(Step(Initial.(requestLength := |data|, buffer := [data]), [], None))
  {
    NoLfNoToken(data, Lf);
    assert Lf.Token() == [LF];
    ConsumeChecks(Initial, data);
    assert Initial.(requestLength := Initial.requestLength + |data|, eol := None, buffer := Initial.buffer + [data])
        == Initial.(requestLength := |data|, buffer := [data]);
  }

  /**
   * A chunk with no `\n` is only buffered, even one that is not UTF-8, such
   * as a stray continuation byte before `Get Stuff`: nothing is decoded
   * until a line is complete.
   */
  lemma BufferUndecodable(s: string)
    requires NoLineBreak(s) && IsAscii(s) && |s| < MaxRequestLength
    ensures Decode([0x99 as byte] + Encode(s)).None?
    ensures var data := [0x99 as byte] + Encode(s);
      Consume(Initial, data) == Success(Step(Initial.(requestLength := |data|, buffer := [data]), [], None))
  {
    EncodedLineClean(s, Lf);
    EncodeAsciiLength(s);
    BufferWithoutNewline([0x99 as byte] + Encode(s));
  }

  /**
   * A folded header, such as `X-Foo: a`, then the continuation line ` b`,
   * then the blank line: it is stored under its upper-cased name as the
   * list of its text and the folded text, here `X-FOO` and `["a", "b"]`.
   */
  lemma FoldedHeaderLines(h: WrittenHeader, f: string)
    requires WellWritten(h) && h.folds == [f]
    ensures StoreHeaders(None, map[], [Encode(HeaderText(h)), Encode(" " + f), []])
         == Success(HeaderBatch(None, map[Upper(h.name) := Folded([h.text, f])], Some([])))
  {
    assert EncodeAll(HeaderTexts([h])) + [[]] == [Encode(HeaderText(h)), Encode(" " + f), []] by {
      assert Continuations([f]) == [" " + f];
      assert HeaderTexts([h]) == [HeaderText(h), " " + f];
      assert EncodeAll([" " + f]) == [Encode(" " + f)];
    }
    StoreWrittenHead([h]);
    assert ValueOf(h) == Folded([h.text, f]) by {
      assert [h.text] + [f] == [h.text, f];
    }
    assert HeadersOf(map[], [h]) == map[Upper(h.name) := ValueOf(h)] by {
      assert [h][1..] == [];
    }
  }
}
