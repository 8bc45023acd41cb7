# growler request parser and middleware chain, in Dafny

This project models two pieces of the growler web framework.

- The incremental HTTP request parser, `Parser` in
  `growler/http/parser.py`. The protocol hands it raw byte chunks through
  `consume`. Until a line terminator is found the parser buffers them. It
  locks the terminator (`\n` or `\r\n`) on the first `\n` it sees. It then
  splits the buffered bytes into complete lines and parses the first one as
  the request line (`METHOD target VERSION`). The following lines are header
  lines; a continuation line folds into the previous header and a blank line
  ends the headers. It calls back the parent with `set_request_line` and
  `set_headers`, and enforces the 1 MiB `MAX_REQUEST_LENGTH` over the whole
  request.
- The `MiddlewareChain` in `growler/middleware_chain.py`: an ordered list of
  `(func, path, err, mask)` records. Calling it yields the records whose
  mask shares a bit with the request's method flag and whose path is the
  request path. `add` appends a record, `in` tests membership by identity,
  and `last_router` returns the trailing Router, appending a new one when
  the last record is not one.

The parser is a pure step function `Parser.Consume(state, chunk)`. It
returns the new state, the parent callbacks made (as `Event` values) and
the value `consume` returns, or the error it raises. `ParserRun.Run` feeds a
sequence of chunks. Python's byte and string primitives that the parser
relies on are written out and proved about in their own modules:

- `ByteSeq`: `find`, `split`, `join`, `endswith`;
- `Utf8`: strict `bytes.decode` and `str.encode`;
- `PyStr`: `str.isspace`, `strip`, `split()`, `split(':', 1)`, `startswith`
  and `upper`.

`WrittenRequests` describes request heads as a client writes them, folded
header values included, and proves that one-chunk requests parse back into
what was written.
`ParserExamples` and `ChunkedRequests` state the scenarios of
`tests/test_http_parser.py` over general inputs.

Modules: `Wrappers`, `Errors`, `ByteSeq`, `Utf8`, `PyStr`, `RequestLines`,
`Headers`, `Parser`, `ParserRun`, `WrittenRequests`, `ParserExamples`,
`ChunkedRequests`, `MiddlewareChain`.

## Model

| member | source | states |
|---|---|---|
| Parser.FindNewline | growler/http/parser.py:158-175 | Before a terminator is locked, a chunk with no `\n` gives -1 and locks nothing. The first `\n` locks `\r\n` when the byte Python indexes as `string[pos-1]` is `\r`, and `\n` otherwise. From then on the result is the index of the locked terminator. |
| Parser.FrameSpec | growler/http/parser.py:72-80 | Joining buffer and chunk and splitting on the terminator loses nothing: complete lines plus terminators plus kept fragment rebuild the input. No line contains the terminator. A fragment is kept exactly when the chunk does not end with the terminator, and a chunk holding the terminator completes a line. |
| Parser.FrameCompletes | growler/http/parser.py:72-75 | A chunk holding the terminator completes at least one line, so `lines.pop(0)` has a line to take. |
| Parser.ConsumeChecks | growler/http/parser.py:62-70 | Passing MAX_REQUEST_LENGTH over the running total is a bad request. The total grows by the chunk and a locked terminator stays locked. A chunk where no terminator is found is only appended to the buffer, with no callback and None returned. |
| Parser.ProcessRequestLine | growler/http/parser.py:83-92 | The first complete line that does not decode is a bad request. One that does not parse raises the parse's error. A successful call stores the parsed request line. |
| Parser.ProcessLinesSpec | growler/http/parser.py:83-107 | The request line is set and never replaced, and buffering and length are untouched. Finished headers stay unchanged. The return is None or the body buffer, and the callbacks are exactly those owed. |
| Parser.ProcessHeaderLinesSpec | growler/http/parser.py:94-107 | No lines returns None. Otherwise the body buffer is returned, `set_headers` is called exactly when the headers end, and only header attributes change. |
| Parser.HeadProcessed | growler/http/parser.py:83-107 | Request line plus header lines ending in a blank line make both callbacks in order and return the body buffer. |
| Parser.HeadFailed | growler/http/parser.py:83-99 | Request line plus header lines that fail to store: the storing error is raised. |
| Parser.ConsumeProgress | growler/http/parser.py:55-107 | A parsed request line is never replaced. Done headers stay done. Nothing is returned while headers are needed. The call ending the headers returns the body buffer. Callbacks are exactly those owed, and a valid state stays valid. |
| Parser.ConsumeHeadFrom | growler/http/parser.py:62-107 | A chunk completing the whole head locks the terminator, makes both callbacks in order, finishes the headers, returns the body buffer and keeps the trailing fragment. |
| Parser.ConsumeHead | growler/http/parser.py:62-107 | The same, for a fresh parser. |
| Parser.ConsumeHeadFails | growler/http/parser.py:62-99 | A fresh parser given a head whose header lines fail raises the storing error. |
| ParserRun.Run | growler/http/parser.py:55-107 | Feeding chunks one `consume` call at a time records one returned value per chunk. |
| ParserRun.RunAnnounced | growler/http/parser.py:89-104 | Over any run that does not fail, the state stays valid and progress is never undone. Callbacks are exactly `set_request_line` then `set_headers`, each once, in that order. |
| ParserRun.RunFromInitial | growler/http/parser.py:89-104 | From a fresh parser the callbacks are the request line once parsed, then the headers once ended. |
| ParserRun.AnnouncedCompose | growler/http/parser.py:89-104 | Callbacks owed over two legs add up to those owed over the whole. |
| ParserRun.RunLength | growler/http/parser.py:62-65 | A run that does not fail counted every byte it was given, at most MAX_REQUEST_LENGTH. |
| ParserRun.RunReturns | growler/http/parser.py:94-107 | Every call returns None until the headers end. |
| RequestLines.ParseRequestLine | growler/http/parser.py:117-148 | Not exactly three words is BadRequest. A version other than 1.0/1.1 is VersionNotSupported, checked before the method. A method with no hook is NotImplemented. Success holds the three words. |
| RequestLines.MethodOf | growler/http/parser.py:133-141 | Only GET and POST have a header hook; the method found is named by the word. |
| RequestLines.MethodOfName | growler/http/parser.py:133-136 | Each method is selected by its own name. |
| RequestLines.VersionParts | growler/http/parser.py:127-128 | `HTTP_VERSION` is the two digit strings after the slash, split on the dot. |
| RequestLines.ParseWrittenRequestLine | growler/http/parser.py:117-148 | A line written as `method target version` parses back into exactly those parts. |
| RequestLines.ParsePaddedRequestLine | growler/http/parser.py:118 | Trailing whitespace, including a stray `\r`, is dropped by `split()`, so the padded line parses as the line alone. |
| Headers.IsInvalidHeaderName | growler/http/parser.py:233-239 | A name is invalid exactly when it is empty or holds a control character, DEL, space, tab or HTTP delimiter. |
| Headers.SearchInvalid | growler/http/parser.py:17 | The regex search finds the first invalid character, or -1 when there is none. |
| Headers.HeaderFromLine | growler/http/parser.py:212-231 | A line with no colon is InvalidHeader, the only error raised. Split at the first colon, the line succeeds exactly when the stripped name is valid. The result is the upper-cased stripped name and the stripped text. |
| Headers.ColonSplitUnique | growler/http/parser.py:221 | A line splits at its first colon in exactly one way. |
| Headers.HeaderFromWrittenLine | growler/http/parser.py:212-231 | A header written `Name: value` parses back into its upper-cased name and its value. |
| Headers.HeaderFromPaddedLine | growler/http/parser.py:221 | Trailing whitespace after the value, including a stray `\r`, is stripped off. |
| Headers.Fold | growler/http/parser.py:196-205 | A continuation folds into the pending value: the parts gain that text at the end, and the value becomes a list. |
| Headers.FoldAllParts | growler/http/parser.py:199-205 | Folding any number of continuation texts keeps the texts the value held and appends the new ones in order. With at least one, the value is a list. |
| Headers.Flush | growler/http/parser.py:150-156 | The pending header is stored under its key, adding only that key and leaving every other key unchanged. |
| Headers.FlushLastWins | growler/http/parser.py:155 | A later header with the same key replaces the earlier one. |
| Headers.FirstBlank | growler/http/parser.py:184-189 | The index of the first blank line, with no blank line before it, or -1 exactly when no line is blank. |
| Headers.StoreHeadersOutcome | growler/http/parser.py:177-210 | Only the three source failures occur: bad request, invalid header, and the crash on a blank line with nothing pending. With a blank line among the lines, nothing is left pending and the body is the lines from it on, joined. Without one there is no body yet. |
| Headers.StoreHeadersCanonical | growler/http/parser.py:177-231 | Storing never drops a stored key and keeps every key upper-case. |
| WrittenRequests.StoreWritten | growler/http/parser.py:177-210 | Headers written each on its line and its continuation lines, and ended by a blank line, are all stored, the last one per name winning. Each is stored as its text, or as the list of its text and folded texts. What follows the blank line becomes the body. With nothing pending and no header, it is the crash. |
| WrittenRequests.StoreFolds | growler/http/parser.py:196-205 | Any number of continuation lines append their stripped texts, in order, to the pending value. The header stays pending and nothing is stored meanwhile. |
| WrittenRequests.WrittenValue | growler/http/parser.py:199-205 | Folding a header's continuation texts into its text gives the text alone when there are none, and otherwise the list of the text followed by the folded texts. |
| WrittenRequests.HeadersOfLookup | growler/http/parser.py:150-210 | After storing headers in order, a name is present exactly when it was before or some header carries it. Its value is the last such header's, folded or not; other names keep their value. |
| WrittenRequests.LastNamed | growler/http/parser.py:207-210 | The last header whose name upper-cases to the key, or -1 exactly when there is none. |
| WrittenRequests.StoreWrittenLine | growler/http/parser.py:207-210 | A well-written header line flushes what was pending and becomes the new pending header. |
| WrittenRequests.StoreBlank | growler/http/parser.py:186-189 | A blank line flushes the pending header and ends the headers with the rest as body; with none pending it is the crash. |
| WrittenRequests.StoreWrittenHead | growler/http/parser.py:177-210 | A head's header lines store into the written map with an empty body, or crash when there are no headers. |
| WrittenRequests.FirstLineLocks | growler/http/parser.py:168-175 | The terminator a first line was written with is the one locked, found right after the line. |
| WrittenRequests.FrameWritten | growler/http/parser.py:72-80 | Written complete lines and a fragment with no `\n` frame back into themselves. |
| WrittenRequests.WrittenHeadFrames | growler/http/parser.py:68-80 | A head written in one piece locks its terminator and frames into its own lines, with the start of the body left buffered. |
| WrittenRequests.HeadLinesDecode | growler/http/parser.py:83-92 | The first line of a written head decodes and parses back, and the header lines follow it. |
| WrittenRequests.ConsumeWrittenRequest | growler/http/parser.py:55-107 | A head written in one chunk with either terminator is consumed in one call. The terminator is locked, both callbacks are made with the written request line and header map, and the empty body buffer is returned. With no header line it is the crash. This is the one-chunk scenario of tests/test_http_parser.py lines 77-82 (`\n`) and 102-107 (`\r\n`). |
| WrittenRequests.FrameFirstTwoLines | growler/http/parser.py:72-80 | Framing a first chunk completes its first two lines, whatever follows the second one's terminator. |
| WrittenRequests.ConsumeOrphanContinuation | growler/http/parser.py:196-198 | After a request line that parses, a first header line starting with a space or tab has no header to continue and is InvalidHeader, whatever follows it. |
| WrittenRequests.ConsumeUndecodableHeader | growler/http/parser.py:191-194 | After a request line that parses, a first header line that is not UTF-8 is a bad request, whatever follows it. |
| WrittenRequests.FrameFirstLine | growler/http/parser.py:72-85 | Framing a first chunk completes its first line, whatever follows its terminator. |
| WrittenRequests.ConsumeRefusedRequestLine | growler/http/parser.py:83-141 | A first line that `parse_request_line` refuses makes the chunk completing it raise that error, whatever follows. |
| ParserExamples.FindNewlineLf | tests/test_http_parser.py:41-44 | `a line\n` locks `\n` and finds it at 6. |
| ParserExamples.FindNewlineCrLf | tests/test_http_parser.py:46-48 | `a line\r\n` locks `\r\n` and finds it at 6. |
| ParserExamples.FindNewlineMissing | tests/test_http_parser.py:46-51 | A chunk with no newline gives -1. The test's parser, already locked to `\r\n`, keeps that lock; a fresh parser locks nothing. |
| ParserExamples.ParseGetWithQuery | tests/test_http_parser.py:54-61 | `GET /path?test=true&q=1 HTTP/1.1` is a GET of that target, version 1.1. |
| ParserExamples.ThreeWords | growler/http/parser.py:118 | Three words joined by single spaces split back into those words. |
| ParserExamples.RefuseLine | growler/http/parser.py:83-88 | A refused request line ended by `\r\n` raises its error, whatever follows. |
| ParserExamples.RefuseOneWord | tests/test_http_parser.py:85-87 | `OOPS\r\n` followed by anything is a bad request. |
| ParserExamples.RefuseWrittenLine | growler/http/parser.py:117-141 | A three-word line is refused for its version before its method. |
| ParserExamples.RefuseUnknownMethod | tests/test_http_parser.py:93-95 | `OOPS /path HTTP/1.1` is not implemented, whatever follows. |
| ParserExamples.RefuseVersion | tests/test_http_parser.py:98-100 | `OOPS /path HTTP/1.3` is not supported, checked before the method. |
| ParserExamples.FoldedHeaderLines | growler/http/parser.py:196-205 | A header line such as `X-Foo: a`, one continuation line ` b` and a blank line store the header under its upper-cased name as the list of its text and the folded text, `["a", "b"]`. |
| ParserExamples.BufferWithoutNewline | growler/http/parser.py:67-70 | A first chunk with no `\n` is only buffered. |
| ParserExamples.BufferUndecodable | tests/test_http_parser.py:89-90 | A chunk starting with byte 0x99 and no newline is not UTF-8 but is only buffered: no error is raised by that call. |
| ChunkedRequests.ConsumeBuffers | growler/http/parser.py:62-70 | With no terminator locked, a chunk with no `\n` is appended to the buffer. |
| ChunkedRequests.LeadingNewlineLocksLf | growler/http/parser.py:169-172 | A chunk starting with the first `\n` locks `\n`, because `string[-1]` is the chunk's last byte. |
| ChunkedRequests.NewlineCompletesBuffer | growler/http/parser.py:68-80 | A lone `\n` after buffered bytes with no `\n` locks `\n` and completes the buffer as one line. |
| ChunkedRequests.RequestLineInPieces | tests/test_http_parser.py:65-75 | A request line cut anywhere into two chunks and then `\n`: the first call leaves its chunk alone in the buffer. The third announces the request line, headers are still needed, and every call returns None. |
| ChunkedRequests.OneHeaderWhole | tests/test_http_parser.py:102-107 | A head with one header, folded or not, in one `\r\n` chunk makes both callbacks, stores that header under its upper-cased name, and returns the empty body buffer. |
| ChunkedRequests.HeadersWithCrFail | growler/http/parser.py:196-228 | Under a locked `\n`, a header line keeping its `\r` is followed by a line holding only `\r`. That line is not blank, has no colon, and is InvalidHeader. |
| ChunkedRequests.CrCutSecondCall | growler/http/parser.py:68-99 | A `\r\n` head cut between `\r` and `\n`: the second chunk starts with `\n` and locks `\n`, and its header lines then fail as InvalidHeader. |
| ChunkedRequests.CutAtCarriageReturn | growler/http/parser.py:62-107 | The same head that parses in one chunk fails as InvalidHeader when cut between the first `\r` and `\n`: where chunks are cut changes the outcome. |
| Utf8.DecodeEncode | growler/http/parser.py:85 | Decoding inverts encoding. |
| Utf8.EncodeDecode | growler/http/parser.py:192 | Whatever decodes is the encoding of its decoded text. |
| PyStr.StripSpec | growler/http/parser.py:221 | `strip()` removes only whitespace, from both ends, leaves trimmed text, and leaves nothing exactly for all-whitespace input. |
| PyStr.StripPadded | growler/http/parser.py:199 | Trimmed text padded with whitespace strips back to itself. |
| PyStr.WordsSpec | growler/http/parser.py:118 | `split()` yields only words, and none exactly for all-whitespace text. |
| PyStr.WordsOfJoinSpaced | growler/http/parser.py:118 | `split()` recovers words joined by single spaces. |
| PyStr.WordsOfJoinSpacedPadded | growler/http/parser.py:118 | Trailing whitespace does not change what `split()` yields. |
| PyStr.SplitAtColon | growler/http/parser.py:221-225 | `split(':', 1)` unpacks into the text before and after the first colon; with no colon the unpacking fails. |
| PyStr.Upper | growler/http/parser.py:230 | Upper-casing keeps the length and upper-cases each character. |
| PyStr.UpperIdentifiesCase | growler/http/parser.py:230 | Two names get the same key exactly when they differ only in letter case. |
| PyStr.UpperIdempotent | growler/http/parser.py:230 | Upper-casing an upper-cased name changes nothing. |
| ByteSeq.Find | growler/http/parser.py:169 | `find` gives the first occurrence, or -1 exactly when there is none. |
| ByteSeq.SplitJoin | growler/http/parser.py:72 | No piece of a split holds the separator, and joining the pieces with it gives the input back. |
| ByteSeq.SplitInvertsJoin | growler/http/parser.py:72 | Splitting inverts joining with a line terminator when no piece holds it. |
| ByteSeq.SplitEndingWithToken | growler/http/parser.py:72-80 | Bytes ending with the terminator split into pieces whose last one is empty. |
| MiddlewareChain.BitAndBit | growler/middleware_chain.py:35 | Bit k of `a & b` is set exactly when bit k is set in both `a` and `b`. |
| MiddlewareChain.BitAndShares | growler/middleware_chain.py:35 | `a & b` is non-zero exactly when `a` and `b` have a set bit in common. |
| MiddlewareChain.AllMethodsKeeps | growler/middleware_chain.py:54 | The mask 0xFFF keeps every method flag from 0 to 0xFFF whole. |
| MiddlewareChain.MatchesSharedFlag | growler/middleware_chain.py:35 | A record matches exactly when its path is the request path and its mask has a bit of the method flag set. |
| MiddlewareChain.ZeroNeverMatches | growler/middleware_chain.py:35 | A method of 0, or a record with mask 0, never matches. |
| MiddlewareChain.Lookup | growler/middleware_chain.py:27-36 | A record is yielded exactly when it is in the chain and its mask and path match. No more records come out than were stored. |
| MiddlewareChain.LookupAppend | growler/middleware_chain.py:34-36 | What two lists yield one after the other is what the joined list yields: the order of addition is kept. |
| MiddlewareChain.LookupZero | growler/middleware_chain.py:35 | With method 0 nothing is yielded. |
| MiddlewareChain.Call | growler/middleware_chain.py:27-36 | The generator loop collects exactly what the lookup yields, in order. |
| MiddlewareChain.Add | growler/middleware_chain.py:38-47 | One record is appended and every earlier record stays where it was. The new record holds the function, path and mask; it is an error handler exactly when the function takes three parameters. |
| MiddlewareChain.LookupAfterAdd | growler/middleware_chain.py:34-47 | After `add`, a lookup yields what it yielded before, then the new record if it matches. |
| MiddlewareChain.Contains | growler/middleware_chain.py:49-50 | `func in chain` holds exactly when some record holds that same function. |
| MiddlewareChain.ContainsAfterAdd | growler/middleware_chain.py:38-50 | After `add(.., f)` the chain contains `f` and exactly the functions it contained before. |
| MiddlewareChain.LastRouter | growler/middleware_chain.py:52-55 | An empty chain is an IndexError, and only an empty one. A trailing Router is returned with the chain unchanged. Otherwise a new Router is added for every method under `/` and returned. The earlier records are kept and the result is the last record's function. |
| MiddlewareChain.LastRouterIdempotent | growler/middleware_chain.py:52-55 | A second `last_router` changes nothing and returns the same router. |
| MiddlewareChain.AddedRouterCatchesAll | growler/middleware_chain.py:52-55 | When `last_router` had to add the router, every request for `/` with a method flag from 1 to 0xFFF reaches it, after everything it reached before. |

## Left out

- URL parsing (`urlparse`, `unquote`, `parse_qs`) is library code. The request target is kept whole as `ParsedUrl(target)`, so the tests' `.path`/`.query` checks are not modelled.
- RequestLines.ParseRequestLine: does not model the `ValueError` that `urlparse` raises for a target whose `//` authority holds an unmatched `[`, such as `//[x` (growler/http/parser.py:144). `consume` does not catch it, so it escapes as a non-HTTP error; the model accepts such a target.
- `version_number = float(...)` is not modelled: floating point is out of scope and nothing in the core reads it. `HTTP_VERSION` is modelled.
- The coloured error message `header_from_line` prints before raising (`termcolor`) is I/O and is left out.
- The `process_get_headers`/`process_post_headers` hooks are empty. Only their selection, which decides NotImplemented, is modelled.
- `MAX_REQUEST_LINE_LENGTH` is declared but never used by the parser, so it has no counterpart.
- The parent object is not modelled. A call that succeeds records its `set_request_line` and `set_headers` calls as `Event` values, in the order they are made.
- An error is modelled as the end of the parse, reported as the fault alone. The attributes Python had already mutated before raising are not kept. Neither are the callbacks made before raising: a call whose header lines fail has already called `set_request_line` (growler/http/parser.py:89-91), and the model does not report that callback.
- Header values are compared as a Dafny `map`, so the insertion order of the Python dict is not modelled.
- PyStr.Upper: upper-cases ASCII letters only; Python's full Unicode case mapping is not modelled.
- PyStr.UpperIdentifiesCase: holds for the ASCII-only `Upper`. Under Python's Unicode `str.upper()`, distinct names can share a key, as `ß` and `ss` both give `SS`.
- `line is b''` and `prev_char is b'\r'[0]` are modelled as equality, which is what CPython's cached small objects make them.
- `string[line_end_pos-1]` reads the chunk's last byte when `\n` is the chunk's first byte. This is modelled as written (`ChunkedRequests.LeadingNewlineLocksLf`).
- The outcome of a parse is not independent of how the request is cut into chunks. A `\r\n` head cut between the first `\r` and `\n` locks `\n` and then fails on its headers (`ChunkedRequests.CutAtCarriageReturn`). The model follows the code.
- The body buffer is whatever follows the blank line among the lines of the same call, joined with no separator. For a head ending at the blank line that is `b''`, even when more bytes arrive in later calls.
- Some test expectations do not match the code. They assume `str` buffers and a queue parent (`_buffer == ["GET"]`, `q.data`), and a lowercase `'host'` key where the code upper-cases names. Their scenarios are stated over the code's behaviour instead: buffers of bytes, callbacks as events, upper-cased keys.
- `Parser(None).consume(b"\x99Get Stuff")` is expected to raise, but the chunk has no `\n` and is only buffered (`ParserExamples.BufferUndecodable`).
- The scenarios are proved for every request line and header of the written shape, and every trailing chunk, not for the tests' literal bytes only.
- `inspect.signature` is outside the model. A middleware function carries its parameter count as `arity`, and object identity is equality of `Func` values.
- `isinstance(func, Router)` is a flag on `Func`. The `Router()` that `last_router` constructs is passed in as a parameter.
- MiddlewareChain.BitAnd: defined on non-negative integers only; Python's `&` on negative ints (two's complement) is not modelled.
- Python's generator laziness in `__call__` is not modelled: `Call` collects everything it would yield, in order.
