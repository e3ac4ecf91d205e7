# http_server_rust, modelled in Dafny

The server in `src/main.rs` accepts TCP connections and answers each one on
its own thread. For every connection it:

- reads request lines up to the first empty line (`read_request`);
- routes on the first line alone (`parse_request`). An exact
  `GET / HTTP/1.1` gets `HTTP/1.1 200 OK` and `hello.html`. Anything else
  gets `HTTP/1.1 404 NOT FOUND` and `404.html`;
- loads that file and writes
  `status line CR LF "Content-Length: " length CR LF CR LF contents`
  (`handle_connection`).

This project models that request-to-response pipeline as pure functions.
The socket is replaced by its input and its output:

- the input is the sequence of lines the stream yields. Each line is
  `Option<string>`, and `None` is a line that failed to decode;
- the file system is a `map<string, seq<byte>>`;
- the result is the bytes that would be written, or the error that ends
  the connection.

Modules, one per part of the pipeline:

- `Wrappers` (wrappers.dfy): `Option` and `Result`.
- `Utf8` (utf8.dfy): bytes, and the UTF-8 encoding that `as_bytes` exposes
  (section 3 of RFC 3629).
- `Decimal` (decimal.dfy): how `format!` writes the `usize` length in
  decimal, and the parse back.
- `Request` (request.dfy): `read_request` as `filter_map(ok)` followed by
  `take_while(non-empty)`.
- `Router` (router.dfy): `parse_request`.
- `Response` (response.dfy): the response bytes. It also has the reading a
  client makes of them: the header section ends at the first CR LF CR LF,
  following section 2.1 of RFC 9112, and the `Content-Length` field of
  section 8.6 of RFC 9110 gives the body length. This reading is what the
  framing lemmas are stated against.
- `Connection` (connection.dfy): the value `handle_connection` computes.
- `Exchanges` (connection.dfy): whole exchanges on concrete requests.

Three facts about the code shape the model:

- the resource keys are the file names `hello.html` and `404.html`;
- both status lines carry the `HTTP/1.1` prefix;
- the `.unwrap()` at src/main.rs:36 panics the connection's thread when
  the routed file cannot be read. The model represents that panic as
  `Err(ResourceUnavailable(filename))`, with no bytes written.

## Model

| member | source | states |
|---|---|---|
| `Utf8.Encode` | src/main.rs:38-40 | the response text goes on the wire as UTF-8: at least one byte per character, and for ASCII text exactly one byte per character with the same value |
| `Utf8.EncodeLineBreaks` | src/main.rs:38-40 | the encoded bytes contain CR (LF) exactly when the text contains a carriage return (line feed) |
| `Utf8.EncodeAppend` | src/main.rs:38-40 | encoding the concatenated text equals concatenating the encodings, so the response bytes are the pieces of the format string, in order |
| `Decimal.Render` | src/main.rs:37-38 | the length is written as a canonical decimal numeral: one or more digits, with no leading zero unless the value is 0 |
| `Decimal.ParseRender` | src/main.rs:37-38 | reading the rendered `Content-Length` value back as decimal gives the length |
| `Decimal.RenderParse` | src/main.rs:37-38 | every canonical numeral is the rendering of its value, so rendering is a bijection onto canonical numerals |
| `Decimal.RenderInjective` | src/main.rs:37-38 | different lengths are written differently |
| `Request.DecodedLines` | src/main.rs:12-13 | `filter_map(ok)` yields never more lines than it was given, and a string is among them exactly when some line decoded to it |
| `Request.DecodedLinesOne` | src/main.rs:13 | a single line that decoded yields exactly that line, and a single failed line yields nothing; with `DecodedLinesAppend` this fixes the result as the decoded lines, each occurrence kept, in order |
| `Request.DecodedLinesAppend` | src/main.rs:13 | decoding works line by line: it distributes over concatenation |
| `Request.TakeWhileNonEmpty` | src/main.rs:14 | `take_while` yields a prefix with no empty line, and the prefix stops only at an empty line or at the end of the input |
| `Request.LongestPrefixUnique` | src/main.rs:14 | those three properties determine the result, so `take_while` is exactly the longest prefix with no empty line |
| `Request.ReadRequest` | src/main.rs:9-17 | the request contains no empty line, and every line in it decoded from the stream. It is the longest prefix of the decoded lines that contains no empty line |
| `Request.ReadRequestSkipsFailures` | src/main.rs:13-14 | a line that fails to decode is dropped and does not end the request |
| `Request.ReadRequestStopsAtBlankLine` | src/main.rs:14-15 | the first empty decoded line ends the request. Every decoded line before it is kept, and nothing after it matters |
| `Request.ReadRequestEmpty` | src/main.rs:14-15 | the request is empty exactly when no line decoded or the first decoded line is empty |
| `Request.ReadAllDecoded` | src/main.rs:9-17 | when every line decodes and none is empty, the request is all of them |
| `Router.ParseRequest` | src/main.rs:18-26 | on a non-empty request, the route is the 200 `hello.html` pair exactly when line 0 equals `GET / HTTP/1.1` (case-sensitive). Otherwise it is the 404 `404.html` pair. No status line contains CR or LF |
| `Router.RouteIgnoresHeaders` | src/main.rs:19 | lines after the first never change the route |
| `Router.RouterExamples` | src/tests.rs:5-61 | the unit-test cases: the root request, other paths, lower-case `get`, and the root request followed by headers |
| `Response.FormatResponse` | src/main.rs:37-38 | the response starts with the status line bytes and ends with the file contents unchanged |
| `Response.FormatResponseLayout` | src/main.rs:38-40 | the response bytes are the status line bytes, CR LF, the `Content-Length: ` bytes, the digit bytes, CR LF CR LF, then the contents |
| `Response.ResponseLayout` | src/main.rs:38 | the head's bytes are the status line bytes, CR LF, the field name bytes, the digit bytes, then CR LF CR LF |
| `Response.FirstBlankLineEndsHead` | src/main.rs:38 | when the status line has no CR, the first CR LF CR LF in the response is the one right before the contents. Exactly one blank line separates head from body |
| `Response.ResponseRoundTrip` | src/main.rs:37-38 | when the status line has no CR, a client reading the response gets back three things: the status line, a `Content-Length` equal to the number of bytes after the blank line, and the contents as the body |
| `Connection.HandleConnection` | src/main.rs:30-38 | an empty request writes nothing and succeeds. Otherwise the call fails exactly when the routed file is missing, and the error names that file. A successful answer to a non-empty request is longer than the file and ends with its contents |
| `Connection.HandleConnectionWrites` | src/main.rs:31-40 | bytes are written exactly when the request is non-empty and the routed file is present |
| `Connection.HandleConnectionFramesFile` | src/main.rs:34-38 | when bytes are written, a client reads the routed status line and a `Content-Length` equal to the routed file's length, and it reads that file as the body |
| `Connection.HandleConnectionIgnoresHeaders` | src/main.rs:30-34 | any two connections whose requests are non-empty and share the same first line get the same answer, whatever header lines follow |
| `Exchanges.RootExchange` | src/main.rs:28-43 | `GET / HTTP/1.1`, any non-empty header line and a blank line get `HTTP/1.1 200 OK`, the index page's length and the index page, whatever the two pages hold |
| `Exchanges.MissingExchange` | src/main.rs:28-43 | `GET /missing HTTP/1.1` and a blank line get `HTTP/1.1 404 NOT FOUND`, the not-found page's length and that page |
| `Exchanges.RootExchangeWithPages` | src/main.rs:28-43 | with the 15-byte pages `<html>ok</html>` and `<html>no</html>`, the root exchange writes `HTTP/1.1 200 OK` CR LF `Content-Length: 15` CR LF CR LF `<html>ok</html>` |
| `Exchanges.MissingExchangeWithPages` | src/main.rs:28-43 | with the same two pages, the not-found exchange writes `HTTP/1.1 404 NOT FOUND` CR LF `Content-Length: 15` CR LF CR LF `<html>no</html>` |
| `Exchanges.RootResponseContents` | src/main.rs:28-43 | the answer to `GET / HTTP/1.1`, a header line and a blank line contains "200 OK" right after `HTTP/1.1 ` and ends with the whole index page |
| `Exchanges.OkStatusContainsOkWords` | src/main.rs:21 | a 200 response carries the bytes "200 OK" at offset 9 |
| `Exchanges.IntegrationExchange` | src/tests.rs:75-109 | the integration test's request (`GET / HTTP/1.1`, `Host: localhost`, blank line) against its two pages gets a response that contains "200 OK" and ends with `<html><body><h1>Hello</h1></body></html>` |
| `Exchanges.MissingFileExchange` | src/main.rs:36 | the root request against an empty store ends in `ResourceUnavailable("hello.html")` with nothing written |
| `Exchanges.SilentExchange` | src/main.rs:31-33 | a client that sends nothing, or only the blank line, gets nothing back and the call succeeds |

## Left out

- `run_server` and `main` (src/main.rs:44-58): binding the listener,
  accepting connections and spawning a thread per connection. They are
  concurrency and sockets, and hold no logic beyond the accept loop.
- `peer_addr` and the `println!` log line (src/main.rs:29): network I/O and
  logging. The failure of `peer_addr` that ends the call early is not
  modelled.
- `write_all` and `flush` (src/main.rs:40-41): the model returns the bytes
  instead of writing them. A failed write, which panics through `unwrap`,
  and a failed flush, which is returned, are not modelled.
- How `BufReader::lines` splits bytes into lines, strips the line
  terminators and decodes UTF-8 (src/main.rs:10-12): this is standard
  library behaviour. The model takes the already-split lines, with `None`
  for any line whose read failed.
- `fs::read_to_string` (src/main.rs:36) is a map lookup. Real file I/O is
  not modelled, and neither is the rejection of a file that is not valid
  UTF-8 (that also panics through `unwrap`).
- The panic itself: thread unwinding has no counterpart in the model. It
  is represented by the `Err` result.
- The integration test (src/tests.rs:75-109) needs sockets, threads and
  real files. `Exchanges.IntegrationExchange` states its request, its two
  pages and its two assertions on the model. The other exchanges are
  scenarios of their own: other headers, other pages, and a not-found
  request, which the integration test does not send.
- A client that keeps the connection open and never sends the blank line.
  The source's `lines()` then blocks, and `take_while` (src/main.rs:11-15)
  never returns, so that connection's thread never ends. The model's input
  is a finite sequence of lines, so `ReadRequest` always returns. Reading
  that never ends is not modelled.
