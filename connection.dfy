/** The response value `handle_connection` computes (src/main.rs:28-43) for
    one connection: read the request, answer nothing to an empty one,
    otherwise route it, load the routed file and format the response. The
    socket is gone: the decoded lines are the input and the bytes that
    would be written are the result. */
module Connection {
  import opened Wrappers
  import opened Utf8
  import opened Request
  import opened Router
  import opened Response

  /** The file store `fs::read_to_string` reads from, by file name. */
  type FileStore = map<string, seq<byte>>

  /** A connection-scoped failure: the routed file could not be loaded. */
  datatype ConnectionError = ResourceUnavailable(filename: string)

  /** The bytes written back on one connection, or the failure that ends it. */
  function HandleConnection(lines: seq<Option<string>>, files: FileStore): (r: Result<seq<byte>, ConnectionError>)
    ensures ReadRequest(lines) == [] ==> r == Ok([])
    ensures r.Err? <==> ReadRequest(lines) != [] && ParseRequest(ReadRequest(lines)).filename !in files
    ensures r.Err? ==> r.error == ResourceUnavailable(ParseRequest(ReadRequest(lines)).filename)
    ensures r.Ok? && ReadRequest(lines) != [] ==>
      var route := ParseRequest(ReadRequest(lines));
      route.filename in files &&
      |r.value| > |files[route.filename]| &&
      r.value[|r.value| - |files[route.filename]|..] == files[route.filename]
  {
    var request := ReadRequest(lines);
    if request == [] then Ok([])
    else
      var route := ParseRequest(request);
      if route.filename !in files then Err(ResourceUnavailable(route.filename))
      else Ok(FormatResponse(route.statusLine, files[route.filename]))
  }

  /** What the client reads from a non-empty answer: the routed status line,
      a `Content-Length` equal to the length of the body, and as the body
      exactly the routed file. */
  lemma HandleConnectionFramesFile(lines: seq<Option<string>>, files: FileStore)
    ensures var r := HandleConnection(lines, files);
      r.Ok? && ReadRequest(lines) != [] ==>
        var route := ParseRequest(ReadRequest(lines));
        route.filename in files &&
        ParseResponse(r.value) ==
          Some(Message(Encode(route.statusLine), |files[route.filename]|, files[route.filename]))
  {
    var request := ReadRequest(lines);
    if request != [] {
      var route := ParseRequest(request);
      if route.filename in files {
        ResponseRoundTrip(route.statusLine, files[route.filename]);
      }
    }
  }

  /** An answer is written exactly when the request is non-empty and the
      routed file is present; an empty answer means an empty request. */
  lemma HandleConnectionWrites(lines: seq<Option<string>>, files: FileStore)
    ensures var r := HandleConnection(lines, files);
      r.Ok? && r.value != [] <==>
        ReadRequest(lines) != [] && ParseRequest(ReadRequest(lines)).filename in files
  {
  }

  /** Only the request line matters: two connections whose requests are
      non-empty and start with the same line get the same answer, whatever
      header lines follow. */
  lemma HandleConnectionIgnoresHeaders(l1: seq<Option<string>>, l2: seq<Option<string>>, files: FileStore)
    requires ReadRequest(l1) != [] && ReadRequest(l2) != []
    requires ReadRequest(l1)[0] == ReadRequest(l2)[0]
    ensures HandleConnection(l1, files) == HandleConnection(l2, files)
  {
  }
}

/** End-to-end exchanges on concrete requests: every line decoded, and a
    store holding both pages. */
module Exchanges {
  import opened Wrappers
  import opened Utf8
  import Decimal
  import opened Request
  import opened Router
  import opened Response
  import opened Connection

  // The pages are spelled as byte lists rather than as `Encode` of string
  // literals: a literal handed to the recursive `Encode` is unfolded
  // character by character, which is far more costly to reason about.

  /** The bytes of "<html>ok</html>". */
  const OkPage: seq<byte> :=
    [0x3C, 0x68, 0x74, 0x6D, 0x6C, 0x3E, 0x6F, 0x6B, 0x3C, 0x2F, 0x68, 0x74, 0x6D, 0x6C, 0x3E]
  /** The bytes of "<html>no</html>". */
  const MissingPage: seq<byte> :=
    [0x3C, 0x68, 0x74, 0x6D, 0x6C, 0x3E, 0x6E, 0x6F, 0x3C, 0x2F, 0x68, 0x74, 0x6D, 0x6C, 0x3E]

  /** The bytes of "<html><body><h1>Hello</h1></body></html>", the index page
      of the integration test at src/tests.rs:78. */
  const HelloPage: seq<byte> :=
    [0x3C, 0x68, 0x74, 0x6D, 0x6C, 0x3E, 0x3C, 0x62, 0x6F, 0x64, 0x79, 0x3E, 0x3C, 0x68, 0x31, 0x3E,
     0x48, 0x65, 0x6C, 0x6C, 0x6F, 0x3C, 0x2F, 0x68, 0x31, 0x3E, 0x3C, 0x2F, 0x62, 0x6F, 0x64, 0x79,
     0x3E, 0x3C, 0x2F, 0x68, 0x74, 0x6D, 0x6C, 0x3E]
  /** The bytes of "<html><body><h1>404 Not Found</h1></body></html>", the
      not-found page of the integration test at src/tests.rs:79. */
  const NotFoundPage: seq<byte> :=
    [0x3C, 0x68, 0x74, 0x6D, 0x6C, 0x3E, 0x3C, 0x62, 0x6F, 0x64, 0x79, 0x3E, 0x3C, 0x68, 0x31, 0x3E,
     0x34, 0x30, 0x34, 0x20, 0x4E, 0x6F, 0x74, 0x20, 0x46, 0x6F, 0x75, 0x6E, 0x64, 0x3C, 0x2F, 0x68,
     0x31, 0x3E, 0x3C, 0x2F, 0x62, 0x6F, 0x64, 0x79, 0x3E, 0x3C, 0x2F, 0x68, 0x74, 0x6D, 0x6C, 0x3E]
  /** The bytes of "200 OK". */
  const OkWords: seq<byte> := [0x32, 0x30, 0x30, 0x20, 0x4F, 0x4B]

  /** A store holding both fifteen-byte pages. */
  function Store(): FileStore {
    map[IndexFile := OkPage, NotFoundFile := MissingPage]
  }

  /** Fifteen is written "15". */
  lemma RenderFifteen()
    ensures Decimal.Render(15) == "15"
  {
  }

  /** `GET / HTTP/1.1`, a header line and the blank line get the index page
      behind a 200 status line, whatever the header and the pages hold. */
  lemma RootExchange(header: string, index: seq<byte>, notFound: seq<byte>)
    requires header != ""
    ensures HandleConnection([Some("GET / HTTP/1.1"), Some(header), Some("")],
                             map[IndexFile := index, NotFoundFile := notFound]) ==
      Ok(Encode("HTTP/1.1 200 OK" + "\r\n" + "Content-Length: " + Decimal.Render(|index|) + "\r\n\r\n") + index)
  {
    RootIsRouted(header, index, notFound);
    FormatResponseText(OkStatusLine, index);
  }

  /** The root request is routed to the index page. */
  lemma RootIsRouted(header: string, index: seq<byte>, notFound: seq<byte>)
    requires header != ""
    ensures HandleConnection([Some("GET / HTTP/1.1"), Some(header), Some("")],
                             map[IndexFile := index, NotFoundFile := notFound]) ==
      Ok(FormatResponse(OkStatusLine, index))
  {
    var lines := [Some("GET / HTTP/1.1"), Some(header), Some("")];
    assert lines == [Some("GET / HTTP/1.1"), Some(header)] + [Some("")] + [];
    ReadRequestStopsAtBlankLine([Some("GET / HTTP/1.1"), Some(header)], []);
    assert DecodedLines([Some("GET / HTTP/1.1"), Some(header)]) == ["GET / HTTP/1.1", header];
  }

  /** `GET /missing HTTP/1.1` and the blank line get the not-found page
      behind a 404 status line, whatever the pages hold. */
  lemma MissingExchange(index: seq<byte>, notFound: seq<byte>)
    ensures HandleConnection([Some("GET /missing HTTP/1.1"), Some("")],
                             map[IndexFile := index, NotFoundFile := notFound]) ==
      Ok(Encode("HTTP/1.1 404 NOT FOUND" + "\r\n" + "Content-Length: " + Decimal.Render(|notFound|) + "\r\n\r\n") + notFound)
  {
    MissingIsRouted(index, notFound);
    FormatResponseText(NotFoundStatusLine, notFound);
  }

  /** Any other request line is routed to the not-found page. */
  lemma MissingIsRouted(index: seq<byte>, notFound: seq<byte>)
    ensures HandleConnection([Some("GET /missing HTTP/1.1"), Some("")],
                             map[IndexFile := index, NotFoundFile := notFound]) ==
      Ok(FormatResponse(NotFoundStatusLine, notFound))
  {
    var lines := [Some("GET /missing HTTP/1.1"), Some("")];
    var files := map[IndexFile := index, NotFoundFile := notFound];
    assert files[NotFoundFile] == notFound;
    assert lines == [Some("GET /missing HTTP/1.1")] + [Some("")] + [];
    ReadRequestStopsAtBlankLine([Some("GET /missing HTTP/1.1")], []);
    assert "GET /missing HTTP/1.1"[5] != RootRequestLine[5];
  }

  /** The index exchange with the fifteen-byte page announces a length of 15. */
  lemma RootExchangeWithPages()
    ensures HandleConnection([Some("GET / HTTP/1.1"), Some("Host: x"), Some("")], Store()) ==
      Ok(Encode("HTTP/1.1 200 OK" + "\r\n" + "Content-Length: " + "15" + "\r\n\r\n") + OkPage)
  {
    RootExchange("Host: x", OkPage, MissingPage);
    RenderFifteen();
  }

  /** The not-found exchange with the fifteen-byte page announces a length of 15. */
  lemma MissingExchangeWithPages()
    ensures HandleConnection([Some("GET /missing HTTP/1.1"), Some("")], Store()) ==
      Ok(Encode("HTTP/1.1 404 NOT FOUND" + "\r\n" + "Content-Length: " + "15" + "\r\n\r\n") + MissingPage)
  {
    MissingExchange(OkPage, MissingPage);
    RenderFifteen();
  }

  /** The exchange of the integration test (src/tests.rs:75-109): the request
      `GET / HTTP/1.1`, `Host: localhost` and the blank line, against a store
      holding its two pages, gets a response that contains "200 OK" and ends
      with the whole index page. */
  lemma IntegrationExchange()
    ensures var r := HandleConnection([Some("GET / HTTP/1.1"), Some("Host: localhost"), Some("")],
                                      map[IndexFile := HelloPage, NotFoundFile := NotFoundPage]);
      r.Ok? && OccursAt(r.value, OkWords, 9) &&
      |r.value| > |HelloPage| && r.value[|r.value| - |HelloPage|..] == HelloPage
  {
    RootResponseContents("Host: localhost", HelloPage, NotFoundPage);
  }

  /** The answer to the root request contains "200 OK" and ends with the
      whole index page. */
  lemma RootResponseContents(header: string, index: seq<byte>, notFound: seq<byte>)
    requires header != ""
    ensures var r := HandleConnection([Some("GET / HTTP/1.1"), Some(header), Some("")],
                                      map[IndexFile := index, NotFoundFile := notFound]);
      r.Ok? && OccursAt(r.value, OkWords, 9) &&
      |r.value| > |index| && r.value[|r.value| - |index|..] == index
  {
    RootIsRouted(header, index, notFound);
    OkStatusContainsOkWords(index);
  }

  /** A 200 response carries "200 OK" at offset 9, after "HTTP/1.1 ". */
  lemma OkStatusContainsOkWords(contents: seq<byte>)
    ensures OccursAt(FormatResponse(OkStatusLine, contents), OkWords, 9)
  {
    assert IsAscii(OkStatusLine);
    assert forall i :: 0 <= i < 6 ==> OkWords[i] as int == OkStatusLine[9 + i] as int;
    StatusBytesAt(OkStatusLine, contents, 9, OkWords);
  }

  /** Bytes that spell part of an ASCII status line occur in the response
      at the same offset. */
  lemma StatusBytesAt(statusLine: string, contents: seq<byte>, k: nat, words: seq<byte>)
    requires IsAscii(statusLine) && k + |words| <= |statusLine|
    requires forall i :: 0 <= i < |words| ==> words[i] as int == statusLine[k + i] as int
    ensures OccursAt(FormatResponse(statusLine, contents), words, k)
  {
    var r := FormatResponse(statusLine, contents);
    var e := Encode(statusLine);
    assert e <= r;
    assert r[k..k + |words|] == words by {
      forall i | 0 <= i < |words|
        ensures r[k..k + |words|][i] == words[i]
      {
        assert r[k + i] == e[k + i];
      }
    }
  }

  /** A request whose file is missing from the store gets no bytes at all. */
  lemma MissingFileExchange()
    ensures HandleConnection([Some("GET / HTTP/1.1"), Some("")], map[]) ==
      Err(ResourceUnavailable("hello.html"))
  {
  }

  /** A client that closes without sending anything gets nothing back. */
  lemma SilentExchange()
    ensures HandleConnection([], Store()) == Ok([])
    ensures HandleConnection([Some("")], Store()) == Ok([])
  {
  }
}
