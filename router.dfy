/** The router (`parse_request`, src/main.rs:18-26): it looks at the first
    request line only and picks one of two (status line, file name) pairs. */
module Router {

  const RootRequestLine := "GET / HTTP/1.1"
  const OkStatusLine := "HTTP/1.1 200 OK"
  const IndexFile := "hello.html"
  const NotFoundStatusLine := "HTTP/1.1 404 NOT FOUND"
  const NotFoundFile := "404.html"

  /** A routing decision: the status line to send and the file to serve. */
  datatype Route = Route(statusLine: string, filename: string)

  const Found := Route(OkStatusLine, IndexFile)
  const NotFound := Route(NotFoundStatusLine, NotFoundFile)

  /** Routes a non-empty request by an exact, case-sensitive comparison of
      its first line with `GET / HTTP/1.1`. */
  function ParseRequest(request: seq<string>): (route: Route)
    requires |request| > 0
    ensures route == Found <==> request[0] == RootRequestLine
    ensures route == NotFound <==> request[0] != RootRequestLine
    ensures '\r' !in route.statusLine && '\n' !in route.statusLine
  {
    if request[0] == RootRequestLine then Found else NotFound
  }

  /** Only the first line matters: header lines after it never change
      the decision. */
  lemma RouteIgnoresHeaders(line: string, headers: seq<string>)
    ensures ParseRequest([line] + headers) == ParseRequest([line])
  {
  }

  /** The cases of src/tests.rs:5-61: the root request is found, with or
      without headers after it; other paths and a lower-case method are not. */
  lemma RouterExamples()
    ensures ParseRequest(["GET / HTTP/1.1"]) == Route("HTTP/1.1 200 OK", "hello.html")
    ensures ParseRequest(["GET /other HTTP/1.1"]) == Route("HTTP/1.1 404 NOT FOUND", "404.html")
    ensures ParseRequest(["GET /about HTTP/1.1"]) == NotFound
    ensures ParseRequest(["GET /contact HTTP/1.1"]) == NotFound
    ensures ParseRequest(["GET /random/path HTTP/1.1"]) == NotFound
    ensures ParseRequest(["get / HTTP/1.1"]) == NotFound
    ensures ParseRequest(["GET / HTTP/1.1", "Host: localhost", "User-Agent: Test", "Accept: text/html"]) == Found
  {
  }
}
