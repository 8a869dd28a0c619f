/** The route decision of class Response (Main.java:122-172): from the request's
    method, path and headers, the configured directory and the file system, the
    status, the response headers and the body; then the response is built and
    written out. */
module Routing {
  import opened Exceptions
  import opened Text
  import opened HeaderStore
  import opened RequestParser
  import opened Responses

  /** What the file system answers for a name resolved against the directory:
      Files.exists false, the file's text, an IOException from readAllBytes, or
      an InvalidPathException from Path.resolve (a name such as one holding NUL). */
  datatype FileLookup = Missing | Content(text: string) | Unreadable | Invalid

  /** The file system, as a function of the directory and the trimmed file name
      (Path.resolve, Files.exists and Files.readAllBytes together). */
  type FileSystem = (string, string) -> FileLookup

  /** A routed response before Build: status code, headers, optional body. */
  datatype Decision = Decision(code: int, headers: HeaderMap, body: Option<string>)

  /** The stand-in that replaces a body when the client accepts gzip. */
  const Placeholder: string := "gzipped-body"

  /** `new Headers().setContentType("text/plain")`. */
  const PlainText: HeaderMap := map["Content-Type" := HStr("text/plain")]

  /** The handler's choice of status code and body, or the exception it throws. */
  function Handle(req: Request, dir: Option<string>, files: FileSystem): Result<(int, Option<string>)>
  {
    if req.verb == "GET" then
      if StartsWith(req.path, "/echo/") then Ok((200, Some(Trim(req.path[6..]))))
      else if StartsWith(req.path, "/user-agent") then
        match UserAgent(req.headers)
        case Thrown(e) => Thrown(e)
        case Ok(agent) => Ok((200, Some(agent)))
      else if StartsWith(req.path, "/files/") then
        if dir.None? then Thrown(NullPointer)
        else
          match files(dir.value, Trim(req.path[7..]))
          case Missing => Ok((404, None))
          case Unreadable => Ok((500, None))
          case Content(text) => Ok((200, Some(text)))
          case Invalid => Thrown(InvalidPath)
      else if req.path == "" || req.path == "/" then Ok((200, None))
      else Ok((404, None))
    else if req.verb == "POST" then Ok((201, None))
    else Ok((501, None))
  }

  /** The Response constructor as a decision: Content-Type is always text/plain,
      and a body is swapped for the placeholder, with Content-Encoding gzip, when
      the request accepts gzip. */
  function Route(req: Request, dir: Option<string>, files: FileSystem): (r: Result<Decision>)
    ensures r.Thrown? ==> req.verb == "GET"
    ensures r.Ok? ==> r.value.code in {200, 201, 404, 500, 501}
    ensures r.Ok? ==> r.value.body.Some? ==> r.value.code == 200 && req.verb == "GET"
    ensures r.Ok? ==> "Content-Type" in r.value.headers && r.value.headers["Content-Type"] == HStr("text/plain")
    ensures r.Ok? ==> forall k :: k in r.value.headers ==> k == "Content-Type" || k == "Content-Encoding"
    ensures r.Ok? ==> ("Content-Encoding" in r.value.headers <==> r.value.body.Some? && IsGzipAccepted(req.headers))
    ensures r.Ok? && "Content-Encoding" in r.value.headers ==>
              IsContentEncodingGzip(r.value.headers) && r.value.body == Some(Placeholder)
  {
    match Handle(req, dir, files)
    case Thrown(e) => Thrown(e)
    case Ok((code, body)) =>
      if body.Some? && IsGzipAccepted(req.headers) then
        Ok(Decision(code, PlainText["Content-Encoding" := HStr("gzip")], Some(Placeholder)))
      else Ok(Decision(code, PlainText, body))
  }

  /** The headers of the built response: the decision's, with Content-Length
      forced to the body length. */
  function Final(d: Decision): HeaderMap
  {
    d.headers["Content-Length" := HInt(BodyLength(d.body))]
  }

  /** The Response constructor: a builder whose status, headers and body are set
      branch by branch, or the exception that escapes it. */
  method NewResponse(dir: Option<string>, req: Request, files: FileSystem)
    returns (r: Result<HttpResponseBuilder>)
    ensures Route(req, dir, files).Thrown? ==> r == Thrown(Route(req, dir, files).error)
    ensures Route(req, dir, files).Ok? ==>
              var d := Route(req, dir, files).value;
              && r.Ok? && fresh(r.value) && fresh(r.value.headers)
              && r.value.statusLine == StatusText(d.code)
              && r.value.headers.entries == d.headers
              && r.value.body == d.body
  {
    var builder := new HttpResponseBuilder();
    builder.SetStatus(200);
    var responseHeaders := new Headers();
    responseHeaders.SetContentType("text/plain");
    var body: Option<string> := None;
    ghost var code := 200;

    if req.verb == "GET" {
      if StartsWith(req.path, "/echo/") {
        body := Some(Trim(req.path[6..]));
      } else if StartsWith(req.path, "/user-agent") {
        var agent := UserAgent(req.headers);
        if agent.Thrown? {
          return Thrown(agent.error);
        }
        body := Some(agent.value);
      } else if StartsWith(req.path, "/files/") {
        if dir.None? {
          return Thrown(NullPointer);
        }
        var found := files(dir.value, Trim(req.path[7..]));
        match found
        case Content(text) => body := Some(text);
        case Unreadable => builder.SetStatus(500); code := 500;
        case Missing => builder.SetStatus(404); code := 404;
        case Invalid => return Thrown(InvalidPath);
      } else if !(req.path == "" || req.path == "/") {
        builder.SetStatus(404);
        code := 404;
      }
    } else if req.verb == "POST" {
      builder.SetStatus(201);
      code := 201;
    } else {
      builder.SetStatus(501);
      code := 501;
    }
    assert Handle(req, dir, files) == Ok((code, body));
    assert builder.statusLine == StatusText(code);

    if body.Some? {
      if IsGzipAccepted(req.headers) {
        body := Some(Placeholder);
        responseHeaders.SetContentEncodingGzip();
      }
      builder.SetBody(body.value);
    }
    builder.SetHeaders(responseHeaders);
    r := Ok(builder);
  }

  /** `new Response(directoryPath, request).toBytes()`: build, then write out. */
  method Respond(dir: Option<string>, req: Request, files: FileSystem)
    returns (r: Result<seq<char>>, ghost lines: seq<string>, ghost order: seq<string>)
    ensures Route(req, dir, files).Thrown? ==> r == Thrown(Route(req, dir, files).error)
    ensures Route(req, dir, files).Ok? ==>
              var d := Route(req, dir, files).value;
              && ListsHeaders(Final(d), order, lines)
              && r == Ok(Frame(StatusText(d.code), lines, d.body))
  {
    lines, order := [], [];
    var created := NewResponse(dir, req, files);
    if created.Thrown? {
      return Thrown(created.error), lines, order;
    }
    var response := created.value.Build();
    var bytes;
    bytes, lines, order := response.ToBytes();
    r := Ok(bytes);
  }

  // ------------------------------------------------------------ the routes

  /** Any method other than GET and POST gets 501 and no body, whatever the path. */
  lemma OtherMethodNotImplemented(req: Request, dir: Option<string>, files: FileSystem)
    requires req.verb != "GET" && req.verb != "POST"
    ensures Route(req, dir, files) == Ok(Decision(501, PlainText, None))
  {
  }

  /** POST gets 201 and no body, whatever the path and the request body. */
  lemma PostCreated(req: Request, dir: Option<string>, files: FileSystem)
    requires req.verb == "POST"
    ensures Route(req, dir, files) == Ok(Decision(201, PlainText, None))
  {
  }

  /** GET /echo/x answers 200 with the trimmed x, or with the placeholder and
      Content-Encoding gzip when the request accepts gzip. */
  lemma EchoRoute(req: Request, dir: Option<string>, files: FileSystem)
    requires req.verb == "GET" && StartsWith(req.path, "/echo/")
    ensures !IsGzipAccepted(req.headers) ==>
              Route(req, dir, files) == Ok(Decision(200, PlainText, Some(Trim(req.path[6..]))))
    ensures IsGzipAccepted(req.headers) ==>
              Route(req, dir, files) ==
                Ok(Decision(200, PlainText["Content-Encoding" := HStr("gzip")], Some(Placeholder)))
  {
  }

  /** GET /user-agent answers 200 with the User-Agent text ("" when absent), or
      with the placeholder and Content-Encoding gzip when the request accepts gzip,
      and throws when that header was stored as a number or a set. */
  lemma UserAgentRoute(req: Request, dir: Option<string>, files: FileSystem)
    requires req.verb == "GET" && StartsWith(req.path, "/user-agent")
    ensures UserAgent(req.headers).Thrown? ==> Route(req, dir, files) == Thrown(ClassCast)
    ensures UserAgent(req.headers).Ok? && !IsGzipAccepted(req.headers) ==>
              Route(req, dir, files) == Ok(Decision(200, PlainText, Some(UserAgent(req.headers).value)))
    ensures UserAgent(req.headers).Ok? && IsGzipAccepted(req.headers) ==>
              Route(req, dir, files) ==
                Ok(Decision(200, PlainText["Content-Encoding" := HStr("gzip")], Some(Placeholder)))
  {
    assert !StartsWith(req.path, "/echo/") by {
      assert req.path[1] == 'u';
    }
  }

  /** GET /files/name: a null directory or a name Path.resolve rejects throws;
      otherwise a missing file gives 404, an unreadable one 500, both without a
      body, and a readable one 200 with its text, or with the placeholder and
      Content-Encoding gzip when the request accepts gzip. */
  lemma FilesRoute(req: Request, dir: Option<string>, files: FileSystem)
    requires req.verb == "GET" && StartsWith(req.path, "/files/")
    ensures dir.None? ==> Route(req, dir, files) == Thrown(NullPointer)
    ensures dir.Some? && files(dir.value, Trim(req.path[7..])) == Missing ==>
              Route(req, dir, files) == Ok(Decision(404, PlainText, None))
    ensures dir.Some? && files(dir.value, Trim(req.path[7..])) == Unreadable ==>
              Route(req, dir, files) == Ok(Decision(500, PlainText, None))
    ensures dir.Some? && files(dir.value, Trim(req.path[7..])) == Invalid ==>
              Route(req, dir, files) == Thrown(InvalidPath)
    ensures dir.Some? && !IsGzipAccepted(req.headers) ==>
              forall text :: files(dir.value, Trim(req.path[7..])) == Content(text) ==>
                Route(req, dir, files) == Ok(Decision(200, PlainText, Some(text)))
    ensures dir.Some? && IsGzipAccepted(req.headers) && files(dir.value, Trim(req.path[7..])).Content? ==>
              Route(req, dir, files) ==
                Ok(Decision(200, PlainText["Content-Encoding" := HStr("gzip")], Some(Placeholder)))
  {
    assert !StartsWith(req.path, "/echo/") && !StartsWith(req.path, "/user-agent") by {
      assert req.path[1] == 'f';
    }
  }

  /** GET on "" or "/" answers 200 without a body; any other path that no route
      claims answers 404. */
  lemma RootAndUnknownRoutes(req: Request, dir: Option<string>, files: FileSystem)
    requires req.verb == "GET"
    requires !StartsWith(req.path, "/echo/") && !StartsWith(req.path, "/user-agent")
    requires !StartsWith(req.path, "/files/")
    ensures req.path == "" || req.path == "/" ==> Route(req, dir, files) == Ok(Decision(200, PlainText, None))
    ensures req.path != "" && req.path != "/" ==> Route(req, dir, files) == Ok(Decision(404, PlainText, None))
  {
  }

  // ------------------------------------------------------------ examples

  /** GET /echo/abc answers 200 with body "abc" (no gzip asked for). */
  lemma EchoAbc(version: string, h: HeaderMap, body: Option<string>, dir: Option<string>, files: FileSystem)
    requires !IsGzipAccepted(h)
    ensures Route(Request("GET", "/echo/abc", version, h, body), dir, files)
            == Ok(Decision(200, PlainText, Some("abc")))
  {
    var req := Request("GET", "/echo/abc", version, h, body);
    assert StartsWith(req.path, "/echo/") && req.path[6..] == "abc";
    TrimNoop("abc");
    EchoRoute(req, dir, files);
  }

  /** GET /files/x.txt, where x.txt holds "hi", answers 200 with body "hi" and,
      once built, Content-Length 2. */
  lemma FileHi(version: string, h: HeaderMap, body: Option<string>, dir: string, files: FileSystem)
    requires !IsGzipAccepted(h) && files(dir, "x.txt") == Content("hi")
    ensures Route(Request("GET", "/files/x.txt", version, h, body), Some(dir), files)
            == Ok(Decision(200, PlainText, Some("hi")))
    ensures Final(Decision(200, PlainText, Some("hi")))["Content-Length"] == HInt(2)
  {
    var req := Request("GET", "/files/x.txt", version, h, body);
    assert StartsWith(req.path, "/files/") && req.path[7..] == "x.txt";
    TrimNoop("x.txt");
    FilesRoute(req, Some(dir), files);
  }

  /** GET /files/missing.txt, where no such file exists, answers 404 without a
      body and, once built, Content-Length 0. */
  lemma FileMissing(version: string, h: HeaderMap, body: Option<string>, dir: string, files: FileSystem)
    requires files(dir, "missing.txt") == Missing
    ensures Route(Request("GET", "/files/missing.txt", version, h, body), Some(dir), files)
            == Ok(Decision(404, PlainText, None))
    ensures Final(Decision(404, PlainText, None))["Content-Length"] == HInt(0)
  {
    var req := Request("GET", "/files/missing.txt", version, h, body);
    assert StartsWith(req.path, "/files/") && req.path[7..] == "missing.txt";
    TrimNoop("missing.txt");
    FilesRoute(req, Some(dir), files);
  }
}
