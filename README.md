# HTTP/1.1 message layer of a minimal web server, in Dafny

This project models the message layer of a small HTTP/1.1 server written in Java
(`src/main/java/Main.java`) and proves properties of that model. It covers:

- **the typed header store** (`class Headers`). `addHeader` splits a line at its first
  colon and trims both sides. It stores an integer when the value is all digits, a set
  of trimmed tokens when the value holds a comma, and the string otherwise. The first
  line that names a header wins. The typed getters cast, and they throw on a value of
  the wrong kind. The setters overwrite, and `getHeadersAsList` renders one
  `Name: value` line per entry.
- **the request parser** (the `HttpRequest` constructor). It splits the text on CRLF.
  The request line is split on spaces, and the method is upper-cased. Header lines are
  fed to the store up to the first empty line. When Content-Length is positive, the body
  is that many characters taken from the end of the buffer.
- **the response builder and writer** (`HttpResponseBuilder`, `HttpResponse`). The
  status table falls back to "501 Not Implemented". `build` forces Content-Length to the
  body length. `toBytes` writes the status line, the header lines, a blank line and then
  the body, which is the message layout of section 3 of RFC 7230.
- **the route decision** (the `Response` constructor). It covers `/echo/`,
  `/user-agent`, `/files/`, `/`, 404, 201 for POST and 501 for other methods, with the
  gzip placeholder swapped in when gzip is accepted.

Modules:

- `Exceptions`: `Option`, `Result` and the Java exceptions that escape.
- `Text`: String.trim, String.split with Java's rules, decimal conversion and
  toUpperCase.
- `HeaderStore` and `HeaderProperties`: the store and its lemmas.
- `RequestParser` and `RequestProperties`: the parser and its lemmas.
- `Responses`: the status table, framing and unframing, `HttpResponse` and
  `HttpResponseBuilder`.
- `Routing`: the route decision and the `Response` constructor.
- `WireRoundTrip`: what a response looks like to a reader on the wire.

Modelling choices:

- Text is a `seq<char>`. Every character is taken to be ASCII, so the UTF-8 and
  default-charset conversions are the identity, and the body read from the byte buffer
  is a suffix of the same character sequence.
- A Java exception is a `Thrown(e)` result. The exceptions are:
  - `NumberFormat`: Integer.parseInt on a value above 2147483647;
  - `ClassCast`: a typed getter applied to a value of the wrong kind;
  - `IndexOutOfBounds`: a request line with fewer than three tokens, no line at all, or
    Content-Length beyond the buffer;
  - `NullPointer`: a `/files/` request with no directory configured;
  - `InvalidPath`: a `/files/` name that `Path.resolve` rejects (InvalidPathException).
- `Headers` and `HttpResponseBuilder` are Dafny classes whose methods update their
  fields. `HttpResponse` is a class whose fields are constants, as its Java fields are
  final. The request is an immutable datatype, and its constructor is the method
  `ParseRequest`, proved equal to the function `Parse`.
- HashMap and HashSet iteration orders are not fixed by the code.
  - `HeadersAsList` picks the next key nondeterministically and returns the order it
    chose as a ghost result. Its contract (`ListsHeaders`) holds for every order.
  - A set value is rendered as `[` followed by its elements in some order, separated by
    `, `, and then `]`.
- The file system is a parameter. It is a function from the directory and the trimmed
  file name to `Missing`, `Content(text)`, `Unreadable` or `Invalid`. This stands for
  `Path.resolve`, `Files.exists` and `Files.readAllBytes` together.

One might expect a value listed by getHeadersAsList to be read back by addHeader as
the same value. That holds for integers from 0 to 2147483647 and for trimmed strings
that are not all digits and contain no comma (`HeaderProperties.HeaderLineRoundTrip`,
`WireRoundTrip.ListingReparsed`). Those cover every value a routed response lists:
text/plain, gzip and a body length up to 2147483647
(`WireRoundTrip.RoutedHeadersWellFormed`). Other values change: the string "7" comes
back as the integer 7, "a, b" as a set, " x" as "x", and the integer -1 as the string
"-1". Nor does it hold for sets: `{"a", "b"}` renders as `[a, b]`, which addHeader reads back as
`{"[a", "b]"}`. The same happens to every two-element set
(`HeaderProperties.SetRenderingNotReparsed`).

A lone `Accept-Encoding: gzip` is stored as a string, so gzip is not accepted for it.
Only a comma-separated list that contains `gzip` is, and `gzip,` with a trailing
comma counts as one, because split drops the empty item at the end. The model keeps
this behaviour (`HeaderProperties.LoneGzipStoredAsString`,
`HeaderProperties.GzipAcceptedOfLine`, `HeaderProperties.GzipTrailingCommaAccepted`).

## Model

| member | source | states |
|---|---|---|
| Text.Trim | src/main/java/Main.java:24-25 | String.trim: the result starts and ends with a char above ' ' (or is empty) and is no longer than the input |
| Text.TrimPadded | src/main/java/Main.java:24-25 | trimming removes exactly the whitespace padding around a trimmed core |
| Text.TrimNoop | src/main/java/Main.java:193 | trimming an already trimmed line changes nothing |
| Text.DecimalRoundTrip | src/main/java/Main.java:28-29 | Integer.toString of n >= 0 is all digits and Integer.parseInt reads it back as n |
| Text.ToUpper | src/main/java/Main.java:187 | toUpperCase keeps the length, leaves no lowercase letter, changes only lowercase letters, each by the case offset |
| Text.IndexFrom | src/main/java/Main.java:21 | the index found is an occurrence of the separator, and no earlier one exists; none means no occurrence at all |
| Text.Fields | src/main/java/Main.java:184 | the pieces between separators join back to the text, and no piece contains the separator |
| Text.DropTrailingEmpty | src/main/java/Main.java:31 | String.split drops trailing empty strings: the result is a prefix, its last item is non-empty, everything dropped is empty |
| Text.Split | src/main/java/Main.java:31 | String.split on a literal separator; specified by `Text.SplitOfJoin` and `HeaderProperties.InferList` (a join re-splits into its items, trailing empty items dropped) and `WireRoundTrip.ThreeTokens` |
| Text.SplitAtFirst | src/main/java/Main.java:21-22 | split(":", 2) gives two parts exactly when the line has a colon, and the first part has none |
| Text.SplitAtFirstOf | src/main/java/Main.java:21-25 | a colon-free name, a colon and a rest split into that name and that rest |
| Text.FieldsOfJoin | src/main/java/Main.java:31 | splitting a join of separator-free items on that separator gives the items back |
| Text.SplitOfJoin | src/main/java/Main.java:186 | String.split of a join whose last item is non-empty gives the items back |
| HeaderStore.Infer | src/main/java/Main.java:27-36 | the value a new header is stored as; specified by `HeaderProperties.InferThrowsOnOverflowOnly`, `InferDecimal`, `InferIntOnlyFromDigits`, `InferSetShape`, `InferList` and `InferString` |
| HeaderStore.AddLine | src/main/java/Main.java:20-40 | addHeader on the map; specified by `HeaderProperties.NoColonIgnored`, `FirstWriteWins`, `NewNameBound` and `AddLineMonotone` |
| HeaderStore.UserAgent | src/main/java/Main.java:42-44 | getUserAgent; specified by `HeaderProperties.UserAgentOfLine` and `StoredUserAgent` ("" when absent, ClassCast for a non-string) |
| HeaderStore.ContentLength | src/main/java/Main.java:46-48 | getContentLength; specified by `HeaderProperties.ContentLengthOfLine` and `StoredContentLength` (0 when absent, ClassCast for a non-integer) |
| HeaderStore.IsGzipAccepted | src/main/java/Main.java:50-53 | isGzipAccepted; specified by `HeaderProperties.GzipAcceptedOfLine`, `LoneGzipStoredAsString` and `GzipTrailingCommaAccepted` |
| HeaderStore.IsContentEncodingGzip | src/main/java/Main.java:74-76 | isContentEncodingGzip; `HeaderStore.Headers.SetContentEncodingGzip` makes it hold |
| HeaderStore.Headers.constructor | src/main/java/Main.java:18 | a new store is empty |
| HeaderStore.Headers.AddHeader | src/main/java/Main.java:20-40 | the store becomes AddLine of the line, or stays as it was when the inference throws; existing entries are never changed |
| HeaderStore.Headers.SetContentLength | src/main/java/Main.java:55-58 | Content-Length is overwritten with the integer, every other key untouched, and getContentLength returns it |
| HeaderStore.Headers.SetContentType | src/main/java/Main.java:60-63 | Content-Type is overwritten with the string, every other key untouched |
| HeaderStore.Headers.SetContentEncoding | src/main/java/Main.java:65-68 | Content-Encoding is overwritten with the string, every other key untouched |
| HeaderStore.Headers.SetContentEncodingGzip | src/main/java/Main.java:70-76 | Content-Encoding becomes "gzip" and isContentEncodingGzip then holds |
| HeaderStore.Headers.HeadersAsList | src/main/java/Main.java:78-81 | one "name: value" line per entry, each key exactly once, in some order |
| HeaderStore.ValueToString | src/main/java/Main.java:80 | an integer renders in decimal, a string as itself, a set as "[" + its elements once each joined by ", " + "]" |
| HeaderProperties.NoColonIgnored | src/main/java/Main.java:21-22 | a line without a colon leaves the store unchanged |
| HeaderProperties.FirstWriteWins | src/main/java/Main.java:27-39 | a line naming a header already stored leaves the store completely unchanged |
| HeaderProperties.NewNameBound | src/main/java/Main.java:24-36 | a line naming a new header binds the trimmed name to the value inferred from the trimmed rest, or throws NumberFormat |
| HeaderProperties.AddLineMonotone | src/main/java/Main.java:27-39 | addHeader never removes or changes an entry and adds at most one key |
| HeaderProperties.InferThrowsOnOverflowOnly | src/main/java/Main.java:28-29 | inference throws exactly for digit strings above 2147483647, and then NumberFormat |
| HeaderProperties.InferDecimal | src/main/java/Main.java:28-29 | the decimal form of an in-range n is stored as the integer n |
| HeaderProperties.InferIntOnlyFromDigits | src/main/java/Main.java:28-29 | an integer is stored only for an all-digit value, and it is that value's number |
| HeaderProperties.InferSetShape | src/main/java/Main.java:30-33 | a set is stored only for a non-digit value with a comma, and every member is trimmed and comma-free |
| HeaderProperties.InferList | src/main/java/Main.java:30-33 | a comma-join of at least two comma-free items is stored as the set of the trimmed items left once split has dropped the empty items at the end |
| HeaderProperties.TrailingCommaDropped | src/main/java/Main.java:30-33 | a trimmed comma-free x followed by a comma is stored as the one-element set {x} |
| HeaderProperties.GzipTrailingCommaAccepted | src/main/java/Main.java:30-33 | "gzip," is stored as {"gzip"}, so a store holding it accepts gzip |
| HeaderProperties.InferString | src/main/java/Main.java:34-35 | a string is stored exactly when the value is neither all digits nor holds a comma, and it is the value itself |
| HeaderProperties.ContentLengthOfLine | src/main/java/Main.java:46-48 | after a Content-Length line, getContentLength is the number, or throws ClassCast for a non-integer value |
| HeaderProperties.UserAgentOfLine | src/main/java/Main.java:42-44 | after a User-Agent line, getUserAgent is the text, or throws ClassCast for a number or a set |
| HeaderProperties.GzipAcceptedOfLine | src/main/java/Main.java:50-53 | after an Accept-Encoding line, gzip is accepted exactly when the value was stored as a set containing "gzip" |
| HeaderProperties.LoneGzipStoredAsString | src/main/java/Main.java:34-35 | "gzip" alone is stored as a string, so isGzipAccepted is false for it |
| HeaderProperties.GzipListStoredAsSet | src/main/java/Main.java:30-33 | "gzip, deflate" is stored as the set {"gzip", "deflate"} |
| HeaderProperties.InferRendered | src/main/java/Main.java:80 | the rendering of an in-range integer or plain string is inferred back as the same value |
| HeaderProperties.HeaderLineRoundTrip | src/main/java/Main.java:78-81 | a listed "name: value" line fed to addHeader under a new name stores the same integer or string |
| HeaderProperties.SetRenderingNotReparsed | src/main/java/Main.java:80 | a two-element set {x, y} does not round-trip: its rendering "[x, y]" reads back as {"[x", "y]"}, a different set |
| RequestParser.AddAll | src/main/java/Main.java:191-195 | the header loop on the map; specified by `RequestProperties.AddAllKeeps`, `AddAllKeys` and `AddAllFirstLineWins` |
| RequestParser.Parse | src/main/java/Main.java:183-203 | the HttpRequest constructor; specified by `RequestProperties.RequestLineParsed`, `MissingVersionThrows`, `FirstHeaderLineWins`, `BodyIsTail` and `WireRoundTrip.ResponseReparsed`, and computed by `RequestParser.ParseRequest` |
| RequestParser.HeaderEnd | src/main/java/Main.java:191-195 | the header loop stops at the first empty line after the request line, or at the end |
| RequestParser.Body | src/main/java/Main.java:197-202 | copyOfRange throws exactly when Content-Length exceeds the buffer; the body is present exactly when it is positive, and is then the buffer's last Content-Length chars |
| RequestParser.ParseRequest | src/main/java/Main.java:183-203 | the constructor's loop computes exactly Parse, including every exception |
| RequestProperties.AddAllKeeps | src/main/java/Main.java:191-195 | the header loop never changes a header once stored |
| RequestProperties.AddAllKeys | src/main/java/Main.java:191-195 | every header the loop stores was there before or is named by one of the lines |
| RequestProperties.AddAllFirstLineWins | src/main/java/Main.java:191-195 | the first line naming a new header decides its value |
| RequestProperties.HeadersFromHeaderBlock | src/main/java/Main.java:191-195 | every parsed header is named by a line before the first empty line |
| RequestProperties.FirstHeaderLineWins | src/main/java/Main.java:191-195 | the first header-block line naming a header gives it its value in the parsed request |
| RequestProperties.BodyIsTail | src/main/java/Main.java:197-202 | the body is present exactly when Content-Length is positive, and is then the last Content-Length chars of the buffer |
| RequestProperties.BodyLongerThanBufferThrows | src/main/java/Main.java:199 | a Content-Length beyond the buffer makes parsing throw IndexOutOfBounds |
| RequestProperties.FirstLine | src/main/java/Main.java:184 | the first CRLF line of a text is the CR-free text before its first CRLF |
| RequestProperties.RequestLineParsed | src/main/java/Main.java:184-189 | "M P V" gives method toUpperCase(M), path P and version V |
| RequestProperties.MissingVersionThrows | src/main/java/Main.java:186-189 | "M P " has two tokens once the trailing empty one is dropped, so parsing throws |
| Responses.StatusText | src/main/java/Main.java:236-253 | the status table with its 501 default; specified by `Responses.StatusTextNamesCode` and `KnownStatus` |
| Responses.StatusTextNamesCode | src/main/java/Main.java:236-253 | every status text starts with the three digits of the code it announces (the code itself if known, 501 otherwise), then a space and a reason that does not end in a space, and holds no CR |
| Responses.KnownStatus | src/main/java/Main.java:238-244 | each table entry is its three-digit code, a space and a CR-free reason |
| Responses.Frame | src/main/java/Main.java:101-118 | the bytes toBytes writes; specified by `Responses.FrameRoundTrip`, `FrameEndsWithBody` and `WireRoundTrip.LinesOfFrame` |
| Responses.FrameRoundTrip | src/main/java/Main.java:101-118 | reading back what toBytes writes gives the status, the header lines and the body |
| Responses.FrameEndsWithBody | src/main/java/Main.java:107-117 | the output ends with CRLF CRLF and then the body, with nothing after it |
| Responses.ListedContentLength | src/main/java/Main.java:266-272 | a listing of a store with Content-Length n holds the line "Content-Length: n" |
| Responses.HttpResponse.constructor | src/main/java/Main.java:90-99 | the response keeps its status, its header store and its body |
| Responses.HttpResponse.ToBytes | src/main/java/Main.java:101-118 | the output is exactly the status line, one line per header in the listing order, a blank line and the body |
| Responses.Concat | src/main/java/Main.java:111-114 | the two array copies give the header bytes followed by the body bytes |
| Responses.HttpResponseBuilder.constructor | src/main/java/Main.java:247-249 | a new builder has an empty fresh store, no body and the unset (null) status line |
| Responses.HttpResponseBuilder.SetStatus | src/main/java/Main.java:251-254 | the status line becomes the table text for the code, 501's for an unknown code |
| Responses.HttpResponseBuilder.SetBody | src/main/java/Main.java:256-259 | the body is set, nothing else changes |
| Responses.HttpResponseBuilder.SetHeaders | src/main/java/Main.java:261-264 | the header store is replaced, nothing else changes |
| Responses.HttpResponseBuilder.Build | src/main/java/Main.java:266-273 | Content-Length is overwritten with the body length (0 without a body), all else kept; the response gets this status, store and body |
| Routing.Handle | src/main/java/Main.java:130-156 | the status and body the Response constructor picks; specified through `Routing.Route` and the route lemmas below |
| Routing.Route | src/main/java/Main.java:125-166 | only GET can throw; codes are 200/201/404/500/501; only a GET 200 has a body; Content-Type is text/plain; Content-Encoding gzip appears exactly with a body and gzip accepted, and then the body is the placeholder |
| Routing.NewResponse | src/main/java/Main.java:125-167 | the constructor's builder holds the routed status text, headers and body, or the constructor throws the routed exception |
| Routing.Respond | src/main/java/Main.java:169-171 | the bytes are the framing of the routed status, the listing of the built headers and the body |
| Routing.OtherMethodNotImplemented | src/main/java/Main.java:154-156 | a method other than GET and POST gets 501 without a body |
| Routing.PostCreated | src/main/java/Main.java:152-153 | POST gets 201 without a body, whatever the path |
| Routing.EchoRoute | src/main/java/Main.java:131-132 | GET /echo/x answers 200 with trim(x), or the placeholder with Content-Encoding gzip |
| Routing.UserAgentRoute | src/main/java/Main.java:133-134 | GET /user-agent answers 200 with the User-Agent text, or with the placeholder and Content-Encoding gzip when gzip is accepted, or throws ClassCast |
| Routing.FilesRoute | src/main/java/Main.java:135-163 | GET /files/: a null directory or a name Path.resolve rejects throws; missing gives 404, unreadable 500, both bodiless; readable gives 200 with the text, or with the placeholder and Content-Encoding gzip when gzip is accepted |
| Routing.RootAndUnknownRoutes | src/main/java/Main.java:149-151 | GET "" or "/" gives 200 without a body, any other unmatched path 404 |
| Routing.EchoAbc | src/main/java/Main.java:131-132 | GET /echo/abc answers 200 with body "abc" |
| Routing.FileHi | src/main/java/Main.java:135-141 | a file holding "hi" is served with status 200, body "hi" and Content-Length 2 |
| Routing.FileMissing | src/main/java/Main.java:146-148 | a missing file gives 404 without a body and Content-Length 0 |
| WireRoundTrip.ListingPlain | src/main/java/Main.java:78-81 | every listed line of a well-formed store is non-empty, trimmed and CR-free |
| WireRoundTrip.ListingReparsed | src/main/java/Main.java:191-195 | the request parser's header loop, run over the listing of a well-formed store, rebuilds that store |
| WireRoundTrip.LinesOfFrame | src/main/java/Main.java:184-195 | the CRLF lines of a response are its status line, its header lines and an empty line, so its header section is exactly its header lines |
| WireRoundTrip.ThreeTokens | src/main/java/Main.java:186-189 | "a b c" with space-free a and b splits into at least three tokens starting a, b |
| WireRoundTrip.StatusLineTokens | src/main/java/Main.java:103 | a status line whose text names code c, read as a request line, has tokens "HTTP/1.1", the digits of c, and more |
| WireRoundTrip.ResponseReparsed | src/main/java/Main.java:101-118 | a response written from a well-formed store whose Content-Length is the body length is parsed by the request parser with path the code, headers the store, and body the response body (absent when empty) |
| WireRoundTrip.ResponseOnTheWire | src/main/java/Main.java:101-118 | a response whose store holds text/plain and the body length unframes to its status, lines and body, lists both lines, and re-parses to that store and body |
| WireRoundTrip.RoutedHeadersWellFormed | src/main/java/Main.java:127 | a routed response's built headers are plain names with integer or plain string values |
| WireRoundTrip.RoutedResponseOnTheWire | src/main/java/Main.java:158-171 | a routed response unframes to its status, lines and body; it lists Content-Type text/plain and the body length; re-parsed, it yields the built headers and the body |

## Left out

- `SimpleWebServer` (Main.java:277-324) is not part of this model. It holds the
  listening socket, the cached thread pool, the accept loop, the single read into an
  8192-byte buffer and the closing of connections, all of which are I/O and
  concurrency. The parser takes whatever text it is given. The server hands it the
  whole 8192-byte buffer, including the zero bytes after what was read. `Body` then
  takes Content-Length chars from the end of the text it receives, exactly as the
  constructor does.
- `CommandLineArgs` and `main` parse arguments through the JCommander library, a
  foreign call. The directory reaches the model as an `Option<string>` parameter.
- The file system (`Path.resolve`, `Files.exists`, `Files.readAllBytes`) is a function
  parameter. Which names `Path.resolve` rejects is left to that function. Path resolution, such as an absolute or `..` name escaping the directory,
  is part of that function and is not modelled.
- Character encoding is not modelled: text is taken to be ASCII.
  - UTF-8 decoding of the request and of file contents, the default charset used for
    a gzip body, and `length()` counted in UTF-16 units all become the identity on
    chars.
  - Binary files, which Java's UTF-8 decoding corrupts, are therefore not
    represented.
- `Text.ToUpper`: does not model locale-dependent or non-ASCII case mapping, because only ASCII text is modelled.
- The iteration orders of `HashMap` and `HashSet` are left open. Every listing order is
  allowed rather than Java's hash order.
- The `System.err` diagnostics (duplicate header, file read failure) are not modelled.
  They are output only.
- The trivial getters of `HttpRequest` (getMethod, getPath, getVersion, getBody,
  getHeaders) are the datatype's fields. `useGzip` is `IsGzipAccepted` and
  `getUserAgent` is `UserAgent`, both applied to the request's headers.
- The `isContentEncodingGzip` branch in the `HttpResponse` constructor is not modelled.
  Both encodings give the same bytes for ASCII text, so the constructor keeps the body
  as it is.
- `Integer.parseInt` also accepts a leading sign. The store never sees one, because
  only all-digit values are parsed.
