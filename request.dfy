/** The request parser (the HttpRequest constructor, Main.java:183-203): the text
    is split into CRLF lines, the first line into method, path and version, the
    lines up to the first empty one go to a header store, and a positive
    Content-Length takes that many chars from the end of the buffer as the body. */
module RequestParser {
  import opened Exceptions
  import opened Text
  import opened HeaderStore

  /** A parsed request; immutable once built. */
  datatype Request = Request(
    verb: string,
    path: string,
    version: string,
    headers: HeaderMap,
    body: Option<string>)

  /** `new String(data).split("\\r\\n")`. */
  function Lines(data: string): seq<string>
  {
    Split(data, CRLF)
  }

  /** The index of the first empty line at or after `i`, or the number of lines. */
  function HeaderEnd(lines: seq<string>, i: nat): (r: nat)
    requires i <= |lines|
    ensures i <= r <= |lines|
    ensures forall j :: i <= j < r ==> lines[j] != ""
    ensures r < |lines| ==> lines[r] == ""
    decreases |lines| - i
  {
    if i < |lines| && lines[i] != "" then HeaderEnd(lines, i + 1) else i
  }

  /** The header lines fed to addHeader in order, each trimmed first; the first
      exception stops the parse. */
  function AddAll(m: HeaderMap, lines: seq<string>): Result<HeaderMap>
    decreases |lines|
  {
    if lines == [] then Ok(m)
    else
      match AddLine(m, Trim(lines[0]))
      case Thrown(e) => Thrown(e)
      case Ok(m') => AddAll(m', lines[1..])
  }

  /** `Arrays.copyOfRange(data, data.length - n, data.length)` when n > 0: the last
      n chars of the buffer, or an exception when the buffer is shorter than n. */
  function Body(data: string, n: int): (r: Result<Option<string>>)
    ensures r.Thrown? <==> n > |data|
    ensures r.Thrown? ==> r.error == IndexOutOfBounds
    ensures r.Ok? ==> (r.value.Some? <==> n > 0)
    ensures r.Ok? && r.value.Some? ==>
              |r.value.value| == n && data == data[..|data| - n] + r.value.value
  {
    if n <= 0 then Ok(None)
    else if n <= |data| then Ok(Some(data[|data| - n..]))
    else Thrown(IndexOutOfBounds)
  }

  /** The HttpRequest constructor as a function of the received text. */
  function Parse(data: string): Result<Request>
  {
    var lines := Lines(data);
    if |lines| == 0 then Thrown(IndexOutOfBounds)
    else
      var tokens := Split(lines[0], " ");
      if |tokens| < 3 then Thrown(IndexOutOfBounds)
      else
        match AddAll(map[], lines[1..HeaderEnd(lines, 1)])
        case Thrown(e) => Thrown(e)
        case Ok(h) =>
          match ContentLength(h)
          case Thrown(e) => Thrown(e)
          case Ok(n) =>
            match Body(data, n)
            case Thrown(e) => Thrown(e)
            case Ok(b) => Ok(Request(ToUpper(tokens[0]), tokens[1], tokens[2], h, b))
  }

  /** One turn of the header loop: the line at `i` is added, then the rest. */
  lemma AddAllStep(m: HeaderMap, lines: seq<string>, i: nat, end: nat)
    requires i < end <= |lines|
    ensures AddAll(m, lines[i..end]) ==
              match AddLine(m, Trim(lines[i]))
              case Thrown(e) => Thrown(e)
              case Ok(m') => AddAll(m', lines[i + 1..end])
  {
    assert lines[i..end][0] == lines[i];
    assert lines[i..end][1..] == lines[i + 1..end];
  }

  /** The constructor's own steps: the request line, then the header loop over
      index i, then the body. */
  method ParseRequest(data: string) returns (r: Result<Request>)
    ensures r == Parse(data)
  {
    var lines := Split(data, CRLF);
    if |lines| == 0 {
      return Thrown(IndexOutOfBounds);
    }
    var requestLine := Split(lines[0], " ");
    if |requestLine| < 3 {
      return Thrown(IndexOutOfBounds);
    }
    var verb, path, version := ToUpper(requestLine[0]), requestLine[1], requestLine[2];

    var headers := new Headers();
    ghost var end := HeaderEnd(lines, 1);
    var i := 1;
    while i < |lines| && lines[i] != ""
      invariant 1 <= i <= end
      invariant AddAll(headers.entries, lines[i..end]) == AddAll(map[], lines[1..end])
    {
      AddAllStep(headers.entries, lines, i, end);
      var outcome := headers.AddHeader(Trim(lines[i]));
      if outcome.Raised? {
        return Thrown(outcome.error);
      }
      i := i + 1;
    }
    assert lines[i..end] == [];

    var contentLength := ContentLength(headers.entries);
    if contentLength.Thrown? {
      return Thrown(contentLength.error);
    }
    var n := contentLength.value;
    var body := None;
    if n > 0 {
      if n > |data| {
        return Thrown(IndexOutOfBounds);
      }
      body := Some(data[|data| - n..]);
    }
    r := Ok(Request(verb, path, version, headers.entries, body));
  }
}
