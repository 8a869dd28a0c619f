/** The response side of the message layer: the status table and builder
    (HttpResponseBuilder, Main.java:234-274) and the wire framing of HttpResponse
    (Main.java:84-119), with a reader that takes a framed response apart again. */
module Responses {
  import opened Exceptions
  import opened Text
  import opened HeaderStore

  /** The STATUSES table. */
  const Statuses: map<int, string> := map[
    200 := "200 OK",
    201 := "201 Created",
    404 := "404 Not Found",
    500 := "500 Internal Server Error",
    501 := "501 Not Implemented"]

  /** STATUSES.getOrDefault(code, STATUSES.get(501)): unknown codes read as 501. */
  function StatusText(code: int): string
  {
    if code in Statuses then Statuses[code] else Statuses[501]
  }

  /** The code a status text announces: the known code itself, 501 for any other. */
  function Announced(code: int): int
  {
    if code in Statuses then code else 501
  }

  /** `text` announces `code`: its three digits, a space and a reason phrase that
      does not end in a space, with no CR anywhere. */
  predicate NamesCode(code: nat, text: string)
  {
    && |text| > 4
    && text[..3] == Decimal(code)
    && ' ' !in text[..3]
    && text[3] == ' '
    && text[|text| - 1] != ' '
    && '\r' !in text
  }

  /** A status text is the announced code in three digits, a space and a reason
      phrase, with no CR in it. */
  lemma StatusTextNamesCode(code: int)
    ensures Announced(code) >= 0 && NamesCode(Announced(code), StatusText(code))
  {
    var shown := Announced(code);
    assert StatusText(code) == Statuses[shown];
    KnownStatus(shown);
  }

  /** Each entry of the table: three digits, a space, a CR-free reason. */
  lemma KnownStatus(code: int)
    requires code in Statuses
    ensures code >= 0 && NamesCode(code, Statuses[code])
  {
    if code == 200 {
      StatusOk();
    } else if code == 201 {
      StatusCreated();
    } else if code == 404 {
      StatusNotFound();
    } else if code == 500 {
      StatusServerError();
    } else {
      StatusNotImplemented();
    }
  }

  /** An entry written as the three digits of its code, a space and a reason. */
  predicate EntryShape(code: int, text: string)
  {
    && 100 <= code < 1000 && |text| > 4 && text[3] == ' ' && text[|text| - 1] != ' '
    && '\r' !in text
    && text[..3] == [DigitChar(code / 100), DigitChar(code / 10 % 10), DigitChar(code % 10)]
  }

  lemma StatusEntry(code: int)
    requires code in Statuses && EntryShape(code, Statuses[code])
    ensures code >= 0 && NamesCode(code, Statuses[code])
  {
    ThreeDigits(code);
    var text := Statuses[code];
    assert forall i :: 0 <= i < 3 ==> IsDigit(text[..3][i]);
  }

  lemma StatusOk()
    ensures NamesCode(200, Statuses[200])
  {
    assert EntryShape(200, "200 OK");
    StatusEntry(200);
  }

  lemma StatusCreated()
    ensures NamesCode(201, Statuses[201])
  {
    assert EntryShape(201, "201 Created");
    StatusEntry(201);
  }

  lemma StatusNotFound()
    ensures NamesCode(404, Statuses[404])
  {
    assert EntryShape(404, "404 Not Found");
    StatusEntry(404);
  }

  lemma StatusServerError()
    ensures NamesCode(500, Statuses[500])
  {
    assert EntryShape(500, "500 Internal Server Error");
    StatusEntry(500);
  }

  lemma StatusNotImplemented()
    ensures NamesCode(501, Statuses[501])
  {
    assert EntryShape(501, "501 Not Implemented");
    StatusEntry(501);
  }

  /** The decimal form of a three-digit number. */
  lemma ThreeDigits(n: nat)
    requires 100 <= n < 1000
    ensures Decimal(n) == [DigitChar(n / 100), DigitChar(n / 10 % 10), DigitChar(n % 10)]
  {
    var tens := n / 10;
    assert 10 <= tens < 100 && tens / 10 == n / 100 && tens % 10 == n / 10 % 10;
    assert Decimal(tens / 10) == [DigitChar(n / 100)];
    assert Decimal(tens) == Decimal(tens / 10) + [DigitChar(tens % 10)];
    assert Decimal(n) == Decimal(tens) + [DigitChar(n % 10)];
  }

  /** The length the builder writes into Content-Length: 0 when there is no body. */
  function BodyLength(body: Option<string>): nat
  {
    if body.Some? then |body.value| else 0
  }

  /** The bytes a body contributes to the wire: none when there is no body. */
  function BodyText(body: Option<string>): string
  {
    if body.Some? then body.value else ""
  }

  // ------------------------------------------------------------ framing

  /** Each header line followed by CRLF. */
  function HeaderBlock(lines: seq<string>): string
  {
    if lines == [] then "" else lines[0] + CRLF + HeaderBlock(lines[1..])
  }

  /** What toBytes writes: the status line, the header lines, a blank line, the body. */
  function Frame(status: string, lines: seq<string>, body: Option<string>): string
  {
    "HTTP/1.1 " + status + CRLF + HeaderBlock(lines) + CRLF + BodyText(body)
  }

  /** A response read back from the wire. */
  datatype Framed = Framed(status: string, lines: seq<string>, body: string)

  /** The text before the first CRLF and the text after it. */
  function ReadLine(s: string): (r: Option<(string, string)>)
    ensures r.None? ==> Free(s, CRLF)
    ensures r.Some? ==> s == r.value.0 + CRLF + r.value.1 && Free(r.value.0, CRLF)
  {
    match IndexFrom(s, CRLF, 0)
    case None => None
    case Some(i) =>
      assert s == s[..i] + CRLF + s[i + 2..] by { assert s[i..i + 2] == CRLF; }
      assert Free(s[..i], CRLF) by {
        forall k: nat ensures !OccursAt(s[..i], CRLF, k) {
          if k + 2 <= i {
            assert !OccursAt(s, CRLF, k);
            assert s[..i][k..k + 2] == s[k..k + 2];
          }
        }
      }
      Some((s[..i], s[i + 2..]))
  }

  /** Header lines up to the first empty line, and what follows that line. */
  function ReadHeaderLines(s: string): Option<(seq<string>, string)>
    decreases |s|
  {
    match ReadLine(s)
    case None => None
    case Some((line, rest)) =>
      if line == "" then Some(([], rest))
      else
        match ReadHeaderLines(rest)
        case None => None
        case Some((more, body)) => Some(([line] + more, body))
  }

  /** Reads a response: the "HTTP/1.1 " status line, the header lines, the body. */
  function Unframe(bytes: string): Option<Framed>
  {
    if |bytes| < 9 || bytes[..9] != "HTTP/1.1 " then None
    else
      match ReadLine(bytes[9..])
      case None => None
      case Some((status, rest)) =>
        match ReadHeaderLines(rest)
        case None => None
        case Some((lines, body)) => Some(Framed(status, lines, body))
  }

  /** A line without CR is read back up to the CRLF that ends it. */
  lemma ReadLineOf(x: string, rest: string)
    requires '\r' !in x
    ensures ReadLine(x + CRLF + rest) == Some((x, rest))
  {
    CrFree(x);
    IndexAfterCrlf(x, rest);
    var s := x + CRLF + rest;
    assert s[..|x|] == x && s[|x| + 2..] == rest;
  }

  /** One non-empty header line in front of the rest of the block. */
  lemma ReadHeaderLinesStep(line: string, tail: string, more: seq<string>, body: string)
    requires line != "" && '\r' !in line
    requires ReadHeaderLines(tail) == Some((more, body))
    ensures ReadHeaderLines(line + CRLF + tail) == Some(([line] + more, body))
  {
    ReadLineOf(line, tail);
  }

  /** Header lines that are non-empty and CR-free are read back exactly, and what
      follows the blank line is left over. */
  lemma {:induction false} ReadHeaderLinesOf(lines: seq<string>, body: string)
    requires forall i :: 0 <= i < |lines| ==> lines[i] != "" && '\r' !in lines[i]
    ensures ReadHeaderLines(HeaderBlock(lines) + CRLF + body) == Some((lines, body))
    decreases |lines|
  {
    if lines == [] {
      assert HeaderBlock(lines) + CRLF + body == "" + CRLF + body;
      ReadLineOf("", body);
    } else {
      var tail := HeaderBlock(lines[1..]) + CRLF + body;
      assert HeaderBlock(lines) + CRLF + body == lines[0] + CRLF + tail;
      ReadHeaderLinesOf(lines[1..], body);
      ReadHeaderLinesStep(lines[0], tail, lines[1..], body);
      assert [lines[0]] + lines[1..] == lines;
    }
  }

  /** Reading back what toBytes writes gives the status, the header lines and the
      body, provided the status and the lines hold no CR and no line is empty. */
  lemma FrameRoundTrip(status: string, lines: seq<string>, body: Option<string>)
    requires '\r' !in status
    requires forall i :: 0 <= i < |lines| ==> lines[i] != "" && '\r' !in lines[i]
    ensures Unframe(Frame(status, lines, body)) == Some(Framed(status, lines, BodyText(body)))
  {
    var afterStatus := HeaderBlock(lines) + CRLF + BodyText(body);
    FrameStart(status, lines, body);
    ReadLineOf(status, afterStatus);
    ReadHeaderLinesOf(lines, BodyText(body));
  }

  /** The frame starts with "HTTP/1.1 ", then the status line's CRLF-terminated rest. */
  lemma FrameStart(status: string, lines: seq<string>, body: Option<string>)
    ensures var bytes := Frame(status, lines, body);
            && |bytes| >= 9 && bytes[..9] == "HTTP/1.1 "
            && bytes[9..] == status + CRLF + (HeaderBlock(lines) + CRLF + BodyText(body))
  {
    var bytes := Frame(status, lines, body);
    var afterStatus := HeaderBlock(lines) + CRLF + BodyText(body);
    assert bytes == "HTTP/1.1 " + (status + CRLF + afterStatus);
  }

  /** A non-empty header block ends with the CRLF of its last line. */
  lemma {:induction false} HeaderBlockEnds(lines: seq<string>)
    requires lines != []
    ensures |HeaderBlock(lines)| >= 2 && HeaderBlock(lines)[|HeaderBlock(lines)| - 2..] == CRLF
    decreases |lines|
  {
    if lines[1..] != [] {
      HeaderBlockEnds(lines[1..]);
    }
  }

  /** The header section ends with two CRLFs (the end of the last line, or of the
      status line, and the blank line); the body follows, and nothing after it. */
  lemma FrameEndsWithBody(status: string, lines: seq<string>, body: Option<string>)
    ensures var bytes := Frame(status, lines, body);
            var n := |BodyText(body)|;
            |bytes| >= n + 4 && bytes[|bytes| - n - 4..] == CRLF + CRLF + BodyText(body)
  {
    var head := "HTTP/1.1 " + status + CRLF + HeaderBlock(lines);
    assert |head| >= 2 && head[|head| - 2..] == CRLF by {
      if lines != [] {
        HeaderBlockEnds(lines);
      }
    }
    var b := BodyText(body);
    var bytes := Frame(status, lines, body);
    assert bytes == head + CRLF + b;
    assert bytes[|bytes| - |b| - 4..] == head[|head| - 2..] + CRLF + b;
  }

  /** Appending one header line to the block. */
  lemma {:induction false} HeaderBlockSnoc(lines: seq<string>, line: string)
    ensures HeaderBlock(lines + [line]) == HeaderBlock(lines) + line + CRLF
    decreases |lines|
  {
    if lines == [] {
      assert [] + [line] == [line];
      assert [line][1..] == [];
    } else {
      assert (lines + [line])[1..] == lines[1..] + [line];
      HeaderBlockSnoc(lines[1..], line);
    }
  }

  /** The text a listing shows for an integer or string value. */
  function Shown(v: HVal): string
    requires !v.HSet?
  {
    if v.HInt? then IntText(v.n) else v.s
  }

  /** In any listing of a store, an integer or string entry shows as the line
      "name: value". */
  lemma ListedEntry(m: HeaderMap, order: seq<string>, lines: seq<string>, k: string)
    requires ListsHeaders(m, order, lines)
    requires k in m && !m[k].HSet?
    ensures k + ": " + Shown(m[k]) in lines
  {
    var i :| 0 <= i < |order| && order[i] == k;
    var line := lines[i];
    assert IsHeaderLine(k, m[k], line);
    assert line == line[..|k| + 2] + line[|k| + 2..];
  }

  /** In any listing of a store that holds Content-Length n, the line
      "Content-Length: " followed by the decimal n appears. */
  lemma ListedContentLength(m: HeaderMap, order: seq<string>, lines: seq<string>, n: int)
    requires ListsHeaders(m, order, lines)
    requires "Content-Length" in m && m["Content-Length"] == HInt(n)
    ensures "Content-Length: " + IntText(n) in lines
  {
    ListedEntry(m, order, lines, "Content-Length");
    ContentLengthPrefix();
  }

  // The literal step on its own: inside ListedContentLength, with the listing in
  // scope, the solver spends far longer on these string constants.
  lemma ContentLengthPrefix()
    ensures "Content-Length" + ": " == "Content-Length: "
  {
  }

  // ------------------------------------------------------------ the objects

  /** An assembled response; its fields are final. */
  class HttpResponse {
    const status: string
    const headers: Headers
    const body: Option<string>

    /** The gzip and UTF-8 encodings of the body coincide on ASCII text, so the
        body is kept as it is. */
    constructor(status: string, headers: Headers, body: Option<string>)
      ensures this.status == status && this.headers == headers && this.body == body
    {
      this.status := status;
      this.headers := headers;
      this.body := body;
    }

    /** toBytes: a StringBuilder takes the status line, each header line with its
        CRLF and the blank line; the body is then copied after it into a new buffer. */
    method ToBytes() returns (bytes: seq<char>, ghost lines: seq<string>, ghost order: seq<string>)
      ensures ListsHeaders(headers.entries, order, lines)
      ensures bytes == Frame(status, lines, body)
    {
      var response := "HTTP/1.1 " + status + CRLF;
      var headerLines;
      headerLines, order := headers.HeadersAsList();
      lines := headerLines;
      var i := 0;
      while i < |headerLines|
        invariant 0 <= i <= |headerLines|
        invariant response == "HTTP/1.1 " + status + CRLF + HeaderBlock(headerLines[..i])
      {
        HeaderBlockSnoc(headerLines[..i], headerLines[i]);
        assert headerLines[..i + 1] == headerLines[..i] + [headerLines[i]];
        response := response + headerLines[i] + CRLF;
        i := i + 1;
      }
      assert headerLines[..i] == headerLines;
      response := response + CRLF;
      if body.None? {
        return response, lines, order;
      }
      bytes := Concat(response, body.value);
    }
  }

  /** `new byte[head.length + tail.length]` filled by two System.arraycopy calls. */
  method Concat(head: seq<char>, tail: seq<char>) returns (bytes: seq<char>)
    ensures bytes == head + tail
  {
    var result := new char[|head| + |tail|];
    var j := 0;
    while j < |head|
      invariant 0 <= j <= |head|
      invariant result[..j] == head[..j]
    {
      result[j] := head[j];
      j := j + 1;
    }
    var k := 0;
    while k < |tail|
      invariant 0 <= k <= |tail|
      invariant result[..|head|] == head
      invariant result[|head|..|head| + k] == tail[..k]
    {
      result[|head| + k] := tail[k];
      k := k + 1;
    }
    assert result[..] == result[..|head|] + result[|head|..|head| + k];
    bytes := result[..];
  }

  /** HttpResponseBuilder: a status line, a header store and an optional body,
      set one by one and assembled by Build. */
  class HttpResponseBuilder {
    var statusLine: string
    var headers: Headers
    var body: Option<string>

    /** A fresh builder has a fresh empty store, no body, and a status line that
        was never set: Java's null, which the StringBuilder writes as "null". */
    constructor()
      ensures statusLine == "null" && body == None
      ensures fresh(headers) && headers.entries == map[]
    {
      statusLine := "null";
      headers := new Headers();
      body := None;
    }

    method SetStatus(code: int)
      modifies this
      ensures statusLine == StatusText(code)
      ensures headers == old(headers) && body == old(body)
    {
      statusLine := StatusText(code);
    }

    method SetBody(text: string)
      modifies this
      ensures body == Some(text)
      ensures statusLine == old(statusLine) && headers == old(headers)
    {
      body := Some(text);
    }

    method SetHeaders(store: Headers)
      modifies this
      ensures headers == store
      ensures statusLine == old(statusLine) && body == old(body)
    {
      headers := store;
    }

    /** Content-Length is forced to the body length (0 without a body), whatever
        it held before; every other header is left as it was. */
    method Build() returns (response: HttpResponse)
      modifies headers
      ensures headers.entries == old(headers.entries)["Content-Length" := HInt(BodyLength(body))]
      ensures ContentLength(headers.entries) == Ok(BodyLength(body))
      ensures fresh(response)
      ensures response.status == statusLine && response.headers == headers && response.body == body
    {
      if body.Some? {
        headers.SetContentLength(|body.value|);
      } else {
        headers.SetContentLength(0);
      }
      response := new HttpResponse(statusLine, headers, body);
    }
  }
}
