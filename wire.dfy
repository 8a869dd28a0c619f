/** What a response looks like to a reader on the wire: it can be taken apart
    again, and, read with the request parser, its header section gives back the
    integer and string headers the builder stored, and its Content-Length picks
    out exactly its body. */
module WireRoundTrip {
  import opened Exceptions
  import opened Text
  import opened HeaderStore
  import opened HeaderProperties
  import opened RequestParser
  import opened Responses
  import opened Routing

  /** A store whose listing reads back: names are non-empty, trimmed and free of
      colons and CRs; values are integers in range or non-empty strings without
      CR, that are neither all digits nor hold a comma. */
  ghost predicate WellFormed(m: HeaderMap)
  {
    forall k :: k in m ==>
      && k != "" && IsTrimmed(k) && ':' !in k && '\r' !in k
      && Reparsable(m[k]) && m[k] != HStr("")
      && (m[k].HStr? ==> '\r' !in m[k].s)
  }

  // ------------------------------------------------------------ single lines

  /** A listed line of a well-formed store is non-empty, trimmed and CR-free. */
  lemma ListedLinePlain(k: string, v: HVal, line: string)
    requires k != "" && IsTrimmed(k) && '\r' !in k
    requires IsHeaderLine(k, v, line) && Reparsable(v) && v != HStr("")
    requires v.HStr? ==> '\r' !in v.s
    ensures line != "" && IsTrimmed(line) && '\r' !in line
  {
    var text := line[|k| + 2..];
    assert line == k + ": " + text;
    if v.HInt? {
      DecimalRoundTrip(v.n);
      assert text == Decimal(v.n);
    }
    assert text != "" && !IsSpace(text[|text| - 1]) && '\r' !in text;
    assert line[|line| - 1] == text[|text| - 1];
  }

  /** The first line toBytes writes. */
  function StatusLine(status: string): string
  {
    "HTTP/1.1 " + status
  }

  /** Every line of the listing of a well-formed store is non-empty, trimmed and CR-free. */
  lemma ListingPlain(m: HeaderMap, order: seq<string>, lines: seq<string>)
    requires ListsHeaders(m, order, lines) && WellFormed(m)
    ensures forall i :: 0 <= i < |lines| ==> lines[i] != "" && IsTrimmed(lines[i]) && '\r' !in lines[i]
  {
    forall i | 0 <= i < |lines|
      ensures lines[i] != "" && IsTrimmed(lines[i]) && '\r' !in lines[i]
    {
      ListedLinePlain(order[i], m[order[i]], lines[i]);
    }
  }

  // ------------------------------------------------------------ the header loop

  /** The part of `m` named by `names`. */
  function Restrict(m: HeaderMap, names: seq<string>): HeaderMap
  {
    map k | k in names && k in m :: m[k]
  }

  /** Restricting to every name of the store gives the store. */
  lemma RestrictAll(m: HeaderMap, names: seq<string>)
    requires forall k :: k in m ==> k in names
    ensures Restrict(m, names) == m
  {
  }

  /** Adding the next listed entry extends the restriction by one name. */
  lemma RestrictStep(m: HeaderMap, names: seq<string>, i: nat)
    requires i < |names| && names[i] in m
    ensures Restrict(m, names[..i])[names[i] := m[names[i]]] == Restrict(m, names[..i + 1])
  {
    assert names[..i + 1] == names[..i] + [names[i]];
  }

  /** With distinct names, the next name is not yet in the restriction. */
  lemma RestrictFresh(m: HeaderMap, names: seq<string>, i: nat)
    requires i < |names|
    requires forall p, q :: 0 <= p < q < |names| ==> names[p] != names[q]
    ensures names[i] !in Restrict(m, names[..i])
  {
    assert forall j :: 0 <= j < i ==> names[..i][j] != names[i];
  }

  /** Feeding the listed lines from index i on to the loop, with the entries
      named before i already stored, builds the whole store. */
  lemma {:induction false} ReparseFrom(m: HeaderMap, order: seq<string>, lines: seq<string>, i: nat)
    requires ListsHeaders(m, order, lines) && WellFormed(m)
    requires i <= |lines|
    ensures AddAll(Restrict(m, order[..i]), lines[i..]) == Ok(m)
    decreases |lines| - i
  {
    var acc := Restrict(m, order[..i]);
    if i == |lines| {
      assert order[..i] == order;
      RestrictAll(m, order);
      assert lines[i..] == [];
    } else {
      var k := order[i];
      var line := lines[i];
      ListedLinePlain(k, m[k], line);
      TrimNoop(line);
      RestrictFresh(m, order, i);
      TrimNoop(k);
      HeaderLineRoundTrip(acc, k, m[k], line);
      RestrictStep(m, order, i);
      ReparseFrom(m, order, lines, i + 1);
      assert lines[i..][0] == line && lines[i..][1..] == lines[i + 1..];
    }
  }

  /** The header loop, run over the listing of a well-formed store, builds that store. */
  lemma ListingReparsed(m: HeaderMap, order: seq<string>, lines: seq<string>)
    requires ListsHeaders(m, order, lines) && WellFormed(m)
    ensures AddAll(map[], lines) == Ok(m)
  {
    ReparseFrom(m, order, lines, 0);
    assert Restrict(m, order[..0]) == map[];
    assert lines[0..] == lines;
  }

  // ------------------------------------------------------------ splitting the frame

  /** A field without CRLF in front of the rest is split off first. */
  lemma FieldsCons(x: string, rest: string)
    requires '\r' !in x
    ensures Fields(x + CRLF + rest, CRLF) == [x] + Fields(rest, CRLF)
  {
    CrFree(x);
    IndexAfterCrlf(x, rest);
    var s := x + CRLF + rest;
    assert s[..|x|] == x && s[|x| + 2..] == rest;
  }

  /** The header block splits into its lines. */
  lemma {:induction false} FieldsOfBlock(lines: seq<string>, rest: string)
    requires forall i :: 0 <= i < |lines| ==> '\r' !in lines[i]
    ensures Fields(HeaderBlock(lines) + rest, CRLF) == lines + Fields(rest, CRLF)
    decreases |lines|
  {
    if lines == [] {
      assert HeaderBlock(lines) + rest == rest;
    } else {
      var tail := HeaderBlock(lines[1..]) + rest;
      var whole := HeaderBlock(lines) + rest;
      assert whole == lines[0] + CRLF + tail;
      var later := Fields(rest, CRLF);
      FieldsCons(lines[0], tail);
      FieldsOfBlock(lines[1..], rest);
      assert Fields(whole, CRLF) == [lines[0]] + (lines[1..] + later);
      assert lines == [lines[0]] + lines[1..];
      SeqAssoc([lines[0]], lines[1..], later);
    }
  }

  // Associativity as a separate step, so that FieldsOfBlock does not have to find
  // it among the sequence facts of its own context.
  lemma SeqAssoc(a: seq<string>, b: seq<string>, c: seq<string>)
    ensures a + (b + c) == (a + b) + c
  {
  }

  /** The CRLF fields of a framed response: the status line, the header lines,
      the blank line, then whatever the body splits into. */
  lemma FieldsOfFrame(status: string, lines: seq<string>, body: Option<string>)
    requires '\r' !in status
    requires forall i :: 0 <= i < |lines| ==> '\r' !in lines[i]
    ensures Fields(Frame(status, lines, body), CRLF)
            == [StatusLine(status)] + (lines + ([""] + Fields(BodyText(body), CRLF)))
  {
    var first := StatusLine(status);
    var afterBlock := "" + CRLF + BodyText(body);
    assert Frame(status, lines, body) == first + CRLF + (HeaderBlock(lines) + afterBlock);
    FieldsCons(first, HeaderBlock(lines) + afterBlock);
    FieldsOfBlock(lines, afterBlock);
    FieldsCons("", BodyText(body));
  }

  /** String.split keeps every field up to the last non-empty one. */
  lemma {:induction false} KeepsNonEmpty(fields: seq<string>, n: nat)
    requires n < |fields| && fields[n] != ""
    ensures |DropTrailingEmpty(fields)| > n
  {
  }

  /** After dropping trailing empty fields, a first line, n non-empty lines and an
      empty one still give a header section of exactly those n lines. */
  lemma HeaderSection(fields: seq<string>, lines: seq<string>)
    requires |fields| > |lines| + 1 && fields[0] != "" && fields[|lines| + 1] == ""
    requires forall j :: 0 <= j < |lines| ==> lines[j] != "" && fields[j + 1] == lines[j]
    ensures var all := DropTrailingEmpty(fields);
            && |all| > |lines|
            && all[0] == fields[0]
            && HeaderEnd(all, 1) == |lines| + 1
            && all[1..|lines| + 1] == lines
  {
    var n := |lines|;
    var all := DropTrailingEmpty(fields);
    assert fields[n] != "" by {
      if n > 0 { assert fields[n] == lines[n - 1]; }
    }
    KeepsNonEmpty(fields, n);
    assert forall j :: 0 <= j <= n ==> all[j] == fields[j];
    assert forall j :: 1 <= j <= n ==> all[j] == lines[j - 1];
    if |all| > n + 1 {
      assert all[n + 1] == fields[n + 1];
    }
    HeaderEndAt(all, 1, n + 1);
    assert all[1..n + 1] == lines;
  }

  /** The header loop stops at `e` when the lines before it are non-empty and the
      line at `e`, if any, is empty. */
  lemma {:induction false} HeaderEndAt(xs: seq<string>, i: nat, e: nat)
    requires i <= e <= |xs|
    requires forall j :: i <= j < e ==> xs[j] != ""
    requires e < |xs| ==> xs[e] == ""
    ensures HeaderEnd(xs, i) == e
    decreases e - i
  {
    if i < e {
      HeaderEndAt(xs, i + 1, e);
    }
  }

  /** The CRLF lines of a framed response: the status line, the header lines, and
      (when anything follows) an empty line; so the header section read by the
      request parser is exactly the header lines. */
  lemma LinesOfFrame(status: string, lines: seq<string>, body: Option<string>)
    requires '\r' !in status
    requires forall i :: 0 <= i < |lines| ==> lines[i] != "" && '\r' !in lines[i]
    ensures var all := Lines(Frame(status, lines, body));
            && |all| > |lines|
            && all[0] == StatusLine(status)
            && HeaderEnd(all, 1) == |lines| + 1
            && all[1..|lines| + 1] == lines
  {
    var data := Frame(status, lines, body);
    FrameHasCrlf(status, lines, body);
    assert Lines(data) == DropTrailingEmpty(Fields(data, CRLF));
    FieldsOfFrame(status, lines, body);
    var tail := Fields(BodyText(body), CRLF);
    FieldsShape(StatusLine(status), lines, tail);
    HeaderSection([StatusLine(status)] + (lines + ([""] + tail)), lines);
  }

  lemma FrameHasCrlf(status: string, lines: seq<string>, body: Option<string>)
    requires '\r' !in status
    ensures IndexFrom(Frame(status, lines, body), CRLF, 0).Some?
  {
    var rest := HeaderBlock(lines) + CRLF + BodyText(body);
    CrFree(StatusLine(status));
    assert Frame(status, lines, body) == StatusLine(status) + CRLF + rest;
    IndexAfterCrlf(StatusLine(status), rest);
  }

  /** Where the pieces sit in a first line, the header lines, an empty line and a tail. */
  lemma FieldsShape(first: string, lines: seq<string>, tail: seq<string>)
    ensures var fields := [first] + (lines + ([""] + tail));
            && |fields| > |lines| + 1
            && fields[0] == first
            && fields[|lines| + 1] == ""
            && forall j :: 0 <= j < |lines| ==> fields[j + 1] == lines[j]
  {
  }

  // ------------------------------------------------------------ the status line

  /** A join whose last item is empty is empty or ends with the separator. */
  lemma {:induction false} JoinEndsWithSeparator(xs: seq<string>, c: char)
    requires |xs| >= 1
    ensures var joined := Join(xs, [c]);
            xs[|xs| - 1] == "" ==> joined == "" || joined[|joined| - 1] == c
    decreases |xs|
  {
    if |xs| > 1 {
      JoinEndsWithSeparator(xs[1..], c);
      assert Join(xs, [c]) == xs[0] + [c] + Join(xs[1..], [c]);
    }
  }

  /** A field without `c` in front of the rest is split off first. */
  lemma FieldsConsChar(x: string, c: char, rest: string)
    requires c !in x
    ensures Fields(x + [c] + rest, [c]) == [x] + Fields(rest, [c])
  {
    IndexAfterChar(x, c, rest);
    var s := x + [c] + rest;
    assert s[..|x|] == x && s[|x| + 1..] == rest;
  }

  /** `a b c` with space-free a and b splits into a, b and the fields of c. */
  lemma FieldsOfThree(a: string, b: string, c: string, s: string)
    requires ' ' !in a && ' ' !in b && s == a + [' '] + (b + [' '] + c)
    ensures IndexFrom(s, [' '], 0).Some?
    ensures Fields(s, [' ']) == [a, b] + Fields(c, [' '])
  {
    FieldsConsChar(a, ' ', b + [' '] + c);
    FieldsConsChar(b, ' ', c);
    IndexAfterChar(a, ' ', b + [' '] + c);
  }

  /** Fields whose last one is not empty are all kept by String.split. */
  lemma KeepsAll(fields: seq<string>, rest: seq<string>, c: string)
    requires |fields| >= 3 && fields[2..] == rest
    requires Join(rest, [' ']) == c && c != "" && c[|c| - 1] != ' '
    ensures DropTrailingEmpty(fields) == fields
  {
    JoinEndsWithSeparator(rest, ' ');
    assert fields[|fields| - 1] == rest[|rest| - 1];
  }

  /** `a b c` with space-free a and b and a c that does not end in a space
      splits into at least three tokens, the first two being a and b. */
  lemma ThreeTokens(a: string, b: string, c: string, s: string)
    requires ' ' !in a && ' ' !in b && c != "" && c[|c| - 1] != ' '
    requires s == a + " " + b + " " + c
    ensures |Split(s, " ")| >= 3 && Split(s, " ")[0] == a && Split(s, " ")[1] == b
  {
    assert s == a + [' '] + (b + [' '] + c);
    FieldsOfThree(a, b, c, s);
    var fields := Fields(s, [' ']);
    KeepsAll(fields, Fields(c, [' ']), c);
  }

  /** The status line, read as a request line, has at least three tokens:
      "HTTP/1.1", the announced code and the first word of the reason. */
  lemma StatusLineTokens(c: nat, status: string)
    requires NamesCode(c, status)
    ensures var tokens := Split(StatusLine(status), " ");
            |tokens| >= 3 && tokens[0] == "HTTP/1.1" && tokens[1] == Decimal(c)
  {
    assert status == status[..3] + " " + status[4..];
    ThreeTokens("HTTP/1.1", status[..3], status[4..], StatusLine(status));
  }

  // ------------------------------------------------------------ the whole response

  /** The request parser, given its pieces: with at least three request-line
      tokens, a header loop that succeeds and a Content-Length within the
      buffer, it yields exactly those pieces. */
  lemma ParseOfPieces(data: string, h: HeaderMap, n: int)
    requires |Lines(data)| > 0 && |Split(Lines(data)[0], " ")| >= 3
    requires AddAll(map[], Lines(data)[1..HeaderEnd(Lines(data), 1)]) == Ok(h)
    requires ContentLength(h) == Ok(n) && n <= |data|
    ensures Parse(data).Ok?
    ensures Parse(data).value.path == Split(Lines(data)[0], " ")[1]
    ensures Parse(data).value.headers == h
    ensures Parse(data).value.body == (if n > 0 then Some(data[|data| - n..]) else None)
  {
  }

  /** A response written by toBytes, from a well-formed store whose Content-Length
      is the body length, is parsed by the request parser as: path the status code,
      headers the store, and body the response body (absent when empty). */
  lemma ResponseReparsed(c: nat, status: string, m: HeaderMap, order: seq<string>, lines: seq<string>,
                         body: Option<string>, data: string)
    requires NamesCode(c, status)
    requires ListsHeaders(m, order, lines) && WellFormed(m)
    requires "Content-Length" in m && m["Content-Length"] == HInt(|BodyText(body)|)
    requires data == Frame(status, lines, body)
    ensures Parse(data).Ok?
    ensures Parse(data).value.path == Decimal(c)
    ensures Parse(data).value.headers == m
    ensures Parse(data).value.body == (if BodyText(body) == "" then None else Some(BodyText(body)))
  {
    ReparsedPieces(c, status, m, order, lines, body, data);
    ParseOfPieces(data, m, |BodyText(body)|);
  }

  lemma ReparsedPieces(c: nat, status: string, m: HeaderMap, order: seq<string>, lines: seq<string>,
                       body: Option<string>, data: string)
    requires NamesCode(c, status)
    requires ListsHeaders(m, order, lines) && WellFormed(m)
    requires "Content-Length" in m && m["Content-Length"] == HInt(|BodyText(body)|)
    requires data == Frame(status, lines, body)
    ensures |Lines(data)| > 0
    ensures |Split(Lines(data)[0], " ")| >= 3 && Split(Lines(data)[0], " ")[1] == Decimal(c)
    ensures AddAll(map[], Lines(data)[1..HeaderEnd(Lines(data), 1)]) == Ok(m)
    ensures ContentLength(m) == Ok(|BodyText(body)|) && |BodyText(body)| <= |data|
    ensures data[|data| - |BodyText(body)|..] == BodyText(body)
  {
    ListingPlain(m, order, lines);
    LinesOfFrame(status, lines, body);
    StatusLineTokens(c, status);
    ListingReparsed(m, order, lines);
    FrameEndsWithBody(status, lines, body);
  }

  /** The three names a routed response carries are plain header names. */
  lemma PlainNames()
    ensures forall k :: k in ["Content-Type", "Content-Encoding", "Content-Length"] ==>
              k != "" && IsTrimmed(k) && ':' !in k && '\r' !in k
  {
  }

  /** Its two string values read back as themselves. */
  lemma PlainValues()
    ensures forall s :: s in ["text/plain", "gzip"] ==>
              Reparsable(HStr(s)) && s != "" && '\r' !in s
  {
    assert !IsDigit("text/plain"[0]) && !IsDigit("gzip"[0]);
  }

  /** The headers a routed response carries once built. */
  lemma RoutedHeadersWellFormed(d: Decision, req: Request, dir: Option<string>, files: FileSystem)
    requires Route(req, dir, files) == Ok(d)
    requires BodyLength(d.body) <= IntMax
    ensures WellFormed(Final(d))
  {
    var m := Final(d);
    PlainNames();
    PlainValues();
    forall k | k in m
      ensures && k != "" && IsTrimmed(k) && ':' !in k && '\r' !in k
              && Reparsable(m[k]) && m[k] != HStr("")
              && (m[k].HStr? ==> '\r' !in m[k].s)
    {
      if k == "Content-Length" {
        assert k in ["Content-Type", "Content-Encoding", "Content-Length"];
      } else if k == "Content-Type" {
        assert k in ["Content-Type", "Content-Encoding", "Content-Length"];
        assert m[k] == HStr("text/plain");
        assert "text/plain" in ["text/plain", "gzip"];
      } else {
        assert k == "Content-Encoding" && m[k] == HStr("gzip");
        assert k in ["Content-Type", "Content-Encoding", "Content-Length"];
        assert "gzip" in ["text/plain", "gzip"];
      }
    }
  }

  /** In any listing of a store that holds Content-Type text/plain, the line
      "Content-Type: text/plain" appears. */
  lemma ListedContentType(m: HeaderMap, order: seq<string>, lines: seq<string>)
    requires ListsHeaders(m, order, lines)
    requires "Content-Type" in m && m["Content-Type"] == HStr("text/plain")
    ensures "Content-Type: text/plain" in lines
  {
    ListedEntry(m, order, lines, "Content-Type");
    ContentTypeLine();
  }

  // The literal step on its own: inside ListedContentType, with the listing in
  // scope, the solver spends far longer on these string constants.
  lemma ContentTypeLine()
    ensures "Content-Type" + ": " + "text/plain" == "Content-Type: text/plain"
  {
  }

  /** The bytes of a response whose store holds Content-Type text/plain read back
      as its status, its header lines and its body; the header lines include
      Content-Type text/plain and the body length; and the request parser, reading
      them, recovers the store and the body. */
  lemma ResponseOnTheWire(c: nat, status: string, m: HeaderMap, order: seq<string>, lines: seq<string>,
                          body: Option<string>, bytes: string)
    requires NamesCode(c, status) && WellFormed(m) && ListsHeaders(m, order, lines)
    requires "Content-Type" in m && m["Content-Type"] == HStr("text/plain")
    requires "Content-Length" in m && m["Content-Length"] == HInt(BodyLength(body))
    requires bytes == Frame(status, lines, body)
    ensures Unframe(bytes) == Some(Framed(status, lines, BodyText(body)))
    ensures "Content-Type: text/plain" in lines
    ensures "Content-Length: " + IntText(BodyLength(body)) in lines
    ensures Parse(bytes).Ok?
    ensures Parse(bytes).value.headers == m
    ensures Parse(bytes).value.body == (if BodyText(body) == "" then None else body)
  {
    ListingPlain(m, order, lines);
    FrameRoundTrip(status, lines, body);
    ListedContentLength(m, order, lines, BodyLength(body));
    ListedContentType(m, order, lines);
    ResponseReparsed(c, status, m, order, lines, body, bytes);
  }

  /** The bytes of a routed response read back as its status, its header lines and
      its body; the header lines include Content-Type text/plain and the body
      length; and the request parser, reading them, recovers the built headers
      and the body. */
  lemma RoutedResponseOnTheWire(req: Request, dir: Option<string>, files: FileSystem, d: Decision,
                                order: seq<string>, lines: seq<string>, bytes: string)
    requires Route(req, dir, files) == Ok(d)
    requires BodyLength(d.body) <= IntMax
    requires ListsHeaders(Final(d), order, lines)
    requires bytes == Frame(StatusText(d.code), lines, d.body)
    ensures Unframe(bytes) == Some(Framed(StatusText(d.code), lines, BodyText(d.body)))
    ensures "Content-Type: text/plain" in lines
    ensures "Content-Length: " + IntText(BodyLength(d.body)) in lines
    ensures Parse(bytes).Ok?
    ensures Parse(bytes).value.headers == Final(d)
    ensures Parse(bytes).value.body == (if BodyText(d.body) == "" then None else d.body)
  {
    RoutedHeadersWellFormed(d, req, dir, files);
    RoutedFinal(d, req, dir, files);
    StatusTextNamesCode(d.code);
    ResponseOnTheWire(Announced(d.code), StatusText(d.code), Final(d), order, lines, d.body, bytes);
  }

  /** The built headers of a routed response: text/plain and the body length. */
  lemma RoutedFinal(d: Decision, req: Request, dir: Option<string>, files: FileSystem)
    requires Route(req, dir, files) == Ok(d)
    ensures "Content-Type" in Final(d) && Final(d)["Content-Type"] == HStr("text/plain")
    ensures "Content-Length" in Final(d) && Final(d)["Content-Length"] == HInt(BodyLength(d.body))
  {
  }
}
