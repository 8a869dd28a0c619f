/** What the request parser promises: where method, path and version come from,
    that only the lines before the first empty line become headers (the first line
    naming a header wins), and that the body is the tail of the buffer. */
module RequestProperties {
  import opened Exceptions
  import opened Text
  import opened HeaderStore
  import opened HeaderProperties
  import opened RequestParser

  /** The header name a raw line binds, if it has a colon. */
  function KeyOf(line: string): Option<string>
  {
    match SplitAtFirst(Trim(line), ':')
    case None => None
    case Some((name, _)) => Some(Trim(name))
  }

  /** The trimmed value text of a raw line with a colon. */
  function ValueOf(line: string): string
    requires KeyOf(line).Some?
  {
    Trim(SplitAtFirst(Trim(line), ':').value.1)
  }

  // ------------------------------------------------------------ the header loop

  /** The loop never changes a header once stored. */
  lemma {:induction false} AddAllKeeps(m: HeaderMap, lines: seq<string>)
    requires AddAll(m, lines).Ok?
    ensures forall k :: k in m ==> k in AddAll(m, lines).value && AddAll(m, lines).value[k] == m[k]
    decreases |lines|
  {
    if lines != [] {
      AddLineMonotone(m, Trim(lines[0]));
      AddAllKeeps(AddLine(m, Trim(lines[0])).value, lines[1..]);
    }
  }

  /** Some line of `lines[lo..hi]` names header `k`. */
  predicate NamedIn(lines: seq<string>, lo: nat, hi: nat, k: string)
    requires lo <= hi <= |lines|
  {
    exists j :: lo <= j < hi && KeyOf(lines[j]) == Some(k)
  }

  /** Every header stored by the loop over `lines[lo..hi]` was already there or is
      named by one of those lines. */
  lemma {:induction false} AddAllKeys(m: HeaderMap, lines: seq<string>, lo: nat, hi: nat, k: string)
    requires lo <= hi <= |lines| && AddAll(m, lines[lo..hi]).Ok?
    requires k in AddAll(m, lines[lo..hi]).value
    ensures k in m || NamedIn(lines, lo, hi, k)
    decreases hi - lo
  {
    if lo < hi && k !in m {
      var block := lines[lo..hi];
      assert block[0] == lines[lo] && block[1..] == lines[lo + 1..hi];
      var m' := AddLine(m, Trim(lines[lo])).value;
      if k in m' {
        assert KeyOf(lines[lo]) == Some(k);
      } else {
        AddAllKeys(m', lines, lo + 1, hi, k);
        var j :| lo + 1 <= j < hi && KeyOf(lines[j]) == Some(k);
      }
    }
  }

  /** The first line of `lines[lo..hi]` naming a header that was not stored before
      decides its value. */
  lemma {:induction false} AddAllFirstLineWins(m: HeaderMap, lines: seq<string>, lo: nat, hi: nat, j: nat, k: string)
    requires lo <= j < hi <= |lines| && AddAll(m, lines[lo..hi]).Ok?
    requires KeyOf(lines[j]) == Some(k) && k !in m
    requires forall i :: lo <= i < j ==> KeyOf(lines[i]) != Some(k)
    ensures k in AddAll(m, lines[lo..hi]).value
    ensures Infer(ValueOf(lines[j])) == Ok(AddAll(m, lines[lo..hi]).value[k])
    decreases j - lo
  {
    var block := lines[lo..hi];
    assert block[0] == lines[lo] && block[1..] == lines[lo + 1..hi];
    var m' := AddLine(m, Trim(lines[lo])).value;
    if j == lo {
      AddAllKeeps(m', lines[lo + 1..hi]);
    } else {
      assert KeyOf(lines[lo]) != Some(k);
      assert k !in m';
      AddAllFirstLineWins(m', lines, lo + 1, hi, j, k);
    }
  }

  // ------------------------------------------------------------ the parse

  /** The headers of a parsed request are what the loop builds from the header block. */
  lemma ParsedHeaders(data: string)
    requires Parse(data).Ok?
    ensures var lines := Lines(data);
            && |lines| > 0
            && AddAll(map[], lines[1..HeaderEnd(lines, 1)]) == Ok(Parse(data).value.headers)
  {
  }

  /** The headers of a parsed request all come from lines between the request line
      and the first empty line. */
  lemma HeadersFromHeaderBlock(data: string, r: Request)
    requires Parse(data) == Ok(r)
    ensures var lines := Lines(data);
            forall k :: k in r.headers ==> NamedIn(lines, 1, HeaderEnd(lines, 1), k)
  {
    ParsedHeaders(data);
    var lines := Lines(data);
    BlockKeys(lines, HeaderEnd(lines, 1), r.headers);
  }

  lemma BlockKeys(lines: seq<string>, end: nat, h: HeaderMap)
    requires 1 <= end <= |lines| && AddAll(map[], lines[1..end]) == Ok(h)
    ensures forall k :: k in h ==> NamedIn(lines, 1, end, k)
  {
    forall k | k in h ensures NamedIn(lines, 1, end, k) {
      AddAllKeys(map[], lines, 1, end, k);
    }
  }

  /** A header line before the first empty line that is the first to name its
      header gives that header its value in the parsed request. */
  lemma FirstHeaderLineWins(data: string, r: Request, j: nat, k: string)
    requires Parse(data) == Ok(r)
    requires 1 <= j < HeaderEnd(Lines(data), 1) && KeyOf(Lines(data)[j]) == Some(k)
    requires forall i :: 1 <= i < j ==> KeyOf(Lines(data)[i]) != Some(k)
    ensures k in r.headers
    ensures Infer(ValueOf(Lines(data)[j])) == Ok(r.headers[k])
  {
    ParsedHeaders(data);
    var lines := Lines(data);
    AddAllFirstLineWins(map[], lines, 1, HeaderEnd(lines, 1), j, k);
  }

  /** The body is present exactly when Content-Length is positive, and is then the
      last Content-Length chars of the buffer. */
  lemma BodyIsTail(data: string)
    requires Parse(data).Ok?
    ensures var r := Parse(data).value;
            && ContentLength(r.headers).Ok?
            && (r.body.Some? <==> ContentLength(r.headers).value > 0)
            && (r.body.Some? ==>
                  |r.body.value| == ContentLength(r.headers).value
                  && data == data[..|data| - |r.body.value|] + r.body.value)
  {
  }

  /** A request whose Content-Length exceeds the buffer cannot be parsed. */
  lemma BodyLongerThanBufferThrows(data: string)
    requires |Lines(data)| > 0 && |Split(Lines(data)[0], " ")| >= 3
    requires AddAll(map[], Lines(data)[1..HeaderEnd(Lines(data), 1)]).Ok?
    requires var h := AddAll(map[], Lines(data)[1..HeaderEnd(Lines(data), 1)]).value;
             ContentLength(h).Ok? && ContentLength(h).value > |data|
    ensures Parse(data) == Thrown(IndexOutOfBounds)
  {
  }

  // ------------------------------------------------------------ the request line

  /** The first line of a text that starts with a CRLF-free line. */
  lemma FirstLine(line: string, rest: string)
    requires line != "" && '\r' !in line
    ensures |Lines(line + CRLF + rest)| > 0 && Lines(line + CRLF + rest)[0] == line
  {
    CrFree(line);
    IndexAfterCrlf(line, rest);
    var data := line + CRLF + rest;
    assert data[..|line|] == line;
    var fields := Fields(data, CRLF);
    assert fields[0] == line;
    var kept := DropTrailingEmpty(fields);
    assert fields[0] != "";
  }

  /** `M P V` followed by CRLF parses to method toUpperCase(M), path P and
      version V, provided no part holds a space or CR and V is not empty. */
  lemma RequestLineParsed(m: string, p: string, v: string, rest: string)
    requires ' ' !in m && ' ' !in p && ' ' !in v && v != ""
    requires '\r' !in m && '\r' !in p && '\r' !in v
    ensures var data := m + " " + p + " " + v + CRLF + rest;
            Parse(data).Ok? ==>
              && Parse(data).value.verb == ToUpper(m)
              && Parse(data).value.path == p
              && Parse(data).value.version == v
  {
    var line := m + " " + p + " " + v;
    assert line == Join([m, p, v], " ") by {
      assert [m, p, v][1..] == [p, v] && [p, v][1..] == [v];
      assert Join([p, v], " ") == p + " " + v;
    }
    FirstLine(line, rest);
    SplitOfJoin([m, p, v], ' ');
  }

  /** `M P ` with nothing after the last space has only two tokens (Java drops
      the trailing empty one), so reading the version throws. */
  lemma MissingVersionThrows(m: string, p: string, rest: string)
    requires ' ' !in m && ' ' !in p && p != ""
    requires '\r' !in m && '\r' !in p
    ensures Parse(m + " " + p + " " + CRLF + rest) == Thrown(IndexOutOfBounds)
  {
    var line := m + " " + p + " ";
    assert line == Join([m, p, ""], " ") by {
      assert [m, p, ""][1..] == [p, ""] && [p, ""][1..] == [""];
      assert Join([p, ""], " ") == p + " " + "";
    }
    FirstLine(line, rest);
    FieldsOfJoin([m, p, ""], ' ');
    IndexAfterChar(m, ' ', p + " ");
    assert line == m + [' '] + (p + " ");
    assert DropTrailingEmpty([m, p, ""]) == [m, p] by {
      assert [m, p, ""][..2] == [m, p];
    }
  }
}
