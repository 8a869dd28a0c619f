/** What the header store promises: first write wins, the order in which a value's
    kind is inferred, what the typed getters see, and which rendered values read
    back as themselves. */
module HeaderProperties {
  import opened Exceptions
  import opened Text
  import opened HeaderStore

  // ------------------------------------------------------------ addHeader

  /** A line without a colon is ignored. */
  lemma NoColonIgnored(m: HeaderMap, line: string)
    requires ':' !in line
    ensures AddLine(m, line) == Ok(m)
  {
  }

  /** A name already stored is never overwritten and its line is never parsed:
      the map is returned unchanged, whatever the value text. */
  lemma FirstWriteWins(m: HeaderMap, name: string, rest: string)
    requires ':' !in name && Trim(name) in m
    ensures AddLine(m, name + ":" + rest) == Ok(m)
  {
    SplitAtFirstOf(name, ':', rest);
  }

  /** A new name is bound to the value inferred from the trimmed text after the
      first colon, and nothing else changes; the name is the trimmed text before it. */
  lemma NewNameBound(m: HeaderMap, name: string, rest: string)
    requires ':' !in name && Trim(name) !in m
    ensures Infer(Trim(rest)).Ok? ==> AddLine(m, name + ":" + rest) == Ok(m[Trim(name) := Infer(Trim(rest)).value])
    ensures Infer(Trim(rest)).Thrown? ==> AddLine(m, name + ":" + rest) == Thrown(NumberFormat)
  {
    SplitAtFirstOf(name, ':', rest);
  }

  /** Whatever line is added, every stored binding survives and at most one name is added. */
  lemma AddLineMonotone(m: HeaderMap, line: string)
    ensures AddLine(m, line).Ok? ==>
              var r := AddLine(m, line).value;
              (forall k :: k in m ==> k in r && r[k] == m[k]) && |r.Keys - m.Keys| <= 1
  {
    match SplitAtFirst(line, ':')
    case None =>
    case Some((name, rest)) =>
      if Trim(name) !in m && Infer(Trim(rest)).Ok? {
        var r := AddLine(m, line).value;
        assert r.Keys - m.Keys == {Trim(name)};
      }
  }

  // ------------------------------------------------------------ inference

  /** Only an all-digit value above Integer.MAX_VALUE throws. */
  lemma InferThrowsOnOverflowOnly(v: string)
    ensures Infer(v).Thrown? <==> AllDigits(v) && DecimalValue(v) > IntMax
    ensures Infer(v).Thrown? ==> Infer(v).error == NumberFormat
  {
  }

  /** The decimal text of any int in range is stored as that integer. */
  lemma InferDecimal(n: nat)
    requires n <= IntMax
    ensures Infer(Decimal(n)) == Ok(HInt(n))
  {
    DecimalRoundTrip(n);
  }

  /** An integer is stored only for an all-digit value, and it is the value's
      number, which lies in 0..Integer.MAX_VALUE. */
  lemma InferIntOnlyFromDigits(v: string)
    ensures Infer(v).Ok? && Infer(v).value.HInt? ==>
              AllDigits(v) && Infer(v).value.n == DecimalValue(v) && 0 <= Infer(v).value.n <= IntMax
  {
  }

  /** A set is stored only for a value with a comma that is not all digits, and its
      members are trimmed and comma-free. */
  lemma InferSetShape(v: string)
    ensures Infer(v).Ok? && Infer(v).value.HSet? ==>
              ',' in v && !AllDigits(v) &&
              forall x :: x in Infer(v).value.items ==> IsTrimmed(x) && ',' !in x
  {
    if Infer(v).Ok? && Infer(v).value.HSet? {
      var parts := Split(v, ",");
      assert Infer(v).value.items == TrimEach(parts);
      forall x | x in TrimEach(parts) ensures IsTrimmed(x) && ',' !in x {
        var p :| p in parts && x == Trim(p);
        SplitPieceFree(v, p);
        TrimKeepsOut(p, ',');
      }
    }
  }

  /** No piece of split(",") holds a comma. */
  lemma SplitPieceFree(v: string, p: string)
    requires p in Split(v, ",")
    ensures ',' !in p
  {
    var pieces := Split(v, ",");
    if IndexFrom(v, ",", 0).Some? {
      var fields := Fields(v, ",");
      assert pieces == DropTrailingEmpty(fields) && pieces <= fields;
      var i :| 0 <= i < |pieces| && pieces[i] == p;
      assert fields[i] == p;
    }
    assert Free(p, ",");
    CommaFree(p);
  }

  lemma CommaFree(p: string)
    requires Free(p, ",")
    ensures ',' !in p
  {
    forall i | 0 <= i < |p| ensures p[i] != ',' {
      assert !OccursAt(p, ",", i);
      assert p[i..i + 1] == [p[i]];
    }
  }

  /** Trimming removes chars and adds none. */
  lemma TrimKeepsOut(p: string, c: char)
    requires c !in p
    ensures c !in Trim(p)
  {
    var lo := SkipSpace(p, 0);
    assert Trim(p) == p[lo..SkipSpaceBack(p, lo, |p|)];
  }

  /** A comma-separated list of comma-free items is stored as the set of the
      trimmed items, after split(",") has dropped the empty items at its end. */
  lemma InferList(xs: seq<string>)
    requires |xs| >= 2
    requires forall i :: 0 <= i < |xs| ==> ',' !in xs[i]
    ensures ',' in Join(xs, ",") && !AllDigits(Join(xs, ","))
    ensures Infer(Join(xs, ",")) == Ok(HSet(TrimEach(DropTrailingEmpty(xs))))
  {
    FieldsOfJoin(xs, ',');
    IndexAfterChar(xs[0], ',', Join(xs[1..], ","));
    var s := Join(xs, ",");
    assert s == xs[0] + "," + Join(xs[1..], ",");
    assert s[|xs[0]|] == ',';
  }

  /** A trailing comma adds nothing: "x," is stored as the one-element set {x}. */
  lemma TrailingCommaDropped(x: string)
    requires x != "" && IsTrimmed(x) && ',' !in x
    ensures Infer(x + ",") == Ok(HSet({x}))
  {
    var xs := [x, ""];
    assert Join(xs, ",") == x + "," by {
      assert xs[1..] == [""];
    }
    InferList(xs);
    assert DropTrailingEmpty(xs) == [x] by {
      assert xs[..1] == [x];
    }
    TrimNoop(x);
    assert TrimEach([x]) == {x};
  }

  /** So `Accept-Encoding: gzip,` does accept gzip, where a lone `gzip` does not. */
  lemma GzipTrailingCommaAccepted(m: HeaderMap)
    ensures Infer("gzip,") == Ok(HSet({"gzip"}))
    ensures IsGzipAccepted(m["Accept-Encoding" := HSet({"gzip"})])
  {
    TrailingCommaDropped("gzip");
    assert "gzip" + "," == "gzip,";
  }

  /** Any other value is stored as the string itself. */
  lemma InferString(v: string)
    ensures Infer(v).Ok? && Infer(v).value.HStr? <==> !AllDigits(v) && ',' !in v
    ensures Infer(v).Ok? && Infer(v).value.HStr? ==> Infer(v).value.s == v
  {
  }

  // ------------------------------------------------------------ typed getters

  /** `Content-Length: 123` reads back through getContentLength as 123; any value
      that is not stored as an integer makes the cast throw. */
  lemma ContentLengthOfLine(m: HeaderMap, name: string, rest: string)
    requires ':' !in name && Trim(name) == "Content-Length" && "Content-Length" !in m
    requires AddLine(m, name + ":" + rest).Ok?
    ensures var r := AddLine(m, name + ":" + rest).value;
            && (ContentLength(r).Ok? <==> AllDigits(Trim(rest)))
            && (ContentLength(r).Ok? ==> ContentLength(r).value == DecimalValue(Trim(rest)))
            && (ContentLength(r).Thrown? ==> ContentLength(r).error == ClassCast)
  {
    NewNameBound(m, name, rest);
    StoredContentLength(m, Trim(rest));
  }

  lemma StoredContentLength(m: HeaderMap, v: string)
    requires Infer(v).Ok?
    ensures var r := m["Content-Length" := Infer(v).value];
            && (ContentLength(r).Ok? <==> AllDigits(v))
            && (ContentLength(r).Ok? ==> ContentLength(r).value == DecimalValue(v))
            && (ContentLength(r).Thrown? ==> ContentLength(r).error == ClassCast)
  {
    InferIntOnlyFromDigits(v);
  }

  /** getUserAgent returns the trimmed value only when it is neither all digits nor
      contains a comma; otherwise the cast throws (a browser agent such as
      "Mozilla/5.0 (X11, Linux)" is stored as a set). */
  lemma UserAgentOfLine(m: HeaderMap, name: string, rest: string)
    requires ':' !in name && Trim(name) == "User-Agent" && "User-Agent" !in m
    requires AddLine(m, name + ":" + rest).Ok?
    ensures var r := AddLine(m, name + ":" + rest).value;
            && (UserAgent(r).Ok? <==> !AllDigits(Trim(rest)) && ',' !in Trim(rest))
            && (UserAgent(r).Ok? ==> UserAgent(r).value == Trim(rest))
            && (UserAgent(r).Thrown? ==> UserAgent(r).error == ClassCast)
  {
    NewNameBound(m, name, rest);
    StoredUserAgent(m, Trim(rest));
  }

  lemma StoredUserAgent(m: HeaderMap, v: string)
    requires Infer(v).Ok?
    ensures var r := m["User-Agent" := Infer(v).value];
            && (UserAgent(r).Ok? <==> !AllDigits(v) && ',' !in v)
            && (UserAgent(r).Ok? ==> UserAgent(r).value == v)
            && (UserAgent(r).Thrown? ==> UserAgent(r).error == ClassCast)
  {
    InferString(v);
  }

  /** gzip is accepted from an Accept-Encoding line exactly when its value holds a
      comma and one of its comma-separated tokens trims to "gzip"; a lone
      `Accept-Encoding: gzip` is stored as a string and so is not accepted. */
  lemma GzipAcceptedOfLine(m: HeaderMap, name: string, rest: string)
    requires ':' !in name && Trim(name) == "Accept-Encoding" && "Accept-Encoding" !in m
    requires AddLine(m, name + ":" + rest).Ok?
    ensures IsGzipAccepted(AddLine(m, name + ":" + rest).value) <==>
              && ',' in Trim(rest) && !AllDigits(Trim(rest))
              && exists p :: p in Split(Trim(rest), ",") && Trim(p) == "gzip"
  {
    NewNameBound(m, name, rest);
    StoredGzipAccepted(m, Trim(rest));
  }

  lemma StoredGzipAccepted(m: HeaderMap, v: string)
    requires Infer(v).Ok?
    ensures IsGzipAccepted(m["Accept-Encoding" := Infer(v).value]) <==>
              && ',' in v && !AllDigits(v)
              && exists p :: p in Split(v, ",") && Trim(p) == "gzip"
  {
    InferString(v);
    InferIntOnlyFromDigits(v);
    if ',' in v && !AllDigits(v) {
      var parts := Split(v, ",");
      assert Infer(v) == Ok(HSet(TrimEach(parts)));
      assert "gzip" in TrimEach(parts) <==> exists p :: p in parts && Trim(p) == "gzip";
    }
  }

  lemma LoneGzipStoredAsString(m: HeaderMap)
    ensures Infer("gzip") == Ok(HStr("gzip"))
    ensures !IsGzipAccepted(m["Accept-Encoding" := HStr("gzip")])
  {
    InferString("gzip");
  }

  lemma GzipListStoredAsSet()
    ensures Infer("gzip, deflate") == Ok(HSet({"gzip", "deflate"}))
  {
    GzipListInferred();
    GzipListTokens();
  }

  lemma GzipListInferred()
    ensures Infer("gzip, deflate") == Ok(HSet(TrimEach(["gzip", " deflate"])))
  {
    var xs := ["gzip", " deflate"];
    assert Join(xs, ",") == "gzip, deflate";
    InferList(xs);
    assert DropTrailingEmpty(xs) == xs;
  }

  lemma GzipListTokens()
    ensures TrimEach(["gzip", " deflate"]) == {"gzip", "deflate"}
  {
    TrimNoop("gzip");
    TrimPadded(" ", "deflate", "");
    assert " deflate" == " " + "deflate" + "";
  }

  // ------------------------------------------------------------ round trip

  /** Values whose rendering reads back as the same value. */
  ghost predicate Reparsable(v: HVal)
  {
    match v
    case HInt(n) => 0 <= n <= IntMax
    case HStr(s) => IsTrimmed(s) && !AllDigits(s) && ',' !in s
    case HSet(_) => false
  }

  /** The rendering of an integer in range, or of a trimmed string that is neither
      all digits nor holds a comma, is inferred back as the same value. */
  lemma InferRendered(v: HVal, text: string)
    requires RendersValue(v, text) && Reparsable(v)
    ensures Infer(Trim(" " + text)) == Ok(v)
  {
    assert " " + text == " " + text + "";
    match v
    case HInt(n) =>
      DecimalRoundTrip(n);
      TrimPadded(" ", text, "");
      InferDecimal(n);
    case HStr(s) =>
      TrimPadded(" ", text, "");
      InferString(s);
  }

  /** A header line written by getHeadersAsList, fed to addHeader under a fresh
      name, stores the same integer or string value. */
  lemma HeaderLineRoundTrip(m: HeaderMap, k: string, v: HVal, line: string)
    requires k !in m && IsTrimmed(k) && ':' !in k
    requires IsHeaderLine(k, v, line) && Reparsable(v)
    ensures AddLine(m, line) == Ok(m[k := v])
  {
    var text := line[|k| + 2..];
    assert line == k + ":" + (" " + text);
    TrimNoop(k);
    NewNameBound(m, k, " " + text);
    InferRendered(v, text);
  }

  /** A set value does not round-trip: "[x, y]", a rendering of {x, y}, is read
      back as {"[x", "y]"}, the brackets staying on the outer tokens, and that is
      a different set. */
  lemma SetRenderingNotReparsed(x: string, y: string)
    requires x != y && x != "" && y != "" && IsTrimmed(x) && IsTrimmed(y)
    requires ',' !in x && ',' !in y
    ensures RendersValue(HSet({x, y}), "[" + x + ", " + y + "]")
    ensures Infer("[" + x + ", " + y + "]") == Ok(HSet({"[" + x, y + "]"}))
    ensures {"[" + x, y + "]"} != {x, y}
  {
    SetRendered(x, y);
    BracketsKept(x, y);
    if |y| == |x| + 1 {
      assert |y + "]"| == |x| + 2;
      assert y + "]" !in {x, y};
    } else {
      assert |"[" + x| == |x| + 1;
      assert "[" + x !in {x, y};
    }
  }

  lemma SetRendered(x: string, y: string)
    requires x != y
    ensures RendersValue(HSet({x, y}), "[" + x + ", " + y + "]")
  {
    var elems := [x, y];
    assert Enumerates(elems, {x, y});
    assert Join(elems, ", ") == x + ", " + y by {
      assert elems[1..] == [y];
    }
    assert "[" + x + ", " + y + "]" == "[" + Join(elems, ", ") + "]";
  }

  /** The rendering "[x, y]" of a two-element set is read back with the brackets
      kept on the outer tokens. */
  lemma BracketsKept(x: string, y: string)
    requires x != "" && y != "" && IsTrimmed(x) && IsTrimmed(y) && ',' !in x && ',' !in y
    ensures Infer("[" + x + ", " + y + "]") == Ok(HSet({"[" + x, y + "]"}))
  {
    var xs := ["[" + x, " " + (y + "]")];
    BracketTokens(x, y);
    InferList(xs);
    assert DropTrailingEmpty(xs) == xs;
    BracketsTrimmed(x, y);
  }

  lemma BracketTokens(x: string, y: string)
    ensures Join(["[" + x, " " + (y + "]")], ",") == "[" + x + ", " + y + "]"
  {
    var xs := ["[" + x, " " + (y + "]")];
    assert xs[1..] == [" " + (y + "]")];
  }

  lemma BracketsTrimmed(x: string, y: string)
    requires x != "" && IsTrimmed(x) && IsTrimmed(y)
    ensures TrimEach(["[" + x, " " + (y + "]")]) == {"[" + x, y + "]"}
  {
    var first, second := "[" + x, " " + (y + "]");
    TrimEachPair(first, second);
    assert first[|first| - 1] == x[|x| - 1];
    TrimNoop(first);
    TrimPadded(" ", y + "]", "");
    assert second == " " + (y + "]") + "";
  }

  lemma TrimEachPair(x: string, y: string)
    ensures TrimEach([x, y]) == {Trim(x), Trim(y)}
  {
    assert forall p :: p in [x, y] <==> p == x || p == y;
  }
}
