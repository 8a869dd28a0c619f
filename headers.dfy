/** The typed header store (class Headers, Main.java:16-82): a map from trimmed
    header names to an integer, a set of strings or a string, inferred from the
    text of the header line; the first write of a name wins. */
module HeaderStore {
  import opened Exceptions
  import opened Text

  /** Integer.MAX_VALUE: the largest value Integer.parseInt accepts. */
  const IntMax: int := 2147483647

  datatype HVal = HInt(n: int) | HSet(items: set<string>) | HStr(s: string)

  type HeaderMap = map<string, HVal>

  // ------------------------------------------------------------ value inference

  function TrimEach(parts: seq<string>): set<string>
  {
    set p | p in parts :: Trim(p)
  }

  /** The value stored for an already trimmed header value: an integer when it is
      all digits (Integer.parseInt throws above Integer.MAX_VALUE), otherwise a set
      of trimmed tokens when it contains a comma, otherwise the string itself. */
  function Infer(value: string): Result<HVal>
  {
    if AllDigits(value) then
      (if DecimalValue(value) <= IntMax then Ok(HInt(DecimalValue(value))) else Thrown(NumberFormat))
    else if ',' in value then Ok(HSet(TrimEach(Split(value, ","))))
    else Ok(HStr(value))
  }

  /** Headers.addHeader on the map: lines without a colon and names already
      present leave the map as it is; otherwise the trimmed name is bound to the
      value inferred from the trimmed text after the first colon. */
  function AddLine(m: HeaderMap, line: string): Result<HeaderMap>
  {
    match SplitAtFirst(line, ':')
    case None => Ok(m)
    case Some((name, rest)) =>
      var key := Trim(name);
      if key in m then Ok(m)
      else
        match Infer(Trim(rest))
        case Thrown(e) => Thrown(e)
        case Ok(v) => Ok(m[key := v])
  }

  // ------------------------------------------------------------ typed getters

  /** getUserAgent: the cast to String fails on a value stored as a number or a set. */
  function UserAgent(m: HeaderMap): Result<string>
  {
    if "User-Agent" !in m then Ok("")
    else match m["User-Agent"]
      case HStr(s) => Ok(s)
      case _ => Thrown(ClassCast)
  }

  /** getContentLength: the cast to int fails on a value stored as a string or a set. */
  function ContentLength(m: HeaderMap): Result<int>
  {
    if "Content-Length" !in m then Ok(0)
    else match m["Content-Length"]
      case HInt(n) => Ok(n)
      case _ => Thrown(ClassCast)
  }

  /** isGzipAccepted: only a set-valued Accept-Encoding can accept gzip. */
  predicate IsGzipAccepted(m: HeaderMap)
  {
    "Accept-Encoding" in m && m["Accept-Encoding"].HSet? && "gzip" in m["Accept-Encoding"].items
  }

  /** isContentEncodingGzip: "gzip".equals(the stored value). */
  predicate IsContentEncodingGzip(m: HeaderMap)
  {
    "Content-Encoding" in m && m["Content-Encoding"] == HStr("gzip")
  }

  // ------------------------------------------------------------ rendering

  /** `elems` lists every member of `items` exactly once, in some order. */
  ghost predicate Enumerates(elems: seq<string>, items: set<string>)
  {
    (forall i, j :: 0 <= i < j < |elems| ==> elems[i] != elems[j])
    && (forall e :: e in elems <==> e in items)
  }

  /** The toString of a stored value: Integer.toString, the string itself, or
      AbstractCollection.toString of the set in its (unspecified) iteration order. */
  ghost predicate RendersValue(v: HVal, text: string)
  {
    match v
    case HInt(n) => text == IntText(n)
    case HStr(s) => text == s
    case HSet(items) => exists elems :: Enumerates(elems, items) && text == "[" + Join(elems, ", ") + "]"
  }

  /** One line of getHeadersAsList: name, ": ", rendered value. */
  ghost predicate IsHeaderLine(k: string, v: HVal, line: string)
  {
    |k| + 2 <= |line| && line[..|k| + 2] == k + ": " && RendersValue(v, line[|k| + 2..])
  }

  /** `lines` holds one line per entry of `m`, in the order of the keys in `order`,
      which lists every key exactly once. */
  ghost predicate ListsHeaders(m: HeaderMap, order: seq<string>, lines: seq<string>)
  {
    && |order| == |lines|
    && (forall i, j :: 0 <= i < j < |order| ==> order[i] != order[j])
    && (forall k :: k in m <==> k in order)
    && (forall i :: 0 <= i < |order| ==> order[i] in m && IsHeaderLine(order[i], m[order[i]], lines[i]))
  }

  // ------------------------------------------------------------ the store

  class Headers {
    var entries: HeaderMap

    constructor()
      ensures entries == map[]
    {
      entries := map[];
    }

    method AddHeader(line: string) returns (outcome: Outcome)
      modifies this
      ensures AddLine(old(entries), line).Ok? ==>
                outcome == Done && entries == AddLine(old(entries), line).value
      ensures AddLine(old(entries), line).Thrown? ==>
                outcome == Raised(AddLine(old(entries), line).error) && entries == old(entries)
      ensures forall k :: k in old(entries) ==> k in entries && entries[k] == old(entries)[k]
    {
      var parts := SplitAtFirst(line, ':');
      if parts.None? {
        return Done;
      }
      var key := Trim(parts.value.0);
      var value := Trim(parts.value.1);
      if key !in entries {
        var inferred := Infer(value);
        if inferred.Thrown? {
          return Raised(inferred.error);
        }
        entries := entries[key := inferred.value];
      }
      outcome := Done;
    }

    method SetContentLength(length: int)
      modifies this
      ensures entries == old(entries)["Content-Length" := HInt(length)]
      ensures ContentLength(entries) == Ok(length)
    {
      entries := entries["Content-Length" := HInt(length)];
    }

    method SetContentType(contentType: string)
      modifies this
      ensures entries == old(entries)["Content-Type" := HStr(contentType)]
    {
      entries := entries["Content-Type" := HStr(contentType)];
    }

    method SetContentEncoding(encoding: string)
      modifies this
      ensures entries == old(entries)["Content-Encoding" := HStr(encoding)]
    {
      entries := entries["Content-Encoding" := HStr(encoding)];
    }

    method SetContentEncodingGzip()
      modifies this
      ensures entries == old(entries)["Content-Encoding" := HStr("gzip")]
      ensures IsContentEncodingGzip(entries)
    {
      SetContentEncoding("gzip");
    }

    /** getHeadersAsList: one "Name: value" line per entry, in HashMap order. */
    method HeadersAsList() returns (lines: seq<string>, ghost order: seq<string>)
      ensures ListsHeaders(entries, order, lines)
    {
      lines, order := [], [];
      var rest := entries.Keys;
      while rest != {}
        invariant rest <= entries.Keys
        invariant |order| == |lines|
        invariant forall i, j :: 0 <= i < j < |order| ==> order[i] != order[j]
        invariant forall k :: k in entries ==> (k in order <==> k !in rest)
        invariant forall i :: 0 <= i < |order| ==> order[i] in entries
        invariant forall i :: 0 <= i < |order| ==> IsHeaderLine(order[i], entries[order[i]], lines[i])
        decreases rest
      {
        var k :| k in rest;
        var text := ValueToString(entries[k]);
        var line := k + ": " + text;
        assert line[..|k| + 2] == k + ": " && line[|k| + 2..] == text;
        lines, order := lines + [line], order + [k];
        rest := rest - {k};
      }
    }
  }

  /** Object.toString of a stored value. */
  method ValueToString(v: HVal) returns (text: string)
    ensures RendersValue(v, text)
  {
    match v
    case HInt(n) => text := IntText(n);
    case HStr(s) => text := s;
    case HSet(items) =>
      var elems: seq<string> := [];
      var rest := items;
      while rest != {}
        invariant rest <= items
        invariant forall i, j :: 0 <= i < j < |elems| ==> elems[i] != elems[j]
        invariant forall e :: e in elems <==> e in items && e !in rest
        decreases rest
      {
        var e :| e in rest;
        elems := elems + [e];
        rest := rest - {e};
      }
      text := "[" + Join(elems, ", ") + "]";
      assert Enumerates(elems, items);
  }
}
