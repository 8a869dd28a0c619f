/** The java.lang.String operations the message layer relies on, over ASCII text:
    trim, split (with Java's dropping of trailing empty strings), toUpperCase,
    Integer.parseInt on digit strings and Integer.toString. */
module Text {
  import opened Exceptions

  const CRLF: string := "\r\n"

  // ---------------------------------------------------------------- trim

  /** String.trim() removes every leading and trailing char at or below U+0020. */
  predicate IsSpace(c: char) { c <= ' ' }

  predicate AllSpace(s: string) { forall i :: 0 <= i < |s| ==> IsSpace(s[i]) }

  /** Index of the first non-space char at or after `i` (or |s|). */
  function SkipSpace(s: string, i: nat): (r: nat)
    requires i <= |s|
    ensures i <= r <= |s|
    ensures forall k :: i <= k < r ==> IsSpace(s[k])
    ensures r < |s| ==> !IsSpace(s[r])
    decreases |s| - i
  {
    if i < |s| && IsSpace(s[i]) then SkipSpace(s, i + 1) else i
  }

  /** Index just past the last non-space char before `j`, not going below `lo`. */
  function SkipSpaceBack(s: string, lo: nat, j: nat): (r: nat)
    requires lo <= j <= |s|
    ensures lo <= r <= j
    ensures forall k :: r <= k < j ==> IsSpace(s[k])
    ensures lo < r ==> !IsSpace(s[r - 1])
    decreases j
  {
    if lo < j && IsSpace(s[j - 1]) then SkipSpaceBack(s, lo, j - 1) else j
  }

  /** A string Java's trim() leaves alone: empty, or no space at either end. */
  predicate IsTrimmed(s: string) { s == [] || (!IsSpace(s[0]) && !IsSpace(s[|s| - 1])) }

  function Trim(s: string): (r: string)
    ensures IsTrimmed(r)
    ensures |r| <= |s|
  {
    var lo := SkipSpace(s, 0);
    s[lo..SkipSpaceBack(s, lo, |s|)]
  }

  /** Trim removes exactly the space padding: whatever surrounds a trimmed core is dropped. */
  lemma TrimPadded(pre: string, core: string, post: string)
    requires AllSpace(pre) && AllSpace(post) && IsTrimmed(core)
    ensures Trim(pre + core + post) == core
  {
    var s := pre + core + post;
    var lo := SkipSpace(s, 0);
    if core == [] {
      assert AllSpace(s) by {
        forall i | 0 <= i < |s| ensures IsSpace(s[i]) {
          if i < |pre| { assert s[i] == pre[i]; } else { assert s[i] == post[i - |pre|]; }
        }
      }
      assert lo == |s|;
    } else {
      assert s[|pre|] == core[0];
      assert forall k :: 0 <= k < |pre| ==> s[k] == pre[k];
      assert lo == |pre|;
      var hi := SkipSpaceBack(s, lo, |s|);
      assert s[|pre| + |core| - 1] == core[|core| - 1];
      assert forall k :: |pre| + |core| <= k < |s| ==> s[k] == post[k - |pre| - |core|];
      assert hi == |pre| + |core|;
      assert s[lo..hi] == core;
    }
  }

  lemma TrimNoop(s: string)
    requires IsTrimmed(s)
    ensures Trim(s) == s
  {
    TrimPadded([], s, []);
    assert [] + s + [] == s;
  }

  // ---------------------------------------------------------------- digits

  predicate IsDigit(c: char) { '0' <= c <= '9' }

  /** The regular expression \d+ of String.matches: one or more ASCII digits. */
  predicate AllDigits(s: string) { |s| > 0 && forall i :: 0 <= i < |s| ==> IsDigit(s[i]) }

  function DigitChar(d: nat): (c: char)
    requires d < 10
    ensures IsDigit(c)
  {
    (('0' as int) + d) as char
  }

  function DigitValue(c: char): nat
    requires IsDigit(c)
  {
    (c as int) - ('0' as int)
  }

  /** The number a digit string denotes (leading zeros allowed). */
  function DecimalValue(s: string): nat
    requires forall i :: 0 <= i < |s| ==> IsDigit(s[i])
  {
    if |s| == 0 then 0 else DecimalValue(s[..|s| - 1]) * 10 + DigitValue(s[|s| - 1])
  }

  /** Canonical decimal form of a natural number (Integer.toString for n >= 0). */
  function Decimal(n: nat): string
  {
    if n < 10 then [DigitChar(n)] else Decimal(n / 10) + [DigitChar(n % 10)]
  }

  /** Integer.toString. */
  function IntText(n: int): string
  {
    if n < 0 then "-" + Decimal(-n) else Decimal(n)
  }

  /** Reading back what Integer.toString writes gives the same number. */
  lemma {:induction false} DecimalRoundTrip(n: nat)
    ensures AllDigits(Decimal(n))
    ensures DecimalValue(Decimal(n)) == n
  {
    if n >= 10 {
      DecimalRoundTrip(n / 10);
      var s := Decimal(n);
      assert s[..|s| - 1] == Decimal(n / 10);
    }
  }

  // ---------------------------------------------------------------- case

  function UpperChar(c: char): char
  {
    if 'a' <= c <= 'z' then ((c as int) - 32) as char else c
  }

  /** String.toUpperCase on ASCII text. */
  function ToUpper(s: string): (r: string)
    ensures |r| == |s|
    ensures forall i :: 0 <= i < |r| ==> !('a' <= r[i] <= 'z')
    ensures forall i :: 0 <= i < |r| && !('a' <= s[i] <= 'z') ==> r[i] == s[i]
    ensures forall i :: 0 <= i < |r| && 'a' <= s[i] <= 'z' ==> r[i] as int == s[i] as int - 32
  {
    seq(|s|, i requires 0 <= i < |s| => UpperChar(s[i]))
  }

  // ---------------------------------------------------------------- split

  /** String.startsWith. */
  predicate StartsWith(s: string, prefix: string)
  {
    |prefix| <= |s| && s[..|prefix|] == prefix
  }

  /** `sep` occurs in `s` starting at index k. */
  predicate OccursAt(s: string, sep: string, k: nat)
  {
    k + |sep| <= |s| && s[k..k + |sep|] == sep
  }

  /** `s` contains no occurrence of `sep`. */
  ghost predicate Free(s: string, sep: string)
  {
    forall k: nat :: !OccursAt(s, sep, k)
  }

  /** The first occurrence of `sep` at or after `from` (String.indexOf). */
  function IndexFrom(s: string, sep: string, from: nat): (r: Option<nat>)
    requires |sep| > 0 && from <= |s|
    ensures r.Some? ==> from <= r.value && OccursAt(s, sep, r.value)
    ensures r.Some? ==> forall k: nat :: from <= k < r.value ==> !OccursAt(s, sep, k)
    ensures r.None? ==> forall k: nat :: from <= k ==> !OccursAt(s, sep, k)
    decreases |s| - from
  {
    if from + |sep| > |s| then None
    else if s[from..from + |sep|] == sep then Some(from)
    else IndexFrom(s, sep, from + 1)
  }

  /** Concatenation with `sep` between consecutive items (String.join). */
  function Join(xs: seq<string>, sep: string): string
  {
    if |xs| == 0 then ""
    else if |xs| == 1 then xs[0]
    else xs[0] + sep + Join(xs[1..], sep)
  }

  /** Every piece of `s` between occurrences of `sep`, empty ones included. */
  function Fields(s: string, sep: string): (r: seq<string>)
    requires |sep| > 0
    ensures |r| >= 1
    ensures Join(r, sep) == s
    ensures forall i :: 0 <= i < |r| ==> Free(r[i], sep)
    decreases |s|
  {
    match IndexFrom(s, sep, 0)
    case None => [s]
    case Some(i) =>
      var head, tail := s[..i], s[i + |sep|..];
      assert Free(head, sep) by {
        forall k: nat ensures !OccursAt(head, sep, k) {
          if k + |sep| <= |head| {
            assert !OccursAt(s, sep, k);
            assert head[k..k + |sep|] == s[k..k + |sep|];
          }
        }
      }
      var rest := Fields(tail, sep);
      assert s == head + sep + tail by { assert s[i..i + |sep|] == sep; }
      [head] + rest
  }

  /** Drops the trailing empty strings, as String.split with limit 0 does. */
  function DropTrailingEmpty(xs: seq<string>): (r: seq<string>)
    ensures r <= xs
    ensures r == [] || r[|r| - 1] != ""
    ensures forall i :: |r| <= i < |xs| ==> xs[i] == ""
  {
    if |xs| > 0 && xs[|xs| - 1] == "" then DropTrailingEmpty(xs[..|xs| - 1]) else xs
  }

  /** String.split(sep): the whole string when `sep` does not occur, otherwise the
      fields with trailing empty strings removed. */
  function Split(s: string, sep: string): seq<string>
    requires |sep| > 0
  {
    if IndexFrom(s, sep, 0).None? then [s] else DropTrailingEmpty(Fields(s, sep))
  }

  /** String.split(":", 2) with the two-part check: the text before and after the
      first occurrence of `c`, if there is one. */
  function SplitAtFirst(s: string, c: char): (r: Option<(string, string)>)
    ensures r.None? <==> c !in s
    ensures r.Some? ==> s == r.value.0 + [c] + r.value.1 && c !in r.value.0
  {
    match IndexFrom(s, [c], 0)
    case None =>
      assert c !in s by {
        forall k | 0 <= k < |s| ensures s[k] != c { assert !OccursAt(s, [c], k); }
      }
      None
    case Some(i) =>
      assert s[i] == c by { assert s[i..i + 1] == [c]; }
      assert c !in s[..i] by {
        forall k | 0 <= k < i ensures s[k] != c { assert s[k..k + 1] == [s[k]]; assert !OccursAt(s, [c], k); }
      }
      assert s == s[..i] + [c] + s[i + 1..];
      Some((s[..i], s[i + 1..]))
  }

  /** Splitting at the first `c` recovers a text before it that contains no `c`. */
  lemma SplitAtFirstOf(name: string, c: char, rest: string)
    requires c !in name
    ensures SplitAtFirst(name + [c] + rest, c) == Some((name, rest))
  {
    IndexAfterChar(name, c, rest);
    var s := name + [c] + rest;
    assert s[..|name|] == name && s[|name| + 1..] == rest;
  }

  /** `sep` is found right after `x` when no occurrence starts inside `x`. */
  lemma IndexAfter(x: string, sep: string, rest: string)
    requires |sep| > 0
    requires forall k: nat :: k < |x| ==> !OccursAt(x + sep, sep, k)
    ensures IndexFrom(x + sep + rest, sep, 0) == Some(|x|)
  {
    var s := x + sep + rest;
    assert OccursAt(s, sep, |x|) by { assert s[|x|..|x| + |sep|] == sep; }
    forall k: nat | k < |x| ensures !OccursAt(s, sep, k) {
      assert !OccursAt(x + sep, sep, k);
      assert s[k..k + |sep|] == (x + sep)[k..k + |sep|];
    }
  }

  /** A one-char separator is found right after a piece that does not contain it. */
  lemma IndexAfterChar(x: string, c: char, rest: string)
    requires c !in x
    ensures IndexFrom(x + [c] + rest, [c], 0) == Some(|x|)
  {
    forall k: nat | k < |x| ensures !OccursAt(x + [c], [c], k) {
      assert (x + [c])[k] == x[k];
    }
    IndexAfter(x, [c], rest);
  }

  /** A piece without a carriage return contains no CRLF. */
  lemma CrFree(x: string)
    requires '\r' !in x
    ensures Free(x, CRLF)
  {
    forall k: nat ensures !OccursAt(x, CRLF, k) {
      if k + 2 <= |x| { assert x[k..k + 2][0] == x[k]; }
    }
  }

  /** A CRLF is found right after a piece that contains none. */
  lemma IndexAfterCrlf(x: string, rest: string)
    requires Free(x, CRLF)
    ensures IndexFrom(x + CRLF + rest, CRLF, 0) == Some(|x|)
  {
    forall k: nat | k < |x| ensures !OccursAt(x + CRLF, CRLF, k) {
      if k + 1 < |x| {
        assert !OccursAt(x, CRLF, k);
        assert (x + CRLF)[k..k + 2] == x[k..k + 2];
      } else {
        assert (x + CRLF)[k + 1] == '\r';
      }
    }
    IndexAfter(x, CRLF, rest);
  }

  /** Splitting a joined list on a one-char separator the items do not contain
      gives the items back. */
  lemma {:induction false} FieldsOfJoin(xs: seq<string>, c: char)
    requires |xs| >= 1
    requires forall i :: 0 <= i < |xs| ==> c !in xs[i]
    ensures Fields(Join(xs, [c]), [c]) == xs
  {
    if |xs| == 1 {
      var s := xs[0];
      assert IndexFrom(s, [c], 0).None? by {
        forall k: nat ensures !OccursAt(s, [c], k) {
          if k + 1 <= |s| { assert s[k..k + 1] == [s[k]]; }
        }
      }
    } else {
      var tail := Join(xs[1..], [c]);
      IndexAfterChar(xs[0], c, tail);
      var s := xs[0] + [c] + tail;
      assert s[..|xs[0]|] == xs[0];
      assert s[|xs[0]| + 1..] == tail;
      FieldsOfJoin(xs[1..], c);
      assert [xs[0]] + xs[1..] == xs;
    }
  }

  /** The Java split of a joined list gives the list back, provided the separator
      occurs (two or more items) and the last item is not empty. */
  lemma SplitOfJoin(xs: seq<string>, c: char)
    requires |xs| >= 2 && xs[|xs| - 1] != ""
    requires forall i :: 0 <= i < |xs| ==> c !in xs[i]
    ensures Split(Join(xs, [c]), [c]) == xs
  {
    FieldsOfJoin(xs, c);
    IndexAfterChar(xs[0], c, Join(xs[1..], [c]));
  }
}
