/** The two string built-ins the task store relies on: `String.prototype.trim`
    (used on every text the user types) and `Array.prototype.join(',')` (used to
    compare the key-sequence buffer with its target). */
module JsString {

  /** The characters `trim` removes: ECMAScript WhiteSpace (tab, vertical tab,
      form feed, space, no-break space, byte-order mark and the Unicode space
      separators) and LineTerminator (line feed, carriage return, line and
      paragraph separators). */
  predicate IsWhitespace(c: char) {
    c in WhitespaceChars
  }

  const WhitespaceChars: set<char> := {
    '\t', '\n', '\U{000B}', '\U{000C}', '\r', ' ', '\U{00A0}', '\U{1680}',
    '\U{2000}', '\U{2001}', '\U{2002}', '\U{2003}', '\U{2004}', '\U{2005}',
    '\U{2006}', '\U{2007}', '\U{2008}', '\U{2009}', '\U{200A}',
    '\U{2028}', '\U{2029}', '\U{202F}', '\U{205F}', '\U{3000}', '\U{FEFF}'
  }

  /** Every character of `s` is whitespace (the empty string included). */
  predicate Blank(s: string) {
    forall k :: 0 <= k < |s| ==> IsWhitespace(s[k])
  }

  /** `s` without its leading whitespace. */
  function TrimStart(s: string): string {
    if |s| > 0 && IsWhitespace(s[0]) then TrimStart(s[1..]) else s
  }

  /** What `TrimStart` leaves is a suffix of `s`, what it drops is blank, and
      what is left does not start with whitespace. */
  lemma {:induction false} TrimStartSpec(s: string)
    ensures |TrimStart(s)| <= |s| && TrimStart(s) == s[|s| - |TrimStart(s)|..]
    ensures Blank(s[..|s| - |TrimStart(s)|])
    ensures TrimStart(s) == [] || !IsWhitespace(TrimStart(s)[0])
  {
    if |s| > 0 && IsWhitespace(s[0]) {
      var r := TrimStart(s[1..]);
      TrimStartSpec(s[1..]);
      assert s[..|s| - |r|] == [s[0]] + s[1..][..|s| - 1 - |r|];
    }
  }

  /** `s` without its trailing whitespace. */
  function TrimEnd(s: string): string {
    if |s| > 0 && IsWhitespace(s[|s| - 1]) then TrimEnd(s[..|s| - 1]) else s
  }

  /** What `TrimEnd` leaves is a prefix of `s`, what it drops is blank, and
      what is left does not end with whitespace. */
  lemma {:induction false} TrimEndSpec(s: string)
    ensures |TrimEnd(s)| <= |s| && TrimEnd(s) == s[..|TrimEnd(s)|]
    ensures Blank(s[|TrimEnd(s)|..])
    ensures TrimEnd(s) == [] || !IsWhitespace(TrimEnd(s)[|TrimEnd(s)| - 1])
  {
    if |s| > 0 && IsWhitespace(s[|s| - 1]) {
      var r := TrimEnd(s[..|s| - 1]);
      TrimEndSpec(s[..|s| - 1]);
      assert s[|r|..] == s[..|s| - 1][|r|..] + [s[|s| - 1]];
    }
  }

  /** `String.prototype.trim`: the result neither starts nor ends with
      whitespace, and it is empty exactly when `s` is blank. */
  function Trim(s: string): (r: string)
    ensures |r| <= |s|
    ensures r == [] || (!IsWhitespace(r[0]) && !IsWhitespace(r[|r| - 1]))
    ensures r == [] <==> Blank(s)
  {
    var t := TrimStart(s);
    TrimStartSpec(s);
    TrimEndSpec(t);
    assert t != [] ==> !Blank(s) by {
      if t != [] {
        assert !IsWhitespace(s[|s| - |t|]);
      }
    }
    assert t == [] ==> Blank(s) by {
      if t == [] {
        assert s[..|s|] == s;
      }
    }
    TrimEnd(t)
  }

  /** What `trim` drops is blank padding on either side of its result: `i`
      blanks before it and only blanks after it. */
  lemma TrimPadding(s: string) returns (i: nat)
    ensures i + |Trim(s)| <= |s| && Trim(s) == s[i..i + |Trim(s)|]
    ensures Blank(s[..i]) && Blank(s[i + |Trim(s)|..])
  {
    TrimStartSpec(s);
    TrimEndSpec(TrimStart(s));
    i := |s| - |TrimStart(s)|;
    Padding(s, TrimStart(s), Trim(s), i);
  }

  /** A blank-prefixed suffix `t` of `s`, cut down to a prefix `r` followed by
      blanks, leaves `r` as a middle part of `s` with blanks on both sides. */
  lemma Padding(s: string, t: string, r: string, i: nat)
    requires |t| <= |s| && i == |s| - |t| && t == s[i..] && Blank(s[..i])
    requires |r| <= |t| && r == t[..|r|] && Blank(t[|r|..])
    ensures i + |r| <= |s| && r == s[i..i + |r|] && Blank(s[i + |r|..])
  {
    assert s[i..][..|r|] == s[i..i + |r|];
    assert s[i..][|r|..] == s[i + |r|..];
  }

  /** Trimming an already trimmed string changes nothing. */
  lemma TrimTrimmed(s: string)
    requires s == [] || (!IsWhitespace(s[0]) && !IsWhitespace(s[|s| - 1]))
    ensures Trim(s) == s
  {
    assert TrimStart(s) == s;
  }

  /** No comma inside: the fields `join(',')` glues together can be told apart. */
  predicate CommaFree(s: string) {
    ',' !in s
  }

  /** `parts.join(',')`: the empty string for no parts; otherwise, when the
      first part holds no comma, the text before the first comma is that part. */
  function JoinWithCommas(parts: seq<string>): (r: string)
    ensures parts == [] ==> r == []
    ensures parts != [] && CommaFree(parts[0]) ==> FirstField(r) == parts[0]
  {
    if |parts| == 0 then ""
    else if |parts| == 1 then
      assert CommaFree(parts[0]) ==> FirstField(parts[0]) == parts[0] by {
        if CommaFree(parts[0]) {
          FirstFieldOf(parts[0], "");
          assert parts[0] + "" == parts[0];
        }
      }
      parts[0]
    else
      var rest := "," + JoinWithCommas(parts[1..]);
      assert CommaFree(parts[0]) ==> FirstField(parts[0] + rest) == parts[0] by {
        if CommaFree(parts[0]) {
          FirstFieldOf(parts[0], rest);
        }
      }
      assert parts[0] + "," + JoinWithCommas(parts[1..]) == parts[0] + rest;
      parts[0] + rest
  }

  /** The text of `s` before its first comma (all of `s` when it has none). */
  function FirstField(s: string): (r: string)
    ensures |r| <= |s| && r == s[..|r|] && CommaFree(r)
    ensures |r| < |s| ==> s[|r|] == ','
  {
    if s == [] || s[0] == ',' then [] else [s[0]] + FirstField(s[1..])
  }

  /** A comma-free field followed by nothing or by a comma is the first field. */
  lemma {:induction false} FirstFieldOf(x: string, rest: string)
    requires CommaFree(x)
    requires rest == [] || rest[0] == ','
    ensures FirstField(x + rest) == x
  {
    if x != [] {
      assert (x + rest)[0] == x[0];
      assert (x + rest)[1..] == x[1..] + rest;
      FirstFieldOf(x[1..], rest);
    }
  }

  /** For non-empty lists of comma-free fields, the joined strings are equal
      exactly when the lists are. */
  lemma JoinsEqual(a: seq<string>, b: seq<string>)
    requires |a| > 0 && |b| > 0
    requires forall k :: 0 <= k < |a| ==> CommaFree(a[k])
    requires forall k :: 0 <= k < |b| ==> CommaFree(b[k])
    ensures JoinWithCommas(a) == JoinWithCommas(b) <==> a == b
  {
    if JoinWithCommas(a) == JoinWithCommas(b) {
      JoinInjective(a, b);
    }
  }

  /** Joining non-empty lists of comma-free fields is injective, so comparing the
      joined strings compares the lists. */
  lemma {:induction false} JoinInjective(a: seq<string>, b: seq<string>)
    requires |a| > 0 && |b| > 0
    requires forall k :: 0 <= k < |a| ==> CommaFree(a[k])
    requires forall k :: 0 <= k < |b| ==> CommaFree(b[k])
    requires JoinWithCommas(a) == JoinWithCommas(b)
    ensures a == b
  {
    var restA, restB := JoinTail(a), JoinTail(b);
    FirstFieldOf(a[0], restA);
    FirstFieldOf(b[0], restB);
    Cancel(a[0], restA, restB);
    if |a| > 1 && |b| > 1 {
      JoinInjective(a[1..], b[1..]);
      assert a == [a[0]] + a[1..] && b == [b[0]] + b[1..];
    }
  }

  /** What follows the first field in `parts.join(',')`: nothing for a single
      field, otherwise a comma and the join of the remaining fields. */
  function JoinTail(parts: seq<string>): (r: string)
    requires |parts| > 0
    ensures JoinWithCommas(parts) == parts[0] + r
    ensures r == [] <==> |parts| == 1
    ensures |parts| > 1 ==> r[0] == ',' && r[1..] == JoinWithCommas(parts[1..])
  {
    if |parts| == 1 then "" else "," + JoinWithCommas(parts[1..])
  }

  /** A common prefix cancels. */
  lemma Cancel(x: string, y: string, z: string)
    requires x + y == x + z
    ensures y == z
  {
    assert y == (x + y)[|x|..];
    assert z == (x + z)[|x|..];
  }
}
