/**
 * The JavaScript string operations the post parser is built from: `trim`,
 * the `/\s\s+/g` white-space collapse, the special-character class of the
 * grouping regular expressions, `startsWith`/`endsWith`, `join(" ")`,
 * `toUpperCase` and `replace` with a plain string pattern.
 */
module Strings {

  /** The characters JavaScript's `\s` matches and `String.prototype.trim` removes. */
  predicate IsSpace(c: char) {
    c == ' ' || ('\t' <= c <= '\r') || c == '\U{A0}' || c == '\U{1680}'
    || ('\U{2000}' <= c <= '\U{200A}') || c == '\U{2028}' || c == '\U{2029}'
    || c == '\U{202F}' || c == '\U{205F}' || c == '\U{3000}' || c == '\U{FEFF}'
  }

  predicate AllSpace(s: string) {
    forall i :: 0 <= i < |s| ==> IsSpace(s[i])
  }

  /** No two consecutive white-space characters. */
  predicate NoDoubleSpace(s: string) {
    forall i :: 0 <= i < |s| - 1 ==> !(IsSpace(s[i]) && IsSpace(s[i + 1]))
  }

  /** The non-white-space characters of `s`, in order. */
  function Letters(s: string): string {
    if s == [] then []
    else (if IsSpace(s[0]) then [] else [s[0]]) + Letters(s[1..])
  }

  lemma {:induction false} LettersAppend(a: string, b: string)
    ensures Letters(a + b) == Letters(a) + Letters(b)
  {
    if a != [] {
      assert (a + b)[0] == a[0];
      assert (a + b)[1..] == a[1..] + b;
      LettersAppend(a[1..], b);
      var head := if IsSpace(a[0]) then [] else [a[0]];
      calc {
        Letters(a + b);
        head + Letters(a[1..] + b);
        head + (Letters(a[1..]) + Letters(b));
        (head + Letters(a[1..])) + Letters(b);
      }
    } else {
      assert a + b == b;
    }
  }

  /** `s.trimStart()`. */
  function TrimStart(s: string): string {
    if s != [] && IsSpace(s[0]) then TrimStart(s[1..]) else s
  }

  /** `trimStart` drops the leading white space and nothing else. */
  lemma {:induction false} TrimStartSpec(s: string)
    ensures var r := TrimStart(s);
      |r| <= |s| && r == s[|s| - |r|..]
      && AllSpace(s[..|s| - |r|])
      && (r == [] || !IsSpace(r[0]))
      && Letters(r) == Letters(s)
  {
    if s != [] && IsSpace(s[0]) {
      TrimStartSpec(s[1..]);
      var r := TrimStart(s);
      assert s[1..][|s| - 1 - |r|..] == s[|s| - |r|..];
      assert s[..|s| - |r|] == [s[0]] + s[1..][..|s| - 1 - |r|];
    }
  }

  /** `s.trimEnd()`. */
  function TrimEnd(s: string): string {
    if s != [] && IsSpace(s[|s| - 1]) then TrimEnd(s[..|s| - 1]) else s
  }

  /** `trimEnd` drops the trailing white space and nothing else. */
  lemma {:induction false} TrimEndSpec(s: string)
    ensures var r := TrimEnd(s);
      |r| <= |s| && r == s[..|r|]
      && AllSpace(s[|r|..])
      && (r == [] || !IsSpace(r[|r| - 1]))
      && Letters(r) == Letters(s)
  {
    TrimEndShape(s);
    var r := TrimEnd(s);
    assert s == r + s[|r|..];
    LettersAppend(r, s[|r|..]);
    LettersOfSpace(s[|r|..]);
  }

  lemma {:induction false} TrimEndShape(s: string)
    ensures var r := TrimEnd(s);
      |r| <= |s| && r == s[..|r|]
      && AllSpace(s[|r|..])
      && (r == [] || !IsSpace(r[|r| - 1]))
  {
    if s != [] && IsSpace(s[|s| - 1]) {
      var s' := s[..|s| - 1];
      TrimEndShape(s');
      var r := TrimEnd(s');
      assert s'[..|r|] == s[..|r|];
      assert s[|r|..] == s'[|r|..] + [s[|s| - 1]];
    }
  }

  /** White space has no letters. */
  lemma {:induction false} LettersOfSpace(s: string)
    requires AllSpace(s)
    ensures Letters(s) == []
  {
    if s != [] {
      LettersOfSpace(s[1..]);
    }
  }

  /** `s.trim()`. */
  function Trim(s: string): string {
    TrimEnd(TrimStart(s))
  }

  /**
   * `trim` removes white space at both ends and nothing else: the result
   * starts and ends with a non-space character, is empty exactly when the
   * input is all white space, and keeps every other character in order.
   */
  lemma TrimSpec(s: string)
    ensures var r := Trim(s);
      (exists k: nat :: k + |r| <= |s| && r == s[k..k + |r|] && AllSpace(s[..k]) && AllSpace(s[k + |r|..]))
      && (r == [] || (!IsSpace(r[0]) && !IsSpace(r[|r| - 1])))
      && (r == [] <==> AllSpace(s))
      && (NoDoubleSpace(s) ==> NoDoubleSpace(r))
      && Letters(r) == Letters(s)
  {
    var t := TrimStart(s);
    TrimStartSpec(s);
    TrimEndSpec(t);
    TrimStartBlank(s);
    TrimEndBlank(t);
    NoDoubleSpaceSlice(s, |s| - |t|, |s|);
    NoDoubleSpaceSlice(t, 0, |TrimEnd(t)|);
    TrimIsSlice(s);
  }

  /** What `trim` keeps is one slice of `s`, with only white space cut off on either side. */
  lemma TrimIsSlice(s: string)
    ensures var r := Trim(s);
      exists k: nat :: k + |r| <= |s| && r == s[k..k + |r|] && AllSpace(s[..k]) && AllSpace(s[k + |r|..])
  {
    var t := TrimStart(s);
    TrimStartSpec(s);
    TrimEndShape(t);
    var k := |s| - |t|;
    var r := TrimEnd(t);
    assert t == s[k..];
    assert r == s[k..k + |r|];
    assert s[k + |r|..] == t[|r|..];
    assert AllSpace(s[..k]) && AllSpace(s[k + |r|..]);
  }

  lemma TrimStartBlank(s: string)
    ensures TrimStart(s) == [] <==> AllSpace(s)
  {
    TrimStartSpec(s);
    var t := TrimStart(s);
    if t == [] {
      assert s[..|s|] == s;
    } else {
      assert t[0] == s[|s| - |t|];
    }
  }

  lemma TrimEndBlank(s: string)
    ensures TrimEnd(s) == [] <==> AllSpace(s)
  {
    TrimEndSpec(s);
    var t := TrimEnd(s);
    if t == [] {
      assert s[0..] == s;
    } else {
      assert t[|t| - 1] == s[|t| - 1];
    }
  }

  lemma NoDoubleSpaceSlice(s: string, lo: nat, hi: nat)
    requires lo <= hi <= |s|
    ensures NoDoubleSpace(s) ==> NoDoubleSpace(s[lo..hi])
  {
    if NoDoubleSpace(s) {
      var t := s[lo..hi];
      forall i | 0 <= i < |t| - 1
        ensures !(IsSpace(t[i]) && IsSpace(t[i + 1]))
      {
        assert t[i] == s[lo + i] && t[i + 1] == s[lo + i + 1];
      }
    }
  }

  /**
   * `s.replace(/\s\s+/g, " ")`: every run of two or more white-space
   * characters becomes one space; a single white-space character stays.
   */
  function CollapseSpaces(s: string): (r: string)
    ensures NoDoubleSpace(r)
    ensures r != [] ==> s != [] && (IsSpace(r[0]) <==> IsSpace(s[0]))
    ensures Letters(r) == Letters(s)
    decreases |s|
  {
    if s == [] then []
    else if |s| >= 2 && IsSpace(s[0]) && IsSpace(s[1]) then
      TrimStartSpec(s);
      " " + CollapseSpaces(TrimStart(s))
    else
      [s[0]] + CollapseSpaces(s[1..])
  }

  /**
   * `s` with every maximal run of white space, however short, replaced by
   * one space: the words of `s` and where they are separated, independent
   * of how the separation is written.
   */
  function Squeeze(s: string): string
    decreases |s|
  {
    if s == [] then []
    else if IsSpace(s[0]) then
      TrimStartSpec(s);
      " " + Squeeze(TrimStart(s))
    else [s[0]] + Squeeze(s[1..])
  }

  /** A string that does not start with white space has nothing to trim at the start. */
  lemma TrimStartIdle(s: string)
    requires s == [] || !IsSpace(s[0])
    ensures TrimStart(s) == s
  {
  }

  /** `Squeeze` keeps a first character that is not white space. */
  lemma SqueezeFirst(s: string)
    requires s != [] && !IsSpace(s[0])
    ensures Squeeze(s) != [] && Squeeze(s)[0] == s[0]
  {
  }

  /**
   * The collapse keeps every word and every separation between words:
   * only how each white-space run is written may change.
   */
  lemma {:induction false} CollapseSpacesSqueeze(s: string)
    ensures Squeeze(CollapseSpaces(s)) == Squeeze(s)
    decreases |s|
  {
    if s == [] {
    } else if |s| >= 2 && IsSpace(s[0]) && IsSpace(s[1]) {
      var t := TrimStart(s);
      TrimStartSpec(s);
      CollapseSpacesSqueeze(t);
      var c := CollapseSpaces(t);
      assert c == [] || !IsSpace(c[0]);
      TrimStartIdle(c);
      assert (" " + c)[1..] == c;
      assert TrimStart(" " + c) == c;
    } else if !IsSpace(s[0]) {
      CollapseSpacesSqueeze(s[1..]);
      assert ([s[0]] + CollapseSpaces(s[1..]))[1..] == CollapseSpaces(s[1..]);
    } else {
      var t := s[1..];
      CollapseSpacesSqueeze(t);
      TrimStartIdle(t);
      assert TrimStart(s) == t;
      var c := CollapseSpaces(t);
      TrimStartIdle(c);
      assert ([s[0]] + c)[1..] == c;
      assert TrimStart([s[0]] + c) == c;
    }
  }

  /** A single white-space character between words is left as it is. */
  lemma {:induction false} CollapseSpacesIdle(s: string)
    requires NoDoubleSpace(s)
    ensures CollapseSpaces(s) == s
    decreases |s|
  {
    if s != [] {
      NoDoubleSpaceSlice(s, 1, |s|);
      CollapseSpacesIdle(s[1..]);
      assert s == [s[0]] + s[1..];
    }
  }

  /** White space at the front is squeezed into the one leading space. */
  lemma {:induction false} SqueezeTrimStart(s: string)
    ensures Squeeze(TrimStart(s)) == TrimStart(Squeeze(s))
  {
    if s != [] {
      var t := TrimStart(s);
      TrimStartSpec(s);
      if IsSpace(s[0]) {
        var q := Squeeze(t);
        if t != [] {
          SqueezeFirst(t);
        }
        TrimStartIdle(q);
        assert (" " + q)[1..] == q;
      } else {
        SqueezeFirst(s);
        TrimStartIdle(Squeeze(s));
      }
    }
  }

  /** Trimming the start of a string that is not all white space leaves the rest alone. */
  lemma {:induction false} TrimStartAppend(a: string, b: string)
    requires !AllSpace(a)
    ensures TrimStart(a + b) == TrimStart(a) + b
    decreases |a|
  {
    if IsSpace(a[0]) {
      assert (a + b)[1..] == a[1..] + b;
      TrimStartAppend(a[1..], b);
    }
  }

  /** `Squeeze` keeps a last character that is not white space. */
  lemma {:induction false} SqueezeLast(s: string)
    requires s != [] && !IsSpace(s[|s| - 1])
    ensures Squeeze(s) != [] && Squeeze(s)[|Squeeze(s)| - 1] == s[|s| - 1]
    decreases |s|
  {
    if IsSpace(s[0]) {
      var t := TrimStart(s);
      TrimStartSpec(s);
      assert t[|t| - 1] == s[|s| - 1];
      SqueezeLast(t);
    } else if |s| > 1 {
      SqueezeLast(s[1..]);
    }
  }

  /** Trailing white space after the last word is squeezed into one space. */
  lemma {:induction false} SqueezeSpaceTail(r: string, tail: string)
    requires r == [] || !IsSpace(r[|r| - 1])
    requires tail != [] && AllSpace(tail)
    ensures Squeeze(r + tail) == Squeeze(r) + " "
    decreases |r|
  {
    if r == [] {
      assert r + tail == tail;
      TrimStartBlank(tail);
      assert Squeeze(tail) == " " + Squeeze([]);
    } else if IsSpace(r[0]) {
      SqueezeSpaceTailAfterSpace(r, tail);
    } else {
      var u := r[1..];
      assert (r + tail)[1..] == u + tail;
      SqueezeSpaceTail(u, tail);
      assert Squeeze(r + tail) == [r[0]] + Squeeze(u + tail);
    }
  }

  /** The step of `SqueezeSpaceTail` for a string that starts with white space. */
  lemma {:induction false} SqueezeSpaceTailAfterSpace(r: string, tail: string)
    requires r != [] && IsSpace(r[0]) && !IsSpace(r[|r| - 1])
    requires tail != [] && AllSpace(tail)
    ensures Squeeze(r + tail) == Squeeze(r) + " "
    decreases |r|, 0
  {
    var t := TrimStart(r);
    TrimStartSpec(r);
    assert !AllSpace(r);
    TrimStartAppend(r, tail);
    assert t != [] && t[|t| - 1] == r[|r| - 1];
    SqueezeSpaceTail(t, tail);
    assert (r + tail)[0] == r[0];
    assert Squeeze(r + tail) == " " + Squeeze(t + tail);
  }

  /** A string that does not end with white space has nothing to trim at the end. */
  lemma TrimEndIdle(s: string)
    requires s == [] || !IsSpace(s[|s| - 1])
    ensures TrimEnd(s) == s
  {
  }

  /** White space at the end is squeezed into the one trailing space. */
  lemma {:induction false} SqueezeTrimEnd(s: string)
    ensures Squeeze(TrimEnd(s)) == TrimEnd(Squeeze(s))
  {
    var r := TrimEnd(s);
    TrimEndShape(s);
    var tail := s[|r|..];
    assert s == r + tail;
    var q := Squeeze(r);
    if r != [] {
      SqueezeLast(r);
    }
    TrimEndIdle(q);
    if tail != [] {
      SqueezeSpaceTail(r, tail);
      var qs := q + " ";
      assert qs[..|qs| - 1] == q;
      assert TrimEnd(qs) == TrimEnd(q);
    }
  }

  /** Trimming commutes with squeezing. */
  lemma SqueezeTrim(s: string)
    ensures Squeeze(Trim(s)) == Trim(Squeeze(s))
  {
    SqueezeTrimStart(s);
    SqueezeTrimEnd(TrimStart(s));
  }

  /**
   * `s.replace(/\s\s+/g, " ").trim()`, the cleaning applied to the text of
   * text nodes and links: the words of `s`, separated exactly where they
   * were separated in `s`, by one white-space character each, with nothing
   * before the first word or after the last.
   */
  function Clean(s: string): (r: string)
    ensures r == [] || (!IsSpace(r[0]) && !IsSpace(r[|r| - 1]))
    ensures NoDoubleSpace(r)
    ensures Letters(r) == Letters(s)
    ensures Squeeze(r) == Trim(Squeeze(s))
  {
    TrimSpec(CollapseSpaces(s));
    SqueezeTrim(CollapseSpaces(s));
    CollapseSpacesSqueeze(s);
    Trim(CollapseSpaces(s))
  }

  /** The character class `[-!$%^&*()_+|~=`{}[\]:";'<>?,./]` of the grouping regular expressions. */
  const SpecialChars: set<char> :=
    {'-', '!', '$', '%', '^', '&', '*', '(', ')', '_', '+', '|', '~', '=', '`',
     '{', '}', '[', ']', ':', '"', ';', '\'', '<', '>', '?', ',', '.', '/'}

  /** `/^[special]/.test(s)`. */
  predicate StartsWithSpecial(s: string) {
    |s| > 0 && s[0] in SpecialChars
  }

  /** `s.replace(/^[special]/, "")`: at most one leading special character removed. */
  function DropLeadingSpecial(s: string): string {
    if StartsWithSpecial(s) then s[1..] else s
  }

  /** `s.replace(/[special]$/, "")`: at most one trailing special character removed. */
  function DropTrailingSpecial(s: string): string {
    if |s| > 0 && s[|s| - 1] in SpecialChars then s[..|s| - 1] else s
  }

  /** `s.replace(/^[:]/, "")`: at most one leading colon removed. */
  function DropLeadingColon(s: string): string {
    if |s| > 0 && s[0] == ':' then s[1..] else s
  }

  predicate StartsWith(s: string, prefix: string) {
    |prefix| <= |s| && s[..|prefix|] == prefix
  }

  predicate EndsWith(s: string, suffix: string) {
    |suffix| <= |s| && s[|s| - |suffix|..] == suffix
  }

  /** `parts.join(" ")`. */
  function Join(parts: seq<string>): string {
    if |parts| == 0 then ""
    else if |parts| == 1 then parts[0]
    else parts[0] + " " + Join(parts[1..])
  }

  /** `toUpperCase` on one character, for the ASCII letters. */
  function UpperChar(c: char): char {
    if 'a' <= c <= 'z' then (c as int - 32) as char else c
  }

  function ToUpper(s: string): string {
    seq(|s|, i requires 0 <= i < |s| => UpperChar(s[i]))
  }

  /** `s.replace(pattern, "")` with a string pattern: the first occurrence is removed. */
  function RemoveFirst(s: string, pattern: string): string
    decreases |s|
  {
    if |pattern| == 0 || |s| < |pattern| then s
    else if s[..|pattern|] == pattern then s[|pattern|..]
    else [s[0]] + RemoveFirst(s[1..], pattern)
  }

  /** `/[a-zA-Z0-9]+/.test(s)`. */
  predicate HasAsciiAlnum(s: string) {
    exists i :: 0 <= i < |s| && ('a' <= s[i] <= 'z' || 'A' <= s[i] <= 'Z' || '0' <= s[i] <= '9')
  }
}
