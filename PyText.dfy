/**
 * The Python `str` methods that the core relies on: `strip()`, `lower()`,
 * `upper()` and `title()`.
 *
 * Case mapping is exact on U+0000..U+00FF (ASCII and the Latin-1 Supplement,
 * which is where the sanitiser's allow-set lives) and on the three code points
 * outside that block that those mappings reach: U+0178 (the upper case of
 * U+00FF), U+039C (the upper case of U+00B5) and U+03BC (the lower case of
 * U+039C). Every other code point is treated as caseless.
 */
module PyText {

  /** `c.isspace()`: the code points Python counts as whitespace. */
  predicate IsSpace(c: char) {
    || ('\t' <= c <= '\r')
    || ('\U{1C}' <= c <= '\U{1F}')
    || c == ' '
    || c == '\U{85}'
    || c == '\U{A0}'
    || c == '\U{1680}'
    || ('\U{2000}' <= c <= '\U{200A}')
    || c == '\U{2028}'
    || c == '\U{2029}'
    || c == '\U{202F}'
    || c == '\U{205F}'
    || c == '\U{3000}'
  }

  predicate AllSpace(s: string) {
    forall i :: 0 <= i < |s| ==> IsSpace(s[i])
  }

  /** `s.lstrip()`: drops the leading whitespace, keeping a suffix of `s`. */
  function StripLeft(s: string): (r: string)
    ensures |r| <= |s| && r == s[|s| - |r|..]
    ensures r == [] || !IsSpace(r[0])
  {
    if s != [] && IsSpace(s[0]) then StripLeft(s[1..]) else s
  }

  /** `s.rstrip()`: drops the trailing whitespace, keeping a prefix of `s`. */
  function StripRight(s: string): (r: string)
    ensures |r| <= |s| && r == s[..|r|]
    ensures r == [] || !IsSpace(r[|r| - 1])
  {
    if s != [] && IsSpace(s[|s| - 1]) then StripRight(s[..|s| - 1]) else s
  }

  /** What `lstrip()` removes is whitespace. */
  lemma {:induction false} StripLeftRemovesSpace(s: string)
    ensures AllSpace(s[..|s| - |StripLeft(s)|])
  {
    if s != [] && IsSpace(s[0]) {
      var t := s[1..];
      var k := |t| - |StripLeft(t)|;
      assert AllSpace(t[..k]) by {
        StripLeftRemovesSpace(t);
      }
      assert |s| - |StripLeft(s)| == k + 1;
      assert s[..k + 1] == [s[0]] + t[..k];
      SpacesJoin([s[0]], t[..k]);
    }
  }

  /** What `rstrip()` removes is whitespace. */
  lemma {:induction false} StripRightRemovesSpace(s: string)
    ensures AllSpace(s[|StripRight(s)|..])
  {
    if s != [] && IsSpace(s[|s| - 1]) {
      var t := s[..|s| - 1];
      var k := |StripRight(t)|;
      assert AllSpace(t[k..]) by {
        StripRightRemovesSpace(t);
      }
      assert |StripRight(s)| == k;
      assert s[k..] == t[k..] + [s[|s| - 1]];
      SpacesJoin(t[k..], [s[|s| - 1]]);
    }
  }

  lemma SpacesJoin(a: string, b: string)
    requires AllSpace(a) && AllSpace(b)
    ensures AllSpace(a + b)
  {
  }

  /** `s.strip()`: what is left after removing the whitespace at both ends. */
  function Strip(s: string): (r: string)
    ensures |r| <= |s|
    ensures r == [] || (!IsSpace(r[0]) && !IsSpace(r[|r| - 1]))
  {
    StripRight(StripLeft(s))
  }

  /** How many leading whitespace characters `strip()` removes. */
  function Lead(s: string): (n: nat)
    ensures n <= |s| && StripLeft(s) == s[n..]
  {
    |s| - |StripLeft(s)|
  }

  /** The result of `strip()` is the infix of `s` that starts after the leading whitespace. */
  lemma StripIsInfix(s: string)
    ensures Lead(s) + |Strip(s)| <= |s|
    ensures Strip(s) == s[Lead(s)..Lead(s) + |Strip(s)|]
  {
    var left := StripLeft(s);
    assert Strip(s) == StripRight(left);
    InfixOfSuffix(s, left, StripRight(left), Lead(s));
  }

  lemma InfixOfSuffix(s: string, left: string, r: string, lead: nat)
    requires lead <= |s| && left == s[lead..]
    requires |r| <= |left| && r == left[..|r|]
    ensures lead + |r| <= |s| && r == s[lead..lead + |r|]
  {
  }

  /** Only whitespace lies outside the result of `strip()`. */
  lemma StripRemovesOnlySpace(s: string)
    ensures Lead(s) + |Strip(s)| <= |s|
    ensures AllSpace(s[..Lead(s)])
    ensures AllSpace(s[Lead(s) + |Strip(s)|..])
  {
    var left := StripLeft(s);
    StripLeftRemovesSpace(s);
    StripRightRemovesSpace(left);
    SpaceAfterInfix(s, left, StripRight(left), Lead(s));
  }

  lemma SpaceAfterInfix(s: string, left: string, r: string, lead: nat)
    requires lead <= |s| && left == s[lead..]
    requires |r| <= |left| && AllSpace(left[|r|..])
    ensures lead + |r| <= |s| && AllSpace(s[lead + |r|..])
  {
    assert s[lead + |r|..] == left[|r|..];
  }

  /** A string with no whitespace at either end is its own `strip()`. */
  lemma {:induction false} StripTrimmed(s: string)
    requires s == [] || (!IsSpace(s[0]) && !IsSpace(s[|s| - 1]))
    ensures Strip(s) == s
  {
  }

  /** Cased characters (Unicode property "Cased") within the modelled domain. */
  predicate IsCased(c: char) {
    || ('A' <= c <= 'Z')
    || ('a' <= c <= 'z')
    || c == '\U{AA}' || c == '\U{B5}' || c == '\U{BA}'
    || ('\U{C0}' <= c <= '\U{D6}')
    || ('\U{D8}' <= c <= '\U{F6}')
    || ('\U{F8}' <= c <= '\U{FF}')
    || c == '\U{178}' || c == '\U{39C}' || c == '\U{3BC}'
  }

  /** Upper-case letters whose lower case is 32 code points further on. */
  predicate ShiftsDown(c: char) {
    ('A' <= c <= 'Z') || ('\U{C0}' <= c <= '\U{D6}') || ('\U{D8}' <= c <= '\U{DE}')
  }

  /** Lower-case letters whose upper case is 32 code points earlier. */
  predicate ShiftsUp(c: char) {
    ('a' <= c <= 'z') || ('\U{E0}' <= c <= '\U{F6}') || ('\U{F8}' <= c <= '\U{FE}')
  }

  /** The lower case of one character (always a single character here). */
  function LowerChar(c: char): char {
    if ShiftsDown(c) then (c as int + 32) as char
    else if c == '\U{178}' then '\U{FF}'
    else if c == '\U{39C}' then '\U{3BC}'
    else c
  }

  /** The full upper case of one character: U+00DF becomes "SS". */
  function UpperChar(c: char): (r: string)
    ensures |r| == (if c == '\U{DF}' then 2 else 1)
  {
    if ShiftsUp(c) then [(c as int - 32) as char]
    else if c == '\U{DF}' then "SS"
    else if c == '\U{FF}' then "\U{178}"
    else if c == '\U{B5}' || c == '\U{3BC}' then "\U{39C}"
    else [c]
  }

  /** The title case of one character: as upper case, except U+00DF becomes "Ss". */
  function TitleChar(c: char): (r: string)
    ensures |r| == (if c == '\U{DF}' then 2 else 1)
  {
    if c == '\U{DF}' then "Ss" else UpperChar(c)
  }

  /** `s.lower()`: lower-cases every character, in place. */
  function Lower(s: string): (r: string)
    ensures |r| == |s|
    ensures forall i :: 0 <= i < |s| ==> r[i] == LowerChar(s[i])
  {
    if s == [] then [] else [LowerChar(s[0])] + Lower(s[1..])
  }

  /** `s.upper()`: the concatenated upper cases of the characters. */
  function Upper(s: string): (r: string)
    ensures |r| >= |s|
    ensures (forall i :: 0 <= i < |s| ==> s[i] != '\U{DF}') ==> |r| == |s|
  {
    if s == [] then [] else UpperChar(s[0]) + Upper(s[1..])
  }

  /**
   * `s.title()`: a character that follows a cased character is lower-cased,
   * every other character is title-cased. Whether a character is cased is
   * decided on the character before mapping, as CPython does.
   */
  function Title(s: string): (r: string)
    ensures |r| >= |s|
    ensures (forall i :: 0 <= i < |s| ==> s[i] != '\U{DF}') ==> |r| == |s|
  {
    TitleAfter(s, false)
  }

  function TitleAfter(s: string, previousIsCased: bool): (r: string)
    ensures |r| >= |s|
    ensures (forall i :: 0 <= i < |s| ==> s[i] != '\U{DF}') ==> |r| == |s|
  {
    if s == [] then []
    else
      (if previousIsCased then [LowerChar(s[0])] else TitleChar(s[0]))
      + TitleAfter(s[1..], IsCased(s[0]))
  }

  /** Lower-casing twice is lower-casing once. */
  lemma {:induction false} LowerIdempotent(s: string)
    ensures Lower(Lower(s)) == Lower(s)
  {
    forall i | 0 <= i < |s| ensures LowerChar(LowerChar(s[i])) == LowerChar(s[i]) {
      LowerCharIdempotent(s[i]);
    }
  }

  lemma LowerCharIdempotent(c: char)
    ensures LowerChar(LowerChar(c)) == LowerChar(c)
  {
  }

  /** Upper-casing twice is upper-casing once, even where the length grows. */
  lemma {:induction false} UpperIdempotent(s: string)
    ensures Upper(Upper(s)) == Upper(s)
  {
    if s != [] {
      UpperIdempotent(s[1..]);
      UpperConcat(UpperChar(s[0]), Upper(s[1..]));
      UpperCharIdempotent(s[0]);
    }
  }

  /** The upper case of one character is already upper case. */
  lemma UpperCharIdempotent(c: char)
    ensures Upper(UpperChar(c)) == UpperChar(c)
  {
    var u := UpperChar(c);
    if |u| == 2 {
      assert u == "SS";
      assert Upper(u) == UpperChar(u[0]) + Upper(u[1..]);
      assert Upper(u[1..]) == UpperChar(u[1]) + Upper(u[2..]);
    } else {
      assert Upper(u) == UpperChar(u[0]) + Upper(u[1..]);
    }
  }

  /** `upper()` distributes over concatenation. */
  lemma {:induction false} UpperConcat(a: string, b: string)
    ensures Upper(a + b) == Upper(a) + Upper(b)
  {
    if a == [] {
      assert a + b == b;
    } else {
      assert (a + b)[0] == a[0];
      assert (a + b)[1..] == a[1..] + b;
      UpperConcat(a[1..], b);
      calc {
        Upper(a + b);
        UpperChar(a[0]) + Upper(a[1..] + b);
        UpperChar(a[0]) + (Upper(a[1..]) + Upper(b));
        (UpperChar(a[0]) + Upper(a[1..])) + Upper(b);
      }
    }
  }

  /** The title case of "o'brien" is "O'Brien": the apostrophe is not cased. */
  lemma TitleApostrophe(s: string)
    requires s == "o'brien"
    ensures Title(s) == "O'Brien"
  {
    assert s[3..] == "rien";
    TitleLowerTail(s[3..]);
    assert TitleAfter(s[2..], false) == "Brien";
    assert TitleAfter(s[1..], true) == "'Brien";
  }

  /** After a cased character, a run of ASCII lower-case letters is kept as it is. */
  lemma {:induction false} TitleLowerTail(s: string)
    requires forall i :: 0 <= i < |s| ==> 'a' <= s[i] <= 'z'
    ensures TitleAfter(s, true) == s
  {
    if s != [] {
      TitleLowerTail(s[1..]);
    }
  }

  /** The upper case of the sharp s has two characters. */
  lemma UpperSharpS()
    ensures Upper("stra\U{DF}e") == "STRASSE"
  {
  }
}
