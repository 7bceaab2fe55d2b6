/**
 * `sanitise_string`: deletes every character outside an allow-set built from
 * boolean flags, then optionally normalises quote-like characters to the ASCII
 * apostrophe, applies the case transforms lower, upper and title in that
 * order, optionally reverses, and finally keeps a prefix of `max_length`
 * characters.
 *
 * The source builds the allow-set as the text of a negated regular-expression
 * character class `[^...]`. Here each flag contributes both its text
 * (`ClassBody`) and the code-point ranges that text denotes (`Spans`), so
 * the failure of an empty class can be stated on the text while filtering
 * works on explicit ranges.
 */
module Sanitiser {
  import opened Wrappers
  import PyText

  /** The keyword arguments of `sanitise_string`. */
  datatype Options = Options(
    allowNumbers: bool,
    allowLetters: bool,
    allowLower: bool,
    allowUpper: bool,
    allowSpace: bool,
    allowAccentedChars: bool,
    allowSingleQuotes: bool,
    allowHyphen: bool,
    allowUnderscore: bool,
    allowAtSymbol: bool,
    additionalAllowedChars: seq<string>,
    normaliseSingleQuotes: bool,
    performLower: bool,
    performUpper: bool,
    performTitle: bool,
    reverse: bool,
    maxLength: int)

  /** The defaults of the keyword arguments. */
  const Defaults := Options(
    allowNumbers := true, allowLetters := true, allowLower := true, allowUpper := true,
    allowSpace := true, allowAccentedChars := true, allowSingleQuotes := true,
    allowHyphen := true, allowUnderscore := false, allowAtSymbol := false,
    additionalAllowedChars := [], normaliseSingleQuotes := true,
    performLower := false, performUpper := false, performTitle := false,
    reverse := false, maxLength := 200)

  /** `re.compile` fails on the class `[^]`: the `]` is taken literally and the set is never closed. */
  datatype PatternError = UnterminatedCharacterSet

  /** An inclusive range of code points; a single character when `lo == hi`. */
  datatype Span = Span(lo: char, hi: char)

  /** Right single quotation mark U+2019, prime U+2032 and the grave accent. */
  predicate QuoteLike(c: char) {
    c == '\U{2019}' || c == '\U{2032}' || c == '`'
  }

  predicate NoQuoteLike(s: string) {
    forall i :: 0 <= i < |s| ==> !QuoteLike(s[i])
  }

  /** `"".join(additional_allowed_chars)`. */
  function Join(parts: seq<string>): string {
    if parts == [] then [] else parts[0] + Join(parts[1..])
  }

  /**
   * The extra characters may only be literals inside a character class: none
   * of `]`, `\`, `^`, `-`, whose meaning there is not literal.
   */
  predicate LiteralChars(o: Options) {
    forall c :: c in Join(o.additionalAllowedChars) ==> c !in "]\\^-"
  }

  const AccentedText := "A-Z\U{C0}-\U{D6}\U{D8}-\U{F6}\U{F8}-\U{FF}"
  const AccentedSpans := [Span('A', 'Z'), Span('\U{C0}', '\U{D6}'), Span('\U{D8}', '\U{F6}'), Span('\U{F8}', '\U{FF}')]
  const QuotesText := "'\U{2019}\U{2032}`"
  const QuoteSpans := [Span('\'', '\''), Span('\U{2019}', '\U{2019}'), Span('\U{2032}', '\U{2032}'), Span('`', '`')]

  /** The text the source places between `[^` and `]`. */
  function ClassBody(o: Options): (r: string)
    ensures r == [] <==>
      && !(o.allowLetters && (o.allowLower || o.allowUpper || o.allowAccentedChars))
      && !o.allowNumbers && !o.allowSingleQuotes && !o.allowSpace && !o.allowHyphen
      && !o.allowUnderscore && !o.allowAtSymbol && Join(o.additionalAllowedChars) == []
  {
    (if o.allowLetters && o.allowLower then "a-z" else "")
    + (if o.allowLetters && o.allowUpper then "A-Z" else "")
    + (if o.allowNumbers then "0-9" else "")
    + (if o.allowLetters && o.allowAccentedChars then AccentedText else "")
    + (if o.allowSingleQuotes then QuotesText else "")
    + (if o.allowSpace then " " else "")
    + (if o.allowHyphen then "\\-" else "")
    + (if o.allowUnderscore then "_" else "")
    + (if o.allowAtSymbol then "@" else "")
    + Join(o.additionalAllowedChars)
  }

  function Pattern(o: Options): string {
    "[^" + ClassBody(o) + "]"
  }

  /** One single-character span per literal extra character. */
  function LiteralSpans(t: string): (r: seq<Span>)
    ensures |r| == |t|
  {
    if t == [] then [] else [Span(t[0], t[0])] + LiteralSpans(t[1..])
  }

  /** The ranges of the letter and digit fragments, in the order of `ClassBody(o)`. */
  function LetterSpans(o: Options): seq<Span> {
    Part(o.allowLetters && o.allowLower, [Span('a', 'z')])
    + Part(o.allowLetters && o.allowUpper, [Span('A', 'Z')])
    + Part(o.allowNumbers, [Span('0', '9')])
    + Part(o.allowLetters && o.allowAccentedChars, AccentedSpans)
  }

  /** The ranges of the punctuation fragments, in the order of `ClassBody(o)`. */
  function MarkSpans(o: Options): seq<Span> {
    Part(o.allowSingleQuotes, QuoteSpans)
    + Part(o.allowSpace, [Span(' ', ' ')])
    + Part(o.allowHyphen, [Span('-', '-')])
    + Part(o.allowUnderscore, [Span('_', '_')])
    + Part(o.allowAtSymbol, [Span('@', '@')])
  }

  function FlagSpans(o: Options): seq<Span> {
    LetterSpans(o) + MarkSpans(o)
  }

  /** The ranges denoted by `ClassBody(o)`. */
  function Spans(o: Options): seq<Span> {
    FlagSpans(o) + LiteralSpans(Join(o.additionalAllowedChars))
  }

  predicate Covers(spans: seq<Span>, c: char) {
    exists sp :: sp in spans && sp.lo <= c <= sp.hi
  }

  /** Membership in the allow-set: the filter keeps `c` exactly when this holds. */
  predicate Admits(o: Options, c: char) {
    Covers(Spans(o), c)
  }

  /** The letters of the Latin-1 Supplement: U+00C0..U+00FF without U+00D7 and U+00F7. */
  predicate IsLatin1Letter(c: char) {
    ('\U{C0}' <= c <= '\U{D6}') || ('\U{D8}' <= c <= '\U{F6}') || ('\U{F8}' <= c <= '\U{FF}')
  }

  /** The allow-set as each flag describes it on its own. */
  predicate Allowed(o: Options, c: char) {
    FlagAllowed(o, c) || c in Join(o.additionalAllowedChars)
  }

  predicate FlagAllowed(o: Options, c: char) {
    LetterAllowed(o, c) || MarkAllowed(o, c)
  }

  predicate LetterAllowed(o: Options, c: char) {
    || (o.allowNumbers && '0' <= c <= '9')
    || (o.allowLetters && o.allowLower && 'a' <= c <= 'z')
    || (o.allowLetters && o.allowUpper && 'A' <= c <= 'Z')
    || (o.allowLetters && o.allowAccentedChars && IsLatin1Letter(c))
  }

  predicate MarkAllowed(o: Options, c: char) {
    || (o.allowSingleQuotes && (c == '\'' || QuoteLike(c)))
    || (o.allowSpace && c == ' ')
    || (o.allowHyphen && c == '-')
    || (o.allowUnderscore && c == '_')
    || (o.allowAtSymbol && c == '@')
  }

  /** re.sub(pattern, "", s): keeps the admitted characters, in order. */
  function Filter(s: string, o: Options): (r: string)
    ensures |r| <= |s|
  {
    if s == [] then [] else (if Admits(o, s[0]) then [s[0]] else []) + Filter(s[1..], o)
  }

  /** re.sub(r"[’′`]", "'", s). */
  function NormaliseQuotes(s: string): (r: string)
    ensures |r| == |s|
    ensures forall i :: 0 <= i < |s| ==> r[i] == if QuoteLike(s[i]) then '\'' else s[i]
  {
    if s == [] then [] else [if QuoteLike(s[0]) then '\'' else s[0]] + NormaliseQuotes(s[1..])
  }

  /** s[::-1]. */
  function Reverse(s: string): (r: string)
    ensures |r| == |s|
    ensures forall i :: 0 <= i < |s| ==> r[i] == s[|s| - 1 - i]
  {
    if s == [] then [] else [s[|s| - 1]] + Reverse(s[..|s| - 1])
  }

  /** s[:n] with Python's slice rules: a negative `n` counts from the end. */
  function SlicePrefix(s: string, n: int): (r: string)
    ensures |r| <= |s| && r == s[..|r|]
    ensures 0 <= n ==> |r| == if n < |s| then n else |s|
    ensures n < 0 ==> |r| == if |s| + n < 0 then 0 else |s| + n
  {
    if n >= |s| then s
    else if n >= 0 then s[..n]
    else if |s| + n >= 0 then s[..|s| + n]
    else []
  }

  /** The case transforms, in the source's order: lower, then upper, then title. */
  function ApplyCase(s: string, o: Options): (r: string)
    ensures !o.performLower && !o.performUpper && !o.performTitle ==> r == s
    ensures !o.performUpper && !o.performTitle ==> |r| == |s|
    ensures |r| >= |s|
  {
    var lowered := if o.performLower then PyText.Lower(s) else s;
    var uppered := if o.performUpper then PyText.Upper(lowered) else lowered;
    if o.performTitle then PyText.Title(uppered) else uppered
  }

  /** Everything `sanitise_string` does before the final truncation. */
  function Transformed(s: string, o: Options): (r: string)
    ensures !o.performUpper && !o.performTitle ==> |r| == |Filter(s, o)|
    ensures !o.normaliseSingleQuotes && !o.performLower && !o.performUpper && !o.performTitle && !o.reverse ==>
      r == Filter(s, o)
  {
    var filtered := Filter(s, o);
    var normalised := if o.normaliseSingleQuotes then NormaliseQuotes(filtered) else filtered;
    var cased := ApplyCase(normalised, o);
    if o.reverse then Reverse(cased) else cased
  }

  /**
   * The compiled pattern is the unterminated `[^]` exactly when the class
   * body is empty.
   */
  lemma UnterminatedIffEmptyBody(o: Options)
    ensures Pattern(o) == "[^]" <==> ClassBody(o) == []
  {
    if Pattern(o) == "[^]" {
      assert |ClassBody(o)| == 0;
    }
  }

  /** sanitise_string(s, **o): `re.compile` raises on an empty class body. */
  function Sanitise(s: string, o: Options): (r: Result<string, PatternError>)
    requires LiteralChars(o)
    ensures r.Failure? <==> Pattern(o) == "[^]"
    ensures r.Success? ==> |r.value| <= |Transformed(s, o)| && r.value == Transformed(s, o)[..|r.value|]
    ensures r.Success? && o.maxLength >= 0 ==> |r.value| <= o.maxLength
  {
    if ClassBody(o) == [] then Failure(UnterminatedCharacterSet)
    else Success(SlicePrefix(Transformed(s, o), o.maxLength))
  }

  /**
   * Truncation is the last step: the result is a prefix of the transformed
   * string, at most `max_length` long when that is not negative, and the
   * whole transformed string when it fits.
   */
  lemma TruncationIsLast(s: string, o: Options)
    requires LiteralChars(o)
    requires Sanitise(s, o).Success?
    ensures var r, t := Sanitise(s, o).value, Transformed(s, o);
      && |r| <= |t| && r == t[..|r|]
      && (o.maxLength >= 0 ==> |r| <= o.maxLength)
      && (o.maxLength >= |t| ==> r == t)
      && (0 <= o.maxLength <= |t| ==> |r| == o.maxLength)
  {
  }

  // ----- the allow-set -----

  lemma {:induction false} LiteralSpansMembers(t: string, sp: Span)
    ensures sp in LiteralSpans(t) <==> sp.lo == sp.hi && sp.lo in t
  {
    if t != [] {
      LiteralSpansMembers(t[1..], sp);
      assert sp.lo in t <==> sp.lo == t[0] || sp.lo in t[1..] by {
        assert t == [t[0]] + t[1..];
      }
    }
  }

  lemma CoversConcat(a: seq<Span>, b: seq<Span>, c: char)
    ensures Covers(a + b, c) <==> Covers(a, c) || Covers(b, c)
  {
    if Covers(a + b, c) {
      var sp :| sp in a + b && sp.lo <= c <= sp.hi;
    }
    if Covers(b, c) {
      var sp :| sp in b && sp.lo <= c <= sp.hi;
      assert sp in a + b;
    }
  }

  lemma CoversLiterals(t: string, c: char)
    ensures Covers(LiteralSpans(t), c) <==> c in t
  {
    if Covers(LiteralSpans(t), c) {
      var sp :| sp in LiteralSpans(t) && sp.lo <= c <= sp.hi;
      LiteralSpansMembers(t, sp);
    }
    if c in t {
      LiteralSpansMembers(t, Span(c, c));
    }
  }

  /** The range set of one fragment: `flag` says whether the fragment is present. */
  function Part(flag: bool, spans: seq<Span>): seq<Span> {
    if flag then spans else []
  }

  lemma CoversPart(flag: bool, spans: seq<Span>, c: char)
    ensures Covers(Part(flag, spans), c) <==> flag && Covers(spans, c)
  {
  }

  lemma CoversSingle(lo: char, hi: char, c: char)
    ensures Covers([Span(lo, hi)], c) <==> lo <= c <= hi
  {
    if lo <= c <= hi {
      assert Span(lo, hi) in [Span(lo, hi)];
    }
  }

  lemma CoversAccented(c: char)
    ensures Covers(AccentedSpans, c) <==> ('A' <= c <= 'Z') || IsLatin1Letter(c)
  {
    var a := AccentedSpans;
    assert a == [a[0]] + [a[1]] + [a[2]] + [a[3]];
    CoversConcat([a[0]] + [a[1]] + [a[2]], [a[3]], c);
    CoversConcat([a[0]] + [a[1]], [a[2]], c);
    CoversConcat([a[0]], [a[1]], c);
    CoversSingle(a[0].lo, a[0].hi, c);
    CoversSingle(a[1].lo, a[1].hi, c);
    CoversSingle(a[2].lo, a[2].hi, c);
    CoversSingle(a[3].lo, a[3].hi, c);
  }

  lemma CoversQuotes(c: char)
    ensures Covers(QuoteSpans, c) <==> c == '\'' || QuoteLike(c)
  {
    var q := QuoteSpans;
    assert q == [q[0]] + [q[1]] + [q[2]] + [q[3]];
    CoversConcat([q[0]] + [q[1]] + [q[2]], [q[3]], c);
    CoversConcat([q[0]] + [q[1]], [q[2]], c);
    CoversConcat([q[0]], [q[1]], c);
    CoversSingle(q[0].lo, q[0].hi, c);
    CoversSingle(q[1].lo, q[1].hi, c);
    CoversSingle(q[2].lo, q[2].hi, c);
    CoversSingle(q[3].lo, q[3].hi, c);
  }

  lemma LetterSpansByFlags(o: Options, c: char)
    ensures Covers(LetterSpans(o), c) <==> LetterAllowed(o, c) || (o.allowLetters && o.allowAccentedChars && 'A' <= c <= 'Z')
  {
    var p1 := Part(o.allowLetters && o.allowLower, [Span('a', 'z')]);
    var p2 := Part(o.allowLetters && o.allowUpper, [Span('A', 'Z')]);
    var p3 := Part(o.allowNumbers, [Span('0', '9')]);
    var p4 := Part(o.allowLetters && o.allowAccentedChars, AccentedSpans);
    assert LetterSpans(o) == p1 + p2 + p3 + p4;
    CoversConcat(p1 + p2 + p3, p4, c);
    CoversConcat(p1 + p2, p3, c);
    CoversConcat(p1, p2, c);
    CoversPart(o.allowLetters && o.allowLower, [Span('a', 'z')], c);
    CoversPart(o.allowLetters && o.allowUpper, [Span('A', 'Z')], c);
    CoversPart(o.allowNumbers, [Span('0', '9')], c);
    CoversPart(o.allowLetters && o.allowAccentedChars, AccentedSpans, c);
    CoversSingle('a', 'z', c);
    CoversSingle('A', 'Z', c);
    CoversSingle('0', '9', c);
    CoversAccented(c);
  }

  lemma MarkSpansByFlags(o: Options, c: char)
    ensures Covers(MarkSpans(o), c) <==> MarkAllowed(o, c)
  {
    var p1 := Part(o.allowSingleQuotes, QuoteSpans);
    var p2 := Part(o.allowSpace, [Span(' ', ' ')]);
    var p3 := Part(o.allowHyphen, [Span('-', '-')]);
    var p4 := Part(o.allowUnderscore, [Span('_', '_')]);
    var p5 := Part(o.allowAtSymbol, [Span('@', '@')]);
    assert MarkSpans(o) == p1 + p2 + p3 + p4 + p5;
    CoversConcat(p1 + p2 + p3 + p4, p5, c);
    CoversConcat(p1 + p2 + p3, p4, c);
    CoversConcat(p1 + p2, p3, c);
    CoversConcat(p1, p2, c);
    CoversPart(o.allowSingleQuotes, QuoteSpans, c);
    CoversPart(o.allowSpace, [Span(' ', ' ')], c);
    CoversPart(o.allowHyphen, [Span('-', '-')], c);
    CoversPart(o.allowUnderscore, [Span('_', '_')], c);
    CoversPart(o.allowAtSymbol, [Span('@', '@')], c);
    CoversSingle(' ', ' ', c);
    CoversSingle('-', '-', c);
    CoversSingle('_', '_', c);
    CoversSingle('@', '@', c);
    CoversQuotes(c);
  }

  /** The flag fragments denote what each flag describes, plus A..Z from the accented fragment. */
  lemma FlagSpansByFlags(o: Options, c: char)
    ensures Covers(FlagSpans(o), c) <==> FlagAllowed(o, c) || (o.allowLetters && o.allowAccentedChars && 'A' <= c <= 'Z')
  {
    CoversConcat(LetterSpans(o), MarkSpans(o), c);
    LetterSpansByFlags(o, c);
    MarkSpansByFlags(o, c);
  }

  /**
   * The allow-set is what the flags describe, plus the quirk that the accented
   * fragment starts with `A-Z`: with letters and accented characters allowed,
   * A..Z are admitted even when `allow_upper` is off.
   */
  lemma AllowSetByFlags(o: Options, c: char)
    ensures Admits(o, c) <==> Allowed(o, c) || (o.allowLetters && o.allowAccentedChars && 'A' <= c <= 'Z')
  {
    CoversConcat(FlagSpans(o), LiteralSpans(Join(o.additionalAllowedChars)), c);
    CoversLiterals(Join(o.additionalAllowedChars), c);
    FlagSpansByFlags(o, c);
  }

  /** A..Z pass the filter whenever letters and accented characters are allowed. */
  lemma AccentedAdmitsAsciiUpper(o: Options, c: char)
    requires o.allowLetters && o.allowAccentedChars && !o.allowUpper
    requires 'A' <= c <= 'Z'
    ensures Admits(o, c)
  {
    AllowSetByFlags(o, c);
  }

  /**
   * sanitise_string raises exactly when the allow-set is empty: every flag
   * off and no extra character.
   */
  lemma RaisesIffAllowSetEmpty(s: string, o: Options)
    requires LiteralChars(o)
    ensures Sanitise(s, o).Failure? <==> forall c :: !Admits(o, c)
  {
    if ClassBody(o) == [] {
      forall c ensures !Admits(o, c) {
        AllowSetByFlags(o, c);
      }
    } else {
      var extra := Join(o.additionalAllowedChars);
      var c :=
        if o.allowLetters && o.allowLower then 'a'
        else if o.allowLetters && (o.allowUpper || o.allowAccentedChars) then 'A'
        else if o.allowNumbers then '0'
        else if o.allowSingleQuotes then '\''
        else if o.allowSpace then ' '
        else if o.allowHyphen then '-'
        else if o.allowUnderscore then '_'
        else if o.allowAtSymbol then '@'
        else extra[0];
      AllowSetByFlags(o, c);
    }
  }

  // ----- the filter -----

  /** Filtering works character by character: it distributes over concatenation. */
  lemma {:induction false} FilterConcat(a: string, b: string, o: Options)
    ensures Filter(a + b, o) == Filter(a, o) + Filter(b, o)
  {
    if a == [] {
      assert a + b == b;
    } else {
      var head := if Admits(o, a[0]) then [a[0]] else [];
      var ab := a + b;
      assert ab[0] == a[0] && ab[1..] == a[1..] + b;
      assert Filter(ab, o) == head + Filter(a[1..] + b, o);
      FilterConcat(a[1..], b, o);
      assert Filter(a, o) == head + Filter(a[1..], o);
      ConcatAssoc(head, Filter(a[1..], o), Filter(b, o));
    }
  }

  lemma ConcatAssoc(x: string, y: string, z: string)
    ensures x + (y + z) == (x + y) + z
  {
  }

  /**
   * Each character is kept exactly when it is admitted, in its place between
   * what the filter makes of the text before it and of the text after it.
   */
  lemma FilterSplit(a: string, c: char, b: string, o: Options)
    ensures Filter(a + [c] + b, o) == Filter(a, o) + (if Admits(o, c) then [c] else []) + Filter(b, o)
  {
    var ac := a + [c];
    FilterConcat(ac, b, o);
    FilterConcat(a, [c], o);
    assert Filter([c], o) == if Admits(o, c) then [c] else [] by {
      assert [c][1..] == [];
    }
  }

  /** Every character the filter keeps is in the allow-set. */
  lemma {:induction false} FilterAdmitted(s: string, o: Options)
    ensures forall i :: 0 <= i < |Filter(s, o)| ==> Admits(o, Filter(s, o)[i])
  {
    if s != [] {
      FilterAdmitted(s[1..], o);
    }
  }

  /** A string is left unchanged by the filter exactly when all its characters are admitted. */
  lemma {:induction false} FilterFixpoint(s: string, o: Options)
    ensures Filter(s, o) == s <==> forall i :: 0 <= i < |s| ==> Admits(o, s[i])
  {
    FilterAdmitted(s, o);
    if forall i :: 0 <= i < |s| ==> Admits(o, s[i]) {
      FilterKeepsAdmitted(s, o);
    }
  }

  lemma {:induction false} FilterKeepsAdmitted(s: string, o: Options)
    requires forall i :: 0 <= i < |s| ==> Admits(o, s[i])
    ensures Filter(s, o) == s
  {
    if s != [] {
      assert forall i :: 0 <= i < |s[1..]| ==> Admits(o, s[1..][i]) by {
        forall i | 0 <= i < |s[1..]| ensures Admits(o, s[1..][i]) {
          assert s[1..][i] == s[i + 1];
        }
      }
      FilterKeepsAdmitted(s[1..], o);
      assert s == [s[0]] + s[1..];
    }
  }

  // ----- quote-like characters -----

  /** After normalisation no quote-like character is left. */
  lemma NormalisedHasNoQuoteLike(s: string)
    ensures NoQuoteLike(NormaliseQuotes(s))
  {
  }

  lemma NormaliseIdentity(s: string)
    requires NoQuoteLike(s)
    ensures NormaliseQuotes(s) == s
  {
  }

  lemma CaseMapsKeepQuotesOut(c: char)
    requires !QuoteLike(c)
    ensures !QuoteLike(PyText.LowerChar(c))
    ensures NoQuoteLike(PyText.UpperChar(c))
    ensures NoQuoteLike(PyText.TitleChar(c))
  {
  }

  lemma {:induction false} UpperKeepsQuotesOut(s: string)
    requires NoQuoteLike(s)
    ensures NoQuoteLike(PyText.Upper(s))
  {
    if s != [] {
      CaseMapsKeepQuotesOut(s[0]);
      UpperKeepsQuotesOut(s[1..]);
    }
  }

  lemma {:induction false} TitleKeepsQuotesOut(s: string, previousIsCased: bool)
    requires NoQuoteLike(s)
    ensures NoQuoteLike(PyText.TitleAfter(s, previousIsCased))
  {
    if s != [] {
      CaseMapsKeepQuotesOut(s[0]);
      TitleKeepsQuotesOut(s[1..], PyText.IsCased(s[0]));
    }
  }

  /**
   * With normalise_single_quotes on, no U+2019, U+2032 or grave accent is
   * left in the result: the case transforms, the reversal and the
   * truncation never introduce one.
   */
  lemma NoQuoteLikeInResult(s: string, o: Options)
    requires LiteralChars(o)
    requires o.normaliseSingleQuotes
    requires Sanitise(s, o).Success?
    ensures NoQuoteLike(Sanitise(s, o).value)
  {
    var n := NormaliseQuotes(Filter(s, o));
    NormalisedHasNoQuoteLike(Filter(s, o));
    ApplyCaseKeepsQuotesOut(n, o);
    var t := Transformed(s, o);
    assert NoQuoteLike(t) by {
      if o.reverse {
        ReverseKeepsQuotesOut(ApplyCase(n, o));
      }
    }
    assert Sanitise(s, o).value == t[..|Sanitise(s, o).value|];
  }

  lemma ApplyCaseKeepsQuotesOut(s: string, o: Options)
    requires NoQuoteLike(s)
    ensures NoQuoteLike(ApplyCase(s, o))
  {
    var l := if o.performLower then PyText.Lower(s) else s;
    forall i | 0 <= i < |l| ensures !QuoteLike(l[i]) {
      if o.performLower {
        CaseMapsKeepQuotesOut(s[i]);
      }
    }
    var u := if o.performUpper then PyText.Upper(l) else l;
    if o.performUpper {
      UpperKeepsQuotesOut(l);
    }
    if o.performTitle {
      TitleKeepsQuotesOut(u, false);
    }
  }

  lemma ReverseKeepsQuotesOut(s: string)
    requires NoQuoteLike(s)
    ensures NoQuoteLike(Reverse(s))
  {
    forall i | 0 <= i < |s| ensures !QuoteLike(Reverse(s)[i]) {
      assert Reverse(s)[i] == s[|s| - 1 - i];
    }
  }

  // ----- what survives -----

  /**
   * Without case transforms every character of the result is in the
   * allow-set, or is the apostrophe that normalisation wrote.
   */
  lemma OnlyAdmittedSurvive(s: string, o: Options)
    requires LiteralChars(o)
    requires !o.performLower && !o.performUpper && !o.performTitle
    requires Sanitise(s, o).Success?
    ensures var r := Sanitise(s, o).value;
      forall i :: 0 <= i < |r| ==> Admits(o, r[i]) || (o.normaliseSingleQuotes && r[i] == '\'')
  {
    var f := Filter(s, o);
    FilterAdmitted(s, o);
    var n := if o.normaliseSingleQuotes then NormaliseQuotes(f) else f;
    assert Sane(o, n) by {
      forall i | 0 <= i < |n| ensures Admits(o, n[i]) || (o.normaliseSingleQuotes && n[i] == '\'') {
        assert Admits(o, f[i]);
      }
    }
    var t := Transformed(s, o);
    assert ApplyCase(n, o) == n;
    assert t == if o.reverse then Reverse(n) else n;
    assert Sane(o, t) by {
      if o.reverse {
        ReverseSane(o, n);
      }
    }
    var r := Sanitise(s, o).value;
    assert r == t[..|r|];
  }

  /** Every character is admitted, or is the apostrophe that normalisation writes. */
  predicate Sane(o: Options, s: string) {
    forall i :: 0 <= i < |s| ==> Admits(o, s[i]) || (o.normaliseSingleQuotes && s[i] == '\'')
  }

  lemma ReverseSane(o: Options, s: string)
    requires Sane(o, s)
    ensures Sane(o, Reverse(s))
  {
    forall i | 0 <= i < |s| ensures Admits(o, Reverse(s)[i]) || (o.normaliseSingleQuotes && Reverse(s)[i] == '\'') {
      assert Reverse(s)[i] == s[|s| - 1 - i];
    }
  }

  /**
   * Sanitising a sanitised string again changes nothing, as long as no case
   * transform or reversal is asked for, `max_length` is not negative, and the
   * apostrophe that normalisation writes is itself admitted.
   */
  lemma SanitiseIdempotent(s: string, o: Options)
    requires LiteralChars(o)
    requires !o.performLower && !o.performUpper && !o.performTitle && !o.reverse
    requires o.maxLength >= 0
    requires o.normaliseSingleQuotes ==> Admits(o, '\'')
    requires Sanitise(s, o).Success?
    ensures Sanitise(Sanitise(s, o).value, o) == Sanitise(s, o)
  {
    var r := Sanitise(s, o).value;
    OnlyAdmittedSurvive(s, o);
    FilterFixpoint(r, o);
    assert Filter(r, o) == r;
    if o.normaliseSingleQuotes {
      var n := NormaliseQuotes(Filter(s, o));
      NormalisedHasNoQuoteLike(Filter(s, o));
      assert r == n[..|r|];
      NormaliseIdentity(r);
    }
    assert Transformed(r, o) == r;
  }

  // ----- worked examples -----

  /** With the default flags: letters, digits, accented letters, quote-likes, space and hyphen. */
  lemma DefaultAllowSet(o: Options, c: char)
    requires o == Defaults
    ensures Admits(o, c) <==>
      || ('a' <= c <= 'z') || ('A' <= c <= 'Z') || ('0' <= c <= '9') || IsLatin1Letter(c)
      || c == '\'' || QuoteLike(c) || c == ' ' || c == '-'
  {
    AllowSetByFlags(o, c);
    assert Join(o.additionalAllowedChars) == [];
  }

  lemma AllAdmittedByDefault(s: string)
    requires forall i :: 0 <= i < |s| ==> ('a' <= s[i] <= 'z') || ('A' <= s[i] <= 'Z') || ('0' <= s[i] <= '9') || s[i] == ' ' || s[i] == '\U{2019}'
    ensures Filter(s, Defaults) == s
  {
    forall i | 0 <= i < |s| ensures Admits(Defaults, s[i]) {
      DefaultAllowSet(Defaults, s[i]);
    }
    FilterFixpoint(s, Defaults);
  }

  /** With the defaults only filtering, quote normalisation and the cut at `max_length` apply. */
  lemma DefaultPipeline(s: string, o: Options, x: string)
    requires o == Defaults || o == Defaults.(reverse := true, maxLength := 3)
    requires x == if o.reverse then Reverse(NormaliseQuotes(Filter(s, o))) else NormaliseQuotes(Filter(s, o))
    ensures LiteralChars(o)
    ensures Sanitise(s, o) == Success(SlicePrefix(x, o.maxLength))
  {
    assert ClassBody(o)[0] == 'a';
  }

  lemma FilterAppendKept(a: string, b: string, o: Options)
    requires Filter(b, o) == b
    ensures Filter(a + b, o) == Filter(a, o) + b
  {
    FilterConcat(a, b, o);
  }

  lemma FilterAppendDropped(a: string, c: char, o: Options)
    requires !Admits(o, c)
    ensures Filter(a + [c], o) == Filter(a, o)
  {
    FilterConcat(a, [c], o);
  }

  lemma FilterPunctuation(s: string, o: Options)
    requires s == "Hi!" && o == Defaults
    ensures Filter(s, o) == "Hi"
  {
    var kept := s[..2];
    assert s == kept + [s[2]];
    KeptByDefault(kept);
    DroppedByDefault(s[2]);
    FilterAppendDropped(kept, s[2], o);
  }

  lemma KeptByDefault(s: string)
    requires s == "Hi"
    ensures Filter(s, Defaults) == s
  {
    AllAdmittedByDefault(s);
  }

  lemma DroppedByDefault(c: char)
    requires c == '!'
    ensures !Admits(Defaults, c)
  {
    DefaultAllowSet(Defaults, c);
  }

  lemma NormaliseKeeps(x: string)
    requires x == "Hi" || x == "abcdef"
    ensures NormaliseQuotes(x) == x
  {
    NormaliseIdentity(x);
  }

  /** Punctuation outside the allow-set is deleted. */
  lemma ExamplePunctuation(s: string, o: Options)
    requires s == "Hi!" && o == Defaults
    ensures Sanitise(s, o) == Success("Hi")
  {
    FilterPunctuation(s, o);
    NormaliseKeeps("Hi");
    DefaultPipeline(s, o, "Hi");
    SliceFits("Hi", 200);
  }

  lemma FilterQuote(s: string)
    requires s == "O\U{2019}Brien"
    ensures Filter(s, Defaults) == s
  {
    AllAdmittedByDefault(s);
  }

  lemma NormaliseQuote(s: string)
    requires s == "O\U{2019}Brien"
    ensures NormaliseQuotes(s) == "O'Brien"
  {
  }

  lemma SliceFits(s: string, n: int)
    requires |s| <= n
    ensures SlicePrefix(s, n) == s
  {
  }

  /** The right single quotation mark becomes an ASCII apostrophe. */
  lemma ExampleQuote(s: string, o: Options)
    requires s == "O\U{2019}Brien" && o == Defaults
    ensures Sanitise(s, o) == Success("O'Brien")
  {
    FilterQuote(s);
    NormaliseQuote(s);
    DefaultPipeline(s, o, "O'Brien");
    SliceFits("O'Brien", 200);
  }

  lemma FilterLetters(s: string, o: Options)
    requires s == "abcdef" && o == Defaults.(reverse := true, maxLength := 3)
    ensures Filter(s, o) == s
  {
    forall i | 0 <= i < |s| ensures Admits(o, s[i]) {
      AllowSetByFlags(o, s[i]);
    }
    FilterFixpoint(s, o);
  }

  /** Reversal comes before truncation. */
  lemma ExampleReverseThenTruncate(s: string, o: Options)
    requires s == "abcdef" && o == Defaults.(reverse := true, maxLength := 3)
    ensures Sanitise(s, o) == Success("fed")
  {
    FilterLetters(s, o);
    NormaliseKeeps(s);
    ReverseCut(s);
    DefaultPipeline(s, o, Reverse(s));
  }

  lemma ReverseCut(s: string)
    requires s == "abcdef"
    ensures SlicePrefix(Reverse(s), 3) == "fed"
  {
    var r := Reverse(s);
    assert r[0] == s[5] && r[1] == s[4] && r[2] == s[3];
  }
}
