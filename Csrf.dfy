/**
 * Per-endpoint CSRF tokens: `random_string` draws a token, `get_csrf_session`
 * stores it under an endpoint name in `session["csrf_values"]`, and the
 * `CheckCSRFSession` wrapper compares a POSTed `csrf_form` field against the
 * pending token before letting the wrapped handler run.
 *
 * The random choices are nondeterministic; a call that raises is a `None`
 * result that leaves the session as it was.
 */
module Csrf {
  import opened Wrappers
  import opened FlaskSession
  import PyText

  /** The `n` consecutive code points from `first`. */
  function Run(first: char, n: nat): (r: string)
    requires first as int + n <= 0xD800
    ensures |r| == n
    ensures forall i :: 0 <= i < n ==> r[i] == (first as int + i) as char
  {
    if n == 0 then [] else Run(first, n - 1) + [(first as int + n - 1) as char]
  }

  /** `string.digits`. */
  const Digits: string := Run('0', 10)

  /** `string.ascii_letters`: the lower-case letters, then the upper-case ones. */
  const AsciiLetters: string := Run('a', 26) + Run('A', 26)

  /** The length of an issued token (the default of `random_string`). */
  const TokenLength := 32

  /** The characters `random_string` chooses from. */
  function Alphabet(onlyNumbers: bool): (r: string)
    ensures |r| == if onlyNumbers then 10 else 62
  {
    if onlyNumbers then Digits else Digits + AsciiLetters
  }

  /** The characters a result of `random_string` may hold, described independently of `Alphabet`. */
  predicate TokenChar(c: char, lower: bool, onlyNumbers: bool) {
    || ('0' <= c <= '9')
    || (!onlyNumbers && 'a' <= c <= 'z')
    || (!onlyNumbers && !lower && 'A' <= c <= 'Z')
  }

  /** A string of `length` random characters (none for a negative length), lower-cased on request. */
  method RandomString(length: int, lower: bool, onlyNumbers: bool) returns (r: string)
    ensures |r| == if length < 0 then 0 else length
    ensures forall i :: 0 <= i < |r| ==> TokenChar(r[i], lower, onlyNumbers)
  {
    var chars := Alphabet(onlyNumbers);
    var res := "";
    var i := 0;
    while i < length
      invariant 0 <= i <= (if length < 0 then 0 else length)
      invariant |res| == i
      invariant forall j :: 0 <= j < |res| ==> TokenChar(res[j], false, onlyNumbers)
      decreases length - i
    {
      var k :| 0 <= k < |chars|;
      AlphabetChars(onlyNumbers, k);
      res := res + [chars[k]];
      i := i + 1;
    }
    if lower {
      LowerKeepsTokenChars(res, onlyNumbers);
      res := PyText.Lower(res);
    }
    r := res;
  }

  /** Every character of the alphabet is a token character. */
  lemma AlphabetChars(onlyNumbers: bool, k: int)
    requires 0 <= k < |Alphabet(onlyNumbers)|
    ensures TokenChar(Alphabet(onlyNumbers)[k], false, onlyNumbers)
  {
    var c := Alphabet(onlyNumbers)[k];
    if k < 10 {
      assert c == Digits[k];
      RunBounds('0', 10, k);
    } else if k < 36 {
      assert c == AsciiLetters[k - 10] == Run('a', 26)[k - 10];
      RunBounds('a', 26, k - 10);
    } else {
      assert c == AsciiLetters[k - 10] == Run('A', 26)[k - 36];
      RunBounds('A', 26, k - 36);
    }
  }

  lemma RunBounds(first: char, n: nat, k: int)
    requires first as int + n <= 0xD800
    requires 0 <= k < n
    ensures first <= Run(first, n)[k] && (Run(first, n)[k] as int) < first as int + n
  {
  }

  /** Every token character occurs in the alphabet, so no token character is out of reach. */
  lemma AlphabetComplete(c: char, onlyNumbers: bool)
    requires TokenChar(c, false, onlyNumbers)
    ensures c in Alphabet(onlyNumbers)
  {
    if '0' <= c <= '9' {
      RunContains('0', 10, c);
      assert c in Digits;
    } else if 'a' <= c <= 'z' {
      RunContains('a', 26, c);
      assert c in AsciiLetters;
    } else {
      RunContains('A', 26, c);
      assert c in AsciiLetters;
    }
  }

  lemma RunContains(first: char, n: nat, c: char)
    requires first as int + n <= 0xD800
    requires first <= c && (c as int) < first as int + n
    ensures c in Run(first, n)
  {
    assert Run(first, n)[c as int - first as int] == c;
  }

  /** The alphabets are the texts of Python's `string` constants. */
  lemma DigitsText(t: string)
    requires t == "0123456789"
    ensures Digits == t
  {
    RunText('0', t);
  }

  lemma AsciiLettersText(lower: string, upper: string)
    requires lower == "abcdefghijklmnopqrstuvwxyz" && upper == "ABCDEFGHIJKLMNOPQRSTUVWXYZ"
    ensures AsciiLetters == lower + upper
  {
    RunText('a', lower);
    RunText('A', upper);
  }

  lemma RunText(first: char, t: string)
    requires first as int + |t| <= 0xD800
    requires forall i :: 0 <= i < |t| ==> t[i] == (first as int + i) as char
    ensures Run(first, |t|) == t
  {
  }

  /** Lower-casing maps token characters to lower-case token characters. */
  lemma LowerKeepsTokenChars(s: string, onlyNumbers: bool)
    requires forall i :: 0 <= i < |s| ==> TokenChar(s[i], false, onlyNumbers)
    ensures forall i :: 0 <= i < |s| ==> TokenChar(PyText.Lower(s)[i], true, onlyNumbers)
  {
    forall i | 0 <= i < |s| ensures TokenChar(PyText.Lower(s)[i], true, onlyNumbers) {
      assert PyText.Lower(s)[i] == PyText.LowerChar(s[i]);
    }
  }

  /** A lower-cased token has no upper-case letter left to lower. */
  lemma LowerTokenIsLower(r: string, onlyNumbers: bool)
    requires forall i :: 0 <= i < |r| ==> TokenChar(r[i], true, onlyNumbers)
    ensures PyText.Lower(r) == r
  {
  }

  /** The characters of a token are never whitespace, so `strip()` keeps a token whole. */
  lemma StripKeepsToken(t: string)
    requires forall i :: 0 <= i < |t| ==> TokenChar(t[i], false, false)
    ensures PyText.Strip(t) == t
  {
    PyText.StripTrimmed(t);
  }

  /** The key `get_csrf_session` writes: a non-empty override, else the current endpoint. */
  function TokenKey(overrideEndpoint: Option<string>, endpoint: string): (k: string)
    ensures overrideEndpoint.Some? && overrideEndpoint.value != [] ==> k == overrideEndpoint.value
    ensures overrideEndpoint == None || overrideEndpoint == Some([]) ==> k == endpoint
  {
    match overrideEndpoint
    case Some(name) => if name != [] then name else endpoint
    case None => endpoint
  }

  /**
   * The new `csrf_values` after storing `token` under `key`: the map is
   * created if absent and `dict.update` overwrites the key. `None` when the
   * stored value is not a dict, where `update` raises.
   */
  function IssueStep(cv: CsrfValues, key: string, token: string): (r: Option<CsrfValues>)
    ensures r.None? <==> cv.Foreign?
    ensures r.Some? ==> r.value.Table?
    ensures r.Some? ==> r.value.tokens.Keys == Pending(cv).Keys + {key}
    ensures r.Some? ==> r.value.tokens[key] == token
    ensures r.Some? ==> forall k :: k in Pending(cv) && k != key ==> r.value.tokens[k] == Pending(cv)[k]
  {
    if cv.Foreign? then None else Some(Table(Pending(cv)[key := token]))
  }

  /** `get_csrf_session(override_endpoint)` with `request.endpoint == endpoint`. */
  method IssueToken(session: Session, overrideEndpoint: Option<string>, endpoint: string) returns (token: Option<string>)
    modifies session
    ensures session.records == old(session.records)
    ensures token.None? <==> old(session.csrfValues).Foreign?
    ensures token.None? ==> session.csrfValues == old(session.csrfValues)
    ensures token.Some? ==> |token.value| == TokenLength
    ensures token.Some? ==> forall i :: 0 <= i < |token.value| ==> TokenChar(token.value[i], false, false)
    ensures token.Some? ==>
      Some(session.csrfValues) == IssueStep(old(session.csrfValues), TokenKey(overrideEndpoint, endpoint), token.value)
  {
    var value := RandomString(TokenLength, false, false);
    match session.csrfValues
    case Foreign =>
      token := None;
    case _ =>
      var d := Pending(session.csrfValues);
      d := d[TokenKey(overrideEndpoint, endpoint) := value];
      session.csrfValues := Table(d);
      token := Some(value);
  }

  /** Whether the wrapped handler may run, and what `csrf_values` holds afterwards. */
  datatype Verdict = Verdict(valid: bool, csrfValues: CsrfValues)

  /** The guard compares a token: `csrf_values` is a dict, the method is POST and the endpoint has an entry. */
  predicate Checked(cv: CsrfValues, verb: string, endpoint: string) {
    cv.Table? && verb == "POST" && endpoint in cv.tokens
  }

  /**
   * The decision of `CheckCSRFSession` for one request. `csrfForm` is the
   * `csrf_form` field, `None` when reading it raises; the raise skips the
   * `pop`, so the pending token stays.
   */
  function Guard(cv: CsrfValues, verb: string, endpoint: string, csrfForm: Option<string>): (v: Verdict)
    ensures !Checked(cv, verb, endpoint) ==> v.valid && v.csrfValues == cv
    ensures Checked(cv, verb, endpoint) && csrfForm.None? ==> !v.valid && v.csrfValues == cv
    ensures Checked(cv, verb, endpoint) && csrfForm.Some? ==>
      && (v.valid <==> PyText.Strip(csrfForm.value) == cv.tokens[endpoint])
      && v.csrfValues.Table?
      && endpoint !in v.csrfValues.tokens
      && forall k :: k != endpoint ==>
           (k in v.csrfValues.tokens <==> k in cv.tokens)
           && (k in cv.tokens ==> v.csrfValues.tokens[k] == cv.tokens[k])
  {
    if Checked(cv, verb, endpoint) then
      match csrfForm
      case Some(field) => Verdict(PyText.Strip(field) == cv.tokens[endpoint], Table(cv.tokens - {endpoint}))
      case None => Verdict(false, cv)
    else
      Verdict(true, cv)
  }

  /**
   * The body of `CheckCSRFSession`'s wrapper up to the call: returns whether
   * the wrapped handler runs (otherwise the response is "Forbidden", 403).
   */
  method CheckCsrf(session: Session, verb: string, endpoint: string, csrfForm: Option<string>) returns (valid: bool)
    modifies session
    ensures session.records == old(session.records)
    ensures valid == Guard(old(session.csrfValues), verb, endpoint, csrfForm).valid
    ensures session.csrfValues == Guard(old(session.csrfValues), verb, endpoint, csrfForm).csrfValues
  {
    valid := true;
    if session.csrfValues.Table? {
      var ep := endpoint;
      if verb == "POST" && ep in session.csrfValues.tokens {
        valid := false;
        match csrfForm
        case Some(field) =>
          var fromRequest := PyText.Strip(field);
          var sessionValue := session.csrfValues.tokens[ep];
          if sessionValue == fromRequest {
            valid := true;
          }
          session.csrfValues := Table(session.csrfValues.tokens - {ep});
        case None =>
      }
    }
  }

  // ----- protocol properties over several requests -----

  /** A token issued for an endpoint and POSTed back, with any surrounding whitespace, is accepted and consumed. */
  lemma IssueThenAccept(cv: CsrfValues, key: string, token: string, field: string)
    requires !cv.Foreign?
    requires PyText.Strip(field) == token
    ensures var issued := IssueStep(cv, key, token).value;
      var v := Guard(issued, "POST", key, Some(field));
      v.valid && v.csrfValues.Table? && key !in v.csrfValues.tokens
  {
  }

  /** A POSTed field that does not strip to the pending token is rejected, and the token is consumed all the same. */
  lemma WrongTokenRejectedAndConsumed(cv: CsrfValues, key: string, token: string, field: string)
    requires !cv.Foreign?
    requires PyText.Strip(field) != token
    ensures var issued := IssueStep(cv, key, token).value;
      var v := Guard(issued, "POST", key, Some(field));
      !v.valid && v.csrfValues.Table? && key !in v.csrfValues.tokens
  {
  }

  /** Issuing twice for one endpoint overwrites: only the second token is accepted. */
  lemma ReissueOverwrites(cv: CsrfValues, key: string, first: string, second: string, field: string, latest: string)
    requires !cv.Foreign?
    requires first != second && PyText.Strip(field) == first
    requires PyText.Strip(latest) == second
    ensures var once := IssueStep(cv, key, first).value;
      var twice := IssueStep(once, key, second).value;
      && !Guard(twice, "POST", key, Some(field)).valid
      && Guard(twice, "POST", key, Some(latest)).valid
  {
  }

  /**
   * When reading `csrf_form` raises, the request is rejected but the token
   * stays pending, so a later POST with the right token is still accepted.
   */
  lemma ReadFailureKeepsToken(cv: CsrfValues, key: string, token: string, field: string)
    requires !cv.Foreign?
    requires PyText.Strip(field) == token
    ensures var issued := IssueStep(cv, key, token).value;
      var failed := Guard(issued, "POST", key, None);
      && !failed.valid
      && failed.csrfValues == issued
      && Guard(failed.csrfValues, "POST", key, Some(field)).valid
  {
  }

  /**
   * Once a token is consumed and no new one is issued, the endpoint has no
   * entry and a later POST is not checked at all: any field, or none, passes.
   */
  lemma ConsumedEndpointUnchecked(cv: CsrfValues, key: string, token: string, field: string, replay: Option<string>)
    requires !cv.Foreign?
    ensures var issued := IssueStep(cv, key, token).value;
      var first := Guard(issued, "POST", key, Some(field));
      var second := Guard(first.csrfValues, "POST", key, replay);
      second.valid && second.csrfValues == first.csrfValues
  {
  }

  /** A check on one endpoint leaves the tokens of every other endpoint as they were. */
  lemma OtherEndpointsUntouched(cv: CsrfValues, verb: string, endpoint: string, csrfForm: Option<string>, other: string)
    requires cv.Table? && other != endpoint
    ensures var after := Guard(cv, verb, endpoint, csrfForm).csrfValues;
      after.Table?
      && (other in after.tokens <==> other in cv.tokens)
      && (other in cv.tokens ==> after.tokens[other] == cv.tokens[other])
  {
  }

  /** Requests that are not POSTs are never checked and change nothing. */
  lemma NonPostSkipped(cv: CsrfValues, verb: string, endpoint: string, csrfForm: Option<string>)
    requires verb != "POST"
    ensures Guard(cv, verb, endpoint, csrfForm) == Verdict(true, cv)
  {
  }
}
