/**
 * The logic of the web front-end: the `scan` handler, which records a
 * submitted form in the session behind the CSRF guard and re-issues a token
 * on every render, the `health_check` handler, the client address helper and
 * the session-cookie settings derived from the `IS_HTTPS` variable.
 *
 * Rendering a template is opaque: a rendered page is the data handed to it.
 */
module Wsgi {
  import opened Wrappers
  import opened FlaskSession
  import Csrf
  import PyText

  // ----- settings derived from the environment -----

  /** `IS_HTTPS`: the lower-cased variable (default "f") starts with "t" or is "1". */
  function IsHttps(raw: Option<string>): (https: bool)
    ensures https <==>
      raw.Some? && ((|raw.value| > 0 && (raw.value[0] == 't' || raw.value[0] == 'T')) || raw.value == "1")
  {
    var v := PyText.Lower(if raw.Some? then raw.value else "f");
    assert raw.Some? && |raw.value| > 0 ==> v[0] == PyText.LowerChar(raw.value[0]);
    assert v == "1" ==> v[0] == PyText.LowerChar(raw.value[0]);
    (|v| > 0 && v[0] == 't') || v == "1"
  }

  /** The session cookie settings of `app.config`. */
  datatype CookieSettings = CookieSettings(
    name: string,
    domain: Option<string>,
    path: string,
    httpOnly: bool,
    secure: bool,
    sameSite: string)

  const HostPrefix := "__Host-"

  /** `COOKIE_NAME_SESSION` and the `SESSION_COOKIE_*` entries of `app.config`. */
  function SessionCookie(isHttps: bool): (c: CookieSettings)
    ensures c.secure <==> isHttps
    ensures c.httpOnly && c.sameSite == "Lax"
    ensures c.domain.None? && c.path == "/"
  {
    var prefix := if isHttps then HostPrefix else "";
    CookieSettings(prefix + "Session", None, "/", true, isHttps, "Lax")
  }

  /**
   * The cookie name carries the `__Host-` prefix exactly when serving over
   * HTTPS, and then the cookie meets the prefix's requirements (section
   * 4.1.3.2 of RFC 6265bis): Secure, no Domain attribute, Path "/".
   */
  lemma HostPrefixRules(isHttps: bool)
    ensures var c := SessionCookie(isHttps);
      && (|c.name| >= |HostPrefix| && c.name[..|HostPrefix|] == HostPrefix <==> isHttps)
      && (isHttps ==> c.secure && c.domain.None? && c.path == "/")
      && c.name[|c.name| - 7..] == "Session"
      && c.name == (if isHttps then "__Host-Session" else "Session")
  {
    var c := SessionCookie(isHttps);
    if !isHttps {
      assert c.name == "Session";
      assert c.name[..|HostPrefix|] != HostPrefix by {
        assert c.name[0] != HostPrefix[0];
      }
    }
  }

  // ----- small handlers -----

  /** `health_check(check)`. */
  function HealthCheck(check: string): (body: string)
    ensures body == "IMOK health" <==> check == "health"
    ensures check != "health" ==> body == "FAIL dependencies"
  {
    if check == "health" then "IMOK " + check else "FAIL dependencies"
  }

  const ForwardedFor := "HTTP_X_FORWARDED_FOR"
  const RemoteAddr := "REMOTE_ADDR"

  /**
   * `client_ip()`: the forwarded-for header when present, else the peer
   * address; `None` when neither is in the environment (the lookup raises).
   */
  function ClientIp(environ: map<string, string>): (ip: Option<string>)
    ensures ip.Some? <==> ForwardedFor in environ || RemoteAddr in environ
    ensures ForwardedFor in environ ==> ip == Some(environ[ForwardedFor])
    ensures ForwardedFor !in environ && RemoteAddr in environ ==> ip == Some(environ[RemoteAddr])
  {
    if ForwardedFor !in environ then
      if RemoteAddr in environ then Some(environ[RemoteAddr]) else None
    else
      Some(environ[ForwardedFor])
  }

  /** Whoever sets the forwarded-for header chooses the address, whatever the peer address is. */
  lemma ForwardedForWins(environ: map<string, string>, claimed: string)
    ensures ClientIp(environ[ForwardedFor := claimed]) == Some(claimed)
  {
  }

  // ----- the scan handler -----

  const ScanEndpoint := "scan"
  const CsrfFieldName := "csrf_form"

  /** The form fields `scan` reads, in the order it reads them. */
  const ScanKeys: seq<string> := [
    "p", "sp", "po", "src", "sbd", "ruh", "rua", "ruf", "ri", "rf",
    "so", "pr", "vf", "alt", "nbf", "exp", "inc", "rqs", "esa"]

  /** `scan_defaults`. */
  const ScanDefaults: map<string, Value> := map[
    "p" := Str("none"), "sp" := Str("none"), "po" := Str("*"), "src" := Str("*"),
    "sbd" := Str("."), "ruh" := Null, "rua" := Null, "ruf" := Null,
    "ri" := Int(86400), "rf" := Str("json"), "so" := Str("passive"), "pr" := Int(0),
    "vf" := Null, "alt" := Null, "nbf" := Null, "exp" := Null,
    "inc" := Null, "rqs" := Str("no"), "esa" := Null]

  /** The keys read are exactly the keys with a default, each once. */
  lemma ScanKeysHaveDefaults()
    ensures |ScanKeys| == 19
    ensures forall i, j :: 0 <= i < j < |ScanKeys| ==> ScanKeys[i] != ScanKeys[j]
    ensures forall k :: k in ScanKeys <==> k in ScanDefaults
  {
  }

  /** Python truthiness of a record value. */
  predicate Truthy(v: Value) {
    match v
    case Str(s) => s != []
    case Int(i) => i != 0
    case Null => false
  }

  /** `request.form.get(k, scan_defaults[k])`. */
  function FormGet(form: map<string, string>, k: string): Value
    requires k in ScanDefaults
  {
    if k in form then Str(form[k]) else ScanDefaults[k]
  }

  /** Every key with the submitted value or its default. */
  function FullRecord(form: map<string, string>): Record {
    map k | k in ScanDefaults :: FormGet(form, k)
  }

  /**
   * The record a POST to `scan` appends: every key with the submitted value
   * or its default, collapsed to the single entry `inc` when `inc` was
   * submitted non-empty.
   */
  function SubmittedRecord(form: map<string, string>): (r: Record)
    ensures "inc" in form && form["inc"] != [] ==> r == map["inc" := Str(form["inc"])]
    ensures !("inc" in form && form["inc"] != []) ==>
      && r.Keys == ScanDefaults.Keys
      && forall k :: k in r ==> r[k] == (if k in form then Str(form[k]) else ScanDefaults[k])
  {
    var full := FullRecord(form);
    if Truthy(full["inc"]) then map["inc" := full["inc"]] else full
  }

  /** The record filled from the first `i` keys of `keys`. */
  function Filled(keys: seq<string>, i: nat, form: map<string, string>): Record
    requires i <= |keys| && forall k :: k in keys ==> k in ScanDefaults
  {
    map k | k in keys[..i] :: FormGet(form, k)
  }

  lemma FilledStep(keys: seq<string>, i: nat, form: map<string, string>)
    requires i < |keys| && forall k :: k in keys ==> k in ScanDefaults
    ensures Filled(keys, i + 1, form) == Filled(keys, i, form)[keys[i] := FormGet(form, keys[i])]
  {
    assert keys[..i + 1] == keys[..i] + [keys[i]];
  }

  lemma FilledAll(keys: seq<string>, form: map<string, string>)
    requires forall k :: k in keys <==> k in ScanDefaults
    ensures Filled(keys, |keys|, form) == FullRecord(form)
  {
    assert keys[..|keys|] == keys;
  }

  /** Lines 137-163 of `scan`: fills the record key by key, then collapses it. */
  method AssembleRecord(form: map<string, string>) returns (record: Record)
    ensures record == SubmittedRecord(form)
  {
    ScanKeysHaveDefaults();
    var keys := ScanKeys;
    record := map[];
    for i := 0 to |keys|
      invariant record == Filled(keys, i, form)
    {
      var k := keys[i];
      FilledStep(keys, i, form);
      record := record[k := FormGet(form, k)];
    }
    FilledAll(keys, form);
    if Truthy(record["inc"]) {
      record := map["inc" := record["inc"]];
    }
  }

  /** A request as the handlers see it. */
  datatype Request = Request(verb: string, form: map<string, string>)

  /** What a handler returns: a rendered page (its template data), 403 or 500. */
  datatype Response = Page(csrfForm: string, records: seq<Record>) | Forbidden | ServerError

  function Status(r: Response): int {
    match r
    case Page(_, _) => 200
    case Forbidden => 403
    case ServerError => 500
  }

  /** `request.form["csrf_form"]`, `None` when the field is missing (the lookup raises). */
  function CsrfField(form: map<string, string>): Option<string> {
    if CsrfFieldName in form then Some(form[CsrfFieldName]) else None
  }

  /** The records list before a request, `[]` when absent. */
  function RecordsOrEmpty(records: Option<seq<Record>>): seq<Record> {
    if records.Some? then records.value else []
  }

  /**
   * The body of `scan`: creates `session["records"]` if absent, appends the
   * submitted record on POST, then renders with a token issued for `scan`.
   * Issuing raises when `csrf_values` is not a dict: the response is then
   * 500, after the record was appended.
   */
  method Scan(session: Session, request: Request) returns (response: Response)
    modifies session
    ensures session.records == Some(RecordsOrEmpty(old(session.records))
      + (if request.verb == "POST" then [SubmittedRecord(request.form)] else []))
    ensures old(session.csrfValues).Foreign? ==>
      response == ServerError && session.csrfValues == old(session.csrfValues)
    ensures !old(session.csrfValues).Foreign? ==>
      && response.Page?
      && response.records == session.records.value
      && |response.csrfForm| == Csrf.TokenLength
      && Some(session.csrfValues) == Csrf.IssueStep(old(session.csrfValues), ScanEndpoint, response.csrfForm)
  {
    if session.records.None? {
      session.records := Some([]);
    }
    assert session.records == Some(RecordsOrEmpty(old(session.records)));
    if request.verb == "POST" {
      var record := AssembleRecord(request.form);
      session.records := Some(session.records.value + [record]);
      assert session.records == Some(RecordsOrEmpty(old(session.records)) + [SubmittedRecord(request.form)]);
    } else {
      var before := RecordsOrEmpty(old(session.records));
      assert before + [] == before;
      assert session.records == Some(before + []);
    }
    assert session.records == Some(RecordsOrEmpty(old(session.records))
      + (if request.verb == "POST" then [SubmittedRecord(request.form)] else []));
    var token := Csrf.IssueToken(session, None, ScanEndpoint);
    assert session.records == Some(RecordsOrEmpty(old(session.records))
      + (if request.verb == "POST" then [SubmittedRecord(request.form)] else []));
    match token
    case None =>
      response := ServerError;
    case Some(t) =>
      response := Page(t, session.records.value);
  }

  /** The `/scan` route: `scan` wrapped by `CheckCSRFSession`. */
  method ScanRoute(session: Session, request: Request) returns (response: Response)
    modifies session
    ensures var v := Csrf.Guard(old(session.csrfValues), request.verb, ScanEndpoint, CsrfField(request.form));
      && (!v.valid ==> response == Forbidden && session.records == old(session.records) && session.csrfValues == v.csrfValues)
      && (v.valid ==>
            && session.records == Some(RecordsOrEmpty(old(session.records))
                 + (if request.verb == "POST" then [SubmittedRecord(request.form)] else []))
            && (v.csrfValues.Foreign? ==> response == ServerError && session.csrfValues == v.csrfValues)
            && (!v.csrfValues.Foreign? ==>
                  && response.Page?
                  && response.records == session.records.value
                  && |response.csrfForm| == Csrf.TokenLength
                  && Some(session.csrfValues) == Csrf.IssueStep(v.csrfValues, ScanEndpoint, response.csrfForm)))
  {
    var valid := Csrf.CheckCsrf(session, request.verb, ScanEndpoint, CsrfField(request.form));
    if valid {
      response := Scan(session, request);
    } else {
      response := Forbidden;
    }
  }

  /**
   * Because `scan` issues a fresh token after an accepted POST, replaying a
   * form is accepted only when it strips to that fresh token, so the
   * original form is accepted again only if the fresh token happens to
   * equal the consumed one.
   */
  lemma ScanReplayNeedsFreshToken(cv: CsrfValues, field: string, newToken: string, replay: string)
    requires Csrf.Checked(cv, "POST", ScanEndpoint)
    requires Csrf.Guard(cv, "POST", ScanEndpoint, Some(field)).valid
    ensures var consumed := Csrf.Guard(cv, "POST", ScanEndpoint, Some(field)).csrfValues;
      var reissued := Csrf.IssueStep(consumed, ScanEndpoint, newToken).value;
      && (Csrf.Guard(reissued, "POST", ScanEndpoint, Some(replay)).valid <==> PyText.Strip(replay) == newToken)
      && (Csrf.Guard(reissued, "POST", ScanEndpoint, Some(field)).valid <==> cv.tokens[ScanEndpoint] == newToken)
  {
  }
}
