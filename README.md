# scantxt web front-end: CSRF tokens, string sanitising and the scan handler

This project is a Dafny model of the core of the scantxt web application. The
application is a small Flask service: a user submits the fields of a record on
the `/scan` page, and the records are kept in the client's session.

The model covers the following:

- **CSRF tokens** (`Csrf.dfy`).
  - `random_string` draws a token from the digits, or from the digits and the
    ASCII letters, and can lower-case it.
  - `get_csrf_session` stores a fresh token under an endpoint name in
    `session["csrf_values"]`.
  - The `CheckCSRFSession` decorator compares a POSTed `csrf_form` field,
    stripped of whitespace, against the pending token. It consumes that token
    and lets the wrapped handler run only when the two match.
- **`sanitise_string`** (`Sanitiser.dfy`).
  - It first deletes every character outside an allow-set built from flags.
  - It then normalises quote-like characters to `'`.
  - It applies `lower`, `upper` and `title`, in that order, reverses on
    request, and finally cuts to `max_length`.
  - An empty allow-set makes the regular-expression compiler raise.
- **The Python string primitives the core relies on** (`PyText.dfy`):
  `strip`, `lower`, `upper` and `title`.
- **The handlers and settings of `wsgi.py`** (`Wsgi.dfy`).
  - `scan` under its CSRF guard, with `scan_defaults`. It appends one record
    per POST and issues a new token on every render.
  - `health_check` and `client_ip`.
  - The `IS_HTTPS` switch and the session-cookie settings it drives.
- **The parts of the Flask session that the core uses** (`FlaskSession.dfy`).
  `Session` is a class whose fields the handlers update in place.

The shared `Option` and `Result` types are in `Wrappers.dfy`.

Where a Python call raises, the model returns an explicit error value:

- `re.compile` on `[^]` fails, so `Sanitise` returns a `Failure`.
- `dict.update` on a `csrf_values` that is not a dict at all fails. `IssueStep` and
  `IssueToken` return `None`, and `Scan` answers with a 500 response.
- A missing `csrf_form` field makes the guard reject the request without
  consuming the token.
- A missing `REMOTE_ADDR` makes `ClientIp` return `None`.

Random choices are nondeterministic choices of an index into the alphabet.
Rendering a template is opaque: a rendered page is modelled by the data handed
to the template.

Two behaviours of the guard are worth spelling out.

- **Tokens are not strictly single-use.**
  - The decorator only checks a POST when the endpoint still has an entry in
    `csrf_values` (`generate/generate_utils.py:38`).
  - So once a token has been consumed and none has been issued again, a later
    POST to that endpoint is not checked at all. `Csrf.ConsumedEndpointUnchecked`
    states this.
  - `scan` re-issues a token on every successful render, so a replayed form
    passes only if it carries the new token. `Wsgi.ScanReplayNeedsFreshToken`
    states this.
- **A failed read does not consume the token.**
  - The `pop` comes after the read of `csrf_form` inside the `try`
    (`generate/generate_utils.py:41-45`).
  - So when the read raises, the request is rejected and the token stays.
    `Csrf.ReadFailureKeepsToken` states this.

## Model

| member | source | states |
|---|---|---|
| PyText.StripLeft | generate/generate_utils.py:41 | `lstrip()` keeps a suffix of the input that does not start with whitespace |
| PyText.StripRight | generate/generate_utils.py:41 | `rstrip()` keeps a prefix of the input that does not end with whitespace |
| PyText.StripLeftRemovesSpace | generate/generate_utils.py:41 | everything `lstrip()` removes is whitespace |
| PyText.StripRightRemovesSpace | generate/generate_utils.py:41 | everything `rstrip()` removes is whitespace |
| PyText.Strip | generate/generate_utils.py:41 | the stripped field is no longer than the input and has no whitespace at either end |
| PyText.Lead | generate/generate_utils.py:41 | the number of leading characters `strip()` drops; the left strip is the suffix after them |
| PyText.StripIsInfix | generate/generate_utils.py:41 | the stripped field is the contiguous part of the input right after the leading whitespace |
| PyText.StripRemovesOnlySpace | generate/generate_utils.py:41 | only whitespace lies before and after the stripped part |
| PyText.StripTrimmed | generate/generate_utils.py:41 | a string with no whitespace at either end is unchanged by `strip()` |
| PyText.Lower | generate/generate_utils.py:96-97 | `lower()` keeps the length and lower-cases each character in place |
| PyText.LowerIdempotent | generate/generate_utils.py:96-97 | lower-casing twice is the same as lower-casing once |
| PyText.Upper | generate/generate_utils.py:99-100 | `upper()` never shortens a string, and keeps its length when there is no sharp s |
| PyText.Title | generate/generate_utils.py:102-103 | `title()` never shortens a string, and keeps its length when there is no sharp s |
| PyText.UpperConcat | generate/generate_utils.py:99-100 | `upper()` distributes over concatenation |
| PyText.UpperIdempotent | generate/generate_utils.py:99-100 | upper-casing twice is the same as upper-casing once, even though the sharp s grows to two characters |
| PyText.UpperCharIdempotent | generate/generate_utils.py:99-100 | the upper case of any one character is already upper case |
| PyText.UpperSharpS | generate/generate_utils.py:99-100 | `upper()` turns "straße" into "STRASSE": the length can grow |
| PyText.TitleApostrophe | generate/generate_utils.py:102-103 | `title()` of "o'brien" is "O'Brien": the apostrophe starts a new word |
| PyText.TitleLowerTail | generate/generate_utils.py:102-103 | after a cased character, `title()` keeps lower-case ASCII letters as they are |
| Sanitiser.ClassBody | generate/generate_utils.py:77-88 | the class text is empty exactly when every flag that contributes a fragment is off and there are no extra characters |
| Sanitiser.Sanitise | generate/generate_utils.py:57-108 | `sanitise_string` fails exactly on the unterminated pattern `[^]`; otherwise it returns a prefix of the transformed string, at most `max_length` long. Its other properties are `RaisesIffAllowSetEmpty`, `TruncationIsLast`, `OnlyAdmittedSurvive` and `SanitiseIdempotent` |
| Sanitiser.ApplyCase | generate/generate_utils.py:96-103 | with no case flag the text is unchanged; with only lower-casing the length is kept; the case steps never shorten the text |
| Sanitiser.Transformed | generate/generate_utils.py:90-106 | without upper or title the transformed text is as long as the filtered one; with only the filter switched on it is exactly the filtered text |
| Sanitiser.UnterminatedIffEmptyBody | generate/generate_utils.py:77-88 | the pattern is the bare `[^]` exactly when no flag or extra character contributed to the class |
| Sanitiser.RaisesIffAllowSetEmpty | generate/generate_utils.py:77-90 | `sanitise_string` fails exactly when the allow-set admits no character at all |
| Sanitiser.AllowSetByFlags | generate/generate_utils.py:77-88 | a character is kept iff a flag that is set allows it, or it is one of the extra characters, or it falls in the `A-Z` of the accented fragment |
| Sanitiser.AccentedAdmitsAsciiUpper | generate/generate_utils.py:81 | with letters and accents allowed, ASCII capitals are kept even when `allow_upper` is false |
| Sanitiser.DefaultAllowSet | generate/generate_utils.py:57-88 | with the default flags, the kept characters are the ASCII letters and digits, the Latin-1 letters, `'`, the quote-likes, space and hyphen |
| Sanitiser.Filter | generate/generate_utils.py:90-91 | deleting the characters outside the allow-set never lengthens the string |
| Sanitiser.FilterConcat | generate/generate_utils.py:90-91 | the filter works character by character: filtering a concatenation concatenates the filtered parts |
| Sanitiser.FilterSplit | generate/generate_utils.py:90-91 | each character is kept exactly when it is admitted, in its place between the filtered text before and after it |
| Sanitiser.FilterAdmitted | generate/generate_utils.py:90-91 | every character the filter keeps is in the allow-set |
| Sanitiser.FilterFixpoint | generate/generate_utils.py:90-91 | the filter leaves a string unchanged iff every character of it is admitted |
| Sanitiser.NormaliseQuotes | generate/generate_utils.py:93-94 | normalising keeps the length, turns each quote-like character into `'` and leaves every other character alone |
| Sanitiser.NormalisedHasNoQuoteLike | generate/generate_utils.py:93-94 | no quote-like character is left after normalising |
| Sanitiser.NormaliseIdentity | generate/generate_utils.py:93-94 | normalising a string without quote-like characters changes nothing |
| Sanitiser.NoQuoteLikeInResult | generate/generate_utils.py:93-108 | with normalisation on, no later step brings a quote-like character back into the result |
| Sanitiser.Reverse | generate/generate_utils.py:105-106 | `s[::-1]` keeps the length and puts character `i` at position `len-1-i` |
| Sanitiser.SlicePrefix | generate/generate_utils.py:108 | `s[:n]` is a prefix of `s` of length `min(n, len)` for `n >= 0`, and `len+n` (at least 0) for `n < 0` |
| Sanitiser.TruncationIsLast | generate/generate_utils.py:93-108 | the result is a prefix of the transformed string, at most `max_length` long, and all of it when it fits |
| Sanitiser.OnlyAdmittedSurvive | generate/generate_utils.py:77-108 | without case transforms, every character of the result is admitted or is the `'` that normalisation wrote |
| Sanitiser.SanitiseIdempotent | generate/generate_utils.py:57-108 | without case transforms or reversal, and with `'` admitted when normalising, sanitising a result again returns it unchanged |
| Sanitiser.ExamplePunctuation | generate/generate_utils.py:57-108 | with the defaults, "Hi!" sanitises to "Hi" |
| Sanitiser.ExampleQuote | generate/generate_utils.py:57-108 | with the defaults, "O’Brien" (U+2019) sanitises to "O'Brien" |
| Sanitiser.ExampleReverseThenTruncate | generate/generate_utils.py:105-108 | "abcdef" reversed and cut to 3 characters is "fed": the cut comes after the reversal |
| Csrf.Run | generate/generate_utils.py:114-117 | the run of `n` consecutive code points from `first` that builds `string.digits` and `string.ascii_letters` |
| Csrf.DigitsText | generate/generate_utils.py:114-115 | the modelled `string.digits` is "0123456789" |
| Csrf.AsciiLettersText | generate/generate_utils.py:116-117 | the modelled `string.ascii_letters` is the 26 lower-case letters followed by the 26 upper-case ones |
| Csrf.Alphabet | generate/generate_utils.py:114-117 | the alphabet has 10 characters with `only_numbers`, otherwise 62 |
| Csrf.AlphabetComplete | generate/generate_utils.py:114-117 | every digit, and unless only numbers are asked for every ASCII letter, occurs in the alphabet |
| Csrf.AlphabetChars | generate/generate_utils.py:114-118 | every character of the alphabet `random_string` chooses from is a digit or, unless only numbers are asked for, an ASCII letter |
| Csrf.RandomString | generate/generate_utils.py:111-121 | the result has `length` characters (none when `length` is negative), each a digit or, unless only numbers are asked for, a letter; no upper-case letter when lower-cased |
| Csrf.LowerKeepsTokenChars | generate/generate_utils.py:119-120 | lower-casing keeps every token character a token character and leaves no capital |
| Csrf.LowerTokenIsLower | generate/generate_utils.py:119-120 | a lower-cased token is unchanged by a further `lower()` |
| Csrf.StripKeepsToken | generate/generate_utils.py:41-43 | a token contains no whitespace, so the `strip()` on the form field never alters a genuine token |
| Csrf.TokenKey | generate/generate_utils.py:24 | tokens are stored under a non-empty override endpoint, otherwise under the request's endpoint |
| Csrf.IssueStep | generate/generate_utils.py:20-25 | storing a token fails iff `csrf_values` is not a dict; otherwise it adds or overwrites the one key and keeps every other pending token |
| Csrf.IssueToken | generate/generate_utils.py:17-27 | a 32-character alphanumeric token is returned and stored as `IssueStep` says; nothing is stored when the update raises |
| Csrf.Guard | generate/generate_utils.py:33-52 | unchecked requests pass unchanged; an unreadable field is rejected and keeps the token; otherwise the request passes iff the stripped field equals the token, and that token alone is removed |
| Csrf.CheckCsrf | generate/generate_utils.py:30-54 | the decorator's decision and the new `csrf_values` are those of `Guard`; the records are untouched |
| Csrf.IssueThenAccept | generate/generate_utils.py:17-45 | an issued token posted back, with any surrounding whitespace, is accepted and consumed |
| Csrf.WrongTokenRejectedAndConsumed | generate/generate_utils.py:38-45 | a wrong field is rejected, and the pending token is consumed all the same |
| Csrf.ReissueOverwrites | generate/generate_utils.py:17-27 | after issuing twice for one endpoint, a field carrying the first token is rejected and one carrying the second is accepted |
| Csrf.ReadFailureKeepsToken | generate/generate_utils.py:40-47 | when reading the field raises, the request is rejected, the token stays, and a later correct POST is accepted |
| Csrf.ConsumedEndpointUnchecked | generate/generate_utils.py:35-45 | once an endpoint's token is consumed and none is re-issued, a later POST there is not checked |
| Csrf.OtherEndpointsUntouched | generate/generate_utils.py:38-45 | a check on one endpoint never changes another endpoint's pending token |
| Csrf.NonPostSkipped | generate/generate_utils.py:38 | a request that is not a POST is never checked and changes nothing |
| Wsgi.IsHttps | generate/wsgi.py:29-30 | HTTPS is on iff the variable is set and starts with `t` or `T` or is exactly "1"; an unset variable means off |
| Wsgi.SessionCookie | generate/wsgi.py:46-53 | the session cookie is Secure iff HTTPS is on, is always HttpOnly and SameSite=Lax, has no Domain and has Path "/" |
| Wsgi.HostPrefixRules | generate/wsgi.py:32-53 | the cookie name is "__Host-Session" when HTTPS is on and "Session" otherwise, so it has the `__Host-` prefix iff HTTPS is on, and then the cookie is Secure, has no Domain and has Path "/" |
| Wsgi.HealthCheck | generate/wsgi.py:90-95 | the body is "IMOK health" iff the check is "health", otherwise "FAIL dependencies" |
| Wsgi.ClientIp | generate/wsgi.py:64-68 | the forwarded-for header wins when present, else the peer address; the lookup fails when neither is present |
| Wsgi.ForwardedForWins | generate/wsgi.py:64-68 | whoever sends the forwarded-for header chooses the reported address |
| Wsgi.ScanKeysHaveDefaults | generate/wsgi.py:108-160 | the 19 keys `scan` reads are distinct and are exactly the keys of `scan_defaults` |
| Wsgi.SubmittedRecord | generate/wsgi.py:137-163 | a non-empty `inc` collapses the record to that one entry; otherwise every key holds its submitted value or its default |
| Wsgi.FilledStep | generate/wsgi.py:159-160 | each loop step adds exactly the current key, with its value or default |
| Wsgi.FilledAll | generate/wsgi.py:139-160 | after all keys, the record holds every key of `scan_defaults` |
| Wsgi.AssembleRecord | generate/wsgi.py:137-163 | the key-by-key loop builds exactly `SubmittedRecord` |
| Wsgi.Scan | generate/wsgi.py:130-176 | the records are created if absent and the submitted record is appended on POST. A 500 when `csrf_values` is not a dict; otherwise the page shows the records and a new 32-character token stored for `scan` |
| Wsgi.ScanRoute | generate/wsgi.py:130-176 | behind the `CheckCSRFSession` wrapper (generate_utils.py lines 30-54), a request the guard rejects gets 403 and leaves the records alone. An accepted one behaves as `Scan` from the guard's `csrf_values`: the record is appended on POST; a 500 leaves `csrf_values` as the guard returned it; otherwise the page shows the new records and a 32-character token stored for `scan` |
| Wsgi.ScanReplayNeedsFreshToken | generate/wsgi.py:167-176 | with the guard of generate_utils.py lines 38-45, after an accepted POST and the re-issue on render, a replay is accepted iff it strips to the new token |
| FlaskSession.Session.constructor | generate/wsgi.py:133-134 | a new session holds neither `csrf_values` nor `records` |

## Left out

- Flask itself is left out: routing, the `root` page, static assets, template rendering and the rest of the configuration glue. A page is the data given to the template. Only the session-cookie settings and `IS_HTTPS` are modelled.
- `lambda_handler` and `make_lambda_handler` are left out. They adapt events and print logs, which is I/O.
- The `print` of the guard's exception is left out, because it is logging.
- `PORT`, `DOMAIN`, `URL_PREFIX`, `ENVIRONMENT`, `IS_PROD`, `SECRET_KEY`, `PERMANENT_SESSION_LIFETIME` and `MAX_CONTENT_LENGTH` are left out. They are environment-derived values that only feed templates or Flask.
- Sanitiser.Sanitise: extra allowed characters are modelled only as literals (`LiteralChars`: no `]`, `\`, `^` or `-`). The regular-expression meaning of those four inside a class is not modelled.
- PyText.Lower, PyText.Upper, PyText.Title: Unicode case mapping is modelled for ASCII, Latin-1, U+0178 and the micro sign / mu pair. Every other character is treated as uncased.
- PyText.IsSpace lists the code points Python's `str.isspace` accepts as a fixed table. It is not derived from the Unicode database.
- Csrf.RandomString: the quality and distribution of `random.choice` are left out. Each choice is any index into the alphabet.
- Flask session persistence is left out: the signed cookie, the `modified` flag, and whether an in-place `pop` on a nested dict is saved when the response is 403. The model treats every session update as kept.
- Concurrent requests that share one session are left out.
- The insertion order of the record dict is left out. A record is modelled as a map.
- Values of `csrf_values` that are not strings are left out: a pending token is a string.
- A `csrf_values` that is a subclass of `dict` is left out. The guard skips it, because it compares the type with `dict` exactly, while `dict.update` would succeed on it. The model's `Foreign` value stands for a value that is not a dict at all.
- `session["records"]` holding something other than a list is left out.
- A form body that cannot be parsed is left out. Reading `csrf_form` fails only when the field is missing.
