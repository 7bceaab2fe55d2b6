/**
 * The parts of the Flask `session` mapping that the core reads and writes:
 * `session["csrf_values"]` (pending CSRF tokens by endpoint name) and
 * `session["records"]` (the scan records submitted so far).
 */
module FlaskSession {
  import opened Wrappers

  /** A value held in a scan record: a form string, a default number, or `None`. */
  datatype Value = Str(s: string) | Int(i: int) | Null

  /** One scan record: a dict from field name to value. */
  type Record = map<string, Value>

  /**
   * What `session["csrf_values"]` holds: no entry at all, a `dict` from
   * endpoint name to pending token, or some value that is not a dict at all
   * (the guard ignores such a value and `dict.update` fails on it).
   */
  datatype CsrfValues = Absent | Table(tokens: map<string, string>) | Foreign

  /** The pending tokens, empty unless `csrf_values` is a dict. */
  function Pending(cv: CsrfValues): map<string, string> {
    match cv
    case Table(tokens) => tokens
    case _ => map[]
  }

  /** The session of one client, updated in place by the request handlers. */
  class Session {
    var csrfValues: CsrfValues
    /** `session["records"]`, `None` while the key is absent. */
    var records: Option<seq<Record>>

    /** A fresh session holds neither key. */
    constructor ()
      ensures csrfValues == Absent && records == None
    {
      csrfValues := Absent;
      records := None;
    }
  }
}
