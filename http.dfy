/**
 * The slice of net/http the gateway's handlers rely on: replies, the
 * parsed form and FormValue lookup. Headers, content sniffing and the
 * connection itself are not part of this model.
 */
module Http {

  datatype Option<T> = None | Some(value: T)

  const MethodPost: string := "POST"

  const StatusOK: int := 200
  const StatusBadRequest: int := 400
  const StatusMethodNotAllowed: int := 405
  const StatusInternalServerError: int := 500

  /** What a handler writes back: the status code and the body bytes. */
  datatype Reply = Reply(status: int, body: string)

  /** http.Error writes the message followed by a newline (fmt.Fprintln). */
  function Error(message: string, code: int): (r: Reply)
    ensures r.status == code
    ensures |r.body| == |message| + 1
    ensures r.body[..|message|] == message && r.body[|message|] == '\n'
  {
    Reply(code, message + "\n")
  }

  /** fmt.Fprintf(w, "%s", s) with no prior WriteHeader: an implicit 200. */
  function Written(s: string): (r: Reply)
    ensures r.status == StatusOK
    ensures r.body == s
  {
    Reply(StatusOK, s)
  }

  /** r.Form after a successful r.ParseForm: every key with its list of values. */
  type Form = map<string, seq<string>>

  /**
   * r.FormValue(key): the first value recorded for the key, or the empty
   * string when the key is absent or has no values.
   */
  function FormValue(form: Form, key: string): (v: string)
    ensures key in form && form[key] != [] ==> v == form[key][0]
    ensures !(key in form && form[key] != []) ==> v == ""
  {
    if key in form && |form[key]| > 0 then form[key][0] else ""
  }
}
