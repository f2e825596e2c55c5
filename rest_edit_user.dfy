/**
 * gateway/RESTeditUser.go: the REST adapter that turns a JSON edit-user
 * request into a six-key form for the SOAP handler, and its two small
 * converters.
 */
module RESTEditUser {
  import opened Http
  import RESTReqCert
  import EditUser
  import LatestCRL

  /** boolToString. */
  function BoolToString(b: bool): (s: string)
    ensures s == "true" <==> b
    ensures s == "false" <==> !b
  {
    if b then "true" else "false"
  }

  /** Parsing the rendering with the handlers' == "true" idiom gives the flag back. */
  lemma BoolToStringReadsBack(b: bool)
    ensures LatestCRL.DeltaCRL(map["deltaCRL" := [BoolToString(b)]]) == b
  {
  }

  predicate IsDigit(c: char)
  {
    '0' <= c <= '9'
  }

  predicate AllDigits(s: string)
  {
    forall k :: 0 <= k < |s| ==> IsDigit(s[k])
  }

  function DigitChar(d: nat): (c: char)
    requires d < 10
    ensures IsDigit(c)
    ensures (c == '0') <==> d == 0
  {
    ('0' as int + d) as char
  }

  function DigitValue(c: char): nat
    requires IsDigit(c)
  {
    c as int - '0' as int
  }

  /** The decimal digits of n, most significant first, without leading zeros. */
  function NatToString(n: nat): (s: string)
    ensures |s| >= 1 && AllDigits(s)
    ensures s[0] == '0' ==> n == 0 && s == "0"
    decreases n
  {
    if n < 10 then [DigitChar(n)] else NatToString(n / 10) + [DigitChar(n % 10)]
  }

  /** intToString: fmt.Sprintf("%d", i). */
  function IntToString(i: int): (s: string)
    ensures |s| >= 1
    ensures s[0] == '-' <==> i < 0
    ensures i < 0 ==> |s| >= 2 && AllDigits(s[1..]) && s[1] != '0'
    ensures i >= 0 ==> AllDigits(s) && (s[0] == '0' ==> s == "0")
  {
    if i < 0 then "-" + NatToString(-i) else NatToString(i)
  }

  /** The value of a string of decimal digits. */
  function DigitsValue(s: string): nat
    requires |s| >= 1 && AllDigits(s)
  {
    if |s| == 1 then DigitValue(s[0])
    else DigitsValue(s[..|s| - 1]) * 10 + DigitValue(s[|s| - 1])
  }

  /** A decimal reader: an optional '-' followed by at least one digit. */
  function ParseInt(s: string): Option<int>
  {
    if |s| >= 2 && s[0] == '-' && AllDigits(s[1..]) then Some(-(DigitsValue(s[1..]) as int))
    else if |s| >= 1 && AllDigits(s) then Some(DigitsValue(s))
    else None
  }

  lemma {:induction false} NatToStringValue(n: nat)
    ensures DigitsValue(NatToString(n)) == n
    decreases n
  {
    if n >= 10 {
      NatToStringValue(n / 10);
      var s := NatToString(n);
      assert s[..|s| - 1] == NatToString(n / 10);
    }
  }

  /** Reading the rendering back gives the number. */
  lemma IntToStringReadsBack(i: int)
    ensures ParseInt(IntToString(i)) == Some(i)
  {
    if i < 0 {
      NatToStringValue(-i);
      assert IntToString(i)[1..] == NatToString(-i);
    } else {
      NatToStringValue(i);
    }
  }

  /** The JSON body of an edit-user request. */
  datatype EditUserRequest = EditUserRequest(
    username: string,
    password: string,
    email: string,
    subjectDN: string,
    tokenType: string,
    keyRecoverable: bool,
    status: int)

  /** The form handed to the SOAP handler: six keys, one value each, no tokenType. */
  function EditUserForm(req: EditUserRequest): (form: Form)
    ensures form.Keys == {"username", "password", "email", "subjectDN", "keyRecoverable", "status"}
    ensures forall k :: k in form ==> |form[k]| == 1
    ensures form["username"] == [req.username] && form["password"] == [req.password]
    ensures form["email"] == [req.email] && form["subjectDN"] == [req.subjectDN]
    ensures form["keyRecoverable"] == [BoolToString(req.keyRecoverable)]
    ensures form["status"] == [IntToString(req.status)]
  {
    map[
      "username" := [req.username],
      "password" := [req.password],
      "email" := [req.email],
      "subjectDN" := [req.subjectDN],
      "keyRecoverable" := [BoolToString(req.keyRecoverable)],
      "status" := [IntToString(req.status)]]
  }

  /** With one value per key, each key visited contributes one pair. */
  lemma {:induction false} SingletonPairs(order: seq<string>, data: Form)
    requires forall k :: k in order ==> k in data
    requires forall k :: k in data ==> |data[k]| == 1
    ensures |RESTReqCert.PairsOf(order, data)| == |order|
    decreases |order|
  {
    if order != [] {
      var front := order[..|order| - 1];
      assert forall k :: k in front ==> k in order;
      SingletonPairs(front, data);
    }
  }

  /** Whatever the visiting order, the encoder receives exactly six pairs. */
  lemma EditUserFormHasSixPairs(req: EditUserRequest, order: seq<string>)
    requires RESTReqCert.Enumerates(order, EditUserForm(req).Keys)
    ensures forall k :: k in order ==> k in EditUserForm(req)
    ensures |RESTReqCert.PairsOf(order, EditUserForm(req))| == 6
  {
    var form := EditUserForm(req);
    RESTReqCert.DistinctCardinality(order);
    assert (set x | x in order) == form.Keys;
    SingletonPairs(order, form);
  }

  /**
   * RESTeditUserHandler up to the hand-over: only POST is served, the body
   * must be readable and must decode as JSON (decode stands for
   * json.Unmarshal into EditUserRequest), and the six-key form goes to
   * /edit-user.
   */
  method HandleREST(httpMethod: string, body: Option<string>, decode: string -> Option<EditUserRequest>)
    returns (step: RESTReqCert.Step)
    ensures httpMethod != MethodPost ==>
              step == RESTReqCert.Respond(Reply(StatusMethodNotAllowed, "Only POST method is allowed\n"))
    ensures httpMethod == MethodPost && body.None? ==>
              step == RESTReqCert.Respond(Reply(StatusBadRequest, "Failed to read request body\n"))
    ensures httpMethod == MethodPost && body.Some? && decode(body.value).None? ==>
              step == RESTReqCert.Respond(Reply(StatusBadRequest, "Invalid JSON format\n"))
    ensures httpMethod == MethodPost && body.Some? && decode(body.value).Some? ==>
              && step.Forward? && step.path == "/edit-user"
              && RESTReqCert.IsEncodingOf(step.formBody, EditUserForm(decode(body.value).value))
  {
    if httpMethod != MethodPost {
      return RESTReqCert.Respond(Error("Only POST method is allowed", StatusMethodNotAllowed));
    }
    if body.None? {
      return RESTReqCert.Respond(Error("Failed to read request body", StatusBadRequest));
    }
    var decoded := decode(body.value);
    if decoded.None? {
      return RESTReqCert.Respond(Error("Invalid JSON format", StatusBadRequest));
    }
    var editReq := decoded.value;
    var formData: Form := map[];
    formData := formData["username" := [editReq.username]];
    formData := formData["password" := [editReq.password]];
    formData := formData["email" := [editReq.email]];
    formData := formData["subjectDN" := [editReq.subjectDN]];
    formData := formData["keyRecoverable" := [BoolToString(editReq.keyRecoverable)]];
    formData := formData["status" := [IntToString(editReq.status)]];
    assert formData == EditUserForm(editReq);
    assert formData["username"] != [];
    var encoded;
    ghost var order;
    encoded, order := RESTReqCert.FormEncode(formData);
    step := RESTReqCert.Forward("/edit-user", encoded);
  }

  /**
   * Assuming the SOAP handler decodes the form as it was built, the
   * caller's username, password, email and subjectDN reach the record,
   * while the status and keyRecoverable the caller sent are replaced by 10
   * and false.
   */
  lemma RequestReachesArgs(req: EditUserRequest)
    ensures EditUser.BuildArgs(EditUserForm(req))
         == EditUser.EditUserArgs("RSA_subCA", "RSA_enduser", req.email, "RSA_TTE-Doc", false,
                                  req.password, 10, req.subjectDN, "P12", req.username)
  {
  }

  /** Two REST requests that differ only in tokenType, keyRecoverable and status edit the user identically. */
  lemma StatusAndRecoverabilityIgnored(req1: EditUserRequest, req2: EditUserRequest)
    requires req1.username == req2.username && req1.password == req2.password
    requires req1.email == req2.email && req1.subjectDN == req2.subjectDN
    ensures EditUser.BuildArgs(EditUserForm(req1)) == EditUser.BuildArgs(EditUserForm(req2))
  {
    RequestReachesArgs(req1);
    RequestReachesArgs(req2);
  }
}
