/**
 * handlers/editUser.go: the editUser request record and the handler,
 * which answers "OK" whatever the CA replies.
 */
module EditUser {
  import opened Http
  import opened Soap

  /** The status the handler always asks for (10: active). */
  const ActiveStatus: int := 10

  /** The ws:editUser arg0 record, field for field. */
  datatype EditUserArgs = EditUserArgs(
    caName: string,
    certificateProfileName: string,
    email: string,
    endEntityProfileName: string,
    keyRecoverable: bool,
    password: string,
    status: int,
    subjectDN: string,
    tokenType: string,
    username: string)

  /** The form keys whose values reach the record. */
  const CallerKeys: set<string> := {"username", "password", "email", "subjectDN"}

  /**
   * The record sent upstream: four values copied from the form, everything
   * else fixed. Any status, keyRecoverable or tokenType in the form is
   * ignored.
   */
  function BuildArgs(form: Form): (args: EditUserArgs)
    ensures args.username == FormValue(form, "username")
    ensures args.password == FormValue(form, "password")
    ensures args.email == FormValue(form, "email")
    ensures args.subjectDN == FormValue(form, "subjectDN")
    ensures args.caName == "RSA_subCA" && args.certificateProfileName == "RSA_enduser"
    ensures args.endEntityProfileName == "RSA_TTE-Doc" && args.tokenType == "P12"
    ensures args.status == 10 && !args.keyRecoverable
  {
    var username := FormValue(form, "username");
    var password := FormValue(form, "password");
    var email := FormValue(form, "email");
    var status := ActiveStatus;
    var subjectDN := FormValue(form, "subjectDN");
    EditUserArgs(
      "RSA_subCA",
      "RSA_enduser",
      email,
      "RSA_TTE-Doc",
      false,
      password,
      status,
      subjectDN,
      "P12",
      username)
  }

  /**
   * Setting any key outside username, password, email and subjectDN, such
   * as status or keyRecoverable, to any values leaves the record unchanged.
   */
  lemma ArgsIgnoreOtherKeys(form: Form, key: string, values: seq<string>)
    requires key !in CallerKeys
    ensures BuildArgs(form[key := values]) == BuildArgs(form)
  {
    forall k | k in CallerKeys ensures FormValue(form[key := values], k) == FormValue(form, k) {
    }
  }

  /**
   * EditUserHandler: form is None when r.ParseForm fails. A marshal failure
   * is answered with 500; any other failure ends in log.Fatalf; a completed
   * exchange is answered with "OK" and the CA's reply is discarded.
   */
  function Handle(form: Option<Form>, exchange: Exchange): (o: Outcome<EditUserArgs>)
    ensures o.Rejected? <==> form.None?
    ensures o.Rejected? ==> o.reply == Reply(StatusBadRequest, "Failed to parse form\n")
    ensures !o.Rejected? ==> o.request == BuildArgs(form.value)
    ensures o.Exited? <==> form.Some? && exchange.TransportFailed?
    ensures form.Some? && exchange.MarshalFailed? ==>
              o.reply == Reply(StatusInternalServerError, "Failed to create XML: " + exchange.error + "\n")
    ensures form.Some? && exchange.Received? ==> o.reply == Reply(StatusOK, "OK")
  {
    match form
    case None => Rejected(Error("Failed to parse form", StatusBadRequest))
    case Some(f) =>
      var request := BuildArgs(f);
      match exchange
      case MarshalFailed(e) => Replied(request, Error("Failed to create XML: " + e, StatusInternalServerError))
      case TransportFailed => Exited(request)
      case Received(_, _) => Replied(request, Written("OK"))
  }

  /**
   * The reply to a completed exchange does not depend on what the CA sent,
   * not even on a SOAP fault.
   */
  lemma ReplyIgnoresUpstream(form: Form, body1: string, parsed1: Option<Fault>, body2: string, parsed2: Option<Fault>)
    ensures Handle(Some(form), Received(body1, parsed1)) == Handle(Some(form), Received(body2, parsed2))
  {
  }
}
