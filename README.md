# EJBCA SOAP-to-REST gateway: a Dafny model of its request handlers

The gateway sits between HTTP clients and an EJBCA certificate authority that
speaks SOAP. This project models its core: three SOAP-facing handlers and the
two REST adapters that call them.

- `GetLatestCRLHandler` (`LatestCRL`) always asks for the CRL of CA
  `SUBCA_FIX2`. It asks for a delta CRL exactly when the `deltaCRL` form value
  is the string `true`. A non-fault reply is returned after removing the fixed
  SOAP wrappers.
- `ReqCertHandler` (`ReqCert`) sends the caller's username and password with
  fixed profile names in a `pkcs12Req` call. A reply that decodes with a
  non-empty faultcode becomes a 500 (see "## Left out" for which replies
  decode that way). Any other reply is unwrapped to the keystore data.
- `EditUserHandler` (`EditUser`) builds an `editUser` record. Only the
  username, password, email and subject DN come from the form; the status is
  always 10 and key recovery is always off. A completed exchange is always
  answered `OK`, whatever the CA replied.
- `RESTReqCertHandler` and `RESTeditUserHandler` (`RESTReqCert`,
  `RESTEditUser`) accept only POST with a JSON body. They build a form map and
  encode it as `key=value` pairs joined by `&`, in map iteration order and
  without any escaping. The encoded form is then handed to the SOAP handler.

Shared pieces:
- `Http`: status codes, `http.Error` (the message plus a newline),
  `FormValue` (the first value or the empty string).
- `Text`: Go's `strings.ReplaceAll(s, p, "")`, which removes occurrences from
  left to right in a single pass.
- `Soap`: the SOAP fault record, the outcome of the upstream exchange, and the
  shared "fault or payload" decision.

`FormEncode` is the one imperative piece: it fills a buffer in two nested loops,
as the source does. Go's map iteration order is unspecified, so the method picks
keys nondeterministically. Its contract holds for whatever order it uses: the
ghost `order` returned with the result lists every key exactly once.

The edit-user handler has no SOAP-fault branch, unlike the other two SOAP
handlers. A fault from the CA is therefore answered with 200 `OK`. The model
follows the code here (`EditUser.ReplyIgnoresUpstream`).

## Model

| member | source | states |
|---|---|---|
| Http.Error | handlers/latestCRL.go:57-60 | the reply has the given status and its body is the message followed by exactly one newline |
| Http.Written | handlers/latestCRL.go:142-143 | writing without a prior WriteHeader answers 200 with exactly the written text |
| Http.FormValue | handlers/reqCert.go:69-70 | a key with at least one value gives its first value; a missing key or an empty list gives "" |
| Text.RemoveAll | handlers/latestCRL.go:50-51 | removing every occurrence of a pattern never lengthens the text |
| Text.RemoveAllAbsent | handlers/latestCRL.go:50 | text in which the pattern does not occur comes back unchanged |
| Text.RemoveAllPresent | handlers/latestCRL.go:50 | text containing a non-empty pattern comes back strictly shorter |
| Text.RemoveAllUnchangedIff | handlers/latestCRL.go:50-51 | for a non-empty pattern, the text is unchanged if and only if the pattern does not occur in it |
| Text.RemoveAllFirst | handlers/latestCRL.go:50 | removal is left to right: the text before the first occurrence is kept verbatim and the scan resumes after that occurrence |
| Text.RemoveAllNested | handlers/latestCRL.go:50 | a single pass is not a fixed point: a pattern nested inside itself leaves exactly one copy of the pattern |
| LatestCRL.CleanResponse | handlers/latestCRL.go:47-53 | the cleaned response is never longer than the body |
| LatestCRL.CleanResponseUnchangedIff | handlers/latestCRL.go:47-53 | the body is returned unchanged if and only if neither wrapper occurs in it |
| LatestCRL.CleanResponseUnwraps | handlers/latestCRL.go:47-53 | a body that is exactly start wrapper, payload and end wrapper, with no other occurrence of either wrapper, is cleaned to exactly the payload |
| LatestCRL.CleanResponseLeavesNestedEndTag | handlers/latestCRL.go:50-51 | the cleaned response can still contain the end wrapper |
| LatestCRL.DeltaCRL | handlers/latestCRL.go:64 | a delta CRL is asked for if and only if the first deltaCRL value is exactly "true" |
| LatestCRL.DeltaCRLOnlyLowercaseTrue | handlers/latestCRL.go:64 | "True", "1" and a missing value all ask for a full CRL; "true" asks for a delta CRL |
| LatestCRL.BuildRequest | handlers/latestCRL.go:63-72 | the request names CA SUBCA_FIX2 and carries the delta flag |
| LatestCRL.RequestDependsOnlyOnDelta | handlers/latestCRL.go:63-72 | two forms with the same deltaCRL value produce the same request |
| LatestCRL.Handle | handlers/latestCRL.go:55-144 | 400 "Failed to parse form" if and only if parsing fails; the process exits if and only if the exchange fails; otherwise the reply is the fault-or-payload decision: 500 with the formatted fault message if and only if a fault with a faultcode was decoded, else 200 with the cleaned body |
| LatestCRL.HandleReportsFault | handlers/latestCRL.go:129-135 | a fault with a faultcode is answered 500 with the formatted message, whatever the body held |
| LatestCRL.HandleReturnsCrl | handlers/latestCRL.go:129-143 | an exactly wrapped, non-fault getLatestCRL reply is answered 200 with exactly the CRL text |
| LatestCRL.HandleLeavesNestedEndTag | handlers/latestCRL.go:138-143 | a reply built by nesting the real end wrapper inside itself reaches the client as that wrapper |
| Soap.FaultMessage | handlers/latestCRL.go:133 | the fault message is "SOAP Fault: ", the faultstring, ", ErrorCode: " and the error code, each at its stated position |
| Soap.FaultOrPayload | handlers/latestCRL.go:129-143 | status 500 if and only if a fault with a non-empty faultcode was decoded, and then the body is the fault message and a newline; otherwise 200 with the cleaned payload |
| Soap.FaultHidesPayload | handlers/reqCert.go:135-140 | a fault reply does not depend on the payload |
| Soap.EmptyFaultcodeIsNoFault | handlers/reqCert.go:136-144 | a decoded fault with an empty faultcode is treated as success, whatever its faultstring |
| ReqCert.CleanReqCertResponse | handlers/reqCert.go:48-60 | the same cleaning as the CRL cleaner, with the pkcs12ReqResponse wrappers; never lengthens the body |
| ReqCert.CleanReqCertResponseUnchangedIff | handlers/reqCert.go:48-60 | the body is unchanged if and only if neither keystore wrapper occurs in it |
| ReqCert.CleanReqCertResponseUnwraps | handlers/reqCert.go:48-60 | an exactly wrapped reply is cleaned to exactly the keystore data |
| ReqCert.BuildRequest | handlers/reqCert.go:69-85 | arg0 and arg1 are the username and password form values; arg2 to arg4 are RSA_TTE-Doc, RSA_enduser and RSA |
| ReqCert.RequestDependsOnlyOnCredentials | handlers/reqCert.go:69-85 | two forms give the same request if and only if their username and password values agree |
| ReqCert.Handle | handlers/reqCert.go:62-146 | 400 if and only if parsing fails; exit if and only if the exchange fails; otherwise the reply is the fault-or-payload decision: 500 with the formatted fault message if and only if a fault with a faultcode was decoded, else 200 with the cleaned keystore reply |
| ReqCert.HandleReportsFault | handlers/reqCert.go:135-140 | a fault with a faultcode is answered 500 with the formatted message, whatever the body held |
| ReqCert.HandleReturnsKeystore | handlers/reqCert.go:135-144 | an exactly wrapped reply whose decoded faultcode is empty is answered 200 with exactly the keystore data |
| ReqCert.HandleLeavesNestedEndTag | handlers/reqCert.go:142-144 | the real end wrapper, nested inside itself, reaches the client |
| EditUser.BuildArgs | handlers/editUser.go:53-81 | username, password, email and subjectDN come from the form; CA RSA_subCA, profiles RSA_enduser and RSA_TTE-Doc, token P12, status 10 and no key recovery are fixed |
| EditUser.ArgsIgnoreOtherKeys | handlers/editUser.go:53-81 | changing any form key other than those four leaves the record unchanged |
| EditUser.Handle | handlers/editUser.go:46-134 | 400 if and only if parsing fails; a marshal error gives 500 "Failed to create XML: " plus the error; transport failure exits; a completed exchange is answered 200 "OK" |
| EditUser.ReplyIgnoresUpstream | handlers/editUser.go:124-133 | the reply to a completed exchange is the same whatever the CA sent, a SOAP fault included |
| RESTReqCert.FormEncode | gateway/RESTreqCert.go:69-77 | the output joins every key=value pair with "&", key by key in some order that lists every key once, values in stored order, with the trailing "&" dropped |
| RESTReqCert.TerminatedIsJoinPlusAmp | gateway/RESTreqCert.go:73-76 | the buffer with an "&" after every pair is the joined pairs plus one "&", so dropping the last byte gives the join |
| RESTReqCert.JoinLength | gateway/RESTreqCert.go:71-76 | the encoded length is the total length of the fields plus one separator between each pair |
| RESTReqCert.JoinContainsFields | gateway/RESTreqCert.go:73 | every key=value field occurs in the encoding |
| RESTReqCert.JoinIsAmbiguous | gateway/RESTreqCert.go:73 | without escaping, a value containing "&k2=v2" encodes the same as two separate pairs |
| RESTReqCert.PairsCount | gateway/RESTreqCert.go:71-72 | each (key, value) pair is emitted as often as the value occurs under its key, and pairs of absent keys are never emitted |
| RESTReqCert.PairsArePermutation | gateway/RESTreqCert.go:71-72 | any two visiting orders emit the same multiset of pairs |
| RESTReqCert.CertForm | gateway/RESTreqCert.go:42-44 | the form has exactly the keys username and password, holding the single values [req.username] and [req.password] |
| RESTReqCert.HandleREST | gateway/RESTreqCert.go:19-47 | non-POST gives 405, an unreadable body 400, undecodable JSON 400; otherwise the encoded credential form is forwarded to /request-cert |
| RESTReqCert.CertFormEncodings | gateway/RESTreqCert.go:42-47 | a body encodes the credential form if and only if it is one of its two key orders |
| RESTReqCert.CredentialsReachRequest | gateway/RESTreqCert.go:42-44 | with the form read back as built, the pkcs12Req arguments carry the JSON username and password |
| RESTEditUser.BoolToString | gateway/RESTeditUser.go:92-97 | the rendering is "true" exactly for true and "false" exactly for false |
| RESTEditUser.BoolToStringReadsBack | gateway/RESTeditUser.go:92-97 | the handlers' == "true" test reads the rendering back as the original flag |
| RESTEditUser.NatToString | gateway/RESTeditUser.go:100-102 | a non-negative number renders as decimal digits with no leading zero |
| RESTEditUser.IntToString | gateway/RESTeditUser.go:100-102 | a leading '-' if and only if the number is negative, followed by decimal digits with no leading zero |
| RESTEditUser.NatToStringValue | gateway/RESTeditUser.go:100-102 | the digits of a rendered natural number have that number as their value |
| RESTEditUser.IntToStringReadsBack | gateway/RESTeditUser.go:100-102 | reading the rendering back as a decimal gives the original integer |
| RESTEditUser.EditUserForm | gateway/RESTeditUser.go:48-55 | exactly six keys, no tokenType, one value each: the request's username, password, email and subjectDN verbatim, keyRecoverable and status rendered as text |
| RESTEditUser.EditUserFormHasSixPairs | gateway/RESTeditUser.go:48-58 | whatever the visiting order, the encoder emits exactly six pairs |
| RESTEditUser.HandleREST | gateway/RESTeditUser.go:25-58 | non-POST gives 405, an unreadable body 400, undecodable JSON 400; otherwise the encoded six-key form is forwarded to /edit-user |
| RESTEditUser.RequestReachesArgs | gateway/RESTeditUser.go:48-55 | with the form read back as built, the record carries the JSON username, password, email and subjectDN, and status 10, no key recovery and token P12 |
| RESTEditUser.StatusAndRecoverabilityIgnored | gateway/RESTeditUser.go:52-55 | two REST requests that differ only in tokenType, keyRecoverable and status edit the user identically |

## Left out

- Network and process effects are not modelled. The TLS configuration, `http.Client`, `ioutil.ReadAll` and the SOAP endpoint URL are left out. The upstream exchange is an input (`Soap.Exchange`), and `log.Fatalf` is the `Exited` outcome.
- The Go `SOAPFault` struct has no XMLName and tags `faultcode`, `faultstring` and `detail` as direct children of the root element. A standard SOAP 1.1 fault (Envelope, Body, Fault, faultcode) therefore decodes with an empty faultcode, and the handlers' fault branch does not fire for it; such a reply is cleaned and answered with 200. The model takes the decoded fault as an input (`Option<Fault>`), so it states what happens for each decoding but not which bodies decode with a faultcode.
- `encoding/xml` is not modelled. Building the SOAP envelope is represented by the request record. Unmarshalling a fault is an input (`Option<Fault>`), so the model does not say which bodies `xml.Unmarshal` accepts or which faultcode it extracts.
- `encoding/json` is the `decode` parameter of the REST adapters. Go's 64-bit limit on `status` is not modelled: the model uses unbounded integers.
- `r.ParseForm` and `r.FormValue` are inputs: `None` stands for a parse failure, and `Some` holds the parsed form. URL decoding, and the merge of query string and body, are not modelled.
- RESTReqCert.CredentialsReachRequest: it assumes the SOAP handler parses back the form the adapter built. This holds only when no value contains '&', '+', '%' or ';', which the encoder does not escape (see RESTReqCert.JoinIsAmbiguous).
- RESTEditUser.RequestReachesArgs: it rests on the same form-parsing assumption as RESTReqCert.CredentialsReachRequest.
- RESTEditUser.StatusAndRecoverabilityIgnored: it rests on the same form-parsing assumption as RESTReqCert.CredentialsReachRequest.
- Nothing after the hand-over in the REST adapters is modelled. This covers the Content-Type header, the in-memory recorder and copying its status and body back. The adapter's result is the `Forward` step.
- The REST adapters' "Failed to create request" branch is left out. `http.NewRequest` with the fixed method POST and a fixed relative path cannot fail.
- Response headers, including the `Content-Type` that `http.Error` sets, and all `log.Printf` output are not modelled.
- Bytes of a Go string or body are modelled as `char`s.
- handlers/viewCa.go is not part of this model: an I/O-driven endpoint that fetches the CA list, exits on any failure and renders the body into an HTML template.
- handlers/viewProfile.go is not part of this model: an I/O-driven endpoint that fetches the end-entity and certificate profiles in turn, skips a profile type on any failure, concatenates the bodies it did read, answers 500 "No profiles could be fetched" when none was read, exits when its template cannot be loaded and answers 500 "Failed to display profiles" when rendering fails.
- gateway/OCSPHandler.go is not part of this model: it streams an OCSP status download and answers 500 when the fetch or the copy fails.
- gateway/RESTgetCRL.go is not part of this model: it admits only GET (405 otherwise) and forwards to the CRL handler through an in-memory recorder, like the two adapters whose hand-over is not modelled.
- main.go (route registration and server start) is not part of this model.
