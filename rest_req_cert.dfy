/**
 * gateway/RESTreqCert.go: the hand-written form encoder and the REST
 * adapter that turns a JSON certificate request into a form submission for
 * the SOAP handler.
 */
module RESTReqCert {
  import opened Http
  import Text
  import ReqCert

  /** One emitted (key, value) pair. */
  type Pair = (string, string)

  /** key + "=" + value, written verbatim: nothing is escaped. */
  function Field(p: Pair): string
  {
    p.0 + "=" + p.1
  }

  /** The pairs of one key, one per value, in the order of the values. */
  function KeyPairs(key: string, values: seq<string>): (ps: seq<Pair>)
    ensures |ps| == |values|
    ensures forall i :: 0 <= i < |ps| ==> ps[i] == (key, values[i])
  {
    seq(|values|, i requires 0 <= i < |values| => (key, values[i]))
  }

  /** No key is visited twice. */
  ghost predicate Distinct(order: seq<string>)
  {
    forall i, j :: 0 <= i < j < |order| ==> order[i] != order[j]
  }

  /** The keys visited in this order are exactly keys, each once. */
  ghost predicate Enumerates(order: seq<string>, keys: set<string>)
  {
    Distinct(order) && forall k :: k in order <==> k in keys
  }

  lemma DistinctSnoc(order: seq<string>, key: string)
    requires Distinct(order) && key !in order
    ensures Distinct(order + [key])
  {
    forall i | 0 <= i < |order| ensures (order + [key])[i] != key {
      assert order[i] in order;
    }
  }

  /** The pairs emitted when the keys are visited in this order. */
  function PairsOf(order: seq<string>, data: Form): seq<Pair>
    requires forall k :: k in order ==> k in data
  {
    if order == [] then []
    else PairsOf(order[..|order| - 1], data) + KeyPairs(order[|order| - 1], data[order[|order| - 1]])
  }

  lemma PairsOfSnoc(order: seq<string>, key: string, data: Form)
    requires forall k :: k in order ==> k in data
    requires key in data
    ensures PairsOf(order + [key], data) == PairsOf(order, data) + KeyPairs(key, data[key])
  {
    assert (order + [key])[..|order|] == order;
  }

  lemma KeyPairsSnoc(key: string, values: seq<string>, j: nat)
    requires j < |values|
    ensures KeyPairs(key, values[..j + 1]) == KeyPairs(key, values[..j]) + [(key, values[j])]
  {
  }

  /** The buffer's contents: every field followed by '&'. */
  function Terminated(ps: seq<Pair>): string
  {
    if ps == [] then [] else Terminated(ps[..|ps| - 1]) + Field(ps[|ps| - 1]) + "&"
  }

  lemma TerminatedSnoc(ps: seq<Pair>, p: Pair)
    ensures Terminated(ps + [p]) == Terminated(ps) + Field(p) + "&"
  {
    assert (ps + [p])[..|ps|] == ps;
  }

  /** The fields joined by single '&' characters. */
  function Join(ps: seq<Pair>): string
  {
    if |ps| <= 1 then (if ps == [] then [] else Field(ps[0]))
    else Join(ps[..|ps| - 1]) + "&" + Field(ps[|ps| - 1])
  }

  /** Removing the last byte of the buffer leaves exactly the joined fields. */
  lemma {:induction false} TerminatedIsJoinPlusAmp(ps: seq<Pair>)
    requires |ps| >= 1
    ensures Terminated(ps) == Join(ps) + "&"
    decreases |ps|
  {
    if |ps| > 1 {
      TerminatedIsJoinPlusAmp(ps[..|ps| - 1]);
    } else {
      assert ps[..0] == [];
    }
  }

  /** Some key has at least one value: formEncode's buffer is not empty. */
  predicate HasValues(data: Form)
  {
    exists k :: k in data && data[k] != []
  }

  lemma {:induction false} PairsOfNonEmpty(order: seq<string>, data: Form, k: string)
    requires forall x :: x in order ==> x in data
    requires k in order && data[k] != []
    ensures |PairsOf(order, data)| >= 1
    decreases |order|
  {
    var last := order[|order| - 1];
    if k != last {
      assert k in order[..|order| - 1] by {
        var i :| 0 <= i < |order| && order[i] == k;
        assert i < |order| - 1;
        assert order[..|order| - 1][i] == k;
      }
      PairsOfNonEmpty(order[..|order| - 1], data, k);
    }
  }

  lemma EnumeratedPairsNonEmpty(order: seq<string>, data: Form)
    requires Enumerates(order, data.Keys) && HasValues(data)
    ensures forall k :: k in order ==> k in data
    ensures |PairsOf(order, data)| >= 1
  {
    var k :| k in data && data[k] != [];
    PairsOfNonEmpty(order, data, k);
  }

  /** Dropping the last byte of a non-empty buffer leaves the joined fields. */
  lemma DropLastAmp(ps: seq<Pair>)
    requires |ps| >= 1
    ensures |Terminated(ps)| >= 1 && Terminated(ps)[..|Terminated(ps)| - 1] == Join(ps)
  {
    TerminatedIsJoinPlusAmp(ps);
  }

  /**
   * formEncode: for every key (in the map's unspecified order) and every
   * value of that key, append key=value& to a buffer; then drop the last
   * byte. With no values at all the slice bound is -1 and Go panics, hence
   * the precondition. order is the visiting order that was chosen.
   */
  method FormEncode(data: Form) returns (out: string, ghost order: seq<string>)
    requires HasValues(data)
    ensures IsEncodingOf(out, data)
    ensures Enumerates(order, data.Keys)
    ensures out == Join(PairsOf(order, data))
  {
    var buf: string := [];
    var remaining := data.Keys;
    order := [];
    while remaining != {}
      invariant remaining <= data.Keys
      invariant Distinct(order)
      invariant forall k :: k in order <==> k in data && k !in remaining
      invariant buf == Terminated(PairsOf(order, data))
      decreases remaining
    {
      var key :| key in remaining;
      var values := data[key];
      ghost var done := PairsOf(order, data);
      var j := 0;
      assert done + KeyPairs(key, values[..0]) == done;
      while j < |values|
        invariant 0 <= j <= |values|
        invariant buf == Terminated(done + KeyPairs(key, values[..j]))
      {
        KeyPairsSnoc(key, values, j);
        assert done + KeyPairs(key, values[..j + 1]) == done + KeyPairs(key, values[..j]) + [(key, values[j])];
        TerminatedSnoc(done + KeyPairs(key, values[..j]), (key, values[j]));
        buf := buf + (key + "=" + values[j]) + "&";
        j := j + 1;
      }
      assert values[..j] == values;
      PairsOfSnoc(order, key, data);
      DistinctSnoc(order, key);
      order := order + [key];
      remaining := remaining - {key};
    }
    assert Enumerates(order, data.Keys);
    EnumeratedPairsNonEmpty(order, data);
    DropLastAmp(PairsOf(order, data));
    out := buf[..|buf| - 1];
  }

  /** The sum over the pairs of len(key) + 1 + len(value). */
  function FieldsLength(ps: seq<Pair>): nat
  {
    if ps == [] then 0 else FieldsLength(ps[..|ps| - 1]) + |Field(ps[|ps| - 1])|
  }

  /**
   * With n >= 1 pairs the output is the fields' lengths plus n - 1
   * separators: no escaping ever lengthens a key or a value.
   */
  lemma {:induction false} JoinLength(ps: seq<Pair>)
    requires |ps| >= 1
    ensures |Join(ps)| == FieldsLength(ps) + |ps| - 1
    decreases |ps|
  {
    if |ps| == 1 {
      assert ps[..0] == [];
    } else {
      JoinLength(ps[..|ps| - 1]);
    }
  }

  /** Every pair's field appears verbatim in the output. */
  lemma {:induction false} JoinContainsFields(ps: seq<Pair>, i: nat)
    requires i < |ps|
    ensures Text.Occurs(Field(ps[i]), Join(ps))
    decreases |ps|
  {
    var out := Join(ps);
    var f := Field(ps[i]);
    if i == |ps| - 1 {
      assert out[|out| - |f|..] == f;
      assert Text.OccursAt(f, out, |out| - |f|);
    } else {
      var front := ps[..|ps| - 1];
      assert front[i] == ps[i];
      JoinContainsFields(front, i);
      var at :| 0 <= at <= |Join(front)| - |f| && Text.OccursAt(f, Join(front), at);
      assert out[..|Join(front)|] == Join(front);
      assert out[at..at + |f|] == Join(front)[at..at + |f|];
      assert Text.OccursAt(f, out, at);
    }
  }

  /**
   * Values are not escaped, so the encoding is ambiguous: one pair whose
   * value holds "&k2=v2" is written exactly as two pairs.
   */
  lemma JoinIsAmbiguous(k: string, v1: string, k2: string, v2: string)
    ensures Join([(k, v1 + "&" + k2 + "=" + v2)]) == Join([(k, v1), (k2, v2)])
  {
    assert [(k, v1), (k2, v2)][..1] == [(k, v1)];
  }

  /** How often the pair (k, v) occurs among the pairs of one key. */
  lemma {:induction false} KeyPairsCount(key: string, values: seq<string>, k: string, v: string)
    ensures multiset(KeyPairs(key, values))[(k, v)] == if k == key then multiset(values)[v] else 0
    decreases |values|
  {
    if values != [] {
      var n := |values| - 1;
      KeyPairsCount(key, values[..n], k, v);
      KeyPairsSnoc(key, values, n);
      assert values[..n + 1] == values;
      assert values == values[..n] + [values[n]];
    }
  }

  /** The partial version of PairsCount over the keys visited so far. */
  lemma {:induction false} PairsOfCount(order: seq<string>, data: Form, k: string, v: string)
    requires Distinct(order) && forall x :: x in order ==> x in data
    ensures multiset(PairsOf(order, data))[(k, v)] == if k in order then multiset(data[k])[v] else 0
    decreases |order|
  {
    if order != [] {
      var n := |order| - 1;
      var front := order[..n];
      assert Distinct(front);
      assert forall x :: x in front ==> x in order;
      PairsOfCount(front, data, k, v);
      KeyPairsCount(order[n], data[order[n]], k, v);
      assert k in order <==> k in front || k == order[n];
      assert order[n] !in front;
    }
  }

  /**
   * Whatever order the map is visited in, the emitted pairs are the same
   * multiset: each (k, v) as often as v is among k's values.
   */
  lemma PairsCount(order: seq<string>, data: Form, k: string, v: string)
    requires Enumerates(order, data.Keys)
    ensures forall x :: x in order ==> x in data
    ensures multiset(PairsOf(order, data))[(k, v)] == if k in data then multiset(data[k])[v] else 0
  {
    PairsOfCount(order, data, k, v);
  }

  /** Two visiting orders emit permutations of one another. */
  lemma PairsArePermutation(order1: seq<string>, order2: seq<string>, data: Form)
    requires Enumerates(order1, data.Keys) && Enumerates(order2, data.Keys)
    ensures forall x :: x in order1 ==> x in data
    ensures forall x :: x in order2 ==> x in data
    ensures multiset(PairsOf(order1, data)) == multiset(PairsOf(order2, data))
  {
    forall p: Pair ensures multiset(PairsOf(order1, data))[p] == multiset(PairsOf(order2, data))[p] {
      PairsCount(order1, data, p.0, p.1);
      PairsCount(order2, data, p.0, p.1);
    }
  }

  /** The JSON body of a certificate request. */
  datatype CertRequest = CertRequest(username: string, password: string)

  /** What a REST adapter does: answer by itself, or submit a form to a SOAP handler. */
  datatype Step =
    | Respond(reply: Reply)
    | Forward(path: string, formBody: string)

  /** body is what formEncode may produce for data, for some visiting order. */
  ghost predicate IsEncodingOf(body: string, data: Form)
  {
    exists order :: Enumerates(order, data.Keys) && body == Join(PairsOf(order, data))
  }

  /** The form handed to the SOAP handler: two keys, one value each. */
  function CertForm(req: CertRequest): (form: Form)
    ensures form.Keys == {"username", "password"}
    ensures forall k :: k in form ==> |form[k]| == 1
    ensures form["username"] == [req.username] && form["password"] == [req.password]
    ensures HasValues(form)
  {
    var form := map["username" := [req.username], "password" := [req.password]];
    assert form["username"] != [];
    form
  }

  /**
   * RESTReqCertHandler up to the hand-over: only POST is served, the body
   * must be readable and must decode as JSON (decode stands for
   * json.Unmarshal into CertRequest), and the form goes to /request-cert.
   */
  method HandleREST(httpMethod: string, body: Option<string>, decode: string -> Option<CertRequest>)
    returns (step: Step)
    ensures httpMethod != MethodPost ==>
              step == Respond(Reply(StatusMethodNotAllowed, "Only POST method is allowed\n"))
    ensures httpMethod == MethodPost && body.None? ==>
              step == Respond(Reply(StatusBadRequest, "Failed to read request body\n"))
    ensures httpMethod == MethodPost && body.Some? && decode(body.value).None? ==>
              step == Respond(Reply(StatusBadRequest, "Invalid JSON format\n"))
    ensures httpMethod == MethodPost && body.Some? && decode(body.value).Some? ==>
              && step.Forward? && step.path == "/request-cert"
              && IsEncodingOf(step.formBody, CertForm(decode(body.value).value))
  {
    if httpMethod != MethodPost {
      return Respond(Error("Only POST method is allowed", StatusMethodNotAllowed));
    }
    if body.None? {
      return Respond(Error("Failed to read request body", StatusBadRequest));
    }
    var certReq := decode(body.value);
    if certReq.None? {
      return Respond(Error("Invalid JSON format", StatusBadRequest));
    }
    var formData: Form := map[];
    formData := formData["username" := [certReq.value.username]];
    formData := formData["password" := [certReq.value.password]];
    assert formData == CertForm(certReq.value);
    var encoded;
    ghost var order;
    encoded, order := FormEncode(formData);
    step := Forward("/request-cert", encoded);
  }

  /**
   * With two keys the encoder can produce exactly two bodies, one per
   * visiting order, with the username and password written raw.
   */
  lemma CertFormEncodings(req: CertRequest, body: string)
    ensures IsEncodingOf(body, CertForm(req))
        <==> (body == "username=" + req.username + "&password=" + req.password
              || body == "password=" + req.password + "&username=" + req.username)
  {
    var form := CertForm(req);
    var up := ["username", "password"];
    var pu := ["password", "username"];
    assert Enumerates(up, form.Keys);
    assert Enumerates(pu, form.Keys);
    PairsOfTwo("username", "password", form);
    PairsOfTwo("password", "username", form);
    assert Join(PairsOf(up, form)) == "username=" + req.username + "&password=" + req.password;
    assert Join(PairsOf(pu, form)) == "password=" + req.password + "&username=" + req.username;
    if IsEncodingOf(body, form) {
      var order :| Enumerates(order, form.Keys) && body == Join(PairsOf(order, form));
      TwoKeyOrders(order, "username", "password");
    }
  }

  lemma PairsOfTwo(k1: string, k2: string, data: Form)
    requires k1 in data && k2 in data
    ensures PairsOf([k1, k2], data) == KeyPairs(k1, data[k1]) + KeyPairs(k2, data[k2])
  {
    assert [k1, k2][..1] == [k1];
    assert [k1][..0] == [];
    assert PairsOf([k1], data) == [] + KeyPairs(k1, data[k1]) == KeyPairs(k1, data[k1]);
  }

  /** A visiting order without repeats is as long as the set of keys it visits. */
  lemma {:induction false} DistinctCardinality(order: seq<string>)
    requires Distinct(order)
    ensures |set x | x in order| == |order|
    decreases |order|
  {
    if order != [] {
      var n := |order| - 1;
      var front := order[..n];
      assert Distinct(front);
      DistinctCardinality(front);
      assert order[n] !in front;
      assert (set x | x in order) == (set x | x in front) + {order[n]};
    }
  }

  /** The only ways to visit two distinct keys once each. */
  lemma TwoKeyOrders(order: seq<string>, k1: string, k2: string)
    requires k1 != k2 && Enumerates(order, {k1, k2})
    ensures order == [k1, k2] || order == [k2, k1]
  {
    assert k1 in order && k2 in order;
    var i :| 0 <= i < |order| && order[i] == k1;
    var j :| 0 <= j < |order| && order[j] == k2;
    DistinctCardinality(order);
    assert (set x | x in order) == {k1, k2};
    assert |order| == 2;
    assert order[0] in {k1, k2} && order[1] in {k1, k2};
  }

  /**
   * Assuming the SOAP handler decodes the form as it was built, the
   * caller's username and password reach the pkcs12Req record verbatim.
   */
  lemma CredentialsReachRequest(req: CertRequest)
    ensures ReqCert.BuildRequest(CertForm(req))
         == ReqCert.Pkcs12Request(req.username, req.password, "RSA_TTE-Doc", "RSA_enduser", "RSA")
  {
  }
}
