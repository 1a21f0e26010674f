/** The `GET /token/generate` handler, `token_generate` in handler.py: gate
    the caller's address, fetch the credentials, build the query from the
    caller's parameters and relay the UID2 service's answer with CORS
    headers. The secrets store and the HTTP client are parameters. */
module Gateway {
  import opened Wrappers
  import opened Text
  import opened EmailNormalizer
  import opened NetworkGate

  /** The parts of the API Gateway event the handler reads. */
  datatype Event = Event(sourceIp: string, queryStringParameters: Option<map<string, string>>)

  /** The Lambda environment: the UID2 service's base URL, its API version
      and the optional `ip_white_list` variable. */
  datatype Settings = Settings(endpoint: string, version: string, ipWhiteList: Option<string>)

  /** The GET the handler sends upstream: URL, `Authorization` header value
      and the already joined query string. */
  datatype UpstreamRequest = UpstreamRequest(url: string, authorization: string, params: string)

  /** What the HTTP client gives back: a status code and body text, or an
      exception (connection refused, timeout). */
  datatype UpstreamReply = Reply(statusCode: int, text: string) | ConnectionFailed

  datatype Response =
    | StatusOnly(status: string, statusDescription: string)
    | Proxied(statusCode: int, headers: seq<(string, string)>, body: string)

  /** Every way the handler ends in an exception instead of a response. */
  datatype Failure =
    | GateFailed(gate: GateError)   // `check_ip` raised
    | SecretsUnavailable            // `get_secrets` raised
    | BadEmail(email: EmailError)   // `normalize_email` raised
    | NoAuthorizationToken          // KeyError on `AUTHORIZATION_TOKEN`
    | UpstreamUnavailable           // `requests.get` raised

  const Forbidden := StatusOnly("403", "Forbidden")

  const CorsHeaders: seq<(string, string)> := [
    ("Access-Control-Allow-Headers", "Content-Type"),
    ("Access-Control-Allow-Origin", "*"),
    ("Access-Control-Allow-Methods", "GET")
  ]

  /** `"%s=%s" % (k, v)` for every parameter, in insertion order. */
  function Fields(params: seq<(string, string)>): (r: seq<string>)
    ensures |r| == |params|
  {
    if params == [] then [] else [params[0].0 + "=" + params[0].1] + Fields(params[1..])
  }

  /** `"&".join(...)` over the parameters. */
  function QueryString(params: seq<(string, string)>): string {
    Join(Fields(params), "&")
  }

  function TokenUrl(settings: Settings): string {
    settings.endpoint + "/" + settings.version + "/token/generate"
  }

  lemma FieldsOne(k: string, v: string)
    ensures QueryString([(k, v)]) == k + "=" + v
  {
    assert [(k, v)][1..] == [];
  }

  lemma FieldsTwo(k1: string, v1: string, k2: string, v2: string)
    ensures QueryString([(k1, v1), (k2, v2)]) == k1 + "=" + v1 + "&" + k2 + "=" + v2
  {
    var both := [(k1, v1), (k2, v2)];
    assert both[1..] == [(k2, v2)];
    FieldsOne(k2, v2);
    assert Fields(both) == [k1 + "=" + v1, k2 + "=" + v2];
    JoinTwo(k1 + "=" + v1, k2 + "=" + v2, "&");
    assert k1 + "=" + v1 + "&" + (k2 + "=" + v2) == k1 + "=" + v1 + "&" + k2 + "=" + v2;
  }

  /** The `params` dictionary `token_generate` builds from the caller's
      query, in insertion order; a malformed `email` raises. */
  function RequestParams(query: Option<map<string, string>>): Result<seq<(string, string)>, EmailError> {
    if query.None? then Ok([])
    else
      var q := query.value;
      var hash := HashParam(q);
      if "email" !in q then Ok(hash)
      else match NormalizeEmail(q["email"])
        case Err(e) => Err(e)
        case Ok(email) => Ok([("email", email)] + hash)
  }

  /** Building the parameters fails exactly on a malformed `email`. */
  lemma RequestParamsFail(query: Option<map<string, string>>)
    ensures RequestParams(query).Err? <==>
      query.Some? && "email" in query.value && NormalizeEmail(query.value["email"]).Err?
  {
  }

  /** The `email_hash` entry of the parameters, if the caller gave one. */
  function HashParam(q: map<string, string>): seq<(string, string)> {
    if "email_hash" in q then [("email_hash", q["email_hash"])] else []
  }

  /** With an `email` the parameters are the normalised address, then the
      hash entry. */
  lemma ParamsWithEmail(q: map<string, string>, email: string)
    requires "email" in q && NormalizeEmail(q["email"]) == Ok(email)
    ensures RequestParams(Some(q)) == Ok([("email", email)] + HashParam(q))
  {
  }

  /** The query string sent upstream when the caller gave an `email`: the
      normalised address first, then `email_hash` verbatim if given. */
  lemma QueryStringWithEmail(q: map<string, string>, email: string)
    requires "email" in q && NormalizeEmail(q["email"]) == Ok(email)
    ensures RequestParams(Some(q)).Ok?
    ensures "email_hash" !in q ==> QueryString(RequestParams(Some(q)).value) == "email=" + email
    ensures "email_hash" in q ==>
      QueryString(RequestParams(Some(q)).value) == "email=" + email + "&email_hash=" + q["email_hash"]
  {
    ParamsWithEmail(q, email);
    EmailFields(q, email);
  }

  lemma EmailFields(q: map<string, string>, email: string)
    ensures "email_hash" !in q ==> QueryString([("email", email)] + HashParam(q)) == "email=" + email
    ensures "email_hash" in q ==>
      QueryString([("email", email)] + HashParam(q)) == "email=" + email + "&email_hash=" + q["email_hash"]
  {
    if "email_hash" in q {
      FieldsTwo("email", email, "email_hash", q["email_hash"]);
    } else {
      FieldsOne("email", email);
    }
  }

  /** The query string sent upstream when the caller gave no `email`: just
      `email_hash`, or nothing. */
  lemma QueryStringWithoutEmail(query: Option<map<string, string>>)
    requires query.None? || "email" !in query.value
    ensures RequestParams(query).Ok?
    ensures query.Some? && "email_hash" in query.value ==>
      QueryString(RequestParams(query).value) == "email_hash=" + query.value["email_hash"]
    ensures query.None? || "email_hash" !in query.value ==> QueryString(RequestParams(query).value) == ""
  {
    if query.Some? && "email_hash" in query.value {
      FieldsOne("email_hash", query.value["email_hash"]);
    }
  }

  /** The `params` dictionary filled in place, as `token_generate` does. */
  method BuildParams(query: Option<map<string, string>>) returns (r: Result<seq<(string, string)>, EmailError>)
    ensures r == RequestParams(query)
  {
    var params: seq<(string, string)> := [];
    if query.Some? {
      var queryString := query.value;
      ghost var emailPart: seq<(string, string)> := [];
      if "email" in queryString {
        var email := NormalizeEmail(queryString["email"]);
        if email.Err? {
          return Err(email.error);
        }
        ParamsWithEmail(queryString, email.value);
        params := [("email", email.value)];
        emailPart := params;
      }
      if "email_hash" in queryString {
        params := params + [("email_hash", queryString["email_hash"])];
      }
      assert params == emailPart + HashParam(queryString);
      assert "email" !in queryString ==> params == HashParam(queryString);
    }
    return Ok(params);
  }

  /** `token_generate`. `secrets` is what `get_secrets` returns, `None` when
      it raises; `upstream` is the UID2 service as `requests.get` reaches
      it. `fetched` records whether `get_secrets` was called, and `sent` is
      the request handed to `upstream`, if any. */
  method TokenGenerate(event: Event, settings: Settings,
                       parseAddress: string -> Option<Address>,
                       parseNetwork: string -> Option<Network>,
                       secrets: Option<map<string, string>>,
                       upstream: UpstreamRequest -> UpstreamReply)
    returns (r: Result<Response, Failure>, ghost fetched: bool, ghost sent: Option<UpstreamRequest>)
    // the address gate comes first, and nothing else happens unless it admits
    ensures var gate := CheckIpResult(event.sourceIp, settings.ipWhiteList, parseAddress, parseNetwork);
      (gate.Err? ==> r == Err(GateFailed(gate.error)))
      && (gate == Ok(false) ==> r == Ok(Forbidden))
      && (fetched <==> gate == Ok(true))
      && (sent.Some? ==> fetched)
    // then the secrets, then the parameters, then the token
    ensures CheckIpResult(event.sourceIp, settings.ipWhiteList, parseAddress, parseNetwork) == Ok(true) ==>
      (secrets.None? ==> r == Err(SecretsUnavailable))
      && (secrets.Some? && RequestParams(event.queryStringParameters).Err? ==>
            r == Err(BadEmail(RequestParams(event.queryStringParameters).error)))
      && (secrets.Some? && RequestParams(event.queryStringParameters).Ok? ==>
            ("AUTHORIZATION_TOKEN" in secrets.value <==> sent.Some?))
      && (secrets.Some? && RequestParams(event.queryStringParameters).Ok? && "AUTHORIZATION_TOKEN" !in secrets.value ==>
            r == Err(NoAuthorizationToken))
    ensures sent.None? && r.Err? ==> r.error != UpstreamUnavailable
    ensures sent.None? && r.Ok? ==> r == Ok(Forbidden)
    // the request itself
    ensures sent.Some? ==>
      secrets.Some? && "AUTHORIZATION_TOKEN" in secrets.value && RequestParams(event.queryStringParameters).Ok?
      && sent.value == UpstreamRequest(TokenUrl(settings),
                                    "Bearer " + secrets.value["AUTHORIZATION_TOKEN"],
                                    QueryString(RequestParams(event.queryStringParameters).value))
    // the service's answer is relayed unchanged, with the CORS headers
    ensures sent.Some? ==> match upstream(sent.value)
      case ConnectionFailed => r == Err(UpstreamUnavailable)
      case Reply(code, text) => r == Ok(Proxied(code, CorsHeaders, text))
  {
    fetched, sent := false, None;
    var allowed, _ := CheckIp(event.sourceIp, settings.ipWhiteList, parseAddress, parseNetwork);
    if allowed.Err? {
      return Err(GateFailed(allowed.error)), fetched, sent;
    }
    if !allowed.value {
      return Ok(Forbidden), fetched, sent;
    }
    fetched := true;
    if secrets.None? {
      return Err(SecretsUnavailable), fetched, sent;
    }
    var params := BuildParams(event.queryStringParameters);
    if params.Err? {
      return Err(BadEmail(params.error)), fetched, sent;
    }
    if "AUTHORIZATION_TOKEN" !in secrets.value {
      return Err(NoAuthorizationToken), fetched, sent;
    }
    var request := UpstreamRequest(TokenUrl(settings), "Bearer " + secrets.value["AUTHORIZATION_TOKEN"], QueryString(params.value));
    sent := Some(request);
    var reply := upstream(request);
    if reply.ConnectionFailed? {
      return Err(UpstreamUnavailable), fetched, sent;
    }
    r := Ok(Proxied(reply.statusCode, CorsHeaders, reply.text));
  }
}
