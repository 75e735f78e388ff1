/** `Gateway.prepareSignedRequest` (src/service/Gateway.ts): prepares a
    request and, when a secret resolves, signs every field it will send in
    full mode. */
module Gateway {
  import opened Results
  import opened JsValues
  import opened KeyOrder
  import opened Text
  import opened SignatureHelper
  import opened GatewayConfig
  import opened RequestPreparer
  import opened ResponseVerifier

  /** The secret `prepare` resolves for a request that passes its checks. */
  function ResolvedSecret(request: FieldMap, config: Config): Value {
    Coalesce(Get(request, "merchantSecret"), config.merchantSecret)
  }

  /** The fields a prepared request sends before it is signed: the request
      with its defaults filled and the stripped fields deleted. */
  function SentFields(request: FieldMap, config: Config): (d: FieldMap)
    ensures d.Keys == WithDefaults(request, config).Keys - StrippedFields
    ensures "signature" !in d
  {
    SignatureIsStripped();
    map k | k in WithDefaults(request, config) && k !in StrippedFields :: WithDefaults(request, config)[k]
  }

  lemma SignatureIsStripped()
    ensures "signature" in StrippedFields
  {
    assert CleanedFields[4] == "signature";
    StrippedFieldsSplit();
  }

  /** What a successful `prepare` hands to the signing step. */
  lemma PreparedFields(request: Option<FieldMap>, config: Config)
    requires Prepare(request, config).outcome.Success?
    ensures request.Some?
    ensures Prepare(request, config).after == Some(SentFields(request.value, config))
    ensures Prepare(request, config).outcome.value.secret == ResolvedSecret(request.value, config)
  {
    var before := WithDefaults(request.value, config);
    var after := Prepare(request, config).after.value;
    assert Get(before, "merchantSecret") == Get(request.value, "merchantSecret");
    SameFields(after, SentFields(request.value, config), before);
  }

  lemma SameFields(a: FieldMap, b: FieldMap, source: FieldMap)
    requires a.Keys == b.Keys
    requires forall k :: k in a ==> k in source && a[k] == source[k]
    requires forall k :: k in b ==> k in source && b[k] == source[k]
    ensures a == b
  {
  }

  /** `Gateway.prepareSignedRequest(request)`.
      - Errors of `prepare` propagate, together with whatever it had already
        written into the request.
      - On success the request is returned (and is the mutated request): it
        holds exactly the sent fields, plus a `signature` iff the resolved
        secret is truthy, and that signature is the full-mode token of the
        sent fields under the secret's `String()` text. */
  function PrepareSignedRequest(request: Option<FieldMap>, config: Config, H: Hasher): (m: Mutation<FieldMap, PrepareError>)
    ensures m.outcome.Failure? <==> Prepare(request, config).outcome.Failure?
    ensures m.outcome.Failure? ==> m == Mutation(Failure(Prepare(request, config).outcome.error), Prepare(request, config).after)
    ensures m.outcome.Success? ==>
              var sent := SentFields(request.value, config);
              var secret := ResolvedSecret(request.value, config);
              && m.after == Some(m.outcome.value)
              && ("signature" in m.outcome.value <==> Truthy(secret))
              && m.outcome.value - {"signature"} == sent
              && (Truthy(secret) ==> m.outcome.value["signature"] == Str(Sign(sent, ToJsString(secret), Flag(true), H)))
  {
    var prepared := Prepare(request, config);
    match prepared.outcome
    case Failure(e) => Mutation(Failure(e), prepared.after)
    case Success(endpoints) =>
      PreparedFields(request, config);
      var signed := AttachSignature(prepared.after.value, endpoints.secret, H);
      Mutation(Success(signed), Some(signed))
  }

  /** `if (secret) request.signature = SignatureHelper.sign(request, secret, true)`
      on a request that holds no signature. */
  function AttachSignature(r: FieldMap, secret: Value, H: Hasher): (signed: FieldMap)
    requires "signature" !in r
    ensures "signature" in signed <==> Truthy(secret)
    ensures signed - {"signature"} == r
    ensures Truthy(secret) ==> signed["signature"] == Str(Sign(r, ToJsString(secret), Flag(true), H))
  {
    if Truthy(secret) then
      var token := Str(Sign(r, ToJsString(secret), Flag(true), H));
      SetThenDelete(r, "signature", token);
      r["signature" := token]
    else
      assert r - {"signature"} == r;
      r
  }

  /** A signed request comes back verifiable: when the gateway echoes the
      sent fields with their signature and adds fields of its own (a
      `responseCode` among them), the response verifier accepts it under
      the same secret. Names must be able to travel in the comma-separated
      list and the digest must be non-empty and free of `|`. */
  lemma SignedRequestEchoVerifies(request: FieldMap, config: Config, H: Hasher, signed: FieldMap, extra: FieldMap,
                                  verifierConfig: Config, toNumber: NumberCoercion)
    requires PrepareSignedRequest(Some(request), config, H).outcome == Success(signed)
    requires Truthy(ResolvedSecret(request, config))
    requires ListableNames(SentFields(request, config))
    requires SentFields(request, config).Keys !! extra.Keys && "signature" !in extra
    requires "responseCode" in extra && !extra["responseCode"].Undefined?
    requires DigestText(H(CanonicalQuery(SentFields(request, config)) + ToJsString(ResolvedSecret(request, config))))
    ensures Verify(Some(signed + extra), Some(ToJsString(ResolvedSecret(request, config))), verifierConfig, H, toNumber).outcome
            == Success(true)
  {
    var secret := ToJsString(ResolvedSecret(request, config));
    var sent := SentFields(request, config);
    TruthyStringNonEmpty(ResolvedSecret(request, config));
    SignedRequestShape(request, config, H, signed);
    EchoVerifies(sent, extra, signed, secret, verifierConfig, H, toNumber);
  }

  lemma EchoVerifies(sent: FieldMap, extra: FieldMap, signed: FieldMap, secret: string,
                     verifierConfig: Config, H: Hasher, toNumber: NumberCoercion)
    requires signed == sent["signature" := Str(Sign(sent, secret, Flag(true), H))]
    requires "signature" !in sent && "signature" !in extra && sent.Keys !! extra.Keys
    requires "responseCode" in extra && !extra["responseCode"].Undefined?
    requires ListableNames(sent)
    requires secret != ""
    requires DigestText(H(CanonicalQuery(sent) + secret))
    ensures Verify(Some(signed + extra), Some(secret), verifierConfig, H, toNumber).outcome == Success(true)
  {
    SignatureAfterUnion(sent, extra, Str(Sign(sent, secret, Flag(true), H)));
    VerifyAcceptsSignedResponse(sent, extra, secret, verifierConfig, H, toNumber);
  }

  lemma SignedRequestShape(request: FieldMap, config: Config, H: Hasher, signed: FieldMap)
    requires PrepareSignedRequest(Some(request), config, H).outcome == Success(signed)
    requires Truthy(ResolvedSecret(request, config))
    ensures signed == SentFields(request, config)["signature" := Str(Sign(SentFields(request, config), ToJsString(ResolvedSecret(request, config)), Flag(true), H))]
  {
    DeleteThenSet(signed, "signature");
  }

  lemma SignatureAfterUnion(sent: FieldMap, extra: FieldMap, token: Value)
    requires "signature" !in extra
    ensures sent["signature" := token] + extra == (sent + extra)["signature" := token]
  {
  }
}
