/** `RequestPreparer.prepare` (src/support/RequestPreparer.ts): validates an
    outbound request, fills merchant defaults from the gateway configuration,
    takes out the secret and the endpoint URLs, and strips fields the gateway
    must not receive. The request object is changed in place; the model
    returns its new state. */
module RequestPreparer {
  import opened Results
  import opened JsValues
  import opened GatewayConfig

  datatype PrepareError = RequestMissing | ActionMissing | MerchantIdMissing

  /** The `{ secret, directUrl, hostedUrl }` the call returns. */
  datatype Endpoints = Endpoints(secret: Value, directUrl: Value, hostedUrl: Value)

  /** Fields deleted from the request: the three taken out as endpoints and
      the seven cleaned afterwards. */
  const TakenFields: seq<string> := ["merchantSecret", "hostedUrl", "directUrl"]
  const CleanedFields: seq<string> :=
    ["responseCode", "responseMessage", "responseStatus", "state", "signature", "merchantAlias", "merchantID2"]

  const StrippedFields: set<string> := set f | f in TakenFields + CleanedFields

  /** `names.forEach(f => delete request[f])` */
  function DeleteAll(m: FieldMap, names: seq<string>): (r: FieldMap)
    ensures r.Keys == m.Keys - set f | f in names
    ensures forall k :: k in r ==> r[k] == m[k]
    decreases |names|
  {
    if |names| == 0 then m else DeleteAll(m - {names[0]}, names[1..])
  }

  /** The request after defaults are filled: `merchantID` and `merchantPwd`
      are taken from the configuration only when the request's own value is
      falsy and the configured one truthy. */
  function WithDefaults(request: FieldMap, config: Config): (r: FieldMap)
    ensures Truthy(Get(r, "merchantID")) <==> Truthy(Get(request, "merchantID")) || Truthy(config.merchantID)
    ensures Get(r, "merchantID") == (if !Truthy(Get(request, "merchantID")) && Truthy(config.merchantID) then config.merchantID else Get(request, "merchantID"))
    ensures Get(r, "merchantPwd") == (if !Truthy(Get(request, "merchantPwd")) && Truthy(config.merchantPwd) then config.merchantPwd else Get(request, "merchantPwd"))
    ensures forall k :: k != "merchantID" && k != "merchantPwd" ==> Get(r, k) == Get(request, k)
  {
    var r1 := if !Truthy(Get(request, "merchantID")) && Truthy(config.merchantID)
              then request["merchantID" := config.merchantID] else request;
    var r2 := if !Truthy(Get(r1, "merchantPwd")) && Truthy(config.merchantPwd)
              then r1["merchantPwd" := config.merchantPwd] else r1;
    r2
  }

  /** The steps after validation: read the secret and the URLs (own value
      unless null/undefined, else the configured one), delete them, then
      delete the cleaned fields. */
  function TakeEndpoints(r2: FieldMap, config: Config): (res: (Endpoints, FieldMap))
    ensures res.0.secret == Coalesce(Get(r2, "merchantSecret"), config.merchantSecret)
    ensures res.0.hostedUrl == Coalesce(Get(r2, "hostedUrl"), config.hostedUrl)
    ensures res.0.directUrl == Coalesce(Get(r2, "directUrl"), config.directUrl)
    ensures res.1.Keys == r2.Keys - StrippedFields
    ensures forall k :: k in res.1 ==> res.1[k] == r2[k]
  {
    var secret := Coalesce(Get(r2, "merchantSecret"), config.merchantSecret);
    var r3 := r2 - {"merchantSecret"};
    var hostedUrl := Coalesce(Get(r3, "hostedUrl"), config.hostedUrl);
    var r4 := r3 - {"hostedUrl"};
    var directUrl := Coalesce(Get(r4, "directUrl"), config.directUrl);
    var r5 := r4 - {"directUrl"};
    var r6 := DeleteAll(r5, CleanedFields);
    assert Get(r3, "hostedUrl") == Get(r2, "hostedUrl");
    assert Get(r4, "directUrl") == Get(r2, "directUrl");
    StrippedKeys(r2.Keys, r6.Keys);
    (Endpoints(secret, directUrl, hostedUrl), r6)
  }

  lemma StrippedKeys(before: set<string>, after: set<string>)
    requires after == before - {"merchantSecret"} - {"hostedUrl"} - {"directUrl"} - set f | f in CleanedFields
    ensures after == before - StrippedFields
  {
    StrippedFieldsSplit();
  }

  lemma KeptFields()
    ensures "action" !in StrippedFields && "merchantID" !in StrippedFields && "merchantPwd" !in StrippedFields
  {
    StrippedFieldsSplit();
  }

  lemma StrippedFieldsSplit()
    ensures StrippedFields == {"merchantSecret", "hostedUrl", "directUrl"} + set f | f in CleanedFields
  {
    assert forall f :: f in TakenFields <==> f == "merchantSecret" || f == "hostedUrl" || f == "directUrl";
  }

  /** `RequestPreparer.prepare(request, options)`. `options` is never read,
      so the model has no such parameter. It fails, in this order, for an
      absent request, a falsy `action` and a merchant id that is falsy even
      after defaulting. On success the secret and URLs are the request's own
      values unless null/undefined, else the configured ones; the request
      then holds none of the stripped fields, and every other field keeps
      its (defaulted) value. */
  function Prepare(request: Option<FieldMap>, config: Config): (m: Mutation<Endpoints, PrepareError>)
    ensures request.None? ==> m == Mutation(Failure(RequestMissing), None)
    ensures request.Some? && !Truthy(Get(request.value, "action")) ==> m == Mutation(Failure(ActionMissing), request)
    ensures m.outcome == Failure(RequestMissing) <==> request.None?
    ensures m.outcome == Failure(ActionMissing) <==> request.Some? && !Truthy(Get(request.value, "action"))
    ensures m.outcome.Success? <==>
              request.Some? && Truthy(Get(request.value, "action"))
              && Truthy(Get(WithDefaults(request.value, config), "merchantID"))
    ensures request.Some? && Truthy(Get(request.value, "action")) ==> m.after.Some?
    ensures m.outcome == Failure(MerchantIdMissing) <==>
              request.Some? && Truthy(Get(request.value, "action"))
              && !Truthy(Get(request.value, "merchantID")) && !Truthy(config.merchantID)
    ensures m.outcome == Failure(MerchantIdMissing) ==> m.after == Some(WithDefaults(request.value, config))
    ensures m.outcome.Success? ==>
              var before := WithDefaults(request.value, config);
              && m.outcome.value.secret == Coalesce(Get(before, "merchantSecret"), config.merchantSecret)
              && m.outcome.value.hostedUrl == Coalesce(Get(before, "hostedUrl"), config.hostedUrl)
              && m.outcome.value.directUrl == Coalesce(Get(before, "directUrl"), config.directUrl)
              && m.after.Some?
              && m.after.value.Keys == before.Keys - StrippedFields
              && (forall k :: k in m.after.value ==> m.after.value[k] == before[k])
              && Truthy(Get(m.after.value, "action")) && Truthy(Get(m.after.value, "merchantID"))
  {
    if request.None? then Mutation(Failure(RequestMissing), request)
    else if !Truthy(Get(request.value, "action")) then Mutation(Failure(ActionMissing), request)
    else
      var r2 := WithDefaults(request.value, config);
      if !Truthy(Get(r2, "merchantID")) then Mutation(Failure(MerchantIdMissing), Some(r2))
      else
        var (endpoints, r6) := TakeEndpoints(r2, config);
        KeptFields();
        Mutation(Success(endpoints), Some(r6))
  }
}
