/** `ResponseVerifier.verify` (src/support/ResponseVerifier.ts): checks the
    signature of a gateway response against the shared secret, removing the
    signature field from the response and, on success, converting its
    `responseCode` with `Number()`. */
module ResponseVerifier {
  import opened Results
  import opened JsValues
  import opened Text
  import opened KeyOrder
  import opened SignatureHelper
  import opened GatewayConfig

  /** The four thrown errors: "Invalid response…", "Incorrectly signed…
      (1)", "(2)" and the mismatch. */
  datatype VerifyError = InvalidResponse | SignedWithoutSecret | SignatureMissing | SignatureMismatch

  /** `Number(x)`: floating-point conversion, a parameter of the model. */
  type NumberCoercion = Value -> Value

  /** `secret ?? Gateway.merchantSecret` for a `string | null | undefined` argument. */
  function ResolveSecret(secret: Option<string>, config: Config): (v: Value)
    ensures secret.Some? ==> v == Str(secret.value)
    ensures secret.None? ==> v == config.merchantSecret
  {
    Coalesce(FromOption(secret), config.merchantSecret)
  }

  /** Reference reading of a claimed token: the digest is the text before the
      first `|`; the name list, when there is a `|`, is everything after it. */
  function ClaimedDigest(sig: Value): string {
    FirstSegment(ToJsString(sig), '|')
  }

  function ClaimedNames(sig: Value): Option<string> {
    if '|' in ToJsString(sig) then Some(AfterFirst(ToJsString(sig), '|')) else None
  }

  /** The `partial` argument the verifier re-signs with: `fields ?? true`. */
  function PartialFor(names: Option<string>): Partial {
    match names
    case Some(list) => NameList(list)
    case None => Flag(true)
  }

  /** The response once a truthy `signature` has been deleted from it. */
  function WithoutSignature(r: FieldMap): (w: FieldMap)
    ensures "signature" !in r ==> w == r
  {
    if Truthy(Get(r, "signature")) then r - {"signature"} else r
  }

  /** What lines 12-23 leave behind: the claimed digest (`signature`, null
      when the field is falsy), the name list (`fields`) and the response
      with the signature deleted. */
  datatype Claim = Claim(signature: Option<string>, fields: Option<string>, rest: FieldMap)

  function ReadClaim(r: FieldMap, secretTruthy: bool): (c: Claim)
    ensures c.rest == WithoutSignature(r)
    ensures Truthy(Get(r, "signature")) && secretTruthy ==>
              c.signature == Some(ClaimedDigest(Get(r, "signature"))) && c.fields == ClaimedNames(Get(r, "signature"))
    ensures Truthy(Get(r, "signature")) && !secretTruthy ==>
              c.signature == Some(ToJsString(Get(r, "signature"))) && ToJsString(Get(r, "signature")) != ""
    ensures !Truthy(Get(r, "signature")) ==> c.signature.None?
  {
    var sig := Get(r, "signature");
    if Truthy(sig) then
      var signature := ToJsString(sig);
      TruthyStringNonEmpty(sig);
      var rest := r - {"signature"};
      if secretTruthy && signature != "" && '|' in signature then
        var parts := Split(signature, '|');
        Claim(Some(parts[0]), Some(Join(parts[1..], '|')), rest)
      else
        Claim(Some(signature), None, rest)
    else
      Claim(None, None, r)
  }

  /** The response is usable: present, with a defined `responseCode`. */
  predicate WellFormed(response: Option<FieldMap>) {
    response.Some? && !Get(response.value, "responseCode").Undefined?
  }

  /** Reference verdict on a well-formed response, read from the resolved
      secret and the `signature` field: neither present is success without
      hashing, only the claimed digest is error (1), only the secret is
      error (2), and with both the response verifies iff the digest part of
      the re-signed fields equals the claimed digest exactly. */
  function Verdict(rest: FieldMap, sec: Value, sig: Value, H: Hasher): Result<bool, VerifyError> {
    Judge(sec, sig, Digest(rest, ToJsString(sec), PartialFor(ClaimedNames(sig)), H))
  }

  /** The verdict given the digest re-signing produces. */
  function Judge(sec: Value, sig: Value, recomputed: string): Result<bool, VerifyError> {
    if !Truthy(sec) then
      if Truthy(sig) then Failure(SignedWithoutSecret) else Success(true)
    else if !Truthy(sig) || ClaimedDigest(sig) == "" then
      Failure(SignatureMissing)
    else if recomputed == ClaimedDigest(sig) then
      Success(true)
    else
      Failure(SignatureMismatch)
  }

  /** `ResponseVerifier.verify(response, secret)`.
      - An absent response or an undefined `responseCode` throws first and
        changes nothing.
      - Otherwise a truthy `signature` is deleted from the response, whatever
        the verdict.
      - The outcome is the reference verdict.
      - On success `responseCode` becomes its `Number()` value and nothing
        else changes. */
  function Verify(response: Option<FieldMap>, secret: Option<string>, config: Config,
                  H: Hasher, toNumber: NumberCoercion): (m: Mutation<bool, VerifyError>)
    ensures m.outcome == Failure(InvalidResponse) <==> !WellFormed(response)
    ensures !WellFormed(response) ==> m.after == response
    ensures WellFormed(response) ==>
              var r := response.value;
              var rest := WithoutSignature(r);
              && m.outcome == Verdict(rest, ResolveSecret(secret, config), Get(r, "signature"), H)
              && (m.outcome.Success? ==> m.after == Some(rest["responseCode" := toNumber(Get(r, "responseCode"))]))
              && (m.outcome.Failure? ==> m.after == Some(rest))
  {
    if response.None? || Get(response.value, "responseCode").Undefined? then
      Mutation(Failure(InvalidResponse), response)
    else
      var sec := ResolveSecret(secret, config);
      var claim := ReadClaim(response.value, Truthy(sec));
      var signatureTruthy := claim.signature.Some? && claim.signature.value != "";
      var r := claim.rest;
      assert Get(r, "responseCode") == Get(response.value, "responseCode");
      if !Truthy(sec) && signatureTruthy then
        Mutation(Failure(SignedWithoutSecret), Some(r))
      else if Truthy(sec) && !signatureTruthy then
        Mutation(Failure(SignatureMissing), Some(r))
      else if Truthy(sec) && signatureTruthy
              && FirstSegment(Sign(r, ToJsString(sec), PartialFor(claim.fields), H), '|') != claim.signature.value then
        Mutation(Failure(SignatureMismatch), Some(r))
      else
        Mutation(Success(true), Some(r["responseCode" := toNumber(Get(r, "responseCode"))]))
  }

  /** A response signed in full mode with the shared secret verifies, even
      after fields the token does not list (such as the gateway's
      `responseCode`) are added to it, provided its names can travel in a
      comma-separated list (non-empty, trimmed, without `,`) and the digest
      is non-empty and free of `|`, as a hex digest is. */
  lemma VerifyAcceptsSignedResponse(r: FieldMap, extra: FieldMap, secret: string, config: Config,
                                    H: Hasher, toNumber: NumberCoercion)
    requires "signature" !in r && "signature" !in extra && r.Keys !! extra.Keys
    requires !Get(r + extra, "responseCode").Undefined?
    requires ListableNames(r)
    requires secret != ""
    requires DigestText(H(CanonicalQuery(r) + secret))
    ensures Verify(Some((r + extra)["signature" := Str(Sign(r, secret, Flag(true), H))]), Some(secret), config, H, toNumber).outcome
            == Success(true)
  {
    var token := Str(Sign(r, secret, Flag(true), H));
    FullTokenClaims(r, secret, H);
    VerdictOnSignedFields(r, extra, secret, H);
    VerifySignedWithSecret(r + extra, token, secret, config, H, toNumber);
  }

  /** Verifying a response that carries a signature and a given secret
      reaches the verdict on the response without it. */
  lemma VerifySignedWithSecret(r: FieldMap, sig: Value, secret: string, config: Config,
                               H: Hasher, toNumber: NumberCoercion)
    requires !Get(r, "responseCode").Undefined? && "signature" !in r && Truthy(sig)
    ensures Verify(Some(r["signature" := sig]), Some(secret), config, H, toNumber).outcome
            == Verdict(r, Str(secret), sig, H)
  {
    var signed := r["signature" := sig];
    assert Get(signed, "signature") == sig;
    assert Get(signed, "responseCode") == Get(r, "responseCode");
    RemoveAddedSignature(r, sig);
  }

  lemma RemoveAddedSignature(r: FieldMap, v: Value)
    requires "signature" !in r && Truthy(v)
    ensures WithoutSignature(r["signature" := v]) == r
  {
    SetThenDelete(r, "signature", v);
  }

  /** The verdict on the fields a full-mode token was made from, with any
      unlisted fields added. */
  lemma VerdictOnSignedFields(r: FieldMap, extra: FieldMap, secret: string, H: Hasher)
    requires r.Keys !! extra.Keys
    requires ListableNames(r)
    requires secret != ""
    requires DigestText(H(CanonicalQuery(r) + secret))
    ensures Verdict(r + extra, Str(secret), Str(Sign(r, secret, Flag(true), H)), H) == Success(true)
  {
    FullTokenClaims(r, secret, H);
    ResignAmongExtra(r, extra, secret, H);
    assert ToJsString(Str(secret)) == secret;
  }

  /** Unlisted fields do not change the digest re-signing produces. */
  lemma ResignAmongExtra(r: FieldMap, extra: FieldMap, secret: string, H: Hasher)
    requires r.Keys !! extra.Keys
    requires ListableNames(r)
    requires '|' !in H(CanonicalQuery(r) + secret)
    ensures Digest(r + extra, secret, NameList(Join(SortedKeys(r.Keys), ',')), H) == H(CanonicalQuery(r) + secret)
  {
    var list := Join(SortedKeys(r.Keys), ',');
    ListedNamesResign(r, secret, H);
    ParseSortedNames(r);
    ListSelectsParsedNames(r + extra, list);
    ListSelectsParsedNames(r, list);
    SelectSortedNamesAmongExtra(r, extra);
    SelectSortedNames(r);
    SignSeesOnlySignedFields(r + extra, r, secret, NameList(list), H);
  }

  /** A full-mode token claims the digest of all fields and lists them all. */
  lemma FullTokenClaims(r: FieldMap, secret: string, H: Hasher)
    requires DigestText(H(CanonicalQuery(r) + secret))
    ensures var token := Str(Sign(r, secret, Flag(true), H));
            && Truthy(token)
            && ClaimedDigest(token) == H(CanonicalQuery(r) + secret)
            && ClaimedNames(token) == Some(Join(SortedKeys(r.Keys), ','))
  {
    var h := H(CanonicalQuery(r) + secret);
    var list := Join(SortedKeys(r.Keys), ',');
    FullSignToken(r, secret, H);
    var token := Sign(r, secret, Flag(true), H);
    TokenSplit(token, h, list);
    assert token[|h|] == '|';
    assert ToJsString(Str(token)) == token;
  }

  /** Re-signing with the listed names of a full-mode token reproduces its digest. */
  lemma ListedNamesResign(r: FieldMap, secret: string, H: Hasher)
    requires ListableNames(r)
    requires '|' !in H(CanonicalQuery(r) + secret)
    ensures Digest(r, secret, NameList(Join(SortedKeys(r.Keys), ',')), H) == H(CanonicalQuery(r) + secret)
  {
    var list := Join(SortedKeys(r.Keys), ',');
    ParseSortedNames(r);
    SelectSortedNames(r);
    ListSelectsParsedNames(r, list);
    assert SignedFields(r, NameList(list)) == r;
    SignTokenDigest(r, secret, NameList(list), H);
  }

  lemma ParseSortedNames(r: FieldMap)
    requires ListableNames(r)
    ensures ParseNameList(Join(SortedKeys(r.Keys), ','), ',') == SortedKeys(r.Keys)
  {
    var names := SortedKeys(r.Keys);
    forall i | 0 <= i < |names|
      ensures names[i] != "" && Trimmed(names[i]) && ',' !in names[i]
    {
      assert names[i] in r;
    }
    ParseJoinedNames(names, ',');
  }

  lemma SelectSortedNames(r: FieldMap)
    ensures SignedFields(r, NameArray(SortedKeys(r.Keys))) == r
  {
    SelectSortedNamesAmongExtra(r, map[]);
    assert r + map[] == r;
  }

  lemma SelectSortedNamesAmongExtra(r: FieldMap, extra: FieldMap)
    requires r.Keys !! extra.Keys
    ensures SignedFields(r + extra, NameArray(SortedKeys(r.Keys))) == r
  {
    var d := r + extra;
    forall k | k in r
      ensures k in d && d[k] == r[k]
    {
      assert k !in extra;
    }
    SelectNames(d, r, SortedKeys(r.Keys));
  }

  /** Selecting exactly the names of a sub-map recovers the sub-map. */
  lemma SelectNames(d: FieldMap, r: FieldMap, names: seq<string>)
    requires forall k :: k in names <==> k in r
    requires forall k :: k in r ==> k in d && d[k] == r[k]
    ensures SignedFields(d, NameArray(names)) == r
  {
    var s := SignedFields(d, NameArray(names));
    assert s.Keys == r.Keys;
  }

  /** Fields a response agrees on with another. */
  predicate AgreeOn(r1: FieldMap, r2: FieldMap, names: seq<string>) {
    forall n :: n in names ==> (n in r1 <==> n in r2) && (n in r1 ==> r1[n] == r2[n])
  }

  /** Only the listed fields are covered by a partial signature: two
      responses carrying the same token and agreeing on the names it lists
      get the same verdict, whatever their other fields hold. */
  lemma VerifyIgnoresUnlistedFields(r1: FieldMap, r2: FieldMap, token: string, secret: Option<string>,
                                    config: Config, H: Hasher, toNumber: NumberCoercion)
    requires WellFormed(Some(r1)) && WellFormed(Some(r2))
    requires Get(r1, "signature") == Str(token) && Get(r2, "signature") == Str(token)
    requires '|' in token
    requires AgreeOn(r1, r2, ParseNameList(AfterFirst(token, '|'), ','))
    ensures Verify(Some(r1), secret, config, H, toNumber).outcome == Verify(Some(r2), secret, config, H, toNumber).outcome
  {
    var sig := Str(token);
    var sec := ResolveSecret(secret, config);
    var list := AfterFirst(token, '|');
    assert PartialFor(ClaimedNames(sig)) == NameList(list);
    var w1, w2 := WithoutSignature(r1), WithoutSignature(r2);
    assert w1 == r1 - {"signature"} && w2 == r2 - {"signature"};
    AgreeWithoutSignature(r1, r2, ParseNameList(list, ','));
    SignedFieldsOfAgreeing(w1, w2, list);
    SameSignedSameVerdict(w1, w2, sec, sig, NameList(list), H);
  }

  /** The verdict sees the fields only through those the claim selects. */
  lemma SameSignedSameVerdict(w1: FieldMap, w2: FieldMap, sec: Value, sig: Value, partial: Partial, H: Hasher)
    requires PartialFor(ClaimedNames(sig)) == partial
    requires SignedFields(w1, partial) == SignedFields(w2, partial)
    ensures Verdict(w1, sec, sig, H) == Verdict(w2, sec, sig, H)
  {
    SameSignedSameDigest(w1, w2, ToJsString(sec), partial, H);
    VerdictFollowsDigest(w1, w2, sec, sig, H);
  }

  lemma SameSignedSameDigest(w1: FieldMap, w2: FieldMap, secret: string, partial: Partial, H: Hasher)
    requires SignedFields(w1, partial) == SignedFields(w2, partial)
    ensures Digest(w1, secret, partial, H) == Digest(w2, secret, partial, H)
  {
    SignSeesOnlySignedFields(w1, w2, secret, partial, H);
  }

  lemma VerdictFollowsDigest(w1: FieldMap, w2: FieldMap, sec: Value, sig: Value, H: Hasher)
    requires Digest(w1, ToJsString(sec), PartialFor(ClaimedNames(sig)), H)
             == Digest(w2, ToJsString(sec), PartialFor(ClaimedNames(sig)), H)
    ensures Verdict(w1, sec, sig, H) == Verdict(w2, sec, sig, H)
  {
  }

  /** Two field maps agreeing on the listed names have the same signed fields. */
  lemma SignedFieldsOfAgreeing(w1: FieldMap, w2: FieldMap, list: string)
    requires AgreeOn(w1, w2, ParseNameList(list, ','))
    ensures SignedFields(w1, NameList(list)) == SignedFields(w2, NameList(list))
  {
    ListSelectsParsedNames(w1, list);
    ListSelectsParsedNames(w2, list);
    AgreeingArraySelection(w1, w2, ParseNameList(list, ','));
  }

  lemma AgreeingArraySelection(w1: FieldMap, w2: FieldMap, names: seq<string>)
    requires AgreeOn(w1, w2, names)
    ensures SignedFields(w1, NameArray(names)) == SignedFields(w2, NameArray(names))
  {
    var s1, s2 := SignedFields(w1, NameArray(names)), SignedFields(w2, NameArray(names));
    assert s1.Keys == s2.Keys;
  }

  /** Deleting the same key from both sides keeps agreement. */
  lemma AgreeWithoutSignature(r1: FieldMap, r2: FieldMap, names: seq<string>)
    requires AgreeOn(r1, r2, names)
    ensures AgreeOn(r1 - {"signature"}, r2 - {"signature"}, names)
  {
  }

  /** The token depends on the data only through the signed fields. */
  lemma SignSeesOnlySignedFields(d1: FieldMap, d2: FieldMap, secret: string, partial: Partial, H: Hasher)
    requires SignedFields(d1, partial) == SignedFields(d2, partial)
    ensures Sign(d1, secret, partial, H) == Sign(d2, secret, partial, H)
  {
  }

  /** A token whose name list is empty (`digest|`) signs no field at all: it
      verifies iff the digest is the hash of the secret alone, so every
      field of such a response is unauthenticated. */
  lemma EmptyNameListSignsNothing(r: FieldMap, d: string, secret: Option<string>,
                                  config: Config, H: Hasher, toNumber: NumberCoercion)
    requires WellFormed(Some(r))
    requires Get(r, "signature") == Str(d + "|")
    requires d != "" && '|' !in d
    requires Truthy(ResolveSecret(secret, config))
    requires '|' !in H(ToJsString(ResolveSecret(secret, config)))
    ensures Verify(Some(r), secret, config, H, toNumber).outcome == Success(true)
            <==> H(ToJsString(ResolveSecret(secret, config))) == d
  {
    var sec := ToJsString(ResolveSecret(secret, config));
    var token := d + "|";
    TokenSplit(token, d, "");
    assert token[|d|] == '|';
    assert PartialFor(ClaimedNames(Str(token))) == NameList("");
    EmptyListDigest(WithoutSignature(r), sec, H);
  }

  /** An empty name list selects nothing: the digest is the hash of the secret alone. */
  lemma EmptyListDigest(rest: FieldMap, sec: string, H: Hasher)
    requires '|' !in H(sec)
    ensures Digest(rest, sec, NameList(""), H) == H(sec)
  {
    assert Split("", ',') == [""];
    assert ParseNameList("", ',') == [];
    assert SignedFields(rest, NameList("")) == map[];
    assert CanonicalQuery(map[]) == "";
    assert "" + sec == sec;
    SignTokenDigest(rest, sec, NameList(""), H);
  }
}
