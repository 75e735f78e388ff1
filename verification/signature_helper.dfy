/** `SignatureHelper.sign` (src/support/SignatureHelper.ts): the field map
    becomes a query string (names sorted, names and values percent-encoded,
    `name=value` joined by `&`), which is hashed with the shared secret
    appended; in partial mode the signed names follow the digest after `|`. */
module SignatureHelper {
  import opened Results
  import opened JsValues
  import opened Text
  import opened KeyOrder
  import opened PercentEncoding

  /** SHA-512 over the UTF-8 bytes of a string, rendered as lower-case hex.
      The digest is foreign code: the model takes it as a parameter and
      assumes nothing about it. */
  type Hasher = string -> string

  /** The `partial` argument, `boolean | string | string[]`. */
  datatype Partial = Flag(on: bool) | NameList(list: string) | NameArray(names: seq<string>)

  /** `if (partial)`: an array is truthy even when empty. */
  predicate PartialTruthy(p: Partial) {
    match p
    case Flag(on) => on
    case NameList(list) => list != ""
    case NameArray(_) => true
  }

  /** `partialKeys`: a string is split on `,`, trimmed and stripped of empty
      names; an array is taken as is; a boolean gives none (null). */
  function PartialKeys(p: Partial): Option<seq<string>>
  {
    match p
    case Flag(_) => None
    case NameList(list) => Some(ParseNameList(list, ','))
    case NameArray(names) => Some(names)
  }

  /** Whether field `k` of the data is signed. */
  predicate Selected(p: Partial, k: string) {
    match p
    case Flag(_) => true
    case NameList(list) => k in ParseNameList(list, ',')
    case NameArray(names) => k in names
  }

  /** Reference definition of the signed fields: those of `data` the partial
      argument selects, with their values. Listed names that `data` lacks
      contribute nothing. */
  function SignedFields(data: FieldMap, p: Partial): (d: FieldMap)
    ensures d.Keys <= data.Keys
    ensures forall k :: k in d ==> d[k] == data[k]
    ensures forall k :: k in data ==> (k in d <==> Selected(p, k))
  {
    map k | k in data && Selected(p, k) :: data[k]
  }

  /** A comma-separated list selects exactly the names it parses to. */
  lemma ListSelectsParsedNames(data: FieldMap, list: string)
    ensures SignedFields(data, NameList(list)) == SignedFields(data, NameArray(ParseNameList(list, ',')))
  {
    var names := ParseNameList(list, ',');
    assert forall k :: Selected(NameList(list), k) <==> Selected(NameArray(names), k);
  }

  /** Field names a comma-separated name list can carry unchanged:
      non-empty, without surrounding whitespace and without `,`. */
  predicate ListableNames(d: FieldMap) {
    forall k :: k in d ==> k != "" && Trimmed(k) && ',' !in k
  }

  /** Digest text as a hex digest always is: non-empty and free of `|`. */
  predicate DigestText(h: string) {
    h != "" && '|' !in h
  }

  /** Reference definition of one encoded pair. */
  function EncodedPair(k: string, v: Value): string {
    FormEncode(k) + "=" + FormEncode(ToJsString(v))
  }

  function EncodedPairs(d: FieldMap, keys: seq<string>): (r: seq<string>)
    requires forall i :: 0 <= i < |keys| ==> keys[i] in d
    ensures |r| == |keys|
    ensures forall i :: 0 <= i < |r| ==> r[i] == EncodedPair(keys[i], d[keys[i]])
  {
    if |keys| == 0 then []
    else
      var rest := EncodedPairs(d, keys[1..]);
      var r := [EncodedPair(keys[0], d[keys[0]])] + rest;
      assert forall i :: 0 < i < |r| ==> r[i] == rest[i - 1] && keys[i] == keys[1..][i - 1];
      r
  }

  /** Reference definition of the canonical query string of a field map. */
  function CanonicalQuery(d: FieldMap): string {
    Join(EncodedPairs(d, SortedKeys(d.Keys)), '&')
  }

  /** `keys.map(k => `${phpUrlEncode(k)}=${phpUrlEncode(String(dataToSign[k]))}`)` */
  function QueryPairs(d: FieldMap, keys: seq<string>): (r: seq<string>)
    requires forall i :: 0 <= i < |keys| ==> keys[i] in d
    ensures r == EncodedPairs(d, keys)
  {
    if |keys| == 0 then []
    else [PhpUrlEncode(keys[0]) + "=" + PhpUrlEncode(ToJsString(d[keys[0]]))] + QueryPairs(d, keys[1..])
  }

  /** `qs.replace(/\r\n|\n\r|\r/g, '%0A')`: raw line breaks, tried in that order. */
  function NormalizeRawLineBreaks(s: string): string
    decreases |s|
  {
    if |s| == 0 then ""
    else if |s| >= 2 && s[0] == '\r' && s[1] == '\n' then "%0A" + NormalizeRawLineBreaks(s[2..])
    else if |s| >= 2 && s[0] == '\n' && s[1] == '\r' then "%0A" + NormalizeRawLineBreaks(s[2..])
    else if s[0] == '\r' then "%0A" + NormalizeRawLineBreaks(s[1..])
    else [s[0]] + NormalizeRawLineBreaks(s[1..])
  }

  /** Every alternative of the pattern needs a raw CR, so text without one is untouched. */
  lemma {:induction false} NormalizeWithoutCarriageReturn(s: string)
    requires '\r' !in s
    ensures NormalizeRawLineBreaks(s) == s
    decreases |s|
  {
    if |s| > 0 {
      assert s[0] != '\r';
      assert '\r' !in s[1..];
      NormalizeWithoutCarriageReturn(s[1..]);
      assert s == [s[0]] + s[1..];
    }
  }

  /** The canonical query contains no raw CR or LF, no `&` other than the
      separators and no `=` other than one per pair: every character of an
      encoded name or value is unreserved, `+` or `%`. */
  lemma CanonicalQueryCharacters(d: FieldMap)
    ensures '\r' !in CanonicalQuery(d) && '\n' !in CanonicalQuery(d)
  {
    var keys := SortedKeys(d.Keys);
    var ps := EncodedPairs(d, keys);
    forall i | 0 <= i < |ps|
      ensures '\r' !in ps[i] && '\n' !in ps[i]
    {
      PairCharacters(keys[i], d[keys[i]]);
    }
    NotInJoin(ps, '&', '\r');
    NotInJoin(ps, '&', '\n');
  }

  lemma PairCharacters(k: string, v: Value)
    ensures '\r' !in EncodedPair(k, v) && '\n' !in EncodedPair(k, v)
  {
    var a := FormEncode(k);
    var b := FormEncode(ToJsString(v));
    var p := EncodedPair(k, v);
    assert p == a + "=" + b;
    forall j | 0 <= j < |p|
      ensures p[j] != '\r' && p[j] != '\n'
    {
      if j < |a| {
        assert p[j] == a[j];
      } else if j > |a| {
        assert p[j] == b[j - |a| - 1];
      }
    }
  }

  /** `Object.fromEntries(Object.entries(dataToSign).filter(([k]) => partialKeys.includes(k)))`
      when there are partial keys (an array, even empty, is truthy). */
  function FilterByKeys(d: FieldMap, partialKeys: Option<seq<string>>): FieldMap {
    match partialKeys
    case None => d
    case Some(names) => map k | k in d && k in names :: d[k]
  }

  lemma FilterSelectsSignedFields(data: FieldMap, partial: Partial)
    ensures FilterByKeys(data, PartialKeys(partial)) == SignedFields(data, partial)
  {
  }

  /** `SignatureHelper.sign(data, secret, partial)`. The digest is taken over
      exactly the canonical query of the selected fields followed by the
      secret; the `|`-suffix is present iff `partial` is truthy and then lists
      the signed names in ascending order. */
  function Sign(data: FieldMap, secret: string, partial: Partial, H: Hasher): (r: string)
    ensures var signed := SignedFields(data, partial);
            r == H(CanonicalQuery(signed) + secret)
                 + (if PartialTruthy(partial) then "|" + Join(SortedKeys(signed.Keys), ',') else "")
  {
    var dataToSign := data;
    var filtered := FilterByKeys(dataToSign, PartialKeys(partial));
    FilterSelectsSignedFields(data, partial);
    var keys := SortedKeys(filtered.Keys);
    var joined := Join(QueryPairs(filtered, keys), '&');
    assert joined == CanonicalQuery(filtered);
    CanonicalQueryCharacters(filtered);
    NormalizeWithoutCarriageReturn(joined);
    var qs := NormalizeRawLineBreaks(joined);
    var hash := H(qs + secret);
    if PartialTruthy(partial) then hash + "|" + Join(keys, ',') else hash
  }

  /** The digest part of a signature: the text before the first `|`. */
  function Digest(data: FieldMap, secret: string, partial: Partial, H: Hasher): string {
    FirstSegment(Sign(data, secret, partial, H), '|')
  }

  /** With a digest free of `|` (as hex always is), the token has a `|`
      exactly when `partial` is truthy. */
  lemma SignSuffixIffTruthy(data: FieldMap, secret: string, partial: Partial, H: Hasher)
    requires '|' !in H(CanonicalQuery(SignedFields(data, partial)) + secret)
    ensures '|' in Sign(data, secret, partial, H) <==> PartialTruthy(partial)
  {
    if PartialTruthy(partial) {
      var h := H(CanonicalQuery(SignedFields(data, partial)) + secret);
      assert Sign(data, secret, partial, H)[|h|] == '|';
    }
  }

  /** The text before a token's first `|` is the digest of exactly the
      canonical query of the signed fields followed by the secret. */
  lemma SignTokenDigest(data: FieldMap, secret: string, partial: Partial, H: Hasher)
    requires '|' !in H(CanonicalQuery(SignedFields(data, partial)) + secret)
    ensures Digest(data, secret, partial, H) == H(CanonicalQuery(SignedFields(data, partial)) + secret)
  {
    var h := H(CanonicalQuery(SignedFields(data, partial)) + secret);
    var signed := SignedFields(data, partial);
    var tail := Join(SortedKeys(signed.Keys), ',');
    var r := Sign(data, secret, partial, H);
    assert r == h + (if PartialTruthy(partial) then "|" + tail else "");
    TokenHead(r, h, tail, PartialTruthy(partial));
  }

  lemma TokenHead(r: string, h: string, tail: string, suffixed: bool)
    requires '|' !in h && r == h + (if suffixed then "|" + tail else "")
    ensures FirstSegment(r, '|') == h
  {
    if suffixed {
      TokenSplit(r, h, tail);
    } else {
      assert r == h;
    }
  }

  /** In full mode every field is signed and every name is listed. */
  lemma FullSignToken(data: FieldMap, secret: string, H: Hasher)
    ensures Sign(data, secret, Flag(true), H)
            == H(CanonicalQuery(data) + secret) + "|" + Join(SortedKeys(data.Keys), ',')
  {
    var signed := SignedFields(data, Flag(true));
    assert signed.Keys == data.Keys;
    assert signed == data;
    var r := Sign(data, secret, Flag(true), H);
    assert r == H(CanonicalQuery(signed) + secret) + (if PartialTruthy(Flag(true)) then "|" + Join(SortedKeys(signed.Keys), ',') else "");
  }

  lemma TokenSplit(r: string, h: string, tail: string)
    requires '|' !in h && r == h + "|" + tail
    ensures FirstSegment(r, '|') == h && AfterFirst(r, '|') == tail
  {
    assert r == h + ['|'] + tail;
    FirstSeparatorIndex(h, tail, '|');
    FirstSeparator(FirstSegment(r, '|'), AfterFirst(r, '|'), h, tail, '|');
  }

  /** The canonical query determines the signed fields: equal canonical
      strings mean the same names with the same `String()` values. An
      unescaped `&` or `=` in it is always a separator. */
  lemma CanonicalQueryInjective(d1: FieldMap, d2: FieldMap)
    requires CanonicalQuery(d1) == CanonicalQuery(d2)
    ensures d1.Keys == d2.Keys
    ensures forall k :: k in d1 ==> ToJsString(d1[k]) == ToJsString(d2[k])
  {
    var ks1 := SortedKeys(d1.Keys);
    var ks2 := SortedKeys(d2.Keys);
    EncodedPairsAgree(d1, d2, ks1, ks2);
    SameSortedKeys(d1.Keys, d2.Keys);
  }

  /** Equal joins of encoded pairs have the same names and `String()` values, pair by pair. */
  lemma EncodedPairsAgree(d1: FieldMap, d2: FieldMap, ks1: seq<string>, ks2: seq<string>)
    requires forall i :: 0 <= i < |ks1| ==> ks1[i] in d1
    requires forall i :: 0 <= i < |ks2| ==> ks2[i] in d2
    requires Join(EncodedPairs(d1, ks1), '&') == Join(EncodedPairs(d2, ks2), '&')
    ensures ks1 == ks2
    ensures forall k :: k in ks1 ==> ToJsString(d1[k]) == ToJsString(d2[k])
  {
    var ps1 := EncodedPairs(d1, ks1);
    var ps2 := EncodedPairs(d2, ks2);
    PairsWithoutAmpersand(d1, ks1);
    PairsWithoutAmpersand(d2, ks2);
    if |ps1| > 0 && |ps2| > 0 {
      JoinInjective(ps1, ps2, '&');
      forall i | 0 <= i < |ks1|
        ensures ks1[i] == ks2[i] && ToJsString(d1[ks1[i]]) == ToJsString(d2[ks2[i]])
      {
        SameEncodedPair(ks1[i], d1[ks1[i]], ks2[i], d2[ks2[i]]);
      }
    } else if |ps1| > 0 {
      JoinStartsWithFirst(ps1, '&');
    } else if |ps2| > 0 {
      JoinStartsWithFirst(ps2, '&');
    }
  }

  lemma SameEncodedPair(k1: string, v1: Value, k2: string, v2: Value)
    requires EncodedPair(k1, v1) == EncodedPair(k2, v2)
    ensures k1 == k2 && ToJsString(v1) == ToJsString(v2)
  {
    var a1, a2 := FormEncode(k1), FormEncode(k2);
    var b1, b2 := FormEncode(ToJsString(v1)), FormEncode(ToJsString(v2));
    assert '=' !in a1 && '=' !in a2;
    FirstSeparator(a1, b1, a2, b2, '=');
    FormRoundTrip(k1);
    FormRoundTrip(k2);
    FormRoundTrip(ToJsString(v1));
    FormRoundTrip(ToJsString(v2));
  }

  lemma PairsWithoutAmpersand(d: FieldMap, keys: seq<string>)
    requires forall i :: 0 <= i < |keys| ==> keys[i] in d
    ensures forall i :: 0 <= i < |keys| ==> '&' !in EncodedPairs(d, keys)[i]
  {
    var ps := EncodedPairs(d, keys);
    forall i | 0 <= i < |keys|
      ensures '&' !in ps[i]
    {
      var a := FormEncode(keys[i]);
      var b := FormEncode(ToJsString(d[keys[i]]));
      assert ps[i] == a + "=" + b;
      forall j | 0 <= j < |ps[i]|
        ensures ps[i][j] != '&'
      {
        if j < |a| {
          assert ps[i][j] == a[j];
        } else if j > |a| {
          assert ps[i][j] == b[j - |a| - 1];
        }
      }
    }
  }
}
