/** `generateSignature` (src/utils/hashUtils.ts): the legacy signature. Keys
    are sorted, each pair is `key=value` with the value interpolated raw, the
    pairs are joined by `&`, and the secret is put IN FRONT of that string
    before hashing. */
module HashUtils {
  import opened Results
  import opened JsValues
  import opened Text
  import opened KeyOrder
  import opened SignatureHelper

  /** One legacy pair: no percent-encoding, no line-break normalisation. */
  function LegacyPair(k: string, v: Value): string {
    k + "=" + ToJsString(v)
  }

  function LegacyPairs(fields: FieldMap, keys: seq<string>): (r: seq<string>)
    requires forall i :: 0 <= i < |keys| ==> keys[i] in fields
    ensures |r| == |keys|
    ensures forall i :: 0 <= i < |r| ==> r[i] == LegacyPair(keys[i], fields[keys[i]])
  {
    if |keys| == 0 then [] else [LegacyPair(keys[0], fields[keys[0]])] + LegacyPairs(fields, keys[1..])
  }

  /** The legacy canonical string over every key of `fields` (a key named
      `signature` included, null/undefined values as the words), in
      ascending code-unit order. */
  function LegacyString(fields: FieldMap): string {
    Join(LegacyPairs(fields, SortedKeys(fields.Keys)), '&')
  }

  /** `generateSignature(fields, secret)`: the hash of the secret followed by
      the legacy string. */
  function GenerateSignature(fields: FieldMap, secret: string, H: Hasher): string
  {
    var signatureString := LegacyString(fields);
    H(secret + signatureString)
  }

  /** `piece` occupies `s[p..p + |piece|]`, with an `&` or an end of `s` on
      either side. */
  predicate AmpersandPieceAt(s: string, piece: string, p: int) {
    && 0 <= p && p + |piece| <= |s|
    && s[p..p + |piece|] == piece
    && (p == 0 || s[p - 1] == '&')
    && (p + |piece| == |s| || s[p + |piece|] == '&')
  }

  /** Every field, whatever its key, contributes its pair to the legacy
      string, as one of the pieces between its `&` separators. */
  lemma LegacyStringListsEveryField(fields: FieldMap, k: string)
    requires k in fields
    ensures exists i :: 0 <= i < |SortedKeys(fields.Keys)|
                        && SortedKeys(fields.Keys)[i] == k
                        && LegacyPairs(fields, SortedKeys(fields.Keys))[i] == LegacyPair(k, fields[k])
    ensures exists p :: AmpersandPieceAt(LegacyString(fields), LegacyPair(k, fields[k]), p)
  {
    var keys := SortedKeys(fields.Keys);
    var i :| 0 <= i < |keys| && keys[i] == k;
    var a, b := PieceInJoin(LegacyPairs(fields, keys), i, '&');
    PieceAtFrame(LegacyString(fields), LegacyPair(k, fields[k]), a, b);
  }

  lemma PieceAtFrame(s: string, piece: string, a: string, b: string)
    requires s == a + piece + b && (|a| == 0 || a[|a| - 1] == '&') && (|b| == 0 || b[0] == '&')
    ensures AmpersandPieceAt(s, piece, |a|)
  {
    assert s[|a|..|a| + |piece|] == piece;
    if |b| > 0 {
      assert s[|a| + |piece|] == b[0];
    }
    if |a| > 0 {
      assert s[|a| - 1] == a[|a| - 1];
    }
  }

  /** The legacy string is not injective: a value holding `&` and `=` reads
      like two fields. `{a: "1&b=2"}` and `{a: "1", b: "2"}` get the same
      string and hence the same signature. */
  lemma LegacyStringCollides(secret: string, H: Hasher)
    ensures var one := map["a" := Str("1&b=2")];
            var two := map["a" := Str("1"), "b" := Str("2")];
            && one != two
            && LegacyString(one) == LegacyString(two) == "a=1&b=2"
            && GenerateSignature(one, secret, H) == GenerateSignature(two, secret, H)
  {
    LegacyOneField();
    LegacyTwoFields();
    assert map["a" := Str("1&b=2")]["a"] != map["a" := Str("1"), "b" := Str("2")]["a"];
  }

  lemma LegacyOneField()
    ensures LegacyString(map["a" := Str("1&b=2")]) == "a=1&b=2"
  {
    var one := map["a" := Str("1&b=2")];
    LegacyOfOne(one, "a");
    assert LegacyPair("a", Str("1&b=2")) == "a=1&b=2";
  }

  lemma LegacyTwoFields()
    ensures LegacyString(map["a" := Str("1"), "b" := Str("2")]) == "a=1&b=2"
  {
    assert Below("a", "b");
    LegacyOfTwoStrings("a", "1", "b", "2");
    LiteralJoin();
  }

  lemma LegacyOfTwoStrings(k1: string, v1: string, k2: string, v2: string)
    requires Below(k1, k2)
    ensures LegacyString(map[k1 := Str(v1), k2 := Str(v2)]) == k1 + "=" + v1 + "&" + k2 + "=" + v2
  {
    var f := map[k1 := Str(v1), k2 := Str(v2)];
    BelowIrreflexive(k1);
    assert f.Keys == {k1, k2};
    assert f[k1] == Str(v1) && f[k2] == Str(v2);
    LegacyOfTwo(f, k1, k2);
    LiteralPair(k1, v1);
    LiteralPair(k2, v2);
    Reassociate(k1 + "=" + v1 + "&", k2, "=", v2);
  }

  lemma Reassociate(a: string, b: string, c: string, d: string)
    ensures a + (b + c + d) == a + b + c + d
  {
  }

  lemma LiteralJoin()
    ensures "a" + "=" + "1" + "&" + "b" + "=" + "2" == "a=1&b=2"
  {
  }

  lemma LiteralPair(k: string, v: string)
    ensures LegacyPair(k, Str(v)) == k + "=" + v
  {
  }

  lemma LegacyOfOne(f: FieldMap, k: string)
    requires f.Keys == {k}
    ensures LegacyString(f) == LegacyPair(k, f[k])
  {
    StrictlyAscendingUnique(SortedKeys(f.Keys), [k]);
    assert LegacyPairs(f, [k]) == [LegacyPair(k, f[k])];
  }

  lemma LegacyOfTwo(f: FieldMap, k1: string, k2: string)
    requires f.Keys == {k1, k2} && Below(k1, k2)
    ensures LegacyString(f) == LegacyPair(k1, f[k1]) + "&" + LegacyPair(k2, f[k2])
  {
    SortedPair(f.Keys, k1, k2);
    var ps := LegacyPairs(f, [k1, k2]);
    assert ps == [LegacyPair(k1, f[k1]), LegacyPair(k2, f[k2])];
    JoinOfTwo(ps[0], ps[1], '&');
  }

  lemma SortedPair(s: set<string>, k1: string, k2: string)
    requires s == {k1, k2} && Below(k1, k2)
    ensures SortedKeys(s) == [k1, k2]
  {
    StrictlyAscendingUnique(SortedKeys(s), [k1, k2]);
  }

  lemma JoinOfTwo(a: string, b: string, sep: char)
    ensures Join([a, b], sep) == a + [sep] + b
  {
    assert [a, b][1..] == [b];
  }

  /** No `&` or `=` in any name and no `&` in any value. */
  predicate PlainFields(f: FieldMap) {
    forall k :: k in f ==> '&' !in k && '=' !in k && '&' !in ToJsString(f[k])
  }

  /** With `&` and `=` kept out of names and values, the legacy string does
      determine the fields. */
  lemma LegacyStringInjectiveOnPlainText(f1: FieldMap, f2: FieldMap)
    requires PlainFields(f1) && PlainFields(f2)
    requires LegacyString(f1) == LegacyString(f2)
    ensures f1.Keys == f2.Keys
    ensures forall k :: k in f1 ==> ToJsString(f1[k]) == ToJsString(f2[k])
  {
    var ks1 := SortedKeys(f1.Keys);
    var ks2 := SortedKeys(f2.Keys);
    PairsAgree(f1, f2, ks1, ks2);
    SameSortedKeys(f1.Keys, f2.Keys);
  }

  /** Equal joins of plain pairs have the same keys and values, pair by pair. */
  lemma PairsAgree(f1: FieldMap, f2: FieldMap, ks1: seq<string>, ks2: seq<string>)
    requires forall i :: 0 <= i < |ks1| ==> ks1[i] in f1
    requires forall i :: 0 <= i < |ks2| ==> ks2[i] in f2
    requires PlainFields(f1) && PlainFields(f2)
    requires Join(LegacyPairs(f1, ks1), '&') == Join(LegacyPairs(f2, ks2), '&')
    ensures ks1 == ks2
    ensures forall k :: k in ks1 ==> ToJsString(f1[k]) == ToJsString(f2[k])
  {
    var ps1 := LegacyPairs(f1, ks1);
    var ps2 := LegacyPairs(f2, ks2);
    PlainPairs(f1, ks1);
    PlainPairs(f2, ks2);
    if |ps1| > 0 && |ps2| > 0 {
      JoinInjective(ps1, ps2, '&');
      forall i | 0 <= i < |ks1|
        ensures ks1[i] == ks2[i] && ToJsString(f1[ks1[i]]) == ToJsString(f2[ks2[i]])
      {
        SamePair(ks1[i], f1[ks1[i]], ks2[i], f2[ks2[i]]);
      }
    } else if |ps1| > 0 {
      JoinStartsWithFirst(ps1, '&');
    } else if |ps2| > 0 {
      JoinStartsWithFirst(ps2, '&');
    }
  }

  lemma SamePair(k1: string, v1: Value, k2: string, v2: Value)
    requires '=' !in k1 && '=' !in k2 && LegacyPair(k1, v1) == LegacyPair(k2, v2)
    ensures k1 == k2 && ToJsString(v1) == ToJsString(v2)
  {
    FirstSeparator(k1, ToJsString(v1), k2, ToJsString(v2), '=');
  }

  lemma PlainPairs(f: FieldMap, keys: seq<string>)
    requires forall i :: 0 <= i < |keys| ==> keys[i] in f
    requires PlainFields(f)
    ensures forall i :: 0 <= i < |keys| ==> '&' !in LegacyPairs(f, keys)[i]
  {
    var ps := LegacyPairs(f, keys);
    forall i | 0 <= i < |keys|
      ensures '&' !in ps[i]
    {
      assert ps[i] == keys[i] + "=" + ToJsString(f[keys[i]]);
    }
  }

  /** The legacy and the current canonical strings can differ: a space in a
      value is kept raw by the legacy string but becomes `+`. */
  lemma LegacyDiffersFromCanonical()
    ensures var f := map["a" := Str(" ")];
            LegacyString(f) == "a= " && CanonicalQuery(f) == "a=+"
  {
    var f := map["a" := Str(" ")];
    assert f.Keys == {"a"};
    StrictlyAscendingUnique(SortedKeys({"a"}), ["a"]);
    assert LegacyPair("a", f["a"]) == "a= ";
    assert LegacyPairs(f, ["a"]) == ["a= "];
    assert EncodedPairs(f, ["a"]) == [EncodedPair("a", Str(" "))];
  }
}
