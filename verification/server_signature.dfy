/** The signature helpers of the Express server (server.js): the RFC 1738
    encoding of the fields to sign, the SHA-512 hex of that encoding with
    `TP_SIGNATURE_KEY` appended, the `hex|names` token the server attaches to payloads
    it creates, and the check of a `signature` on an incoming callback. */
module ServerSignature {
  import opened Results
  import opened JsValues
  import opened Text
  import opened KeyOrder
  import opened PercentEncoding
  import opened SignatureHelper
  import opened PropertyOrder
  import opened LineBreakEscapes

  /** `qs`'s encoder for one key or value with the RFC 1738 formatter
      applied to its output. */
  type ComponentEncoder = string -> string

  /** `Buffer.from(s, "hex")`. */
  type HexDecoder = string -> seq<Byte>

  /** The `{ encoded, signedFieldNames }` record `encodeForSignature` returns. */
  datatype Encoded = Encoded(encoded: string, signedFieldNames: seq<string>)

  /** `crypto.timingSafeEqual` throws this when the buffers differ in length. */
  datatype CompareError = LengthMismatch

  /** The fields that can be signed: every field except `signature` whose
      value is neither null nor undefined. */
  function Eligible(obj: FieldMap): (d: FieldMap)
    ensures forall k :: k in d <==> k in obj && k != "signature" && !Nullish(obj[k])
    ensures forall k :: k in d ==> d[k] == obj[k]
  {
    map k | k in obj && k != "signature" && !Nullish(obj[k]) :: obj[k]
  }

  /** The eligible fields narrowed to `fieldNames` when a list is given (an
      empty list selects nothing). */
  function Chosen(obj: FieldMap, fieldNames: Option<seq<string>>): (d: FieldMap)
    ensures forall k :: k in d <==> k in Eligible(obj) && (fieldNames.None? || k in fieldNames.value)
    ensures forall k :: k in d ==> d[k] == obj[k]
  {
    var e := Eligible(obj);
    match fieldNames
    case None => e
    case Some(names) => map k | k in e && k in names :: e[k]
  }

  /** The own properties of the object the `reduce` builds from the chosen
      fields. Assigning `acc["__proto__"] = v` runs the `__proto__` setter
      inherited from `Object.prototype`, which ignores a primitive `v`, so
      that field (every value here is a primitive) never becomes a property
      of the object; every other field is copied as it is. */
  function Assigned(d: FieldMap): (r: FieldMap)
    ensures forall k :: k in r <==> k in d && k != "__proto__"
    ensures forall k :: k in r ==> r[k] == d[k]
  {
    d - {"__proto__"}
  }

  /** `qs.stringify` of a flat object: one `key=value` pair per name, in the
      object's enumeration order, values rendered with `String()`. */
  function QsPairs(d: FieldMap, keys: seq<string>, enc: ComponentEncoder): (r: seq<string>)
    requires forall i :: 0 <= i < |keys| ==> keys[i] in d
    ensures |r| == |keys|
    ensures forall i :: 0 <= i < |r| ==> r[i] == enc(keys[i]) + "=" + enc(ToJsString(d[keys[i]]))
  {
    if |keys| == 0 then []
    else [enc(keys[0]) + "=" + enc(ToJsString(d[keys[0]]))] + QsPairs(d, keys[1..], enc)
  }

  lemma StrictlyAscendingIsDistinct(s: seq<string>)
    requires StrictlyAscending(s)
    ensures Distinct(s)
  {
    forall i, j | 0 <= i < j < |s|
      ensures s[i] != s[j]
    {
      BelowIrreflexive(s[i]);
    }
  }

  lemma SortedWithoutIndices(d: FieldMap, sorted: seq<string>)
    requires forall i :: 0 <= i < |sorted| ==> sorted[i] in d
    ensures (forall k :: k in d ==> !IsArrayIndex(k)) ==> EnumerationOrder(sorted) == sorted
  {
    if forall k :: k in d ==> !IsArrayIndex(k) {
      EnumerationWithoutIndices(sorted);
    }
  }

  /** `Object.keys` of an object whose properties were created in sorted
      order: each property once, and in code-unit order when no name is an
      array index. */
  function SignedNames(d: FieldMap): (names: seq<string>)
    ensures forall k :: k in names <==> k in d
    ensures forall i :: 0 <= i < |names| ==> names[i] in d
    ensures Distinct(names)
    ensures (forall k :: k in d ==> !IsArrayIndex(k)) ==> names == SortedKeys(d.Keys)
  {
    EnumeratedSortedKeys(d);
    EnumerationOrder(SortedKeys(d.Keys))
  }

  lemma EnumeratedSortedKeys(d: FieldMap)
    ensures var names := EnumerationOrder(SortedKeys(d.Keys));
            && (forall k :: k in names <==> k in d)
            && (forall i :: 0 <= i < |names| ==> names[i] in d)
            && Distinct(names)
            && ((forall k :: k in d ==> !IsArrayIndex(k)) ==> names == SortedKeys(d.Keys))
  {
    var sorted := SortedKeys(d.Keys);
    SortedKeysFacts(d);
    SortedWithoutIndices(d, sorted);
  }

  lemma SortedKeysFacts(d: FieldMap)
    ensures var sorted := SortedKeys(d.Keys);
            && Distinct(sorted)
            && (forall k :: k in sorted <==> k in d)
            && (forall i :: 0 <= i < |sorted| ==> sorted[i] in d)
  {
    StrictlyAscendingIsDistinct(SortedKeys(d.Keys));
  }

  /** `encodeForSignature(obj, fieldNames)`. The chosen fields are sorted by
      code units and copied into a fresh object, which drops a `__proto__`
      field; `signedFieldNames` is that object's `Object.keys`, which lists
      array-index names first, so the names are in code-unit order exactly
      when none of them is an array index. The pairs of `encoded` follow
      `signedFieldNames`, and no `%0D` in either case survives the
      line-break normalisation. */
  function EncodeForSignature(obj: FieldMap, fieldNames: Option<seq<string>>, enc: ComponentEncoder): (e: Encoded)
    ensures forall k :: k in e.signedFieldNames <==>
              && k in obj && k != "signature" && k != "__proto__" && !Nullish(obj[k])
              && (fieldNames.None? || k in fieldNames.value)
    ensures Distinct(e.signedFieldNames)
    ensures (forall k :: k in Assigned(Chosen(obj, fieldNames)) ==> !IsArrayIndex(k)) ==>
              e.signedFieldNames == SortedKeys(Assigned(Chosen(obj, fieldNames)).Keys)
    ensures forall i :: 0 <= i < |e.signedFieldNames| ==> e.signedFieldNames[i] in Assigned(Chosen(obj, fieldNames))
    ensures !Occurs(e.encoded, "%0D", true)
    ensures e.encoded == NormalizeEscapedLineBreaks(Join(QsPairs(Assigned(Chosen(obj, fieldNames)), e.signedFieldNames, enc), '&'))
  {
    var d := Assigned(Chosen(obj, fieldNames));
    var names := SignedNames(d);
    SignedFieldMembers(obj, fieldNames, names);
    Encoded(NormalizeEscapedLineBreaks(Join(QsPairs(d, names, enc), '&')), names)
  }

  lemma SignedFieldMembers(obj: FieldMap, fieldNames: Option<seq<string>>, names: seq<string>)
    requires names == SignedNames(Assigned(Chosen(obj, fieldNames)))
    ensures forall k :: k in names <==>
              && k in obj && k != "signature" && k != "__proto__" && !Nullish(obj[k])
              && (fieldNames.None? || k in fieldNames.value)
    ensures Distinct(names)
    ensures (forall k :: k in Assigned(Chosen(obj, fieldNames)) ==> !IsArrayIndex(k)) ==>
              names == SortedKeys(Assigned(Chosen(obj, fieldNames)).Keys)
    ensures forall i :: 0 <= i < |names| ==> names[i] in Assigned(Chosen(obj, fieldNames))
  {
  }

  /** `encoded + TP_SIGNATURE_KEY`: an unset key is appended as "undefined". */
  function KeyText(key: Option<string>): string {
    match key
    case None => "undefined"
    case Some(k) => k
  }

  /** `makeSignatureHex(obj, fieldNames)`. */
  function MakeSignatureHex(obj: FieldMap, fieldNames: Option<seq<string>>, enc: ComponentEncoder, H: Hasher, key: Option<string>): string {
    H(EncodeForSignature(obj, fieldNames, enc).encoded + KeyText(key))
  }

  /** The expected hex depends only on the chosen fields: a list naming the
      same fields in another order or with repeats, a different signature,
      and fields outside the list all leave it unchanged. */
  lemma ExpectedHexIgnoresUnlisted(o1: FieldMap, o2: FieldMap, names1: seq<string>, names2: seq<string>,
                                   enc: ComponentEncoder, H: Hasher, key: Option<string>)
    requires forall k :: k in names1 <==> k in names2
    requires forall k :: k in names1 && k != "signature" ==> Get(o1, k) == Get(o2, k)
    ensures MakeSignatureHex(o1, Some(names1), enc, H, key) == MakeSignatureHex(o2, Some(names2), enc, H, key)
  {
    var d1 := Chosen(o1, Some(names1));
    var d2 := Chosen(o2, Some(names2));
    assert forall k :: k in d1 <==> k in d2 by {
      forall k
        ensures k in d1 <==> k in d2
      {
        if k in names1 && k != "signature" {
          assert Get(o1, k) == Get(o2, k);
        }
      }
    }
    assert d1 == d2;
    SameEncoding(o1, Some(names1), o2, Some(names2), enc);
  }

  /** `makeSignatureWithList(obj)`: the hex over all eligible fields, a `|`,
      then the signed names joined with commas. Split at `|` (as the
      verifier does) the token gives back the hex and the joined names. */
  function MakeSignatureWithList(obj: FieldMap, enc: ComponentEncoder, H: Hasher, key: Option<string>): (r: string)
    ensures var hex := MakeSignatureHex(obj, None, enc, H, key);
            var names := EncodeForSignature(obj, None, enc).signedFieldNames;
            '|' !in hex ==> FirstSegment(r, '|') == hex && AfterFirst(r, '|') == Join(names, ',')
    ensures var hex := MakeSignatureHex(obj, None, enc, H, key);
            var names := EncodeForSignature(obj, None, enc).signedFieldNames;
            ('|' !in hex && forall k :: k in Eligible(obj) ==> '|' !in k) ==>
              Split(r, '|') == [hex, Join(names, ',')]
  {
    var names := EncodeForSignature(obj, None, enc).signedFieldNames;
    var hex := MakeSignatureHex(obj, None, enc, H, key);
    WithListPieces(obj, hex, names, enc);
    hex + "|" + Join(names, ',')
  }

  lemma WithListPieces(obj: FieldMap, hex: string, names: seq<string>, enc: ComponentEncoder)
    requires names == EncodeForSignature(obj, None, enc).signedFieldNames
    ensures '|' !in hex ==>
              FirstSegment(hex + "|" + Join(names, ','), '|') == hex && AfterFirst(hex + "|" + Join(names, ','), '|') == Join(names, ',')
    ensures ('|' !in hex && forall k :: k in Eligible(obj) ==> '|' !in k) ==>
              Split(hex + "|" + Join(names, ','), '|') == [hex, Join(names, ',')]
  {
    TokenFront(hex, Join(names, ','));
    if '|' !in hex && forall k :: k in Eligible(obj) ==> '|' !in k {
      forall i | 0 <= i < |names|
        ensures '|' !in names[i]
      {
        assert names[i] in Eligible(obj);
      }
      TokenPieces(hex, names);
    }
  }

  lemma TokenFront(hex: string, list: string)
    ensures '|' !in hex ==> FirstSegment(hex + "|" + list, '|') == hex && AfterFirst(hex + "|" + list, '|') == list
  {
    if '|' !in hex {
      TokenSplit(hex + "|" + list, hex, list);
    }
  }

  lemma TokenPieces(hex: string, names: seq<string>)
    ensures ('|' !in hex && forall i :: 0 <= i < |names| ==> '|' !in names[i]) ==>
              Split(hex + "|" + Join(names, ','), '|') == [hex, Join(names, ',')]
  {
    if '|' !in hex && forall i :: 0 <= i < |names| ==> '|' !in names[i] {
      NotInJoin(names, ',', '|');
      assert Join([hex, Join(names, ',')], '|') == hex + "|" + Join(names, ',');
      SplitJoin([hex, Join(names, ',')], '|');
    }
  }

  /** `crypto.timingSafeEqual(a, b)`: throws when the lengths differ,
      otherwise reports byte-wise equality. */
  function TimingSafeEqual(a: seq<Byte>, b: seq<Byte>): (r: Result<bool, CompareError>)
    ensures r.Failure? <==> |a| != |b|
    ensures r.Success? ==> (r.value <==> a == b)
  {
    if |a| != |b| then Failure(LengthMismatch) else Success(a == b)
  }

  /** Reference reading of the fields a signature token lists: the text
      between the first and the second `|`, parsed as a comma list; absent
      or empty means "all fields". */
  function ListedFields(token: string): Option<seq<string>> {
    var list := FirstSegment(AfterFirst(token, '|'), '|');
    if list == "" then None else Some(ParseNameList(list, ','))
  }

  /** The first two pieces of `s.split(sep)`, the second read as "" when absent. */
  lemma SplitFront(s: string, sep: char)
    ensures Split(s, sep)[0] == FirstSegment(s, sep)
    ensures (if |Split(s, sep)| >= 2 then Split(s, sep)[1] else "") == FirstSegment(AfterFirst(s, sep), sep)
  {
    var parts := Split(s, sep);
    if |parts| >= 2 {
      SplitJoin(parts[1..], sep);
    } else {
      assert Split("", sep) == [""];
    }
  }

  /** `verifySignatureFromIncoming(obj)`. It accepts exactly when `signature`
      is a non-empty string and the bytes of its first `|`-piece, read as
      hex, equal those of the expected hex over the listed fields (all
      eligible fields when no list is given); a length mismatch, which makes
      the comparison throw, is a rejection. */
  function VerifySignatureFromIncoming(obj: FieldMap, enc: ComponentEncoder, H: Hasher, key: Option<string>, hexDecode: HexDecoder): (ok: bool)
    ensures ok <==>
              && Get(obj, "signature").Str? && Get(obj, "signature").s != ""
              && var token := Get(obj, "signature").s;
                 hexDecode(FirstSegment(token, '|')) == hexDecode(MakeSignatureHex(obj, ListedFields(token), enc, H, key))
  {
    var sig := Get(obj, "signature");
    if !Truthy(sig) || !sig.Str? then false
    else
      var parts := Split(sig.s, '|');
      var list := if |parts| >= 2 then parts[1] else "";
      var fields := if list != "" then Some(ParseNameList(list, ',')) else None;
      SplitFront(sig.s, '|');
      var expected := MakeSignatureHex(obj, fields, enc, H, key);
      match TimingSafeEqual(hexDecode(parts[0]), hexDecode(expected))
      case Success(same) => same
      case Failure(_) => false
  }

  /** Names a token's comma list carries unchanged: non-empty, trimmed, and
      free of `,` and `|`. */
  predicate TokenNames(d: FieldMap) {
    forall k :: k in d ==> k != "" && Trimmed(k) && ',' !in k && '|' !in k
  }

  /** Setting `signature` does not change the eligible fields. */
  lemma EligibleIgnoresSignature(obj: FieldMap, v: Value)
    ensures Eligible(obj["signature" := v]) == Eligible(obj)
  {
    assert Eligible(obj["signature" := v]).Keys == Eligible(obj).Keys;
  }

  /** A field named `__proto__` is never signed: whatever its value, or
      whether it is there at all, the encoding and the hex stay the same. */
  lemma ProtoFieldNeverSigned(obj: FieldMap, v: Value, fieldNames: Option<seq<string>>,
                              enc: ComponentEncoder, H: Hasher, key: Option<string>)
    ensures EncodeForSignature(obj["__proto__" := v], fieldNames, enc) == EncodeForSignature(obj, fieldNames, enc)
    ensures MakeSignatureHex(obj["__proto__" := v], fieldNames, enc, H, key) == MakeSignatureHex(obj, fieldNames, enc, H, key)
  {
    SameAssignedFields(obj["__proto__" := v], obj, fieldNames, fieldNames);
    SameEncoding(obj["__proto__" := v], fieldNames, obj, fieldNames, enc);
  }

  /** The encoding depends only on the fields that are assigned. */
  lemma SameEncoding(o1: FieldMap, f1: Option<seq<string>>, o2: FieldMap, f2: Option<seq<string>>, enc: ComponentEncoder)
    requires Assigned(Chosen(o1, f1)) == Assigned(Chosen(o2, f2))
    ensures EncodeForSignature(o1, f1, enc) == EncodeForSignature(o2, f2, enc)
  {
  }

  lemma SameAssignedFields(o1: FieldMap, o2: FieldMap, f1: Option<seq<string>>, f2: Option<seq<string>>)
    requires forall k :: k in Assigned(Chosen(o1, f1)) <==> k in Assigned(Chosen(o2, f2))
    requires forall k :: k in Assigned(Chosen(o1, f1)) ==> o1[k] == o2[k]
    ensures Assigned(Chosen(o1, f1)) == Assigned(Chosen(o2, f2))
  {
    assert Assigned(Chosen(o1, f1)).Keys == Assigned(Chosen(o2, f2)).Keys;
  }

  /** A token naming every eligible field (a `__proto__` field may be left
      out, as it is never signed) recomputes the full-object hex. */
  lemma ListedAllFields(obj: FieldMap, names: seq<string>, enc: ComponentEncoder, H: Hasher, key: Option<string>)
    requires forall k :: k != "__proto__" ==> (k in names <==> k in Eligible(obj))
    ensures MakeSignatureHex(obj, Some(names), enc, H, key) == MakeSignatureHex(obj, None, enc, H, key)
  {
    SameAssignedFields(obj, obj, Some(names), None);
    SameEncoding(obj, Some(names), obj, None, enc);
  }

  /** The list of a token made from `names` parses back to `names`, or
      to "all fields" when there are none. */
  lemma ListedOwnNames(hex: string, names: seq<string>)
    requires '|' !in hex
    requires forall i :: 0 <= i < |names| ==> names[i] != "" && Trimmed(names[i]) && ',' !in names[i] && '|' !in names[i]
    ensures ListedFields(hex + "|" + Join(names, ',')) == if |names| == 0 then None else Some(names)
  {
    var list := Join(names, ',');
    NotInJoin(names, ',', '|');
    TokenSplit(hex + "|" + list, hex, list);
    if |names| > 0 {
      JoinStartsWithFirst(names, ',');
      ParseJoinedNames(names, ',');
    }
  }

  /** The expected hex for an incoming object carrying the token, given the
      token's pieces: it is the hex the token was made from. */
  lemma ExpectedForOwnToken(obj: FieldMap, hex: string, names: seq<string>, enc: ComponentEncoder, H: Hasher, key: Option<string>)
    requires TokenNames(Eligible(obj))
    requires names == EncodeForSignature(obj, None, enc).signedFieldNames
    requires hex == MakeSignatureHex(obj, None, enc, H, key) && '|' !in hex
    ensures var token := hex + "|" + Join(names, ',');
            MakeSignatureHex(obj["signature" := Str(token)], ListedFields(token), enc, H, key) == hex
  {
    var token := hex + "|" + Join(names, ',');
    SignedNamesTravel(obj, names, enc);
    ListedOwnNames(hex, names);
    OwnTokenChoosesAll(obj, Str(token), ListedFields(token), names);
    SameEncoding(obj["signature" := Str(token)], ListedFields(token), obj, None, enc);
  }

  /** The names `makeSignatureWithList` lists are the assigned eligible
      fields, and each can travel in a comma list. */
  lemma SignedNamesTravel(obj: FieldMap, names: seq<string>, enc: ComponentEncoder)
    requires TokenNames(Eligible(obj))
    requires names == EncodeForSignature(obj, None, enc).signedFieldNames
    ensures forall i :: 0 <= i < |names| ==> names[i] != "" && Trimmed(names[i]) && ',' !in names[i] && '|' !in names[i]
    ensures forall k :: k in names <==> k in Eligible(obj) && k != "__proto__"
  {
    var e := Eligible(obj);
    forall k
      ensures k in names <==> k in e && k != "__proto__"
    {
      assert k in e <==> k in obj && k != "signature" && !Nullish(obj[k]);
    }
    forall i | 0 <= i < |names|
      ensures names[i] != "" && Trimmed(names[i]) && ',' !in names[i] && '|' !in names[i]
    {
      assert names[i] in e;
    }
  }

  lemma OwnTokenChoosesAll(obj: FieldMap, v: Value, fields: Option<seq<string>>, names: seq<string>)
    requires forall k :: k in names <==> k in Eligible(obj) && k != "__proto__"
    requires fields == if |names| == 0 then None else Some(names)
    ensures Assigned(Chosen(obj["signature" := v], fields)) == Assigned(Chosen(obj, None))
  {
    EligibleIgnoresSignature(obj, v);
    SameAssignedFields(obj["signature" := v], obj, fields, None);
  }

  /** Round trip: an object carrying the token `makeSignatureWithList` made
      for it verifies, provided its names can travel in the list and the
      hex has no `|` (a hex digest never has). */
  lemma SignedWithListVerifies(obj: FieldMap, enc: ComponentEncoder, H: Hasher, key: Option<string>, hexDecode: HexDecoder)
    requires TokenNames(Eligible(obj))
    requires '|' !in MakeSignatureHex(obj, None, enc, H, key)
    ensures var token := MakeSignatureWithList(obj, enc, H, key);
            VerifySignatureFromIncoming(obj["signature" := Str(token)], enc, H, key, hexDecode)
  {
    var hex := MakeSignatureHex(obj, None, enc, H, key);
    var names := EncodeForSignature(obj, None, enc).signedFieldNames;
    var token := MakeSignatureWithList(obj, enc, H, key);
    assert token == hex + "|" + Join(names, ',');
    TokenSplit(token, hex, Join(names, ','));
    ExpectedForOwnToken(obj, hex, names, enc, H, key);
    AcceptsMatchingHex(obj["signature" := Str(token)], token, enc, H, key, hexDecode);
  }

  /** A non-empty token whose first piece is the expected hex is accepted. */
  lemma AcceptsMatchingHex(obj: FieldMap, token: string, enc: ComponentEncoder, H: Hasher, key: Option<string>, hexDecode: HexDecoder)
    requires Get(obj, "signature") == Str(token) && token != ""
    requires MakeSignatureHex(obj, ListedFields(token), enc, H, key) == FirstSegment(token, '|')
    ensures VerifySignatureFromIncoming(obj, enc, H, key, hexDecode)
  {
  }

  /** Only the text up to the second `|` is read: anything after it does
      not change the verdict. */
  lemma VerifyReadsTwoPieces(obj: FieldMap, hex: string, list: string, tail: string,
                             enc: ComponentEncoder, H: Hasher, key: Option<string>, hexDecode: HexDecoder)
    requires '|' !in hex && '|' !in list
    ensures VerifySignatureFromIncoming(obj["signature" := Str(hex + "|" + list + "|" + tail)], enc, H, key, hexDecode)
         == VerifySignatureFromIncoming(obj["signature" := Str(hex + "|" + list)], enc, H, key, hexDecode)
  {
    var t1 := hex + "|" + list + "|" + tail;
    var t2 := hex + "|" + list;
    assert t1 == hex + "|" + (list + "|" + tail);
    TokenSplit(t1, hex, list + "|" + tail);
    TokenSplit(list + "|" + tail, list, tail);
    TokenSplit(t2, hex, list);
    EligibleIgnoresSignature(obj, Str(t1));
    EligibleIgnoresSignature(obj, Str(t2));
    SameHexForSameList(obj, t1, t2, ListedFields(t2), enc, H, key);
  }

  lemma SameHexForSameList(obj: FieldMap, t1: string, t2: string, fields: Option<seq<string>>,
                           enc: ComponentEncoder, H: Hasher, key: Option<string>)
    requires Eligible(obj["signature" := Str(t1)]) == Eligible(obj["signature" := Str(t2)])
    ensures MakeSignatureHex(obj["signature" := Str(t1)], fields, enc, H, key)
         == MakeSignatureHex(obj["signature" := Str(t2)], fields, enc, H, key)
  {
    assert Chosen(obj["signature" := Str(t1)], fields) == Chosen(obj["signature" := Str(t2)], fields);
    SameEncoding(obj["signature" := Str(t1)], fields, obj["signature" := Str(t2)], fields, enc);
  }

  /** An empty list after the `|` means "all fields", as no `|` at all
      does (unlike the TypeScript signer, where it selects none). */
  lemma EmptyListMeansAllFields(obj: FieldMap, hex: string,
                                enc: ComponentEncoder, H: Hasher, key: Option<string>, hexDecode: HexDecoder)
    requires hex != "" && '|' !in hex
    ensures VerifySignatureFromIncoming(obj["signature" := Str(hex + "|")], enc, H, key, hexDecode)
         == VerifySignatureFromIncoming(obj["signature" := Str(hex)], enc, H, key, hexDecode)
  {
    var t1 := hex + "|";
    assert t1 == hex + "|" + "";
    TokenSplit(t1, hex, "");
    assert AfterFirst(hex, '|') == "";
    assert Split("", '|') == [""];
    EligibleIgnoresSignature(obj, Str(t1));
    EligibleIgnoresSignature(obj, Str(hex));
    SameHexForSameList(obj, t1, hex, None, enc, H, key);
  }
}
