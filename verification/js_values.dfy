/** The JavaScript scalar values carried by the gateway's field maps, with the
    two coercions the signing code relies on: truthiness (`if (x)`, `!x`) and
    `String(x)` (also what template literals and `+` on strings use). */
module JsValues {
  import opened Results

  /** Largest integer a JS number holds exactly (Number.MAX_SAFE_INTEGER). */
  const MaxSafeInteger: int := 0x1F_FFFF_FFFF_FFFF

  /** Integral JS numbers in the exactly representable range. */
  type SafeInt = n: int | -MaxSafeInteger <= n <= MaxSafeInteger

  /** A field value: string, integral number, boolean, null or undefined. */
  datatype Value = Str(s: string) | Num(n: SafeInt) | Bool(b: bool) | Null | Undefined

  /** A plain JS object used as a record of fields. */
  type FieldMap = map<string, Value>

  /** The state of a caller's object after an operation that mutates it in
      place and may throw: `after` is what the caller sees either way. */
  datatype Mutation<+T, +E> = Mutation(outcome: Result<T, E>, after: Option<FieldMap>)

  /** `v === null || v === undefined`, the test behind `??`. */
  predicate Nullish(v: Value) {
    v.Null? || v.Undefined?
  }

  /** JS truthiness (NaN and -0 are not representable here). */
  predicate Truthy(v: Value) {
    match v
    case Str(s) => s != ""
    case Num(n) => n != 0
    case Bool(b) => b
    case Null => false
    case Undefined => false
  }

  /** Property read `obj[k]`: a missing key reads as undefined. */
  function Get(m: FieldMap, k: string): (v: Value)
    ensures k !in m ==> v.Undefined?
    ensures k in m ==> v == m[k]
  {
    if k in m then m[k] else Undefined
  }

  /** Assigning a new property and deleting it again restores the object. */
  lemma SetThenDelete(m: FieldMap, k: string, v: Value)
    requires k !in m
    ensures m[k := v] - {k} == m
  {
    assert (m[k := v] - {k}).Keys == m.Keys;
  }

  /** Deleting a property and assigning its old value back restores the object. */
  lemma DeleteThenSet(m: FieldMap, k: string)
    requires k in m
    ensures (m - {k})[k := m[k]] == m
  {
    assert ((m - {k})[k := m[k]]).Keys == m.Keys;
  }

  /** `a ?? b` */
  function Coalesce(a: Value, b: Value): (v: Value)
    ensures Nullish(a) ==> v == b
    ensures !Nullish(a) ==> v == a
  {
    if Nullish(a) then b else a
  }

  /** An optional string (a `string | null` configuration slot) as a value. */
  function FromOption(o: Option<string>): (v: Value)
    ensures o.None? <==> v.Null?
    ensures o.Some? ==> v == Str(o.value)
  {
    match o
    case None => Null
    case Some(s) => Str(s)
  }

  predicate IsDigit(c: char) {
    '0' <= c <= '9'
  }

  predicate AllDigits(s: string) {
    forall i :: 0 <= i < |s| ==> IsDigit(s[i])
  }

  function DigitChar(d: int): (c: char)
    requires 0 <= d < 10
    ensures IsDigit(c) && c as int - '0' as int == d
  {
    ('0' as int + d) as char
  }

  /** Reference reading of a digit string as a natural number. */
  function DigitsValue(s: string): nat
    requires AllDigits(s)
  {
    if |s| == 0 then 0 else DigitsValue(s[..|s| - 1]) * 10 + (s[|s| - 1] as int - '0' as int)
  }

  /** Shortest decimal rendering of a natural number, as Number.prototype.toString(10)
      produces it for integers below 10^21. */
  function NatToDecimal(n: nat): (r: string)
    ensures |r| >= 1 && AllDigits(r)
    ensures r[0] == '0' ==> n == 0 && r == "0"
    decreases n
  {
    if n < 10 then [DigitChar(n)] else NatToDecimal(n / 10) + [DigitChar(n % 10)]
  }

  lemma {:induction false} NatToDecimalValue(n: nat)
    ensures DigitsValue(NatToDecimal(n)) == n
    decreases n
  {
    if n >= 10 {
      var r := NatToDecimal(n);
      var p := NatToDecimal(n / 10);
      assert r[..|r| - 1] == p;
      NatToDecimalValue(n / 10);
    }
  }

  /** `String(v)`: decimal for numbers, "true"/"false", and the literal words
      "null" and "undefined". */
  function ToJsString(v: Value): (r: string)
    ensures v.Str? ==> r == v.s
    ensures v.Bool? ==> r == (if v.b then "true" else "false")
    ensures v.Null? ==> r == "null"
    ensures v.Undefined? ==> r == "undefined"
    ensures v.Num? && v.n >= 0 ==> |r| >= 1 && AllDigits(r) && DigitsValue(r) == v.n && (r[0] == '0' ==> r == "0")
    ensures v.Num? && v.n < 0 ==> |r| >= 2 && r[0] == '-' && AllDigits(r[1..]) && DigitsValue(r[1..]) == -v.n && r[1] != '0'
  {
    match v
    case Str(s) => s
    case Num(n) =>
      if n < 0 then
        NatToDecimalValue(-n);
        "-" + NatToDecimal(-n)
      else
        NatToDecimalValue(n);
        NatToDecimal(n)
    case Bool(b) => if b then "true" else "false"
    case Null => "null"
    case Undefined => "undefined"
  }

  /** String() of a truthy value is never empty, so a truthy signature stays truthy. */
  lemma TruthyStringNonEmpty(v: Value)
    requires Truthy(v)
    ensures ToJsString(v) != ""
  {
  }
}
