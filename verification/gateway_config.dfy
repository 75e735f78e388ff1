/** The static fields of `Gateway` (src/service/Gateway.ts) that the
    preparer and the verifier read, passed as an immutable record. */
module GatewayConfig {
  import opened JsValues

  /** `merchantPwd` is read through `(Gateway as any)` but never declared,
      so by default it reads as undefined. */
  datatype Config = Config(
    hostedUrl: Value,
    directUrl: Value,
    merchantID: Value,
    merchantSecret: Value,
    merchantPwd: Value)

  /** The initial values of the static fields. */
  const DefaultConfig: Config := Config(
    Str("https://gw1.tponlinepayments.com/paymentform/"),
    Str("https://gw1.tponlinepayments.com/direct/"),
    Null,
    Null,
    Undefined)
}
