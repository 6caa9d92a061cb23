/** The one-time-password primitives of the `otplib` library, left abstract. */
module Passcode {

  type Secret = string
  type Token = string

  /** `generate` is `hotp.generate(secret, counter)`: some deterministic function of the
      secret and the counter. `timeCheck` is `authenticator.check(token, secret)`, which
      reads the clock itself; here the instant (milliseconds) is passed explicitly. */
  datatype Codec = Codec(
    generate: (Secret, int) -> Token,
    timeCheck: (Token, Secret, int) -> bool)

  /** `hotp.check`: the token is the one generated for this secret and counter. */
  predicate HotpCheck(codec: Codec, token: Token, secret: Secret, counter: int) {
    token == codec.generate(secret, counter)
  }
}
