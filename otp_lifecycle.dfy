/** The OTP service (otp.service.ts) as functions of the table contents, the clock
    reading and the parameters: what each operation computes and what the table
    becomes. The classes in otp_service.dfy are proved to behave as these say. */
module OtpLifecycle {
  import opened Wrappers
  import opened OtpEntity
  import opened OtpStore
  import opened Passcode
  import EmailTypes

  /** The fields of a user the service reads. */
  datatype User = User(id: nat, otpSecret: Secret, phoneNumber: Option<string>)

  /** The free-form send context, an object of template variables; its values are opaque
      to the service and are modelled as strings. */
  type Context = map<string, string>

  /** The value of an `OtpSendParams` object; every field but the purpose is optional. */
  datatype SendParams = SendParams(
    purpose: OtpPurpose,
    otpMethod: Option<OtpMethod>,
    meta: Option<OtpMeta>,
    context: Option<Context>)

  /** `setDefaultForOtpSendParams`: a missing method becomes Email and a missing
      context becomes the empty object; supplied values are kept. */
  function WithDefaults(p: SendParams): (r: SendParams)
    ensures r.purpose == p.purpose && r.meta == p.meta
    ensures r.otpMethod.Some? && r.context.Some?
    ensures p.otpMethod.Some? ==> r.otpMethod == p.otpMethod
    ensures p.otpMethod.None? ==> r.otpMethod == Some(Email)
    ensures p.context.Some? ==> r.context == p.context
    ensures p.context.None? ==> r.context == Some(map[])
  {
    p.(otpMethod := Some(p.otpMethod.GetOr(Email)), context := Some(p.context.GetOr(map[])))
  }

  /** The method the service acts on: the supplied one, or Email. */
  function MethodOf(p: SendParams): OtpMethod {
    p.otpMethod.GetOr(Email)
  }

  /** The tuple a call addresses. */
  function KeyOf(user: User, p: SendParams): OtpKey {
    OtpKey(user.id, MethodOf(p), p.purpose)
  }

  /** The meta stored on creation: the supplied one, or the column default. */
  function MetaOf(p: SendParams): OtpMeta {
    p.meta.GetOr(EmptyMeta)
  }

  /** The inverse of `EmailTypeFor` on the four OTP templates. */
  function PurposeOfEmailType(t: EmailTypes.EmailType): OtpPurpose {
    match t
    case Invitation => ConfirmEmail
    case SetPassword => SetPassword
    case PasswordReset => ForgetPassword
    case ChangeEmail => ChangeEmail
  }

  /** `getEmailType`: the template of each purpose; each purpose has its own. */
  function EmailTypeFor(purpose: OtpPurpose): (t: EmailTypes.EmailType)
    ensures PurposeOfEmailType(t) == purpose
  {
    match purpose
    case ConfirmEmail => EmailTypes.Invitation
    case SetPassword => EmailTypes.SetPassword
    case ForgetPassword => EmailTypes.PasswordReset
    case ChangeEmail => EmailTypes.ChangeEmail
  }

  /** Length of one counter step, in milliseconds. */
  const CounterStepMs: nat := 2000

  /** `Math.round(ms / 1000 / 2)`: the number of the 2-second mark nearest to `nowMs`,
      a tie going to the later mark. */
  function HotpCounter(nowMs: nat): (c: nat)
    ensures CounterStepMs * c <= nowMs + CounterStepMs / 2 < CounterStepMs * c + CounterStepMs
  {
    (nowMs + 1000) / 2000
  }

  /** `addSeconds(now, ttl)` in milliseconds. */
  function ExpiresAt(nowMs: nat, ttlSeconds: nat): nat {
    nowMs + ttlSeconds * 1000
  }

  /** The row `generateOtp` creates. */
  function NewOtp(key: OtpKey, counter: nat, expiresAt: nat, meta: OtpMeta): (r: Otp)
    ensures IsActiveFor(r, key)
    ensures r.hotpCounter == counter && r.expiresAt == expiresAt && r.meta == meta
  {
    Otp(key.userId, counter, expiresAt, key.otpMethod, key.purpose, Active, meta)
  }

  /** The table after the Active row of `key` that `findOne` returns, if any, is marked `status`. */
  function MarkActive(s: seq<Otp>, key: OtpKey, status: OtpStatus): seq<Otp> {
    match FirstMatch(s, Query(key, Active))
    case None => s
    case Some(i) => s[i := s[i].(status := status)]
  }

  /** The table after `generateOtp`: the previous Active row skipped, the new row appended. */
  function AfterGenerate(s: seq<Otp>, key: OtpKey, counter: nat, expiresAt: nat, meta: OtpMeta): seq<Otp> {
    MarkActive(s, key, Skipped) + [NewOtp(key, counter, expiresAt, meta)]
  }

  /** The check `verifyOtp` performs once an unexpired Active row is found. */
  predicate CodeCheck(codec: Codec, key: OtpKey, r: Otp, secret: Secret, token: Token, nowMs: nat) {
    if key.otpMethod == Authenticator then codec.timeCheck(token, secret, nowMs)
    else HotpCheck(codec, token, secret, r.hotpCounter)
  }

  /** The answer of `verifyOtp`: false without an Active row or after its expiry instant. */
  predicate Verify(s: seq<Otp>, key: OtpKey, secret: Secret, token: Token, nowMs: nat, codec: Codec) {
    match FirstMatch(s, Query(key, Active))
    case None => false
    case Some(i) => nowMs <= s[i].expiresAt && CodeCheck(codec, key, s[i], secret, token, nowMs)
  }

  /** The table after `setOtpUsed`, or None where the source dereferences a missing row. */
  function AfterSetUsed(s: seq<Otp>, key: OtpKey): Option<seq<Otp>> {
    if FirstMatch(s, Query(key, Active)).None? then None else Some(MarkActive(s, key, Used))
  }

  /** The error `setOtpUsed` raises. */
  datatype OtpError = NoActiveOtp

  /** The send context: the caller's context with `token` set to the passcode. */
  function SendContext(context: Context, token: Token): (r: Context)
    ensures r.Keys == context.Keys + {"token"}
    ensures r["token"] == token
    ensures forall k :: k in context && k != "token" ==> r[k] == context[k]
  {
    context["token" := token]
  }

  const SmsPrefix: string := "Your password: "

  /** The SMS body; the passcode is what follows the fixed prefix. */
  function SmsBody(token: Token): (b: string)
    ensures |b| == |SmsPrefix| + |token|
    ensures b[..|SmsPrefix|] == SmsPrefix && b[|SmsPrefix|..] == token
  {
    SmsPrefix + token
  }

  /** What `send` hands to a transport. */
  datatype Delivery =
    | EmailDelivery(recipient: nat, emailType: EmailTypes.EmailType, context: Context)
    | SmsDelivery(phoneNumber: Option<string>, body: string)
    | SmsNotConfigured(body: string)
    | NoDelivery

  /** The dispatch at the end of `send`: email for Email, SMS for Sms (only logged when no
      SMS client is configured) and nothing for Authenticator. */
  function Dispatch(user: User, purpose: OtpPurpose, m: OtpMethod, context: Context, token: Token,
                    smsConfigured: bool): (d: Delivery)
    ensures d.EmailDelivery? <==> m == Email
    ensures (d.SmsDelivery? || d.SmsNotConfigured?) <==> m == Sms
    ensures d.NoDelivery? <==> m == Authenticator
    ensures d.EmailDelivery? ==>
      && d.recipient == user.id
      && PurposeOfEmailType(d.emailType) == purpose
      && d.context == SendContext(context, token)
    ensures d.SmsDelivery? ==> smsConfigured && d.phoneNumber == user.phoneNumber && d.body == SmsBody(token)
    ensures d.SmsNotConfigured? ==> !smsConfigured && d.body == SmsBody(token)
  {
    match m
    case Email => EmailDelivery(user.id, EmailTypeFor(purpose), SendContext(context, token))
    case Sms =>
      if smsConfigured then SmsDelivery(user.phoneNumber, SmsBody(token)) else SmsNotConfigured(SmsBody(token))
    case Authenticator => NoDelivery
  }
}
