/** The persisted OTP record and its enumerations (entity/otp.entity.ts). */
module OtpEntity {
  import opened Wrappers

  /** The delivery or verification channel of a passcode. */
  datatype OtpMethod = Sms | Email | Authenticator

  /** What the passcode is issued for. */
  datatype OtpPurpose = ConfirmEmail | SetPassword | ForgetPassword | ChangeEmail

  /** Lifecycle state of a record: created Active, then Used or Skipped for good. */
  datatype OtpStatus = Active | Used | Skipped

  /** Purpose-specific payload; the only known key is the pending new email address. */
  datatype OtpMeta = OtpMeta(newEmail: Option<string>)

  /** The column default of `meta`, the empty JSON object. */
  const EmptyMeta: OtpMeta := OtpMeta(None)

  /** The tuple that at most one Active record may carry. */
  datatype OtpKey = OtpKey(userId: nat, otpMethod: OtpMethod, purpose: OtpPurpose)

  /** One row of the OTP table. The field `method` is called `otpMethod`, since `method`
      is a keyword. `hotpCounter` is the HOTP counter the code was generated with and
      `expiresAt` is the expiry instant in milliseconds since the epoch. */
  datatype Otp = Otp(
    userId: nat,
    hotpCounter: nat,
    expiresAt: nat,
    otpMethod: OtpMethod,
    purpose: OtpPurpose,
    status: OtpStatus,
    meta: OtpMeta)
  {
    function Key(): OtpKey {
      OtpKey(userId, otpMethod, purpose)
    }
  }
}
