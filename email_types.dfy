/** The email template identifiers (EMAIL_TYPES) that the OTP service hands to the email service.
    Only the four templates the OTP service uses are modelled. The enum's source is not part
    of this model; its four members are assumed to be distinct values, which is what makes
    the purpose-to-template mapping injective. */
module EmailTypes {

  datatype EmailType = Invitation | SetPassword | PasswordReset | ChangeEmail
}
