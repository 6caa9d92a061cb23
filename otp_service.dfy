/** The OTP service (otp.service.ts) as objects: the parameter object it defaults in
    place and the service whose methods read and write the OTP table. Each method is
    proved to do what the functions of OtpLifecycle say. */
module Service {
  import opened Wrappers
  import opened OtpEntity
  import opened OtpStore
  import opened Passcode
  import opened OtpLifecycle
  import OtpProperties

  /** `OtpSendParams`, a plain object the service fills in place. */
  class OtpSendParams {
    var purpose: OtpPurpose
    var otpMethod: Option<OtpMethod>
    var meta: Option<OtpMeta>
    var context: Option<Context>

    constructor (v: SendParams)
      ensures Value() == v
    {
      purpose, otpMethod, meta, context := v.purpose, v.otpMethod, v.meta, v.context;
    }

    function Value(): SendParams
      reads this
    {
      SendParams(purpose, otpMethod, meta, context)
    }

    /** `setDefaultForOtpSendParams`. */
    method SetDefaults()
      modifies this
      ensures Value() == WithDefaults(old(Value()))
    {
      if otpMethod.None? {
        otpMethod := Some(Email);
      }
      if context.None? {
        context := Some(map[]);
      }
    }
  }

  /** `OtpService`. The table, the codec, the record lifetime (`otp.hotp_ttl`, seconds) and
      whether an SMS client is wired are fixed when the service is built. */
  class OtpService {
    const store: OtpTable
    const codec: Codec
    const ttlSeconds: nat
    const smsConfigured: bool

    constructor (store: OtpTable, codec: Codec, ttlSeconds: nat, smsConfigured: bool)
      ensures this.store == store && this.codec == codec
      ensures this.ttlSeconds == ttlSeconds && this.smsConfigured == smsConfigured
    {
      this.store := store;
      this.codec := codec;
      this.ttlSeconds := ttlSeconds;
      this.smsConfigured := smsConfigured;
    }

    /** `send`: defaults the parameters, generates a passcode (superseding the previous one)
        and hands it to the transport the method selects. */
    method Send(user: User, params: OtpSendParams, nowMs: nat) returns (delivery: Delivery)
      modifies store, params
      ensures params.Value() == WithDefaults(old(params.Value()))
      ensures store.records == AfterGenerate(old(store.records), KeyOf(user, old(params.Value())),
        HotpCounter(nowMs), ExpiresAt(nowMs, ttlSeconds), MetaOf(old(params.Value())))
      ensures AtMostOneActive(old(store.records)) ==> AtMostOneActive(store.records)
      ensures delivery == Dispatch(user, params.purpose, MethodOf(params.Value()),
        params.context.GetOr(map[]),
        codec.generate(user.otpSecret, HotpCounter(nowMs)), smsConfigured)
    {
      params.SetDefaults();
      var token := GenerateOtp(user, params, nowMs);
      var sendContext := SendContext(params.context.GetOr(map[]), token);
      delivery := NoDelivery;
      if params.otpMethod == Some(Email) {
        delivery := EmailDelivery(user.id, EmailTypeFor(params.purpose), sendContext);
      }
      if params.otpMethod == Some(Sms) {
        var body := SmsBody(token);
        if smsConfigured {
          delivery := SmsDelivery(user.phoneNumber, body);
        } else {
          delivery := SmsNotConfigured(body);
        }
      }
    }

    /** `generateOtp`: skips the Active row of the tuple, if any, creates the new Active row
        and returns the HOTP code of the new counter. */
    method GenerateOtp(user: User, params: OtpSendParams, nowMs: nat) returns (token: Token)
      modifies store, params
      ensures params.Value() == WithDefaults(old(params.Value()))
      ensures token == codec.generate(user.otpSecret, HotpCounter(nowMs))
      ensures store.records == AfterGenerate(old(store.records), KeyOf(user, old(params.Value())),
        HotpCounter(nowMs), ExpiresAt(nowMs, ttlSeconds), MetaOf(old(params.Value())))
      ensures AtMostOneActive(old(store.records)) ==> AtMostOneActive(store.records)
    {
      ghost var key := KeyOf(user, params.Value());
      var previous := GetActiveOtp(user, params);
      if previous.Some? {
        var i := previous.value;
        store.Save(i, store.records[i].(status := Skipped));
      }
      var hotpCounter := HotpCounter(nowMs);
      var expiresAt := ExpiresAt(nowMs, ttlSeconds);
      store.Create(NewOtp(KeyOf(user, params.Value()), hotpCounter, expiresAt, MetaOf(params.Value())));
      token := codec.generate(user.otpSecret, hotpCounter);
      if AtMostOneActive(old(store.records)) {
        OtpProperties.GenerateKeepsInvariant(old(store.records), key, hotpCounter, expiresAt,
                                             MetaOf(params.Value()));
      }
    }

    /** `getActiveOtp`. */
    method GetActiveOtp(user: User, params: OtpSendParams) returns (found: Option<nat>)
      modifies params
      ensures params.Value() == WithDefaults(old(params.Value()))
      ensures found == FirstMatch(store.records, Query(KeyOf(user, old(params.Value())), Active))
    {
      found := GetOtpByStatus(user, params, Active);
    }

    /** `getOtpByStatus`: defaults the parameters, then finds a row of the tuple in `status`. */
    method GetOtpByStatus(user: User, params: OtpSendParams, status: OtpStatus) returns (found: Option<nat>)
      modifies params
      ensures params.Value() == WithDefaults(old(params.Value()))
      ensures found.Some? ==>
        (found.value < |store.records| &&
         store.records[found.value].Key() == KeyOf(user, old(params.Value())) &&
         store.records[found.value].status == status)
      ensures found.None? <==> forall j :: 0 <= j < |store.records| ==>
        !Matches(store.records[j], Query(KeyOf(user, old(params.Value())), status))
      ensures found == FirstMatch(store.records, Query(KeyOf(user, old(params.Value())), status))
    {
      params.SetDefaults();
      var key := OtpKey(user.id, params.otpMethod.value, params.purpose);
      found := FirstMatch(store.records, Query(key, status));
    }

    /** `verifyOtp`: reads the table and never writes it. */
    method VerifyOtp(user: User, params: OtpSendParams, otpToken: Token, nowMs: nat) returns (ok: bool)
      modifies params
      ensures params.Value() == WithDefaults(old(params.Value()))
      ensures store.records == old(store.records)
      ensures ok ==
        Verify(store.records, KeyOf(user, old(params.Value())), user.otpSecret, otpToken, nowMs, codec)
    {
      var stored := GetActiveOtp(user, params);
      if stored.None? || nowMs > store.records[stored.value].expiresAt {
        return false;
      }
      if params.otpMethod == Some(Authenticator) {
        return codec.timeCheck(otpToken, user.otpSecret, nowMs);
      }
      return HotpCheck(codec, otpToken, user.otpSecret, store.records[stored.value].hotpCounter);
    }

    /** `setOtpUsed`: marks the Active row Used; fails, changing nothing, when there is none. */
    method SetOtpUsed(user: User, params: OtpSendParams) returns (outcome: Outcome<OtpError>)
      modifies store, params
      ensures params.Value() == WithDefaults(old(params.Value()))
      ensures match AfterSetUsed(old(store.records), KeyOf(user, old(params.Value())))
        case None => outcome == Fail(NoActiveOtp) && store.records == old(store.records)
        case Some(t) => outcome == Pass && store.records == t
      ensures AtMostOneActive(old(store.records)) ==> AtMostOneActive(store.records)
    {
      ghost var key := KeyOf(user, params.Value());
      var stored := GetActiveOtp(user, params);
      if stored.None? {
        return Fail(NoActiveOtp);
      }
      var i := stored.value;
      store.Save(i, store.records[i].(status := Used));
      outcome := Pass;
      if AtMostOneActive(old(store.records)) {
        OtpProperties.MarkActiveKeepsInvariant(old(store.records), key, Used);
      }
    }
  }
}
