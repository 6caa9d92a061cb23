/** Properties of the OTP lifecycle: the single-active invariant, supersede and
    mark-used semantics, fail-closed verification and the send/verify round trip. */
module OtpProperties {
  import opened Wrappers
  import opened OtpEntity
  import opened OtpStore
  import opened Passcode
  import opened OtpLifecycle
  import EmailTypes

  // ---- Parameter defaulting ----

  /** Defaulting twice is defaulting once. */
  lemma DefaultsIdempotent(p: SendParams)
    ensures WithDefaults(WithDefaults(p)) == WithDefaults(p)
  {}

  /** Defaulting does not change the tuple a call addresses. */
  lemma DefaultsKeepKey(user: User, p: SendParams)
    ensures KeyOf(user, WithDefaults(p)) == KeyOf(user, p)
    ensures WithDefaults(p).otpMethod == Some(MethodOf(p))
  {}

  // ---- Email templates ----

  /** Distinct purposes get distinct templates. */
  lemma EmailTypeInjective(p: OtpPurpose, q: OtpPurpose)
    ensures EmailTypeFor(p) == EmailTypeFor(q) ==> p == q
  {}

  // ---- The counter clock ----

  /** The counter never decreases as time goes on. */
  lemma CounterMonotone(a: nat, b: nat)
    requires a <= b
    ensures HotpCounter(a) <= HotpCounter(b)
  {}

  /** Instants a whole step apart or more get different counters. */
  lemma CounterAdvancesEachStep(a: nat, b: nat)
    requires a + CounterStepMs <= b
    ensures HotpCounter(a) < HotpCounter(b)
  {}

  // ---- findOne ----

  /** `findOne`'s answer depends only on which rows match. */
  lemma {:induction false} FirstMatchDeterminedByMatches(s: seq<Otp>, t: seq<Otp>, q: Query)
    requires |s| == |t|
    requires forall j :: 0 <= j < |s| ==> (Matches(s[j], q) <==> Matches(t[j], q))
    ensures FirstMatch(s, q) == FirstMatch(t, q)
  {
    if |s| > 0 && !Matches(s[0], q) {
      FirstMatchDeterminedByMatches(s[1..], t[1..], q);
    }
  }

  /** Under the invariant, `findOne` for Active finds THE Active row of a tuple. */
  lemma FindsTheActive(s: seq<Otp>, key: OtpKey, i: nat)
    requires AtMostOneActive(s)
    requires i < |s| && IsActiveFor(s[i], key)
    ensures FirstMatch(s, Query(key, Active)) == Some(i)
  {
    var f := FirstMatch(s, Query(key, Active));
    assert f.Some?;
    assert IsActiveFor(s[f.value], s[i].Key());
  }

  // ---- Marking the Active row ----

  /** Marking changes at most the found row, and only its status. */
  lemma MarkActiveFrame(s: seq<Otp>, key: OtpKey, status: OtpStatus)
    ensures |MarkActive(s, key, status)| == |s|
    ensures (match FirstMatch(s, Query(key, Active))
             case None => MarkActive(s, key, status) == s
             case Some(i) =>
               MarkActive(s, key, status)[i] == s[i].(status := status) &&
               forall j :: 0 <= j < |s| && j != i ==> MarkActive(s, key, status)[j] == s[j])
    ensures forall j :: 0 <= j < |s| && !IsActiveFor(s[j], key) ==> MarkActive(s, key, status)[j] == s[j]
    ensures forall j :: 0 <= j < |s| && IsActiveFor(s[j], key) ==>
      MarkActive(s, key, status)[j] == s[j] || MarkActive(s, key, status)[j] == s[j].(status := status)
  {}

  /** Under the invariant, marking changes exactly the Active row of `key`. */
  lemma MarkActiveExact(s: seq<Otp>, key: OtpKey, status: OtpStatus)
    requires AtMostOneActive(s)
    ensures |MarkActive(s, key, status)| == |s|
    ensures forall j :: 0 <= j < |s| ==>
      MarkActive(s, key, status)[j] == if IsActiveFor(s[j], key) then s[j].(status := status) else s[j]
  {
    var t := MarkActive(s, key, status);
    forall j | 0 <= j < |s|
      ensures t[j] == if IsActiveFor(s[j], key) then s[j].(status := status) else s[j]
    {
      if IsActiveFor(s[j], key) {
        FindsTheActive(s, key, j);
      }
    }
  }

  /** Marking the Active row of `key` with another status leaves `key` without one. */
  lemma MarkActiveClearsKey(s: seq<Otp>, key: OtpKey, status: OtpStatus)
    requires AtMostOneActive(s)
    requires status != Active
    ensures forall j :: 0 <= j < |s| ==> !IsActiveFor(MarkActive(s, key, status)[j], key)
  {
    MarkActiveExact(s, key, status);
  }

  /** Marking never creates an Active row, so the invariant survives it. */
  lemma MarkActiveKeepsInvariant(s: seq<Otp>, key: OtpKey, status: OtpStatus)
    requires AtMostOneActive(s)
    ensures AtMostOneActive(MarkActive(s, key, status))
  {
    var t := MarkActive(s, key, status);
    MarkActiveExact(s, key, status);
    forall i, j | 0 <= i < |t| && 0 <= j < |t| && IsActiveFor(t[i], t[j].Key()) && t[j].status == Active
      ensures i == j
    {
      assert IsActiveFor(s[i], s[j].Key()) && s[j].status == Active;
    }
  }

  // ---- generateOtp ----

  /** Without any assumption: the new row is appended Active with its counter, expiry and
      meta; the previous Active row that was found is now Skipped and nothing else moved. */
  lemma GenerateShape(s: seq<Otp>, key: OtpKey, counter: nat, expiresAt: nat, meta: OtpMeta)
    ensures var u := AfterGenerate(s, key, counter, expiresAt, meta);
      && |u| == |s| + 1
      && IsActiveFor(u[|s|], key)
      && u[|s|].hotpCounter == counter && u[|s|].expiresAt == expiresAt && u[|s|].meta == meta
      && (forall j :: 0 <= j < |s| && s[j].Key() != key ==> u[j] == s[j])
      && (forall j :: 0 <= j < |s| && s[j].status != Active ==> u[j] == s[j])
      && match FirstMatch(s, Query(key, Active))
         case None => u[..|s|] == s
         case Some(i) =>
           u[i] == s[i].(status := Skipped) && forall j :: 0 <= j < |s| && j != i ==> u[j] == s[j]
  {
    var u := AfterGenerate(s, key, counter, expiresAt, meta);
    MarkActiveFrame(s, key, Skipped);
    assert u[..|s|] == MarkActive(s, key, Skipped);
  }

  /** If at most one Active row per tuple existed before `generateOtp`, that still holds after. */
  lemma GenerateKeepsInvariant(s: seq<Otp>, key: OtpKey, counter: nat, expiresAt: nat, meta: OtpMeta)
    requires AtMostOneActive(s)
    ensures AtMostOneActive(AfterGenerate(s, key, counter, expiresAt, meta))
  {
    var t := MarkActive(s, key, Skipped);
    var u := AfterGenerate(s, key, counter, expiresAt, meta);
    MarkActiveKeepsInvariant(s, key, Skipped);
    MarkActiveClearsKey(s, key, Skipped);
    assert forall k :: 0 <= k < |t| ==> u[k] == t[k] && !IsActiveFor(u[k], key);
    assert u[|t|].Key() == key;
    forall i, j | 0 <= i < |u| && 0 <= j < |u| && IsActiveFor(u[i], u[j].Key()) && u[j].status == Active
      ensures i == j
    {
      if i < |t| && j < |t| {
        assert IsActiveFor(t[i], t[j].Key()) && t[j].status == Active;
      }
    }
  }

  /** After `generateOtp` (from a table with the invariant) the new row is the one and only
      Active row of the tuple, and it is what the next lookup finds. */
  lemma GenerateLeavesExactlyOneActive(s: seq<Otp>, key: OtpKey, counter: nat, expiresAt: nat, meta: OtpMeta)
    requires AtMostOneActive(s)
    ensures var u := AfterGenerate(s, key, counter, expiresAt, meta);
      && (forall j :: 0 <= j < |u| ==> (IsActiveFor(u[j], key) <==> j == |s|))
      && FirstMatch(u, Query(key, Active)) == Some(|s|)
  {
    var u := AfterGenerate(s, key, counter, expiresAt, meta);
    MarkActiveClearsKey(s, key, Skipped);
    GenerateKeepsInvariant(s, key, counter, expiresAt, meta);
    assert forall j :: 0 <= j < |s| ==> u[j] == MarkActive(s, key, Skipped)[j];
    FindsTheActive(u, key, |s|);
  }

  // ---- verifyOtp ----

  /** Fail closed: with no Active row, or with every Active row of the tuple past its expiry,
      the answer is false whatever the codec says. */
  lemma VerifyFailsClosed(s: seq<Otp>, key: OtpKey, secret: Secret, token: Token, nowMs: nat, codec: Codec)
    requires forall j :: 0 <= j < |s| && IsActiveFor(s[j], key) ==> nowMs > s[j].expiresAt
    ensures !Verify(s, key, secret, token, nowMs, codec)
  {}

  /** Under the invariant, verification succeeds exactly when an Active row of the tuple
      exists, has not expired (the instant of expiry itself still counts) and the code
      check on it passes. */
  lemma VerifyMeaning(s: seq<Otp>, key: OtpKey, secret: Secret, token: Token, nowMs: nat, codec: Codec)
    requires AtMostOneActive(s)
    ensures Verify(s, key, secret, token, nowMs, codec) <==>
      exists i :: 0 <= i < |s| && IsActiveFor(s[i], key) && nowMs <= s[i].expiresAt
        && CodeCheck(codec, key, s[i], secret, token, nowMs)
  {
    var f := FirstMatch(s, Query(key, Active));
    if f.Some? {
      var i := f.value;
      forall k | 0 <= k < |s| && IsActiveFor(s[k], key) ensures k == i {
        FindsTheActive(s, key, k);
      }
    }
  }

  /** For Authenticator the answer is the time-based check, for the other methods the
      counter check against the stored counter. */
  lemma VerifyDispatch(s: seq<Otp>, key: OtpKey, secret: Secret, token: Token, nowMs: nat, codec: Codec,
                       i: nat)
    requires FirstMatch(s, Query(key, Active)) == Some(i)
    requires nowMs <= s[i].expiresAt
    ensures key.otpMethod == Authenticator ==>
      (Verify(s, key, secret, token, nowMs, codec) <==> codec.timeCheck(token, secret, nowMs))
    ensures key.otpMethod != Authenticator ==>
      (Verify(s, key, secret, token, nowMs, codec) <==> token == codec.generate(secret, s[i].hotpCounter))
  {}

  /** For Authenticator the stored counter plays no part: changing it changes no answer. */
  lemma VerifyAuthenticatorIgnoresCounter(s: seq<Otp>, key: OtpKey, secret: Secret, token: Token, nowMs: nat,
                                          codec: Codec, i: nat, counter: nat)
    requires key.otpMethod == Authenticator
    requires i < |s|
    ensures Verify(s[i := s[i].(hotpCounter := counter)], key, secret, token, nowMs, codec)
        == Verify(s, key, secret, token, nowMs, codec)
  {
    FirstMatchDeterminedByMatches(s, s[i := s[i].(hotpCounter := counter)], Query(key, Active));
  }

  /** Round trip: the token `generateOtp` returns verifies, for Email and SMS, at every
      instant up to and including the new row's expiry. */
  lemma GeneratedTokenVerifies(s: seq<Otp>, key: OtpKey, secret: Secret, nowMs: nat, ttlSeconds: nat,
                               meta: OtpMeta, codec: Codec, laterMs: nat)
    requires AtMostOneActive(s)
    requires key.otpMethod != Authenticator
    requires laterMs <= ExpiresAt(nowMs, ttlSeconds)
    ensures Verify(AfterGenerate(s, key, HotpCounter(nowMs), ExpiresAt(nowMs, ttlSeconds), meta), key, secret,
                   codec.generate(secret, HotpCounter(nowMs)), laterMs, codec)
  {
    GenerateLeavesExactlyOneActive(s, key, HotpCounter(nowMs), ExpiresAt(nowMs, ttlSeconds), meta);
  }

  /** Two sends in the same 2-second step get the same counter, hence the same token, so
      the first send's code still verifies after the second send superseded its row. */
  lemma ResendInSameStepKeepsCode(s: seq<Otp>, key: OtpKey, secret: Secret, ttlSeconds: nat, codec: Codec,
                                  firstMs: nat, secondMs: nat, meta: OtpMeta, laterMs: nat)
    requires AtMostOneActive(s)
    requires key.otpMethod != Authenticator
    requires HotpCounter(firstMs) == HotpCounter(secondMs)
    requires laterMs <= ExpiresAt(secondMs, ttlSeconds)
    ensures var u := AfterGenerate(s, key, HotpCounter(firstMs), ExpiresAt(firstMs, ttlSeconds), meta);
      var w := AfterGenerate(u, key, HotpCounter(secondMs), ExpiresAt(secondMs, ttlSeconds), meta);
      && w[|s|].status == Skipped
      && Verify(w, key, secret, codec.generate(secret, HotpCounter(firstMs)), laterMs, codec)
  {
    var u := AfterGenerate(s, key, HotpCounter(firstMs), ExpiresAt(firstMs, ttlSeconds), meta);
    GenerateLeavesExactlyOneActive(s, key, HotpCounter(firstMs), ExpiresAt(firstMs, ttlSeconds), meta);
    GenerateKeepsInvariant(s, key, HotpCounter(firstMs), ExpiresAt(firstMs, ttlSeconds), meta);
    GenerateLeavesExactlyOneActive(u, key, HotpCounter(secondMs), ExpiresAt(secondMs, ttlSeconds), meta);
  }

  /** A send for ForgetPassword by Email at t = 1000 s with ttl = 300 s: counter 500; the
      code verifies at t = 1200 s and at the expiry instant t = 1300 s, and not at t = 1301 s. */
  lemma ForgetPasswordScenario(s: seq<Otp>, userId: nat, secret: Secret, codec: Codec)
    requires AtMostOneActive(s)
    ensures HotpCounter(1000000) == 500
    ensures var key := OtpKey(userId, Email, ForgetPassword);
      var u := AfterGenerate(s, key, HotpCounter(1000000), ExpiresAt(1000000, 300), EmptyMeta);
      && Verify(u, key, secret, codec.generate(secret, 500), 1200000, codec)
      && Verify(u, key, secret, codec.generate(secret, 500), 1300000, codec)
      && !Verify(u, key, secret, codec.generate(secret, 500), 1301000, codec)
  {
    var key := OtpKey(userId, Email, ForgetPassword);
    GenerateLeavesExactlyOneActive(s, key, HotpCounter(1000000), ExpiresAt(1000000, 300), EmptyMeta);
  }

  // ---- setOtpUsed ----

  /** `setOtpUsed` fails exactly when the tuple has no Active row. */
  lemma SetUsedFailsIffNoActive(s: seq<Otp>, key: OtpKey)
    ensures AfterSetUsed(s, key).None? <==> forall j :: 0 <= j < |s| ==> !IsActiveFor(s[j], key)
  {}

  /** Under the invariant, `setOtpUsed` changes exactly the Active row of the tuple, whose
      status becomes Used, keeps the invariant, and leaves no Active row for the tuple, so
      a second call fails and verification now fails too. */
  lemma SetUsedExact(s: seq<Otp>, key: OtpKey, secret: Secret, token: Token, nowMs: nat, codec: Codec)
    requires AtMostOneActive(s)
    requires AfterSetUsed(s, key).Some?
    ensures var t := AfterSetUsed(s, key).value;
      && |t| == |s|
      && (forall j :: 0 <= j < |s| ==> t[j] == if IsActiveFor(s[j], key) then s[j].(status := Used) else s[j])
      && AtMostOneActive(t)
      && AfterSetUsed(t, key).None?
      && !Verify(t, key, secret, token, nowMs, codec)
  {
    MarkActiveExact(s, key, Used);
    MarkActiveKeepsInvariant(s, key, Used);
    MarkActiveClearsKey(s, key, Used);
  }

  /** Used and Skipped rows are never written, by either operation. */
  lemma InactiveRowsNeverChange(s: seq<Otp>, key: OtpKey, counter: nat, expiresAt: nat, meta: OtpMeta)
    ensures var u := AfterGenerate(s, key, counter, expiresAt, meta);
      forall j :: 0 <= j < |s| && s[j].status != Active ==> u[j] == s[j]
    ensures AfterSetUsed(s, key).Some? ==> var t := AfterSetUsed(s, key).value;
      |t| == |s| && forall j :: 0 <= j < |s| && s[j].status != Active ==> t[j] == s[j]
  {
    GenerateShape(s, key, counter, expiresAt, meta);
    MarkActiveFrame(s, key, Used);
  }
}
