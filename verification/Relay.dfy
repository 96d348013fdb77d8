/** Relay credentials, challenges and proofs of possession: the messages that are signed or hashed. */
module Relay {
  import opened Bytes

  const CRED_DOMAIN: bytes := Ascii("uq/relay/credential\0")
  const CHALLENGE_DOMAIN: bytes := Ascii("uq/relay/challenge\0")
  const BIND_DOMAIN: bytes := Ascii("uq/relay/device-binding\0")
  const POP_DOMAIN: bytes := Ascii("uq/relay/proof-of-possession\0")
  const SKEW_SECS: nat := 60

  type Key = bytes

  datatype RelayError =
    | InvalidPublicKey
    | InvalidSignature
    | DeviceBindingMismatch
    | BootstrapReplay
    | PresentationReplay
    | ChallengeExpired
    | TimeOverflow
    | IssuerSignatureInvalid
    | Expired
    | NotYetValid
    | ProofOfPossession

  type Relayed<+T> = Result<T, RelayError>

  /** A one-time challenge: 32-byte nonce, 64-bit expiry. */
  datatype Challenge_ = Challenge(nonce: bytes, expiresAt: nat, context: bytes)
  type Challenge = c: Challenge_ | |c.nonce| == 32 && c.expiresAt < U64 witness Challenge(Fill(32, 0), 0, [])

  datatype Credential_ = Credential(
    devicePubkey: bytes, platform: bytes, valueX: bytes, teeValueX: bytes, issuedAt: nat, expiry: nat, sig: bytes)
  type Credential = c: Credential_ | c.issuedAt < U64 && c.expiry < U64 witness Credential([], [], [], [], 0, 0, [])

  datatype Claims = Claims(platform: bytes, valueX: bytes, teeValueX: bytes, devicePubkey: Key)

  /** What a verified device attestation says. */
  datatype DeviceAttestation = DeviceAttestation(platform: bytes, valueX: bytes, observedBinding: bytes)

  /** A signature that was made: key, message and signature bytes. Verification is membership in the set of these. */
  datatype Signature = Signature(key: Key, message: bytes, sig: bytes)

  //
  // Messages
  //

  function NewChallenge(nonce: bytes, now: nat, ttl: nat, context: bytes): (r: Relayed<Challenge>)
    requires |nonce| == 32
    ensures r.Ok? <==> now + ttl < U64
    ensures r.Ok? ==> r.value.expiresAt == now + ttl && r.value.nonce == nonce && r.value.context == context
  {
    if now + ttl < U64 then Ok(Challenge(nonce, now + ttl, context)) else Err(TimeOverflow)
  }

  function Field(b: bytes): bytes {
    Be(|b|, 4) + b
  }

  function ChallengeBytes(c: Challenge): bytes {
    CHALLENGE_DOMAIN + (c.nonce + (Be(c.expiresAt, 8) + Field(c.context)))
  }

  function CredentialBytes(c: Credential): bytes {
    CRED_DOMAIN + (Field(c.devicePubkey) + (Field(c.platform) + (Field(c.valueX) + (Field(c.teeValueX) +
    (Be(c.issuedAt, 8) + Be(c.expiry, 8))))))
  }

  function PopMessage(challenge: bytes): bytes {
    POP_DOMAIN + (Be(|challenge|, 4) + challenge)
  }

  function BindingInput(devicePubkey: Key, teeValueX: bytes, c: Challenge): bytes {
    BIND_DOMAIN + (devicePubkey + (Field(teeValueX) + ChallengeBytes(c)))
  }

  /** The value a device attestation must commit to. */
  function DeviceBinding(h: Hash32, devicePubkey: Key, teeValueX: bytes, c: Challenge): bytes {
    h(Message(BindingInput(devicePubkey, teeValueX, c)))
  }

  /** Challenges are encoded without ambiguity, whatever the context. */
  lemma ChallengeInjective(c: Challenge, d: Challenge)
    requires ChallengeBytes(c) == ChallengeBytes(d)
    ensures c == d
  {
    hide Be;
    var x, y := Be(c.expiresAt, 8) + Field(c.context), Be(d.expiresAt, 8) + Field(d.context);
    SplitEqual(CHALLENGE_DOMAIN, c.nonce + x, CHALLENGE_DOMAIN, d.nonce + y);
    SplitEqual(c.nonce, x, d.nonce, y);
    SplitEqual(Be(c.expiresAt, 8), Field(c.context), Be(d.expiresAt, 8), Field(d.context));
    PowWidths();
    BeInjective(c.expiresAt, d.expiresAt, 8);
    SplitEqual(Be(|c.context|, 4), c.context, Be(|d.context|, 4), d.context);
  }

  lemma PopInjective(x: bytes, y: bytes)
    requires PopMessage(x) == PopMessage(y)
    ensures x == y
  {
    hide Be;
    SplitEqual(POP_DOMAIN, Be(|x|, 4) + x, POP_DOMAIN, Be(|y|, 4) + y);
    SplitEqual(Be(|x|, 4), x, Be(|y|, 4), y);
  }

  /** No credential reads as a proof of possession. */
  lemma DomainsApart(c: Credential, x: bytes)
    ensures CredentialBytes(c) != PopMessage(x)
  {
    hide Be, Field;
    assert CredentialBytes(c)[9] == CRED_DOMAIN[9] == 'c' as int;
    assert PopMessage(x)[9] == POP_DOMAIN[9] == 'p' as int;
  }

  /** A length prefix is exact below 2^32. */
  lemma FieldInjective(a: bytes, x: bytes, b: bytes, y: bytes)
    requires |a| < U32 && |b| < U32 && Field(a) + x == Field(b) + y
    ensures a == b && x == y
  {
    hide Be;
    assert Field(a) + x == Be(|a|, 4) + (a + x);
    assert Field(b) + y == Be(|b|, 4) + (b + y);
    SplitEqual(Be(|a|, 4), a + x, Be(|b|, 4), b + y);
    PowWidths();
    BeInjective(|a|, |b|, 4);
    SplitEqual(a, x, b, y);
  }

  /** Every variable field is shorter than `n` bytes. */
  predicate FieldsBelow(c: Credential, n: nat) {
    |c.devicePubkey| < n && |c.platform| < n && |c.valueX| < n && |c.teeValueX| < n
  }

  /** Credentials with fields below 2^32 bytes are encoded without ambiguity. */
  lemma CredentialInjective(c: Credential, d: Credential)
    requires FieldsBelow(c, U32) && FieldsBelow(d, U32) && CredentialBytes(c) == CredentialBytes(d)
    ensures c == d.(sig := c.sig)
  {
    hide Be, Field;
    var c4, d4 := Be(c.issuedAt, 8) + Be(c.expiry, 8), Be(d.issuedAt, 8) + Be(d.expiry, 8);
    var c3, d3 := Field(c.teeValueX) + c4, Field(d.teeValueX) + d4;
    var c2, d2 := Field(c.valueX) + c3, Field(d.valueX) + d3;
    var c1, d1 := Field(c.platform) + c2, Field(d.platform) + d2;
    SplitEqual(CRED_DOMAIN, Field(c.devicePubkey) + c1, CRED_DOMAIN, Field(d.devicePubkey) + d1);
    FieldInjective(c.devicePubkey, c1, d.devicePubkey, d1);
    FieldInjective(c.platform, c2, d.platform, d2);
    FieldInjective(c.valueX, c3, d.valueX, d3);
    FieldInjective(c.teeValueX, c4, d.teeValueX, d4);
    SplitEqual(Be(c.issuedAt, 8), Be(c.expiry, 8), Be(d.issuedAt, 8), Be(d.expiry, 8));
    PowWidths();
    BeInjective(c.issuedAt, d.issuedAt, 8);
    BeInjective(c.expiry, d.expiry, 8);
  }

  lemma FieldsWithin(c: Credential)
    ensures |c.devicePubkey| + |c.platform| + |c.valueX| + |c.teeValueX| < |CredentialBytes(c)|
  {
    hide Be;
  }

  /** A signed message below 2^32 bytes, whoever wrote it, is that of one credential. */
  lemma ShortMessageInjective(c: Credential, d: Credential)
    requires CredentialBytes(c) == CredentialBytes(d) && |CredentialBytes(d)| < U32
    ensures c == d.(sig := c.sig)
  {
    hide CredentialBytes;
    FieldsWithin(c);
    FieldsWithin(d);
    CredentialInjective(c, d);
  }

  lemma {:induction false} BeOfMultiple(q: nat, k: nat)
    ensures Be(q * Pow256(k), k) == Fill(k, 0)
  {
    if k > 0 {
      var x := q * Pow256(k - 1);
      assert q * Pow256(k) == 256 * x;
      BeOfMultiple(q, k - 1);
      assert Fill(k - 1, 0) + [0] == Fill(k, 0);
    }
  }

  /** The bound is needed: 32-bit length prefixes make these two different credentials one message. */
  lemma LongFieldsAmbiguous(c: Credential)
    ensures CredentialBytes(c.(valueX := Fill(U32, 0), teeValueX := [])) ==
            CredentialBytes(c.(valueX := [], teeValueX := Fill(U32, 0)))
  {
    hide Be;
    PowWidths();
    BeOfMultiple(1, 4);
    BeOfMultiple(0, 4);
    var long, tail := Fill(U32, 0), Be(c.issuedAt, 8) + Be(c.expiry, 8);
    assert Field(long) + Field([]) == Fill(U32 + 8, 0);
    assert Field([]) + Field(long) == Fill(U32 + 8, 0);
    assert Field(long) + (Field([]) + tail) == (Field(long) + Field([])) + tail;
    assert Field([]) + (Field(long) + tail) == (Field([]) + Field(long)) + tail;
  }

  /** Credentials with fields below `n` bytes are told apart by their signed bytes. */
  ghost predicate InjectiveBelow(n: nat) {
    forall c: Credential, d: Credential ::
      FieldsBelow(c, n) && FieldsBelow(d, n) && CredentialBytes(c) == CredentialBytes(d) ==> c == d.(sig := c.sig)
  }

  /** 2^32 is the exact bound on field lengths. */
  lemma InjectiveExactly(n: nat)
    ensures InjectiveBelow(n) <==> n <= U32
  {
    hide CredentialBytes;
    if n <= U32 {
      forall c: Credential, d: Credential
        | FieldsBelow(c, n) && FieldsBelow(d, n) && CredentialBytes(c) == CredentialBytes(d)
        ensures c == d.(sig := c.sig)
      {
        CredentialInjective(c, d);
      }
    } else {
      var blank := Credential([], [], [], [], 0, 0, []);
      var c, d := blank.(valueX := Fill(U32, 0), teeValueX := []), blank.(valueX := [], teeValueX := Fill(U32, 0));
      LongFieldsAmbiguous(blank);
      assert FieldsBelow(c, n) && FieldsBelow(d, n) && |c.valueX| != |d.valueX|;
    }
  }

  /** Equal bindings bind the same device key, relay TEE and challenge, or two hashed inputs collide. */
  lemma BindingCommits(h: Hash32, k: Key, t: bytes, c: Challenge, l: Key, u: bytes, d: Challenge)
    requires |k| == |l| == 32 && |t| < U32 && |u| < U32
    requires DeviceBinding(h, k, t, c) == DeviceBinding(h, l, u, d)
    ensures (k == l && t == u && c == d) || Collide(h, {BindingInput(k, t, c)}, {BindingInput(l, u, d)})
  {
    hide Be, Field, ChallengeBytes;
    if BindingInput(k, t, c) == BindingInput(l, u, d) {
      SplitEqual(BIND_DOMAIN, k + (Field(t) + ChallengeBytes(c)), BIND_DOMAIN, l + (Field(u) + ChallengeBytes(d)));
      SplitEqual(k, Field(t) + ChallengeBytes(c), l, Field(u) + ChallengeBytes(d));
      FieldInjective(t, ChallengeBytes(c), u, ChallengeBytes(d));
      ChallengeInjective(c, d);
    }
  }
}
