/** Attestation tokens: shape, the three binding suites and what a binding commits to. */
module Eat {
  import opened Bytes

  const EAT_VERSION: nat := 2
  const EAT_PROFILE: bytes := Ascii("https://uq.secure.build/eat/v2")
  const EAT_PROFILE_OLD: bytes := Ascii("https://bountynet.dev/eat/v2")
  const SUITE_V2: nat := 0
  const SUITE_V3: nat := 1
  const SUITE_COMPOSITE: nat := 2

  const V3_DOMAIN: bytes := Ascii("uq/eat/binding/v3\0")
  const COMPOSITE_DOMAIN: bytes := Ascii("uq/eat/composite/v1\0")
  const UNSUPPORTED_DOMAIN: bytes := Ascii("uq/eat/unsupported-suite\0")
  const SECOND_DOMAIN: bytes := Ascii("uq/eat/report-data-2\0")

  datatype Token_ = Token(
    version: nat,
    profile: bytes,
    suite: nat,
    valueX: bytes,
    platform: byte,
    platformMeasurement: bytes,
    platformQuote: bytes,
    tlsSpkiHash: bytes,
    sourceHash: bytes,
    artifactHash: bytes,
    iat: nat,
    nonce: bytes,
    previous: bytes,
    gpu: bytes,
    boot: bytes)

  /** Fixed-width fields have their widths. */
  type Token = t: Token_ |
      && t.version < U32 && t.suite < 0x1_0000 && t.iat < U64
      && |t.valueX| == |t.sourceHash| == |t.artifactHash| == 48
      && |t.tlsSpkiHash| == |t.nonce| == 32
    witness Token(0, [], 0, Fill(48, 0), 0, [], [], Fill(32, 0), Fill(48, 0), Fill(48, 0), 0, Fill(32, 0), [], [], [])

  datatype EatError = VersionMismatch | ProfileMismatch | UnknownSuite | EvidenceNeedsSuite2 | UnknownPlatform
    | TpmNeedsSuite2 | EvidenceTooLarge | QuoteOrPreviousTooLarge

  /** The shape every verifier demands of a token. */
  predicate ShapeOk(t: Token) {
    && t.version == EAT_VERSION
    && (t.profile == EAT_PROFILE || t.profile == EAT_PROFILE_OLD)
    && t.suite <= 2
    && (t.suite != SUITE_COMPOSITE ==> t.gpu == [] && t.boot == [])
    && 1 <= t.platform <= 5
    && (t.platform == 4 || t.platform == 5 ==> t.suite == SUITE_COMPOSITE)
    && |t.gpu| <= 8 * 1024 * 1024 && |t.boot| <= 16 * 1024 * 1024
    && |t.platformQuote| <= 4 * 1024 * 1024 && |t.previous| <= 8 * 1024 * 1024
  }

  function ValidateShape(t: Token): (r: Result<(), EatError>)
    ensures r.Ok? <==> ShapeOk(t)
  {
    if t.version != EAT_VERSION then Err(VersionMismatch)
    else if t.profile != EAT_PROFILE && t.profile != EAT_PROFILE_OLD then Err(ProfileMismatch)
    else if t.suite > 2 then Err(UnknownSuite)
    else if t.suite != SUITE_COMPOSITE && (t.gpu != [] || t.boot != []) then Err(EvidenceNeedsSuite2)
    else if t.platform == 0 || t.platform > 5 then Err(UnknownPlatform)
    else if (t.platform == 4 || t.platform == 5) && t.suite != SUITE_COMPOSITE then Err(TpmNeedsSuite2)
    else if |t.gpu| > 8 * 1024 * 1024 || |t.boot| > 16 * 1024 * 1024 then Err(EvidenceTooLarge)
    else if |t.platformQuote| > 4 * 1024 * 1024 || |t.previous| > 8 * 1024 * 1024 then Err(QuoteOrPreviousTooLarge)
    else Ok(())
  }

  //
  // Bindings
  //

  /** Commitment to the previous stage: zeros for a root. */
  function PreviousHash(h: Hash32, t: Token): (d: bytes)
    ensures |d| == 32
  {
    if t.previous == [] then Fill(32, 0) else h(Message(t.previous))
  }

  /** The claims of both historical layouts, in wire order. */
  function Core(h: Hash32, t: Token): bytes {
    Be(t.version, 4) + (Be(|t.profile|, 4) + (t.profile + (t.valueX + ([t.platform] + (t.tlsSpkiHash + (t.sourceHash +
    (t.artifactHash + (Be(t.iat, 8) + (t.nonce + PreviousHash(h, t))))))))))
  }

  function V3Input(h: Hash32, t: Token): bytes {
    V3_DOMAIN + (Be(t.suite, 2) + Core(h, t))
  }

  function CompositeInput(h: Hash32, t: Token): bytes {
    COMPOSITE_DOMAIN + (h(Message(V3Input(h, t))) + (Be(|t.gpu|, 8) + (h(Message(t.gpu)) +
    (Be(|t.boot|, 8) + h(Message(t.boot))))))
  }

  function BindingInput(h: Hash32, t: Token): bytes {
    if t.suite == SUITE_COMPOSITE then CompositeInput(h, t)
    else if t.suite == SUITE_V3 then V3Input(h, t)
    else if t.suite == SUITE_V2 then Core(h, t)
    else UNSUPPORTED_DOMAIN + (Be(t.suite, 2) + h(Message(V3Input(h, t))))
  }

  /** The first half of the quote's report data. */
  function BindingBytes(h: Hash32, t: Token): (d: bytes)
    ensures |d| == 32
  {
    h(Message(BindingInput(h, t)))
  }

  function SecondInput(t: Token, challenge: bytes): bytes {
    SECOND_DOMAIN + (challenge + t.valueX[..32])
  }

  /** The second half: the leading part of Value X, or a hash that also commits to a challenge. */
  function SecondCommitment(h: Hash32, t: Token, challenge: Option<bytes>): (d: bytes)
    ensures |d| == 32
  {
    match challenge
    case None => t.valueX[..32]
    case Some(c) => h(Message(SecondInput(t, c)))
  }

  function ReportData(h: Hash32, t: Token, challenge: Option<bytes>): (d: bytes)
    ensures |d| == 64
  {
    BindingBytes(h, t) + SecondCommitment(h, t, challenge)
  }

  /** Everything hashed to make the binding. */
  ghost function HashInputs(h: Hash32, t: Token): set<bytes> {
    {BindingInput(h, t)} + PreviousInput(t) +
    if t.suite == SUITE_COMPOSITE then {V3Input(h, t), t.gpu, t.boot} else {}
  }

  ghost function PreviousInput(t: Token): set<bytes> {
    if t.previous == [] then {} else {t.previous}
  }

  /** The tokens agree on everything but the quote and the measurement taken from it. */
  predicate Agree(t: Token, u: Token) {
    t == u.(platformQuote := t.platformQuote, platformMeasurement := t.platformMeasurement)
  }

  /** A collision between the inputs hashed for the two bindings, or a previous stage that hashes to zeros. */
  ghost predicate BindingBroken(h: Hash32, t: Token, u: Token) {
    || Collide(h, HashInputs(h, t), HashInputs(h, u))
    || HitsTarget(h, PreviousInput(t), Fill(32, 0))
    || HitsTarget(h, PreviousInput(u), Fill(32, 0))
  }

  /** The producer can fill in the quote after choosing the binding. */
  lemma QuoteIsNotBound(h: Hash32, t: Token, quote: bytes, measurement: bytes)
    ensures BindingBytes(h, t.(platformQuote := quote, platformMeasurement := measurement)) == BindingBytes(h, t)
  {
  }

  //
  // Unambiguous layouts
  //

  ghost predicate SameCore(h: Hash32, t: Token, u: Token) {
    && t.version == u.version && t.profile == u.profile && t.valueX == u.valueX && t.platform == u.platform
    && t.tlsSpkiHash == u.tlsSpkiHash && t.sourceHash == u.sourceHash && t.artifactHash == u.artifactHash
    && t.iat == u.iat && t.nonce == u.nonce && PreviousHash(h, t) == PreviousHash(h, u)
  }

  lemma CoreInjective(h: Hash32, t: Token, u: Token)
    requires |t.profile| < U32 && |u.profile| < U32 && Core(h, t) == Core(h, u)
    ensures SameCore(h, t, u)
  {
    hide Be, PreviousHash;
    PowWidths();
    var t9, u9 := t.nonce + PreviousHash(h, t), u.nonce + PreviousHash(h, u);
    var t8, u8 := Be(t.iat, 8) + t9, Be(u.iat, 8) + u9;
    var t7, u7 := t.artifactHash + t8, u.artifactHash + u8;
    var t6, u6 := t.sourceHash + t7, u.sourceHash + u7;
    var t5, u5 := t.tlsSpkiHash + t6, u.tlsSpkiHash + u6;
    var t4, u4 := [t.platform] + t5, [u.platform] + u5;
    var t3, u3 := t.valueX + t4, u.valueX + u4;
    SplitEqual(
      Be(t.version, 4), Be(|t.profile|, 4) + (t.profile + t3), Be(u.version, 4), Be(|u.profile|, 4) + (u.profile + u3));
    BeInjective(t.version, u.version, 4);
    SplitEqual(Be(|t.profile|, 4), t.profile + t3, Be(|u.profile|, 4), u.profile + u3);
    BeInjective(|t.profile|, |u.profile|, 4);
    SplitEqual(t.profile, t3, u.profile, u3);
    SplitEqual(t.valueX, t4, u.valueX, u4);
    SplitEqual([t.platform], t5, [u.platform], u5);
    SplitEqual(t.tlsSpkiHash, t6, u.tlsSpkiHash, u6);
    SplitEqual(t.sourceHash, t7, u.sourceHash, u7);
    SplitEqual(t.artifactHash, t8, u.artifactHash, u8);
    SplitEqual(Be(t.iat, 8), t9, Be(u.iat, 8), u9);
    BeInjective(t.iat, u.iat, 8);
    SplitEqual(t.nonce, PreviousHash(h, t), u.nonce, PreviousHash(h, u));
  }

  lemma V3Injective(h: Hash32, t: Token, u: Token)
    requires |t.profile| < U32 && |u.profile| < U32 && V3Input(h, t) == V3Input(h, u)
    ensures SameCore(h, t, u) && t.suite == u.suite
  {
    hide Be, Core, SameCore;
    PowWidths();
    SplitEqual(V3_DOMAIN, Be(t.suite, 2) + Core(h, t), V3_DOMAIN, Be(u.suite, 2) + Core(h, u));
    SplitEqual(Be(t.suite, 2), Core(h, t), Be(u.suite, 2), Core(h, u));
    BeInjective(t.suite, u.suite, 2);
    CoreInjective(h, t, u);
  }

  lemma CompositeInjective(h: Hash32, t: Token, u: Token)
    requires CompositeInput(h, t) == CompositeInput(h, u)
    ensures h(Message(V3Input(h, t))) == h(Message(V3Input(h, u)))
    ensures h(Message(t.gpu)) == h(Message(u.gpu)) && h(Message(t.boot)) == h(Message(u.boot))
  {
    hide Be, V3Input;
    var tv, uv := h(Message(V3Input(h, t))), h(Message(V3Input(h, u)));
    var tg, ug, tb, ub := h(Message(t.gpu)), h(Message(u.gpu)), h(Message(t.boot)), h(Message(u.boot));
    var t3, u3 := Be(|t.boot|, 8) + tb, Be(|u.boot|, 8) + ub;
    var t2, u2 := Be(|t.gpu|, 8) + (tg + t3), Be(|u.gpu|, 8) + (ug + u3);
    SplitEqual(COMPOSITE_DOMAIN, tv + t2, COMPOSITE_DOMAIN, uv + u2);
    SplitEqual(tv, t2, uv, u2);
    SplitEqual(Be(|t.gpu|, 8), tg + t3, Be(|u.gpu|, 8), ug + u3);
    SplitEqual(tg, t3, ug, u3);
    SplitEqual(Be(|t.boot|, 8), tb, Be(|u.boot|, 8), ub);
  }

  /** The suites never produce the same hash input: the version, "binding" and "composite" begin them differently. */
  lemma SuitesApart(h: Hash32, t: Token, u: Token)
    requires ShapeOk(t) && ShapeOk(u) && BindingInput(h, t) == BindingInput(h, u)
    ensures t.suite == u.suite
  {
    FirstBytes(h, t);
    FirstBytes(h, u);
  }

  lemma FirstBytes(h: Hash32, t: Token)
    requires ShapeOk(t)
    ensures |BindingInput(h, t)| > 7
    ensures t.suite == SUITE_V2 ==> BindingInput(h, t)[0] == 0
    ensures t.suite == SUITE_V3 ==> BindingInput(h, t)[0] == 'u' as int && BindingInput(h, t)[7] == 'b' as int
    ensures t.suite == SUITE_COMPOSITE ==> BindingInput(h, t)[0] == 'u' as int && BindingInput(h, t)[7] == 'c' as int
  {
    hide PreviousHash;
    if t.suite == SUITE_V2 {
      assert Be(2, 4)[0] == 0;
    } else if t.suite == SUITE_V3 {
      assert V3_DOMAIN[0] == 'u' as int && V3_DOMAIN[7] == 'b' as int;
    } else {
      assert COMPOSITE_DOMAIN[0] == 'u' as int && COMPOSITE_DOMAIN[7] == 'c' as int;
    }
  }

  lemma PreviousCommits(h: Hash32, t: Token, u: Token)
    requires PreviousHash(h, t) == PreviousHash(h, u) && !BindingBroken(h, t, u)
    ensures t.previous == u.previous
  {
    hide BindingInput, V3Input;
  }

  /**
   * Shape-valid tokens with equal bindings, whatever their suites, agree on the suite and on every
   * field except the quote and the measurement, unless hashing them exhibits a collision or a
   * previous stage whose hash is all zeros.
   */
  lemma BindingCommits(h: Hash32, t: Token, u: Token)
    requires ShapeOk(t) && ShapeOk(u) && BindingBytes(h, t) == BindingBytes(h, u)
    ensures Agree(t, u) || BindingBroken(h, t, u)
  {
    hide V3Input, CompositeInput, Core, PreviousHash, BindingInput;
    if !BindingBroken(h, t, u) {
      assert BindingInput(h, t) == BindingInput(h, u);
      SuitesApart(h, t, u);
      EqualInputs(h, t, u);
      PreviousCommits(h, t, u);
    }
  }

  lemma EqualInputs(h: Hash32, t: Token, u: Token)
    requires ShapeOk(t) && ShapeOk(u) && t.suite == u.suite && BindingInput(h, t) == BindingInput(h, u)
    requires !Collide(h, HashInputs(h, t), HashInputs(h, u))
    ensures SameCore(h, t, u) && t.gpu == u.gpu && t.boot == u.boot
  {
    hide V3Input, CompositeInput, Core, PreviousHash;
    if t.suite == SUITE_COMPOSITE {
      CompositeInjective(h, t, u);
      V3Injective(h, t, u);
    } else if t.suite == SUITE_V3 {
      V3Injective(h, t, u);
    } else {
      CoreInjective(h, t, u);
    }
  }

  /** Equal report data also bind the challenge that the second half was made for. */
  lemma ReportDataCommits(h: Hash32, t: Token, u: Token, c: bytes, d: bytes)
    requires ShapeOk(t) && ShapeOk(u) && |c| == |d| == 32
    requires ReportData(h, t, Some(c)) == ReportData(h, u, Some(d))
    ensures (Agree(t, u) && c == d) || BindingBroken(h, t, u) || Collide(h, {SecondInput(t, c)}, {SecondInput(u, d)})
  {
    hide BindingBytes, BindingBroken;
    SplitEqual(
      BindingBytes(h, t), SecondCommitment(h, t, Some(c)), BindingBytes(h, u), SecondCommitment(h, u, Some(d)));
    BindingCommits(h, t, u);
    if SecondInput(t, c) == SecondInput(u, d) {
      SplitEqual(SECOND_DOMAIN, c + t.valueX[..32], SECOND_DOMAIN, d + u.valueX[..32]);
      SplitEqual(c, t.valueX[..32], d, u.valueX[..32]);
    }
  }

  /**
   * Report data made without a challenge ends in Value X, and passes for one made with a challenge only if the
   * challenge's input hashes to that part of Value X.
   */
  lemma ChallengeNotConfused(h: Hash32, t: Token, u: Token, c: bytes)
    requires |c| == 32 && ReportData(h, t, None) == ReportData(h, u, Some(c))
    ensures ReportData(h, t, None)[32..] == t.valueX[..32]
    ensures HitsTarget(h, {SecondInput(u, c)}, t.valueX[..32])
  {
    hide BindingInput;
    SplitEqual(BindingBytes(h, t), SecondCommitment(h, t, None), BindingBytes(h, u), SecondCommitment(h, u, Some(c)));
    assert SecondInput(u, c) in {SecondInput(u, c)};
  }
}
