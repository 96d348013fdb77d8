/** The relay operations on their replay stores, and what every run of them guarantees. */
module RelayProtocol {
  import opened Bytes
  import opened Relay

  type Seen = map<bytes, nat>

  /** Which 32-byte strings decode to a verifying key. */
  datatype Curve = Curve(isKey: bytes -> bool)

  //
  // What the operations compute
  //

  function Stored(seen: Seen, c: Challenge, now: nat, onReplay: RelayError): Relayed<Seen> {
    if now > c.expiresAt then Err(ChallengeExpired)
    else if c.nonce in seen then Err(onReplay)
    else Ok(seen[c.nonce := c.expiresAt])
  }

  function DecodeKey(curve: Curve, b: bytes): Relayed<Key> {
    if |b| == 32 && curve.isKey(b) then Ok(b) else Err(InvalidPublicKey)
  }

  /** Signature check: the bytes have the right length and this key made this signature of this message. */
  function CheckSignature(
    signed: set<Signature>, key: Key, message: bytes, sig: bytes, onForgery: RelayError): Relayed<()>
  {
    if |sig| != 64 then Err(InvalidSignature)
    else if Signature(key, message, sig) in signed then Ok(())
    else Err(onForgery)
  }

  /** Validity window and issuer signature; `now + SKEW_SECS` wraps at 64 bits. */
  function VerifyCredential(
    curve: Curve, signed: set<Signature>, cred: Credential, issuer: Key, now: nat): Relayed<Key>
  {
    if now > cred.expiry then Err(Expired)
    else if (now + SKEW_SECS) % U64 < cred.issuedAt then Err(NotYetValid) else
    var _ :- CheckSignature(signed, issuer, CredentialBytes(cred), cred.sig, IssuerSignatureInvalid);
    DecodeKey(curve, cred.devicePubkey)
  }

  function VerifyPresentation(
    curve: Curve, signed: set<Signature>, cred: Credential, issuer: Key, challenge: bytes, pop: bytes,
    now: nat): Relayed<()>
  {
    var device :- VerifyCredential(curve, signed, cred, issuer, now);
    CheckSignature(signed, device, PopMessage(challenge), pop, ProofOfPossession)
  }

  function Issue(device: Key, att: DeviceAttestation, tee: bytes, issuedAt: nat, expiry: nat, sig: bytes): Credential
    requires issuedAt < U64 && expiry < U64
  {
    Credential(device, att.platform, att.valueX, tee, issuedAt, expiry, sig)
  }

  /** A bootstrap request: who asks, for which attested device, relay TEE and challenge, and when. */
  datatype Request_ = Request(
    device: Key, att: DeviceAttestation, tee: bytes, challenge: Challenge, issuedAt: nat, ttl: nat)
  type Request = q: Request_ | q.issuedAt < U64
    witness Request([], DeviceAttestation([], [], []), [], Challenge(Fill(32, 0), 0, []), 0, 0)

  /** Outcome of a bootstrap: the credential and the new store. */
  function Bootstrapped(h: Hash32, seen: Seen, q: Request, sig: bytes): Relayed<(Credential, Seen)> {
    if q.issuedAt + q.ttl >= U64 then Err(TimeOverflow)
    else if q.att.observedBinding != DeviceBinding(h, q.device, q.tee, q.challenge) then Err(DeviceBindingMismatch) else
    var seen' :- Stored(seen, q.challenge, q.issuedAt, BootstrapReplay);
    Ok((Issue(q.device, q.att, q.tee, q.issuedAt, q.issuedAt + q.ttl, sig), seen'))
  }

  /** Outcome of an accept: the claims and the new store. */
  function Accepted(
    curve: Curve, signed: set<Signature>, seen: Seen, cred: Credential, pop: bytes, issuer: Key, c: Challenge, now: nat)
    : Relayed<(Claims, Seen)>
  {
    if now > c.expiresAt then Err(ChallengeExpired) else
    var _ :- VerifyPresentation(curve, signed, cred, issuer, ChallengeBytes(c), pop, now);
    var seen' :- Stored(seen, c, now, PresentationReplay);
    Ok((Claims(cred.platform, cred.valueX, cred.teeValueX, cred.devicePubkey), seen'))
  }

  //
  // The operations
  //

  /** A replay guard: consumed nonces with their expiry, never pruned. */
  class ReplayStore {
    const onReplay: RelayError
    var seenUntil: Seen

    constructor (onReplay: RelayError)
      ensures this.onReplay == onReplay && seenUntil == map[]
    {
      this.onReplay := onReplay;
      seenUntil := map[];
    }

    /** Consumes the nonce of a fresh challenge once; a refusal changes nothing. */
    method CheckAndStore(c: Challenge, now: nat) returns (fault: Option<RelayError>)
      modifies this
      ensures fault.None? <==> now <= c.expiresAt && c.nonce !in old(seenUntil)
      ensures fault.Some? ==>
                Stored(old(seenUntil), c, now, onReplay) == Err(fault.value) && seenUntil == old(seenUntil)
      ensures fault.None? ==> Stored(old(seenUntil), c, now, onReplay) == Ok(seenUntil)
    {
      if now > c.expiresAt {
        return Some(ChallengeExpired);
      }
      if c.nonce in seenUntil {
        return Some(onReplay);
      }
      seenUntil := seenUntil[c.nonce := c.expiresAt];
      fault := None;
    }
  }

  /**
   * Issues a credential; `sig` is the issuer's signature of its canonical bytes. An error leaves the store as
   * it was.
   */
  method Bootstrap(h: Hash32, store: ReplayStore, q: Request, sig: bytes) returns (r: Relayed<Credential>)
    requires store.onReplay == BootstrapReplay
    modifies store
    ensures var outcome := Bootstrapped(h, old(store.seenUntil), q, sig);
            if outcome.Ok? then r == Ok(outcome.value.0) && store.seenUntil == outcome.value.1
            else r == Err(outcome.error) && store.seenUntil == old(store.seenUntil)
  {
    hide DeviceBinding;
    if q.issuedAt + q.ttl >= U64 {
      return Err(TimeOverflow);
    }
    var expected := DeviceBinding(h, q.device, q.tee, q.challenge);
    if q.att.observedBinding != expected {
      return Err(DeviceBindingMismatch);
    }
    var fault := store.CheckAndStore(q.challenge, q.issuedAt);
    if fault.Some? {
      return Err(fault.value);
    }
    r := Ok(Issue(q.device, q.att, q.tee, q.issuedAt, q.issuedAt + q.ttl, sig));
  }

  /**
   * Accepts a presentation. The nonce is stored before the device key is decoded again; that second
   * decoding cannot fail, so an error still leaves the store as it was.
   */
  method Accept(
    curve: Curve, signed: set<Signature>, store: ReplayStore, cred: Credential, pop: bytes, issuer: Key, c: Challenge,
    now: nat)
    returns (r: Relayed<Claims>)
    requires store.onReplay == PresentationReplay
    modifies store
    ensures var outcome := Accepted(curve, signed, old(store.seenUntil), cred, pop, issuer, c, now);
            if outcome.Ok? then r == Ok(outcome.value.0) && store.seenUntil == outcome.value.1
            else r == Err(outcome.error) && store.seenUntil == old(store.seenUntil)
  {
    hide CredentialBytes, ChallengeBytes, PopMessage;
    if now > c.expiresAt {
      return Err(ChallengeExpired);
    }
    var presented := VerifyPresentation(curve, signed, cred, issuer, ChallengeBytes(c), pop, now);
    if presented.Err? {
      return Err(presented.error);
    }
    var fault := store.CheckAndStore(c, now);
    if fault.Some? {
      return Err(fault.value);
    }
    var device := DecodeKey(curve, cred.devicePubkey);
    r := Ok(Claims(cred.platform, cred.valueX, cred.teeValueX, device.value));
  }

  //
  // Runs
  //

  /** One call at some relay issuer, device or relying party, or any other use of a signing key. */
  datatype Step =
    | BootstrapStep(store: nat, issuer: Key, request: Request, sig: bytes)
    | PresentStep(device: Key, challenge: Challenge, sig: bytes)
    | AcceptStep(store: nat, cred: Credential, pop: bytes, issuer: Key, challenge: Challenge, now: nat)
    | OtherSigning(key: Key, message: bytes, sig: bytes)

  /** What happened, for the calls that succeeded. */
  datatype Happened =
    | Issued(store: nat, issuer: Key, cred: Credential, request: Request)
    | Presented(device: Key, challenge: Challenge, sig: bytes)
    | Admitted(store: nat, issuer: Key, cred: Credential, pop: bytes, challenge: Challenge, now: nat, claims: Claims)

  datatype World = World(signed: set<Signature>, boots: map<nat, Seen>, accepts: map<nat, Seen>, history: seq<Happened>)

  function StoreOf(stores: map<nat, Seen>, id: nat): Seen {
    if id in stores then stores[id] else map[]
  }

  function Next(h: Hash32, curve: Curve, w: World, s: Step): World {
    match s
    case BootstrapStep(id, issuer, q, sig) =>
      var outcome := Bootstrapped(h, StoreOf(w.boots, id), q, sig);
      if outcome.Err? then w
      else World(w.signed + {Signature(issuer, CredentialBytes(outcome.value.0), sig)},
                 w.boots[id := outcome.value.1], w.accepts,
                 w.history + [Issued(id, issuer, outcome.value.0, q)])
    case PresentStep(device, c, sig) =>
      World(w.signed + {Signature(device, PopMessage(ChallengeBytes(c)), sig)}, w.boots, w.accepts,
            w.history + [Presented(device, c, sig)])
    case AcceptStep(id, cred, pop, issuer, c, now) =>
      var outcome := Accepted(curve, w.signed, StoreOf(w.accepts, id), cred, pop, issuer, c, now);
      if outcome.Err? then w
      else World(w.signed, w.boots, w.accepts[id := outcome.value.1],
                 w.history + [Admitted(id, issuer, cred, pop, c, now, outcome.value.0)])
    case OtherSigning(key, message, sig) =>
      w.(signed := w.signed + {Signature(key, message, sig)})
  }

  function Run(h: Hash32, curve: Curve, steps: seq<Step>): World {
    if steps == [] then World({}, map[], map[], [])
    else Next(h, curve, Run(h, curve, steps[..|steps| - 1]), steps[|steps| - 1])
  }

  /** The keys in `honest` sign only through bootstrap and present. */
  ghost predicate KeysKept(honest: set<Key>, steps: seq<Step>) {
    forall i :: 0 <= i < |steps| ==> steps[i].OtherSigning? ==> steps[i].key !in honest
  }

  /** Event `i` of the history explains the signature. */
  ghost predicate Explains(e: Happened, g: Signature) {
    match e
    case Issued(_, issuer, cred, _) => issuer == g.key && CredentialBytes(cred) == g.message && cred.sig == g.sig
    case Presented(device, c, sig) => device == g.key && PopMessage(ChallengeBytes(c)) == g.message && sig == g.sig
    case Admitted(_, _, _, _, _, _, _) => false
  }

  ghost predicate SignaturesExplained(honest: set<Key>, w: World) {
    forall g :: g in w.signed && g.key in honest ==> exists i :: 0 <= i < |w.history| && Explains(w.history[i], g)
  }

  /** An admitted credential was signed, its device key signed the challenge, and the clock was in both windows. */
  ghost predicate AdmittedSoundly(curve: Curve, signed: set<Signature>, e: Happened)
    requires e.Admitted?
  {
    && Signature(e.issuer, CredentialBytes(e.cred), e.cred.sig) in signed
    && Signature(e.cred.devicePubkey, PopMessage(ChallengeBytes(e.challenge)), e.pop) in signed
    && |e.cred.devicePubkey| == 32 && curve.isKey(e.cred.devicePubkey)
    && e.now <= e.cred.expiry && e.cred.issuedAt <= e.now + SKEW_SECS
    && e.now <= e.challenge.expiresAt
    && e.claims == Claims(e.cred.platform, e.cred.valueX, e.cred.teeValueX, e.cred.devicePubkey)
  }

  /** An honest flow goes through: with both signatures made, a decodable key, open windows and an unused nonce. */
  lemma AcceptedExactly(
    curve: Curve, signed: set<Signature>, seen: Seen, cred: Credential, pop: bytes, issuer: Key, c: Challenge, now: nat)
    ensures Accepted(curve, signed, seen, cred, pop, issuer, c, now).Ok? <==>
            && now <= c.expiresAt && now <= cred.expiry && cred.issuedAt <= (now + SKEW_SECS) % U64
            && |cred.sig| == 64 && Signature(issuer, CredentialBytes(cred), cred.sig) in signed
            && |cred.devicePubkey| == 32 && curve.isKey(cred.devicePubkey)
            && |pop| == 64 && Signature(cred.devicePubkey, PopMessage(ChallengeBytes(c)), pop) in signed
            && c.nonce !in seen
  {
    hide CredentialBytes, ChallengeBytes, PopMessage;
  }

  /** A bootstrap goes through exactly when its time fits, its attestation is bound and its challenge open and new. */
  lemma BootstrappedExactly(h: Hash32, seen: Seen, q: Request, sig: bytes)
    ensures var outcome := Bootstrapped(h, seen, q, sig);
            && (outcome.Ok? <==>
                && q.issuedAt + q.ttl < U64
                && q.att.observedBinding == h(Message(BindingInput(q.device, q.tee, q.challenge)))
                && q.issuedAt <= q.challenge.expiresAt && q.challenge.nonce !in seen)
            && (outcome.Ok? ==>
                  && outcome.value.0 ==
                     Credential(q.device, q.att.platform, q.att.valueX, q.tee, q.issuedAt, q.issuedAt + q.ttl, sig)
                  && outcome.value.1 == seen[q.challenge.nonce := q.challenge.expiresAt])
  {
    hide BindingInput;
  }

  lemma AcceptedSoundly(
    curve: Curve, signed: set<Signature>, seen: Seen, cred: Credential, pop: bytes, issuer: Key, c: Challenge,
    now: nat, id: nat)
    requires Accepted(curve, signed, seen, cred, pop, issuer, c, now).Ok?
    ensures var claims := Accepted(curve, signed, seen, cred, pop, issuer, c, now).value.0;
            AdmittedSoundly(curve, signed, Admitted(id, issuer, cred, pop, c, now, claims))
    ensures c.nonce !in seen
    ensures Accepted(curve, signed, seen, cred, pop, issuer, c, now).value.1 == seen[c.nonce := c.expiresAt]
  {
    hide CredentialBytes, ChallengeBytes, PopMessage;
    assert (now + SKEW_SECS) % U64 <= now + SKEW_SECS;
  }

  /** Some event before `n` explains the signature. */
  ghost predicate ExplainedBefore(history: seq<Happened>, n: nat, g: Signature)
    requires n <= |history|
  {
    exists i :: 0 <= i < n && Explains(history[i], g)
  }

  /** An admission rests on earlier events of the honest keys involved. */
  ghost predicate Backed(honest: set<Key>, curve: Curve, w: World, n: nat)
    requires n < |w.history| && w.history[n].Admitted?
  {
    var e := w.history[n];
    && AdmittedSoundly(curve, w.signed, e)
    && (e.issuer in honest ==>
          ExplainedBefore(w.history, n, Signature(e.issuer, CredentialBytes(e.cred), e.cred.sig)))
    && (e.cred.devicePubkey in honest ==>
          ExplainedBefore(w.history, n, Signature(e.cred.devicePubkey, PopMessage(ChallengeBytes(e.challenge)), e.pop)))
  }

  ghost predicate AllBacked(honest: set<Key>, curve: Curve, w: World) {
    forall n :: 0 <= n < |w.history| && w.history[n].Admitted? ==> Backed(honest, curve, w, n)
  }

  lemma NextGrows(h: Hash32, curve: Curve, w: World, s: Step)
    ensures w.signed <= Next(h, curve, w, s).signed && w.history <= Next(h, curve, w, s).history
    ensures |Next(h, curve, w, s).history| <= |w.history| + 1
  {
    hide Bootstrapped, Accepted, CredentialBytes, ChallengeBytes, PopMessage;
  }

  lemma NextExplains(h: Hash32, curve: Curve, honest: set<Key>, w: World, s: Step)
    requires SignaturesExplained(honest, w) && (s.OtherSigning? ==> s.key !in honest)
    ensures SignaturesExplained(honest, Next(h, curve, w, s))
  {
    hide Accepted, CredentialBytes, ChallengeBytes, PopMessage, DeviceBinding, Stored;
    var w' := Next(h, curve, w, s);
    NextGrows(h, curve, w, s);
    forall g | g in w'.signed && g.key in honest
      ensures exists i :: 0 <= i < |w'.history| && Explains(w'.history[i], g)
    {
      if g in w.signed {
        var i :| 0 <= i < |w.history| && Explains(w.history[i], g);
        assert w'.history[i] == w.history[i];
      } else {
        assert Explains(w'.history[|w.history|], g);
      }
    }
  }

  lemma BackedStays(honest: set<Key>, curve: Curve, w: World, w': World, n: nat)
    requires n < |w.history| && w.history[n].Admitted? && Backed(honest, curve, w, n)
    requires w.signed <= w'.signed && w.history <= w'.history
    ensures w'.history[n] == w.history[n] && Backed(honest, curve, w', n)
  {
    hide CredentialBytes, ChallengeBytes, PopMessage, Explains;
    forall g: Signature | ExplainedBefore(w.history, n, g)
      ensures ExplainedBefore(w'.history, n, g)
    {
      var i :| 0 <= i < n && Explains(w.history[i], g);
      assert w'.history[i] == w.history[i];
    }
  }

  lemma NextBacked(h: Hash32, curve: Curve, honest: set<Key>, w: World, s: Step)
    requires SignaturesExplained(honest, w) && AllBacked(honest, curve, w)
    ensures AllBacked(honest, curve, Next(h, curve, w, s))
  {
    hide Bootstrapped, Accepted, CredentialBytes, ChallengeBytes, PopMessage, Explains, Backed;
    var w' := Next(h, curve, w, s);
    NextGrows(h, curve, w, s);
    forall n | 0 <= n < |w'.history| && w'.history[n].Admitted?
      ensures Backed(honest, curve, w', n)
    {
      if n < |w.history| {
        assert w'.history[n] == w.history[n];
        BackedStays(honest, curve, w, w', n);
      } else {
        NewAdmissionBacked(h, curve, honest, w, s);
      }
    }
  }

  lemma NewAdmissionBacked(h: Hash32, curve: Curve, honest: set<Key>, w: World, s: Step)
    requires SignaturesExplained(honest, w)
    requires var w' := Next(h, curve, w, s); |w'.history| == |w.history| + 1 && w'.history[|w.history|].Admitted?
    ensures Backed(honest, curve, Next(h, curve, w, s), |w.history|)
  {
    hide Bootstrapped, Accepted, CredentialBytes, ChallengeBytes, PopMessage, Explains;
    var w', n := Next(h, curve, w, s), |w.history|;
    AcceptedSoundly(curve, w.signed, StoreOf(w.accepts, s.store), s.cred, s.pop, s.issuer, s.challenge, s.now, s.store);
    forall g | g in w.signed && g.key in honest
      ensures ExplainedBefore(w'.history, n, g)
    {
      var i :| 0 <= i < |w.history| && Explains(w.history[i], g);
      assert w'.history[i] == w.history[i];
    }
  }

  lemma {:induction false} RunBacked(h: Hash32, curve: Curve, honest: set<Key>, steps: seq<Step>)
    requires KeysKept(honest, steps)
    ensures SignaturesExplained(honest, Run(h, curve, steps)) && AllBacked(honest, curve, Run(h, curve, steps))
    decreases |steps|
  {
    hide Next, Explains, Backed;
    if steps != [] {
      var front, s := steps[..|steps| - 1], steps[|steps| - 1];
      RunBacked(h, curve, honest, front);
      NextExplains(h, curve, honest, Run(h, curve, front), s);
      NextBacked(h, curve, honest, Run(h, curve, front), s);
    }
  }

  /**
   * An issued credential repeats its request: the platform and Value X of an attestation that is bound to this
   * device key, relay TEE and challenge, while the challenge was open.
   */
  ghost predicate Attested(h: Hash32, e: Happened)
    requires e.Issued?
  {
    var q := e.request;
    && q.att.observedBinding == DeviceBinding(h, q.device, q.tee, q.challenge)
    && q.issuedAt <= q.challenge.expiresAt
    && e.cred.devicePubkey == q.device && e.cred.platform == q.att.platform && e.cred.valueX == q.att.valueX
    && e.cred.teeValueX == q.tee && e.cred.issuedAt == q.issuedAt && e.cred.expiry == q.issuedAt + q.ttl
  }

  ghost predicate AllAttested(h: Hash32, w: World) {
    forall i :: 0 <= i < |w.history| && w.history[i].Issued? ==> Attested(h, w.history[i])
  }

  lemma NextAttested(h: Hash32, curve: Curve, w: World, s: Step)
    requires AllAttested(h, w)
    ensures AllAttested(h, Next(h, curve, w, s))
  {
    hide Accepted, CredentialBytes, ChallengeBytes, PopMessage, DeviceBinding;
  }

  lemma {:induction false} RunAttested(h: Hash32, curve: Curve, steps: seq<Step>)
    ensures AllAttested(h, Run(h, curve, steps))
    decreases |steps|
  {
    hide Next, AllAttested;
    if steps == [] {
      NothingIssued(h);
    } else {
      RunAttested(h, curve, steps[..|steps| - 1]);
      NextAttested(h, curve, Run(h, curve, steps[..|steps| - 1]), steps[|steps| - 1]);
    }
  }

  lemma NothingIssued(h: Hash32)
    ensures AllAttested(h, World({}, map[], map[], []))
  {
  }

  /**
   * The issued credential and the admitted one carry the same signed bytes. Where the bytes presented are
   * fewer than 2^32 they are one credential, with the claims that were issued.
   */
  ghost predicate SameCredential(issued: Happened, e: Happened)
    requires e.Admitted?
  {
    && issued.Issued? && issued.issuer == e.issuer
    && CredentialBytes(issued.cred) == CredentialBytes(e.cred)
    && (|CredentialBytes(e.cred)| < U32 ==>
          && issued.cred == e.cred
          && e.claims ==
             Claims(issued.cred.platform, issued.cred.valueX, issued.cred.teeValueX, issued.cred.devicePubkey))
  }

  /**
   * In every run, an admission under an honest issuer key returns the claims of a credential that this
   * issuer issued earlier for this device key, on an attestation bound to that key, inside both time
   * windows; an honest device key had signed this very challenge.
   */
  lemma Agreement(h: Hash32, curve: Curve, honest: set<Key>, steps: seq<Step>, n: nat)
    requires KeysKept(honest, steps)
    requires n < |Run(h, curve, steps).history| && Run(h, curve, steps).history[n].Admitted?
    ensures var w := Run(h, curve, steps); var e := w.history[n];
            && e.now <= e.cred.expiry && e.cred.issuedAt <= e.now + SKEW_SECS && e.now <= e.challenge.expiresAt
            && e.claims == Claims(e.cred.platform, e.cred.valueX, e.cred.teeValueX, e.cred.devicePubkey)
            && (e.issuer in honest ==>
                  exists i :: 0 <= i < n && SameCredential(w.history[i], e) && Attested(h, w.history[i]))
            && (e.cred.devicePubkey in honest ==>
                  exists j :: 0 <= j < n && w.history[j] == Presented(e.cred.devicePubkey, e.challenge, e.pop))
  {
    hide Run, CredentialBytes, ChallengeBytes, PopMessage, Attested;
    RunBacked(h, curve, honest, steps);
    RunAttested(h, curve, steps);
    var w := Run(h, curve, steps);
    var e := w.history[n];
    assert Backed(honest, curve, w, n);
    if e.issuer in honest {
      var i :| 0 <= i < n && Explains(w.history[i], Signature(e.issuer, CredentialBytes(e.cred), e.cred.sig));
      IssuerSigned(w.history[i], e);
    }
    if e.cred.devicePubkey in honest {
      var made := Signature(e.cred.devicePubkey, PopMessage(ChallengeBytes(e.challenge)), e.pop);
      var j :| 0 <= j < n && Explains(w.history[j], made);
      DeviceSigned(w.history[j], e);
    }
  }

  lemma IssuerSigned(x: Happened, e: Happened)
    requires e.Admitted? && Explains(x, Signature(e.issuer, CredentialBytes(e.cred), e.cred.sig))
    requires e.claims == Claims(e.cred.platform, e.cred.valueX, e.cred.teeValueX, e.cred.devicePubkey)
    ensures SameCredential(x, e)
  {
    hide CredentialBytes, ChallengeBytes, PopMessage;
    if x.Presented? {
      DomainsApart(e.cred, ChallengeBytes(x.challenge));
    } else if |CredentialBytes(e.cred)| < U32 {
      ShortMessageInjective(x.cred, e.cred);
    }
  }

  lemma DeviceSigned(x: Happened, e: Happened)
    requires e.Admitted?
    requires Explains(x, Signature(e.cred.devicePubkey, PopMessage(ChallengeBytes(e.challenge)), e.pop))
    ensures x == Presented(e.cred.devicePubkey, e.challenge, e.pop)
  {
    hide CredentialBytes, ChallengeBytes, PopMessage;
    if x.Issued? {
      DomainsApart(x.cred, ChallengeBytes(e.challenge));
    } else {
      PopInjective(ChallengeBytes(x.challenge), ChallengeBytes(e.challenge));
      ChallengeInjective(x.challenge, e.challenge);
    }
  }

  //
  // An honest flow
  //

  lemma {:induction false} SignedStays(h: Hash32, curve: Curve, steps: seq<Step>, more: seq<Step>)
    ensures Run(h, curve, steps).signed <= Run(h, curve, steps + more).signed
    decreases |more|
  {
    hide Next;
    if more == [] {
      assert steps + more == steps;
    } else {
      var all, front := steps + more, steps + more[..|more| - 1];
      SignedStays(h, curve, steps, more[..|more| - 1]);
      assert all[..|all| - 1] == front && all[|all| - 1] == more[|more| - 1];
      NextGrows(h, curve, Run(h, curve, front), more[|more| - 1]);
    }
  }

  lemma RunNext(h: Hash32, curve: Curve, steps: seq<Step>, s: Step)
    ensures Run(h, curve, steps + [s]) == Next(h, curve, Run(h, curve, steps), s)
  {
    hide Next;
    assert (steps + [s])[..|steps|] == steps;
  }

  /** After any steps, a bootstrap that meets its conditions puts the issuer's signature on record. */
  lemma HonestBootstrap(h: Hash32, curve: Curve, before: seq<Step>, s: Step)
    requires s.BootstrapStep?
    requires Bootstrapped(h, StoreOf(Run(h, curve, before).boots, s.store), s.request, s.sig).Ok?
    ensures var cred := Bootstrapped(h, StoreOf(Run(h, curve, before).boots, s.store), s.request, s.sig).value.0;
            Signature(s.issuer, CredentialBytes(cred), s.sig) in Run(h, curve, before + [s]).signed
  {
    hide Bootstrapped, CredentialBytes;
    RunNext(h, curve, before, s);
  }

  /** The time, key, signature lengths and unused nonce with which `accept` admits the credential of `boot`. */
  ghost predicate Timely(curve: Curve, boot: Step, present: Step, accept: Step, seen: Seen)
    requires boot.BootstrapStep? && present.PresentStep? && accept.AcceptStep?
  {
    var q := boot.request;
    && |q.device| == 32 && curve.isKey(q.device) && |boot.sig| == 64 && |present.sig| == 64
    && accept.now <= q.issuedAt + q.ttl && q.issuedAt <= (accept.now + SKEW_SECS) % U64
    && accept.now <= present.challenge.expiresAt && present.challenge.nonce !in seen
  }

  /**
   * An honest flow ends in an admission: a bootstrap that meets its conditions, later a present by the device, and
   * later an accept of that credential inside both windows at a store that has not seen the nonce. Anything may
   * happen before, between and at other parties.
   */
  lemma HonestFlow(
    h: Hash32, curve: Curve, before: seq<Step>, boot: Step, between: seq<Step>, present: Step, after: seq<Step>,
    accept: Step)
    requires boot.BootstrapStep? && present.PresentStep? && accept.AcceptStep?
    requires var q, seen := boot.request, StoreOf(Run(h, curve, before).boots, boot.store);
             && q.issuedAt + q.ttl < U64
             && q.att.observedBinding == h(Message(BindingInput(q.device, q.tee, q.challenge)))
             && q.issuedAt <= q.challenge.expiresAt && q.challenge.nonce !in seen
    requires var q := boot.request;
             && present.device == q.device && accept.challenge == present.challenge && accept.pop == present.sig
             && accept.issuer == boot.issuer
             && accept.cred ==
                Credential(q.device, q.att.platform, q.att.valueX, q.tee, q.issuedAt, q.issuedAt + q.ttl, boot.sig)
    requires var steps := before + [boot] + between + [present] + after;
             Timely(curve, boot, present, accept, StoreOf(Run(h, curve, steps).accepts, accept.store))
    ensures var steps := before + [boot] + between + [present] + after;
            var q := boot.request;
            Run(h, curve, steps + [accept]).history ==
            Run(h, curve, steps).history +
            [Admitted(accept.store, boot.issuer, accept.cred, present.sig, present.challenge, accept.now,
                      Claims(q.att.platform, q.att.valueX, q.tee, q.device))]
  {
    hide Run, Bootstrapped, Accepted, CredentialBytes, ChallengeBytes, PopMessage, BindingInput;
    var steps := before + [boot] + between + [present] + after;
    var w := Run(h, curve, steps);
    SignaturesMade(h, curve, before, boot, between, present, after);
    AcceptedExactly(curve, w.signed, StoreOf(w.accepts, accept.store), accept.cred, accept.pop, accept.issuer,
                    accept.challenge, accept.now);
    AcceptedSoundly(curve, w.signed, StoreOf(w.accepts, accept.store), accept.cred, accept.pop, accept.issuer,
                    accept.challenge, accept.now, accept.store);
    RunNext(h, curve, steps, accept);
  }

  lemma SignaturesMade(
    h: Hash32, curve: Curve, before: seq<Step>, boot: Step, between: seq<Step>, present: Step, after: seq<Step>)
    requires boot.BootstrapStep? && present.PresentStep?
    requires var q, seen := boot.request, StoreOf(Run(h, curve, before).boots, boot.store);
             && q.issuedAt + q.ttl < U64
             && q.att.observedBinding == h(Message(BindingInput(q.device, q.tee, q.challenge)))
             && q.issuedAt <= q.challenge.expiresAt && q.challenge.nonce !in seen
    ensures var signed := Run(h, curve, before + [boot] + between + [present] + after).signed;
            var q := boot.request;
            var cred :=
              Credential(q.device, q.att.platform, q.att.valueX, q.tee, q.issuedAt, q.issuedAt + q.ttl, boot.sig);
            && Signature(boot.issuer, CredentialBytes(cred), boot.sig) in signed
            && Signature(present.device, PopMessage(ChallengeBytes(present.challenge)), present.sig) in signed
  {
    hide Run, Bootstrapped, Accepted, CredentialBytes, ChallengeBytes, PopMessage, BindingInput;
    BootstrappedExactly(h, StoreOf(Run(h, curve, before).boots, boot.store), boot.request, boot.sig);
    HonestBootstrap(h, curve, before, boot);
    SignedStays(h, curve, before + [boot], between + [present] + after);
    assert before + [boot] + (between + [present] + after) == before + [boot] + between + [present] + after;
    RunNext(h, curve, before + [boot] + between, present);
    SignedStays(h, curve, before + [boot] + between + [present], after);
  }

  //
  // Nonces
  //

  /** Every nonce used at a store is remembered there, and no two uses at one store share a nonce. */
  ghost predicate NoncesOnce(w: World) {
    && (forall i :: 0 <= i < |w.history| ==>
          && (w.history[i].Admitted? ==> w.history[i].challenge.nonce in StoreOf(w.accepts, w.history[i].store))
          && (w.history[i].Issued? ==> w.history[i].request.challenge.nonce in StoreOf(w.boots, w.history[i].store)))
    && (forall i, j :: 0 <= i < j < |w.history| ==>
          && !(w.history[i].Admitted? && w.history[j].Admitted? && w.history[i].store == w.history[j].store &&
               w.history[i].challenge.nonce == w.history[j].challenge.nonce)
          && !(w.history[i].Issued? && w.history[j].Issued? && w.history[i].store == w.history[j].store &&
               w.history[i].request.challenge.nonce == w.history[j].request.challenge.nonce))
  }

  lemma NextNonces(h: Hash32, curve: Curve, w: World, s: Step)
    requires NoncesOnce(w)
    ensures NoncesOnce(Next(h, curve, w, s))
  {
    hide VerifyPresentation, DeviceBinding, CredentialBytes, ChallengeBytes, PopMessage;
  }

  /** Over every run each replay store lets a nonce succeed at most once, whatever expiry it is reissued with. */
  lemma {:induction false} NonceUsedOnce(h: Hash32, curve: Curve, steps: seq<Step>)
    ensures NoncesOnce(Run(h, curve, steps))
    decreases |steps|
  {
    hide Next, NoncesOnce;
    if steps == [] {
      NoNonces();
    } else {
      NonceUsedOnce(h, curve, steps[..|steps| - 1]);
      NextNonces(h, curve, Run(h, curve, steps[..|steps| - 1]), steps[|steps| - 1]);
    }
  }

  lemma NoNonces()
    ensures NoncesOnce(World({}, map[], map[], []))
  {
  }
}
