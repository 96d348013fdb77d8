/** Finite build ancestry: a nested receipt unwound newest first and admitted oldest first. */
module Ancestry {
  import opened Bytes
  import opened Eat
  import Utf8

  const MAX_PRIOR_STAGES: nat := 8
  const MAX_STAGE_RECEIPT_BYTES: nat := 8 * 1024 * 1024
  const MAX_DECODED_CHAIN_BYTES: nat := 32 * 1024 * 1024

  /** The CBOR decoder, as a function of the bytes. */
  datatype Codec = Codec(decode: Message -> Option<Token>)

  /** Decoding as the verifier does it: bounded, and of the right shape. */
  function FromCbor(codec: Codec, b: bytes): (t: Option<Token>)
    ensures t.Some? ==> ShapeOk(t.value)
  {
    if |b| > 32 * 1024 * 1024 then None
    else
      var t := codec.decode(Message(b));
      if t.Some? && ShapeOk(t.value) then t else None
  }

  /** One enrolled stage: exact pins, and whether its remaining configuration builds a verifier. */
  datatype Entry_ = Entry(
    name: Utf8.Text, receipt: bytes, sourceHash: bytes, artifactHash: bytes, nonce: bytes, spki: bytes,
    valueX: bytes, platform: nat, measurement: bytes, maxAge: nat, configurationOk: bool)
  type Entry = e: Entry_ |
      |e.receipt| == |e.nonce| == 32 && |e.sourceHash| == |e.artifactHash| == |e.valueX| == |e.measurement| == 48
    witness Entry([], Fill(32, 0), Fill(48, 0), Fill(48, 0), Fill(32, 0), [], Fill(48, 0), 0, Fill(48, 0), 0, false)

  datatype ChainError =
    | PolicyInvalid
    | ReceiptMissingOrTooLarge
    | StageMissingOrTooLarge
    | ChainTooLarge
    | PinMismatch
    | NotAToken
    | TokenMismatch
    | ExtraStage
    | StageRejected
    | DeadlineOverflow
    | FreshnessExpired

  type Chained<+T> = Result<T, ChainError>

  predicate EntryOk(e: Entry) {
    && 0 < |e.name| <= 128 && (forall c :: c in Utf8.Codes(e.name) ==> !Utf8.IsControl(c))
    && !AllAre(e.receipt, 0) && !AllAre(e.sourceHash, 0) && !AllAre(e.artifactHash, 0)
    && !AllAre(e.valueX, 0) && !AllAre(e.measurement, 0)
    && 1 <= e.maxAge <= 86400 && 0 < |e.spki| <= 16 * 1024
    && e.configurationOk
  }

  ghost predicate NonZero(b: bytes) {
    exists i :: 0 <= i < |b| && b[i] != 0
  }

  /** A named stage with nonzero pins, a life of at most a day and a key of at most 16 KiB. */
  ghost predicate EntryIs(e: Entry) {
    && 1 <= |e.name| <= 128 && (forall i :: 0 <= i < |Utf8.Codes(e.name)| ==> !Utf8.IsControl(Utf8.Codes(e.name)[i]))
    && NonZero(e.receipt) && NonZero(e.sourceHash) && NonZero(e.artifactHash)
    && NonZero(e.valueX) && NonZero(e.measurement)
    && 0 < e.maxAge <= 24 * 60 * 60 && 1 <= |e.spki| <= 0x4000 && e.configurationOk
  }

  lemma EntryExactly(e: Entry)
    ensures EntryOk(e) <==> EntryIs(e)
  {
    hide Utf8.Codes, Utf8.Valid, Utf8.IsControl;
    var codes := Utf8.Codes(e.name);
    assert forall i :: 0 <= i < |codes| ==> codes[i] in codes;
  }

  ghost predicate PolicyOk(stages: seq<Entry>) {
    && 1 <= |stages| <= MAX_PRIOR_STAGES
    && (forall i :: 0 <= i < |stages| ==> EntryIs(stages[i]) && stages[i].valueX == stages[0].valueX)
    && (forall i, j :: 0 <= i < j < |stages| ==>
          stages[i].name != stages[j].name && stages[i].receipt != stages[j].receipt)
  }

  /** Validates the enrolled policy, remembering the names, pins and Value X seen so far. */
  method ValidatePolicy(stages: seq<Entry>) returns (ok: bool)
    ensures ok <==> PolicyOk(stages)
  {
    hide EntryOk, EntryIs, Utf8.Valid;
    if !(1 <= |stages| <= MAX_PRIOR_STAGES) {
      return false;
    }
    var names: set<bytes>, receipts: set<bytes> := {}, {};
    for n := 0 to |stages|
      invariant names == set i | 0 <= i < n :: stages[i].name
      invariant receipts == set i | 0 <= i < n :: stages[i].receipt
      invariant forall i :: 0 <= i < n ==> EntryIs(stages[i]) && stages[i].valueX == stages[0].valueX
      invariant forall i, j :: 0 <= i < j < n ==>
                  stages[i].name != stages[j].name && stages[i].receipt != stages[j].receipt
    {
      var e := stages[n];
      EntryExactly(e);
      if !EntryOk(e) || e.name in names || e.receipt in receipts || e.valueX != stages[0].valueX {
        return false;
      }
      names, receipts := names + {e.name}, receipts + {e.receipt};
    }
    ok := true;
  }

  /** The token carries exactly the enrolled claims under a full-width binding. */
  predicate CheckToken(h: Hash32, e: Entry, t: Token) {
    && (t.suite == 1 || t.suite == 2)
    && (e.platform == 4 || e.platform == 5 ==> t.suite == SUITE_COMPOSITE)
    && t.sourceHash == e.sourceHash
    && t.artifactHash == e.artifactHash
    && t.valueX == e.valueX
    && t.nonce == e.nonce
    && t.platform == e.platform
    && t.tlsSpkiHash == h(Message(e.spki))
  }

  datatype Pending = Pending(policy: Entry, receipt: bytes, token: Token)

  //
  // Unwinding
  //

  /** Checks of one stage against its raw bytes, before its predecessor is looked at. */
  function OpenStage(h: Hash32, codec: Codec, e: Entry, raw: bytes, total: nat): (r: Chained<Pending>)
    ensures r.Ok? ==> r.value.policy == e && r.value.receipt == h(Message(raw))
  {
    if raw == [] || |raw| > MAX_STAGE_RECEIPT_BYTES then Err(StageMissingOrTooLarge)
    else if total + |raw| > MAX_DECODED_CHAIN_BYTES then Err(ChainTooLarge)
    else if h(Message(raw)) != e.receipt then Err(PinMismatch)
    else
      var t := FromCbor(codec, raw);
      if t.None? then Err(NotAToken)
      else if !CheckToken(h, e, t.value) then Err(TokenMismatch)
      else Ok(Pending(e, h(Message(raw)), t.value))
  }

  /** The stages nested in `raw`, oldest first. */
  function Unwind(h: Hash32, codec: Codec, stages: seq<Entry>, raw: bytes, total: nat): Chained<seq<Pending>> {
    if stages == [] then if raw == [] then Ok([]) else Err(ExtraStage)
    else
      var newest :- OpenStage(h, codec, stages[|stages| - 1], raw, total);
      var older :- Unwind(h, codec, stages[..|stages| - 1], newest.token.previous, total + |raw|);
      Ok(older + [newest])
  }

  function Reversed<T>(s: seq<T>): (r: seq<T>)
    ensures |r| == |s|
  {
    if s == [] then [] else [s[|s| - 1]] + Reversed(s[..|s| - 1])
  }

  /** Unwinds the receipt stage by stage, newest first, and then puts the stages in order. */
  method Prepare(h: Hash32, codec: Codec, stages: seq<Entry>, immediate: bytes) returns (r: Chained<seq<Pending>>)
    ensures r.Ok? <==>
            PolicyOk(stages) && |immediate| <= MAX_STAGE_RECEIPT_BYTES && Unwind(h, codec, stages, immediate, 0).Ok?
    ensures r.Ok? ==> r == Unwind(h, codec, stages, immediate, 0)
  {
    hide PolicyOk, OpenStage, Unwind, Reversed;
    var valid := ValidatePolicy(stages);
    if !valid {
      return Err(PolicyInvalid);
    }
    PolicyNotEmpty(stages);
    if immediate == [] || |immediate| > MAX_STAGE_RECEIPT_BYTES {
      EmptyReceiptRefused(h, codec, stages);
      return Err(ReceiptMissingOrTooLarge);
    }
    var raw, decodedBytes: nat := immediate, 0;
    var pending: seq<Pending> := [];
    var n := |stages|;
    TakeAll(stages);
    ContinuesStart(Unwind(h, codec, stages, immediate, 0));
    while n > 0
      invariant 0 <= n <= |stages|
      invariant Continues(
                  Unwind(h, codec, stages, immediate, 0),
                  Unwind(h, codec, stages[..n], raw, decodedBytes),
                  Reversed(pending))
    {
      var stage := OpenStage(h, codec, stages[n - 1], raw, decodedBytes);
      ContinuesNext(Unwind(h, codec, stages, immediate, 0), h, codec, stages[..n], raw, decodedBytes, pending);
      assert stages[..n][..n - 1] == stages[..n - 1];
      if stage.Err? {
        return Err(stage.error);
      }
      decodedBytes := decodedBytes + |raw|;
      raw := stage.value.token.previous;
      pending := pending + [stage.value];
      n := n - 1;
    }
    assert stages[..0] == [];
    UnwindDone(h, codec, raw, decodedBytes);
    if raw != [] {
      return Err(ExtraStage);
    }
    assert [] + Reversed(pending) == Reversed(pending);
    r := Ok(Reversed(pending));
  }

  lemma UnwindDone(h: Hash32, codec: Codec, raw: bytes, total: nat)
    ensures Unwind(h, codec, [], raw, total) == if raw == [] then Ok([]) else Err(ExtraStage)
  {
  }

  lemma PolicyNotEmpty(stages: seq<Entry>)
    requires PolicyOk(stages)
    ensures stages != []
  {
    hide EntryIs;
  }

  lemma EmptyReceiptRefused(h: Hash32, codec: Codec, stages: seq<Entry>)
    requires stages != []
    ensures Unwind(h, codec, stages, [], 0).Err?
  {
  }

  /** The whole outcome is the outcome of what is left, followed by what is done. */
  ghost predicate Continues(whole: Chained<seq<Pending>>, left: Chained<seq<Pending>>, done: seq<Pending>) {
    whole == if left.Ok? then Ok(left.value + done) else Err(left.error)
  }

  lemma ContinuesStart(whole: Chained<seq<Pending>>)
    ensures Continues(whole, whole, Reversed([]))
  {
    if whole.Ok? {
      assert whole.value + [] == whole.value;
    }
  }

  lemma ContinuesNext(
    whole: Chained<seq<Pending>>, h: Hash32, codec: Codec, stages: seq<Entry>, raw: bytes, total: nat,
    pending: seq<Pending>)
    requires stages != [] && Continues(whole, Unwind(h, codec, stages, raw, total), Reversed(pending))
    ensures var newest := OpenStage(h, codec, stages[|stages| - 1], raw, total);
            if newest.Err? then whole == Err(newest.error)
            else Continues(whole, Unwind(h, codec, stages[..|stages| - 1], newest.value.token.previous, total + |raw|),
                           Reversed(pending + [newest.value]))
  {
    hide OpenStage;
    var newest := OpenStage(h, codec, stages[|stages| - 1], raw, total);
    if newest.Ok? {
      var p := newest.value;
      assert (pending + [p])[..|pending|] == pending;
      var older := Unwind(h, codec, stages[..|stages| - 1], p.token.previous, total + |raw|);
      if older.Ok? {
        assert older.value + [p] + Reversed(pending) == older.value + ([p] + Reversed(pending));
      }
    }
  }

  //
  // What a prepared chain is
  //

  /** The bytes stage `i` was decoded from: the input for the newest, else what the next stage carries. */
  function RawOf(ps: seq<Pending>, immediate: bytes, i: nat): bytes
    requires i < |ps|
  {
    if i == |ps| - 1 then immediate else ps[i + 1].token.previous
  }

  function ChainBytes(ps: seq<Pending>, immediate: bytes): nat {
    if ps == [] then 0 else |immediate| + ChainBytes(ps[..|ps| - 1], ps[|ps| - 1].token.previous)
  }

  ghost predicate StageIs(h: Hash32, codec: Codec, e: Entry, raw: bytes, p: Pending) {
    && p.policy == e
    && 0 < |raw| <= MAX_STAGE_RECEIPT_BYTES
    && p.receipt == h(Message(raw)) == e.receipt
    && codec.decode(Message(raw)) == Some(p.token) && ShapeOk(p.token)
    && Enrolled(h, e, p.token)
  }

  /** The token makes the enrolled claims under suite 1 or 2, and under 2 on the platforms that need it. */
  ghost predicate Enrolled(h: Hash32, e: Entry, t: Token) {
    && t.sourceHash == e.sourceHash && t.artifactHash == e.artifactHash && t.valueX == e.valueX
    && t.nonce == e.nonce && t.platform == e.platform && t.tlsSpkiHash == h(Message(e.spki))
    && (t.suite == 2 || (t.suite == 1 && e.platform != 4 && e.platform != 5))
  }

  /**
   * The receipt unwinds to exactly these stages: each is decoded from what the next carries, and the oldest
   * carries nothing.
   */
  ghost predicate IsChain(h: Hash32, codec: Codec, stages: seq<Entry>, immediate: bytes, ps: seq<Pending>) {
    && |ps| == |stages|
    && (forall i :: 0 <= i < |ps| ==> StageIs(h, codec, stages[i], RawOf(ps, immediate, i), ps[i]))
    && (if ps == [] then immediate == [] else ps[0].token.previous == [])
  }

  lemma OpenStageExact(h: Hash32, codec: Codec, e: Entry, raw: bytes, total: nat, p: Pending)
    ensures OpenStage(h, codec, e, raw, total) == Ok(p) <==>
            StageIs(h, codec, e, raw, p) && total + |raw| <= MAX_DECODED_CHAIN_BYTES
  {
    hide ShapeOk;
  }

  lemma RawSnoc(older: seq<Pending>, p: Pending, immediate: bytes)
    ensures RawOf(older + [p], immediate, |older|) == immediate
    ensures forall i :: 0 <= i < |older| ==> RawOf(older + [p], immediate, i) == RawOf(older, p.token.previous, i)
  {
  }

  lemma ChainSnoc(h: Hash32, codec: Codec, stages: seq<Entry>, immediate: bytes, older: seq<Pending>, p: Pending)
    requires stages != []
    ensures IsChain(h, codec, stages, immediate, older + [p]) <==>
            && StageIs(h, codec, stages[|stages| - 1], immediate, p)
            && IsChain(h, codec, stages[..|stages| - 1], p.token.previous, older)
  {
    hide StageIs, RawOf;
    var ps, front := older + [p], stages[..|stages| - 1];
    RawSnoc(older, p, immediate);
    assert ps[|older|] == p && forall i :: 0 <= i < |older| ==> ps[i] == older[i];
    if IsChain(h, codec, stages, immediate, ps) {
      assert StageIs(h, codec, stages[|older|], RawOf(ps, immediate, |older|), ps[|older|]);
      forall i | 0 <= i < |older| ensures StageIs(h, codec, front[i], RawOf(older, p.token.previous, i), older[i]) {
        assert StageIs(h, codec, stages[i], RawOf(ps, immediate, i), ps[i]);
      }
    }
  }

  /** Unwinding succeeds exactly on the receipts that nest the enrolled stages, none missing and none extra. */
  lemma {:induction false} UnwindExact(
    h: Hash32, codec: Codec, stages: seq<Entry>, raw: bytes, total: nat, ps: seq<Pending>)
    ensures Unwind(h, codec, stages, raw, total) == Ok(ps) <==>
            && IsChain(h, codec, stages, raw, ps)
            && (stages != [] ==> total + ChainBytes(ps, raw) <= MAX_DECODED_CHAIN_BYTES)
    decreases |stages|
  {
    if stages != [] {
      UnwindExactStep(h, codec, stages, raw, total, ps);
    }
  }

  lemma UnwindExactStep(h: Hash32, codec: Codec, stages: seq<Entry>, raw: bytes, total: nat, ps: seq<Pending>)
    requires stages != []
    ensures Unwind(h, codec, stages, raw, total) == Ok(ps) <==>
            IsChain(h, codec, stages, raw, ps) && total + ChainBytes(ps, raw) <= MAX_DECODED_CHAIN_BYTES
    decreases |stages|, 0
  {
    hide OpenStage, StageIs, IsChain;
    var front := stages[..|stages| - 1];
    if ps == [] {
      ChainLength(h, codec, stages, raw, ps);
    } else {
      var older, p := ps[..|ps| - 1], ps[|ps| - 1];
      assert ps == older + [p];
      OpenStageExact(h, codec, stages[|stages| - 1], raw, total, p);
      ChainSnoc(h, codec, stages, raw, older, p);
      UnwindExact(h, codec, front, p.token.previous, total + |raw|, older);
      if stages[..|stages| - 1] == [] {
        ChainLength(h, codec, front, p.token.previous, older);
      }
    }
  }

  lemma ChainLength(h: Hash32, codec: Codec, stages: seq<Entry>, raw: bytes, ps: seq<Pending>)
    ensures IsChain(h, codec, stages, raw, ps) ==> |ps| == |stages|
  {
    hide StageIs;
  }

  //
  // Admission, oldest first
  //

  datatype VerifiedStage = VerifiedStage(
    name: bytes, receipt: bytes, sourceHash: bytes, artifactHash: bytes, nonce: bytes, spkiHash: bytes,
    valueX: bytes, platform: nat, issuedAt: nat)

  /** Proof that some stages passed admission. */
  datatype Verified = Verified(stages: seq<VerifiedStage>, predecessor: bytes, valueX: bytes, deadline: nat)

  /** One admission call: the clock at its first and last look at the link, and the outcome of every other check. */
  datatype Appraisal = Appraisal(start: nat, end: nat, passes: bool)

  predicate CheckChild(h: Hash32, prior: Verified, child: Token, now: nat) {
    && prior.stages != [] && child.previous != []
    && (child.suite == 1 || child.suite == 2)
    && PreviousHash(h, child) == prior.predecessor
    && child.valueX == prior.valueX
    && now <= prior.deadline
  }

  predicate Admitted(h: Hash32, t: Token, prior: Option<Verified>, a: Appraisal) {
    && ShapeOk(t)
    && (if prior.Some?
        then t.suite != 0 && CheckChild(h, prior.value, t, a.start) && CheckChild(h, prior.value, t, a.end)
        else t.previous == [])
    && a.passes
  }

  function StageOf(p: Pending): VerifiedStage {
    var t := p.token;
    VerifiedStage(
      p.policy.name, p.receipt, t.sourceHash, t.artifactHash, t.nonce, t.tlsSpkiHash, t.valueX, t.platform, t.iat)
  }

  function Deadline(p: Pending): nat {
    p.token.iat + p.policy.maxAge
  }

  function MinDeadline(ps: seq<Pending>): nat
    requires ps != []
  {
    var last := Deadline(ps[|ps| - 1]);
    if |ps| == 1 then last
    else
      var rest := MinDeadline(ps[..|ps| - 1]);
      if last < rest then last else rest
  }

  function StagesOf(ps: seq<Pending>): (r: seq<VerifiedStage>)
    ensures |r| == |ps| && forall i :: 0 <= i < |ps| ==> r[i] == StageOf(ps[i])
  {
    if ps == [] then [] else StagesOf(ps[..|ps| - 1]) + [StageOf(ps[|ps| - 1])]
  }

  /** The proof that exactly the stages `ps` were admitted. */
  function ProofOf(ps: seq<Pending>): Verified
    requires ps != []
  {
    Verified(StagesOf(ps), ps[|ps| - 1].receipt, ps[0].token.valueX, MinDeadline(ps))
  }

  function ProofBefore(ps: seq<Pending>, k: nat): Option<Verified>
    requires k <= |ps|
  {
    if k == 0 then None else Some(ProofOf(ps[..k]))
  }

  /** Stage `k` passes admission against the proof of exactly the stages before it. */
  predicate StageAdmitted(h: Hash32, ps: seq<Pending>, appraisals: seq<Appraisal>, k: nat)
    requires k < |ps| <= |appraisals|
  {
    Deadline(ps[k]) < U64 && Admitted(h, ps[k].token, ProofBefore(ps, k), appraisals[k])
  }

  ghost predicate AllAdmitted(h: Hash32, ps: seq<Pending>, appraisals: seq<Appraisal>)
    requires |ps| <= |appraisals|
  {
    forall k :: 0 <= k < |ps| ==> StageAdmitted(h, ps, appraisals, k)
  }

  lemma ProofGrows(ps: seq<Pending>, k: nat)
    requires k < |ps|
    ensures var p, upTo := ps[k], ProofOf(ps[..k + 1]);
            if k == 0 then upTo == Verified([StageOf(p)], p.receipt, p.token.valueX, Deadline(p))
            else
              var prior := ProofOf(ps[..k]);
              upTo == Verified(prior.stages + [StageOf(p)], p.receipt, prior.valueX,
                               if Deadline(p) < prior.deadline then Deadline(p) else prior.deadline)
  {
    var upTo := ps[..k + 1];
    assert upTo[..k] == ps[..k] && upTo[k] == ps[k];
  }

  /** Admits the unwound stages in order, each against the proof accumulated so far. */
  method AdmitStages(h: Hash32, ps: seq<Pending>, appraisals: seq<Appraisal>) returns (r: Chained<Option<Verified>>)
    requires |ps| <= |appraisals|
    ensures r.Ok? <==> AllAdmitted(h, ps, appraisals)
    ensures r.Ok? ==> r.value == ProofBefore(ps, |ps|)
  {
    hide Admitted, StagesOf, MinDeadline;
    var verified: Option<Verified> := None;
    for k := 0 to |ps|
      invariant verified == ProofBefore(ps, k)
      invariant forall j :: 0 <= j < k ==> StageAdmitted(h, ps, appraisals, j)
    {
      var stage := ps[k];
      if !Admitted(h, stage.token, verified, appraisals[k]) {
        assert !StageAdmitted(h, ps, appraisals, k);
        return Err(StageRejected);
      }
      var deadline := Deadline(stage);
      if deadline >= U64 {
        assert !StageAdmitted(h, ps, appraisals, k);
        return Err(DeadlineOverflow);
      }
      assert StageAdmitted(h, ps, appraisals, k);
      ProofGrows(ps, k);
      assert [] + [StageOf(stage)] == [StageOf(stage)];
      var chain := if verified.Some? then verified.value else Verified([], [], stage.token.valueX, deadline);
      verified := Some(Verified(chain.stages + [StageOf(stage)], stage.receipt, chain.valueX,
                                if deadline < chain.deadline then deadline else chain.deadline));
    }
    r := Ok(verified);
  }

  /**
   * Verification accepts exactly the receipts whose unwound stages are all admitted in time, and returns
   * their proof.
   */
  method Verify(
    h: Hash32, codec: Codec, stages: seq<Entry>, immediate: bytes, appraisals: seq<Appraisal>, now: nat)
    returns (r: Chained<Verified>)
    requires |appraisals| >= |stages|
    ensures r.Ok? <==>
            && PolicyOk(stages) && |immediate| <= MAX_STAGE_RECEIPT_BYTES
            && Unwind(h, codec, stages, immediate, 0).Ok?
            && var ps := Unwind(h, codec, stages, immediate, 0).value;
            && 0 < |ps| <= |appraisals| && AllAdmitted(h, ps, appraisals) && now <= MinDeadline(ps)
    ensures r.Ok? ==>
            var ps := Unwind(h, codec, stages, immediate, 0).value;
            ps != [] && r.value == ProofOf(ps)
  {
    hide PolicyOk, Unwind, AllAdmitted, StagesOf, MinDeadline, IsChain;
    var pending := Prepare(h, codec, stages, immediate);
    if pending.Err? {
      return Err(pending.error);
    }
    UnwindExact(h, codec, stages, immediate, 0, pending.value);
    ChainLength(h, codec, stages, immediate, pending.value);
    PolicyNotEmpty(stages);
    var verified := AdmitStages(h, pending.value, appraisals);
    if verified.Err? {
      return Err(verified.error);
    }
    TakeAll(pending.value);
    var proof := verified.value.value;
    if now > proof.deadline {
      return Err(FreshnessExpired);
    }
    r := Ok(proof);
  }

  //
  // What a proof says, and why the link checks inside admission cannot fail
  //

  lemma {:induction false} MinDeadlineIsLeast(ps: seq<Pending>)
    requires ps != []
    ensures forall i :: 0 <= i < |ps| ==> MinDeadline(ps) <= Deadline(ps[i])
    ensures exists i :: 0 <= i < |ps| && MinDeadline(ps) == Deadline(ps[i])
    decreases |ps|
  {
    if |ps| > 1 {
      var front := ps[..|ps| - 1];
      MinDeadlineIsLeast(front);
      var i :| 0 <= i < |front| && MinDeadline(front) == Deadline(front[i]);
      assert front[i] == ps[i];
      assert forall j :: 0 <= j < |front| ==> front[j] == ps[j];
    } else {
      assert MinDeadline(ps) == Deadline(ps[0]);
    }
  }

  /**
   * The proof of an unwound chain lists the stages oldest first, has the one Value X they share, names the hash
   * of the input receipt as predecessor, and expires at the least of the stages' deadlines.
   */
  lemma ProofMeans(h: Hash32, codec: Codec, stages: seq<Entry>, immediate: bytes, ps: seq<Pending>)
    requires PolicyOk(stages) && Unwind(h, codec, stages, immediate, 0) == Ok(ps)
    ensures |ps| == |stages| > 0
    ensures var v := ProofOf(ps);
            && |v.stages| == |stages|
            && (forall i :: 0 <= i < |stages| ==>
                  && v.stages[i] == StageOf(ps[i]) && v.stages[i].name == stages[i].name
                  && v.stages[i].receipt == stages[i].receipt == h(Message(RawOf(ps, immediate, i)))
                  && codec.decode(Message(RawOf(ps, immediate, i))) == Some(ps[i].token)
                  && v.stages[i].valueX == v.valueX)
            && v.predecessor == h(Message(immediate))
            && (forall i :: 0 <= i < |ps| ==> v.deadline <= ps[i].token.iat + stages[i].maxAge)
            && (exists i :: 0 <= i < |ps| && v.deadline == ps[i].token.iat + stages[i].maxAge)
  {
    hide Unwind, EntryIs, MinDeadline, RawOf;
    UnwindExact(h, codec, stages, immediate, 0, ps);
    ChainPositions(h, codec, stages, immediate, ps);
    MinDeadlineIsLeast(ps);
  }

  lemma ChainPositions(h: Hash32, codec: Codec, stages: seq<Entry>, immediate: bytes, ps: seq<Pending>)
    requires PolicyOk(stages) && IsChain(h, codec, stages, immediate, ps)
    ensures |ps| == |stages| > 0
    ensures forall i :: 0 <= i < |ps| ==> StageIs(h, codec, stages[i], RawOf(ps, immediate, i), ps[i])
    ensures forall i :: 0 <= i < |ps| ==> ps[i].token.valueX == ps[0].token.valueX
    ensures RawOf(ps, immediate, |ps| - 1) == immediate && ps[0].token.previous == []
  {
    hide EntryIs;
    assert forall i :: 0 <= i < |ps| ==> StageIs(h, codec, stages[i], RawOf(ps, immediate, i), ps[i]);
  }

  /** Every stage of an unwound chain, and of its proof, makes exactly the claims enrolled for its place. */
  lemma EnrolledClaims(h: Hash32, codec: Codec, stages: seq<Entry>, immediate: bytes, ps: seq<Pending>, i: nat)
    requires Unwind(h, codec, stages, immediate, 0) == Ok(ps) && i < |stages|
    ensures |ps| == |stages|
    ensures var t, e := ps[i].token, stages[i];
            && t.sourceHash == e.sourceHash && t.artifactHash == e.artifactHash && t.valueX == e.valueX
            && t.nonce == e.nonce && t.platform == e.platform && t.tlsSpkiHash == h(Message(e.spki))
            && (t.suite == SUITE_COMPOSITE || (t.suite == 1 && e.platform != 4 && e.platform != 5))
    ensures var v, e := ProofOf(ps).stages[i], stages[i];
            && v.sourceHash == e.sourceHash && v.artifactHash == e.artifactHash && v.valueX == e.valueX
            && v.nonce == e.nonce && v.platform == e.platform && v.spkiHash == h(Message(e.spki))
            && v.issuedAt == ps[i].token.iat
  {
    hide Unwind, FromCbor, RawOf, MinDeadline, StagesOf;
    UnwindExact(h, codec, stages, immediate, 0, ps);
    assert StageIs(h, codec, stages[i], RawOf(ps, immediate, i), ps[i]);
  }

  /** A policy admits one receipt and one chain of stages, unless two receipts have the same hash. */
  lemma PolicyPinsReceipt(
    h: Hash32, codec: Codec, stages: seq<Entry>, a: bytes, ps: seq<Pending>, b: bytes, qs: seq<Pending>)
    requires stages != []
    requires Unwind(h, codec, stages, a, 0) == Ok(ps) && Unwind(h, codec, stages, b, 0) == Ok(qs)
    ensures (a == b && ps == qs) || Collide(h, {a}, {b})
  {
    hide Unwind, FromCbor, CheckToken;
    UnwindExact(h, codec, stages, a, 0, ps);
    UnwindExact(h, codec, stages, b, 0, qs);
    var n := |stages| - 1;
    assert StageIs(h, codec, stages[n], RawOf(ps, a, n), ps[n]) && StageIs(h, codec, stages[n], RawOf(qs, b, n), qs[n]);
  }

  lemma StageFacts(h: Hash32, codec: Codec, e: Entry, raw: bytes, p: Pending)
    requires StageIs(h, codec, e, raw, p)
    ensures raw != [] && p.receipt == h(Message(raw)) && ShapeOk(p.token) && (p.token.suite == 1 || p.token.suite == 2)
  {
    hide ShapeOk;
  }

  lemma RawBefore(ps: seq<Pending>, immediate: bytes, k: nat)
    requires 0 < k < |ps|
    ensures RawOf(ps, immediate, k - 1) == ps[k].token.previous
  {
  }

  /** Stage `k` carries the receipt of the stage before it, and its Value X. */
  lemma LinkHolds(h: Hash32, codec: Codec, stages: seq<Entry>, immediate: bytes, ps: seq<Pending>, k: nat)
    requires PolicyOk(stages) && IsChain(h, codec, stages, immediate, ps) && 0 < k < |ps|
    ensures ps[k].token.previous != [] && PreviousHash(h, ps[k].token) == ps[k - 1].receipt
    ensures ps[k].token.valueX == ps[0].token.valueX && (ps[k].token.suite == 1 || ps[k].token.suite == 2)
  {
    hide PolicyOk, IsChain, StageIs, RawOf, ShapeOk;
    ChainPositions(h, codec, stages, immediate, ps);
    RawBefore(ps, immediate, k);
    StageFacts(h, codec, stages[k - 1], RawOf(ps, immediate, k - 1), ps[k - 1]);
    StageFacts(h, codec, stages[k], RawOf(ps, immediate, k), ps[k]);
  }

  /** In an unwound chain only the clock can make a link check fail. */
  lemma LinksCannotFail(
    h: Hash32, codec: Codec, stages: seq<Entry>, immediate: bytes, ps: seq<Pending>, k: nat, now: nat)
    requires PolicyOk(stages) && Unwind(h, codec, stages, immediate, 0) == Ok(ps) && 0 < k < |ps|
    ensures CheckChild(h, ProofOf(ps[..k]), ps[k].token, now) <==>
            forall j :: 0 <= j < k ==> now <= ps[j].token.iat + ps[j].policy.maxAge
  {
    hide PolicyOk, Unwind, MinDeadline, IsChain, StagesOf;
    UnwindExact(h, codec, stages, immediate, 0, ps);
    LinkHolds(h, codec, stages, immediate, ps, k);
    BeforeAllDeadlines(ps, k, now);
  }

  /**
   * A token is accepted as the child of an unwound chain exactly when it carries bytes that hash like the chain's
   * receipt, shares its Value X under a full-width binding, and no stage's deadline has passed.
   */
  lemma ChildExactly(
    h: Hash32, codec: Codec, stages: seq<Entry>, immediate: bytes, ps: seq<Pending>, child: Token, now: nat)
    requires PolicyOk(stages) && Unwind(h, codec, stages, immediate, 0) == Ok(ps)
    ensures |ps| == |stages| > 0
    ensures CheckChild(h, ProofOf(ps), child, now) <==>
            && child.previous != [] && h(Message(child.previous)) == h(Message(immediate))
            && child.valueX == stages[0].valueX && (child.suite == 1 || child.suite == 2)
            && forall j :: 0 <= j < |ps| ==> now <= ps[j].token.iat + ps[j].policy.maxAge
  {
    hide Unwind, MinDeadline, StagesOf, RawOf, EntryIs;
    UnwindExact(h, codec, stages, immediate, 0, ps);
    ChainPositions(h, codec, stages, immediate, ps);
    BeforeAllDeadlines(ps, |ps|, now);
    TakeAll(ps);
  }

  /** So the child of a verified chain carries its very receipt, or two receipts have the same hash. */
  lemma ChildCarriesReceipt(
    h: Hash32, codec: Codec, stages: seq<Entry>, immediate: bytes, ps: seq<Pending>, child: Token, now: nat)
    requires PolicyOk(stages) && Unwind(h, codec, stages, immediate, 0) == Ok(ps) && ps != []
    requires CheckChild(h, ProofOf(ps), child, now)
    ensures child.previous == immediate || Collide(h, {child.previous}, {immediate})
  {
    hide Unwind, PolicyOk, CheckChild, ProofOf;
    ChildExactly(h, codec, stages, immediate, ps, child, now);
  }

  lemma BeforeAllDeadlines(ps: seq<Pending>, k: nat, now: nat)
    requires 0 < k <= |ps|
    ensures now <= MinDeadline(ps[..k]) <==> forall j :: 0 <= j < k ==> now <= ps[j].token.iat + ps[j].policy.maxAge
  {
    hide MinDeadline;
    MinDeadlineIsLeast(ps[..k]);
    forall j | 0 <= j < k ensures ps[..k][j] == ps[j] && MinDeadline(ps[..k]) <= Deadline(ps[j]) {
      assert MinDeadline(ps[..k]) <= Deadline(ps[..k][j]);
    }
    var i :| 0 <= i < k && MinDeadline(ps[..k]) == Deadline(ps[..k][i]);
    assert ps[..k][i] == ps[i];
  }

  /** Every other check of stage `k` passes while the proof before it is fresh, and its deadline does not overflow. */
  predicate StageInTime(ps: seq<Pending>, appraisals: seq<Appraisal>, k: nat)
    requires k < |ps| <= |appraisals|
  {
    && ps[k].token.iat + ps[k].policy.maxAge < U64 && appraisals[k].passes
    && forall j :: 0 <= j < k ==>
         && appraisals[k].start <= ps[j].token.iat + ps[j].policy.maxAge
         && appraisals[k].end <= ps[j].token.iat + ps[j].policy.maxAge
  }

  lemma StageAdmittedExact(
    h: Hash32, codec: Codec, stages: seq<Entry>, immediate: bytes, ps: seq<Pending>, appraisals: seq<Appraisal>, k: nat)
    requires PolicyOk(stages) && Unwind(h, codec, stages, immediate, 0) == Ok(ps) && k < |ps| <= |appraisals|
    ensures StageAdmitted(h, ps, appraisals, k) <==> StageInTime(ps, appraisals, k)
  {
    hide PolicyOk, Unwind, CheckChild, MinDeadline, IsChain, StageIs, ShapeOk, StagesOf, RawOf;
    UnwindExact(h, codec, stages, immediate, 0, ps);
    ChainPositions(h, codec, stages, immediate, ps);
    StageFacts(h, codec, stages[k], RawOf(ps, immediate, k), ps[k]);
    if k > 0 {
      LinksCannotFail(h, codec, stages, immediate, ps, k, appraisals[k].start);
      LinksCannotFail(h, codec, stages, immediate, ps, k, appraisals[k].end);
    }
  }

  /** So an unwound chain is admitted exactly when every stage passes its other checks in time. */
  lemma AdmissionExact(
    h: Hash32, codec: Codec, stages: seq<Entry>, immediate: bytes, ps: seq<Pending>, appraisals: seq<Appraisal>)
    requires PolicyOk(stages) && Unwind(h, codec, stages, immediate, 0) == Ok(ps) && |ps| <= |appraisals|
    ensures AllAdmitted(h, ps, appraisals) <==> forall k :: 0 <= k < |ps| ==> StageInTime(ps, appraisals, k)
  {
    hide PolicyOk, Unwind, StageAdmitted, StageInTime;
    forall k | 0 <= k < |ps|
      ensures StageAdmitted(h, ps, appraisals, k) <==> StageInTime(ps, appraisals, k)
    {
      StageAdmittedExact(h, codec, stages, immediate, ps, appraisals, k);
    }
  }
}
