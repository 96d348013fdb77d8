/** What a log that matches authenticated registers is committed to, and the comparison itself. */
module RegisterCommitment {
  import opened Bytes
  import opened BootTypes
  import opened EventReplay

  //
  // A register is the extend-fold of its own digests
  //

  /** Digests extended into register `i`, in order. */
  function Extended(k: Bank, i: nat, es: seq<Event>): seq<bytes> {
    if es == [] then []
    else
      var e := es[|es| - 1];
      var front := Extended(k, i, es[..|es| - 1]);
      if k.Extends(e) && k.Index(e.register) == i && k.algorithm in e.digests then front + [e.digests[k.algorithm]]
      else front
  }

  /** Value of register `i` before any extension: zeros, except that StartupLocality sets the last byte of PCR 0. */
  function StartValue(k: Bank, i: nat, es: seq<Event>): (v: bytes)
    ensures |v| == k.Size()
  {
    if es == [] then Fill(k.Size(), 0)
    else
      var e := es[|es| - 1];
      if i == 0 && k.IsLocality(e) && |e.data| == 17 then Fill(k.Size(), 0)[k.Size() - 1 := e.data[16]]
      else StartValue(k, i, es[..|es| - 1])
  }

  function Fold(k: Bank, start: bytes, ds: seq<bytes>): (v: bytes)
    requires |start| == k.Size()
    ensures |v| == k.Size()
  {
    if ds == [] then start else k.Hash(Fold(k, start, ds[..|ds| - 1]) + ds[|ds| - 1])
  }

  /** The inputs hashed by `Fold`. */
  ghost function FoldInputs(k: Bank, start: bytes, ds: seq<bytes>): set<bytes>
    requires |start| == k.Size()
  {
    if ds == [] then {}
    else FoldInputs(k, start, ds[..|ds| - 1]) + {Fold(k, start, ds[..|ds| - 1]) + ds[|ds| - 1]}
  }

  lemma FoldSnoc(k: Bank, start: bytes, ds: seq<bytes>, d: bytes)
    requires |start| == k.Size()
    ensures Fold(k, start, ds + [d]) == k.Hash(Fold(k, start, ds) + d)
  {
    hide Bank.Hash;
    assert (ds + [d])[..|ds|] == ds;
  }

  /** What the replay state means after the events `es`. */
  ghost predicate Means(k: Bank, es: seq<Event>, st: State) {
    && StateOk(k, st)
    && (forall i :: 0 <= i < k.Count() ==> st.registers[i] == Fold(k, StartValue(k, i, es), Extended(k, i, es)))
    && (k.kind == Tpm2 && !st.pcr0Extended ==> Extended(k, 0, es) == [])
    && (k.kind == Tpm2 && !st.localitySeen ==> StartValue(k, 0, es) == Fill(k.Size(), 0))
  }

  lemma StepMeans(k: Bank, es: seq<Event>, st: State, e: Event)
    requires k.InRange(e) && Means(k, es, st) && Step(k, st, e).Ok?
    ensures Means(k, es + [e], Step(k, st, e).value)
  {
    hide Bank.Hash, AllAre;
    var all, next := es + [e], Step(k, st, e).value;
    assert all[..|es|] == es && all[|es|] == e;
    forall i | 0 <= i < k.Count()
      ensures next.registers[i] == Fold(k, StartValue(k, i, all), Extended(k, i, all))
    {
      if k.Extends(e) && k.Index(e.register) == i {
        FoldSnoc(k, StartValue(k, i, es), Extended(k, i, es), e.digests[k.algorithm]);
      }
    }
  }

  /** Replay computes, for every register, the fold of exactly the digests extended into it. */
  lemma {:induction false} RunMeans(k: Bank, es: seq<Event>)
    requires InRange(k, es) && Run(k, es).Ok?
    ensures Means(k, es, Run(k, es).value)
    decreases |es|
  {
    hide Step, Means;
    if es == [] {
      InitialMeans(k);
    } else {
      var front := es[..|es| - 1];
      RunMeans(k, front);
      StepMeans(k, front, Run(k, front).value, es[|es| - 1]);
      assert front + [es[|es| - 1]] == es;
    }
  }

  lemma InitialMeans(k: Bank)
    ensures Means(k, [], Initial(k))
  {
  }

  //
  // Equal folds have equal histories, up to hash collisions
  //

  ghost predicate AllSized(k: Bank, ds: seq<bytes>) {
    forall i :: 0 <= i < |ds| ==> |ds[i]| == k.Size()
  }

  /** A collision between the two folds, or a hash input of one that hits the start value of the other. */
  ghost predicate HashBroken(k: Bank, s: bytes, ds: seq<bytes>, t: bytes, es: seq<bytes>)
    requires |s| == |t| == k.Size()
  {
    var f := Hasher(k.hashes, k.algorithm);
    || Collide(f, FoldInputs(k, s, ds), FoldInputs(k, t, es))
    || HitsTarget(f, FoldInputs(k, s, ds), t)
    || HitsTarget(f, FoldInputs(k, t, es), s)
  }

  lemma {:induction false} FoldCommits(k: Bank, s: bytes, ds: seq<bytes>, t: bytes, es: seq<bytes>)
    requires |s| == |t| == k.Size() && AllSized(k, ds) && AllSized(k, es)
    requires Fold(k, s, ds) == Fold(k, t, es)
    ensures (s == t && ds == es) || HashBroken(k, s, ds, t, es)
    decreases |ds|
  {
    if ds == [] && es == [] {
    } else if ds == [] {
      assert HitsTarget(Hasher(k.hashes, k.algorithm), FoldInputs(k, t, es), s);
    } else if es == [] {
      assert HitsTarget(Hasher(k.hashes, k.algorithm), FoldInputs(k, s, ds), t);
    } else {
      var ds', d, es', e := ds[..|ds| - 1], ds[|ds| - 1], es[..|es| - 1], es[|es| - 1];
      var v, w := Fold(k, s, ds'), Fold(k, t, es');
      if v + d == w + e {
        assert (v + d)[..k.Size()] == v && (w + e)[..k.Size()] == w;
        assert (v + d)[k.Size()..] == d && (w + e)[k.Size()..] == e;
        FoldCommits(k, s, ds', t, es');
        if s == t && ds' == es' {
          assert ds == ds' + [d] && es == es' + [e];
        }
      }
    }
  }

  //
  // Comparison with authenticated registers
  //

  datatype Register = Register(algorithm: nat, index: nat, value: bytes)

  /** Registers from a verified quote, in the order of (algorithm, index). */
  datatype AuthenticatedRegisters = AuthenticatedRegisters(kind: LogKind, values: seq<Register>) {
    function Covered(): set<(nat, nat)> {
      set r | r in values :: (r.algorithm, r.index)
    }

    /** What both constructors establish. */
    ghost predicate Admissible() {
      && values != []
      && forall r :: r in values ==>
           && Supported(r.algorithm) && |r.value| == DigestSize(r.algorithm)
           && r.index < if kind == Tpm2 then 16 else 4
    }
  }

  function TdxRegisters(rtmrs: seq<bytes>): (a: AuthenticatedRegisters)
    requires |rtmrs| == 4 && forall i :: 0 <= i < 4 ==> |rtmrs[i]| == 48
    ensures a.Admissible() && a.kind == TdxCcel && |a.values| == 4
    ensures forall i :: 0 <= i < 4 ==> a.values[i] == Register(TPM_ALG_SHA384, i, rtmrs[i])
  {
    AuthenticatedRegisters(TdxCcel, seq(4, i requires 0 <= i < 4 => Register(TPM_ALG_SHA384, i, rtmrs[i])))
  }

  function TpmRegisters(values: seq<Register>): (r: Boot<AuthenticatedRegisters>)
    ensures r.Ok? <==> AuthenticatedRegisters(Tpm2, values).Admissible()
    ensures r.Ok? ==> r.value == AuthenticatedRegisters(Tpm2, values)
  {
    if values == [] || exists r :: r in values && r.index > 15 then Err(InvalidRegisters)
    else
      var fault := FirstFault(values);
      if fault.Some? then Err(fault.value) else Ok(AuthenticatedRegisters(Tpm2, values))
  }

  /** The error of the first register whose bank or digest length is not usable. */
  function FirstFault(values: seq<Register>): (fault: Option<BootError>)
    ensures fault.None? <==> forall r :: r in values ==> Supported(r.algorithm) && |r.value| == DigestSize(r.algorithm)
  {
    if values == [] then None
    else if !Supported(values[0].algorithm) then Some(UnsupportedAlgorithm(values[0].algorithm))
    else if |values[0].value| != DigestSize(values[0].algorithm) then Some(InvalidRegisters)
    else
      assert forall r :: r in values <==> r == values[0] || r in values[1..];
      FirstFault(values[1..])
  }

  datatype VerifiedLog = VerifiedLog(log: EventLog, covered: set<(nat, nat)>)

  ghost predicate RegisterMatches(h: Sha2, log: EventLog, r: Register)
    requires LogShape(log)
  {
    var replay := Replay(h, log, r.algorithm);
    replay.Ok? && r.index < |replay.value| && replay.value[r.index] == r.value
  }

  ghost predicate Matches(h: Sha2, log: EventLog, expected: AuthenticatedRegisters)
    requires LogShape(log)
  {
    && log.kind == expected.kind
    && expected.values != []
    && forall r :: r in expected.values ==> RegisterMatches(h, log, r)
  }

  ghost predicate Replayed(h: Sha2, log: EventLog, banks: map<nat, seq<bytes>>)
    requires LogShape(log)
  {
    forall a :: a in banks ==> Replay(h, log, a) == Ok(banks[a])
  }

  /** Replays every bank that some authenticated register needs, once each. */
  method ReplayBanks(h: Sha2, log: EventLog, values: seq<Register>) returns (r: Boot<map<nat, seq<bytes>>>)
    requires LogShape(log)
    ensures r.Ok? ==> Replayed(h, log, r.value) && r.value.Keys == set v | v in values :: v.algorithm
    ensures r.Err? ==> exists v :: v in values && Replay(h, log, v.algorithm) == Err(r.error)
  {
    hide Replay, LogShape;
    var replayed: map<nat, seq<bytes>> := map[];
    for n := 0 to |values|
      invariant Replayed(h, log, replayed)
      invariant replayed.Keys == set v | v in values[..n] :: v.algorithm
    {
      var algorithm := values[n].algorithm;
      assert values[..n + 1] == values[..n] + [values[n]];
      if algorithm !in replayed {
        var registers := ReplayLog(h, log, algorithm);
        if registers.Err? {
          assert values[n] in values;
          return Err(registers.error);
        }
        replayed := replayed[algorithm := registers.value];
      }
    }
    assert values[..|values|] == values;
    r := Ok(replayed);
  }

  /** A log is verified exactly when every authenticated register equals its replay. */
  method Verify(h: Sha2, log: EventLog, expected: AuthenticatedRegisters) returns (r: Boot<VerifiedLog>)
    requires LogShape(log)
    ensures r.Ok? <==> Matches(h, log, expected)
    ensures r.Ok? ==> r.value == VerifiedLog(log, expected.Covered())
    ensures r == Err(PlatformMismatch) <==> log.kind != expected.kind
    ensures expected.Admissible() ==> r != Err(InvalidRegisters)
  {
    hide Replay, LogShape, AuthenticatedRegisters.Covered;
    if log.kind != expected.kind {
      return Err(PlatformMismatch);
    }
    if expected.values == [] {
      return Err(InvalidRegisters);
    }
    var banks := ReplayBanks(h, log, expected.values);
    if banks.Err? {
      ghost var v :| v in expected.values && Replay(h, log, v.algorithm) == Err(banks.error);
      ReplayErrors(h, log, v.algorithm);
      assert !RegisterMatches(h, log, v);
      return Err(banks.error);
    }
    for n := 0 to |expected.values|
      invariant forall m :: 0 <= m < n ==> RegisterMatches(h, log, expected.values[m])
    {
      var wanted := expected.values[n];
      assert wanted in expected.values;
      var actual := banks.value[wanted.algorithm];
      ReplaySizes(h, log, wanted.algorithm);
      if wanted.index >= |actual| || |wanted.value| != |actual[wanted.index]| {
        assert !RegisterMatches(h, log, wanted);
        return Err(InvalidRegisters);
      }
      if actual[wanted.index] != wanted.value {
        assert !RegisterMatches(h, log, wanted);
        return Err(RegisterMismatch(wanted.algorithm, wanted.index));
      }
    }
    r := Ok(VerifiedLog(log, expected.Covered()));
  }

  lemma ReplaySizes(h: Sha2, log: EventLog, algorithm: nat)
    requires LogShape(log) && Replay(h, log, algorithm).Ok?
    ensures var regs := Replay(h, log, algorithm).value;
            && Supported(algorithm)
            && |regs| == (if log.kind == Tpm2 then 16 else 4)
            && forall i :: 0 <= i < |regs| ==> |regs[i]| == DigestSize(algorithm)
  {
    hide Run, LogShape;
    ReplayRuns(h, log, algorithm);
  }

  /** Replay never complains about the register set or the platform. */
  lemma ReplayErrors(h: Sha2, log: EventLog, algorithm: nat)
    requires LogShape(log) && Replay(h, log, algorithm).Err?
    ensures Replay(h, log, algorithm) != Err(InvalidRegisters)
    ensures Replay(h, log, algorithm) != Err(PlatformMismatch)
  {
    hide Run, LogShape;
    if Replayable(log, algorithm) {
      ReplayRuns(h, log, algorithm);
      RunErrors(BankOf(h, log, algorithm), log.events);
    }
  }

  lemma {:induction false} RunErrors(k: Bank, es: seq<Event>)
    requires InRange(k, es) && Run(k, es).Err?
    ensures Run(k, es).error in {UnsupportedLocality, UnsupportedMrtd, MissingReplayBank}
    decreases |es|
  {
    hide Bank.Hash, AllAre;
    if es != [] && Run(k, es[..|es| - 1]).Err? {
      RunErrors(k, es[..|es| - 1]);
    }
  }

  //
  // The commitment theorem
  //

  /** Register `i` starts with the same value and extends the same digests in both event lists. */
  ghost predicate SameHistory(k: Bank, i: nat, es: seq<Event>, fs: seq<Event>) {
    StartValue(k, i, es) == StartValue(k, i, fs) && Extended(k, i, es) == Extended(k, i, fs)
  }

  ghost predicate HistoryBroken(k: Bank, i: nat, es: seq<Event>, fs: seq<Event>) {
    HashBroken(k, StartValue(k, i, es), Extended(k, i, es), StartValue(k, i, fs), Extended(k, i, fs))
  }

  lemma {:induction false} ExtendedSized(k: Bank, i: nat, es: seq<Event>)
    requires forall n :: 0 <= n < |es| ==> k.algorithm in es[n].digests ==> |es[n].digests[k.algorithm]| == k.Size()
    ensures AllSized(k, Extended(k, i, es))
    decreases |es|
  {
    if es != [] {
      ExtendedSized(k, i, es[..|es| - 1]);
    }
  }

  lemma MatchedRegister(h: Sha2, log: EventLog, expected: AuthenticatedRegisters, r: Register)
    requires LogShape(log) && Matches(h, log, expected) && r in expected.values
    ensures var k := Bank(expected.kind, r.algorithm, h);
            && AllSized(k, Extended(k, r.index, log.events))
            && r.index < k.Count()
            && r.value == Fold(k, StartValue(k, r.index, log.events), Extended(k, r.index, log.events))
  {
    hide Run, Fold, StartValue, Extended;
    var k := Bank(expected.kind, r.algorithm, h);
    assert RegisterMatches(h, log, r);
    ReplayRuns(h, log, r.algorithm);
    RunMeans(k, log.events);
    ExtendedSized(k, r.index, log.events);
  }

  /**
   * Two logs that match the same authenticated registers have, in every covered register, the same
   * start value and the same digests in the same order, unless the replays exhibit a hash collision
   * or a preimage of a start value.
   */
  lemma RegistersCommit(h: Sha2, a: EventLog, b: EventLog, expected: AuthenticatedRegisters, r: Register)
    requires LogShape(a) && LogShape(b) && Matches(h, a, expected) && Matches(h, b, expected) && r in expected.values
    ensures var k := Bank(expected.kind, r.algorithm, h);
            SameHistory(k, r.index, a.events, b.events) || HistoryBroken(k, r.index, a.events, b.events)
  {
    hide Matches, LogShape, Fold, StartValue, Extended, HashBroken;
    var k := Bank(expected.kind, r.algorithm, h);
    MatchedRegister(h, a, expected, r);
    MatchedRegister(h, b, expected, r);
    FoldCommits(k, StartValue(k, r.index, a.events), Extended(k, r.index, a.events),
                StartValue(k, r.index, b.events), Extended(k, r.index, b.events));
  }

  /** The digest of an event that a covered register authenticates. */
  function AuthenticatedDigest(v: VerifiedLog, event: nat, algorithm: nat): Boot<bytes> {
    if event >= |v.log.events| then Err(UnauthenticatedEvent(event)) else
    var e := v.log.events[event];
    if e.eventType == EV_NO_ACTION then Err(UnauthenticatedEvent(event))
    else if v.log.kind == TdxCcel && e.register == 0 then Err(UnauthenticatedEvent(event)) else
    var index := if v.log.kind == TdxCcel then e.register - 1 else e.register;
    if (algorithm, index) !in v.covered then Err(UnauthenticatedEvent(event))
    else if algorithm !in e.digests then Err(UnauthenticatedEvent(event))
    else Ok(e.digests[algorithm])
  }

  /** How many earlier events were extended into register `i`. */
  function Rank(k: Bank, i: nat, es: seq<Event>, event: nat): nat
    requires event <= |es|
  {
    |Extended(k, i, es[..event])|
  }

  lemma {:induction false} ExtendedPrefix(k: Bank, i: nat, es: seq<Event>, n: nat)
    requires n <= |es|
    ensures Extended(k, i, es[..n]) <= Extended(k, i, es)
    decreases |es|
  {
    if n == |es| {
      TakeAll(es);
    } else {
      ExtendedPrefix(k, i, es[..|es| - 1], n);
      assert es[..|es| - 1][..n] == es[..n];
    }
  }

  /** An authenticated digest is the one its register extended at the event's rank. */
  lemma AuthenticatedAtRank(h: Sha2, log: EventLog, expected: AuthenticatedRegisters, event: nat, algorithm: nat)
    requires LogShape(log) && Matches(h, log, expected)
    requires AuthenticatedDigest(VerifiedLog(log, expected.Covered()), event, algorithm).Ok?
    ensures var k := Bank(log.kind, algorithm, h);
            var i := k.Index(log.events[event].register);
            && i >= 0 && (algorithm, i) in expected.Covered()
            && Rank(k, i, log.events, event) < |Extended(k, i, log.events)|
            && Extended(k, i, log.events)[Rank(k, i, log.events, event)] ==
               AuthenticatedDigest(VerifiedLog(log, expected.Covered()), event, algorithm).value
  {
    hide Fold, StartValue, LogShape, Replay;
    var k := Bank(log.kind, algorithm, h);
    var e := log.events[event];
    var i := k.Index(e.register);
    var r :| r in expected.values && (r.algorithm, r.index) == (algorithm, i);
    MatchedRegister(h, log, expected, r);
    var before, upTo := log.events[..event], log.events[..event + 1];
    assert upTo[..event] == before && upTo[event] == e;
    assert Extended(k, i, upTo) == Extended(k, i, before) + [e.digests[algorithm]];
    ExtendedPrefix(k, i, log.events, event + 1);
  }

  /** Events of equal rank in a covered register carry equal authenticated digests in both logs. */
  lemma RanksAgree(h: Sha2, a: EventLog, b: EventLog, expected: AuthenticatedRegisters, m: nat, n: nat, algorithm: nat)
    requires LogShape(a) && LogShape(b) && Matches(h, a, expected) && Matches(h, b, expected)
    requires AuthenticatedDigest(VerifiedLog(a, expected.Covered()), m, algorithm).Ok?
    requires AuthenticatedDigest(VerifiedLog(b, expected.Covered()), n, algorithm).Ok?
    requires a.events[m].register == b.events[n].register
    requires var k := Bank(a.kind, algorithm, h); var i := k.Index(a.events[m].register);
             i >= 0 && Rank(k, i, a.events, m) == Rank(k, i, b.events, n)
    ensures var k := Bank(a.kind, algorithm, h); var i := k.Index(a.events[m].register);
            || AuthenticatedDigest(VerifiedLog(a, expected.Covered()), m, algorithm) ==
               AuthenticatedDigest(VerifiedLog(b, expected.Covered()), n, algorithm)
            || HistoryBroken(k, i, a.events, b.events)
  {
    hide LogShape, RegisterMatches, StartValue, Extended, HashBroken;
    AuthenticatedAtRank(h, a, expected, m, algorithm);
    AuthenticatedAtRank(h, b, expected, n, algorithm);
    var k := Bank(a.kind, algorithm, h);
    var i := k.Index(a.events[m].register);
    var r :| r in expected.values && (r.algorithm, r.index) == (algorithm, i);
    RegistersCommit(h, a, b, expected, r);
  }
}
