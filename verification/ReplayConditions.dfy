/** When a log replays and what its registers then are, said of the event list alone. */
module ReplayConditions {
  import opened Bytes
  import opened BootTypes
  import opened EventReplay
  import opened RegisterCommitment

  //
  // Events
  //

  /** Anything but EV_NO_ACTION is measured. */
  predicate Measures(e: Event) {
    e.eventType != 3
  }

  /** An EV_NO_ACTION record that says where the TPM was started from. */
  predicate IsStartup(e: Event) {
    e.eventType == 3 && Ascii("StartupLocality") + [0] <= e.data
  }

  /** The record at `i` is the first of its kind, before any measurement into PCR 0, and of the accepted form. */
  ghost predicate StartupOk(es: seq<Event>, i: nat)
    requires i < |es|
  {
    && es[i].register == 0 && |es[i].data| == 17 && (es[i].data[16] == 0 || es[i].data[16] == 3)
    && (forall a :: a in es[i].digests ==> AllAre(es[i].digests[a], 0))
    && (forall j :: 0 <= j < i ==> !IsStartup(es[j]) && !(Measures(es[j]) && es[j].register == 0))
  }

  /** Every measurement into a replayed register carries the bank; startup records come once and early. */
  ghost predicate TpmReplays(algorithm: nat, es: seq<Event>) {
    && (forall i :: 0 <= i < |es| && Measures(es[i]) && es[i].register <= 15 ==> algorithm in es[i].digests)
    && (forall i :: 0 <= i < |es| && IsStartup(es[i]) ==> StartupOk(es, i))
  }

  /** Nothing is measured into MRTD, and every measurement carries the bank. */
  ghost predicate TdxReplays(algorithm: nat, es: seq<Event>) {
    forall i :: 0 <= i < |es| && Measures(es[i]) ==> es[i].register > 0 && algorithm in es[i].digests
  }

  ghost predicate Replays(kind: LogKind, algorithm: nat, es: seq<Event>) {
    if kind == Tpm2 then TpmReplays(algorithm, es) else TdxReplays(algorithm, es)
  }

  //
  // Acceptance
  //

  ghost predicate AnyStartup(es: seq<Event>) {
    exists i :: 0 <= i < |es| && IsStartup(es[i])
  }

  ghost predicate AnyPcr0(es: seq<Event>) {
    exists i :: 0 <= i < |es| && Measures(es[i]) && es[i].register == 0
  }

  lemma LocalityLiteral()
    ensures LOCALITY == Ascii("StartupLocality") + [0]
  {
  }

  lemma AnySnoc(es: seq<Event>)
    requires es != []
    ensures AnyStartup(es) <==> AnyStartup(es[..|es| - 1]) || IsStartup(es[|es| - 1])
    ensures AnyPcr0(es) <==> AnyPcr0(es[..|es| - 1]) || (Measures(es[|es| - 1]) && es[|es| - 1].register == 0)
  {
    hide IsStartup, Measures;
    var front := es[..|es| - 1];
    assert forall i :: 0 <= i < |front| ==> front[i] == es[i];
    if i :| 0 <= i < |front| && IsStartup(front[i]) {
      assert IsStartup(es[i]);
    }
    if i :| 0 <= i < |front| && Measures(front[i]) && front[i].register == 0 {
      assert Measures(es[i]);
    }
  }

  /** The two flags of a TPM replay tell what has gone before. */
  lemma {:induction false} FlagsMean(k: Bank, es: seq<Event>)
    requires k.kind == Tpm2 && InRange(k, es) && Run(k, es).Ok?
    ensures Run(k, es).value.localitySeen <==> AnyStartup(es)
    ensures Run(k, es).value.pcr0Extended <==> AnyPcr0(es)
    decreases |es|
  {
    hide Bank.Hash, AllAre, AnyStartup, AnyPcr0, LocalityRefused;
    LocalityLiteral();
    if es == [] {
      NothingYet();
    } else {
      FlagsMean(k, es[..|es| - 1]);
      AnySnoc(es);
    }
  }

  lemma NothingYet()
    ensures !AnyStartup([]) && !AnyPcr0([])
  {
  }

  lemma DigestsZero(e: Event)
    ensures (exists d :: d in e.digests.Values && !AllAre(d, 0)) <==>
            exists a :: a in e.digests && !AllAre(e.digests[a], 0)
  {
    hide AllAre;
    if a :| a in e.digests && !AllAre(e.digests[a], 0) {
      assert e.digests[a] in e.digests.Values;
    }
  }

  /** When one more event is accepted by a TPM replay. */
  lemma TpmStep(k: Bank, es: seq<Event>)
    requires k.kind == Tpm2 && es != [] && InRange(k, es) && Run(k, es[..|es| - 1]).Ok?
    ensures var e := es[|es| - 1];
            Run(k, es).Ok? <==>
            && (Measures(e) && e.register <= 15 ==> k.algorithm in e.digests)
            && (IsStartup(e) ==> StartupOk(es, |es| - 1))
  {
    hide Bank.Hash, AllAre, AnyStartup, AnyPcr0;
    var e, front := es[|es| - 1], es[..|es| - 1];
    LocalityLiteral();
    FlagsMean(k, front);
    DigestsZero(e);
    EarlierClean(es);
  }

  lemma EarlierClean(es: seq<Event>)
    requires es != []
    ensures (forall j :: 0 <= j < |es| - 1 ==> !IsStartup(es[j]) && !(Measures(es[j]) && es[j].register == 0)) <==>
            !AnyStartup(es[..|es| - 1]) && !AnyPcr0(es[..|es| - 1])
  {
    hide IsStartup, Measures;
    var front := es[..|es| - 1];
    assert forall i :: 0 <= i < |front| ==> front[i] == es[i];
  }

  lemma StartupLocal(es: seq<Event>, i: nat)
    requires i < |es| - 1
    ensures StartupOk(es, i) <==> StartupOk(es[..|es| - 1], i)
  {
    hide IsStartup, Measures, AllAre;
    var front := es[..|es| - 1];
    assert forall j :: 0 <= j < |front| ==> front[j] == es[j];
  }

  lemma TpmSnoc(algorithm: nat, es: seq<Event>)
    requires es != []
    ensures var e := es[|es| - 1];
            TpmReplays(algorithm, es) <==>
            && TpmReplays(algorithm, es[..|es| - 1])
            && (Measures(e) && e.register <= 15 ==> algorithm in e.digests)
            && (IsStartup(e) ==> StartupOk(es, |es| - 1))
  {
    hide IsStartup, Measures, StartupOk;
    var front := es[..|es| - 1];
    assert forall j :: 0 <= j < |front| ==> front[j] == es[j];
    forall i | 0 <= i < |front| ensures StartupOk(es, i) <==> StartupOk(front, i) {
      StartupLocal(es, i);
    }
  }

  lemma {:induction false} TpmRunsExactly(k: Bank, es: seq<Event>)
    requires k.kind == Tpm2 && InRange(k, es)
    ensures Run(k, es).Ok? <==> TpmReplays(k.algorithm, es)
    decreases |es|
  {
    hide Step, TpmReplays, StartupOk, IsStartup, Measures;
    if es == [] {
      NothingReplays(k.algorithm);
    } else {
      TpmRunsExactly(k, es[..|es| - 1]);
      TpmSnoc(k.algorithm, es);
      if Run(k, es[..|es| - 1]).Ok? {
        TpmStep(k, es);
      }
    }
  }

  lemma NothingReplays(algorithm: nat)
    ensures TpmReplays(algorithm, []) && TdxReplays(algorithm, [])
  {
  }

  lemma {:induction false} TdxRunsExactly(k: Bank, es: seq<Event>)
    requires k.kind == TdxCcel && InRange(k, es)
    ensures Run(k, es).Ok? <==> TdxReplays(k.algorithm, es)
    decreases |es|
  {
    hide Bank.Hash, AllAre;
    if es != [] {
      var front, e := es[..|es| - 1], es[|es| - 1];
      TdxRunsExactly(k, front);
      assert forall j :: 0 <= j < |front| ==> front[j] == es[j];
      assert TdxReplays(k.algorithm, es) <==>
             TdxReplays(k.algorithm, front) && (Measures(e) ==> e.register > 0 && k.algorithm in e.digests);
    }
  }

  //
  // Registers
  //

  /** The digests of the measurements into event register `r`, in order. */
  function DigestsOf(algorithm: nat, es: seq<Event>, r: nat): seq<bytes> {
    if es == [] then []
    else
      (if Measures(es[0]) && es[0].register == r && algorithm in es[0].digests then [es[0].digests[algorithm]] else [])
      + DigestsOf(algorithm, es[1..], r)
  }

  lemma {:induction false} DigestsOfLast(algorithm: nat, es: seq<Event>, r: nat)
    requires es != []
    ensures var e := es[|es| - 1];
            DigestsOf(algorithm, es, r) == DigestsOf(algorithm, es[..|es| - 1], r) +
            if Measures(e) && e.register == r && algorithm in e.digests then [e.digests[algorithm]] else []
    decreases |es|
  {
    hide Measures;
    var front := es[..|es| - 1];
    if front == [] {
      assert es[1..] == [];
    } else {
      DigestsOfLast(algorithm, es[1..], r);
      assert es[1..][..|es| - 2] == front[1..];
    }
  }

  /** The event register that is replayed into register `i`: MRTD has index 0 in a CCEL log, so RTMR i is i + 1. */
  function EventRegister(kind: LogKind, i: nat): nat {
    if kind == Tpm2 then i else i + 1
  }

  lemma {:induction false} ExtendedExactly(k: Bank, i: nat, es: seq<Event>)
    requires i < k.Count()
    ensures Extended(k, i, es) == DigestsOf(k.algorithm, es, EventRegister(k.kind, i))
    decreases |es|
  {
    if es != [] {
      ExtendedExactly(k, i, es[..|es| - 1]);
      DigestsOfLast(k.algorithm, es, EventRegister(k.kind, i));
    }
  }

  /** Zeros; but PCR 0 of a TPM log with a startup record begins with that record's locality in its last byte. */
  ghost predicate StartIs(kind: LogKind, size: nat, i: nat, es: seq<Event>, v: bytes)
    requires size > 0
  {
    && (forall n :: 0 <= n < |es| && kind == Tpm2 && i == 0 && IsStartup(es[n]) && |es[n].data| == 17 ==>
          v == Fill(size - 1, 0) + [es[n].data[16]])
    && (kind != Tpm2 || i != 0 || !AnyStartup(es) ==> v == Fill(size, 0))
  }

  lemma SizePositive(k: Bank)
    ensures k.Size() > 0
  {
  }

  lemma LastByte(size: nat, x: byte)
    requires size > 0
    ensures Fill(size, 0)[size - 1 := x] == Fill(size - 1, 0) + [x]
  {
  }

  lemma {:induction false} StartExactly(k: Bank, i: nat, es: seq<Event>)
    requires Replays(k.kind, k.algorithm, es)
    ensures k.Size() > 0 && StartIs(k.kind, k.Size(), i, es, StartValue(k, i, es))
    decreases |es|
  {
    hide AllAre;
    LocalityLiteral();
    SizePositive(k);
    if es != [] {
      var e, front := es[|es| - 1], es[..|es| - 1];
      assert forall j :: 0 <= j < |front| ==> front[j] == es[j];
      if k.kind == Tpm2 && i == 0 {
        TpmSnoc(k.algorithm, es);
        StartExactly(k, i, front);
        StartSnoc(k, es);
      } else {
        PlainStart(k, i, es);
      }
    }
  }

  lemma {:induction false} PlainStart(k: Bank, i: nat, es: seq<Event>)
    requires k.kind != Tpm2 || i != 0
    ensures StartValue(k, i, es) == Fill(k.Size(), 0)
    decreases |es|
  {
    if es != [] {
      PlainStart(k, i, es[..|es| - 1]);
    }
  }

  lemma StartSnoc(k: Bank, es: seq<Event>)
    requires k.kind == Tpm2 && es != [] && TpmReplays(k.algorithm, es) && k.Size() > 0
    requires StartIs(Tpm2, k.Size(), 0, es[..|es| - 1], StartValue(k, 0, es[..|es| - 1]))
    ensures StartIs(Tpm2, k.Size(), 0, es, StartValue(k, 0, es))
  {
    hide AllAre, IsStartup, Measures, TpmReplays, AnyStartup, Bank.IsLocality, Bank.Size, StartValue;
    var e, front := es[|es| - 1], es[..|es| - 1];
    assert forall j :: 0 <= j < |front| ==> front[j] == es[j];
    AnySnoc(es);
    StartLast(k, es);
    if IsStartup(e) {
      LastStartup(k.algorithm, es);
    }
  }

  lemma LastStartup(algorithm: nat, es: seq<Event>)
    requires es != [] && TpmReplays(algorithm, es) && IsStartup(es[|es| - 1])
    ensures |es[|es| - 1].data| == 17 && forall j :: 0 <= j < |es| - 1 ==> !IsStartup(es[j])
  {
    hide AllAre, IsStartup, Measures;
    assert StartupOk(es, |es| - 1);
  }

  lemma StartLast(k: Bank, es: seq<Event>)
    requires k.kind == Tpm2 && es != [] && k.Size() > 0
    ensures var e := es[|es| - 1];
            StartValue(k, 0, es) ==
            if IsStartup(e) && |e.data| == 17 then Fill(k.Size() - 1, 0) + [e.data[16]]
            else StartValue(k, 0, es[..|es| - 1])
  {
    hide IsStartup, Bank.Size;
    var e := es[|es| - 1];
    StartupIsLocality(k, e);
    if |e.data| == 17 {
      LastByte(k.Size(), e.data[16]);
    }
  }

  lemma StartupIsLocality(k: Bank, e: Event)
    requires k.kind == Tpm2
    ensures k.IsLocality(e) <==> IsStartup(e)
  {
    LocalityLiteral();
  }

  /**
   * A log replays in a bank exactly when it advertises the bank and its events meet the conditions; register `i`
   * is then the fold, from its start value, of the digests of the events with its own index.
   */
  lemma ReplayExactly(h: Sha2, log: EventLog, algorithm: nat)
    requires LogShape(log)
    ensures Replay(h, log, algorithm).Ok? <==> Replayable(log, algorithm) && Replays(log.kind, algorithm, log.events)
    ensures Replay(h, log, algorithm).Ok? ==>
              var registers := Replay(h, log, algorithm).value;
              && |registers| == (if log.kind == Tpm2 then 16 else 4)
              && forall i :: 0 <= i < |registers| ==> RegisterIs(h, log, algorithm, i, registers[i])
  {
    hide Run, LogShape, Replays, RegisterIs, InRange;
    if Replayable(log, algorithm) {
      ReplayRuns(h, log, algorithm);
      var k := BankOf(h, log, algorithm);
      RunsExactly(k, log.events);
      if Run(k, log.events).Ok? {
        ReplaySizes(h, log, algorithm);
        forall i: nat | i < |Replay(h, log, algorithm).value|
          ensures RegisterIs(h, log, algorithm, i, Replay(h, log, algorithm).value[i])
        {
          RunRegister(h, log, algorithm, i);
        }
      }
    }
  }

  lemma RunsExactly(k: Bank, es: seq<Event>)
    requires InRange(k, es)
    ensures Run(k, es).Ok? <==> Replays(k.kind, k.algorithm, es)
  {
    hide Run, TpmReplays, TdxReplays;
    if k.kind == Tpm2 {
      TpmRunsExactly(k, es);
    } else {
      TdxRunsExactly(k, es);
    }
  }

  ghost predicate RegisterIs(h: Sha2, log: EventLog, algorithm: nat, i: nat, value: bytes) {
    var k := BankOf(h, log, algorithm);
    exists start :: |start| == k.Size() > 0 && StartIs(log.kind, k.Size(), i, log.events, start) &&
      value == Fold(k, start, DigestsOf(algorithm, log.events, EventRegister(log.kind, i)))
  }

  lemma RunRegister(h: Sha2, log: EventLog, algorithm: nat, i: nat)
    requires LogShape(log) && Replayable(log, algorithm) && Replays(log.kind, algorithm, log.events)
    requires Replay(h, log, algorithm).Ok? && i < |Replay(h, log, algorithm).value|
    ensures RegisterIs(h, log, algorithm, i, Replay(h, log, algorithm).value[i])
  {
    hide Run, LogShape, Replays, Fold, DigestsOf, StartIs, StartValue, Extended, InRange;
    var k := BankOf(h, log, algorithm);
    ReplayRuns(h, log, algorithm);
    ReplaySizes(h, log, algorithm);
    RunMeans(k, log.events);
    StartExactly(k, i, log.events);
    ExtendedExactly(k, i, log.events);
    assert StartIs(log.kind, k.Size(), i, log.events, StartValue(k, i, log.events));
  }

  //
  // Authenticated digests
  //

  /**
   * In a verified log every measurement into a covered register has an authenticated digest, its own, and
   * nothing else has.
   */
  lemma AuthenticatedExactly(h: Sha2, log: EventLog, expected: AuthenticatedRegisters, event: nat, algorithm: nat)
    requires LogShape(log) && Matches(h, log, expected)
    ensures var d := AuthenticatedDigest(VerifiedLog(log, expected.Covered()), event, algorithm);
            && (d.Ok? <==>
                && event < |log.events| && Measures(log.events[event])
                && exists r :: r in expected.values && r.algorithm == algorithm &&
                     log.events[event].register == EventRegister(log.kind, r.index))
            && (d.Ok? ==> algorithm in log.events[event].digests && d.value == log.events[event].digests[algorithm])
  {
    hide Replay, LogShape, Replays;
    if event < |log.events| {
      forall r | r in expected.values && r.algorithm == algorithm &&
                 Measures(log.events[event]) && log.events[event].register == EventRegister(log.kind, r.index)
        ensures algorithm in log.events[event].digests
      {
        assert RegisterMatches(h, log, r);
        ReplayExactly(h, log, algorithm);
        CarriesBank(log.kind, algorithm, log.events, event);
      }
    }
  }

  lemma CarriesBank(kind: LogKind, algorithm: nat, es: seq<Event>, n: nat)
    requires Replays(kind, algorithm, es) && n < |es| && Measures(es[n])
    requires kind == Tpm2 ==> es[n].register <= 15
    ensures algorithm in es[n].digests
  {
  }
}
