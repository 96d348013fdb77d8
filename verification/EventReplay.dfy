/** Replaying an event log into PCRs or RTMRs. */
module EventReplay {
  import opened Bytes
  import opened BootTypes

  /** The three hash functions a log can be replayed with. */
  datatype Sha2 = Sha2(sha256: Hash32, sha384: Hash48, sha512: Hash64)

  predicate Supported(algorithm: nat) {
    algorithm == TPM_ALG_SHA256 || algorithm == TPM_ALG_SHA384 || algorithm == TPM_ALG_SHA512
  }

  function DigestSize(algorithm: nat): nat {
    if algorithm == TPM_ALG_SHA256 then 32 else if algorithm == TPM_ALG_SHA384 then 48 else 64
  }

  function Hasher(h: Sha2, algorithm: nat): Message -> bytes {
    if algorithm == TPM_ALG_SHA256 then h.sha256 else if algorithm == TPM_ALG_SHA384 then h.sha384 else h.sha512
  }

  /** "StartupLocality" and its terminating zero. */
  const LOCALITY: bytes := [0x53, 0x74, 0x61, 0x72, 0x74, 0x75, 0x70, 0x4c, 0x6f, 0x63, 0x61, 0x6c, 0x69, 0x74, 0x79, 0]

  //
  // Replay
  //

  /** The bank a log is replayed in. */
  datatype Bank = Bank(kind: LogKind, algorithm: nat, hashes: Sha2) {
    function Size(): nat {
      DigestSize(algorithm)
    }

    function Hash(x: bytes): (d: bytes)
      ensures |d| == Size()
    {
      Hasher(hashes, algorithm)(Message(x))
    }

    function Count(): nat {
      if kind == Tpm2 then 16 else 4
    }

    /** The event is extended into some register of the bank. */
    predicate Extends(e: Event) {
      && e.eventType != EV_NO_ACTION
      && (kind == TdxCcel ==> e.register > 0)
      && (kind == Tpm2 ==> e.register <= 15)
    }

    predicate IsLocality(e: Event) {
      kind == Tpm2 && e.eventType == EV_NO_ACTION && LOCALITY <= e.data
    }

    /** Register that the MR index of an event stands for: MRTD is no RTMR, so CCEL counts from one. */
    function Index(register: nat): int {
      if kind == TdxCcel then register - 1 else register
    }

    predicate InRange(e: Event) {
      kind == TdxCcel ==> e.register <= 4
    }
  }

  datatype State = State(registers: seq<bytes>, pcr0Extended: bool, localitySeen: bool)

  ghost predicate StateOk(k: Bank, st: State) {
    |st.registers| == k.Count() && forall i :: 0 <= i < |st.registers| ==> |st.registers[i]| == k.Size()
  }

  predicate LocalityRefused(st: State, e: Event) {
    || e.register != 0
    || st.pcr0Extended
    || st.localitySeen
    || |e.data| != 17
    || (e.data[16] != 0 && e.data[16] != 3)
    || (exists d :: d in e.digests.Values && !AllAre(d, 0))
  }

  function Step(k: Bank, st: State, e: Event): (r: Boot<State>)
    requires StateOk(k, st) && k.InRange(e)
    ensures r.Ok? ==> StateOk(k, r.value)
  {
    if e.eventType == EV_NO_ACTION then
      if !k.IsLocality(e) then Ok(st)
      else if LocalityRefused(st, e) then Err(UnsupportedLocality)
      else
        var reset := st.registers[0][k.Size() - 1 := e.data[16]];
        Ok(st.(localitySeen := true, registers := st.registers[0 := reset]))
    else if k.kind == TdxCcel && e.register == 0 then Err(UnsupportedMrtd)
    else if k.kind == Tpm2 && e.register > 15 then Ok(st)
    else if k.algorithm !in e.digests then Err(MissingReplayBank)
    else
      var i := k.Index(e.register);
      Ok(st.(registers := st.registers[i := k.Hash(st.registers[i] + e.digests[k.algorithm])],
             pcr0Extended := st.pcr0Extended || (k.kind == Tpm2 && e.register == 0)))
  }

  ghost predicate InRange(k: Bank, es: seq<Event>) {
    forall i :: 0 <= i < |es| ==> k.InRange(es[i])
  }

  function Initial(k: Bank): (st: State)
    ensures StateOk(k, st)
  {
    State(seq(k.Count(), _ => Fill(k.Size(), 0)), false, false)
  }

  function Run(k: Bank, es: seq<Event>): (r: Boot<State>)
    requires InRange(k, es)
    ensures r.Ok? ==> StateOk(k, r.value)
  {
    if es == [] then Ok(Initial(k))
    else
      var st :- Run(k, es[..|es| - 1]);
      Step(k, st, es[|es| - 1])
  }

  /** What parsing guarantees about a log. */
  ghost predicate LogShape(log: EventLog) {
    forall i :: 0 <= i < |log.events| ==>
      && (log.kind == TdxCcel ==> log.events[i].register <= 4)
      && forall a :: a in log.events[i].digests ==>
           a in log.algorithms && |log.events[i].digests[a]| == log.algorithms[a]
  }

  function BankOf(h: Sha2, log: EventLog, algorithm: nat): Bank {
    Bank(log.kind, algorithm, h)
  }

  function Replay(h: Sha2, log: EventLog, algorithm: nat): Boot<seq<bytes>>
    requires LogShape(log)
  {
    if !Supported(algorithm) then Err(UnsupportedAlgorithm(algorithm))
    else if !(algorithm in log.algorithms && log.algorithms[algorithm] == DigestSize(algorithm)) then
      Err(UnsupportedAlgorithm(algorithm))
    else if log.kind == TdxCcel && algorithm != TPM_ALG_SHA384 then Err(TdxRequiresSha384)
    else
      var st :- Run(BankOf(h, log, algorithm), log.events);
      Ok(st.registers)
  }

  /** The log advertises a replayable bank of this algorithm. */
  predicate Replayable(log: EventLog, algorithm: nat) {
    && Supported(algorithm)
    && algorithm in log.algorithms && log.algorithms[algorithm] == DigestSize(algorithm)
    && (log.kind == TdxCcel ==> algorithm == TPM_ALG_SHA384)
  }

  lemma ReplayRuns(h: Sha2, log: EventLog, algorithm: nat)
    requires LogShape(log) && Replayable(log, algorithm)
    ensures InRange(BankOf(h, log, algorithm), log.events)
    ensures var run := Run(BankOf(h, log, algorithm), log.events);
            Replay(h, log, algorithm) == if run.Ok? then Ok(run.value.registers) else Err(run.error)
  {
    hide Run;
  }

  /** One turn of the replay loop: the event's effect on the register file and the two flags. */
  method Apply(k: Bank, st: State, e: Event) returns (r: Boot<State>)
    requires StateOk(k, st) && k.InRange(e)
    ensures r == Step(k, st, e)
  {
    hide Bank.Hash, AllAre;
    var values, pcr0Extended, localitySeen := st.registers, st.pcr0Extended, st.localitySeen;
    if e.eventType == EV_NO_ACTION {
      if k.IsLocality(e) {
        if LocalityRefused(st, e) {
          return Err(UnsupportedLocality);
        }
        localitySeen := true;
        values := values[0 := values[0][k.Size() - 1 := e.data[16]]];
      }
      return Ok(State(values, pcr0Extended, localitySeen));
    }
    var index := e.register;
    if k.kind == TdxCcel {
      if e.register == 0 {
        return Err(UnsupportedMrtd);
      }
      index := e.register - 1;
    } else {
      if e.register > 15 {
        return Ok(st);
      }
      if e.register == 0 {
        pcr0Extended := true;
      }
    }
    if k.algorithm !in e.digests {
      return Err(MissingReplayBank);
    }
    values := values[index := k.Hash(values[index] + e.digests[k.algorithm])];
    r := Ok(State(values, pcr0Extended, localitySeen));
  }

  /** The replay loop over the event list. */
  method ReplayLog(h: Sha2, log: EventLog, algorithm: nat) returns (r: Boot<seq<bytes>>)
    requires LogShape(log)
    ensures r == Replay(h, log, algorithm)
  {
    hide Run, Step, LogShape;
    if !Supported(algorithm) || algorithm !in log.algorithms || log.algorithms[algorithm] != DigestSize(algorithm) {
      return Err(UnsupportedAlgorithm(algorithm));
    }
    if log.kind == TdxCcel && algorithm != TPM_ALG_SHA384 {
      return Err(TdxRequiresSha384);
    }
    var k := BankOf(h, log, algorithm);
    ReplayRuns(h, log, algorithm);
    var st := Initial(k);
    RunEmpty(k);
    for n := 0 to |log.events|
      invariant StateOk(k, st)
      invariant Run(k, log.events[..n]) == Ok(st)
    {
      RunSnoc(k, log.events, n);
      var next := Apply(k, st, log.events[n]);
      if next.Err? {
        RunStopped(k, log.events, n + 1);
        return Err(next.error);
      }
      st := next.value;
    }
    TakeAll(log.events);
    r := Ok(st.registers);
  }

  lemma RunEmpty(k: Bank)
    ensures Run(k, []) == Ok(Initial(k))
  {
  }

  lemma RunSnoc(k: Bank, es: seq<Event>, n: nat)
    requires InRange(k, es) && n < |es|
    ensures InRange(k, es[..n]) && InRange(k, es[..n + 1])
    ensures Run(k, es[..n + 1]) ==
            if Run(k, es[..n]).Ok? then Step(k, Run(k, es[..n]).value, es[n]) else Run(k, es[..n])
  {
    assert es[..n + 1][..n] == es[..n];
  }

  /** Once an event is refused the log is refused, with the same error. */
  lemma {:induction false} RunStopped(k: Bank, es: seq<Event>, n: nat)
    requires InRange(k, es) && n <= |es| && Run(k, es[..n]).Err?
    ensures Run(k, es) == Run(k, es[..n])
    decreases |es| - n
  {
    if n == |es| {
      assert es[..n] == es;
    } else {
      RunSnoc(k, es, n);
      RunStopped(k, es, n + 1);
    }
  }
}
