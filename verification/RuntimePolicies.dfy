/** Runtime appraisal: a policy of exact AAEL events pins the authenticated RTMR3. */
module RuntimePolicies {
  import opened Bytes
  import opened BootTypes
  import opened Aael
  import opened EventReplay
  import opened RegisterCommitment
  import opened RuntimeLogs

  datatype RuntimePolicy = RuntimePolicy(expected: seq<RuntimeEvent>)

  datatype VerifiedRuntime = VerifiedRuntime(events: seq<RuntimeEvent>, indices: seq<nat>, rtmr3: bytes)

  function TotalSize(events: seq<RuntimeEvent>): nat {
    if events == [] then 0 else TotalSize(events[..|events| - 1]) + events[|events| - 1].Size()
  }

  /** The encodings of all events, one after another. */
  function AllEncoded(events: seq<RuntimeEvent>): bytes {
    if events == [] then [] else EncodeAael(events[0]) + AllEncoded(events[1..])
  }

  lemma {:induction false} AllEncodedLast(events: seq<RuntimeEvent>)
    requires events != []
    ensures |AllEncoded(events)| == |AllEncoded(events[..|events| - 1])| + |EncodeAael(events[|events| - 1])|
    decreases |events|
  {
    hide EncodeAael;
    if |events| > 1 {
      AllEncodedLast(events[1..]);
      assert events[1..][..|events| - 2] == events[..|events| - 1][1..];
    } else {
      assert events[1..] == [] && events[..0] == [];
    }
  }

  /** The total that the limit applies to is the length of all encodings together. */
  lemma {:induction false} TotalIsLength(events: seq<RuntimeEvent>)
    ensures TotalSize(events) == |AllEncoded(events)|
    decreases |events|
  {
    hide EncodeAael;
    if events != [] {
      TotalIsLength(events[..|events| - 1]);
      AllEncodedLast(events);
      SizeIsLength(events[|events| - 1]);
    }
  }

  ghost predicate PolicyOk(policy: RuntimePolicy) {
    && |policy.expected| <= DEFAULT_LIMITS.maxEvents
    && (forall e :: e in policy.expected ==> e.Valid())
    && TotalSize(policy.expected) <= DEFAULT_LIMITS.maxLogBytes
  }

  method ValidatePolicy(policy: RuntimePolicy) returns (fault: Option<BootError>)
    ensures fault.None? <==> PolicyOk(policy)
  {
    hide RuntimeEvent.Valid, RuntimeEvent.Size;
    if |policy.expected| > DEFAULT_LIMITS.maxEvents {
      return Some(Limit(PolicyEvents));
    }
    var size := 0;
    for n := 0 to |policy.expected|
      invariant forall m :: 0 <= m < n ==> policy.expected[m].Valid()
      invariant size == TotalSize(policy.expected[..n])
    {
      if !policy.expected[n].Valid() {
        return Some(Runtime(FieldsInvalid));
      }
      assert policy.expected[..n + 1][..n] == policy.expected[..n];
      size := size + policy.expected[n].Size();
    }
    TakeAll(policy.expected);
    if size > DEFAULT_LIMITS.maxLogBytes {
      return Some(Limit(PolicyBytes));
    }
    fault := None;
  }

  /** First value under a key, as a map of registers would give it. */
  function Lookup(values: seq<Register>, algorithm: nat, index: nat): (v: Option<bytes>)
    ensures v.Some? ==> Register(algorithm, index, v.value) in values
  {
    if values == [] then None
    else if values[0].algorithm == algorithm && values[0].index == index then Some(values[0].value)
    else Lookup(values[1..], algorithm, index)
  }

  predicate HasRtmr(expected: AuthenticatedRegisters, i: nat) {
    Lookup(expected.values, TPM_ALG_SHA384, i).Some? && |Lookup(expected.values, TPM_ALG_SHA384, i).value| == 48
  }

  predicate HasAllRtmrs(expected: AuthenticatedRegisters) {
    && |expected.values| == 4
    && HasRtmr(expected, 0) && HasRtmr(expected, 1) && HasRtmr(expected, 2) && HasRtmr(expected, 3)
  }

  /** The four RTMRs of a TDX quote are all there, each under its own index. */
  lemma QuoteHasAllRtmrs(rtmrs: seq<bytes>)
    requires |rtmrs| == 4 && forall i :: 0 <= i < 4 ==> |rtmrs[i]| == 48
    ensures HasAllRtmrs(TdxRegisters(rtmrs))
    ensures forall i :: 0 <= i < 4 ==> Lookup(TdxRegisters(rtmrs).values, TPM_ALG_SHA384, i) == Some(rtmrs[i])
  {
    var values := TdxRegisters(rtmrs).values;
    assert values == [values[0], values[1], values[2], values[3]];
    assert values[1..] == [values[1], values[2], values[3]];
    assert values[1..][1..] == [values[2], values[3]];
    assert values[1..][1..][1..] == [values[3]];
    LookupNext(values, 1);
    LookupNext(values, 2);
    LookupNext(values[1..], 2);
    LookupNext(values, 3);
    LookupNext(values[1..], 3);
    LookupNext(values[1..][1..], 3);
  }

  lemma LookupNext(values: seq<Register>, i: nat)
    requires values != [] && values[0].index != i
    ensures Lookup(values, TPM_ALG_SHA384, i) == Lookup(values[1..], TPM_ALG_SHA384, i)
  {
  }

  /** An MRIndex 4 event is an AAEL record whose digest is that of its own data. */
  predicate Genuine(h: Sha2, e: Event) {
    && ParseAael(e).Ok?
    && TPM_ALG_SHA384 in e.digests
    && e.digests[TPM_ALG_SHA384] == h.sha384(Message(e.data))
  }

  ghost predicate AllGenuine(h: Sha2, es: seq<Event>) {
    forall i :: 0 <= i < |es| && es[i].register == 4 ==> Genuine(h, es[i])
  }

  /** The runtime events of a log, and where they are. */
  function Records(es: seq<Event>): seq<RuntimeEvent> {
    if es == [] then []
    else
      var e, front := es[|es| - 1], Records(es[..|es| - 1]);
      if e.register == 4 && ParseAael(e).Ok? then front + [ParseAael(e).value] else front
  }

  function RecordIndices(es: seq<Event>): seq<nat> {
    if es == [] then []
    else
      var front := RecordIndices(es[..|es| - 1]);
      if es[|es| - 1].register == 4 then front + [|es| - 1] else front
  }

  /** The indices are those of the MRIndex 4 events, in order. */
  lemma {:induction false} IndicesExactly(es: seq<Event>)
    ensures forall n :: n in RecordIndices(es) <==> 0 <= n < |es| && es[n].register == 4
    ensures forall m, n :: 0 <= m < n < |RecordIndices(es)| ==> RecordIndices(es)[m] < RecordIndices(es)[n]
    decreases |es|
  {
    if es != [] {
      var front := es[..|es| - 1];
      IndicesExactly(front);
      var at := RecordIndices(front);
      assert forall n :: 0 <= n < |at| ==> at[n] in at;
    }
  }

  /** The records are what the events at those indices read as. */
  lemma {:induction false} RecordsExactly(es: seq<Event>, n: nat)
    requires forall i :: 0 <= i < |es| && es[i].register == 4 ==> ParseAael(es[i]).Ok?
    requires n < |RecordIndices(es)|
    ensures |Records(es)| == |RecordIndices(es)| && RecordIndices(es)[n] < |es|
    ensures ParseAael(es[RecordIndices(es)[n]]) == Ok(Records(es)[n])
    decreases |es|
  {
    hide ParseAael;
    if es != [] {
      var front, at := es[..|es| - 1], RecordIndices(es[..|es| - 1]);
      assert forall i :: 0 <= i < |front| ==> front[i] == es[i];
      RecordCount(front);
      if n < |at| {
        RecordsExactly(front, n);
      }
    }
  }

  lemma {:induction false} RecordCount(es: seq<Event>)
    requires forall i :: 0 <= i < |es| && es[i].register == 4 ==> ParseAael(es[i]).Ok?
    ensures |Records(es)| == |RecordIndices(es)|
    decreases |es|
  {
    hide ParseAael;
    if es != [] {
      RecordCount(es[..|es| - 1]);
    }
  }

  ghost predicate Accepted(h: Sha2, log: EventLog, expected: AuthenticatedRegisters, policy: RuntimePolicy)
    requires LogShape(log)
  {
    && PolicyOk(policy)
    && log.kind == TdxCcel && expected.kind == TdxCcel
    && HasAllRtmrs(expected)
    && Matches(h, log, expected)
    && AllGenuine(h, log.events)
    && Records(log.events) == policy.expected
  }

  lemma RecordsSnoc(es: seq<Event>, n: nat)
    requires n < |es|
    ensures Records(es[..n + 1]) ==
            if es[n].register == 4 && ParseAael(es[n]).Ok? then Records(es[..n]) + [ParseAael(es[n]).value]
            else Records(es[..n])
    ensures RecordIndices(es[..n + 1]) ==
            if es[n].register == 4 then RecordIndices(es[..n]) + [n] else RecordIndices(es[..n])
  {
    hide ParseAael;
    assert es[..n + 1][..n] == es[..n] && es[..n + 1][n] == es[n];
  }

  /** With all four RTMRs covered, a genuine record's digest is an authenticated one. */
  lemma RecordAuthenticated(log: EventLog, expected: AuthenticatedRegisters, n: nat)
    requires log.kind == TdxCcel && HasAllRtmrs(expected) && n < |log.events|
    requires log.events[n].register == 4 && ParseAael(log.events[n]).Ok?
    ensures TPM_ALG_SHA384 in log.events[n].digests
    ensures AuthenticatedDigest(VerifiedLog(log, expected.Covered()), n, TPM_ALG_SHA384) ==
            Ok(log.events[n].digests[TPM_ALG_SHA384])
  {
    hide ParseAael;
    AaelSound(log.events[n], ParseAael(log.events[n]).value);
    assert Register(TPM_ALG_SHA384, 3, Lookup(expected.values, TPM_ALG_SHA384, 3).value) in expected.values;
    assert (TPM_ALG_SHA384, 3) in expected.Covered();
  }

  /** Runtime appraisal accepts exactly the matching logs whose genuine records are the policy's events in order. */
  method VerifyTdxRuntime(h: Sha2, log: EventLog, expected: AuthenticatedRegisters, policy: RuntimePolicy)
    returns (r: Boot<(VerifiedLog, VerifiedRuntime)>)
    requires LogShape(log)
    ensures r.Ok? <==> Accepted(h, log, expected, policy)
    ensures r.Ok? ==> Lookup(expected.values, TPM_ALG_SHA384, 3) == Some(r.value.1.rtmr3)
    ensures r.Ok? ==> r.value.0 == VerifiedLog(log, expected.Covered())
    ensures r.Ok? ==> r.value.1.events == policy.expected && r.value.1.indices == RecordIndices(log.events)
  {
    hide PolicyOk, Matches, LogShape, ParseAael, Records, RecordIndices, Lookup, AuthenticatedDigest,
         AuthenticatedRegisters.Covered;
    var fault := ValidatePolicy(policy);
    if fault.Some? {
      return Err(fault.value);
    }
    if log.kind != TdxCcel || expected.kind != TdxCcel {
      return Err(PlatformMismatch);
    }
    if !HasAllRtmrs(expected) {
      return Err(InvalidRegisters);
    }
    var verified :- Verify(h, log, expected);
    var records: seq<RuntimeEvent>, indices: seq<nat> := [], [];
    NoRecords();
    for n := 0 to |log.events|
      invariant records == Records(log.events[..n]) && indices == RecordIndices(log.events[..n])
      invariant forall m :: 0 <= m < n && log.events[m].register == 4 ==> Genuine(h, log.events[m])
    {
      var event := log.events[n];
      RecordsSnoc(log.events, n);
      if event.register != 4 {
        continue;
      }
      var record := ParseAael(event);
      if record.Err? {
        assert !Genuine(h, log.events[n]);
        return Err(record.error);
      }
      RecordAuthenticated(log, expected, n);
      var digest := AuthenticatedDigest(verified, n, TPM_ALG_SHA384);
      if digest.value != h.sha384(Message(event.data)) {
        assert !Genuine(h, log.events[n]);
        return Err(ContentMismatch(n));
      }
      records := records + [record.value];
      indices := indices + [n];
    }
    TakeAll(log.events);
    if records != policy.expected {
      return Err(Runtime(PolicyMismatch));
    }
    r := Ok((verified, VerifiedRuntime(records, indices, Lookup(expected.values, TPM_ALG_SHA384, 3).value)));
  }

  lemma NoRecords()
    ensures Records([]) == [] && RecordIndices([]) == []
  {
  }

  //
  // The policy pins RTMR3
  //

  /** The digests an agent extends for `events`. */
  function Measured(h: Sha2, events: seq<RuntimeEvent>): seq<bytes> {
    if events == [] then []
    else Measured(h, events[..|events| - 1]) + [h.sha384(Message(EncodeAael(events[|events| - 1])))]
  }

  lemma {:induction false} ExtendedAreMeasured(h: Sha2, es: seq<Event>)
    requires AllGenuine(h, es)
    ensures Extended(TdxBank(h), 3, es) == Measured(h, Records(es))
    decreases |es|
  {
    hide ParseAael, EncodeAael;
    if es != [] {
      var front, e := es[..|es| - 1], es[|es| - 1];
      ExtendedAreMeasured(h, front);
      if e.register == 4 {
        assert Genuine(h, e);
        var record := ParseAael(e).value;
        AaelSound(e, record);
        assert (Records(front) + [record])[..|Records(front)|] == Records(front);
      }
    }
  }

  /** The value RTMR3 must have for a list of runtime events. */
  function Rtmr3Of(h: Sha2, events: seq<RuntimeEvent>): bytes {
    Fold(TdxBank(h), Fill(48, 0), Measured(h, events))
  }

  /** Success means that the authenticated RTMR3 is the fold, from zero, of exactly the policy's events in order. */
  lemma PolicyPinsRtmr3(h: Sha2, log: EventLog, expected: AuthenticatedRegisters, policy: RuntimePolicy)
    requires LogShape(log) && Accepted(h, log, expected, policy)
    ensures Lookup(expected.values, TPM_ALG_SHA384, 3) == Some(Rtmr3Of(h, policy.expected))
  {
    hide PolicyOk, Matches, LogShape, Records, Extended, StartValue, Measured, Fold, AllGenuine, Lookup;
    var k := TdxBank(h);
    var v := Lookup(expected.values, TPM_ALG_SHA384, 3).value;
    MatchedRegister(h, log, expected, Register(TPM_ALG_SHA384, 3, v));
    TdxStart(k, 3, log.events);
    ExtendedAreMeasured(h, log.events);
  }

  /** The encodings hashed for `events`. */
  ghost function Encodings(events: seq<RuntimeEvent>): set<bytes> {
    set i | 0 <= i < |events| :: EncodeAael(events[i])
  }

  lemma {:induction false} MeasuredAt(h: Sha2, events: seq<RuntimeEvent>, i: nat)
    requires i < |events|
    ensures |Measured(h, events)| == |events|
    ensures Measured(h, events)[i] == h.sha384(Message(EncodeAael(events[i])))
    decreases |events|
  {
    hide EncodeAael;
    if |events| > 1 {
      MeasuredAt(h, events[..|events| - 1], if i < |events| - 1 then i else 0);
    }
  }

  lemma MeasuredCommits(h: Sha2, es: seq<RuntimeEvent>, fs: seq<RuntimeEvent>)
    requires Measured(h, es) == Measured(h, fs)
    requires forall e :: e in es || e in fs ==> e.Valid()
    ensures es == fs || Collide(h.sha384, Encodings(es), Encodings(fs))
  {
    hide EncodeAael, RuntimeEvent.Valid, Measured;
    MeasuredLength(h, es);
    MeasuredLength(h, fs);
    if !Collide(h.sha384, Encodings(es), Encodings(fs)) {
      forall i | 0 <= i < |es|
        ensures es[i] == fs[i]
      {
        MeasuredAt(h, es, i);
        MeasuredAt(h, fs, i);
        assert EncodeAael(es[i]) in Encodings(es) && EncodeAael(fs[i]) in Encodings(fs);
        EncodeInjective(es[i], fs[i]);
      }
    }
  }

  lemma {:induction false} MeasuredLength(h: Sha2, events: seq<RuntimeEvent>)
    ensures |Measured(h, events)| == |events| && AllSized(TdxBank(h), Measured(h, events))
    decreases |events|
  {
    hide EncodeAael;
    if events != [] {
      MeasuredLength(h, events[..|events| - 1]);
    }
  }

  /**
   * One RTMR3 value admits one list of runtime events, unless hashing it exhibits a collision or a preimage
   * of zero.
   */
  lemma Rtmr3Commits(h: Sha2, es: seq<RuntimeEvent>, fs: seq<RuntimeEvent>)
    requires Rtmr3Of(h, es) == Rtmr3Of(h, fs)
    requires forall e :: e in es || e in fs ==> e.Valid()
    ensures || es == fs
            || Collide(h.sha384, Encodings(es), Encodings(fs))
            || HashBroken(TdxBank(h), Fill(48, 0), Measured(h, es), Fill(48, 0), Measured(h, fs))
  {
    hide Measured, Fold, RuntimeEvent.Valid, HashBroken, Encodings;
    MeasuredLength(h, es);
    MeasuredLength(h, fs);
    FoldCommits(TdxBank(h), Fill(48, 0), Measured(h, es), Fill(48, 0), Measured(h, fs));
    if Measured(h, es) == Measured(h, fs) {
      MeasuredCommits(h, es, fs);
    }
  }
}
