/** AAEL records behind a firmware log: what parsing guarantees, appending, and the effect on replay. */
module RuntimeLogs {
  import opened Bytes
  import opened BootTypes
  import opened Aael
  import opened EventLogs
  import opened EventLogEncoding
  import opened EventLogReader
  import opened EventReplay
  import opened RegisterCommitment

  //
  // What parsing guarantees
  //

  /** What the parser has checked about each event it returns. */
  ghost predicate Checked(e: Event, p: Profile, banks: map<nat, nat>) {
    && p.RegisterOk(e.register)
    && (forall a :: a in e.digests ==> a in banks && |e.digests[a]| == banks[a])
    && (p.kind == TdxCcel ==> TPM_ALG_SHA384 in e.digests)
    && (p.kind == TdxCcel && e.register == 4 ==> ParseAael(e).Ok?)
  }

  lemma DecodedChecked(w: WireEvent, at: nat, p: Profile, banks: map<nat, nat>)
    requires EventOk(w, p, banks)
    ensures Checked(Decoded(w, at), p, banks)
  {
    hide ParseAael, ToMap;
    ToMapContent(w.digests);
    AaelIgnoresOffset(w, at);
  }

  lemma {:induction false} DecodedEventsChecked(ws: seq<WireEvent>, at: nat, p: Profile, banks: map<nat, nat>)
    requires EventsOk(ws, p, banks)
    ensures forall e :: e in DecodedEvents(ws, at) ==> Checked(e, p, banks)
    decreases |ws|
  {
    hide Checked, EventOk, EncodeEvent;
    if ws != [] {
      DecodedChecked(ws[0], at, p, banks);
      DecodedEventsChecked(ws[1..], at + |EncodeEvent(ws[0])|, p, banks);
    }
  }

  lemma ParsedChecked(b: bytes, p: Profile)
    requires Parse(b, p).Ok?
    ensures var log := Parse(b, p).value;
            log.kind == p.kind && forall e :: e in log.events ==> Checked(e, p, log.algorithms)
  {
    hide Parse, Checked, EncodeHeader, EncodeLog, EventsOk;
    var s, ws := ParseBackward(b, p);
    ParseForward(b, p, s, ws);
    DecodedEventsChecked(ws, |EncodeHeader(s)|, p, ToMap(s.banks));
  }

  /** Every parsed log has the shape that replay relies on. */
  lemma ParsedShape(b: bytes, p: Profile)
    requires Parse(b, p).Ok?
    ensures LogShape(Parse(b, p).value) && Parse(b, p).value.kind == p.kind
  {
    hide Parse, ParseAael;
    ParsedChecked(b, p);
    var log := Parse(b, p).value;
    forall i | 0 <= i < |log.events|
      ensures Checked(log.events[i], p, log.algorithms)
    {
    }
  }

  //
  // Appending AAEL records to a firmware log
  //

  lemma {:induction false} EventsExtend(b: bytes, at: nat, p: Profile, banks: map<nat, nat>, acc: seq<Event>)
    requires ParseEvents(b, at, p, banks, acc).Ok?
    ensures acc <= ParseEvents(b, at, p, banks, acc).value.0
    decreases |b| - at
  {
    hide ParseEvent, AtEnd;
    if !AtEnd(b, at, p) {
      var (event, next) := ParseEvent(b, at, p, banks).value;
      EventsExtend(b, next, p, banks, acc + [event]);
    }
  }

  lemma FirmwareOkWithAael(s: SpecId, ws: seq<WireEvent>, limits: ParseLimits)
    requires LogOk(s, ws, Profile(TdxCcel, limits, false))
    ensures LogOk(s, ws, Profile(TdxCcel, limits, true))
    ensures forall i :: 0 <= i < |ws| ==> ws[i].register <= 3
  {
    hide ParseAael, ToMap, DigestsOk, BanksOk, EncodeSpecId;
    var p := Profile(TdxCcel, limits, false);
    forall i | 0 <= i < |ws|
      ensures ws[i].register <= 3 && EventOk(ws[i], Profile(TdxCcel, limits, true), ToMap(s.banks))
    {
      assert EventOk(ws[i], p, ToMap(s.banks));
    }
  }

  /** A log that begins with the consumed part of a firmware log begins with its header and events. */
  lemma FirmwareIsPrefix(ccel: bytes, more: bytes, limits: ParseLimits)
    requires Parse(ccel, Profile(TdxCcel, limits, false)).Ok?
    ensures var fw := Parse(ccel, Profile(TdxCcel, limits, false)).value;
            && fw.consumed <= |ccel|
            && var combined := Parse(ccel[..fw.consumed] + more, Profile(TdxCcel, limits, true));
            combined.Ok? ==>
              && combined.value.algorithms == fw.algorithms
              && fw.events <= combined.value.events
  {
    hide ParseHeader, ParseEvents, EncodeHeader, EncodeEvents, LogOk, SpecIdOk, EventsOk, At, AtEnd, ToMap;
    var p, q := Profile(TdxCcel, limits, false), Profile(TdxCcel, limits, true);
    var s, ws := ParseBackward(ccel, p);
    ParseForward(ccel, p, s, ws);
    var fw := Parse(ccel, p).value;
    var head, firmware := EncodeHeader(s), EncodeLog(s, ws);
    AtStart(ccel, firmware);
    var b := ccel[..fw.consumed] + more;
    AtPrefix(firmware, more);
    if Parse(b, q).Ok? {
      FirmwareOkWithAael(s, ws, limits);
      LogOkParts(s, ws, q);
      AtConcat(b, 0, head, EncodeEvents(ws));
      HeaderExact(b, s, q);
      EventsForward(b, |head|, ws, q, ToMap(s.banks), []);
      assert [] + DecodedEvents(ws, |head|) == DecodedEvents(ws, |head|);
      EventsExtend(b, |firmware|, q, ToMap(s.banks), DecodedEvents(ws, |head|));
    }
  }

  lemma LogOkParts(s: SpecId, ws: seq<WireEvent>, p: Profile)
    requires LogOk(s, ws, p)
    ensures SpecIdOk(s, p) && |ws| <= p.limits.maxEvents && EventsOk(ws, p, ToMap(s.banks))
    ensures SpecIdFits(s) && |EncodeSpecId(s)| < U32
  {
    hide EventsOk, EncodeSpecId, ToMap;
  }

  lemma AtStart(b: bytes, x: bytes)
    requires At(b, 0, x)
    ensures |x| <= |b| && b[..|x|] == x
  {
  }

  lemma AtPrefix(x: bytes, y: bytes)
    ensures At(x + y, 0, x)
  {
    assert (x + y)[0..|x|] == x;
  }

  /** The events that `append` adds are exactly AAEL records. */
  ghost predicate OnlyAael(es: seq<Event>) {
    forall i :: 0 <= i < |es| ==> es[i].register == 4
  }

  /**
   * The collector's concatenation: the firmware log without its erased tail, followed by AAEL records.
   * It succeeds exactly when the concatenation parses to its last byte and adds nothing but AAEL records.
   */
  method AppendCocoAael(ccel: bytes, aael: bytes, limits: ParseLimits) returns (r: Boot<bytes>)
    ensures r.Ok? <==>
            && Parse(ccel, Profile(TdxCcel, limits, false)).Ok?
            && var fw := Parse(ccel, Profile(TdxCcel, limits, false)).value;
            && fw.consumed <= |ccel|
            && var combined := Parse(ccel[..fw.consumed] + aael, Profile(TdxCcel, limits, true));
            && combined.Ok?
            && combined.value.consumed == fw.consumed + |aael|
            && |fw.events| <= |combined.value.events|
            && OnlyAael(combined.value.events[|fw.events|..])
    ensures r.Ok? ==>
            r.value == ccel[..Parse(ccel, Profile(TdxCcel, limits, false)).value.consumed] + aael
  {
    hide ParseHeader, ParseEvents;
    var firmware :- ParseLog(ccel, Profile(TdxCcel, limits, false));
    FirmwareIsPrefix(ccel, aael, limits);
    if firmware.consumed + |aael| > limits.maxLogBytes {
      return Err(Limit(CombinedBytes));
    }
    var combined := ccel[..firmware.consumed];
    combined := combined + aael;
    var parsed :- ParseLog(combined, Profile(TdxCcel, limits, true));
    if || parsed.consumed != |combined|
       || exists i :: |firmware.events| <= i < |parsed.events| && parsed.events[i].register != 4
    {
      return Err(Runtime(ForeignRecord));
    }
    r := Ok(combined);
  }

  /** A record that extends RTMR3 in the SHA-384 bank. */
  predicate ExtendsRtmr3(e: Event) {
    e.register == 4 && e.eventType == EV_EVENT_TAG && TPM_ALG_SHA384 in e.digests
  }

  ghost predicate AllExtendRtmr3(es: seq<Event>) {
    forall i :: 0 <= i < |es| ==> ExtendsRtmr3(es[i])
  }

  function Rtmr3Digests(es: seq<Event>): seq<bytes>
    requires AllExtendRtmr3(es)
  {
    seq(|es|, i requires 0 <= i < |es| => es[i].digests[TPM_ALG_SHA384])
  }

  function TdxBank(h: Sha2): Bank {
    Bank(TdxCcel, TPM_ALG_SHA384, h)
  }

  /** Replaying AAEL records after `es` changes RTMR3 only, by folding their digests into it. */
  lemma {:induction false} RunAael(h: Sha2, es: seq<Event>, tail: seq<Event>)
    requires InRange(TdxBank(h), es) && InRange(TdxBank(h), es + tail) && AllExtendRtmr3(tail)
    ensures var k := TdxBank(h);
            && (Run(k, es + tail).Ok? <==> Run(k, es).Ok?)
            && (Run(k, es).Ok? ==>
                  && Run(k, es + tail).value.registers[..3] == Run(k, es).value.registers[..3]
                  && Run(k, es + tail).value.registers[3] == Fold(k, Run(k, es).value.registers[3], Rtmr3Digests(tail)))
    decreases |tail|
  {
    hide Bank.Hash, AllAre;
    var k := TdxBank(h);
    if tail == [] {
      assert es + tail == es;
    } else {
      var front, e := tail[..|tail| - 1], tail[|tail| - 1];
      assert es + tail == es + front + [e];
      assert (es + tail)[..|es + front|] == es + front;
      assert InRange(k, es + front);
      RunAael(h, es, front);
      RunSnoc(k, es + tail, |es + front|);
      TakeAll(es + tail);
      assert Rtmr3Digests(tail) == Rtmr3Digests(front) + [e.digests[TPM_ALG_SHA384]];
      if Run(k, es).Ok? {
        FoldSnoc(k, Run(k, es).value.registers[3], Rtmr3Digests(front), e.digests[TPM_ALG_SHA384]);
      }
    }
  }

  lemma {:induction false} TdxStart(k: Bank, i: nat, es: seq<Event>)
    requires k.kind == TdxCcel
    ensures StartValue(k, i, es) == Fill(k.Size(), 0)
    decreases |es|
  {
    if es != [] {
      TdxStart(k, i, es[..|es| - 1]);
    }
  }

  lemma {:induction false} NothingInRtmr3(k: Bank, es: seq<Event>)
    requires k.kind == TdxCcel && forall i :: 0 <= i < |es| ==> es[i].register <= 3
    ensures Extended(k, 3, es) == []
    decreases |es|
  {
    if es != [] {
      NothingInRtmr3(k, es[..|es| - 1]);
    }
  }

  lemma AaelTailExtends(b: bytes, limits: ParseLimits, n: nat)
    requires Parse(b, Profile(TdxCcel, limits, true)).Ok?
    requires n <= |Parse(b, Profile(TdxCcel, limits, true)).value.events|
    requires OnlyAael(Parse(b, Profile(TdxCcel, limits, true)).value.events[n..])
    ensures AllExtendRtmr3(Parse(b, Profile(TdxCcel, limits, true)).value.events[n..])
  {
    hide Parse, ParseAael;
    var p := Profile(TdxCcel, limits, true);
    ParsedChecked(b, p);
    var log := Parse(b, p).value;
    forall i | 0 <= i < |log.events[n..]|
      ensures ExtendsRtmr3(log.events[n..][i])
    {
      var e := log.events[n + i];
      assert e in log.events && e == log.events[n..][i];
      assert Checked(e, p, log.algorithms);
      AaelSound(e, ParseAael(e).value);
    }
  }

  /**
   * What appending gives: the firmware events unchanged, then AAEL records only. The combined log replays
   * exactly when the firmware log does; then RTMR0 to RTMR2 are the firmware's, and RTMR3, zero before, is
   * the fold of the appended digests.
   */
  lemma AppendComposes(h: Sha2, ccel: bytes, aael: bytes, limits: ParseLimits, fw: EventLog, log: EventLog)
    requires Parse(ccel, Profile(TdxCcel, limits, false)) == Ok(fw) && fw.consumed <= |ccel|
    requires Parse(ccel[..fw.consumed] + aael, Profile(TdxCcel, limits, true)) == Ok(log)
    requires |fw.events| <= |log.events| && OnlyAael(log.events[|fw.events|..])
    ensures LogShape(fw) && LogShape(log)
    ensures var tail := log.events[|fw.events|..];
            && log.events == fw.events + tail && AllExtendRtmr3(tail)
            && (Replay(h, log, TPM_ALG_SHA384).Ok? <==> Replay(h, fw, TPM_ALG_SHA384).Ok?)
            && (Replay(h, fw, TPM_ALG_SHA384).Ok? ==>
                  var before, after := Replay(h, fw, TPM_ALG_SHA384).value, Replay(h, log, TPM_ALG_SHA384).value;
                  && |before| == |after| == 4
                  && after[..3] == before[..3]
                  && before[3] == Fill(48, 0)
                  && after[3] == Fold(TdxBank(h), Fill(48, 0), Rtmr3Digests(tail)))
  {
    hide Parse, Run, Step, ParseAael, LogShape, Fold, InRange;
    var p, q, k := Profile(TdxCcel, limits, false), Profile(TdxCcel, limits, true), TdxBank(h);
    ParsedShape(ccel, p);
    ParsedShape(ccel[..fw.consumed] + aael, q);
    FirmwareIsPrefix(ccel, aael, limits);
    AaelTailExtends(ccel[..fw.consumed] + aael, limits, |fw.events|);
    var tail := log.events[|fw.events|..];
    assert log.events == fw.events + tail;
    ParsedBanks(ccel, p);
    ReplayRuns(h, fw, TPM_ALG_SHA384);
    ReplayRuns(h, log, TPM_ALG_SHA384);
    RunAael(h, fw.events, tail);
    if Run(k, fw.events).Ok? {
      FirmwareLeavesRtmr3(h, ccel, limits, fw);
    }
  }

  lemma ParsedBanks(b: bytes, p: Profile)
    requires Parse(b, p).Ok? && p.kind == TdxCcel
    ensures Replayable(Parse(b, p).value, TPM_ALG_SHA384)
  {
    hide ParseEvents, ParseSpecId, Number, Take, AllAre;
  }

  lemma FirmwareLeavesRtmr3(h: Sha2, ccel: bytes, limits: ParseLimits, fw: EventLog)
    requires Parse(ccel, Profile(TdxCcel, limits, false)) == Ok(fw)
    requires InRange(TdxBank(h), fw.events) && Run(TdxBank(h), fw.events).Ok?
    ensures Run(TdxBank(h), fw.events).value.registers[3] == Fill(48, 0)
  {
    hide Parse, Run, ParseAael;
    var k := TdxBank(h);
    ParsedChecked(ccel, Profile(TdxCcel, limits, false));
    assert forall i :: 0 <= i < |fw.events| ==> Checked(fw.events[i], Profile(TdxCcel, limits, false), fw.algorithms);
    RunMeans(k, fw.events);
    TdxStart(k, 3, fw.events);
    NothingInRtmr3(k, fw.events);
  }
}
