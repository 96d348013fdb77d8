/** The wire format of event logs, and the proof that the parser accepts exactly the encodings of well-formed logs. */
module EventLogEncoding {
  import opened Bytes
  import opened BootTypes
  import opened Aael
  import opened EventLogs

  /** The SpecID event, with the fields the parser ignores. */
  datatype SpecId = SpecId(
    register: nat, platformClass: nat, errata: byte, uintn: byte, banks: seq<(nat, nat)>, vendor: bytes)

  /** An event with its digests in wire order. */
  datatype WireEvent = WireEvent(register: nat, eventType: nat, digests: seq<(nat, bytes)>, data: bytes)

  //
  // Encoding
  //

  function EncodeBanks(banks: seq<(nat, nat)>): bytes {
    if banks == [] then [] else Le(banks[0].0, 2) + (Le(banks[0].1, 2) + EncodeBanks(banks[1..]))
  }

  function EncodeSpecId(s: SpecId): bytes {
    SIGNATURE + (Le(s.platformClass, 4) + (Le(0, 1) + (Le(2, 1) + (Le(s.errata, 1) + (Le(s.uintn, 1) +
    (Le(|s.banks|, 4) + (EncodeBanks(s.banks) + (Le(|s.vendor|, 1) + s.vendor))))))))
  }

  function EncodeHeader(s: SpecId): bytes {
    Le(s.register, 4) + (Le(EV_NO_ACTION, 4) + (Fill(20, 0) + (Le(|EncodeSpecId(s)|, 4) + EncodeSpecId(s))))
  }

  function EncodeDigests(ds: seq<(nat, bytes)>): bytes {
    if ds == [] then [] else Le(ds[0].0, 2) + (ds[0].1 + EncodeDigests(ds[1..]))
  }

  function EncodeEvent(w: WireEvent): bytes {
    Le(w.register, 4) + (Le(w.eventType, 4) + (Le(|w.digests|, 4) +
    (EncodeDigests(w.digests) + (Le(|w.data|, 4) + w.data))))
  }

  function EncodeEvents(ws: seq<WireEvent>): bytes {
    if ws == [] then [] else EncodeEvent(ws[0]) + EncodeEvents(ws[1..])
  }

  //
  // Well-formed logs and what they denote
  //

  ghost predicate Distinct<K, V>(s: seq<(K, V)>) {
    forall i, j :: 0 <= i < j < |s| ==> s[i].0 != s[j].0
  }

  /** The map with the pairs of `s`, added in order. */
  function ToMap<K, V>(s: seq<(K, V)>): map<K, V> {
    if s == [] then map[] else ToMap(s[..|s| - 1])[s[|s| - 1].0 := s[|s| - 1].1]
  }

  /** A bank of 1 to 128 bytes; the registered algorithms (SHA-1, SHA-2, SM3 and SHA-3) have their own sizes. */
  predicate BankIs(algorithm: nat, size: nat) {
    && 1 <= size <= 128
    && (algorithm == 0x04 ==> size == 20)
    && (algorithm in {0x0b, 0x12, 0x27} ==> size == 32)
    && (algorithm in {0x0c, 0x28} ==> size == 48)
    && (algorithm in {0x0d, 0x29} ==> size == 64)
  }

  lemma BankOkExactly(algorithm: nat, size: nat)
    ensures BankOk(algorithm, size) <==> BankIs(algorithm, size)
  {
  }

  /** The last register an event of the profile may name. */
  function LastRegister(p: Profile): nat {
    if p.kind == Tpm2 then 23 else if p.aael then 4 else 3
  }

  ghost predicate BanksOk(banks: seq<(nat, nat)>) {
    && Distinct(banks)
    && forall i :: 0 <= i < |banks| ==> banks[i].0 < 0x1_0000 && BankIs(banks[i].0, banks[i].1)
  }

  ghost predicate SpecIdOk(s: SpecId, p: Profile) {
    && s.register <= (if p.kind == Tpm2 then 0 else 1)
    && s.platformClass < U32
    && (s.uintn == 1 || s.uintn == 2)
    && 0 < |s.banks| <= p.limits.maxAlgorithms
    && |s.banks| < U32
    && BanksOk(s.banks)
    && |s.vendor| < 256
    && |EncodeSpecId(s)| <= p.limits.maxEventBytes
    && |EncodeSpecId(s)| < U32
    && (p.kind == TdxCcel ==> (TPM_ALG_SHA384, 48) in s.banks)
  }

  ghost predicate DigestsOk(ds: seq<(nat, bytes)>, banks: map<nat, nat>) {
    && Distinct(ds)
    && forall i :: 0 <= i < |ds| ==> ds[i].0 < 0x1_0000 && ds[i].0 in banks && |ds[i].1| == banks[ds[i].0]
  }

  function Decoded(w: WireEvent, at: nat): Event {
    Event(at, w.register, w.eventType, ToMap(w.digests), w.data)
  }

  ghost predicate EventOk(w: WireEvent, p: Profile, banks: map<nat, nat>) {
    && w.register < U32 && w.register <= LastRegister(p)
    && w.eventType < U32
    && 0 < |w.digests| <= |banks| && |w.digests| < U32
    && DigestsOk(w.digests, banks)
    && |w.data| <= p.limits.maxEventBytes && |w.data| < U32
    && (p.kind == TdxCcel ==> TPM_ALG_SHA384 in ToMap(w.digests))
    && (p.kind == TdxCcel && w.register == 4 ==> ParseAael(Decoded(w, 0)).Ok?)
  }

  ghost predicate EventsOk(ws: seq<WireEvent>, p: Profile, banks: map<nat, nat>) {
    forall i :: 0 <= i < |ws| ==> EventOk(ws[i], p, banks)
  }

  /** Each event begins where the one before it ends. */
  function DecodedEvents(ws: seq<WireEvent>, at: nat): seq<Event> {
    if ws == [] then [] else [Decoded(ws[0], at)] + DecodedEvents(ws[1..], at + |EncodeEvent(ws[0])|)
  }

  //
  // Fields
  //

  lemma NumberExact(b: bytes, at: nat, k: nat, n: nat)
    ensures Number(b, at, k) == Ok(n) <==> n < Pow256(k) && At(b, at, Le(n, k))
  {
    hide FromLe, Le, Pow256;
    if at + k <= |b| {
      LeAt(b, at, k, n);
    }
  }

  /** The digests of an event do not depend on their order on the wire. */
  lemma {:induction false} ToMapContent<K, V>(s: seq<(K, V)>)
    requires Distinct(s)
    ensures forall i :: 0 <= i < |s| ==> s[i].0 in ToMap(s) && ToMap(s)[s[i].0] == s[i].1
    ensures forall k :: k in ToMap(s) ==> exists i :: 0 <= i < |s| && s[i].0 == k
    ensures |ToMap(s)| == |s|
    decreases |s|
  {
    if s != [] {
      var front := s[..|s| - 1];
      ToMapContent(front);
      assert forall i :: 0 <= i < |front| ==> front[i] == s[i];
      assert s[|s| - 1].0 !in ToMap(front);
    }
  }

  //
  // Banks and digests
  //

  lemma AtThree(b: bytes, at: nat, x: bytes, y: bytes, z: bytes)
    ensures At(b, at, x + (y + z)) <==> At(b, at, x) && At(b, at + |x|, y) && At(b, at + |x| + |y|, z)
  {
    AtConcat(b, at, x, y + z);
    AtConcat(b, at + |x|, y, z);
  }

  lemma BanksCons(s: bytes, at: nat, d: (nat, nat), rest: seq<(nat, nat)>)
    ensures At(s, at, EncodeBanks([d] + rest)) <==>
            At(s, at, Le(d.0, 2)) && At(s, at + 2, Le(d.1, 2)) && At(s, at + 4, EncodeBanks(rest))
    ensures |EncodeBanks([d] + rest)| == 4 + |EncodeBanks(rest)|
  {
    hide At, Le;
    assert ([d] + rest)[1..] == rest;
    AtThree(s, at, Le(d.0, 2), Le(d.1, 2), EncodeBanks(rest));
  }

  lemma DigestsCons(b: bytes, at: nat, d: (nat, bytes), rest: seq<(nat, bytes)>)
    ensures At(b, at, EncodeDigests([d] + rest)) <==>
            At(b, at, Le(d.0, 2)) && At(b, at + 2, d.1) && At(b, at + 2 + |d.1|, EncodeDigests(rest))
    ensures |EncodeDigests([d] + rest)| == 2 + |d.1| + |EncodeDigests(rest)|
  {
    hide At, Le;
    assert ([d] + rest)[1..] == rest;
    AtThree(b, at, Le(d.0, 2), d.1, EncodeDigests(rest));
  }

  lemma FreshKey<K, V>(pre: seq<(K, V)>, d: (K, V))
    requires Distinct(pre)
    ensures Distinct(pre + [d]) <==> d.0 !in ToMap(pre)
    ensures ToMap(pre + [d]) == ToMap(pre)[d.0 := d.1]
  {
    ToMapContent(pre);
    assert (pre + [d])[..|pre|] == pre;
    assert forall i :: 0 <= i < |pre| ==> (pre + [d])[i] == pre[i];
    assert (pre + [d])[|pre|] == d;
  }

  lemma BanksDone(s: bytes, at: nat, acc: map<nat, nat>, outer: nat)
    ensures ParseBanks(s, at, 0, acc, outer) == Ok((acc, at)) && EncodeBanks([]) == []
  {
  }

  lemma BankNext(s: bytes, at: nat, count: nat, pre: seq<(nat, nat)>, d: (nat, nat), outer: nat)
    requires BanksOk(pre + [d]) && At(s, at, Le(d.0, 2)) && At(s, at + 2, Le(d.1, 2))
    ensures ParseBanks(s, at, count + 1, ToMap(pre), outer) == ParseBanks(s, at + 4, count, ToMap(pre + [d]), outer)
  {
    hide Number, At, Le, ToMap;
    BanksPrefix(pre, [d]);
    assert (pre + [d])[|pre|] == d;
    PowWidths();
    NumberExact(s, at, 2, d.0);
    NumberExact(s, at + 2, 2, d.1);
    FreshKey(pre, d);
  }

  lemma {:induction false} BanksForward(s: bytes, at: nat, pre: seq<(nat, nat)>, banks: seq<(nat, nat)>, outer: nat)
    requires BanksOk(pre + banks) && At(s, at, EncodeBanks(banks))
    ensures ParseBanks(s, at, |banks|, ToMap(pre), outer) == Ok((ToMap(pre + banks), at + |EncodeBanks(banks)|))
    decreases |banks|
  {
    hide ParseBanks, EncodeBanks, BanksOk, ToMap, At, Le;
    if banks == [] {
      assert pre + banks == pre;
      BanksDone(s, at, ToMap(pre), outer);
    } else {
      var d, rest := banks[0], banks[1..];
      assert banks == [d] + rest && pre + banks == pre + [d] + rest;
      BanksPrefix(pre + [d], rest);
      BanksCons(s, at, d, rest);
      BankNext(s, at, |rest|, pre, d, outer);
      BanksForward(s, at + 4, pre + [d], rest, outer);
    }
  }

  lemma BanksPrefix(x: seq<(nat, nat)>, y: seq<(nat, nat)>)
    requires BanksOk(x + y)
    ensures BanksOk(x)
  {
    assert forall i :: 0 <= i < |x| ==> x[i] == (x + y)[i];
  }

  lemma BankStep(s: bytes, at: nat, count: nat, pre: seq<(nat, nat)>, outer: nat) returns (d: (nat, nat))
    requires count > 0 && BanksOk(pre) && ParseBanks(s, at, count, ToMap(pre), outer).Ok?
    ensures BanksOk(pre + [d]) && At(s, at, Le(d.0, 2)) && At(s, at + 2, Le(d.1, 2))
    ensures ParseBanks(s, at + 4, count - 1, ToMap(pre + [d]), outer).Ok?
  {
    hide FromLe, Le, ToMap;
    d := (Number(s, at, 2).value, Number(s, at + 2, 2).value);
    PowWidths();
    NumberExact(s, at, 2, d.0);
    NumberExact(s, at + 2, 2, d.1);
    FreshKey(pre, d);
  }

  lemma {:induction false} BanksBackward(s: bytes, at: nat, count: nat, pre: seq<(nat, nat)>, outer: nat)
    returns (banks: seq<(nat, nat)>)
    requires at <= |s| && BanksOk(pre) && ParseBanks(s, at, count, ToMap(pre), outer).Ok?
    ensures |banks| == count && BanksOk(pre + banks) && At(s, at, EncodeBanks(banks))
    decreases count
  {
    hide ParseBanks, BanksOk, ToMap, Le;
    if count == 0 {
      banks := [];
      assert pre + banks == pre;
    } else {
      var d := BankStep(s, at, count, pre, outer);
      var rest := BanksBackward(s, at + 4, count - 1, pre + [d], outer);
      banks := [d] + rest;
      assert pre + banks == pre + [d] + rest;
      BanksCons(s, at, d, rest);
    }
  }

  lemma DigestsDone(b: bytes, at: nat, banks: map<nat, nat>, acc: map<nat, bytes>)
    ensures ParseDigests(b, at, 0, banks, acc) == Ok((acc, at)) && EncodeDigests([]) == []
  {
  }

  lemma DigestNext(b: bytes, at: nat, count: nat, pre: seq<(nat, bytes)>, d: (nat, bytes), banks: map<nat, nat>)
    requires DigestsOk(pre + [d], banks) && At(b, at, Le(d.0, 2)) && At(b, at + 2, d.1)
    ensures ParseDigests(b, at, count + 1, banks, ToMap(pre)) ==
            ParseDigests(b, at + 2 + |d.1|, count, banks, ToMap(pre + [d]))
  {
    hide Number, Le, ToMap;
    DigestsPrefix(pre, [d], banks);
    assert (pre + [d])[|pre|] == d;
    PowWidths();
    NumberExact(b, at, 2, d.0);
    FreshKey(pre, d);
  }

  lemma {:induction false} DigestsForward(
    b: bytes, at: nat, pre: seq<(nat, bytes)>, ds: seq<(nat, bytes)>, banks: map<nat, nat>)
    requires DigestsOk(pre + ds, banks) && At(b, at, EncodeDigests(ds))
    ensures ParseDigests(b, at, |ds|, banks, ToMap(pre)) == Ok((ToMap(pre + ds), at + |EncodeDigests(ds)|))
    decreases |ds|
  {
    hide ParseDigests, EncodeDigests, DigestsOk, ToMap, At, Le;
    if ds == [] {
      assert pre + ds == pre;
      DigestsDone(b, at, banks, ToMap(pre));
    } else {
      var d, rest := ds[0], ds[1..];
      assert ds == [d] + rest && pre + ds == pre + [d] + rest;
      DigestsPrefix(pre + [d], rest, banks);
      DigestsCons(b, at, d, rest);
      DigestNext(b, at, |rest|, pre, d, banks);
      DigestsForward(b, at + 2 + |d.1|, pre + [d], rest, banks);
    }
  }

  lemma DigestsPrefix(x: seq<(nat, bytes)>, y: seq<(nat, bytes)>, banks: map<nat, nat>)
    requires DigestsOk(x + y, banks)
    ensures DigestsOk(x, banks)
  {
    assert forall i :: 0 <= i < |x| ==> x[i] == (x + y)[i];
  }

  lemma DigestStep(b: bytes, at: nat, count: nat, pre: seq<(nat, bytes)>, banks: map<nat, nat>)
    returns (d: (nat, bytes))
    requires count > 0 && DigestsOk(pre, banks) && ParseDigests(b, at, count, banks, ToMap(pre)).Ok?
    ensures DigestsOk(pre + [d], banks) && At(b, at, Le(d.0, 2)) && At(b, at + 2, d.1)
    ensures ParseDigests(b, at + 2 + |d.1|, count - 1, banks, ToMap(pre + [d])).Ok?
  {
    hide FromLe, Le, ToMap;
    var algorithm := Number(b, at, 2).value;
    d := (algorithm, Take(b, at + 2, banks[algorithm]).value);
    PowWidths();
    NumberExact(b, at, 2, d.0);
    FreshKey(pre, d);
  }

  lemma {:induction false} DigestsBackward(b: bytes, at: nat, count: nat, pre: seq<(nat, bytes)>, banks: map<nat, nat>)
    returns (ds: seq<(nat, bytes)>)
    requires at <= |b| && DigestsOk(pre, banks) && ParseDigests(b, at, count, banks, ToMap(pre)).Ok?
    ensures |ds| == count && DigestsOk(pre + ds, banks) && At(b, at, EncodeDigests(ds))
    decreases count
  {
    hide ParseDigests, DigestsOk, ToMap, Le;
    if count == 0 {
      ds := [];
      assert pre + ds == pre;
    } else {
      var d := DigestStep(b, at, count, pre, banks);
      var rest := DigestsBackward(b, at + 2 + |d.1|, count - 1, pre + [d], banks);
      ds := [d] + rest;
      assert pre + ds == pre + [d] + rest;
      DigestsCons(b, at, d, rest);
    }
  }

  //
  // Events
  //

  /** The fields of `w` lie one after another in `b` from `at`. */
  predicate EventAt(b: bytes, at: nat, w: WireEvent) {
    var next := at + 12 + |EncodeDigests(w.digests)|;
    && At(b, at, Le(w.register, 4))
    && At(b, at + 4, Le(w.eventType, 4))
    && At(b, at + 8, Le(|w.digests|, 4))
    && At(b, at + 12, EncodeDigests(w.digests))
    && At(b, next, Le(|w.data|, 4))
    && At(b, next + 4, w.data)
  }

  lemma EventAtExact(b: bytes, at: nat, w: WireEvent)
    ensures At(b, at, EncodeEvent(w)) <==> EventAt(b, at, w)
  {
    var x, y, z := Le(w.register, 4), Le(w.eventType, 4), Le(|w.digests|, 4);
    var ds, n := EncodeDigests(w.digests), Le(|w.data|, 4);
    AtThree(b, at, x, y, z + (ds + (n + w.data)));
    AtThree(b, at + 8, z, ds, n + w.data);
    AtConcat(b, at + 12 + |ds|, n, w.data);
  }

  /** The AAEL check does not look at where the event was found. */
  lemma AaelIgnoresOffset(w: WireEvent, at: nat)
    ensures ParseAael(Decoded(w, at)) == ParseAael(Decoded(w, 0))
  {
  }

  /** The fields of `w` fit their places on the wire. */
  ghost predicate Encodable(w: WireEvent, banks: map<nat, nat>) {
    w.register < U32 && w.eventType < U32 && |w.digests| < U32 && |w.data| < U32 && DigestsOk(w.digests, banks)
  }

  lemma EventReads(b: bytes, at: nat, w: WireEvent, banks: map<nat, nat>)
    requires Encodable(w, banks) && EventAt(b, at, w)
    ensures Number(b, at, 4) == Ok(w.register)
    ensures Number(b, at + 4, 4) == Ok(w.eventType)
    ensures Number(b, at + 8, 4) == Ok(|w.digests|)
    ensures ParseDigests(b, at + 12, |w.digests|, banks, map[]) ==
            Ok((ToMap(w.digests), at + 12 + |EncodeDigests(w.digests)|))
    ensures Number(b, at + 12 + |EncodeDigests(w.digests)|, 4) == Ok(|w.data|)
  {
    hide Number, At, Le, ParseDigests, EncodeDigests, DigestsOk, ToMap;
    NoDigests(banks);
    PowWidths();
    NumberExact(b, at, 4, w.register);
    NumberExact(b, at + 4, 4, w.eventType);
    NumberExact(b, at + 8, 4, |w.digests|);
    NumberExact(b, at + 12 + |EncodeDigests(w.digests)|, 4, |w.data|);
    assert [] + w.digests == w.digests;
    DigestsForward(b, at + 12, [], w.digests, banks);
  }

  /** A record of fitting fields is accepted exactly when they are well formed, and read as the event they denote. */
  lemma EventExact(b: bytes, at: nat, w: WireEvent, p: Profile, banks: map<nat, nat>)
    requires Encodable(w, banks) && At(b, at, EncodeEvent(w))
    ensures ParseEvent(b, at, p, banks).Ok? <==> EventOk(w, p, banks)
    ensures EventOk(w, p, banks) ==> ParseEvent(b, at, p, banks) == Ok((Decoded(w, at), at + |EncodeEvent(w)|))
  {
    hide Number, ParseAael, ParseDigests, EncodeDigests, DigestsOk, ToMap;
    EventAtExact(b, at, w);
    EventReads(b, at, w, banks);
    AaelIgnoresOffset(w, at);
  }

  /** The event an accepted record encodes. */
  lemma EventBackward(b: bytes, at: nat, p: Profile, banks: map<nat, nat>) returns (w: WireEvent)
    requires ParseEvent(b, at, p, banks).Ok?
    ensures EventOk(w, p, banks) && Encodable(w, banks) && At(b, at, EncodeEvent(w))
  {
    w := EventFields(b, at, p, banks);
    hide *;
    EventAtExact(b, at, w);
    EventExact(b, at, w, p, banks);
  }

  lemma AcceptedParts(b: bytes, at: nat, p: Profile, banks: map<nat, nat>)
    requires ParseEvent(b, at, p, banks).Ok?
    ensures Number(b, at, 4).Ok? && Number(b, at + 4, 4).Ok? && Number(b, at + 8, 4).Ok? && at + 12 <= |b|
    ensures var digests := ParseDigests(b, at + 12, Number(b, at + 8, 4).value, banks, map[]);
            digests.Ok? && var size := Number(b, digests.value.1, 4);
            size.Ok? && var data := Take(b, digests.value.1 + 4, size.value);
            data.Ok? && |data.value| == size.value && At(b, digests.value.1 + 4, data.value)
  {
    hide FromLe, ParseDigests, ParseAael;
  }

  lemma NoDigests(banks: map<nat, nat>)
    ensures DigestsOk([], banks) && ToMap<nat, bytes>([]) == map[]
  {
  }

  lemma EventFields(b: bytes, at: nat, p: Profile, banks: map<nat, nat>) returns (w: WireEvent)
    requires ParseEvent(b, at, p, banks).Ok?
    ensures Encodable(w, banks) && EventAt(b, at, w)
  {
    hide ParseEvent, Number, Take, At, Le, ParseDigests, EncodeDigests, ToMap, DigestsOk;
    AcceptedParts(b, at, p, banks);
    NoDigests(banks);
    PowWidths();
    var register := Number(b, at, 4).value;
    var eventType := Number(b, at + 4, 4).value;
    var count := Number(b, at + 8, 4).value;
    NumberExact(b, at, 4, register);
    NumberExact(b, at + 4, 4, eventType);
    NumberExact(b, at + 8, 4, count);
    var ds := DigestsBackward(b, at + 12, count, [], banks);
    assert [] + ds == ds;
    DigestsForward(b, at + 12, [], ds, banks);
    var next := at + 12 + |EncodeDigests(ds)|;
    var size := Number(b, next, 4).value;
    NumberExact(b, next, 4, size);
    w := WireEvent(register, eventType, ds, Take(b, next + 4, size).value);
  }

  /** A record never begins an erased area. */
  lemma NotErased(b: bytes, at: nat, w: WireEvent, p: Profile)
    requires p.RegisterOk(w.register) && At(b, at, EncodeEvent(w))
    ensures !AtEnd(b, at, p)
  {
    EventAtExact(b, at, w);
    assert b[at] == b[at..at + 4][0] == w.register % 256;
    if AllAre(b[at..], 0xff) {
      assert b[at..][0] == b[at];
    }
  }

  lemma OkFits(w: WireEvent, p: Profile, banks: map<nat, nat>)
    requires EventOk(w, p, banks)
    ensures Encodable(w, banks) && p.RegisterOk(w.register)
  {
    hide DigestsOk, ParseAael, ToMap;
  }

  lemma EventsStop(b: bytes, at: nat, p: Profile, banks: map<nat, nat>, acc: seq<Event>)
    requires AtEnd(b, at, p)
    ensures ParseEvents(b, at, p, banks, acc) == Ok((acc, at))
  {
    hide ParseEvent;
  }

  lemma EventsNext(b: bytes, at: nat, w: WireEvent, p: Profile, banks: map<nat, nat>, acc: seq<Event>)
    requires EventOk(w, p, banks) && At(b, at, EncodeEvent(w)) && |acc| < p.limits.maxEvents
    ensures ParseEvents(b, at, p, banks, acc) == ParseEvents(b, at + |EncodeEvent(w)|, p, banks, acc + [Decoded(w, at)])
  {
    hide ParseEvent, EncodeEvent, EventOk, Decoded, At, AtEnd;
    OkFits(w, p, banks);
    NotErased(b, at, w, p);
    EventExact(b, at, w, p, banks);
  }

  lemma NoEvents(at: nat)
    ensures EncodeEvents([]) == [] && DecodedEvents([], at) == []
  {
  }

  lemma EventsCons(b: bytes, at: nat, ws: seq<WireEvent>, p: Profile, banks: map<nat, nat>)
    requires ws != [] && EventsOk(ws, p, banks) && At(b, at, EncodeEvents(ws))
    ensures EventOk(ws[0], p, banks) && EventsOk(ws[1..], p, banks)
    ensures At(b, at, EncodeEvent(ws[0])) && At(b, at + |EncodeEvent(ws[0])|, EncodeEvents(ws[1..]))
    ensures |EncodeEvents(ws)| == |EncodeEvent(ws[0])| + |EncodeEvents(ws[1..])|
    ensures DecodedEvents(ws, at) == [Decoded(ws[0], at)] + DecodedEvents(ws[1..], at + |EncodeEvent(ws[0])|)
  {
    hide EncodeEvent, EventOk, Decoded, At;
    AtConcat(b, at, EncodeEvent(ws[0]), EncodeEvents(ws[1..]));
  }

  /** Reading a list of well-formed records continues after them, with their events appended. */
  lemma {:induction false} EventsForward(
    b: bytes, at: nat, ws: seq<WireEvent>, p: Profile, banks: map<nat, nat>, acc: seq<Event>)
    requires EventsOk(ws, p, banks) && At(b, at, EncodeEvents(ws)) && |acc| + |ws| <= p.limits.maxEvents
    ensures ParseEvents(b, at, p, banks, acc) ==
            ParseEvents(b, at + |EncodeEvents(ws)|, p, banks, acc + DecodedEvents(ws, at))
    decreases |ws|
  {
    hide ParseEvents, EncodeEvent, EncodeEvents, EventsOk, EventOk, Decoded, DecodedEvents, At;
    if ws == [] {
      NoEvents(at);
      assert acc + [] == acc;
    } else {
      var w, rest := ws[0], ws[1..];
      EventsCons(b, at, ws, p, banks);
      EventsNext(b, at, w, p, banks, acc);
      var next := at + |EncodeEvent(w)|;
      EventsForward(b, next, rest, p, banks, acc + [Decoded(w, at)]);
      assert acc + [Decoded(w, at)] + DecodedEvents(rest, next) == acc + DecodedEvents(ws, at);
    }
  }

  lemma {:induction false} EventsBackward(b: bytes, at: nat, p: Profile, banks: map<nat, nat>, acc: seq<Event>)
    returns (ws: seq<WireEvent>)
    requires at <= |b| && |acc| <= p.limits.maxEvents && ParseEvents(b, at, p, banks, acc).Ok?
    ensures EventsOk(ws, p, banks) && At(b, at, EncodeEvents(ws)) && |acc| + |ws| <= p.limits.maxEvents
    ensures AtEnd(b, at + |EncodeEvents(ws)|, p)
    decreases |b| - at
  {
    hide ParseEvent, EncodeEvent, EventOk, Decoded, AtEnd;
    if AtEnd(b, at, p) {
      ws := [];
    } else {
      var w := EventBackward(b, at, p, banks);
      EventExact(b, at, w, p, banks);
      EventsNext(b, at, w, p, banks, acc);
      var next := at + |EncodeEvent(w)|;
      var rest := EventsBackward(b, next, p, banks, acc + [Decoded(w, at)]);
      ws := [w] + rest;
      assert ws[1..] == rest;
      AtConcat(b, at, EncodeEvent(w), EncodeEvents(rest));
    }
  }

  //
  // The SpecID header
  //

  predicate SpecIdAt(b: bytes, s: SpecId) {
    var next := 28 + |EncodeBanks(s.banks)|;
    && At(b, 0, SIGNATURE)
    && At(b, 16, Le(s.platformClass, 4))
    && At(b, 20, Le(0, 1))
    && At(b, 21, Le(2, 1))
    && At(b, 22, Le(s.errata, 1))
    && At(b, 23, Le(s.uintn, 1))
    && At(b, 24, Le(|s.banks|, 4))
    && At(b, 28, EncodeBanks(s.banks))
    && At(b, next, Le(|s.vendor|, 1))
    && At(b, next + 1, s.vendor)
  }

  lemma SpecIdAtExact(b: bytes, s: SpecId)
    ensures At(b, 0, EncodeSpecId(s)) <==> SpecIdAt(b, s)
    ensures |EncodeSpecId(s)| == 29 + |EncodeBanks(s.banks)| + |s.vendor|
  {
    hide At, Le, EncodeBanks;
    var banks := EncodeBanks(s.banks);
    var tail := Le(|s.banks|, 4) + (banks + (Le(|s.vendor|, 1) + s.vendor));
    AtThree(
      b, 0, SIGNATURE, Le(s.platformClass, 4), Le(0, 1) + (Le(2, 1) + (Le(s.errata, 1) + (Le(s.uintn, 1) + tail))));
    AtThree(b, 20, Le(0, 1), Le(2, 1), Le(s.errata, 1) + (Le(s.uintn, 1) + tail));
    AtThree(b, 22, Le(s.errata, 1), Le(s.uintn, 1), tail);
    AtThree(b, 24, Le(|s.banks|, 4), banks, Le(|s.vendor|, 1) + s.vendor);
    AtConcat(b, 28 + |banks|, Le(|s.vendor|, 1), s.vendor);
  }

  ghost predicate SpecIdFits(s: SpecId) {
    s.register < U32 && s.platformClass < U32 && |s.banks| < U32 && BanksOk(s.banks) && |s.vendor| < 256
  }

  lemma SpecIdReads(b: bytes, s: SpecId, outer: nat)
    requires SpecIdFits(s) && SpecIdAt(b, s)
    ensures Number(b, 20, 1) == Ok(0) && Number(b, 21, 1) == Ok(2)
    ensures Number(b, 22, 1) == Ok(s.errata) && Number(b, 23, 1) == Ok(s.uintn)
    ensures Number(b, 24, 4) == Ok(|s.banks|)
    ensures ParseBanks(b, 28, |s.banks|, map[], outer) == Ok((ToMap(s.banks), 28 + |EncodeBanks(s.banks)|))
    ensures Number(b, 28 + |EncodeBanks(s.banks)|, 1) == Ok(|s.vendor|)
  {
    hide Number, At, Le, ParseBanks, EncodeBanks, BanksOk;
    PowWidths();
    NumberExact(b, 20, 1, 0);
    NumberExact(b, 21, 1, 2);
    NumberExact(b, 22, 1, s.errata);
    NumberExact(b, 23, 1, s.uintn);
    NumberExact(b, 24, 4, |s.banks|);
    NumberExact(b, 28 + |EncodeBanks(s.banks)|, 1, |s.vendor|);
    assert [] + s.banks == s.banks;
    NoBanks();
    BanksForward(b, 28, [], s.banks, outer);
  }

  lemma NoBanks()
    ensures BanksOk([]) && ToMap<nat, nat>([]) == map[]
  {
  }

  lemma SpecIdExact(b: bytes, s: SpecId, limits: ParseLimits, outer: nat)
    requires SpecIdFits(s) && b == EncodeSpecId(s)
    ensures ParseSpecId(b, limits, outer).Ok? <==>
            (s.uintn == 1 || s.uintn == 2) && 0 < |s.banks| <= limits.maxAlgorithms
    ensures ParseSpecId(b, limits, outer).Ok? ==> ParseSpecId(b, limits, outer).value == ToMap(s.banks)
  {
    hide Number, ParseBanks, EncodeBanks, EncodeSpecId, Le, BanksOk, ToMap;
    SpecIdAtExact(b, s);
    SpecIdReads(b, s, outer);
  }

  lemma SpecIdParts(b: bytes, limits: ParseLimits, outer: nat)
    requires ParseSpecId(b, limits, outer).Ok?
    ensures |b| >= 28 && At(b, 0, SIGNATURE)
    ensures Number(b, 16, 4).Ok? && Number(b, 20, 1) == Ok(0) && Number(b, 21, 1) == Ok(2)
    ensures Number(b, 22, 1).Ok? && Number(b, 23, 1).Ok? && Number(b, 24, 4).Ok?
    ensures var banks := ParseBanks(b, 28, Number(b, 24, 4).value, map[], outer);
            banks.Ok? && var next := banks.value.1;
            var vendor := Number(b, next, 1);
            vendor.Ok? && next + 1 + vendor.value == |b| && At(b, next + 1, b[next + 1..])
  {
    hide FromLe, ParseBanks;
  }

  /** The SpecID body an accepted byte string encodes. */
  lemma SpecIdBackward(b: bytes, limits: ParseLimits, outer: nat, register: nat) returns (s: SpecId)
    requires ParseSpecId(b, limits, outer).Ok? && register < U32
    ensures SpecIdFits(s) && s.register == register && b == EncodeSpecId(s)
  {
    hide ParseSpecId, Number, At, Le, ParseBanks, EncodeBanks, EncodeSpecId, ToMap, BanksOk;
    SpecIdParts(b, limits, outer);
    PowWidths();
    var class', errata, uintn, count :=
      Number(b, 16, 4).value, Number(b, 22, 1).value, Number(b, 23, 1).value, Number(b, 24, 4).value;
    NumberExact(b, 16, 4, class');
    NumberExact(b, 20, 1, 0);
    NumberExact(b, 21, 1, 2);
    NumberExact(b, 22, 1, errata);
    NumberExact(b, 23, 1, uintn);
    NumberExact(b, 24, 4, count);
    NoBanks();
    var banks := BanksBackward(b, 28, count, [], outer);
    assert [] + banks == banks;
    BanksForward(b, 28, [], banks, outer);
    var next := 28 + |EncodeBanks(banks)|;
    NumberExact(b, next, 1, Number(b, next, 1).value);
    s := SpecId(register, class', errata, uintn, banks, b[next + 1..]);
    SpecIdAtExact(b, s);
    AtWhole(b, EncodeSpecId(s));
  }

  lemma AtWhole(b: bytes, x: bytes)
    ensures At(b, 0, x) && |b| == |x| <==> b == x
  {
  }

  lemma HeaderAtExact(b: bytes, s: SpecId)
    ensures At(b, 0, EncodeHeader(s)) <==>
            && At(b, 0, Le(s.register, 4)) && At(b, 4, Le(EV_NO_ACTION, 4)) && At(b, 8, Fill(20, 0))
            && At(b, 28, Le(|EncodeSpecId(s)|, 4)) && At(b, 32, EncodeSpecId(s))
    ensures |EncodeHeader(s)| == 32 + |EncodeSpecId(s)|
  {
    hide At, Le, EncodeSpecId;
    var spec := EncodeSpecId(s);
    AtThree(b, 0, Le(s.register, 4), Le(EV_NO_ACTION, 4), Fill(20, 0) + (Le(|spec|, 4) + spec));
    AtThree(b, 8, Fill(20, 0), Le(|spec|, 4), spec);
  }

  lemma Sha384Bank(banks: seq<(nat, nat)>)
    requires Distinct(banks)
    ensures (TPM_ALG_SHA384 in ToMap(banks) && ToMap(banks)[TPM_ALG_SHA384] == 48) <==> (TPM_ALG_SHA384, 48) in banks
  {
    ToMapContent(banks);
    if TPM_ALG_SHA384 in ToMap(banks) {
      var i :| 0 <= i < |banks| && banks[i].0 == TPM_ALG_SHA384;
    }
  }

  lemma HeaderReads(b: bytes, s: SpecId)
    requires SpecIdFits(s) && |EncodeSpecId(s)| < U32 && At(b, 0, EncodeHeader(s))
    ensures Number(b, 0, 4) == Ok(s.register) && Number(b, 4, 4) == Ok(EV_NO_ACTION)
    ensures Take(b, 8, 20) == Ok(Fill(20, 0))
    ensures Number(b, 28, 4) == Ok(|EncodeSpecId(s)|) && Take(b, 32, |EncodeSpecId(s)|) == Ok(EncodeSpecId(s))
  {
    hide Number, Le, EncodeSpecId, EncodeHeader;
    HeaderAtExact(b, s);
    PowWidths();
    NumberExact(b, 0, 4, s.register);
    NumberExact(b, 4, 4, EV_NO_ACTION);
    NumberExact(b, 28, 4, |EncodeSpecId(s)|);
  }

  lemma HeaderExact(b: bytes, s: SpecId, p: Profile)
    requires SpecIdFits(s) && |EncodeSpecId(s)| < U32 && At(b, 0, EncodeHeader(s))
    ensures ParseHeader(b, p).Ok? <==> SpecIdOk(s, p)
    ensures SpecIdOk(s, p) ==> ParseHeader(b, p) == Ok((ToMap(s.banks), |EncodeHeader(s)|))
  {
    hide Number, Take, At, ParseSpecId, EncodeSpecId, EncodeHeader, ToMap;
    HeaderAtExact(b, s);
    HeaderReads(b, s);
    SpecIdExact(EncodeSpecId(s), s, p.limits, 32 + |EncodeSpecId(s)|);
    Sha384Bank(s.banks);
  }

  lemma HeaderParts(b: bytes, p: Profile)
    requires ParseHeader(b, p).Ok?
    ensures Number(b, 0, 4).Ok? && Number(b, 4, 4) == Ok(EV_NO_ACTION) && At(b, 8, Fill(20, 0))
    ensures var length := Number(b, 28, 4);
            length.Ok? && var spec := Take(b, 32, length.value);
            spec.Ok? && |spec.value| == length.value && At(b, 32, spec.value) &&
            ParseSpecId(spec.value, p.limits, 32 + length.value).Ok?
  {
    hide FromLe, ParseSpecId;
    assert b[8..28] == Fill(20, 0);
  }

  /** The header an accepted log begins with. */
  lemma HeaderBackward(b: bytes, p: Profile) returns (s: SpecId)
    requires ParseHeader(b, p).Ok?
    ensures SpecIdOk(s, p) && At(b, 0, EncodeHeader(s))
    ensures ParseHeader(b, p) == Ok((ToMap(s.banks), |EncodeHeader(s)|))
  {
    hide ParseHeader, Number, Take, At, Le, ParseSpecId, EncodeSpecId, EncodeHeader, ToMap, SpecIdOk;
    HeaderParts(b, p);
    PowWidths();
    var register, length := Number(b, 0, 4).value, Number(b, 28, 4).value;
    NumberExact(b, 0, 4, register);
    NumberExact(b, 4, 4, EV_NO_ACTION);
    NumberExact(b, 28, 4, length);
    s := SpecIdBackward(Take(b, 32, length).value, p.limits, 32 + length, register);
    HeaderAtExact(b, s);
    HeaderExact(b, s, p);
  }

  //
  // Whole logs
  //

  function EncodeLog(s: SpecId, ws: seq<WireEvent>): bytes {
    EncodeHeader(s) + EncodeEvents(ws)
  }

  function LogOf(s: SpecId, ws: seq<WireEvent>, kind: LogKind): EventLog {
    EventLog(kind, ToMap(s.banks), DecodedEvents(ws, |EncodeHeader(s)|), |EncodeLog(s, ws)|)
  }

  ghost predicate LogOk(s: SpecId, ws: seq<WireEvent>, p: Profile) {
    SpecIdOk(s, p) && 0 < |ws| <= p.limits.maxEvents && EventsOk(ws, p, ToMap(s.banks))
  }

  /** `b` holds the encoding of a well-formed log, followed for CCEL by any number of 0xff bytes. */
  ghost predicate Holds(b: bytes, p: Profile, s: SpecId, ws: seq<WireEvent>) {
    && |b| <= p.limits.maxLogBytes
    && LogOk(s, ws, p)
    && At(b, 0, EncodeLog(s, ws))
    && AtEnd(b, |EncodeLog(s, ws)|, p)
  }

  lemma ParseForward(b: bytes, p: Profile, s: SpecId, ws: seq<WireEvent>)
    requires Holds(b, p, s, ws)
    ensures Parse(b, p) == Ok(LogOf(s, ws, p.kind))
  {
    hide ParseHeader, ParseEvents, EncodeHeader, EncodeEvents, EventsOk, SpecIdOk, ToMap, At, AtEnd;
    var head := EncodeHeader(s);
    AtConcat(b, 0, head, EncodeEvents(ws));
    SpecIdOkFits(s, p);
    HeaderExact(b, s, p);
    EventsForward(b, |head|, ws, p, ToMap(s.banks), []);
    assert [] + DecodedEvents(ws, |head|) == DecodedEvents(ws, |head|);
    EventsStop(b, |EncodeLog(s, ws)|, p, ToMap(s.banks), DecodedEvents(ws, |head|));
    DecodedLength(ws, |head|);
  }

  lemma SpecIdOkFits(s: SpecId, p: Profile)
    requires SpecIdOk(s, p)
    ensures SpecIdFits(s) && |EncodeSpecId(s)| < U32
  {
    hide EncodeSpecId, BanksOk;
  }

  lemma ParseBackward(b: bytes, p: Profile) returns (s: SpecId, ws: seq<WireEvent>)
    requires Parse(b, p).Ok?
    ensures Holds(b, p, s, ws)
  {
    hide ParseHeader, ParseEvents, EncodeHeader, EncodeEvents, EventsOk, SpecIdOk, ToMap, At, AtEnd;
    s := HeaderBackward(b, p);
    var head := EncodeHeader(s);
    ws := EventsBackward(b, |head|, p, ToMap(s.banks), []);
    AtConcat(b, 0, head, EncodeEvents(ws));
    EventsForward(b, |head|, ws, p, ToMap(s.banks), []);
    assert [] + DecodedEvents(ws, |head|) == DecodedEvents(ws, |head|);
    EventsStop(b, |EncodeLog(s, ws)|, p, ToMap(s.banks), DecodedEvents(ws, |head|));
    DecodedLength(ws, |head|);
  }

  /** The parser accepts exactly the byte strings that hold a well-formed log, and returns that log. */
  lemma ParseExact(b: bytes, p: Profile, log: EventLog)
    ensures Parse(b, p) == Ok(log) <==> exists s, ws :: Holds(b, p, s, ws) && log == LogOf(s, ws, p.kind)
  {
    hide Parse, Holds, LogOf;
    if Parse(b, p) == Ok(log) {
      var s, ws := ParseBackward(b, p);
      ParseForward(b, p, s, ws);
    }
    if exists s, ws :: Holds(b, p, s, ws) && log == LogOf(s, ws, p.kind) {
      var s, ws :| Holds(b, p, s, ws) && log == LogOf(s, ws, p.kind);
      ParseForward(b, p, s, ws);
    }
  }

  /** Encoding a log and parsing it gives the log back; a CCEL log may be followed by erased bytes. */
  lemma RoundTrip(s: SpecId, ws: seq<WireEvent>, p: Profile, erased: nat)
    requires LogOk(s, ws, p) && (p.kind == Tpm2 ==> erased == 0)
    requires |EncodeLog(s, ws)| + erased <= p.limits.maxLogBytes
    ensures Parse(EncodeLog(s, ws) + Fill(erased, 0xff), p) == Ok(LogOf(s, ws, p.kind))
  {
    hide Parse, LogOk, EncodeLog, LogOf;
    var b := EncodeLog(s, ws) + Fill(erased, 0xff);
    assert b[..|EncodeLog(s, ws)|] == EncodeLog(s, ws);
    assert b[|EncodeLog(s, ws)|..] == Fill(erased, 0xff);
    ParseForward(b, p, s, ws);
  }

  /** Event `i` of a parsed log lies exactly between its offset and the next one. */
  lemma {:induction false} OffsetsContiguous(ws: seq<WireEvent>, at: nat, i: nat)
    requires i < |ws|
    ensures |DecodedEvents(ws, at)| == |ws|
    ensures DecodedEvents(ws, at)[i] == Decoded(ws[i], at + |EncodeEvents(ws[..i])|)
    ensures |EncodeEvents(ws[..i + 1])| == |EncodeEvents(ws[..i])| + |EncodeEvent(ws[i])|
    decreases i
  {
    hide EncodeEvent, Decoded;
    DecodedLength(ws, at);
    var w, rest := ws[0], ws[1..];
    if i == 0 {
      assert ws[..1] == [w] && ws[..0] == [];
      assert EncodeEvents([w]) == EncodeEvent(w) + EncodeEvents([]);
    } else {
      OffsetsContiguous(rest, at + |EncodeEvent(w)|, i - 1);
      assert ws[..i][1..] == rest[..i - 1] && ws[..i + 1][1..] == rest[..i];
    }
  }

  lemma {:induction false} DecodedLength(ws: seq<WireEvent>, at: nat)
    ensures |DecodedEvents(ws, at)| == |ws|
    decreases |ws|
  {
    hide EncodeEvent, Decoded;
    if ws != [] {
      DecodedLength(ws[1..], at + |EncodeEvent(ws[0])|);
    }
  }
}
