/** The cursor-driven reader of event logs, proved to compute what `EventLogs.Parse` says. */
module EventLogReader {
  import opened Bytes
  import opened BootTypes
  import Spec = EventLogs
  import opened EventLogs
  import opened Aael

  class Cursor {
    const source: bytes
    var offset: nat

    constructor (source: bytes)
      ensures this.source == source && offset == 0
    {
      this.source := source;
      offset := 0;
    }

    method Take(n: nat) returns (r: Boot<bytes>)
      modifies this
      ensures r == Spec.Take(source, old(offset), n)
      ensures offset == old(offset) + if r.Ok? then n else 0
    {
      if offset + n > |source| {
        return Err(Malformed(offset, TruncatedField));
      }
      r := Ok(source[offset..offset + n]);
      offset := offset + n;
    }

    /** A little-endian integer of `n` bytes. */
    method Number(n: nat) returns (r: Boot<nat>)
      modifies this
      ensures r == Spec.Number(source, old(offset), n)
      ensures offset == old(offset) + if r.Ok? then n else 0
    {
      var field :- Take(n);
      r := Ok(FromLe(field));
    }
  }

  method ReadBanks(s: Cursor, count: nat, outer: nat) returns (r: Boot<map<nat, nat>>)
    modifies s
    ensures var spec := ParseBanks(s.source, old(s.offset), count, map[], outer);
            if spec.Ok? then r == Ok(spec.value.0) && s.offset == spec.value.1 else r == Err(spec.error)
  {
    hide Spec.Number, BankOk;
    var banks: map<nat, nat> := map[];
    for i := 0 to count
      invariant ParseBanks(s.source, old(s.offset), count, map[], outer) ==
                ParseBanks(s.source, s.offset, count - i, banks, outer)
    {
      var algorithm :- s.Number(2);
      var size :- s.Number(2);
      if !BankOk(algorithm, size) {
        return Err(Malformed(outer, InvalidDigestSize));
      }
      if algorithm in banks {
        return Err(Malformed(outer, DuplicateAlgorithm));
      }
      banks := banks[algorithm := size];
    }
    r := Ok(banks);
  }

  method ReadSpecId(spec: bytes, limits: ParseLimits, outer: nat) returns (r: Boot<map<nat, nat>>)
    ensures r == ParseSpecId(spec, limits, outer)
  {
    hide Spec.Number, Spec.Take, ParseBanks;
    var s := new Cursor(spec);
    var signature :- s.Take(16);
    if signature != SIGNATURE {
      return Err(Malformed(outer, SpecIdSignature));
    }
    var _ :- s.Take(4);
    var minor :- s.Number(1);
    var major :- s.Number(1);
    var _ :- s.Number(1);
    var uintn :- s.Number(1);
    if major != 2 || minor != 0 || (uintn != 1 && uintn != 2) {
      return Err(Malformed(outer, SpecIdVersion));
    }
    var count :- s.Number(4);
    if count == 0 || count > limits.maxAlgorithms {
      return Err(Limit(AlgorithmCount));
    }
    var banks :- ReadBanks(s, count, outer);
    var vendor :- s.Number(1);
    var _ :- s.Take(vendor);
    if s.offset != |spec| {
      return Err(Malformed(outer, TrailingSpecId));
    }
    r := Ok(banks);
  }

  method ReadHeader(c: Cursor, p: Profile) returns (r: Boot<map<nat, nat>>)
    requires c.offset == 0
    modifies c
    ensures var spec := ParseHeader(c.source, p);
            if spec.Ok? then r == Ok(spec.value.0) && c.offset == spec.value.1 else r == Err(spec.error)
  {
    hide Spec.Number, Spec.Take, ParseSpecId, AllAre;
    var register :- c.Number(4);
    if !p.SpecRegisterOk(register) {
      return Err(Malformed(c.offset, SpecIdRegister));
    }
    var eventType :- c.Number(4);
    if eventType != EV_NO_ACTION {
      return Err(Malformed(c.offset, SpecIdHeader));
    }
    var digest :- c.Take(20);
    if !AllAre(digest, 0) {
      return Err(Malformed(c.offset, SpecIdHeader));
    }
    var length :- c.Number(4);
    if length > p.limits.maxEventBytes {
      return Err(Limit(SpecIdBytes));
    }
    var spec :- c.Take(length);
    var banks :- ReadSpecId(spec, p.limits, c.offset);
    if p.kind == TdxCcel && !(TPM_ALG_SHA384 in banks && banks[TPM_ALG_SHA384] == 48) {
      return Err(Malformed(c.offset, NoSha384Bank));
    }
    r := Ok(banks);
  }

  method ReadDigests(c: Cursor, count: nat, banks: map<nat, nat>) returns (r: Boot<map<nat, bytes>>)
    modifies c
    ensures var spec := ParseDigests(c.source, old(c.offset), count, banks, map[]);
            if spec.Ok? then r == Ok(spec.value.0) && c.offset == spec.value.1 else r == Err(spec.error)
  {
    hide Spec.Number, Spec.Take;
    var digests: map<nat, bytes> := map[];
    for i := 0 to count
      invariant ParseDigests(c.source, old(c.offset), count, banks, map[]) ==
                ParseDigests(c.source, c.offset, count - i, banks, digests)
    {
      var algorithm :- c.Number(2);
      if algorithm !in banks {
        return Err(Malformed(c.offset, UnknownAlgorithm));
      }
      var digest :- c.Take(banks[algorithm]);
      if algorithm in digests {
        return Err(Malformed(c.offset, DuplicateDigest));
      }
      digests := digests[algorithm := digest];
    }
    r := Ok(digests);
  }

  method ReadEvent(c: Cursor, p: Profile, banks: map<nat, nat>) returns (r: Boot<Event>)
    modifies c
    ensures var spec := ParseEvent(c.source, old(c.offset), p, banks);
            if spec.Ok? then r == Ok(spec.value.0) && c.offset == spec.value.1 else r == Err(spec.error)
  {
    hide Spec.Number, Spec.Take, ParseDigests, ParseAael;
    var offset := c.offset;
    var register :- c.Number(4);
    if !p.RegisterOk(register) {
      return Err(Malformed(c.offset, RegisterOutsideProfile));
    }
    var eventType :- c.Number(4);
    var count :- c.Number(4);
    if count == 0 || count > |banks| {
      return Err(Malformed(c.offset, EventDigestCount));
    }
    var digests :- ReadDigests(c, count, banks);
    var size :- c.Number(4);
    if size > p.limits.maxEventBytes {
      return Err(Limit(EventBytes));
    }
    var data :- c.Take(size);
    if p.kind == TdxCcel && TPM_ALG_SHA384 !in digests {
      return Err(Malformed(c.offset, EventLacksSha384));
    }
    var event := Event(offset, register, eventType, digests, data);
    if p.kind == TdxCcel && register == 4 {
      var _ :- ParseAael(event);
    }
    r := Ok(event);
  }

  /** The whole parser: it accepts what `Parse` accepts, with the same log or the same error. */
  method ParseLog(b: bytes, p: Profile) returns (r: Boot<EventLog>)
    ensures r == Parse(b, p)
  {
    hide ParseHeader, ParseEvent, AtEnd;
    if |b| > p.limits.maxLogBytes {
      return Err(Limit(LogBytes));
    }
    var c := new Cursor(b);
    var banks :- ReadHeader(c, p);
    var events: seq<Event> := [];
    ghost var start := c.offset;
    while !AtEnd(b, c.offset, p)
      invariant c.source == b && fresh(c)
      invariant ParseEvents(b, start, p, banks, []) == ParseEvents(b, c.offset, p, banks, events)
      decreases |b| - c.offset
    {
      if |events| >= p.limits.maxEvents {
        return Err(Limit(EventCount));
      }
      var event :- ReadEvent(c, p, banks);
      events := events + [event];
    }
    if events == [] {
      return Err(Malformed(c.offset, EmptyLog));
    }
    r := Ok(EventLog(p.kind, banks, events, c.offset));
  }
}
