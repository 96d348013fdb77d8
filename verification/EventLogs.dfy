/**
 * Bounded parsing of TCG2 and TDX CCEL event logs (section 10 of the TCG PC Client Platform
 * Firmware Profile 1.05), as functions that say what a byte string denotes.
 */
module EventLogs {
  import opened Bytes
  import opened BootTypes
  import opened Aael

  /** What the caller of the parser selects. */
  datatype Profile = Profile(kind: LogKind, limits: ParseLimits, aael: bool) {
    predicate RegisterOk(register: nat) {
      match kind
      case Tpm2 => register <= 23
      case TdxCcel => register <= if aael then 4 else 3
    }

    predicate SpecRegisterOk(register: nat) {
      match kind
      case Tpm2 => register == 0
      case TdxCcel => register <= 1
    }
  }

  /** "Spec ID Event03" and its terminating zero. */
  const SIGNATURE: bytes :=
    [0x53, 0x70, 0x65, 0x63, 0x20, 0x49, 0x44, 0x20, 0x45, 0x76, 0x65, 0x6e, 0x74, 0x30, 0x33, 0]

  function KnownDigestSize(algorithm: nat): Option<nat> {
    match algorithm
    case 0x0004 => Some(20)
    case 0x000b => Some(32)
    case 0x000c => Some(48)
    case 0x000d => Some(64)
    case 0x0012 => Some(32)
    case 0x0027 => Some(32)
    case 0x0028 => Some(48)
    case 0x0029 => Some(64)
    case _ => None
  }

  predicate BankOk(algorithm: nat, size: nat) {
    && 0 < size <= 128
    && (KnownDigestSize(algorithm).Some? ==> KnownDigestSize(algorithm).value == size)
  }

  //
  // What a byte string denotes
  //

  function Take(b: bytes, at: nat, n: nat): Boot<bytes> {
    if at + n <= |b| then Ok(b[at..at + n]) else Err(Malformed(at, TruncatedField))
  }

  function Number(b: bytes, at: nat, n: nat): Boot<nat> {
    var field :- Take(b, at, n);
    Ok(FromLe(field))
  }

  function ParseBanks(s: bytes, at: nat, count: nat, acc: map<nat, nat>, outer: nat): (r: Boot<(map<nat, nat>, nat)>)
    ensures r.Ok? ==> at <= r.value.1 && (at <= |s| ==> r.value.1 <= |s|)
    decreases count
  {
    if count == 0 then Ok((acc, at)) else
    var algorithm :- Number(s, at, 2);
    var size :- Number(s, at + 2, 2);
    if !BankOk(algorithm, size) then Err(Malformed(outer, InvalidDigestSize))
    else if algorithm in acc then Err(Malformed(outer, DuplicateAlgorithm))
    else ParseBanks(s, at + 4, count - 1, acc[algorithm := size], outer)
  }

  /** The body of the SpecID event; `outer` is the offset just after it in the log. */
  function ParseSpecId(s: bytes, limits: ParseLimits, outer: nat): Boot<map<nat, nat>> {
    var signature :- Take(s, 0, 16);
    if signature != SIGNATURE then Err(Malformed(outer, SpecIdSignature)) else
    var _ :- Take(s, 16, 4);
    var minor :- Number(s, 20, 1);
    var major :- Number(s, 21, 1);
    var _ :- Number(s, 22, 1);
    var uintn :- Number(s, 23, 1);
    if major != 2 || minor != 0 || (uintn != 1 && uintn != 2) then Err(Malformed(outer, SpecIdVersion)) else
    var count :- Number(s, 24, 4);
    if count == 0 || count > limits.maxAlgorithms then Err(Limit(AlgorithmCount)) else
    var (banks, at) :- ParseBanks(s, 28, count, map[], outer);
    var vendor :- Number(s, at, 1);
    var _ :- Take(s, at + 1, vendor);
    if at + 1 + vendor != |s| then Err(Malformed(outer, TrailingSpecId)) else Ok(banks)
  }

  function ParseHeader(b: bytes, p: Profile): (r: Boot<(map<nat, nat>, nat)>)
    ensures r.Ok? ==> r.value.1 <= |b|
  {
    var register :- Number(b, 0, 4);
    if !p.SpecRegisterOk(register) then Err(Malformed(4, SpecIdRegister)) else
    var eventType :- Number(b, 4, 4);
    if eventType != EV_NO_ACTION then Err(Malformed(8, SpecIdHeader)) else
    var digest :- Take(b, 8, 20);
    if !AllAre(digest, 0) then Err(Malformed(28, SpecIdHeader)) else
    var length :- Number(b, 28, 4);
    if length > p.limits.maxEventBytes then Err(Limit(SpecIdBytes)) else
    var spec :- Take(b, 32, length);
    var banks :- ParseSpecId(spec, p.limits, 32 + length);
    if p.kind == TdxCcel && !(TPM_ALG_SHA384 in banks && banks[TPM_ALG_SHA384] == 48)
    then Err(Malformed(32 + length, NoSha384Bank))
    else Ok((banks, 32 + length))
  }

  function ParseDigests(b: bytes, at: nat, count: nat, banks: map<nat, nat>, acc: map<nat, bytes>)
    : (r: Boot<(map<nat, bytes>, nat)>)
    ensures r.Ok? ==> at <= r.value.1 && (at <= |b| ==> r.value.1 <= |b|)
    decreases count
  {
    if count == 0 then Ok((acc, at)) else
    var algorithm :- Number(b, at, 2);
    if algorithm !in banks then Err(Malformed(at + 2, UnknownAlgorithm)) else
    var digest :- Take(b, at + 2, banks[algorithm]);
    if algorithm in acc then Err(Malformed(at + 2 + banks[algorithm], DuplicateDigest))
    else ParseDigests(b, at + 2 + banks[algorithm], count - 1, banks, acc[algorithm := digest])
  }

  function ParseEvent(b: bytes, at: nat, p: Profile, banks: map<nat, nat>): (r: Boot<(Event, nat)>)
    ensures r.Ok? ==> at < r.value.1 <= |b|
  {
    var register :- Number(b, at, 4);
    if !p.RegisterOk(register) then Err(Malformed(at + 4, RegisterOutsideProfile)) else
    var eventType :- Number(b, at + 4, 4);
    var count :- Number(b, at + 8, 4);
    if count == 0 || count > |banks| then Err(Malformed(at + 12, EventDigestCount)) else
    var (digests, next) :- ParseDigests(b, at + 12, count, banks, map[]);
    var size :- Number(b, next, 4);
    if size > p.limits.maxEventBytes then Err(Limit(EventBytes)) else
    var data :- Take(b, next + 4, size);
    if p.kind == TdxCcel && TPM_ALG_SHA384 !in digests then Err(Malformed(next + 4 + size, EventLacksSha384)) else
    var event := Event(at, register, eventType, digests, data);
    if p.kind == TdxCcel && register == 4 then
      var _ :- ParseAael(event);
      Ok((event, next + 4 + size))
    else Ok((event, next + 4 + size))
  }

  /** Only an entirely erased tail of a CCEL area ends a log early. */
  predicate AtEnd(b: bytes, at: nat, p: Profile) {
    at >= |b| || (p.kind == TdxCcel && AllAre(b[at..], 0xff))
  }

  function ParseEvents(
    b: bytes, at: nat, p: Profile, banks: map<nat, nat>, acc: seq<Event>): (r: Boot<(seq<Event>, nat)>)
    decreases |b| - at
  {
    if AtEnd(b, at, p) then Ok((acc, at))
    else if |acc| >= p.limits.maxEvents then Err(Limit(EventCount)) else
    var (event, next) :- ParseEvent(b, at, p, banks);
    ParseEvents(b, next, p, banks, acc + [event])
  }

  function Parse(b: bytes, p: Profile): Boot<EventLog> {
    if |b| > p.limits.maxLogBytes then Err(Limit(LogBytes)) else
    var (banks, at) :- ParseHeader(b, p);
    var (events, next) :- ParseEvents(b, at, p, banks, []);
    if events == [] then Err(Malformed(next, EmptyLog)) else Ok(EventLog(p.kind, banks, events, next))
  }
}
