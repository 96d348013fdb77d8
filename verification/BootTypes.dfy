/** Entities of the measured-boot verifier: limits, events, logs and errors. */
module BootTypes {
  import opened Bytes

  const TPM_ALG_SHA256: nat := 0x000b
  const TPM_ALG_SHA384: nat := 0x000c
  const TPM_ALG_SHA512: nat := 0x000d
  const EV_NO_ACTION: nat := 3
  const EV_EVENT_TAG: nat := 6

  datatype LogKind = Tpm2 | TdxCcel

  datatype ParseLimits = ParseLimits(
    maxLogBytes: nat,
    maxEvents: nat,
    maxEventBytes: nat,
    maxAlgorithms: nat)

  const DEFAULT_LIMITS := ParseLimits(32 * 1024 * 1024, 65_536, 4 * 1024 * 1024, 16)

  datatype Event = Event(
    offset: nat,
    register: nat,
    eventType: nat,
    digests: map<nat, bytes>,
    data: bytes)

  datatype EventLog = EventLog(
    kind: LogKind,
    algorithms: map<nat, nat>,
    events: seq<Event>,
    consumed: nat)

  datatype Reason =
    | TruncatedField
    | SpecIdRegister
    | SpecIdHeader
    | SpecIdSignature
    | SpecIdVersion
    | InvalidDigestSize
    | DuplicateAlgorithm
    | TrailingSpecId
    | NoSha384Bank
    | RegisterOutsideProfile
    | EventDigestCount
    | UnknownAlgorithm
    | DuplicateDigest
    | EventLacksSha384
    | EmptyLog

  datatype Bound =
    | LogBytes | SpecIdBytes | AlgorithmCount | EventCount | EventBytes | CombinedBytes | PolicyEvents | PolicyBytes

  datatype RuntimeFault = FieldsInvalid | NotAaelRecord | TagOrLength | NotUtf8 | PolicyMismatch | ForeignRecord

  datatype BootError =
    | Malformed(offset: nat, reason: Reason)
    | Limit(bound: Bound)
    | UnsupportedAlgorithm(algorithm: nat)
    | UnsupportedLocality
    | UnsupportedMrtd
    | MissingReplayBank
    | TdxRequiresSha384
    | PlatformMismatch
    | InvalidRegisters
    | RegisterMismatch(bank: nat, index: nat)
    | UnauthenticatedEvent(event: nat)
    | ContentMismatch(mismatched: nat)
    | Runtime(fault: RuntimeFault)

  type Boot<+T> = Result<T, BootError>
}
