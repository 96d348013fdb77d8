# unified-quote, verified

A Dafny model of the parts of unified-quote that turn untrusted evidence into claims: measured-boot
event logs, the runtime (AAEL) log, the system-closure identity, the relay credential protocol, CBOR
and SPDM decoding, the EAT binding, the ancestry chain of stage receipts, PE images, certificate path
lengths, the rate limiter, and Value X with its source snapshot.

Hash functions are parameters: any function of the right output width. A commitment theorem therefore
says "the two inputs are equal, or two of the inputs that were hashed collide (or one of them hashes to
a named start value)", over the explicit sets of hashed inputs. Signatures are symbolic: a set of
(key, message, signature) facts that only signing extends. Clocks, random nonces, decoded CBOR tokens
and the contents of files are arguments. So is the lossy reading of file paths: any function to UTF-8
text that keeps what is already UTF-8.

Decoders are given twice: as a function that reads at an offset, and as a method over a mutable cursor
that is proved to return the same result, errors included. The theorems about a format relate the
function to an independent encoder.

| module | what it models |
|---|---|
| `Bytes`, `ByteOrder`, `Utf8`, `Utf8Scalars`, `BootTypes` | byte strings, integers on the wire, lexicographic order, UTF-8, shared types |
| `EventLogs`, `EventLogEncoding`, `EventLogReader` | the TPM 2.0 / CCEL event-log parser and its encoder |
| `EventReplay`, `RegisterCommitment`, `ReplayConditions`, `Interleaving` | replay, verification against authenticated registers, what they commit to, when a log replays |
| `Aael`, `RuntimeLogs`, `RuntimePolicies` | runtime records, appending them to a firmware log, the runtime policy |
| `Closure` | path validation, leaves, Merkle levels and root |
| `Relay`, `RelayProtocol` | the three signed or hashed encodings, both replay stores, all runs of the protocol |
| `CborScan` | the CBOR preflight scanner |
| `Eat`, `Ancestry` | token shape and binding, the chain of stage receipts |
| `Spdm`, `SpdmReader` | the SPDM measurement report |
| `PeImage`, `PeEncoding` | PE headers, sections, overlap checks, section digests; the format written field by field |
| `CertPath` | chain completion and the issuer loop |
| `RateLimiter` | the sliding-window limiter |
| `Trees`, `ValueX`, `SourceSnapshot`, `HashLines`, `TreeCommitment` | directory trees, the tree hash, the frozen copy and the ratchet, what the hashed lines and the hash commit to |

## Model

| member | source | states |
|---|---|---|
| `EventLogReader.Cursor.Take` | v2/src/boot.rs:112-147 | Reads the next bytes and moves past them; a short log is an error and moves nothing. |
| `EventLogReader.Cursor.Number` | v2/src/boot.rs:112-147 | Reads a little-endian integer at the cursor. |
| `EventLogReader.ReadHeader` | v2/src/boot.rs:184-245 | The SpecID header loop reads the banks of the header function and stops where it stops. |
| `EventLogReader.ReadEvent` | v2/src/boot.rs:246-307 | One turn of the event loop returns the event of the reading function, and the cursor ends behind it. |
| `EventLogReader.ParseLog` | v2/src/boot.rs:184-307 | The cursor-driven parser returns exactly the result of the reading function, errors included. |
| `EventLogEncoding.EventExact` | v2/src/boot.rs:246-307 | An encoded record is accepted exactly when its fields are well formed for the profile, and is read as those fields. |
| `EventLogEncoding.ParseExact` | v2/src/boot.rs:184-307 | A byte string parses to a log exactly when it is the encoding of a well-formed header and events denoting that log, followed for CCEL only by 0xff bytes, within the limits. |
| `EventLogEncoding.RoundTrip` | v2/src/boot.rs:184-307 | Parsing the encoding of any well-formed log, digests in any order, gives that log; erased bytes behind a CCEL log change neither events nor consumed length. |
| `EventLogEncoding.OffsetsContiguous` | v2/src/boot.rs:246-307 | Each parsed event lies exactly between its own offset and the next event's. |
| `EventLogEncoding.ToMapContent` | v2/src/boot.rs:246-307 | The digest map of an event holds every pair of the record once, whatever their order. |
| `EventLogEncoding.BankOkExactly` | v2/src/boot.rs:149-161 | A bank is accepted exactly with 1 to 128 bytes and, for a registered algorithm, its registered size. |
| `RuntimeLogs.ParsedShape` | v2/src/boot.rs:184-307 | Every parsed log meets the shape replay relies on: register indices in range, every advertised digest present with its size. |
| `EventReplay.ReplayLog` | v2/src/boot.rs:324-388 | The replay loop computes the run of its events from the initial registers, or the first error. |
| `EventReplay.Apply` | v2/src/boot.rs:324-388 | One event: extension, StartupLocality or no effect, with the flags it sets and the errors it can raise. |
| `EventReplay.RunStopped` | v2/src/boot.rs:324-388 | A refused event refuses the whole log with the same error. |
| `ReplayConditions.TpmRunsExactly` | v2/src/boot.rs:336-379 | A TPM event list replays if and only if every measurement into PCR 0 to 15 carries the bank, and a StartupLocality record comes at most once, in register 0, before any measurement into it, 17 bytes long, ending in 0 or 3, with zero digests. |
| `ReplayConditions.TdxRunsExactly` | v2/src/boot.rs:336-379 | A CCEL event list replays if and only if nothing is measured into MRTD and every measurement carries the bank. |
| `ReplayConditions.ReplayExactly` | v2/src/boot.rs:324-388 | A log replays if and only if it advertises the bank and its events meet those conditions; register i is then the fold, from its start value, of the digests of the events with its own index. |
| `ReplayConditions.StartExactly` | v2/src/boot.rs:353-355 | Registers start from zeros, except PCR 0 after a startup record, whose last byte is the recorded locality. |
| `RegisterCommitment.RunMeans` | v2/src/boot.rs:324-388 | After any accepted run every register is the fold of exactly the digests extended into it, from its start value. |
| `RegisterCommitment.FoldCommits` | v2/src/boot.rs:360-388 | Equal register values come from the same start value and the same digest list, or a collision or a preimage of a start value is exhibited; list lengths may differ. |
| `RegisterCommitment.ReplayBanks` | v2/src/boot.rs:390-419 | The banks replayed are exactly those some register needs, each with its replay; an error is the replay error of a needed bank. |
| `RegisterCommitment.Verify` | v2/src/boot.rs:390-419 | Succeeds exactly when the platform matches and every authenticated register equals its replay; the covered set is that of the registers. |
| `RegisterCommitment.TdxRegisters` | v2/src/boot.rs:438-447 | Four RTMRs always make an admissible register set, RTMR i under index i of the SHA-384 bank. |
| `RegisterCommitment.TpmRegisters` | v2/src/boot.rs:448-463 | Accepts exactly the admissible PCR sets and keeps them. |
| `RegisterCommitment.RegistersCommit` | v2/src/boot.rs:324-419 | Two logs verified against the same registers have, in every covered register, the same start value and the same digests in order, or the hash is broken. |
| `RegisterCommitment.AuthenticatedAtRank` | v2/src/boot.rs:481-504 | A digest handed out as authenticated is the one its covered register extended at the event's rank. |
| `ReplayConditions.AuthenticatedExactly` | v2/src/boot.rs:481-504 | In a verified log exactly the measurements into covered registers have an authenticated digest, and it is their own. |
| `RegisterCommitment.RanksAgree` | v2/src/boot.rs:481-504 | Events of equal rank in a covered register have equal authenticated digests in both logs, or the hash is broken. |
| `Interleaving.RunProjects` | v2/src/boot.rs:332-388 | An accepted log is accepted when cut down to one register, which ends with the same value. |
| `Interleaving.RunAssembles` | v2/src/boot.rs:332-388 | A log is accepted as soon as each register's own events are. |
| `Interleaving.OnlyRegisterOrderMatters` | v2/src/boot.rs:332-388 | Event lists with the same per-register order replay to the same registers or are both refused. |
| `Interleaving.SwapNeighbours` | v2/src/boot.rs:332-388 | Swapping neighbouring events of different registers changes no verdict and no register, also around StartupLocality. |
| `Interleaving.ReplayIgnoresInterleaving` | v2/src/boot/uki.rs:466-474 | The same for whole logs and every bank. |
| `Aael.AaelExactly` | v2/src/boot/runtime.rs:87-118 | An event reads as a runtime event if and only if it is an EV_EVENT_TAG of MRIndex 4 with one 48-byte SHA-384 digest over the canonical encoding of that valid event, although the content may hold spaces. |
| `Aael.AsciiEventValid` | v2/src/boot/runtime.rs:31-55 | In ASCII the valid fields are nonempty printable characters, with spaces in the content only, 65536 bytes in all. |
| `Aael.SizeIsLength` | v2/src/boot/runtime.rs:44-50 | The size counted for an event is the length of its encoding. |
| `Utf8Scalars.ValidExactly` | v2/src/boot/runtime.rs:108-109 | Bytes are text if and only if they encode a list of Unicode scalar values. |
| `Utf8Scalars.TextIsEncoded` | v2/src/boot/runtime.rs:35-43 | The characters tested in a field are those it encodes. |
| `Aael.AaelSound` | v2/src/boot/runtime.rs:87-118 | Whatever is read as a runtime event is such a record. |
| `Aael.EncodeInjective` | v2/src/boot/runtime.rs:31-55 | Valid runtime events with equal encodings are equal. |
| `Utf8Scalars.WhitespaceExactly` | v2/src/boot/runtime.rs:35-42 | White space is exactly the 25 code points with that Unicode property. |
| `Utf8Scalars.ControlExactly` | v2/src/boot/runtime.rs:35-43 | Control characters are exactly the C0 and C1 ranges and DEL. |
| `RuntimeLogs.FirmwareIsPrefix` | v2/src/boot/runtime.rs:204-220 | A combined log that parses keeps the firmware header and begins with the firmware events, so the slice behind them is in range. |
| `RuntimeLogs.AppendCocoAael` | v2/src/boot/runtime.rs:199-226 | Succeeds exactly when the firmware log parses and the concatenation parses to its end with only AAEL records added, and returns that concatenation. |
| `RuntimeLogs.RunAael` | v2/src/boot.rs:324-388 | Replaying AAEL records after any events changes RTMR3 only, by folding their digests into it. |
| `RuntimeLogs.AppendComposes` | v2/src/boot/runtime.rs:199-226 | The combined log is the firmware events then AAEL records; it replays exactly when the firmware log does, keeps RTMR0 to RTMR2, and RTMR3 goes from zeros to the fold of the appended digests. |
| `RuntimePolicies.ValidatePolicy` | v2/src/boot/runtime.rs:67-84 | Accepts exactly policies within the event count and byte limits whose events are valid. |
| `RuntimePolicies.TotalIsLength` | v2/src/boot/runtime.rs:71-82 | The total held against the limit is the length of all encodings together. |
| `RuntimePolicies.QuoteHasAllRtmrs` | v2/src/boot/runtime.rs:151-162 | The four RTMRs of a quote pass the completeness check, each found under its index. |
| `RuntimePolicies.IndicesExactly` | v2/src/boot/runtime.rs:164-180 | The indices returned are those of the MRIndex 4 events, in order. |
| `RuntimePolicies.RecordsExactly` | v2/src/boot/runtime.rs:164-180 | The records are what the events at those indices read as. |
| `RuntimePolicies.VerifyTdxRuntime` | v2/src/boot/runtime.rs:142-193 | Accepts exactly the matching logs, under a valid policy and four RTMRs, whose MRIndex 4 events are genuine records equal to the policy in order. |
| `RuntimePolicies.PolicyPinsRtmr3` | v2/src/boot/runtime.rs:142-193 | On acceptance the authenticated RTMR3 is the fold, from zeros, of the hashes of the policy's encodings in order. |
| `RuntimePolicies.Rtmr3Commits` | v2/src/boot/runtime.rs:142-193 | One RTMR3 value admits one list of valid runtime events, or the hash is broken. |
| `Closure.OrderPaths` | v2/src/boot/closure.rs:87-111 | Accepts exactly nonempty, bounded lists of distinct valid paths and returns them in byte order. |
| `Closure.PathOkExactly` | v2/src/boot/closure.rs:92-107 | A path is valid if and only if it is text of 1 to 4096 bytes without NUL or backslash, no segment of which between slashes or ends is empty, "." or "..". |
| `Closure.SplitExactly` | v2/src/boot/closure.rs:99-101 | The parts of a split are exactly the segments between separators. |
| `Closure.NamesLexicographic` | v2/src/boot/closure.rs:90-116 | Paths are measured in lexicographic byte order. |
| `ByteOrder.LessExactly` | v2/src/boot/closure.rs:90-116 | One string is below another if and only if it is a proper prefix or has the smaller byte at the first difference. |
| `Closure.EntryRecords` | v2/src/boot/closure.rs:151-166 | An entry holds the path, the length, the twelve permission bits and the hash of the content. |
| `Closure.MeasureFiles` | v2/src/boot/closure.rs:112-167 | Succeeds exactly when every file is regular and the sizes are within both limits, with one entry and one leaf per file. |
| `Closure.MeasureClosure` | v2/src/boot/closure.rs:82-191 | The whole measurement: exact success condition, entries of the ordered paths, and the Merkle root of their leaves, for every number of files. |
| `Closure.LevelCommits` | v2/src/boot/closure.rs:168-181 | One pairing level, odd ends included, determines the level below, or branch inputs collide. |
| `Closure.TopCommits` | v2/src/boot/closure.rs:168-181 | The top of the tree determines all leaves, or branch inputs collide. |
| `Closure.RootCommits` | v2/src/boot/closure.rs:153-190 | Manifests with equal roots have the same number of files and the same paths, modes, lengths and content hashes, or hashed inputs collide. |
| `Closure.OrderOfPathsIsIrrelevant` | v2/src/boot/closure.rs:90-116 | The manifest depends only on the set of paths. |
| `Closure.ClosureCommits` | v2/src/boot/closure.rs:82-191 | Two closures with equal roots, each measured under its own limits, are the same files with the same bytes, or hashed inputs collide. |
| `Relay.NewChallenge` | v2/src/relay.rs:79-91 | A challenge carries its nonce and context and expires at now plus its lifetime; it is refused exactly on 64-bit overflow. |
| `Relay.ChallengeInjective` | v2/src/relay.rs:100-108 | Challenges are encoded without ambiguity. |
| `Relay.CredentialInjective` | v2/src/relay.rs:152-162 | Credentials with fields below 2^32 bytes that are encoded alike differ at most in the signature. |
| `Relay.ShortMessageInjective` | v2/src/relay.rs:152-162 | A signed message below 2^32 bytes belongs to one credential, with no condition on the other. |
| `Relay.LongFieldsAmbiguous` | v2/src/relay.rs:516-519 | Two different credentials with one encoding: a field of 2^32 bytes has the length prefix of an empty one. |
| `Relay.InjectiveExactly` | v2/src/relay.rs:152-162 | The encoding is injective on credentials with fields below n bytes if and only if n is at most 2^32. |
| `Relay.PopInjective` | v2/src/relay.rs:508-514 | A proof-of-possession message determines its challenge. |
| `Relay.DomainsApart` | v2/src/relay.rs:152-162 | No credential has the bytes of a proof-of-possession message. |
| `Relay.BindingCommits` | v2/src/relay.rs:114-126 | Equal device bindings bind the same device key, relay TEE and challenge, or the two inputs collide. |
| `RelayProtocol.ReplayStore.CheckAndStore` | v2/src/relay.rs:364-413 | Consumes a nonce exactly when the challenge is fresh and the nonce unused; a refusal changes nothing. |
| `RelayProtocol.Bootstrap` | v2/src/relay.rs:420-449 | The credential and new store of the specification, or its error with the store unchanged. |
| `RelayProtocol.BootstrappedExactly` | v2/src/relay.rs:420-449 | A bootstrap succeeds if and only if issue time plus lifetime fits 64 bits, the observed binding is that of the key, TEE and challenge, and the challenge is open and its nonce unused; the credential and store are then these. |
| `RelayProtocol.Accept` | v2/src/relay.rs:488-506 | The claims and new store of the specification, or its error with the store unchanged; the key decode after the nonce is stored cannot fail. |
| `RelayProtocol.AcceptedExactly` | v2/src/relay.rs:166-194 | At every time, acceptance happens exactly when both signatures were made, the key decodes, both windows are open (the skew sum taken modulo 2^64) and the nonce is unused. |
| `RelayProtocol.Agreement` | v2/src/relay.rs:420-519 | In every run an admission rests on a credential with the presented bytes which that issuer issued earlier, with the platform and Value X of an attestation bound to its device key, relay TEE and challenge; below 2^32 bytes presented, it is that credential and the claims are those issued. The device signed this very challenge, and the time is in both windows. |
| `RelayProtocol.HonestFlow` | v2/src/relay.rs:420-506 | Whatever else happens, such a bootstrap, a later present by the device and an accept inside both windows at a store that has not seen the nonce end in an admission with the issued claims. |
| `RelayProtocol.NonceUsedOnce` | v2/src/relay.rs:364-449 | In every run each store lets a nonce succeed at most once, whatever expiry it is reissued with. |
| `CborScan.FoldArgument` | v2/src/gpu/corim.rs:881-891 | Shifting bytes in one by one gives the big-endian argument. |
| `CborScan.ChildrenExactly` | v2/src/gpu/corim.rs:901-908 | An array announces as many items as its argument, at most 4096; a map two for each of at most 128 pairs. |
| `CborScan.WidthExactly` | v2/src/gpu/corim.rs:881-891 | Long arguments take 1, 2, 4 or 8 bytes and hold what fits in them. |
| `CborScan.ScanItem` | v2/src/gpu/corim.rs:864-921 | The recursive scanner with mutable offset and budget returns the specification's result. |
| `CborScan.Preflight` | v2/src/gpu/corim.rs:846-860 | Accepts exactly the whole encodings of one profile item within the size, depth and node limits. |
| `CborScan.ScanExact` | v2/src/gpu/corim.rs:864-921 | Scanning succeeds exactly when a definite-length item of the profile starts at the offset within the limits; it ends at that item's end and spends one budget unit per node. |
| `CborScan.EarlyTestIsHarmless` | v2/src/gpu/corim.rs:901-916 | The early count-against-budget test changes no accepted result. |
| `CborScan.ItemUnique` | v2/src/gpu/corim.rs:864-921 | At most one item of the profile starts at an offset. |
| `Eat.ValidateShape` | v2/src/eat.rs:421-467 | Accepts exactly tokens of the required shape. |
| `Eat.BindingCommits` | v2/src/eat.rs:255-317 | Shape-valid tokens with equal bindings, under any suites, agree on the suite and everything but quote and measurement, or hashed inputs collide or a previous stage hashes to zeros. |
| `Eat.SuitesApart` | v2/src/eat.rs:255-317 | Binding inputs of different suites are different. |
| `Eat.QuoteIsNotBound` | v2/src/eat.rs:255-279 | The binding can be computed before the quote that carries it. |
| `Eat.ReportDataCommits` | v2/src/eat.rs:332-355 | Equal 64-byte report data also have the same challenge, or the second inputs collide. |
| `Eat.ChallengeNotConfused` | v2/src/eat.rs:332-355 | Report data without a challenge ends in the first 32 bytes of Value X, and equals one with a challenge only if that challenge's input hashes to them. |
| `Spdm.ParseForward` | v2/src/gpu/spdm.rs:52-124 | Reading the encoding of a well-formed report gives its fields. |
| `Spdm.ParseBackward` | v2/src/gpu/spdm.rs:52-124 | Every accepted byte string is the encoding of a well-formed report of at most 8192 bytes. |
| `Spdm.ParseExact` | v2/src/gpu/spdm.rs:52-124 | Both directions in one, and transcript followed by signature is the whole input. |
| `Spdm.EncodeInjective` | v2/src/gpu/spdm.rs:52-124 | No byte string encodes two reports. |
| `SpdmReader.Cursor.Take` | v2/src/gpu/spdm.rs:170-187 | Takes a prefix of the remaining bytes, or fails and leaves them. |
| `SpdmReader.ReadBlock` | v2/src/gpu/spdm.rs:73-105 | Reads one block and marks its index in the table, or refuses it as the specification does. |
| `SpdmReader.ReadRecord` | v2/src/gpu/spdm.rs:73-105 | The record loop with its table of seen indices returns the specification's measurements. |
| `SpdmReader.ParseReport` | v2/src/gpu/spdm.rs:52-124 | The cursor-driven parser returns exactly the specification's result. |
| `Ancestry.ValidatePolicy` | v2/src/attestation_chain.rs:141-167 | Accepts exactly policies of valid entries (name length and characters, nonzero pins, maximum age, key size) with distinct names and receipts and one Value X. |
| `Ancestry.EntryExactly` | v2/src/attestation_chain.rs:281-320 | An entry is valid exactly with a name of 1 to 128 bytes without control characters, pins with a nonzero byte, a life of 1 to 86400 seconds and a key of at most 16 KiB. |
| `Ancestry.Prepare` | v2/src/attestation_chain.rs:233-277 | Succeeds exactly when the policy is valid and the receipt unwinds, and returns the stages oldest first. |
| `Ancestry.UnwindExact` | v2/src/attestation_chain.rs:233-277 | Unwinding gives these stages exactly when each is decoded from what the next carries, each is the enrolled one, none is missing or extra, and the total size is within the limit. |
| `Ancestry.AdmitStages` | v2/src/attestation_chain.rs:171-230 | The admission loop accepts exactly when every stage passes against the proof of exactly the stages before it. |
| `Ancestry.Verify` | v2/src/attestation_chain.rs:171-230 | Accepts exactly the receipts that unwind, whose stages are all admitted, before the deadline; returns their proof. |
| `Ancestry.ProofMeans` | v2/src/attestation_chain.rs:171-230 | The proof lists the enrolled stages oldest first with one Value X, names the hash of the input as predecessor, and expires at the least of issue time plus maximum age. |
| `Ancestry.EnrolledClaims` | v2/src/attestation_chain.rs:383-423 | Each unwound stage makes exactly the claims enrolled for its place, under a full-width binding, composite where the platform needs it. |
| `Ancestry.PolicyPinsReceipt` | v2/src/attestation_chain.rs:233-277 | One policy admits one receipt and one chain, or two receipts have the same hash. |
| `Ancestry.LinksCannotFail` | v2/src/attestation_chain.rs:96-118 | In an unwound chain the link and Value X checks hold; only an expired proof can fail them. |
| `Ancestry.ChildExactly` | v2/src/attestation_chain.rs:96-118 | A token passes as the child of a verified chain if and only if it carries bytes with the hash of the chain's receipt, the same Value X and a full-width binding, before every stage's deadline. |
| `Ancestry.ChildCarriesReceipt` | v2/src/attestation_chain.rs:96-118 | Such a child carries that very receipt, or two receipts have the same hash. |
| `Ancestry.AdmissionExact` | v2/src/attestation_chain.rs:171-230 | So the chain is admitted exactly when every stage passes its other checks while the earlier proof is fresh. |
| `PeImage.Disjoint` | v2/src/boot/uki.rs:144-154 | Sort-and-sweep accepts exactly ranges that are pairwise apart and start at or above the floor. |
| `PeImage.NoOverlapExactly` | v2/src/boot/uki.rs:286-300 | The range checks pass if and only if no address, in memory or in the file, is shared by two sections or by a section and the certificate table, and none lies below the end of the headers. |
| `PeEncoding.AlignmentExactly` | v2/src/boot/uki.rs:204-212 | Alignments are accepted exactly as powers of two: file 2^9 to 2^16, section no less, equal below 2^12. |
| `PeEncoding.PowerOfTwoExactly` | v2/src/boot/uki.rs:206-207 | The powers of two are 1, 2, 4 and so on. |
| `PeImage.ReadTable` | v2/src/boot/uki.rs:228-285 | The section loop returns every entry's section, and the memory and file ranges of those that have one. |
| `PeImage.ParsePe` | v2/src/boot/uki.rs:170-305 | Accepts exactly images whose headers, entries and certificate directory check and whose ranges overlap nowhere, with the kernel where it is required. |
| `PeEncoding.LayoutExact` | v2/src/boot/uki.rs:170-228 | The headers give a layout exactly when each field it names, little-endian, is at the place the format gives it and the sizes and alignments are admissible. |
| `PeEncoding.EntryExact` | v2/src/boot/uki.rs:231-285 | A table entry gives a section exactly when the section is admissible and the entry is its encoding: padded name, sizes, addresses and twelve zero bytes. |
| `PeEncoding.TableExact` | v2/src/boot/uki.rs:231-285 | The table gives these sections exactly when it holds their encodings entry by entry. |
| `PeEncoding.CertificateExact` | v2/src/boot/uki.rs:289-300 | The certificate range is exactly what the fifth data directory says, aligned and inside the file, or none. |
| `PeEncoding.ImageExact` | v2/src/boot/uki.rs:170-305 | The parser accepts exactly the byte strings that are such an image with no overlap anywhere. |
| `PeImage.AcceptedGeometry` | v2/src/boot/uki.rs:228-305 | Every address a section of an accepted image takes up lies between the headers and the image size, and in the file between the headers and its end, and belongs to one section only. |
| `PeImage.CertificateGeometry` | v2/src/boot/uki.rs:286-300 | Its certificate table lies above the headers, inside the file, and meets no section's bytes. |
| `PeImage.LoadedBytes` | v2/src/boot/uki.rs:315-333 | The measured bytes of a section are its file bytes cut or zero-filled to the virtual size, byte by byte. |
| `PeImage.HashLoaded` | v2/src/boot/uki.rs:370-380 | Feeding zeros in 4096-byte pieces hashes content followed by all the zeros. |
| `PeImage.SectionDigest` | v2/src/boot/uki.rs:320-333 | For a section of an accepted image the digest is defined and is the hash of its loaded bytes; other banks are refused. |
| `CertPath.PathLengthEquivalence` | v2/src/gpu/cert.rs:159-168 | For every chain, the per-issuer counts pass exactly when the counter of steps (l) and (m) in section 6.1.4 of RFC 5280, started at the root, passes. |
| `CertPath.CheckLinks` | v2/src/gpu/cert.rs:147-173 | The issuer loop accepts exactly chains with sound links whose path lengths pass that counter. |
| `CertPath.LinksExactly` | v2/src/gpu/cert.rs:147-173 | The loop's tests of all certificates say that all are usable and each but the leaf is a critical CA with keyCertSign that signed the one before it. |
| `CertPath.CollectCertificates` | v2/src/gpu/cert.rs:96-116 | Accepts exactly one to twelve certificates, no two alike. |
| `CertPath.Complete` | v2/src/gpu/cert.rs:128-143 | A chain ending in a pinned root is complete; any other completes exactly when some pinned root has its issuer's name and signed its end and there is room, and then with the first such root added. |
| `CertPath.ValidateChain` | v2/src/gpu/cert.rs:120-204 | Accepts exactly the chains of one to twelve distinct certificates that complete to a certification path, and returns that path. |
| `RateLimiter.Limiter.Prune` | src/attest/mod.rs:266-269 | Keeps exactly the timestamps still inside the window, in order. |
| `RateLimiter.Limiter.Allow` | src/attest/mod.rs:266-277 | At every point of every run with a non-decreasing clock the pruned list answers as the full history would; refusal means the window ending now holds the maximum. |
| `RateLimiter.NoWindowExceeds` | src/attest/mod.rs:251-277 | No interval of the configured length, wherever it starts, ever holds more grants than the maximum. |
| `RateLimiter.RefusedWhenFull` | src/attest/mod.rs:266-277 | A call is refused exactly when the window that ends with it holds the maximum number of grants. |
| `Trees.SortLexicographic` | v2/src/value_x.rs:24-45 | Sorting by name or path is lexicographic: no later key comes before an earlier one. |
| `Trees.SortStable` | v2/src/value_x.rs:24-45 | Elements of one key keep their order. |
| `Trees.SortPermutes` | v2/src/value_x.rs:24-45 | Sorting keeps exactly the elements. |
| `ValueX.ReachedIsCollected` | v2/src/value_x.rs:39-81 | Every file reachable through names that are not excluded is collected under its path with its hash. |
| `ValueX.CollectedIsReached` | v2/src/value_x.rs:39-81 | Nothing else is collected. |
| `ValueX.PathIsJoined` | v2/src/value_x.rs:71-77 | The path of a file below the root is its names joined by slashes. |
| `ValueX.LinkStops` | v2/src/value_x.rs:56-64 | A reachable symbolic link refuses the tree. |
| `ValueX.StoppedByLink` | v2/src/value_x.rs:56-64 | Only a reachable symbolic link does. |
| `ValueX.ListingOrderIsIrrelevant` | v2/src/value_x.rs:39-81 | Listings of one tree in different orders at any depth give the same files in the same order. |
| `ValueX.SnapshotPreserves` | v2/src/main.rs:2073-2115 | Copying fails exactly when hashing does; otherwise the copy has the same files. |
| `SourceSnapshot.CollectHashes` | v2/src/value_x.rs:39-81 | The recursive walk appends the specified files to its output, or reports the refusal. |
| `SourceSnapshot.ComputeTreeHash` | v2/src/value_x.rs:24-37 | The hash over the sorted `path:hash` lines, or the refusal. |
| `SourceSnapshot.CopyTree` | v2/src/main.rs:2073-2115 | Copying entry by entry in listing order gives the specified snapshot, or the refusal. |
| `SourceSnapshot.TreeHashIgnoresOrder` | v2/src/value_x.rs:24-37 | Value X does not depend on directory listing order at any depth. |
| `SourceSnapshot.SnapshotKeepsTreeHash` | v2/src/main.rs:319-338 | The snapshot, listed in whatever order, has the source's Value X. |
| `HashLines.TextDeterminedExactly` | v2/src/value_x.rs:24-37 | Among lists with text for paths, as the code makes them, the `path:hash` lines determine a list if and only if at no line another text path can be cut off so that the remainder still reads as lines. |
| `HashLines.ReadsExactly` | v2/src/value_x.rs:29-36 | Bytes read as lines, by repeated cutting, exactly when they are the lines of some list with text paths. |
| `HashLines.ColonFreeExactly` | v2/src/value_x.rs:29-36 | Without colons in paths or digests, the lines determine the list if and only if no digest but the last is UTF-8. |
| `HashLines.NotTextSuffices` | v2/src/value_x.rs:29-36 | A list with colon-free paths is unambiguous when no digest but the last, nor its part before a colon, is UTF-8. |
| `HashLines.DeterminedExactly` | v2/src/value_x.rs:29-36 | If paths could be any bytes, lines would determine a list if and only if it is empty, or has one item whose path does not hold a colon, 48 bytes and a line feed. |
| `TreeCommitment.ColonsAmbiguous` | v2/src/value_x.rs:24-37 | The code does not commit to the files of every tree: where a digest is UTF-8 without NUL, slash or backslash, so that it can stand in a file name and is hashed as it stands, one file and two files have the same Value X, with no collision. |
| `TreeCommitment.DeterminedTreeCommits` | v2/src/value_x.rs:24-37 | A tree of any size that meets the exact condition on its own lines shares its Value X with no tree of other files, or hashed inputs collide; nothing is asked of the other tree. |
| `TreeCommitment.OwnTreeCommits` | v2/src/value_x.rs:24-37 | In particular a tree with no colon in a path and no digest but the last, nor its part before a colon, UTF-8. |
| `HashLines.LinesInjective` | v2/src/value_x.rs:29-36 | Among lists whose paths hold no colon, the lines determine the list. |
| `TreeCommitment.TreeHashCommits` | v2/src/value_x.rs:24-37 | Among trees with no colon in a path, equal Value X means the same files under the same paths, or hashed inputs collide; the code fails this without the condition. |
| `SourceSnapshot.Ratchet` | v2/src/main.rs:312-338 | The comparison of the two hashes never fails: the outcome is the source's Value X, or a reachable symbolic link. |

## Left out

- Quote signatures, DER, X.509 and OCSP decoding, and collateral downloads: certificates and signature checks are arguments of `CertPath`.
- The admission checks of a stage (`v2/src/attestation.rs`): one appraisal result per stage, with its start and end time; only the parts that look at the ancestry proof are modelled.
- CBOR decoding of tokens by the serde library: an arbitrary decoding function; size and shape checks around it are modelled.
- Hexadecimal and JSON forms of policies and manifests.
- File access: opening below a directory handle, metadata races, streaming reads and permission bits of the snapshot. A closure is a map from paths to files; a directory entry that cannot be read is absent.
- UKI profile selection, execution policy and the verification of UKI measurements; only the PE layer is modelled.
- CoRIM claims beyond the preflight scan, and the opaque TLVs of GPU reports: easier decoders of the same kind.
- Devices, networking, TLS, command lines, registries and the integrity monitor.
- Machine integers are unbounded except where the width can show: wire fields, the 64-bit time sums of the relay and the ancestry chain, and 32-bit length prefixes. Offsets are taken as 64-bit, where the overflow checks on them cannot fire.
- Relay.CredentialInjective: stated for fields below 2^32 bytes; `Relay.LongFieldsAmbiguous` is a failing input beyond it and `Relay.InjectiveExactly` shows the bound is exact.
- RelayProtocol.Agreement: equality with the issued claims is for presented bytes below 2^32, which the relying party can measure; the same bytes were issued in every case.
- PeImage.Disjoint: the in-place unstable sort is modelled on values; equal ranges are interchangeable, so the order among them is not observable.
- RateLimiter.Limiter.Allow: the monotonic clock is a precondition.
- TreeCommitment.TreeHashCommits: holds among trees with no colon in a file's path. Without a condition it is false of the code (`TreeCommitment.ColonsAmbiguous`). The exact condition on one party's own files is `HashLines.TextDeterminedExactly`, with `TreeCommitment.DeterminedTreeCommits` for trees; whether a rival list belongs to an actual tree also depends on its digests having preimages, which is not modelled.
- HashLines.LinesInjective: likewise among lists with no colon in a path; `HashLines.TextDeterminedExactly` is the exact condition for one list.
- HashLines.DeterminedExactly: counts paths that are any bytes, which the code's text paths are not; `HashLines.TextDeterminedExactly` is the condition for the code.
- CborScan.Preflight: the library decode that follows the scan is not modelled, because its grammar belongs to that library.
- Ancestry.ValidatePolicy: platform-specific collateral and TCB policy checks are one flag of an entry.
- SourceSnapshot.CopyTree: read-only permission bits are not modelled; Value X does not see them.
- CertPath.ValidateChain: starts from decoded certificates; the byte limit, PEM and DER decoding happen before the model begins.
- Trees.SortPermutes: library sorts are modelled on values.
- ValueX.PathIsJoined: for a first name that is not empty, as every file system gives.
