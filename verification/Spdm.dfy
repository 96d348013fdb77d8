/** Signed all-measurements reports: GET_MEASUREMENTS and MEASUREMENTS of DMTF DSP0274 1.1, read and written. */
module Spdm {
  import opened Bytes

  const MAX_REPORT_SIZE: nat := 0x2000
  const REQUEST_SIZE: nat := 37
  const SIGNATURE_SIZE: nat := 96

  datatype Part =
    | Request
    | Header
    | BlockCount
    | RecordLength
    | Record
    | MeasurementIndex
    | MeasurementSpecification
    | MeasurementSize
    | MeasurementBody
    | ValueType
    | ValueSize
    | Value
    | ResponderNonce
    | OpaqueLength
    | OpaqueData
    | SignaturePart

  datatype Fault =
    | RequestHeader
    | ResponseHeader
    | EmptyRecord
    | IndexFault
    | NonDmtf
    | ValueLength
    | ValueKind
    | CountOrLength
    | TrailingBytes

  datatype SpdmError = Oversized | Truncated(part: Part) | Invalid(fault: Fault)

  type Read<+T> = Result<T, SpdmError>

  datatype Measurement = Measurement(index: nat, valueType: nat, raw: bool, value: bytes)

  datatype Report = Report(
    transcript: bytes, signature: bytes, requestNonce: bytes, responderNonce: bytes,
    measurements: seq<Measurement>, opaqueData: bytes)

  //
  // What a byte string denotes: each reader returns what it read and the rest
  //

  function Take(b: bytes, n: nat, part: Part): Read<(bytes, bytes)> {
    if n <= |b| then Ok((b[..n], b[n..])) else Err(Truncated(part))
  }

  function Number(b: bytes, n: nat, part: Part): Read<(nat, bytes)> {
    var (field, rest) :- Take(b, n, part);
    Ok((FromLe(field), rest))
  }

  /** The body of one measurement block: value type, value size and value, and nothing else. */
  function ParseBody(body: bytes, index: nat): Read<Measurement> {
    var (kind, b1) :- Number(body, 1, ValueType);
    var (size, b2) :- Number(b1, 2, ValueSize);
    var (value, b3) :- Take(b2, size, Value);
    if b3 != [] || value == [] then Err(Invalid(ValueLength))
    else if kind % 128 > 4 || (kind < 128 && |value| != 48) then Err(Invalid(ValueKind))
    else Ok(Measurement(index, kind % 128, kind >= 128, value))
  }

  function ParseBlock(b: bytes, seen: set<nat>): Read<(Measurement, bytes)> {
    var (index, b1) :- Number(b, 1, MeasurementIndex);
    if index == 0 || index == 255 || index in seen then Err(Invalid(IndexFault)) else
    var (specification, b2) :- Number(b1, 1, MeasurementSpecification);
    if specification != 1 then Err(Invalid(NonDmtf)) else
    var (size, b3) :- Number(b2, 2, MeasurementSize);
    var (body, rest) :- Take(b3, size, MeasurementBody);
    var m :- ParseBody(body, index);
    Ok((m, rest))
  }

  function ParseBlocks(b: bytes, count: nat, seen: set<nat>): Read<(seq<Measurement>, bytes)>
    decreases count
  {
    if count == 0 then Ok(([], b)) else
    var (m, b1) :- ParseBlock(b, seen);
    var (ms, rest) :- ParseBlocks(b1, count - 1, seen + {m.index});
    Ok(([m] + ms, rest))
  }

  function ParseRecord(record: bytes, count: nat): Read<seq<Measurement>> {
    var (ms, rest) :- ParseBlocks(record, count, {});
    if rest != [] then Err(Invalid(CountOrLength)) else Ok(ms)
  }

  /** Everything after the measurement record. */
  function ParseTail(b: bytes): Read<(bytes, bytes, bytes)> {
    var (nonce, b1) :- Take(b, 32, ResponderNonce);
    var (size, b2) :- Number(b1, 2, OpaqueLength);
    var (opaqueData, b3) :- Take(b2, size, OpaqueData);
    var (signature, b4) :- Take(b3, SIGNATURE_SIZE, SignaturePart);
    if b4 != [] then Err(Invalid(TrailingBytes)) else Ok((nonce, opaqueData, signature))
  }

  /** The request and the fixed part of the response, up to the record. */
  function ParseFront(b: bytes): Read<(bytes, nat, bytes)> {
    var (request, b1) :- Take(b, REQUEST_SIZE, Request);
    if request[..4] != [0x11, 0xe0, 0x01, 0xff] || request[36] > 7 then Err(Invalid(RequestHeader)) else
    var (header, b2) :- Take(b1, 4, Header);
    if header != [0x11, 0x60, 0, request[36]] then Err(Invalid(ResponseHeader)) else
    var (count, b3) :- Number(b2, 1, BlockCount);
    if count == 0 then Err(Invalid(EmptyRecord)) else
    Ok((request[4..36], count, b3))
  }

  function Parse(b: bytes): Read<Report> {
    if |b| > MAX_REPORT_SIZE then Err(Oversized) else
    var (nonce, count, b1) :- ParseFront(b);
    var (length, b2) :- Number(b1, 3, RecordLength);
    var (record, b3) :- Take(b2, length, Record);
    var ms :- ParseRecord(record, count);
    var (responder, opaqueData, signature) :- ParseTail(b3);
    Ok(Report(b[..|b| - |signature|], signature, nonce, responder, ms, opaqueData))
  }

  //
  // Encoding
  //

  function EncodeBody(m: Measurement): bytes {
    Le(m.valueType + (if m.raw then 128 else 0), 1) + (Le(|m.value|, 2) + m.value)
  }

  function EncodeBlock(m: Measurement): bytes {
    Le(m.index, 1) + (Le(1, 1) + (Le(3 + |m.value|, 2) + EncodeBody(m)))
  }

  predicate BodyOk(m: Measurement) {
    m.valueType <= 4 && 0 < |m.value| < 0x1_0000 && (!m.raw ==> |m.value| == 48)
  }

  predicate BlockOk(m: Measurement) {
    0 < m.index < 255 && BodyOk(m) && 3 + |m.value| < 0x1_0000
  }

  /** Well-formed blocks with distinct indices, none of them already seen. */
  ghost predicate BlocksOk(ms: seq<Measurement>, seen: set<nat>) {
    && (forall i :: 0 <= i < |ms| ==> BlockOk(ms[i]) && ms[i].index !in seen)
    && (forall i, j :: 0 <= i < j < |ms| ==> ms[i].index != ms[j].index)
  }

  function EncodeBlocks(ms: seq<Measurement>): bytes {
    if ms == [] then [] else EncodeBlock(ms[0]) + EncodeBlocks(ms[1..])
  }

  /** A report as it goes over the wire. */
  datatype Wire = Wire(
    slot: nat, requestNonce: bytes, responderNonce: bytes, measurements: seq<Measurement>, opaqueData: bytes,
    signature: bytes)

  ghost predicate WireOk(w: Wire) {
    && w.slot <= 7
    && |w.requestNonce| == 32 && |w.responderNonce| == 32 && |w.signature| == SIGNATURE_SIZE
    && 0 < |w.measurements| < 256
    && BlocksOk(w.measurements, {})
    && |EncodeBlocks(w.measurements)| < 0x100_0000
    && |w.opaqueData| < 0x1_0000
  }

  function EncodeRequest(nonce: bytes, slot: nat): bytes {
    [0x11, 0xe0, 0x01, 0xff] + (nonce + Le(slot, 1))
  }

  function EncodeFront(w: Wire): bytes {
    EncodeRequest(w.requestNonce, w.slot) + (([0x11, 0x60, 0] + Le(w.slot, 1)) + Le(|w.measurements|, 1))
  }

  function EncodeTail(w: Wire): bytes {
    w.responderNonce + (Le(|w.opaqueData|, 2) + w.opaqueData)
  }

  /** Everything the signature covers. */
  function Transcript(w: Wire): bytes {
    EncodeFront(w) + (Le(|EncodeBlocks(w.measurements)|, 3) + (EncodeBlocks(w.measurements) + EncodeTail(w)))
  }

  function Encode(w: Wire): bytes {
    Transcript(w) + w.signature
  }

  function ReportOf(w: Wire): Report {
    Report(Transcript(w), w.signature, w.requestNonce, w.responderNonce, w.measurements, w.opaqueData)
  }

  //
  // Fields
  //

  lemma TakeExact(b: bytes, x: bytes, rest: bytes, part: Part)
    ensures Take(b, |x|, part) == Ok((x, rest)) <==> b == x + rest
  {
    if b == x + rest {
      assert b[..|x|] == x && b[|x|..] == rest;
    }
  }

  lemma NumberExact(b: bytes, k: nat, n: nat, rest: bytes, part: Part)
    ensures Number(b, k, part) == Ok((n, rest)) <==> n < Pow256(k) && b == Le(n, k) + rest
  {
    hide FromLe, Le, Pow256;
    if k <= |b| {
      FromLeRoundTrip(b[..k]);
      assert b == b[..k] + b[k..];
    }
    if n < Pow256(k) {
      LeRoundTrip(n, k);
      if b == Le(n, k) + rest {
        assert b[..k] == Le(n, k) && b[k..] == rest;
      }
    }
  }

  lemma OneByte(n: nat)
    requires n < 256
    ensures Le(n, 1) == [n]
  {
    assert Le(n / 256, 0) == [];
  }

  //
  // Measurement blocks
  //

  lemma BodyForward(m: Measurement)
    requires BodyOk(m)
    ensures ParseBody(EncodeBody(m), m.index) == Ok(m)
  {
    hide Number, Le;
    PowWidths();
    var kind := m.valueType + if m.raw then 128 else 0;
    NumberExact(EncodeBody(m), 1, kind, Le(|m.value|, 2) + m.value, ValueType);
    NumberExact(Le(|m.value|, 2) + m.value, 2, |m.value|, m.value, ValueSize);
    assert m.value[..|m.value|] == m.value;
  }

  lemma BodyBackward(body: bytes, index: nat)
    requires ParseBody(body, index).Ok?
    ensures var m := ParseBody(body, index).value; BodyOk(m) && m.index == index && body == EncodeBody(m)
  {
    hide Number, Le;
    PowWidths();
    var (kind, b1) := Number(body, 1, ValueType).value;
    var (size, b2) := Number(b1, 2, ValueSize).value;
    NumberExact(body, 1, kind, b1, ValueType);
    NumberExact(b1, 2, size, b2, ValueSize);
  }

  lemma BlockForward(m: Measurement, rest: bytes, seen: set<nat>)
    requires BlockOk(m) && m.index !in seen
    ensures ParseBlock(EncodeBlock(m) + rest, seen) == Ok((m, rest))
  {
    hide Number, Le, ParseBody, EncodeBody, BodyOk;
    PowWidths();
    var body := EncodeBody(m);
    assert |body| == 3 + |m.value| by { BodyLength(m); }
    var b3 := body + rest;
    var b2 := Le(|body|, 2) + b3;
    var b1 := Le(1, 1) + b2;
    assert EncodeBlock(m) + rest == Le(m.index, 1) + b1;
    NumberExact(EncodeBlock(m) + rest, 1, m.index, b1, MeasurementIndex);
    NumberExact(b1, 1, 1, b2, MeasurementSpecification);
    NumberExact(b2, 2, |body|, b3, MeasurementSize);
    TakeExact(b3, body, rest, MeasurementBody);
    BodyForward(m);
  }

  lemma BodyLength(m: Measurement)
    ensures |EncodeBody(m)| == 3 + |m.value|
  {
    hide Le;
  }

  lemma BlockBackward(b: bytes, seen: set<nat>)
    requires ParseBlock(b, seen).Ok?
    ensures var (m, rest) := ParseBlock(b, seen).value;
            BlockOk(m) && m.index !in seen && b == EncodeBlock(m) + rest
  {
    hide Number, Take, Le, ParseBody, EncodeBody, BodyOk;
    PowWidths();
    var (index, b1) := Number(b, 1, MeasurementIndex).value;
    var (specification, b2) := Number(b1, 1, MeasurementSpecification).value;
    var (size, b3) := Number(b2, 2, MeasurementSize).value;
    var (body, rest) := Take(b3, size, MeasurementBody).value;
    NumberExact(b, 1, index, b1, MeasurementIndex);
    NumberExact(b1, 1, 1, b2, MeasurementSpecification);
    NumberExact(b2, 2, size, b3, MeasurementSize);
    TakenLength(b3, size, MeasurementBody);
    TakeExact(b3, body, rest, MeasurementBody);
    BodyBackward(body, index);
    var m := ParseBody(body, index).value;
    BodyLength(m);
    assert b == EncodeBlock(m) + rest;
  }

  lemma TakenLength(b: bytes, n: nat, part: Part)
    requires Take(b, n, part).Ok?
    ensures |Take(b, n, part).value.0| == n
  {
  }

  lemma {:induction false} BlocksForward(ms: seq<Measurement>, rest: bytes, seen: set<nat>)
    requires BlocksOk(ms, seen)
    ensures ParseBlocks(EncodeBlocks(ms) + rest, |ms|, seen) == Ok((ms, rest))
    decreases |ms|
  {
    hide ParseBlock, EncodeBlock, BlockOk;
    if ms == [] {
      assert EncodeBlocks(ms) + rest == rest;
    } else {
      var m, tail := ms[0], ms[1..];
      assert EncodeBlocks(ms) + rest == EncodeBlock(m) + (EncodeBlocks(tail) + rest);
      BlockForward(m, EncodeBlocks(tail) + rest, seen);
      BlocksForward(tail, rest, seen + {m.index});
      assert ms == [m] + tail;
    }
  }

  lemma {:induction false} BlocksBackward(b: bytes, count: nat, seen: set<nat>)
    requires ParseBlocks(b, count, seen).Ok?
    ensures var (ms, rest) := ParseBlocks(b, count, seen).value;
            |ms| == count && BlocksOk(ms, seen) && b == EncodeBlocks(ms) + rest
    decreases count
  {
    hide ParseBlock, EncodeBlock, BlockOk;
    if count > 0 {
      var (m, b1) := ParseBlock(b, seen).value;
      BlockBackward(b, seen);
      BlocksBackward(b1, count - 1, seen + {m.index});
      var (tail, rest) := ParseBlocks(b1, count - 1, seen + {m.index}).value;
      var ms := [m] + tail;
      assert ms[1..] == tail;
      assert b == EncodeBlock(m) + (EncodeBlocks(tail) + rest) == EncodeBlocks(ms) + rest;
    }
  }

  lemma RecordExact(record: bytes, count: nat, ms: seq<Measurement>)
    ensures ParseRecord(record, count) == Ok(ms) <==> |ms| == count && BlocksOk(ms, {}) && record == EncodeBlocks(ms)
  {
    hide ParseBlocks, EncodeBlocks, BlocksOk;
    assert EncodeBlocks(ms) + [] == EncodeBlocks(ms);
    if BlocksOk(ms, {}) {
      BlocksForward(ms, [], {});
    }
    if ParseBlocks(record, count, {}).Ok? {
      BlocksBackward(record, count, {});
    }
  }

  //
  // Whole reports
  //

  lemma TailExact(b: bytes, w: Wire)
    requires |w.opaqueData| < 0x1_0000 && |w.responderNonce| == 32 && |w.signature| == SIGNATURE_SIZE
    ensures ParseTail(b) == Ok((w.responderNonce, w.opaqueData, w.signature)) <==> b == EncodeTail(w) + w.signature
  {
    hide Number, Le;
    PowWidths();
    var b3 := w.signature;
    var b2 := w.opaqueData + b3;
    var b1 := Le(|w.opaqueData|, 2) + b2;
    assert EncodeTail(w) + w.signature == w.responderNonce + b1;
    if b == w.responderNonce + b1 {
      TakeExact(b, w.responderNonce, b1, ResponderNonce);
      NumberExact(b1, 2, |w.opaqueData|, b2, OpaqueLength);
      TakeExact(b2, w.opaqueData, b3, OpaqueData);
      assert b3[..SIGNATURE_SIZE] == b3;
    }
    if ParseTail(b) == Ok((w.responderNonce, w.opaqueData, w.signature)) {
      TailBackward(b);
    }
  }

  lemma TailBackward(b: bytes)
    requires ParseTail(b).Ok?
    ensures var (nonce, data, signature) := ParseTail(b).value;
            && |nonce| == 32 && |data| < 0x1_0000 && |signature| == SIGNATURE_SIZE
            && b == nonce + (Le(|data|, 2) + data) + signature
  {
    hide Number, Le;
    PowWidths();
    var (nonce, b1) := Take(b, 32, ResponderNonce).value;
    var (size, b2) := Number(b1, 2, OpaqueLength).value;
    var (data, b3) := Take(b2, size, OpaqueData).value;
    NumberExact(b1, 2, size, b2, OpaqueLength);
    assert b == nonce + b1 && b2 == data + b3 && b3 == b3[..SIGNATURE_SIZE];
    assert b == nonce + (Le(|data|, 2) + data) + b3;
  }

  lemma FrontForward(w: Wire, rest: bytes)
    requires WireOk(w)
    ensures ParseFront(EncodeFront(w) + rest) == Ok((w.requestNonce, |w.measurements|, rest))
  {
    hide Number, Le, BlocksOk, EncodeBlocks;
    PowWidths();
    OneByte(w.slot);
    var request, header := EncodeRequest(w.requestNonce, w.slot), [0x11, 0x60, 0] + Le(w.slot, 1);
    var b2 := Le(|w.measurements|, 1) + rest;
    assert EncodeFront(w) + rest == request + (header + b2);
    TakeExact(EncodeFront(w) + rest, request, header + b2, Request);
    TakeExact(header + b2, header, b2, Header);
    NumberExact(b2, 1, |w.measurements|, rest, BlockCount);
    assert request[..4] == [0x11, 0xe0, 0x01, 0xff] && request[4..36] == w.requestNonce && request[36] == w.slot;
  }

  /** The slot of an accepted request. */
  lemma FrontBackward(b: bytes) returns (slot: nat)
    requires ParseFront(b).Ok?
    ensures var (nonce, count, rest) := ParseFront(b).value;
            && slot <= 7 && |nonce| == 32 && 0 < count < 256
            && b == EncodeRequest(nonce, slot) + (([0x11, 0x60, 0] + Le(slot, 1)) + Le(count, 1)) + rest
  {
    hide Number, Le;
    PowWidths();
    var (request, b1) := Take(b, REQUEST_SIZE, Request).value;
    var (header, b2) := Take(b1, 4, Header).value;
    var (count, rest) := Number(b2, 1, BlockCount).value;
    slot := request[36];
    OneByte(slot);
    NumberExact(b2, 1, count, rest, BlockCount);
    assert request == request[..4] + (request[4..36] + [slot]);
    assert b == request + b1 && b1 == header + b2;
    assert header == [0x11, 0x60, 0] + [slot];
    assert b == request + (header + Le(count, 1)) + rest;
  }

  /** Writing a report and reading it back gives its fields. */
  lemma ParseForward(w: Wire)
    requires WireOk(w) && |Encode(w)| <= MAX_REPORT_SIZE
    ensures Parse(Encode(w)) == Ok(ReportOf(w))
  {
    hide Number, Le, ParseFront, ParseRecord, ParseTail, EncodeFront, EncodeBlocks, EncodeTail, BlocksOk;
    PowWidths();
    var blocks := EncodeBlocks(w.measurements);
    var b3 := EncodeTail(w) + w.signature;
    var b2 := blocks + b3;
    var b1 := Le(|blocks|, 3) + b2;
    assert Encode(w) == EncodeFront(w) + b1;
    FrontForward(w, b1);
    NumberExact(b1, 3, |blocks|, b2, RecordLength);
    TakeExact(b2, blocks, b3, Record);
    RecordExact(blocks, |w.measurements|, w.measurements);
    TailExact(b3, w);
    assert Encode(w)[..|Encode(w)| - SIGNATURE_SIZE] == Transcript(w);
  }

  /** The report an accepted byte string encodes. */
  lemma ParseBackward(b: bytes) returns (w: Wire)
    requires Parse(b).Ok?
    ensures WireOk(w) && b == Encode(w) && |b| <= MAX_REPORT_SIZE
  {
    hide Number, Take, Le, ParseFront, ParseRecord, ParseTail, EncodeRequest, EncodeBlocks, BlocksOk;
    PowWidths();
    var (nonce, count, b1) := ParseFront(b).value;
    var (length, b2) := Number(b1, 3, RecordLength).value;
    var (record, b3) := Take(b2, length, Record).value;
    var ms := ParseRecord(record, count).value;
    var (responder, data, signature) := ParseTail(b3).value;
    var slot := FrontBackward(b);
    NumberExact(b1, 3, length, b2, RecordLength);
    TakenLength(b2, length, Record);
    TakeExact(b2, record, b3, Record);
    RecordExact(record, count, ms);
    TailBackward(b3);
    w := Wire(slot, nonce, responder, ms, data, signature);
    Reassembled(w, b, b1, b2, b3);
  }

  lemma Reassembled(w: Wire, b: bytes, b1: bytes, b2: bytes, b3: bytes)
    requires b == EncodeFront(w) + b1 && b1 == Le(|EncodeBlocks(w.measurements)|, 3) + b2
    requires b2 == EncodeBlocks(w.measurements) + b3 && b3 == EncodeTail(w) + w.signature
    ensures b == Encode(w)
  {
    hide EncodeFront, EncodeBlocks, EncodeTail, Le;
  }

  /**
   * The parser accepts exactly the encodings, of at most 8192 bytes, of well-formed reports, and returns their
   * fields; transcript and signature together are the whole input.
   */
  lemma ParseExact(b: bytes, r: Report)
    ensures Parse(b) == Ok(r) <==> exists w :: WireOk(w) && |b| <= MAX_REPORT_SIZE && b == Encode(w) && r == ReportOf(w)
    ensures Parse(b) == Ok(r) ==> r.transcript + r.signature == b
  {
    hide Parse, WireOk, Transcript;
    if Parse(b) == Ok(r) {
      var w := ParseBackward(b);
      ParseForward(w);
    }
    forall w | WireOk(w) && |b| <= MAX_REPORT_SIZE && b == Encode(w)
      ensures Parse(b) == Ok(ReportOf(w))
    {
      ParseForward(w);
    }
  }

  /** No byte string encodes two different reports. */
  lemma EncodeInjective(v: Wire, w: Wire)
    requires WireOk(v) && WireOk(w) && |Encode(v)| <= MAX_REPORT_SIZE && Encode(v) == Encode(w)
    ensures v == w
  {
    hide Parse, WireOk, Transcript;
    ParseForward(v);
    ParseForward(w);
    SlotInTranscript(v);
    SlotInTranscript(w);
  }

  lemma SlotInTranscript(w: Wire)
    requires WireOk(w)
    ensures |Transcript(w)| > 36 && Transcript(w)[36] == w.slot
  {
    hide EncodeBlocks, EncodeTail, BlocksOk;
    OneByte(w.slot);
  }
}
