/** The cursor-driven report parser, proved to compute what `Spdm.Parse` says. */
module SpdmReader {
  import opened Bytes
  import Spec = Spdm
  import opened Spdm

  /** A shrinking view of the bytes still to be read. */
  class Cursor {
    var rest: bytes

    constructor (rest: bytes)
      ensures this.rest == rest
    {
      this.rest := rest;
    }

    method Take(n: nat, part: Part) returns (r: Read<bytes>)
      modifies this
      ensures var spec := Spec.Take(old(rest), n, part);
              if spec.Ok? then r == Ok(spec.value.0) && rest == spec.value.1
              else r == Err(spec.error) && rest == old(rest)
    {
      if n > |rest| {
        return Err(Truncated(part));
      }
      r := Ok(rest[..n]);
      rest := rest[n..];
    }

    /** A little-endian integer of `n` bytes. */
    method Number(n: nat, part: Part) returns (r: Read<nat>)
      modifies this
      ensures var spec := Spec.Number(old(rest), n, part);
              if spec.Ok? then r == Ok(spec.value.0) && rest == spec.value.1
              else r == Err(spec.error) && rest == old(rest)
    {
      var field :- Take(n, part);
      r := Ok(FromLe(field));
    }
  }

  method ReadBody(body: bytes, index: nat) returns (r: Read<Measurement>)
    ensures r == ParseBody(body, index)
  {
    hide Spec.Number, Spec.Take;
    var c := new Cursor(body);
    var kind :- c.Number(1, ValueType);
    var size :- c.Number(2, ValueSize);
    var value :- c.Take(size, Value);
    if c.rest != [] || value == [] {
      return Err(Invalid(ValueLength));
    }
    var raw := kind >= 128;
    if kind % 128 > 4 || (!raw && |value| != 48) {
      return Err(Invalid(ValueKind));
    }
    r := Ok(Measurement(index, kind % 128, raw, value));
  }

  /** The indices marked in the table. */
  ghost function Marked(seen: seq<bool>): set<nat> {
    set i | 0 <= i < |seen| && seen[i]
  }

  method ReadBlock(c: Cursor, seen: array<bool>) returns (r: Read<Measurement>)
    requires seen.Length == 256
    modifies c, seen
    ensures var spec := ParseBlock(old(c.rest), Marked(old(seen[..])));
            if spec.Ok?
            then
              && r == Ok(spec.value.0) && c.rest == spec.value.1
              && Marked(seen[..]) == Marked(old(seen[..])) + {r.value.index}
            else r == Err(spec.error)
  {
    hide Spec.Number, Spec.Take, ParseBody;
    ghost var before := seen[..];
    var index :- c.Number(1, MeasurementIndex);
    NumberBound(old(c.rest), MeasurementIndex);
    if index == 0 || index == 255 || seen[index] {
      return Err(Invalid(IndexFault));
    }
    seen[index] := true;
    assert seen[..] == before[index := true];
    MarkOne(before, index);
    var specification :- c.Number(1, MeasurementSpecification);
    if specification != 1 {
      return Err(Invalid(NonDmtf));
    }
    var size :- c.Number(2, MeasurementSize);
    var body :- c.Take(size, MeasurementBody);
    var m :- ReadBody(body, index);
    BodyKeepsIndex(body, index);
    r := Ok(m);
  }

  lemma NumberBound(b: bytes, part: Part)
    requires Spec.Number(b, 1, part).Ok?
    ensures Spec.Number(b, 1, part).value.0 < 256
  {
    PowWidths();
    FromLeRoundTrip(b[..1]);
  }

  lemma MarkOne(seen: seq<bool>, i: nat)
    requires i < |seen|
    ensures Marked(seen[i := true]) == Marked(seen) + {i}
  {
  }

  lemma BodyKeepsIndex(body: bytes, index: nat)
    requires ParseBody(body, index).Ok?
    ensures ParseBody(body, index).value.index == index
  {
    hide Spec.Number, Spec.Take;
  }

  method ReadRecord(record: bytes, count: nat) returns (r: Read<seq<Measurement>>)
    ensures r == ParseRecord(record, count)
  {
    hide ParseBlock;
    var c := new Cursor(record);
    var seen := new bool[256](_ => false);
    var measurements: seq<Measurement> := [];
    assert Marked(seen[..]) == {};
    ContinuesStart(ParseBlocks(record, count, {}));
    for n := 0 to count
      invariant fresh(c) && fresh(seen)
      invariant Continues(
                  ParseBlocks(record, count, {}), measurements, ParseBlocks(c.rest, count - n, Marked(seen[..])))
    {
      ghost var rest, marked := c.rest, Marked(seen[..]);
      var m :- ReadBlock(c, seen);
      ContinuesNext(ParseBlocks(record, count, {}), measurements, rest, count - n, marked);
      measurements := measurements + [m];
    }
    assert measurements + [] == measurements;
    if c.rest != [] {
      return Err(Invalid(CountOrLength));
    }
    r := Ok(measurements);
  }

  /** Reading the whole gives `done` followed by what reading the remainder gives. */
  ghost predicate Continues(
    whole: Read<(seq<Measurement>, bytes)>, done: seq<Measurement>, remainder: Read<(seq<Measurement>, bytes)>)
  {
    whole == if remainder.Ok? then Ok((done + remainder.value.0, remainder.value.1)) else Err(remainder.error)
  }

  lemma ContinuesStart(whole: Read<(seq<Measurement>, bytes)>)
    ensures Continues(whole, [], whole)
  {
    if whole.Ok? {
      assert [] + whole.value.0 == whole.value.0;
    }
  }

  lemma ContinuesNext(
    whole: Read<(seq<Measurement>, bytes)>, done: seq<Measurement>, rest: bytes, count: nat, seen: set<nat>)
    requires count > 0 && Continues(whole, done, ParseBlocks(rest, count, seen)) && ParseBlock(rest, seen).Ok?
    ensures var (m, b) := ParseBlock(rest, seen).value;
            Continues(whole, done + [m], ParseBlocks(b, count - 1, seen + {m.index}))
  {
    hide ParseBlock;
    var (m, b) := ParseBlock(rest, seen).value;
    var next := ParseBlocks(b, count - 1, seen + {m.index});
    if next.Ok? {
      assert done + ([m] + next.value.0) == (done + [m]) + next.value.0;
    }
  }

  method ReadTail(c: Cursor) returns (r: Read<(bytes, bytes, bytes)>)
    modifies c
    ensures r == ParseTail(old(c.rest))
  {
    hide Spec.Number, Spec.Take;
    var nonce :- c.Take(32, ResponderNonce);
    var size :- c.Number(2, OpaqueLength);
    var data :- c.Take(size, OpaqueData);
    var signature :- c.Take(SIGNATURE_SIZE, SignaturePart);
    if c.rest != [] {
      return Err(Invalid(TrailingBytes));
    }
    r := Ok((nonce, data, signature));
  }

  method ReadFront(c: Cursor) returns (r: Read<(bytes, nat)>)
    modifies c
    ensures var spec := ParseFront(old(c.rest));
            if spec.Ok? then r == Ok((spec.value.0, spec.value.1)) && c.rest == spec.value.2 else r == Err(spec.error)
  {
    hide Spec.Number;
    var request :- c.Take(REQUEST_SIZE, Request);
    if request[..4] != [0x11, 0xe0, 0x01, 0xff] || request[36] > 7 {
      return Err(Invalid(RequestHeader));
    }
    var header :- c.Take(4, Header);
    if header != [0x11, 0x60, 0, request[36]] {
      return Err(Invalid(ResponseHeader));
    }
    var count :- c.Number(1, BlockCount);
    if count == 0 {
      return Err(Invalid(EmptyRecord));
    }
    r := Ok((request[4..36], count));
  }

  /** The whole parser: it accepts what `Parse` accepts, with the same fields or the same error. */
  method ParseReport(b: bytes) returns (r: Read<Report>)
    ensures r == Parse(b)
  {
    hide FromLe, ParseRecord;
    if |b| > MAX_REPORT_SIZE {
      return Err(Oversized);
    }
    var c := new Cursor(b);
    var front :- ReadFront(c);
    var length :- c.Number(3, RecordLength);
    var record :- c.Take(length, Record);
    var measurements :- ReadRecord(record, front.1);
    var tail :- ReadTail(c);
    r := Ok(Report(b[..|b| - |tail.2|], tail.2, front.0, tail.0, measurements, tail.1));
  }
}
