/** CoCo AAEL records: tagged runtime events measured into TDX RTMR3. */
module Aael {
  import opened Bytes
  import opened BootTypes
  import opened Utf8
  import Utf8Scalars

  const MAX_RUNTIME_EVENT_BYTES: nat := 64 * 1024
  const AAEL_TAG: nat := 0x4141454c
  const SPACE: byte := 0x20

  datatype RuntimeEvent = RuntimeEvent(domain: Text, operation: Text, content: Text) {
    predicate Valid() {
      && domain != [] && operation != [] && content != []
      && (forall c :: c in Codes(domain) ==> !IsWhitespace(c) && !IsControl(c))
      && (forall c :: c in Codes(operation) ==> !IsWhitespace(c) && !IsControl(c))
      && (forall c :: c in Codes(content) ==> !IsControl(c))
      && Size() <= MAX_RUNTIME_EVENT_BYTES
    }

    /** Encoded size: tag, length, two separators and the three fields. */
    function Size(): nat {
      |domain| + |operation| + |content| + 10
    }
  }

  /** Index of the first `v` in `b`, or the length of `b`. */
  function IndexOf(b: bytes, v: byte): (i: nat)
    ensures i <= |b| && v !in b[..i]
    ensures i < |b| ==> b[i] == v
  {
    if b == [] || b[0] == v then 0
    else
      var i := 1 + IndexOf(b[1..], v);
      assert b[..i] == [b[0]] + b[1..][..i - 1];
      i
  }

  /** The part before the first space and, when there is a space, the part after it. */
  function SplitSpace(t: Text): (r: (Text, Option<Text>))
    ensures SPACE !in r.0
    ensures r.1.Some? ==> t == r.0 + [SPACE] + r.1.value
    ensures r.1.None? ==> t == r.0
  {
    var i := IndexOf(t, SPACE);
    if i == |t| then
      assert t[..i] == t;
      (t, None)
    else
      assert t == t[..i] + [SPACE] + t[i + 1..];
      CutAtAscii(t[..i], SPACE, t[i + 1..]);
      (t[..i], Some(t[i + 1..]))
  }

  /** At most three parts separated by single spaces; missing parts are empty. */
  function SplitRecord(t: Text): RuntimeEvent {
    var (domain, rest) := SplitSpace(t);
    if rest.None? then RuntimeEvent(domain, [], [])
    else
      var (operation, content) := SplitSpace(rest.value);
      RuntimeEvent(domain, operation, if content.Some? then content.value else [])
  }

  function ParseAael(event: Event): Boot<RuntimeEvent> {
    var data := event.data;
    if || event.register != 4
       || event.eventType != EV_EVENT_TAG
       || |event.digests| != 1
       || TPM_ALG_SHA384 !in event.digests
       || |event.digests[TPM_ALG_SHA384]| != 48
       || |data| < 8
       || |data| > MAX_RUNTIME_EVENT_BYTES
    then Err(Runtime(NotAaelRecord))
    else if FromLe(data[..4]) != AAEL_TAG || FromLe(data[4..8]) != |data| - 8 then Err(Runtime(TagOrLength))
    else if !Utf8.Valid(data[8..]) then Err(Runtime(NotUtf8))
    else
      var record := SplitRecord(data[8..]);
      if record.Valid() then Ok(record) else Err(Runtime(FieldsInvalid))
  }

  /** The bytes measured for a runtime event. */
  function EncodeAael(e: RuntimeEvent): bytes {
    Le(AAEL_TAG, 4) + Le(e.Size() - 8, 4) + EncodeText(e)
  }

  function EncodeText(e: RuntimeEvent): bytes {
    e.domain + [SPACE] + (e.operation + [SPACE] + e.content)
  }

  lemma NoSpace(t: Text)
    requires forall c :: c in Codes(t) ==> !IsWhitespace(c)
    ensures SPACE !in t
  {
    if SPACE in t {
      var k :| 0 <= k < |t| && t[k] == SPACE;
      AsciiIsCode(t, k);
    }
  }

  lemma SplitSpaceAt(a: Text, b: Text)
    requires SPACE !in a
    ensures Utf8.Valid(a + [SPACE] + b)
    ensures SplitSpace(a + [SPACE] + b) == (a, Some(b))
  {
    var t := a + [SPACE] + b;
    assert Utf8.Valid([SPACE] + b) by {
      assert ([SPACE] + b)[1..] == b;
    }
    ValidConcat(a, [SPACE] + b);
    assert t == a + ([SPACE] + b);
    var i := IndexOf(t, SPACE);
    assert t[|a|] == SPACE && forall k :: 0 <= k < i ==> t[k] == t[..i][k];
    assert t[..|a|] == a && t[|a| + 1..] == b;
  }

  /** The text of a valid event splits back into its fields, although the content may hold spaces. */
  lemma SplitInverts(e: RuntimeEvent)
    requires e.Valid()
    ensures Utf8.Valid(EncodeText(e)) && SplitRecord(EncodeText(e)) == e
  {
    NoSpace(e.domain);
    NoSpace(e.operation);
    SplitSpaceAt(e.operation, e.content);
    SplitSpaceAt(e.domain, e.operation + [SPACE] + e.content);
  }

  lemma SplitSound(t: Text)
    requires SplitRecord(t).operation != [] && SplitRecord(t).content != []
    ensures t == EncodeText(SplitRecord(t))
  {
  }

  /** Tag and length prefix of `data` announce the rest of it. */
  predicate Framed(data: bytes) {
    8 <= |data| < U32 && data[..8] == Le(AAEL_TAG, 4) + Le(|data| - 8, 4)
  }

  lemma FrameExact(data: bytes)
    requires 8 <= |data| < U32
    ensures FromLe(data[..4]) == AAEL_TAG && FromLe(data[4..8]) == |data| - 8 <==> Framed(data)
  {
    PowWidths();
    ReadLe(data[..4], AAEL_TAG);
    ReadLe(data[4..8], |data| - 8);
    var tag, size := Le(AAEL_TAG, 4), Le(|data| - 8, 4);
    assert data[..8] == data[..4] + data[4..8];
    assert (tag + size)[..4] == tag && (tag + size)[4..] == size;
  }

  lemma FramedIsEncoded(data: bytes, e: RuntimeEvent)
    requires e.Size() < U32
    ensures Framed(data) && data[8..] == EncodeText(e) <==> data == EncodeAael(e)
  {
    var head := Le(AAEL_TAG, 4) + Le(e.Size() - 8, 4);
    assert EncodeAael(e) == head + EncodeText(e);
    assert (head + EncodeText(e))[..8] == head && (head + EncodeText(e))[8..] == EncodeText(e);
    if Framed(data) && data[8..] == EncodeText(e) {
      assert data == data[..8] + data[8..];
    }
  }

  /** A record reads back as `e` exactly when its data are the canonical encoding of the valid event `e`. */
  lemma AaelExact(event: Event, e: RuntimeEvent)
    requires event.register == 4 && event.eventType == EV_EVENT_TAG
    requires event.digests.Keys == {TPM_ALG_SHA384} && |event.digests[TPM_ALG_SHA384]| == 48
    ensures ParseAael(event) == Ok(e) <==> e.Valid() && event.data == EncodeAael(e)
  {
    var data := event.data;
    assert |event.digests| == |event.digests.Keys| == 1;
    if ParseAael(event) == Ok(e) {
      AaelSound(event, e);
    }
    if e.Valid() && data == EncodeAael(e) {
      FramedIsEncoded(data, e);
      FrameExact(data);
      SplitInverts(e);
    }
  }

  lemma AaelSound(event: Event, e: RuntimeEvent)
    requires ParseAael(event) == Ok(e)
    ensures event.register == 4 && event.eventType == EV_EVENT_TAG
    ensures TPM_ALG_SHA384 in event.digests && |event.digests[TPM_ALG_SHA384]| == 48
    ensures e.Valid() && event.data == EncodeAael(e)
  {
    FrameExact(event.data);
    SplitSound(event.data[8..]);
    FramedIsEncoded(event.data, e);
  }

  lemma EncodeInjective(e: RuntimeEvent, f: RuntimeEvent)
    requires e.Valid() && f.Valid() && EncodeAael(e) == EncodeAael(f)
    ensures e == f
  {
    SplitInverts(e);
    SplitInverts(f);
    assert EncodeText(e) == EncodeAael(e)[8..];
    assert EncodeText(f) == EncodeAael(f)[8..];
  }

  lemma OneKey(m: map<nat, bytes>, k: nat)
    ensures |m| == 1 && k in m <==> m.Keys == {k}
  {
    if |m| == 1 && k in m {
      var others := m.Keys - {k};
      assert |others| == 0;
      assert m.Keys == {k} + others;
    }
    if m.Keys == {k} {
      assert |m| == |m.Keys|;
    }
  }

  /** An event reads as a runtime event exactly when it is a SHA-384 EV_EVENT_TAG of MRIndex 4 over its encoding. */
  lemma AaelExactly(event: Event, e: RuntimeEvent)
    ensures ParseAael(event) == Ok(e) <==>
            && event.register == 4 && event.eventType == 6
            && event.digests.Keys == {0x0c} && |event.digests[0x0c]| == 48
            && e.Valid() && event.data == EncodeAael(e)
  {
    hide EncodeAael, RuntimeEvent.Valid, SplitRecord, Utf8.Valid;
    OneKey(event.digests, TPM_ALG_SHA384);
    if event.digests.Keys == {TPM_ALG_SHA384} && event.register == 4 && event.eventType == EV_EVENT_TAG {
      if |event.digests[TPM_ALG_SHA384]| == 48 {
        AaelExact(event, e);
      }
    }
  }

  /** The size counted for an event is that of its encoding. */
  lemma SizeIsLength(e: RuntimeEvent)
    ensures |EncodeAael(e)| == e.Size()
  {
    hide Le;
  }

  ghost predicate Printable(b: bytes, first: byte) {
    b != [] && forall i :: 0 <= i < |b| ==> first <= b[i] <= 0x7e
  }

  lemma PrintableField(b: bytes)
    requires forall i :: 0 <= i < |b| ==> b[i] < 0x80
    ensures Utf8.Valid(b)
    ensures b != [] && (forall c :: c in Codes(b) ==> !IsWhitespace(c) && !IsControl(c)) <==> Printable(b, 0x21)
    ensures b != [] && (forall c :: c in Codes(b) ==> !IsControl(c)) <==> Printable(b, 0x20)
  {
    hide Utf8.Valid, Codes;
    Utf8Scalars.AsciiCodes(b);
    assert forall i :: 0 <= i < |b| ==> b[i] in b;
  }

  /** In ASCII, the fields allowed are printable characters, with spaces in the content only, of 65536 bytes in all. */
  lemma AsciiEventValid(domain: bytes, operation: bytes, content: bytes)
    requires forall i :: 0 <= i < |domain| ==> domain[i] < 0x80
    requires forall i :: 0 <= i < |operation| ==> operation[i] < 0x80
    requires forall i :: 0 <= i < |content| ==> content[i] < 0x80
    ensures Utf8.Valid(domain) && Utf8.Valid(operation) && Utf8.Valid(content)
    ensures RuntimeEvent(domain, operation, content).Valid() <==>
            && Printable(domain, 0x21) && Printable(operation, 0x21) && Printable(content, 0x20)
            && |domain| + |operation| + |content| + 10 <= 0x1_0000
  {
    hide Utf8.Valid, Codes, Printable, IsWhitespace, IsControl;
    PrintableField(domain);
    PrintableField(operation);
    PrintableField(content);
  }
}
