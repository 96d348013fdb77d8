/** UTF-8 as an encoding: text is exactly what Unicode scalar values encode to (section 3 of RFC 3629). */
module Utf8Scalars {
  import opened Bytes
  import opened Utf8

  /** A code point that is no surrogate. */
  predicate IsScalar(c: nat) {
    c < 0xD800 || 0xE000 <= c <= 0x10FFFF
  }

  function EncodeScalar(c: nat): bytes
    requires IsScalar(c)
  {
    if c < 0x80 then [c]
    else if c < 0x800 then [0xC0 + c / 0x40, 0x80 + c % 0x40]
    else if c < 0x1_0000 then [0xE0 + c / 0x1000, 0x80 + (c / 0x40) % 0x40, 0x80 + c % 0x40]
    else [0xF0 + c / 0x4_0000, 0x80 + (c / 0x1000) % 0x40, 0x80 + (c / 0x40) % 0x40, 0x80 + c % 0x40]
  }

  ghost predicate AllScalars(cs: seq<nat>) {
    forall i :: 0 <= i < |cs| ==> IsScalar(cs[i])
  }

  function EncodeScalars(cs: seq<nat>): bytes
    requires forall i :: 0 <= i < |cs| ==> IsScalar(cs[i])
  {
    if cs == [] then [] else EncodeScalar(cs[0]) + EncodeScalars(cs[1..])
  }

  lemma Digits(c: nat)
    ensures c == 0x40 * (c / 0x40) + c % 0x40
    ensures c / 0x40 == 0x40 * (c / 0x1000) + (c / 0x40) % 0x40
    ensures c / 0x1000 == 0x40 * (c / 0x4_0000) + (c / 0x1000) % 0x40
  {
  }

  lemma ScalarForward(c: nat, rest: bytes)
    requires IsScalar(c)
    ensures FirstLen(EncodeScalar(c) + rest) == |EncodeScalar(c)|
    ensures FirstCode(EncodeScalar(c) + rest) == c
  {
    Digits(c);
    var e, b := EncodeScalar(c), EncodeScalar(c) + rest;
    assert forall i :: 0 <= i < |e| ==> Peek(b, i) == e[i];
  }

  lemma ScalarBackward(b: bytes)
    requires FirstLen(b) > 0
    ensures IsScalar(FirstCode(b)) && EncodeScalar(FirstCode(b)) == b[..FirstLen(b)]
  {
    var n, c := FirstLen(b), FirstCode(b);
    if n == 1 {
      assert b[..1] == [b[0]];
    } else if n == 2 {
      TwoBytes(b[0], b[1]);
      assert b[..2] == [b[0], b[1]];
    } else if n == 3 {
      ThreeBytes(b[0], b[1], b[2]);
      assert b[..3] == [b[0], b[1], b[2]];
    } else {
      FourBytes(b[0], b[1], b[2], b[3]);
      assert b[..4] == [b[0], b[1], b[2], b[3]];
    }
  }

  lemma TwoBytes(b0: byte, b1: byte)
    requires 0xC2 <= b0 <= 0xDF && Cont(b1)
    ensures var c := 0x40 * (b0 - 0xC0) + (b1 - 0x80); IsScalar(c) && EncodeScalar(c) == [b0, b1]
  {
  }

  lemma ThreeBytes(b0: byte, b1: byte, b2: byte)
    requires 0xE0 <= b0 <= 0xEF && Cont(b1) && Cont(b2)
    requires !(b0 == 0xE0 && b1 < 0xA0) && !(b0 == 0xED && b1 > 0x9F)
    ensures var c := 0x1000 * (b0 - 0xE0) + 0x40 * (b1 - 0x80) + (b2 - 0x80);
            IsScalar(c) && EncodeScalar(c) == [b0, b1, b2]
  {
    var c := 0x1000 * (b0 - 0xE0) + 0x40 * (b1 - 0x80) + (b2 - 0x80);
    assert c / 0x40 == 0x40 * (b0 - 0xE0) + (b1 - 0x80);
    assert c / 0x1000 == b0 - 0xE0;
  }

  lemma FourBytes(b0: byte, b1: byte, b2: byte, b3: byte)
    requires 0xF0 <= b0 <= 0xF4 && Cont(b1) && Cont(b2) && Cont(b3)
    requires !(b0 == 0xF0 && b1 < 0x90) && !(b0 == 0xF4 && b1 > 0x8F)
    ensures var c := 0x4_0000 * (b0 - 0xF0) + 0x1000 * (b1 - 0x80) + 0x40 * (b2 - 0x80) + (b3 - 0x80);
            IsScalar(c) && EncodeScalar(c) == [b0, b1, b2, b3]
  {
    var c := 0x4_0000 * (b0 - 0xF0) + 0x1000 * (b1 - 0x80) + 0x40 * (b2 - 0x80) + (b3 - 0x80);
    assert c / 0x40 == 0x1000 * (b0 - 0xF0) + 0x40 * (b1 - 0x80) + (b2 - 0x80);
    assert c / 0x1000 == 0x40 * (b0 - 0xF0) + (b1 - 0x80);
    assert c / 0x4_0000 == b0 - 0xF0;
  }

  /** What scalar values encode to is text, and reads back as they are. */
  lemma {:induction false} EncodedIsText(cs: seq<nat>)
    requires AllScalars(cs)
    ensures Valid(EncodeScalars(cs)) && Codes(EncodeScalars(cs)) == cs
    decreases |cs|
  {
    hide FirstLen, FirstCode, EncodeScalar;
    if cs != [] {
      var head, rest := EncodeScalar(cs[0]), EncodeScalars(cs[1..]);
      EncodedIsText(cs[1..]);
      ScalarForward(cs[0], rest);
      ScalarNonempty(cs[0]);
      assert (head + rest)[|head|..] == rest;
      assert cs == [cs[0]] + cs[1..];
    }
  }

  lemma ScalarNonempty(c: nat)
    requires IsScalar(c)
    ensures EncodeScalar(c) != []
  {
  }

  /** Every text is the encoding of its code points. */
  lemma {:induction false} TextIsEncoded(b: bytes)
    requires Valid(b)
    ensures AllScalars(Codes(b)) && EncodeScalars(Codes(b)) == b
    decreases |b|
  {
    hide FirstLen, FirstCode, EncodeScalar, Codes, EncodeScalars, IsScalar;
    NoCodes();
    if b != [] {
      var n := FirstLen(b);
      FirstOf(b);
      TextIsEncoded(b[n..]);
      ScalarBackward(b);
      EncodeFirst(FirstCode(b), Codes(b[n..]));
      assert b == b[..n] + b[n..];
    }
  }

  lemma NoCodes()
    ensures Codes([]) == [] && EncodeScalars([]) == []
  {
  }

  lemma FirstOf(b: bytes)
    requires b != [] && Valid(b)
    ensures FirstLen(b) > 0 && Valid(b[FirstLen(b)..]) && Codes(b) == [FirstCode(b)] + Codes(b[FirstLen(b)..])
  {
    hide FirstCode, FirstLen;
  }

  lemma EncodeFirst(c: nat, cs: seq<nat>)
    requires IsScalar(c) && AllScalars(cs)
    ensures AllScalars([c] + cs) && EncodeScalars([c] + cs) == EncodeScalar(c) + EncodeScalars(cs)
  {
    hide EncodeScalar, IsScalar;
    assert ([c] + cs)[1..] == cs;
  }

  /** Text is exactly what lists of scalar values encode to. */
  lemma ValidExactly(b: bytes)
    ensures Valid(b) <==> exists cs :: AllScalars(cs) && EncodeScalars(cs) == b
  {
    hide Valid, EncodeScalars;
    if Valid(b) {
      TextIsEncoded(b);
    }
    forall cs | AllScalars(cs) && EncodeScalars(cs) == b ensures Valid(b) {
      EncodedIsText(cs);
    }
  }

  /** ASCII text has its bytes for code points. */
  lemma {:induction false} AsciiCodes(b: bytes)
    requires forall i :: 0 <= i < |b| ==> b[i] < 0x80
    ensures Valid(b) && Codes(b) == b
    decreases |b|
  {
    if b != [] {
      AsciiCodes(b[1..]);
      assert FirstLen(b) == 1;
      assert b == [b[0]] + b[1..];
    }
  }

  /** The 25 code points with the White_Space property. */
  const WHITE_SPACE: set<nat> :=
    {0x09, 0x0A, 0x0B, 0x0C, 0x0D, 0x20, 0x85, 0xA0, 0x1680, 0x2000, 0x2001, 0x2002, 0x2003, 0x2004, 0x2005, 0x2006,
     0x2007, 0x2008, 0x2009, 0x200A, 0x2028, 0x2029, 0x202F, 0x205F, 0x3000}

  lemma WhitespaceExactly(c: nat)
    ensures IsWhitespace(c) <==> c in WHITE_SPACE
  {
  }

  /** The control characters: the first row and the first row of the upper half of Latin-1, each 32 long, and DEL. */
  lemma ControlExactly(c: nat)
    ensures IsControl(c) <==> c / 32 == 0 || c / 32 == 4 || c == 127
  {
  }
}
