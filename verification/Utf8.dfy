/** UTF-8 text, by the well-formed byte sequences of Table 3-7 of the Unicode Standard. */
module Utf8 {
  import opened Bytes

  predicate Cont(b: int) { 0x80 <= b <= 0xBF }

  /** Length of the well-formed sequence beginning with these four bytes, or 0 when there is none. */
  function SequenceLen(b0: int, b1: int, b2: int, b3: int): (n: nat)
    ensures n <= 4
    ensures n == 1 ==> b0 < 0x80
    ensures n > 1 ==> b0 >= 0x80 && b1 >= 0x80 && (n > 2 ==> b2 >= 0x80) && (n > 3 ==> b3 >= 0x80)
  {
    if b0 < 0x80 then 1
    else if !Cont(b1) then 0
    else if 0xC2 <= b0 <= 0xDF then 2
    else if !Cont(b2) then 0
    else if 0xE0 <= b0 <= 0xEF then
      if (b0 == 0xE0 && b1 < 0xA0) || (b0 == 0xED && b1 > 0x9F) then 0 else 3
    else if !Cont(b3) then 0
    else if 0xF0 <= b0 <= 0xF4 then
      if (b0 == 0xF0 && b1 < 0x90) || (b0 == 0xF4 && b1 > 0x8F) then 0 else 4
    else 0
  }

  function Peek(b: bytes, i: nat): int {
    if i < |b| then b[i] else 0
  }

  /** Length of the well-formed sequence that starts `b`, or 0 when there is none. */
  function FirstLen(b: bytes): (n: nat)
    ensures n <= |b| && n <= 4
    ensures n == 1 ==> b[0] < 0x80
    ensures n > 1 ==> forall i :: 0 <= i < n ==> b[i] >= 0x80
  {
    if b == [] then 0 else SequenceLen(b[0], Peek(b, 1), Peek(b, 2), Peek(b, 3))
  }

  function FirstCode(b: bytes): (c: nat)
    requires FirstLen(b) > 0
    ensures FirstLen(b) == 1 ==> c == b[0]
  {
    var b0, b1, b2, b3 := Peek(b, 0), Peek(b, 1), Peek(b, 2), Peek(b, 3);
    if FirstLen(b) == 1 then b0
    else if FirstLen(b) == 2 then 0x40 * (b0 - 0xC0) + (b1 - 0x80)
    else if FirstLen(b) == 3 then 0x1000 * (b0 - 0xE0) + 0x40 * (b1 - 0x80) + (b2 - 0x80)
    else 0x40000 * (b0 - 0xF0) + 0x1000 * (b1 - 0x80) + 0x40 * (b2 - 0x80) + (b3 - 0x80)
  }

  predicate Valid(b: bytes) {
    b == [] || (FirstLen(b) > 0 && Valid(b[FirstLen(b)..]))
  }

  /** A string, held as its UTF-8 bytes. */
  type Text = b: bytes | Valid(b) witness []

  function Codes(t: Text): seq<nat> {
    if t == [] then [] else [FirstCode(t)] + Codes(t[FirstLen(t)..])
  }

  /** Code points with the White_Space property. */
  predicate IsWhitespace(c: nat) {
    || 0x09 <= c <= 0x0D || c == 0x20 || c == 0x85 || c == 0xA0 || c == 0x1680
    || 0x2000 <= c <= 0x200A || c == 0x2028 || c == 0x2029 || c == 0x202F || c == 0x205F || c == 0x3000
  }

  /** Code points of general category Cc. */
  predicate IsControl(c: nat) {
    c <= 0x1F || 0x7F <= c <= 0x9F
  }

  lemma FirstLenLocal(a: bytes, b: bytes)
    ensures FirstLen(a) > 0 ==> FirstLen(a + b) == FirstLen(a)
    ensures 0 < FirstLen(a + b) <= |a| ==> FirstLen(a) == FirstLen(a + b)
  {
    assert forall i :: 0 <= i < |a| ==> (a + b)[i] == a[i];
  }

  lemma {:induction false} ValidConcat(a: Text, b: bytes)
    ensures Valid(a + b) <==> Valid(b)
    decreases |a|
  {
    if a == [] {
      assert a + b == b;
    } else {
      var n := FirstLen(a);
      assert FirstLen(a + b) == n by {
        FirstLenLocal(a, b);
      }
      assert (a + b)[n..] == a[n..] + b;
      ValidConcat(a[n..], b);
    }
  }

  /** Text can be cut at any ASCII byte: both sides are text. */
  lemma {:induction false} CutAtAscii(a: bytes, c: byte, b: bytes)
    requires c < 0x80 && Valid(a + [c] + b)
    ensures Valid(a) && Valid(b)
    decreases |a|
  {
    var t := a + [c] + b;
    var n := FirstLen(t);
    if a == [] {
      assert t[1..] == b;
    } else {
      assert t[|a|] == c;
      assert t == a + ([c] + b);
      FirstLenLocal(a, [c] + b);
      assert t[n..] == a[n..] + [c] + b;
      CutAtAscii(a[n..], c, b);
    }
  }

  /** An ASCII byte of a text is one of its code points. */
  lemma {:induction false} AsciiIsCode(t: Text, k: nat)
    requires k < |t| && t[k] < 0x80
    ensures t[k] in Codes(t)
    decreases |t|
  {
    var n := FirstLen(t);
    if k >= n {
      AsciiIsCode(t[n..], k - n);
    }
  }
}
