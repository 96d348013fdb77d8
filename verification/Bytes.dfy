/** Byte strings, fixed-width integers, hash functions and results, shared by every component. */
module Bytes {

  type byte = b: int | 0 <= b < 256
  type bytes = seq<byte>

  datatype Option<+T> = None | Some(value: T)

  datatype Result<+T, +E> = Ok(value: T) | Err(error: E) {
    predicate IsFailure() { Err? }

    function PropagateFailure<U>(): Result<U, E>
      requires Err?
    {
      Err(error)
    }

    function Extract(): T
      requires Ok?
    {
      value
    }
  }

  const U32: nat := 0x1_0000_0000
  const U64: nat := 0x1_0000_0000_0000_0000

  //
  // Fixed-width integers
  //

  function Pow256(k: nat): (p: nat)
    ensures p > 0
  {
    if k == 0 then 1 else 256 * Pow256(k - 1)
  }

  /** The `k` low-order bytes of `n`, most significant first; larger values are truncated. */
  function Be(n: nat, k: nat): (b: bytes)
    ensures |b| == k
  {
    if k == 0 then [] else Be(n / 256, k - 1) + [n % 256]
  }

  /** The `k` low-order bytes of `n`, least significant first. */
  function Le(n: nat, k: nat): (b: bytes)
    ensures |b| == k
  {
    if k == 0 then [] else [n % 256] + Le(n / 256, k - 1)
  }

  function FromLe(b: bytes): nat {
    if b == [] then 0 else b[0] + 256 * FromLe(b[1..])
  }

  function FromBe(b: bytes): nat {
    if b == [] then 0 else 256 * FromBe(b[..|b| - 1]) + b[|b| - 1]
  }

  lemma {:induction false} LeRoundTrip(n: nat, k: nat)
    requires n < Pow256(k)
    ensures FromLe(Le(n, k)) == n
  {
    if k > 0 {
      LeRoundTrip(n / 256, k - 1);
      assert Le(n, k)[1..] == Le(n / 256, k - 1);
    }
  }

  lemma {:induction false} FromLeRoundTrip(b: bytes)
    ensures FromLe(b) < Pow256(|b|)
    ensures Le(FromLe(b), |b|) == b
  {
    if b != [] {
      FromLeRoundTrip(b[1..]);
      assert FromLe(b) / 256 == FromLe(b[1..]);
    }
  }

  lemma {:induction false} BeRoundTrip(n: nat, k: nat)
    requires n < Pow256(k)
    ensures FromBe(Be(n, k)) == n
  {
    if k > 0 {
      BeRoundTrip(n / 256, k - 1);
      assert Be(n, k)[..k - 1] == Be(n / 256, k - 1);
    }
  }

  lemma {:induction false} FromBeRoundTrip(b: bytes)
    ensures FromBe(b) < Pow256(|b|)
    ensures Be(FromBe(b), |b|) == b
  {
    if b != [] {
      FromBeRoundTrip(b[..|b| - 1]);
      assert FromBe(b) / 256 == FromBe(b[..|b| - 1]);
    }
  }

  lemma BeInjective(m: nat, n: nat, k: nat)
    requires m < Pow256(k) && n < Pow256(k) && Be(m, k) == Be(n, k)
    ensures m == n
  {
    BeRoundTrip(m, k);
    BeRoundTrip(n, k);
  }

  lemma PowWidths()
    ensures Pow256(1) == 0x100 && Pow256(2) == 0x1_0000 && Pow256(3) == 0x100_0000
    ensures Pow256(4) == U32 && Pow256(8) == U64
  {
    assert Pow256(5) == 256 * Pow256(4) && Pow256(6) == 256 * Pow256(5) && Pow256(7) == 256 * Pow256(6);
  }

  /** Reading an integer field is comparing its bytes with the field's encoding. */
  lemma ReadLe(b: bytes, n: nat)
    requires n < Pow256(|b|)
    ensures FromLe(b) == n <==> b == Le(n, |b|)
  {
    LeRoundTrip(n, |b|);
    FromLeRoundTrip(b);
  }

  //
  // Occurrences of one byte string inside another
  //

  /** `p` occurs in `b` at offset `at`. */
  predicate At(b: bytes, at: nat, p: bytes) {
    at + |p| <= |b| && b[at..at + |p|] == p
  }

  /** A little-endian field at `at` holds `n` exactly when the encoding of `n` occurs there. */
  lemma LeAt(b: bytes, at: nat, k: nat, n: nat)
    requires at + k <= |b|
    ensures FromLe(b[at..at + k]) == n <==> n < Pow256(k) && At(b, at, Le(n, k))
  {
    hide FromLe, Le, Pow256;
    FromLeRoundTrip(b[at..at + k]);
    if n < Pow256(k) {
      ReadLe(b[at..at + k], n);
    }
  }

  lemma AtConcat(b: bytes, at: nat, p: bytes, q: bytes)
    ensures At(b, at, p + q) <==> At(b, at, p) && At(b, at + |p|, q)
  {
    if at + |p| + |q| <= |b| {
      assert b[at..at + |p + q|] == b[at..at + |p|] + b[at + |p|..at + |p| + |q|];
      if At(b, at, p + q) {
        assert (p + q)[..|p|] == p && (p + q)[|p|..] == q;
        assert b[at..at + |p|] == b[at..at + |p + q|][..|p|];
        assert b[at + |p|..at + |p| + |q|] == b[at..at + |p + q|][|p|..];
      }
    }
  }

  /** Concatenations with equally long first parts split in one way. */
  lemma SplitEqual(a: bytes, b: bytes, c: bytes, d: bytes)
    requires |a| == |c| && a + b == c + d
    ensures a == c && b == d
  {
    assert a == (a + b)[..|a|] && c == (c + d)[..|c|];
    assert b == (a + b)[|a|..] && d == (c + d)[|c|..];
  }

  lemma TakeAll<T>(s: seq<T>)
    ensures s[..|s|] == s
  {
  }

  function Fill(n: nat, v: byte): (b: bytes)
    ensures |b| == n && forall i :: 0 <= i < n ==> b[i] == v
  {
    seq(n, _ => v)
  }

  /** The bytes of an ASCII string. */
  function Ascii(s: string): (b: bytes)
    requires forall i :: 0 <= i < |s| ==> s[i] as int < 128
    ensures |b| == |s| && forall i :: 0 <= i < |s| ==> b[i] == s[i] as int
  {
    seq(|s|, i requires 0 <= i < |s| => s[i] as int)
  }

  predicate AllAre(b: bytes, v: byte) {
    forall i :: 0 <= i < |b| ==> b[i] == v
  }

  //
  // Hash functions
  //

  /** The input of a hash function, kept apart from the byte strings it returns. */
  datatype Message = Message(text: bytes)

  /** Any function with the output length of SHA-256, SHA-384 or SHA-512; results hold for every choice of it. */
  type Hash32 = h: Message -> bytes | (forall m :: |h(m)| == 32) witness ((_: Message) => Fill(32, 0))
  type Hash48 = h: Message -> bytes | (forall m :: |h(m)| == 48) witness ((_: Message) => Fill(48, 0))
  type Hash64 = h: Message -> bytes | (forall m :: |h(m)| == 64) witness ((_: Message) => Fill(64, 0))

  /** Two different inputs, one from each set, have the same digest. */
  ghost predicate Collide(h: Message -> bytes, a: set<bytes>, b: set<bytes>) {
    exists x, y :: x in a && y in b && x != y && h(Message(x)) == h(Message(y))
  }

  /** Some input of the set hashes to `target`. */
  ghost predicate HitsTarget(h: Message -> bytes, a: set<bytes>, target: bytes) {
    exists x :: x in a && h(Message(x)) == target
  }
}
