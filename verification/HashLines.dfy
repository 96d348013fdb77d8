/** The `path:hash` lines that Value X hashes, and which lists of files they determine. */
module HashLines {
  import opened Bytes
  import opened Trees
  import opened Utf8
  import opened ValueX

  lemma {:induction false} LinesFirst(items: seq<Item>)
    requires items != []
    ensures Lines(items) == Line(items[0]) + Lines(items[1..])
    decreases |items|
  {
    hide Line;
    var front, last := items[..|items| - 1], items[|items| - 1];
    if front == [] {
      assert items[1..] == [];
    } else {
      LinesFirst(front);
      assert items[1..][..|items| - 2] == front[1..];
      assert Line(items[0]) + Lines(front[1..]) + Line(last) == Line(items[0]) + (Lines(front[1..]) + Line(last));
    }
  }

  lemma ColonIsFirst(k: bytes, t: bytes)
    requires 0x3a !in k
    ensures var a := k + [0x3a] + t; a[|k|] == 0x3a && forall i :: 0 <= i < |k| ==> a[i] != 0x3a
  {
    var a := k + [0x3a] + t;
    assert forall i :: 0 <= i < |k| ==> a[i] == k[i];
  }

  /** The first colon of a line ends its path. */
  lemma ColonEnds(k: bytes, t: bytes, l: bytes, u: bytes)
    requires 0x3a !in k && 0x3a !in l && k + [0x3a] + t == l + [0x3a] + u
    ensures k == l && t == u
  {
    ColonIsFirst(k, t);
    ColonIsFirst(l, u);
    assert |k| == |l|;
    SplitEqual(k + [0x3a], t, l + [0x3a], u);
    SplitEqual(k, [0x3a], l, [0x3a]);
  }

  /** Paths without colons and hashes of one length. */
  ghost predicate Readable(items: seq<Item>) {
    forall i :: 0 <= i < |items| ==> 0x3a !in items[i].key && |items[i].value| == 48
  }

  lemma LineEqual(x: Item, s: bytes, y: Item, t: bytes)
    requires 0x3a !in x.key && 0x3a !in y.key && |x.value| == |y.value| && Line(x) + s == Line(y) + t
    ensures x == y && s == t
  {
    assert Line(x) + s == x.key + [0x3a] + (x.value + [0x0a] + s);
    assert Line(y) + t == y.key + [0x3a] + (y.value + [0x0a] + t);
    ColonEnds(x.key, x.value + [0x0a] + s, y.key, y.value + [0x0a] + t);
    SplitEqual(x.value + [0x0a], s, y.value + [0x0a], t);
    SplitEqual(x.value, [0x0a], y.value, [0x0a]);
  }

  lemma {:induction false} LinesInjective(xs: seq<Item>, ys: seq<Item>)
    requires Readable(xs) && Readable(ys) && Lines(xs) == Lines(ys)
    ensures xs == ys
    decreases |xs|
  {
    hide Lines, Line;
    LinesNonempty(xs);
    LinesNonempty(ys);
    if xs != [] {
      LinesFirst(xs);
      LinesFirst(ys);
      LineEqual(xs[0], Lines(xs[1..]), ys[0], Lines(ys[1..]));
      LinesInjective(xs[1..], ys[1..]);
      assert xs == [xs[0]] + xs[1..] && ys == [ys[0]] + ys[1..];
    }
  }

  lemma LinesNonempty(items: seq<Item>)
    ensures Lines(items) == [] <==> items == []
  {
  }

  //
  // Paths that are any bytes
  //

  /** Every value has the length of a SHA-384 digest. */
  ghost predicate Sized(items: seq<Item>) {
    forall i :: 0 <= i < |items| ==> |items[i].value| == 48
  }

  /** No other list has these lines. */
  ghost predicate Determined(xs: seq<Item>) {
    forall ys :: Sized(ys) && Lines(ys) == Lines(xs) ==> ys == xs
  }

  /** The path holds, in its middle, what ends one line: a colon, 48 bytes and a line feed. */
  predicate HoldsLineEnd(path: bytes) {
    exists p :: 0 <= p < |path| - 49 && path[p] == 0x3a && path[p + 49] == 0x0a
  }

  /** The first two lines taken as one. */
  function Merged(xs: seq<Item>): seq<Item>
    requires |xs| >= 2
  {
    [Keyed(Line(xs[0]) + xs[1].key, xs[1].value)] + xs[2..]
  }

  lemma MergedLines(xs: seq<Item>)
    requires |xs| >= 2
    ensures Lines(Merged(xs)) == Lines(xs)
  {
    hide Lines;
    var m := Merged(xs);
    LinesFirst(xs);
    LinesFirst(xs[1..]);
    LinesFirst(m);
    assert m[1..] == xs[2..] == xs[1..][1..];
    assert Line(m[0]) == Line(xs[0]) + Line(xs[1]);
    assert Line(xs[0]) + Line(xs[1]) + Lines(xs[2..]) == Line(xs[0]) + (Line(xs[1]) + Lines(xs[2..]));
  }

  lemma MergedSized(xs: seq<Item>)
    requires |xs| >= 2 && Sized(xs)
    ensures Sized(Merged(xs))
  {
    hide Line;
    var m := Merged(xs);
    assert forall i :: 1 <= i < |m| ==> m[i] == xs[i + 1];
  }

  /** A path that holds a line end gives a second reading of its line. */
  lemma SecondReading(x: Item) returns (a: Item, b: Item)
    requires HoldsLineEnd(x.key)
    ensures |a.value| == 48 && b.value == x.value && Lines([a, b]) == Lines([x])
  {
    hide Lines;
    var k := x.key;
    var p :| 0 <= p < |k| - 49 && k[p] == 0x3a && k[p + 49] == 0x0a;
    a, b := Keyed(k[..p], k[p + 1..p + 49]), Keyed(k[p + 50..], x.value);
    assert k == k[..p] + [k[p]] + k[p + 1..p + 49] + [k[p + 49]] + k[p + 50..];
    assert Merged([a, b]) == [x];
    MergedLines([a, b]);
  }

  lemma {:induction false} LinesLength(items: seq<Item>)
    requires Sized(items)
    ensures |Lines(items)| >= 50 * |items|
    decreases |items|
  {
    if items != [] {
      LinesLength(items[..|items| - 1]);
    }
  }

  lemma SameLine(x: Item, y: Item)
    requires |x.value| == |y.value| && Line(x) == Line(y)
    ensures x == y
  {
    assert Line(x) == x.key + ([0x3a] + (x.value + [0x0a])) && Line(y) == y.key + ([0x3a] + (y.value + [0x0a]));
    SplitEqual(x.key, [0x3a] + (x.value + [0x0a]), y.key, [0x3a] + (y.value + [0x0a]));
    SplitEqual([0x3a], x.value + [0x0a], [0x3a], y.value + [0x0a]);
    SplitEqual(x.value, [0x0a], y.value, [0x0a]);
  }

  /** The only other readings of one line have several lines, the first of which ends inside the path. */
  lemma OtherReading(x: Item, ys: seq<Item>)
    requires |x.value| == 48 && Sized(ys) && Lines(ys) == Lines([x]) && ys != [x]
    ensures HoldsLineEnd(x.key)
  {
    hide Lines;
    LinesNonempty([x]);
    LinesNonempty(ys);
    LinesFirst([x]);
    LinesFirst(ys);
    LinesNonempty([x][1..]);
    LinesNonempty(ys[1..]);
    LinesLength(ys[1..]);
    var p, whole := |ys[0].key|, Line(x);
    assert whole == Line(ys[0]) + Lines(ys[1..]);
    if |ys| == 1 {
      SameLine(x, ys[0]);
    } else {
      assert x.key[p] == whole[p] == Line(ys[0])[p] == 0x3a;
      assert x.key[p + 49] == whole[p + 49] == Line(ys[0])[p + 49] == 0x0a;
    }
  }

  /**
   * Lines determine a list exactly when it is empty, or has one entry whose path holds no line end.
   * Two or more entries always have a second reading.
   */
  lemma DeterminedExactly(xs: seq<Item>)
    requires Sized(xs)
    ensures Determined(xs) <==> xs == [] || (|xs| == 1 && !HoldsLineEnd(xs[0].key))
  {
    hide Lines, Line, HoldsLineEnd;
    if xs == [] {
      forall ys | Sized(ys) && Lines(ys) == Lines(xs) ensures ys == xs {
        LinesNonempty(xs);
        LinesNonempty(ys);
      }
    } else if |xs| >= 2 {
      MergedLines(xs);
      MergedSized(xs);
      assert |Merged(xs)| < |xs|;
    } else {
      assert xs == [xs[0]];
      if HoldsLineEnd(xs[0].key) {
        var a, b := SecondReading(xs[0]);
        assert Sized([a, b]) && |[a, b]| != |xs|;
      }
      forall ys | Sized(ys) && Lines(ys) == Lines(xs) && ys != xs ensures HoldsLineEnd(xs[0].key) {
        OtherReading(xs[0], ys);
      }
    }
  }

  //
  // Paths that are text
  //

  /** Items as a tree gives them: text for paths, SHA-384 digests for values. */
  ghost predicate TextItems(items: seq<Item>) {
    forall i :: 0 <= i < |items| ==> |items[i].value| == 48 && Valid(items[i].key)
  }

  /** No other such list has these lines. */
  ghost predicate TextDetermined(xs: seq<Item>) {
    forall ys :: TextItems(ys) && Lines(ys) == Lines(xs) ==> ys == xs
  }

  /** A first line can be read off whose path is the text before position `p`. */
  predicate CutAt(b: bytes, p: nat) {
    p + 50 <= |b| && b[p] == 0x3a && b[p + 49] == 0x0a && Valid(b[..p])
  }

  /** The bytes can be read as lines to their end. */
  predicate Reads(b: bytes)
    decreases |b|
  {
    b == [] || exists p :: 0 <= p < |b| && CutAt(b, p) && Reads(b[p + 50..])
  }

  function ItemAt(b: bytes, p: nat): Item
    requires CutAt(b, p)
  {
    Keyed(b[..p], b[p + 1..p + 49])
  }

  lemma CutIsLine(b: bytes, p: nat)
    requires CutAt(b, p)
    ensures b == Line(ItemAt(b, p)) + b[p + 50..] && |ItemAt(b, p).value| == 48
  {
    hide Valid;
    assert b == b[..p] + [b[p]] + b[p + 1..p + 49] + [b[p + 49]] + b[p + 50..];
  }

  lemma LineIsCut(x: Item, rest: bytes)
    requires |x.value| == 48 && Valid(x.key)
    ensures CutAt(Line(x) + rest, |x.key|) && (Line(x) + rest)[|x.key| + 50..] == rest
    ensures ItemAt(Line(x) + rest, |x.key|) == x
  {
    hide Valid;
    var b := Line(x) + rest;
    assert b[..|x.key|] == x.key && b[|x.key| + 1..|x.key| + 49] == x.value;
  }

  lemma {:induction false} LinesConcat(xs: seq<Item>, ys: seq<Item>)
    ensures Lines(xs + ys) == Lines(xs) + Lines(ys)
    decreases |ys|
  {
    hide Line;
    if ys == [] {
      assert xs + ys == xs;
    } else {
      var front, last := ys[..|ys| - 1], ys[|ys| - 1];
      LinesConcat(xs, front);
      assert (xs + ys)[..|xs + ys| - 1] == xs + front;
      assert Lines(xs) + Lines(front) + Line(last) == Lines(xs) + (Lines(front) + Line(last));
    }
  }

  lemma {:induction false} LinesRead(ys: seq<Item>)
    requires TextItems(ys)
    ensures Reads(Lines(ys))
    decreases |ys|
  {
    hide Lines, Line, Valid, CutAt;
    LinesNonempty(ys);
    if ys != [] {
      LinesFirst(ys);
      LinesRead(ys[1..]);
      LineIsCut(ys[0], Lines(ys[1..]));
      CutInside(Lines(ys), |ys[0].key|);
    }
  }

  lemma CutInside(b: bytes, p: nat)
    requires CutAt(b, p)
    ensures p < |b|
  {
    hide Valid;
  }

  lemma {:induction false} ReadingOf(b: bytes) returns (ys: seq<Item>)
    requires Reads(b)
    ensures TextItems(ys) && Lines(ys) == b
    decreases |b|
  {
    hide Line, Valid;
    if b == [] {
      ys := [];
    } else {
      var p :| 0 <= p < |b| && CutAt(b, p) && Reads(b[p + 50..]);
      var rest := ReadingOf(b[p + 50..]);
      CutIsLine(b, p);
      ys := [ItemAt(b, p)] + rest;
      LinesFirst(ys);
      assert ys[1..] == rest;
    }
  }

  /** Bytes can be read as lines exactly when they are the lines of some list. */
  lemma ReadsExactly(b: bytes)
    ensures Reads(b) <==> exists ys :: TextItems(ys) && Lines(ys) == b
  {
    hide Reads, Lines;
    if Reads(b) {
      var ys := ReadingOf(b);
    }
    forall ys | TextItems(ys) && Lines(ys) == b ensures Reads(b) {
      LinesRead(ys);
    }
  }

  /** From line `i` on, a path other than the list's own can be cut off so that the remainder still reads. */
  predicate OtherCut(xs: seq<Item>, i: nat, p: nat)
    requires i < |xs|
  {
    var b := Lines(xs[i..]);
    p != |xs[i].key| && CutAt(b, p) && Reads(b[p + 50..])
  }

  ghost predicate Unambiguous(xs: seq<Item>) {
    forall i: nat, p: nat :: i < |xs| ==> !OtherCut(xs, i, p)
  }

  lemma UnambiguousTail(xs: seq<Item>)
    requires xs != [] && Unambiguous(xs)
    ensures Unambiguous(xs[1..])
  {
    hide Lines, CutAt, Reads;
    forall i: nat, p: nat | i < |xs[1..]| ensures !OtherCut(xs[1..], i, p) {
      assert xs[1..][i..] == xs[i + 1..];
      assert !OtherCut(xs, i + 1, p);
    }
  }

  lemma {:induction false} UnambiguousDetermines(xs: seq<Item>, ys: seq<Item>)
    requires TextItems(xs) && TextItems(ys) && Unambiguous(xs) && Lines(ys) == Lines(xs)
    ensures ys == xs
    decreases |xs|
  {
    hide Lines, Line, Valid, Reads, Unambiguous, CutAt;
    LinesNonempty(xs);
    LinesNonempty(ys);
    if xs != [] {
      SameFirst(xs, ys);
      UnambiguousTail(xs);
      UnambiguousDetermines(xs[1..], ys[1..]);
      assert xs == [xs[0]] + xs[1..] && ys == [ys[0]] + ys[1..];
    }
  }

  lemma SameFirst(xs: seq<Item>, ys: seq<Item>)
    requires TextItems(xs) && TextItems(ys) && Unambiguous(xs) && Lines(ys) == Lines(xs)
    requires xs != [] && ys != []
    ensures ys[0] == xs[0] && Lines(ys[1..]) == Lines(xs[1..])
  {
    hide Lines, Line, Valid, Reads, CutAt, ItemAt;
    LinesFirst(xs);
    LinesFirst(ys);
    LineIsCut(xs[0], Lines(xs[1..]));
    LineIsCut(ys[0], Lines(ys[1..]));
    LinesRead(ys[1..]);
    assert xs[0..] == xs;
    assert !OtherCut(xs, 0, |ys[0].key|);
  }

  lemma SecondTextReading(xs: seq<Item>, i: nat, p: nat) returns (ys: seq<Item>)
    requires TextItems(xs) && i < |xs| && OtherCut(xs, i, p)
    ensures TextItems(ys) && Lines(ys) == Lines(xs) && ys != xs
  {
    hide Lines, Line, Valid, Reads;
    var b := Lines(xs[i..]);
    var rest := ReadingOf(b[p + 50..]);
    var item := ItemAt(b, p);
    CutIsLine(b, p);
    var tail := [item] + rest;
    LinesFirst(tail);
    assert tail[1..] == rest;
    ys := xs[..i] + tail;
    LinesConcat(xs[..i], tail);
    LinesConcat(xs[..i], xs[i..]);
    assert xs == xs[..i] + xs[i..];
    assert ys[i] == item && |item.key| == p;
  }

  /**
   * Among lists with text for paths, lines determine the list exactly when at no line another path can be cut
   * off with a remainder that reads.
   */
  lemma TextDeterminedExactly(xs: seq<Item>)
    requires TextItems(xs)
    ensures TextDetermined(xs) <==> Unambiguous(xs)
  {
    hide Lines, OtherCut, TextItems;
    if Unambiguous(xs) {
      forall ys | TextItems(ys) && Lines(ys) == Lines(xs) ensures ys == xs {
        UnambiguousDetermines(xs, ys);
      }
    } else {
      var i: nat, p: nat :| i < |xs| && OtherCut(xs, i, p);
      var ys := SecondTextReading(xs, i, p);
    }
  }

  /** A list that no list of any paths rivals is unambiguous. */
  lemma DeterminedIsUnambiguous(xs: seq<Item>)
    requires TextItems(xs) && (xs == [] || (|xs| == 1 && !HoldsLineEnd(xs[0].key)))
    ensures Unambiguous(xs)
  {
    hide Lines, Unambiguous, HoldsLineEnd, Valid;
    DeterminedExactly(xs);
    TextDeterminedExactly(xs);
    forall ys | TextItems(ys) && Lines(ys) == Lines(xs) ensures ys == xs {
      assert Sized(ys);
    }
  }

  //
  // Paths without colons
  //

  /** Neither the digest nor a part of it before a colon is text. */
  ghost predicate NotText(v: bytes) {
    forall j :: 0 <= j <= |v| && (j == |v| || v[j] == 0x3a) ==> !Valid(v[..j])
  }

  /** Behind a path without colons, another cut takes in the digest, or its part before a colon, as text. */
  lemma OtherCutTakesDigest(x: Item, rest: bytes, p: nat)
    requires |x.value| == 48 && 0x3a !in x.key && CutAt(Line(x) + rest, p) && p != |x.key|
    ensures rest != [] && !NotText(x.value)
  {
    hide Valid;
    var b, k, v := Line(x) + rest, |x.key|, x.value;
    ColonIsFirst(x.key, v + [0x0a] + rest);
    assert b == x.key + [0x3a] + (v + [0x0a] + rest);
    assert p > k;
    var w := b[k + 1..p];
    assert b[..p] == x.key + [0x3a] + w;
    CutAtAscii(x.key, 0x3a, w);
    if p < k + 49 {
      assert w == v[..p - k - 1] && v[p - k - 1] == b[p];
    } else {
      assert b[k + 49] == 0x0a;
      assert w == v + [0x0a] + b[k + 50..p];
      CutAtAscii(v, 0x0a, b[k + 50..p]);
      assert v[..|v|] == v;
    }
  }

  /** Digests that are not text, all but the last, make a list with colon-free paths unambiguous. */
  lemma NotTextSuffices(xs: seq<Item>)
    requires TextItems(xs) && (forall i :: 0 <= i < |xs| ==> 0x3a !in xs[i].key)
    requires forall i :: 0 <= i < |xs| - 1 ==> NotText(xs[i].value)
    ensures Unambiguous(xs)
  {
    hide Lines, Line, Valid, Reads, CutAt, NotText;
    forall i: nat, p: nat | i < |xs| ensures !OtherCut(xs, i, p) {
      if OtherCut(xs, i, p) {
        LinesFirst(xs[i..]);
        assert xs[i..][0] == xs[i] && xs[i..][1..] == xs[i + 1..];
        OtherCutTakesDigest(xs[i], Lines(xs[i + 1..]), p);
        LinesNonempty(xs[i + 1..]);
      }
    }
  }

  lemma AsciiValid(c: byte)
    requires c < 0x80
    ensures Valid([c])
  {
    assert FirstLen([c]) == 1 && [c][1..] == [];
  }

  lemma LineAsText(x: Item, key: bytes)
    requires Valid(x.key) && Valid(x.value) && Valid(key)
    ensures Valid(Line(x) + key)
  {
    hide Valid;
    AsciiValid(0x3a);
    AsciiValid(0x0a);
    ValidConcat(x.key, [0x3a]);
    ValidConcat(x.key + [0x3a], x.value);
    ValidConcat(x.key + [0x3a] + x.value, [0x0a]);
    ValidConcat(Line(x), key);
  }

  lemma MergedReading(xs: seq<Item>, i: nat) returns (ys: seq<Item>)
    requires TextItems(xs) && i + 1 < |xs| && Valid(xs[i].value)
    ensures TextItems(ys) && Lines(ys) == Lines(xs) && |ys| < |xs|
  {
    hide Lines, Line, Valid;
    var tail := Merged(xs[i..]);
    MergedLines(xs[i..]);
    LineAsText(xs[i], xs[i + 1].key);
    ys := xs[..i] + tail;
    LinesConcat(xs[..i], tail);
    LinesConcat(xs[..i], xs[i..]);
    assert xs == xs[..i] + xs[i..];
    assert ys[i] == Keyed(Line(xs[i]) + xs[i + 1].key, xs[i + 1].value);
    assert forall j :: i < j < |ys| ==> ys[j] == xs[j + 1];
  }

  lemma NotTextWithoutColon(v: bytes)
    requires 0x3a !in v
    ensures NotText(v) <==> !Valid(v)
  {
    hide Valid;
    assert v[..|v|] == v;
  }

  /** Without colons in paths or digests, the lines determine the list exactly when no digest but the last is text. */
  lemma ColonFreeExactly(xs: seq<Item>)
    requires TextItems(xs)
    requires forall i :: 0 <= i < |xs| ==> 0x3a !in xs[i].key && 0x3a !in xs[i].value
    ensures TextDetermined(xs) <==> forall i :: 0 <= i < |xs| - 1 ==> !Valid(xs[i].value)
  {
    hide Lines, Valid, Unambiguous, NotText;
    if forall i :: 0 <= i < |xs| - 1 ==> !Valid(xs[i].value) {
      forall i | 0 <= i < |xs| - 1 ensures NotText(xs[i].value) {
        NotTextWithoutColon(xs[i].value);
      }
      NotTextSuffices(xs);
      TextDeterminedExactly(xs);
    } else {
      var i :| 0 <= i < |xs| - 1 && Valid(xs[i].value);
      var ys := MergedReading(xs, i);
    }
  }
}
