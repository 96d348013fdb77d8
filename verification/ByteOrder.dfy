/** Byte strings in lexicographic order, as ordered sets and sorts use it. */
module ByteOrder {
  import opened Bytes

  predicate Less(a: bytes, b: bytes) {
    b != [] && (a == [] || a[0] < b[0] || (a[0] == b[0] && Less(a[1..], b[1..])))
  }

  /** `a` is a proper prefix of `b`, or has the smaller byte where they first differ. */
  ghost predicate Before(a: bytes, b: bytes) {
    exists k :: 0 <= k <= |a| && FirstDifference(a, b, k)
  }

  predicate FirstDifference(a: bytes, b: bytes, k: nat)
    requires k <= |a|
  {
    k < |b| && a[..k] == b[..k] && (k == |a| || a[k] < b[k])
  }

  lemma NextDifference(a: bytes, b: bytes, k: nat)
    requires a != [] && b != [] && a[0] == b[0] && k < |a|
    ensures FirstDifference(a, b, k + 1) <==> FirstDifference(a[1..], b[1..], k)
  {
    if k + 1 < |b| {
      assert a[..k + 1] == [a[0]] + a[1..][..k] && b[..k + 1] == [b[0]] + b[1..][..k];
      assert a[1..][..k] == a[..k + 1][1..] && b[1..][..k] == b[..k + 1][1..];
    }
  }

  /** The order is the lexicographic one. */
  lemma {:induction false} LessExactly(a: bytes, b: bytes)
    ensures Less(a, b) <==> Before(a, b)
    decreases |a|
  {
    if b == [] {
    } else if a == [] || a[0] < b[0] {
      assert FirstDifference(a, b, 0);
    } else {
      forall k | 0 <= k <= |a| && FirstDifference(a, b, k) ensures k > 0 && a[0] == b[0] {
        assert k > 0 ==> a[..k][0] == b[..k][0];
      }
      if a[0] == b[0] {
        LessExactly(a[1..], b[1..]);
        if Less(a[1..], b[1..]) {
          var k :| 0 <= k <= |a[1..]| && FirstDifference(a[1..], b[1..], k);
          NextDifference(a, b, k);
        }
        if Before(a, b) {
          var k :| 0 <= k <= |a| && FirstDifference(a, b, k);
          NextDifference(a, b, k - 1);
        }
      }
    }
  }

  lemma {:induction false} LessTotal(a: bytes, b: bytes)
    ensures a == b || Less(a, b) || Less(b, a)
    ensures !(Less(a, b) && Less(b, a))
    ensures !Less(a, a)
    decreases |a|
  {
    if a != [] {
      LessTotal(a[1..], a[1..]);
      if b != [] {
        LessTotal(a[1..], b[1..]);
        assert a == [a[0]] + a[1..] && b == [b[0]] + b[1..];
      }
    }
  }

  lemma {:induction false} LessTransitive(a: bytes, b: bytes, c: bytes)
    requires Less(a, b) && Less(b, c)
    ensures Less(a, c)
    decreases |a|
  {
    if a != [] && a[0] == b[0] == c[0] {
      LessTransitive(a[1..], b[1..], c[1..]);
    }
  }

  /** Strictly increasing. */
  ghost predicate Sorted(s: seq<bytes>) {
    forall i, j :: 0 <= i < j < |s| ==> Less(s[i], s[j])
  }

  lemma EmptyWithoutElements(s: seq<bytes>)
    ensures s == [] <==> forall x :: x !in s
  {
    if s != [] {
      assert s[0] in s;
    }
  }

  /** A strictly increasing sequence is determined by the set of its elements. */
  lemma {:induction false} SortedUnique(s: seq<bytes>, t: seq<bytes>)
    requires Sorted(s) && Sorted(t) && forall x :: x in s <==> x in t
    ensures s == t
    decreases |s|
  {
    EmptyWithoutElements(s);
    EmptyWithoutElements(t);
    if s != [] {
      assert s[0] in t;
      assert t[0] in s;
      LessTotal(s[0], t[0]);
      LessTotal(s[0], s[0]);
      assert s[0] == t[0];
      var s', t' := s[1..], t[1..];
      forall x ensures x in s' <==> x in t' {
        assert x in s' ==> x in s && x != s[0];
        assert x in t' ==> x in t && x != t[0];
        assert x in s && x != s[0] ==> x in s';
        assert x in t && x != t[0] ==> x in t';
      }
      SortedUnique(s', t');
      assert s == [s[0]] + s' && t == [t[0]] + t';
    }
  }

  /** Number of elements below `x`: where `x` belongs in a sorted sequence. */
  function Place(s: seq<bytes>, x: bytes): (i: nat)
    ensures i <= |s|
    ensures forall k :: 0 <= k < i ==> Less(s[k], x)
    ensures i < |s| ==> !Less(s[i], x)
  {
    if s == [] || !Less(s[0], x) then 0
    else
      var i := Place(s[1..], x);
      assert forall k :: 0 < k < i + 1 ==> s[k] == s[1..][k - 1];
      1 + i
  }

  function Insert(s: seq<bytes>, x: bytes): seq<bytes> {
    s[..Place(s, x)] + [x] + s[Place(s, x)..]
  }

  lemma InsertElements(s: seq<bytes>, x: bytes)
    ensures forall y :: y in Insert(s, x) <==> y == x || y in s
  {
    hide Place;
    assert s == s[..Place(s, x)] + s[Place(s, x)..];
  }

  lemma AboveFrom(s: seq<bytes>, x: bytes, k: nat)
    requires Sorted(s) && x !in s && Place(s, x) <= k < |s|
    ensures Less(x, s[k])
  {
    hide Less, Place;
    var i := Place(s, x);
    assert s[i] in s;
    LessTotal(s[i], x);
    if i < k {
      LessTransitive(x, s[i], s[k]);
    }
  }

  lemma InsertSorted(s: seq<bytes>, x: bytes)
    requires Sorted(s) && x !in s
    ensures Sorted(Insert(s, x))
  {
    hide Less, Place;
    var i, r := Place(s, x), Insert(s, x);
    forall j, k | 0 <= j < k < |r| ensures Less(r[j], r[k]) {
      if k > i {
        AboveFrom(s, x, k - 1);
        if j < i {
          LessTransitive(s[j], x, s[k - 1]);
        }
      }
    }
  }
}
