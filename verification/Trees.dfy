/** Directory trees as a listing returns them, and the stable sort by name or path. */
module Trees {
  import opened Bytes
  import opened ByteOrder

  /** A named directory entry, or a path with its file hash. */
  datatype Keyed<+T> = Keyed(key: bytes, value: T)

  //
  // Stable sort
  //

  /** First position whose key is above `key`; equal keys stay in front. */
  function After<T>(s: seq<Keyed<T>>, key: bytes): (i: nat)
    ensures i <= |s|
  {
    if s == [] || Less(key, s[0].key) then 0 else 1 + After(s[1..], key)
  }

  function SortByKey<T>(s: seq<Keyed<T>>): (r: seq<Keyed<T>>)
    ensures |r| == |s|
  {
    if s == [] then []
    else
      var front, last := SortByKey(s[..|s| - 1]), s[|s| - 1];
      var i := After(front, last.key);
      front[..i] + [last] + front[i..]
  }

  ghost predicate InOrder<T>(s: seq<Keyed<T>>) {
    forall i, j :: 0 <= i < j < |s| ==> !Less(s[j].key, s[i].key)
  }

  ghost predicate StrictlyInOrder<T>(s: seq<Keyed<T>>) {
    forall i, j :: 0 <= i < j < |s| ==> Less(s[i].key, s[j].key)
  }

  ghost predicate DistinctKeys<T>(s: seq<Keyed<T>>) {
    forall i, j :: 0 <= i < j < |s| ==> s[i].key != s[j].key
  }

  lemma {:induction false} AfterMeans<T>(s: seq<Keyed<T>>, key: bytes)
    requires InOrder(s)
    ensures forall k :: 0 <= k < After(s, key) ==> !Less(key, s[k].key)
    ensures forall k :: After(s, key) <= k < |s| ==> Less(key, s[k].key)
  {
    hide Less;
    if s != [] {
      if Less(key, s[0].key) {
        forall k | 0 <= k < |s| ensures Less(key, s[k].key) {
          if k > 0 {
            LessNotBelow(key, s[0].key, s[k].key);
          }
        }
      } else {
        AfterMeans(s[1..], key);
        forall k | 0 < k < |s| ensures k < After(s, key) <==> !Less(key, s[k].key) {
          assert s[k] == s[1..][k - 1];
        }
      }
    }
  }

  lemma LessNotBelow(a: bytes, b: bytes, c: bytes)
    requires Less(a, b) && !Less(c, b)
    ensures Less(a, c)
  {
    hide Less;
    LessTotal(b, c);
    if b != c {
      LessTransitive(a, b, c);
    }
  }

  lemma {:induction false} SortInOrder<T>(s: seq<Keyed<T>>)
    ensures InOrder(SortByKey(s))
  {
    hide Less, After;
    if s != [] {
      var front, last := SortByKey(s[..|s| - 1]), s[|s| - 1];
      SortInOrder(s[..|s| - 1]);
      AfterMeans(front, last.key);
      var i, r := After(front, last.key), SortByKey(s);
      forall j, k | 0 <= j < k < |r| ensures !Less(r[k].key, r[j].key) {
        if k > i {
          LessTotal(last.key, front[k - 1].key);
        }
      }
    }
  }

  /** Sorted lexicographically: no later key comes before an earlier one. */
  lemma SortLexicographic<T>(s: seq<Keyed<T>>, i: nat, j: nat)
    requires i < j < |s|
    ensures !Before(SortByKey(s)[j].key, SortByKey(s)[i].key)
  {
    hide Less, SortByKey;
    SortInOrder(s);
    LessExactly(SortByKey(s)[j].key, SortByKey(s)[i].key);
  }

  function OfKey<T>(s: seq<Keyed<T>>, key: bytes): seq<Keyed<T>> {
    if s == [] then [] else OfKey(s[..|s| - 1], key) + if s[|s| - 1].key == key then [s[|s| - 1]] else []
  }

  lemma {:induction false} OfKeyConcat<T>(s: seq<Keyed<T>>, t: seq<Keyed<T>>, key: bytes)
    ensures OfKey(s + t, key) == OfKey(s, key) + OfKey(t, key)
    decreases |t|
  {
    if t == [] {
      assert s + t == s;
    } else {
      OfKeyConcat(s, t[..|t| - 1], key);
      assert (s + t)[..|s + t| - 1] == s + t[..|t| - 1];
    }
  }

  lemma {:induction false} OfKeyNone<T>(s: seq<Keyed<T>>, key: bytes)
    requires forall i :: 0 <= i < |s| ==> s[i].key != key
    ensures OfKey(s, key) == []
    decreases |s|
  {
    if s != [] {
      OfKeyNone(s[..|s| - 1], key);
    }
  }

  lemma OfKeyOne<T>(x: Keyed<T>, key: bytes)
    ensures OfKey([x], key) == if x.key == key then [x] else []
  {
    assert [x][..0] == [];
  }

  /** Sorting is stable: elements of one key keep their order. */
  lemma {:induction false} SortStable<T>(s: seq<Keyed<T>>, key: bytes)
    ensures OfKey(SortByKey(s), key) == OfKey(s, key)
    decreases |s|
  {
    hide Less, After, InOrder;
    if s != [] {
      var front, last := SortByKey(s[..|s| - 1]), s[|s| - 1];
      var i := After(front, last.key);
      SortStable(s[..|s| - 1], key);
      SortInOrder(s[..|s| - 1]);
      AfterMeans(front, last.key);
      InsertStable(front, i, last, key);
    }
  }

  lemma InsertStable<T>(front: seq<Keyed<T>>, i: nat, last: Keyed<T>, key: bytes)
    requires i <= |front| && forall k :: i <= k < |front| ==> Less(last.key, front[k].key)
    ensures OfKey(front[..i] + [last] + front[i..], key) == OfKey(front, key) + if last.key == key then [last] else []
  {
    hide OfKey, Less;
    OfKeyConcat(front[..i] + [last], front[i..], key);
    OfKeyConcat(front[..i], [last], key);
    OfKeyConcat(front[..i], front[i..], key);
    OfKeyOne(last, key);
    assert front == front[..i] + front[i..];
    if last.key == key {
      LessTotal(key, key);
      OfKeyNone(front[i..], key);
    }
  }

  lemma {:induction false} SortPermutes<T>(s: seq<Keyed<T>>)
    ensures multiset(SortByKey(s)) == multiset(s)
  {
    hide After;
    if s != [] {
      var front, last := SortByKey(s[..|s| - 1]), s[|s| - 1];
      var i := After(front, last.key);
      SortPermutes(s[..|s| - 1]);
      assert s == s[..|s| - 1] + [last];
      assert front == front[..i] + front[i..];
    }
  }

  lemma SortElements<T>(s: seq<Keyed<T>>, x: Keyed<T>)
    ensures x in SortByKey(s) <==> x in s
  {
    hide SortByKey;
    SortPermutes(s);
    assert x in SortByKey(s) <==> x in multiset(SortByKey(s));
    assert x in s <==> x in multiset(s);
  }

  lemma {:induction false} SortStrict<T>(s: seq<Keyed<T>>)
    requires DistinctKeys(s)
    ensures StrictlyInOrder(SortByKey(s))
  {
    hide Less, After;
    if s != [] {
      var front, last := SortByKey(s[..|s| - 1]), s[|s| - 1];
      SortStrict(s[..|s| - 1]);
      var i, r := After(front, last.key), SortByKey(s);
      SortInOrder(s);
      forall j, k | 0 <= j < k < |r| ensures Less(r[j].key, r[k].key) {
        LessTotal(r[j].key, r[k].key);
        if j == i {
          SortElements(s[..|s| - 1], front[k - 1]);
        } else if k == i {
          SortElements(s[..|s| - 1], front[j]);
        }
      }
    }
  }

  //
  // Trees
  //

  datatype Node = File(content: bytes) | Dir(entries: seq<Entry>) | Symlink | Special

  type Entry = Keyed<Node>

  function Height(n: Node): nat
    decreases n
  {
    if n.Dir? then 1 + ListHeight(n.entries) else 0
  }

  function ListHeight(es: seq<Entry>): nat
    decreases es
  {
    if es == [] then 0
    else
      var last, front := Height(es[|es| - 1].value), ListHeight(es[..|es| - 1]);
      if last > front then last else front
  }

  lemma {:induction false} EntryHeight(es: seq<Entry>, i: nat)
    requires i < |es|
    ensures Height(es[i].value) <= ListHeight(es)
  {
    hide Height;
    if i < |es| - 1 {
      EntryHeight(es[..|es| - 1], i);
    }
  }

  lemma {:induction false} HeightOfPart(part: seq<Entry>, whole: seq<Entry>)
    requires forall x :: x in part ==> x in whole
    ensures ListHeight(part) <= ListHeight(whole)
  {
    hide Height;
    if part != [] {
      HeightOfPart(part[..|part| - 1], whole);
      assert part[|part| - 1] in whole;
      var i :| 0 <= i < |whole| && whole[i] == part[|part| - 1];
      EntryHeight(whole, i);
    }
  }

  lemma SortedHeight(es: seq<Entry>)
    ensures ListHeight(SortByKey(es)) <= ListHeight(es)
  {
    hide SortByKey, ListHeight;
    forall x | x in SortByKey(es) ensures x in es {
      SortElements(es, x);
    }
    HeightOfPart(SortByKey(es), es);
  }

  /** No directory, at any depth, lists a name twice. */
  ghost predicate WellNamed(es: seq<Entry>)
    decreases ListHeight(es)
  {
    DistinctKeys(es) &&
    forall i :: 0 <= i < |es| && es[i].value.Dir? ==>
                  (EntryHeight(es, i); WellNamed(es[i].value.entries))
  }

  /** The same node up to the order of listings at every depth. */
  ghost predicate SameNode(a: Node, b: Node)
    decreases Height(a), 0
  {
    if a.Dir? && b.Dir? then SameListing(a.entries, b.entries) else a == b
  }

  ghost predicate SameEntry(a: seq<Entry>, i: nat, y: Entry)
    requires i < |a|
    decreases ListHeight(a), 1
  {
    EntryHeight(a, i);
    a[i].key == y.key && SameNode(a[i].value, y.value)
  }

  ghost predicate HasTwin(a: seq<Entry>, i: nat, b: seq<Entry>)
    requires i < |a|
    decreases ListHeight(a), 2
  {
    exists j :: 0 <= j < |b| && SameEntry(a, i, b[j])
  }

  /** Each side lists the names of the other, for the same nodes. */
  ghost predicate SameListing(a: seq<Entry>, b: seq<Entry>)
    decreases ListHeight(a), 3
  {
    && (forall i :: 0 <= i < |a| ==> HasTwin(a, i, b))
    && (forall j :: 0 <= j < |b| ==> exists i :: 0 <= i < |a| && SameEntry(a, i, b[j]))
  }
}
