/** Value X, the hash that identifies a source tree, and the read-only snapshot a build works on. */
module ValueX {
  import opened Bytes
  import opened ByteOrder
  import opened Trees
  import Utf8

  /** Build artefacts, dependency caches and version-control state, outside the source identity. */
  const SKIP_NAMES: seq<bytes> :=
    [Ascii(".git"), Ascii("target"), Ascii("node_modules"), Ascii(".DS_Store"), Ascii("out")]

  /** A relative path and the SHA-384 of the file there. */
  type Item = Keyed<bytes>

  /** Any lossy reading of operating-system paths: always text, and text is read as it stands. */
  type Lossy = f: Message -> bytes | (forall m :: Utf8.Valid(f(m)) && (Utf8.Valid(m.text) ==> f(m) == m.text))
    witness ((m: Message) => if Utf8.Valid(m.text) then m.text else [])

  /** SHA-384, and how an operating-system path reads as text. */
  datatype Context = Context(sha384: Hash48, text: Lossy)

  /** The text with a slash for each backslash. */
  function Slashed(s: bytes): (r: bytes)
    ensures |r| == |s| && 0x5c !in r
    ensures forall i :: 0 <= i < |s| ==> r[i] == s[i] || (s[i] == 0x5c && r[i] == 0x2f)
  {
    seq(|s|, i requires 0 <= i < |s| => if s[i] == 0x5c then 0x2f else s[i])
  }

  /** The path of an entry below the tree's root. */
  function Join(prefix: bytes, name: bytes): bytes {
    if prefix == [] then name else prefix + [0x2f] + name
  }

  //
  // Collecting file hashes
  //

  /** The files below one entry; nothing when a symbolic link makes the tree unacceptable. */
  function CollectEntry(c: Context, e: Entry, prefix: bytes): Option<seq<Item>>
    decreases Height(e.value), 0
  {
    if e.key in SKIP_NAMES then Some([])
    else match e.value
      case Symlink => None
      case Dir(entries) => Collect(c, entries, Join(prefix, e.key))
      case File(content) => Some([Keyed(Slashed(c.text(Message(Join(prefix, e.key)))), c.sha384(Message(content)))])
      case Special => Some([])
  }

  function CollectInOrder(c: Context, es: seq<Entry>, prefix: bytes): Option<seq<Item>>
    decreases ListHeight(es), 1, |es|
  {
    if es == [] then Some([])
    else
      EntryHeight(es, |es| - 1);
      var front, last := CollectInOrder(c, es[..|es| - 1], prefix), CollectEntry(c, es[|es| - 1], prefix);
      if front.None? || last.None? then None else Some(front.value + last.value)
  }

  /** Each directory is walked in the order of its names, whatever order it lists them in. */
  function Collect(c: Context, es: seq<Entry>, prefix: bytes): Option<seq<Item>>
    decreases ListHeight(es), 2
  {
    SortedHeight(es);
    CollectInOrder(c, SortByKey(es), prefix)
  }

  /** A `path:hash` line. */
  function Line(x: Item): bytes {
    x.key + [0x3a] + x.value + [0x0a]
  }

  function Lines(items: seq<Item>): bytes {
    if items == [] then [] else Lines(items[..|items| - 1]) + Line(items[|items| - 1])
  }

  function TreeHash(c: Context, es: seq<Entry>): Option<bytes> {
    var items := Collect(c, es, []);
    if items.None? then None else Some(c.sha384(Message(Lines(SortByKey(items.value)))))
  }

  //
  // Walks that agree
  //

  /** Two entries of one name that contribute the same files. */
  ghost predicate Match(c: Context, prefix: bytes, x: Entry, y: Entry) {
    x.key == y.key && CollectEntry(c, x, prefix) == CollectEntry(c, y, prefix)
  }

  ghost predicate Covered(c: Context, prefix: bytes, y: Entry, s: seq<Entry>) {
    exists x :: x in s && Match(c, prefix, x, y)
  }

  /** Every entry of `t` is in `s`, and what `s` has beyond `t` contributes nothing. */
  ghost predicate Agree(c: Context, prefix: bytes, s: seq<Entry>, t: seq<Entry>) {
    && (forall y :: y in t ==> Covered(c, prefix, y, s))
    && (forall x :: x in s ==> CollectEntry(c, x, prefix) == Some([]) || Covered(c, prefix, x, t))
  }

  /** In a strictly ordered listing only the last entry has the last key, and none a greater one. */
  lemma LastIsGreatest(s: seq<Entry>, x: Entry)
    requires s != [] && StrictlyInOrder(s) && x in s
    ensures x.key == s[|s| - 1].key <==> x == s[|s| - 1]
    ensures x != s[|s| - 1] ==> Less(x.key, s[|s| - 1].key) && x in s[..|s| - 1]
  {
    hide Less;
    var i :| 0 <= i < |s| && s[i] == x;
    LessTotal(x.key, x.key);
    if i < |s| - 1 {
      assert s[..|s| - 1][i] == x;
      assert Less(x.key, s[|s| - 1].key);
    }
  }

  lemma MatchedLast(c: Context, prefix: bytes, s: seq<Entry>, t: seq<Entry>)
    requires StrictlyInOrder(s) && StrictlyInOrder(t) && Agree(c, prefix, s, t)
    requires s != [] && t != [] && s[|s| - 1].key == t[|t| - 1].key
    ensures CollectEntry(c, s[|s| - 1], prefix) == CollectEntry(c, t[|t| - 1], prefix)
    ensures Agree(c, prefix, s[..|s| - 1], t[..|t| - 1])
  {
    hide CollectEntry, StrictlyInOrder;
    var s', t', x, y := s[..|s| - 1], t[..|t| - 1], s[|s| - 1], t[|t| - 1];
    assert y in t;
    var z :| z in s && Match(c, prefix, z, y);
    LastIsGreatest(s, z);
    forall v | v in t' ensures Covered(c, prefix, v, s') {
      KeyBelowLast(t, v);
      var u :| u in s && Match(c, prefix, u, v);
      LastIsGreatest(s, u);
    }
    forall u | u in s' && CollectEntry(c, u, prefix) != Some([]) ensures Covered(c, prefix, u, t') {
      KeyBelowLast(s, u);
      var v :| v in t && Match(c, prefix, v, u);
      LastIsGreatest(t, v);
    }
  }

  lemma KeyBelowLast(s: seq<Entry>, x: Entry)
    requires s != [] && StrictlyInOrder(s) && x in s[..|s| - 1]
    ensures x in s && Less(x.key, s[|s| - 1].key) && x.key != s[|s| - 1].key
  {
    hide Less;
    var i :| 0 <= i < |s| - 1 && s[..|s| - 1][i] == x;
    assert s[i] == x && Less(s[i].key, s[|s| - 1].key);
    LessTotal(x.key, x.key);
  }

  lemma UnmatchedLast(c: Context, prefix: bytes, s: seq<Entry>, t: seq<Entry>)
    requires StrictlyInOrder(s) && StrictlyInOrder(t) && Agree(c, prefix, s, t)
    requires s != [] && (t == [] || s[|s| - 1].key != t[|t| - 1].key)
    ensures CollectEntry(c, s[|s| - 1], prefix) == Some([])
    ensures Agree(c, prefix, s[..|s| - 1], t)
  {
    hide CollectEntry, StrictlyInOrder, Less;
    var s', x := s[..|s| - 1], s[|s| - 1];
    assert x in s;
    forall y | y in t ensures y.key != x.key {
      var last := t[|t| - 1];
      assert last in t;
      LastIsGreatest(t, y);
      var z :| z in s && Match(c, prefix, z, last);
      LastIsGreatest(s, z);
      LessTotal(y.key, last.key);
      LessTotal(x.key, last.key);
    }
    forall y | y in t ensures Covered(c, prefix, y, s') {
      var z :| z in s && Match(c, prefix, z, y);
      LastIsGreatest(s, z);
    }
    forall u | u in s' ensures u in s {
      KeyBelowLast(s, u);
    }
  }

  lemma {:induction false} AgreeInOrder(c: Context, prefix: bytes, s: seq<Entry>, t: seq<Entry>)
    requires StrictlyInOrder(s) && StrictlyInOrder(t) && Agree(c, prefix, s, t)
    ensures CollectInOrder(c, s, prefix) == CollectInOrder(c, t, prefix)
    decreases |s|
  {
    hide CollectEntry, Agree, Less;
    if s == [] {
      NothingFromNothing(c, prefix, t);
    } else if t != [] && s[|s| - 1].key == t[|t| - 1].key {
      MatchedLast(c, prefix, s, t);
      AgreeInOrder(c, prefix, s[..|s| - 1], t[..|t| - 1]);
    } else {
      UnmatchedLast(c, prefix, s, t);
      AgreeInOrder(c, prefix, s[..|s| - 1], t);
      var front := CollectInOrder(c, s[..|s| - 1], prefix);
      assert front.Some? ==> front.value + [] == front.value;
    }
  }

  lemma EmptyWithoutEntries(t: seq<Entry>)
    ensures t == [] <==> forall y :: y !in t
  {
    if t != [] {
      assert t[0] in t;
    }
  }

  lemma NothingFromNothing(c: Context, prefix: bytes, t: seq<Entry>)
    requires Agree(c, prefix, [], t)
    ensures t == []
  {
    hide CollectEntry;
    EmptyWithoutEntries(t);
  }

  lemma AgreeCollect(c: Context, prefix: bytes, s: seq<Entry>, t: seq<Entry>)
    requires DistinctKeys(s) && DistinctKeys(t) && Agree(c, prefix, s, t)
    ensures Collect(c, s, prefix) == Collect(c, t, prefix)
  {
    hide CollectEntry, CollectInOrder, SortByKey, StrictlyInOrder, Match;
    SortStrict(s);
    SortStrict(t);
    forall x ensures x in SortByKey(s) <==> x in s {
      SortElements(s, x);
    }
    forall x ensures x in SortByKey(t) <==> x in t {
      SortElements(t, x);
    }
    AgreeInOrder(c, prefix, SortByKey(s), SortByKey(t));
  }

  //
  // Listing order
  //

  lemma {:induction false} SameEntriesMatch(c: Context, prefix: bytes, x: Entry, y: Entry)
    requires x.key == y.key && SameNode(x.value, y.value)
    requires x.value.Dir? && y.value.Dir? ==> WellNamed(x.value.entries) && WellNamed(y.value.entries)
    ensures Match(c, prefix, x, y)
    decreases Height(x.value), 0
  {
    hide Collect, SameListing, WellNamed;
    if x.value.Dir? && y.value.Dir? {
      ListingOrderIsIrrelevant(c, Join(prefix, x.key), x.value.entries, y.value.entries);
    }
  }

  /** Two listings of one tree, in any order at any depth, give the same files in the same order. */
  lemma {:induction false} ListingOrderIsIrrelevant(c: Context, prefix: bytes, a: seq<Entry>, b: seq<Entry>)
    requires WellNamed(a) && WellNamed(b) && SameListing(a, b)
    ensures Collect(c, a, prefix) == Collect(c, b, prefix)
    decreases ListHeight(a), 1
  {
    hide Collect, CollectEntry, Match, SameNode;
    forall y | y in b ensures Covered(c, prefix, y, a) {
      var j :| 0 <= j < |b| && b[j] == y;
      var i :| 0 <= i < |a| && SameEntry(a, i, b[j]);
      EntryHeight(a, i);
      SameEntriesMatch(c, prefix, a[i], y);
    }
    forall x | x in a ensures Covered(c, prefix, x, b) {
      var i :| 0 <= i < |a| && a[i] == x;
      assert HasTwin(a, i, b);
      var j :| 0 <= j < |b| && SameEntry(a, i, b[j]);
      EntryHeight(a, i);
      SameEntriesMatch(c, prefix, x, b[j]);
      MatchSymmetric(c, prefix, x, b[j]);
    }
    AgreeCollect(c, prefix, a, b);
  }

  lemma MatchSymmetric(c: Context, prefix: bytes, x: Entry, y: Entry)
    requires Match(c, prefix, x, y)
    ensures Match(c, prefix, y, x)
  {
    hide CollectEntry;
  }

  //
  // The snapshot
  //

  function CopyEntry(e: Entry): Option<seq<Entry>>
    decreases Height(e.value), 0
  {
    if e.key in SKIP_NAMES then Some([])
    else match e.value
      case Symlink => None
      case Dir(entries) =>
        var copied := Copy(entries);
        if copied.None? then None else Some([Keyed(e.key, Dir(copied.value))])
      case File(content) => Some([e])
      case Special => Some([])
  }

  /** The snapshot of a listing; nothing when a symbolic link stops the copy. */
  function Copy(es: seq<Entry>): Option<seq<Entry>>
    decreases ListHeight(es), 1, |es|
  {
    if es == [] then Some([])
    else
      EntryHeight(es, |es| - 1);
      var front, last := Copy(es[..|es| - 1]), CopyEntry(es[|es| - 1]);
      if front.None? || last.None? then None else Some(front.value + last.value)
  }

  /** What one entry leaves in the snapshot: at most one entry, of its name and with its files. */
  ghost predicate CopiedAs(c: Context, prefix: bytes, x: Entry, ys: seq<Entry>) {
    && |ys| <= 1
    && (ys == [] ==> CollectEntry(c, x, prefix) == Some([]))
    && (forall y :: y in ys ==> Match(c, prefix, x, y) && (y.value.Dir? ==> WellNamed(y.value.entries)))
  }

  lemma {:induction false} CopiedEntry(c: Context, prefix: bytes, x: Entry)
    requires x.value.Dir? ==> WellNamed(x.value.entries)
    ensures CopyEntry(x).None? <==> CollectEntry(c, x, prefix).None?
    ensures CopyEntry(x).Some? ==> CopiedAs(c, prefix, x, CopyEntry(x).value)
    decreases Height(x.value), 0
  {
    hide Collect, Copy, WellNamed;
    if x.value.Dir? {
      SnapshotPreserves(c, Join(prefix, x.key), x.value.entries);
    }
  }

  lemma LastOrBefore(es: seq<Entry>)
    requires es != []
    ensures forall x :: x in es <==> x in es[..|es| - 1] || x == es[|es| - 1]
  {
    assert es == es[..|es| - 1] + [es[|es| - 1]];
  }

  lemma {:induction false} CopyStops(es: seq<Entry>)
    ensures Copy(es).None? <==> exists x :: x in es && CopyEntry(x).None?
    decreases |es|
  {
    hide CopyEntry;
    if es != [] {
      CopyStops(es[..|es| - 1]);
      LastOrBefore(es);
      var front, last := es[..|es| - 1], es[|es| - 1];
      assert Copy(es).None? <==> Copy(front).None? || CopyEntry(last).None?;
      if Copy(front).None? {
        var x :| x in front && CopyEntry(x).None?;
        assert x in es && CopyEntry(x).None?;
      } else if CopyEntry(last).None? {
        assert last in es && CopyEntry(last).None?;
      }
    }
  }

  lemma {:induction false} WalkStops(c: Context, prefix: bytes, es: seq<Entry>)
    ensures CollectInOrder(c, es, prefix).None? <==> exists x :: x in es && CollectEntry(c, x, prefix).None?
    decreases |es|
  {
    hide CollectEntry;
    if es != [] {
      WalkStops(c, prefix, es[..|es| - 1]);
      LastOrBefore(es);
      var front, last := es[..|es| - 1], es[|es| - 1];
      assert CollectInOrder(c, es, prefix).None? <==>
             CollectInOrder(c, front, prefix).None? || CollectEntry(c, last, prefix).None?;
      if CollectInOrder(c, front, prefix).None? {
        var x :| x in front && CollectEntry(c, x, prefix).None?;
        assert x in es && CollectEntry(c, x, prefix).None?;
      } else if CollectEntry(c, last, prefix).None? {
        assert last in es && CollectEntry(c, last, prefix).None?;
      }
    }
  }

  lemma CollectStops(c: Context, prefix: bytes, es: seq<Entry>)
    ensures Collect(c, es, prefix).None? <==> exists x :: x in es && CollectEntry(c, x, prefix).None?
  {
    hide CollectEntry, CollectInOrder, SortByKey;
    WalkStops(c, prefix, SortByKey(es));
    forall x ensures x in SortByKey(es) <==> x in es {
      SortElements(es, x);
    }
  }

  /** The snapshot's entries are exactly what its source entries leave. */
  lemma {:induction false} CopyMembers(es: seq<Entry>, y: Entry)
    requires Copy(es).Some?
    ensures y in Copy(es).value <==> exists x :: x in es && CopyEntry(x).Some? && y in CopyEntry(x).value
    decreases |es|
  {
    hide CopyEntry;
    if es != [] {
      CopyMembers(es[..|es| - 1], y);
      LastOrBefore(es);
      var front, last := es[..|es| - 1], es[|es| - 1];
      assert y in Copy(es).value <==> y in Copy(front).value || y in CopyEntry(last).value;
      if y in Copy(front).value {
        var x :| x in front && CopyEntry(x).Some? && y in CopyEntry(x).value;
        assert x in es && CopyEntry(x).Some? && y in CopyEntry(x).value;
      } else if y in CopyEntry(last).value {
        assert last in es && CopyEntry(last).Some? && y in CopyEntry(last).value;
      }
    }
  }

  lemma CopyEntryKey(x: Entry)
    requires CopyEntry(x).Some?
    ensures |CopyEntry(x).value| <= 1 && forall y :: y in CopyEntry(x).value ==> y.key == x.key
  {
    hide Copy;
  }

  lemma {:induction false} CopyDistinct(es: seq<Entry>)
    requires Copy(es).Some? && DistinctKeys(es)
    ensures DistinctKeys(Copy(es).value)
    decreases |es|
  {
    hide CopyEntry;
    if es != [] {
      var front, last := es[..|es| - 1], es[|es| - 1];
      CopyDistinct(front);
      CopyEntryKey(last);
      var copied, r := Copy(front).value, Copy(es).value;
      forall i, j | 0 <= i < j < |r| ensures r[i].key != r[j].key {
        if j >= |copied| {
          assert r[j] in CopyEntry(last).value && r[i] in copied;
          CopyMembers(front, r[i]);
          var x :| x in front && CopyEntry(x).Some? && r[i] in CopyEntry(x).value;
          CopyEntryKey(x);
          assert x in front ==> x.key != last.key;
        }
      }
    }
  }

  /** Copying fails exactly when hashing does, and otherwise the snapshot has the same files. */
  lemma {:induction false} SnapshotPreserves(c: Context, prefix: bytes, es: seq<Entry>)
    requires WellNamed(es)
    ensures Copy(es).None? <==> Collect(c, es, prefix).None?
    ensures Copy(es).Some? ==> WellNamed(Copy(es).value) && Collect(c, Copy(es).value, prefix) == Collect(c, es, prefix)
    decreases ListHeight(es), 1
  {
    hide Collect, CollectEntry, Copy, CopyEntry, Match;
    forall x | x in es ensures CopyEntry(x).None? <==> CollectEntry(c, x, prefix).None?
                       ensures CopyEntry(x).Some? ==> CopiedAs(c, prefix, x, CopyEntry(x).value)
    {
      var i :| 0 <= i < |es| && es[i] == x;
      EntryHeight(es, i);
      CopiedEntry(c, prefix, x);
    }
    CopyStops(es);
    CollectStops(c, prefix, es);
    if Copy(es).Some? {
      CopyDistinct(es);
      SnapshotAgrees(c, prefix, es);
      AgreeCollect(c, prefix, es, Copy(es).value);
    }
  }

  lemma SnapshotAgrees(c: Context, prefix: bytes, es: seq<Entry>)
    requires Copy(es).Some? && DistinctKeys(Copy(es).value)
    requires forall x :: x in es ==> CopyEntry(x).Some? && CopiedAs(c, prefix, x, CopyEntry(x).value)
    ensures Agree(c, prefix, es, Copy(es).value) && WellNamed(Copy(es).value)
  {
    hide CollectEntry, Copy, CopyEntry, Match;
    var copy := Copy(es).value;
    forall y | y in copy ensures Covered(c, prefix, y, es) && (y.value.Dir? ==> WellNamed(y.value.entries)) {
      CopyMembers(es, y);
    }
    forall x | x in es && CollectEntry(c, x, prefix) != Some([]) ensures Covered(c, prefix, x, copy) {
      var y := CopyEntry(x).value[0];
      assert y in CopyEntry(x).value;
      CopyMembers(es, y);
      MatchSymmetric(c, prefix, x, y);
    }
  }

  //
  // What is collected
  //

  /** The node found by following `names` down from a listing, none of them excluded. */
  ghost predicate Reaches(es: seq<Entry>, names: seq<bytes>, node: Node)
    decreases |names|
  {
    && names != [] && names[0] !in SKIP_NAMES
    && exists x :: x in es && ReachesFrom(x, names, node)
  }

  ghost predicate ReachesFrom(x: Entry, names: seq<bytes>, node: Node)
    requires names != []
    decreases |names|, 0
  {
    && x.key == names[0]
    && if |names| == 1 then x.value == node else x.value.Dir? && Reaches(x.value.entries, names[1..], node)
  }

  function PathOf(prefix: bytes, names: seq<bytes>): bytes
    decreases |names|
  {
    if names == [] then prefix else PathOf(Join(prefix, names[0]), names[1..])
  }

  function ItemOf(c: Context, prefix: bytes, names: seq<bytes>, content: bytes): Item {
    Keyed(Slashed(c.text(Message(PathOf(prefix, names)))), c.sha384(Message(content)))
  }

  /** Names with a slash between each two. */
  function SlashJoined(names: seq<bytes>): bytes
    requires names != []
  {
    if |names| == 1 then names[0] else SlashJoined(names[..|names| - 1]) + [0x2f] + names[|names| - 1]
  }

  lemma {:induction false} PathLast(prefix: bytes, names: seq<bytes>)
    requires names != []
    ensures PathOf(prefix, names) == Join(PathOf(prefix, names[..|names| - 1]), names[|names| - 1])
    decreases |names|
  {
    hide Join;
    if |names| > 1 {
      PathLast(Join(prefix, names[0]), names[1..]);
      assert names[1..][..|names| - 2] == names[..|names| - 1][1..];
    } else {
      assert names[1..] == [] && names[..0] == [];
    }
  }

  /** The path of a file below the root is its names joined by slashes. */
  lemma {:induction false} PathIsJoined(names: seq<bytes>)
    requires names != [] && names[0] != []
    ensures PathOf([], names) == SlashJoined(names) && SlashJoined(names) != []
    decreases |names|
  {
    PathLast([], names);
    if |names| > 1 {
      PathIsJoined(names[..|names| - 1]);
    } else {
      assert names[..0] == [];
    }
  }

  lemma ItemBelow(c: Context, prefix: bytes, names: seq<bytes>, content: bytes)
    requires names != []
    ensures ItemOf(c, prefix, names, content) == ItemOf(c, Join(prefix, names[0]), names[1..], content)
    ensures |names| == 1 ==>
              ItemOf(c, prefix, names, content) ==
              Keyed(Slashed(c.text(Message(Join(prefix, names[0])))), c.sha384(Message(content)))
  {
    hide Slashed, Join;
  }

  ghost predicate Contributes(c: Context, prefix: bytes, x: Entry, item: Item) {
    CollectEntry(c, x, prefix).Some? && item in CollectEntry(c, x, prefix).value
  }

  lemma {:induction false} InOrderMembers(c: Context, prefix: bytes, es: seq<Entry>, item: Item)
    requires CollectInOrder(c, es, prefix).Some?
    ensures item in CollectInOrder(c, es, prefix).value <==> exists x :: x in es && Contributes(c, prefix, x, item)
    decreases |es|
  {
    hide CollectEntry;
    if es != [] {
      InOrderMembers(c, prefix, es[..|es| - 1], item);
      LastOrBefore(es);
      var front, last := es[..|es| - 1], es[|es| - 1];
      assert item in CollectInOrder(c, es, prefix).value <==>
             item in CollectInOrder(c, front, prefix).value || Contributes(c, prefix, last, item);
      if item in CollectInOrder(c, front, prefix).value {
        var x :| x in front && Contributes(c, prefix, x, item);
        assert x in es && Contributes(c, prefix, x, item);
      } else if Contributes(c, prefix, last, item) {
        assert last in es && Contributes(c, prefix, last, item);
      }
    }
  }

  lemma CollectMembers(c: Context, prefix: bytes, es: seq<Entry>, item: Item)
    requires Collect(c, es, prefix).Some?
    ensures item in Collect(c, es, prefix).value <==> exists x :: x in es && Contributes(c, prefix, x, item)
  {
    hide CollectInOrder, SortByKey, Contributes;
    InOrderMembers(c, prefix, SortByKey(es), item);
    forall x ensures x in SortByKey(es) <==> x in es {
      SortElements(es, x);
    }
  }

  lemma EntryOfListing(es: seq<Entry>, x: Entry)
    requires x in es
    ensures Height(x.value) <= ListHeight(es)
  {
    hide Height, ListHeight;
    var i :| 0 <= i < |es| && es[i] == x;
    EntryHeight(es, i);
  }

  /** Every file that can be reached is collected, under its path and with its hash. */
  lemma {:induction false} ReachedIsCollected(
    c: Context, prefix: bytes, es: seq<Entry>, names: seq<bytes>, content: bytes)
    requires Collect(c, es, prefix).Some? && Reaches(es, names, File(content))
    ensures ItemOf(c, prefix, names, content) in Collect(c, es, prefix).value
    decreases |names|
  {
    hide Collect, ItemOf;
    var item := ItemOf(c, prefix, names, content);
    var x :| x in es && ReachesFrom(x, names, File(content));
    CollectStops(c, prefix, es);
    CollectMembers(c, prefix, es, item);
    ItemBelow(c, prefix, names, content);
    if |names| > 1 {
      ReachedIsCollected(c, Join(prefix, x.key), x.value.entries, names[1..], content);
    }
    assert Contributes(c, prefix, x, item);
  }

  /** Nothing else is collected. */
  lemma {:induction false} CollectedIsReached(c: Context, prefix: bytes, es: seq<Entry>, item: Item)
    returns (names: seq<bytes>, content: bytes)
    requires Collect(c, es, prefix).Some? && item in Collect(c, es, prefix).value
    ensures Reaches(es, names, File(content)) && item == ItemOf(c, prefix, names, content)
    decreases ListHeight(es)
  {
    hide Collect, ItemOf;
    CollectMembers(c, prefix, es, item);
    var x :| x in es && Contributes(c, prefix, x, item);
    EntryOfListing(es, x);
    if x.value.Dir? {
      var below;
      below, content := CollectedIsReached(c, Join(prefix, x.key), x.value.entries, item);
      names := [x.key] + below;
      assert names[1..] == below;
    } else {
      names, content := [x.key], x.value.content;
    }
    ItemBelow(c, prefix, names, content);
    assert ReachesFrom(x, names, File(content));
  }

  /** A symbolic link that can be reached stops the walk. */
  lemma {:induction false} LinkStops(c: Context, prefix: bytes, es: seq<Entry>, names: seq<bytes>)
    requires Reaches(es, names, Symlink)
    ensures Collect(c, es, prefix).None?
    decreases |names|
  {
    hide Collect;
    var x :| x in es && ReachesFrom(x, names, Symlink);
    if |names| > 1 {
      LinkStops(c, Join(prefix, x.key), x.value.entries, names[1..]);
    }
    assert CollectEntry(c, x, prefix).None?;
    CollectStops(c, prefix, es);
  }

  /** Only a symbolic link that can be reached stops the walk. */
  lemma {:induction false} StoppedByLink(c: Context, prefix: bytes, es: seq<Entry>) returns (names: seq<bytes>)
    requires Collect(c, es, prefix).None?
    ensures Reaches(es, names, Symlink)
    decreases ListHeight(es)
  {
    hide Collect;
    CollectStops(c, prefix, es);
    var x :| x in es && CollectEntry(c, x, prefix).None?;
    EntryOfListing(es, x);
    if x.value.Dir? {
      var below := StoppedByLink(c, Join(prefix, x.key), x.value.entries);
      names := [x.key] + below;
      assert names[1..] == below;
    } else {
      names := [x.key];
    }
    assert ReachesFrom(x, names, Symlink);
  }
}
