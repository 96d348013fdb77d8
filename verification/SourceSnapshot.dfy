/** The build's ratchet: hash the source, freeze a copy, hash the copy and compare. */
module SourceSnapshot {
  import opened Bytes
  import opened Trees
  import opened ValueX

  lemma WalkStep(c: Context, es: seq<Entry>, prefix: bytes, i: nat)
    requires i < |es| && CollectInOrder(c, es[..i], prefix).Some?
    ensures var e := CollectEntry(c, es[i], prefix);
            CollectInOrder(c, es[..i + 1], prefix) ==
            if e.Some? then Some(CollectInOrder(c, es[..i], prefix).value + e.value) else None
  {
    hide CollectEntry;
    assert es[..i + 1][..i] == es[..i];
  }

  lemma WalkOfNothing(c: Context, es: seq<Entry>, prefix: bytes)
    ensures CollectInOrder(c, es[..0], prefix) == Some([])
  {
  }

  lemma CopyStep(es: seq<Entry>, i: nat)
    requires i < |es| && Copy(es[..i]).Some?
    ensures var e := CopyEntry(es[i]);
            Copy(es[..i + 1]) == if e.Some? then Some(Copy(es[..i]).value + e.value) else None
  {
    hide CopyEntry;
    assert es[..i + 1][..i] == es[..i];
  }

  lemma {:induction false} WalkStopped(c: Context, es: seq<Entry>, prefix: bytes, i: nat)
    requires i <= |es| && CollectInOrder(c, es[..i], prefix).None?
    ensures CollectInOrder(c, es, prefix).None?
    decreases |es| - i
  {
    hide CollectEntry;
    if i < |es| {
      assert es[..i + 1][..i] == es[..i];
      WalkStopped(c, es, prefix, i + 1);
    } else {
      assert es[..i] == es;
    }
  }

  lemma {:induction false} CopyStopped(es: seq<Entry>, i: nat)
    requires i <= |es| && Copy(es[..i]).None?
    ensures Copy(es).None?
    decreases |es| - i
  {
    hide CopyEntry;
    if i < |es| {
      assert es[..i + 1][..i] == es[..i];
      CopyStopped(es, i + 1);
    } else {
      assert es[..i] == es;
    }
  }

  /** Appends to `found` the files of a directory and of the directories below it. */
  method CollectHashes(c: Context, es: seq<Entry>, prefix: bytes, found: seq<Item>) returns (ok: bool, out: seq<Item>)
    ensures ok <==> Collect(c, es, prefix).Some?
    ensures ok ==> out == found + Collect(c, es, prefix).value
    decreases ListHeight(es)
  {
    hide SortByKey, CollectInOrder, ListHeight, Slashed, Join;
    var entries := SortByKey(es);
    SortedHeight(es);
    out := found;
    WalkOfNothing(c, entries, prefix);
    for i := 0 to |entries|
      invariant CollectInOrder(c, entries[..i], prefix).Some?
      invariant out == found + CollectInOrder(c, entries[..i], prefix).value
    {
      var e := entries[i];
      WalkStep(c, entries, prefix, i);
      if e.key in SKIP_NAMES {
        continue;
      }
      match e.value
      case Symlink =>
        WalkStopped(c, entries, prefix, i + 1);
        return false, [];
      case Dir(below) =>
        EntryHeight(entries, i);
        ok, out := CollectHashes(c, below, Join(prefix, e.key), out);
        if !ok {
          WalkStopped(c, entries, prefix, i + 1);
          return;
        }
      case File(content) =>
        out := out + [Keyed(Slashed(c.text(Message(Join(prefix, e.key)))), c.sha384(Message(content)))];
      case Special =>
    }
    assert entries[..|entries|] == entries;
    ok := true;
  }

  /** Value X of a tree, or nothing when it holds a symbolic link. */
  method ComputeTreeHash(c: Context, es: seq<Entry>) returns (r: Option<bytes>)
    ensures r == TreeHash(c, es)
  {
    hide Collect, SortByKey;
    var ok, found := CollectHashes(c, es, [], []);
    if !ok {
      return None;
    }
    assert [] + Collect(c, es, []).value == Collect(c, es, []).value;
    var items := SortByKey(found);
    var stream: bytes := [];
    for i := 0 to |items|
      invariant stream == Lines(items[..i])
    {
      assert items[..i + 1][..i] == items[..i];
      assert stream + items[i].key + [0x3a] + items[i].value + [0x0a] == stream + Line(items[i]);
      stream := stream + items[i].key + [0x3a] + items[i].value + [0x0a];
    }
    assert items[..|items|] == items;
    r := Some(c.sha384(Message(stream)));
  }

  /** Copies a tree entry by entry, in the order the directory lists them. */
  method CopyTree(es: seq<Entry>) returns (r: Option<seq<Entry>>)
    ensures r == Copy(es)
    decreases ListHeight(es)
  {
    var copied: seq<Entry> := [];
    for i := 0 to |es|
      invariant Copy(es[..i]).Some? && copied == Copy(es[..i]).value
    {
      var e := es[i];
      CopyStep(es, i);
      if e.key in SKIP_NAMES {
        continue;
      }
      match e.value
      case Symlink =>
        CopyStopped(es, i + 1);
        return None;
      case Dir(below) =>
        EntryHeight(es, i);
        var inner := CopyTree(below);
        if inner.None? {
          CopyStopped(es, i + 1);
          return None;
        }
        copied := copied + [Keyed(e.key, Dir(inner.value))];
      case File(content) =>
        copied := copied + [e];
      case Special =>
    }
    assert es[..|es|] == es;
    r := Some(copied);
  }

  datatype Frozen = Locked(hash: bytes) | LinkFound | RatchetBroken

  /** Value X does not depend on the order in which directories list their entries, at any depth. */
  lemma TreeHashIgnoresOrder(c: Context, a: seq<Entry>, b: seq<Entry>)
    requires WellNamed(a) && WellNamed(b) && SameListing(a, b)
    ensures TreeHash(c, a) == TreeHash(c, b)
  {
    hide Collect, WellNamed, SameListing;
    ListingOrderIsIrrelevant(c, [], a, b);
  }

  /** The snapshot of a tree, listed in whatever order, has the tree's Value X. */
  lemma SnapshotKeepsTreeHash(c: Context, source: seq<Entry>, frozen: seq<Entry>)
    requires WellNamed(source) && WellNamed(frozen)
    requires Copy(source).Some? && SameListing(Copy(source).value, frozen)
    ensures TreeHash(c, frozen) == TreeHash(c, source) && TreeHash(c, source).Some?
  {
    hide Collect, Copy, WellNamed, SameListing;
    SnapshotPreserves(c, [], source);
    ListingOrderIsIrrelevant(c, [], Copy(source).value, frozen);
  }

  /**
   * The ratchet. `frozen` is the listing the file system gives of the snapshot, in any order. The
   * comparison never fails: the outcome is the source's Value X, or a symbolic link was found.
   */
  method Ratchet(c: Context, source: seq<Entry>, frozen: seq<Entry>) returns (r: Frozen)
    requires WellNamed(source) && WellNamed(frozen)
    requires Copy(source).Some? ==> SameListing(Copy(source).value, frozen)
    ensures r.LinkFound? <==> exists names :: Reaches(source, names, Symlink)
    ensures !r.LinkFound? ==> r.Locked? && TreeHash(c, source) == Some(r.hash)
  {
    hide Collect, Copy, WellNamed, SameListing, Reaches;
    LinksFound(c, source);
    var before := ComputeTreeHash(c, source);
    if before.None? {
      return LinkFound;
    }
    var copied := CopyTree(source);
    SnapshotPreserves(c, [], source);
    if copied.None? {
      return LinkFound;
    }
    var after := ComputeTreeHash(c, frozen);
    SnapshotKeepsTreeHash(c, source, frozen);
    r := if after == before then Locked(before.value) else RatchetBroken;
  }

  lemma LinksFound(c: Context, es: seq<Entry>)
    ensures TreeHash(c, es).None? <==> exists names :: Reaches(es, names, Symlink)
  {
    hide Collect, Reaches;
    if Collect(c, es, []).None? {
      var names := StoppedByLink(c, [], es);
    } else {
      forall names ensures !Reaches(es, names, Symlink) {
        if Reaches(es, names, Symlink) {
          LinkStops(c, [], es, names);
        }
      }
    }
  }
}
