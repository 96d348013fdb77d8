/** What Value X commits to. */
module TreeCommitment {
  import opened Bytes
  import opened ByteOrder
  import opened HashLines
  import opened Trees
  import opened Utf8
  import opened ValueX

  function PathText(c: Context, names: seq<bytes>): bytes {
    Slashed(c.text(Message(PathOf([], names))))
  }

  /** No file of the tree has a colon in its path. */
  ghost predicate ColonFree(c: Context, es: seq<Entry>) {
    forall names, content :: Reaches(es, names, File(content)) ==> 0x3a !in PathText(c, names)
  }

  /** The tree has a file of this path and content, or its content and this one collide. */
  ghost predicate HasFile(c: Context, es: seq<Entry>, path: bytes, content: bytes) {
    exists names, other ::
      && Reaches(es, names, File(other)) && PathText(c, names) == path
      && (other == content || Collide(c.sha384, {content}, {other}))
  }

  ghost predicate Includes(c: Context, es: seq<Entry>, fs: seq<Entry>) {
    forall names, content :: Reaches(fs, names, File(content)) ==> HasFile(c, es, PathText(c, names), content)
  }

  function Sorted(c: Context, es: seq<Entry>): seq<Item>
    requires Collect(c, es, []).Some?
  {
    SortByKey(Collect(c, es, []).value)
  }

  lemma SortedReadable(c: Context, es: seq<Entry>)
    requires Collect(c, es, []).Some? && ColonFree(c, es)
    ensures Readable(Sorted(c, es))
  {
    hide Collect, SortByKey, Reaches, PathOf, Slashed;
    var items := Sorted(c, es);
    forall i | 0 <= i < |items| ensures 0x3a !in items[i].key && |items[i].value| == 48 {
      assert items[i] in items;
      SortElements(Collect(c, es, []).value, items[i]);
      var names, content := CollectedIsReached(c, [], es, items[i]);
      assert items[i].key == PathText(c, names);
    }
  }

  lemma SameItemsInclude(c: Context, es: seq<Entry>, fs: seq<Entry>)
    requires Collect(c, es, []).Some? && Collect(c, fs, []).Some? && Sorted(c, es) == Sorted(c, fs)
    ensures Includes(c, es, fs)
  {
    hide Collect, SortByKey, Reaches, PathOf, Slashed;
    forall names, content | Reaches(fs, names, File(content)) ensures HasFile(c, es, PathText(c, names), content) {
      var item := ItemOf(c, [], names, content);
      ReachedIsCollected(c, [], fs, names, content);
      SortElements(Collect(c, fs, []).value, item);
      SortElements(Collect(c, es, []).value, item);
      var found, other := CollectedIsReached(c, [], es, item);
      assert PathText(c, found) == item.key == PathText(c, names);
      assert c.sha384(Message(other)) == c.sha384(Message(content));
    }
  }

  /**
   * Trees with equal Value X, and no colon in a path, have the same files under the same paths, or hashed
   * inputs collide.
   */
  lemma TreeHashCommits(c: Context, a: seq<Entry>, b: seq<Entry>)
    requires TreeHash(c, a).Some? && TreeHash(c, a) == TreeHash(c, b) && ColonFree(c, a) && ColonFree(c, b)
    ensures (Includes(c, a, b) && Includes(c, b, a)) || Collide(c.sha384, {Lines(Sorted(c, a))}, {Lines(Sorted(c, b))})
  {
    hide Collect, SortByKey, Lines, Includes, ColonFree;
    SortedReadable(c, a);
    SortedReadable(c, b);
    if Lines(Sorted(c, a)) == Lines(Sorted(c, b)) {
      LinesInjective(Sorted(c, a), Sorted(c, b));
      SameItemsInclude(c, a, b);
      SameItemsInclude(c, b, a);
    }
  }

  lemma {:induction false} SlashedText(s: bytes)
    requires Valid(s)
    ensures Valid(Slashed(s))
    decreases |s|
  {
    if s != [] {
      var n := FirstLen(s);
      assert FirstLen(Slashed(s)) == n;
      assert Slashed(s)[n..] == Slashed(s[n..]);
      SlashedText(s[n..]);
    }
  }

  lemma SortedText(c: Context, es: seq<Entry>)
    requires Collect(c, es, []).Some?
    ensures TextItems(Sorted(c, es))
  {
    hide Collect, SortByKey, Reaches, PathOf, Slashed, Valid;
    var items := Sorted(c, es);
    forall i | 0 <= i < |items| ensures |items[i].value| == 48 && Valid(items[i].key) {
      assert items[i] in items;
      SortElements(Collect(c, es, []).value, items[i]);
      var names, content := CollectedIsReached(c, [], es, items[i]);
      assert items[i].key == PathText(c, names);
      SlashedText(c.text(Message(PathOf([], names))));
    }
  }

  /**
   * A tree of any size whose own lines are unambiguous shares its Value X with no tree of other files, or hashed
   * inputs collide. Nothing is asked of the other tree.
   */
  lemma DeterminedTreeCommits(c: Context, a: seq<Entry>, b: seq<Entry>)
    requires TreeHash(c, a).Some? && TreeHash(c, a) == TreeHash(c, b) && Unambiguous(Sorted(c, a))
    ensures (Includes(c, a, b) && Includes(c, b, a)) || Collide(c.sha384, {Lines(Sorted(c, a))}, {Lines(Sorted(c, b))})
  {
    hide Collect, SortByKey, Lines, Includes, Unambiguous;
    SortedText(c, a);
    SortedText(c, b);
    if Lines(Sorted(c, a)) == Lines(Sorted(c, b)) {
      UnambiguousDetermines(Sorted(c, a), Sorted(c, b));
      SameItemsInclude(c, a, b);
      SameItemsInclude(c, b, a);
    }
  }

  /** No path of the tree holds a colon, and no digest but the last is text, nor its part before a colon. */
  lemma OwnTreeCommits(c: Context, a: seq<Entry>, b: seq<Entry>)
    requires TreeHash(c, a).Some? && TreeHash(c, a) == TreeHash(c, b) && ColonFree(c, a)
    requires var xs := Sorted(c, a); forall i :: 0 <= i < |xs| - 1 ==> NotText(xs[i].value)
    ensures (Includes(c, a, b) && Includes(c, b, a)) || Collide(c.sha384, {Lines(Sorted(c, a))}, {Lines(Sorted(c, b))})
  {
    hide Collect, SortByKey, Lines, Includes, Unambiguous, NotText, ColonFree;
    SortedText(c, a);
    SortedReadable(c, a);
    NotTextSuffices(Sorted(c, a));
    DeterminedTreeCommits(c, a, b);
  }

  //
  // A colon and a line feed in a name
  //

  lemma SortedPair<T>(x: Keyed<T>, y: Keyed<T>)
    requires Less(x.key, y.key)
    ensures SortByKey([x]) == [x] && SortByKey([x, y]) == [x, y]
  {
    hide Less;
    LessTotal(x.key, y.key);
    assert [x][..0] == [] && [x, y][..1] == [x];
    assert SortByKey([x]) == [x];
    assert After([x], y.key) == 1 + After([x][1..], y.key) && [x][1..] == [];
    assert SortByKey([x, y]) == [x][..1] + [y] + [x][1..];
  }

  lemma SortedSingle<T>(x: Keyed<T>)
    ensures SortByKey([x]) == [x]
  {
    assert [x][..0] == [];
  }

  lemma CollectSingle(c: Context, e: Entry)
    requires CollectEntry(c, e, []).Some?
    ensures Collect(c, [e], []) == CollectEntry(c, e, [])
  {
    hide CollectEntry, SortByKey;
    SortedSingle(e);
    assert [e][..|[e]| - 1] == [];
    assert CollectInOrder(c, [], []) == Some([]);
    assert [] + CollectEntry(c, e, []).value == CollectEntry(c, e, []).value;
  }

  lemma CollectPair(c: Context, x: Entry, y: Entry)
    requires Less(x.key, y.key) && CollectEntry(c, x, []).Some? && CollectEntry(c, y, []).Some?
    ensures Collect(c, [x, y], []) == Some(CollectEntry(c, x, []).value + CollectEntry(c, y, []).value)
  {
    hide CollectEntry, SortByKey, Less;
    SortedPair(x, y);
    CollectSingle(c, x);
    assert [x, y][..1] == [x];
  }

  /** The item of a file at the top of a tree: a name that is text is read as it stands. */
  lemma TopFile(c: Context, name: bytes, content: bytes)
    requires Valid(name) && 0x5c !in name && name !in SKIP_NAMES
    ensures CollectEntry(c, Keyed(name, File(content)), []) == Some([Keyed(name, c.sha384(Message(content)))])
  {
    assert Slashed(name) == name;
  }

  lemma NotSkipped(name: bytes)
    requires |name| == 1 || |name| == 52
    ensures name !in SKIP_NAMES
  {
  }

  /** The name of the one file, and the two trees that hash alike. */
  function LongName(c: Context, p: bytes): bytes {
    Ascii("a") + [0x3a] + c.sha384(Message(p)) + [0x0a] + Ascii("b")
  }

  function OneFile(c: Context, p: bytes, q: bytes): seq<Entry> {
    [Keyed(LongName(c, p), File(q))]
  }

  function TwoFiles(p: bytes, q: bytes): seq<Entry> {
    [Keyed(Ascii("a"), File(p)), Keyed(Ascii("b"), File(q))]
  }

  /**
   * Value X does not determine the files of every tree: where the digest of `p` is text that may stand in a
   * file name, a tree of one file has the Value X of a tree of two, and no inputs collide.
   */
  lemma ColonsAmbiguous(c: Context, p: bytes, q: bytes)
    requires var d := c.sha384(Message(p)); Valid(d) && 0 !in d && 0x2f !in d && 0x5c !in d
    ensures TreeHash(c, OneFile(c, p, q)).Some? && TreeHash(c, OneFile(c, p, q)) == TreeHash(c, TwoFiles(p, q))
    ensures !Includes(c, OneFile(c, p, q), TwoFiles(p, q))
    ensures Lines(Sorted(c, OneFile(c, p, q))) == Lines(Sorted(c, TwoFiles(p, q)))
  {
    hide CollectEntry, Collect, SortByKey, Less, Lines, Includes, Slashed;
    OneFileItems(c, p, q);
    TwoFilesItems(c, p, q);
    var a, b := Keyed(Ascii("a"), c.sha384(Message(p))), Keyed(Ascii("b"), c.sha384(Message(q)));
    assert Merged([a, b]) == [Keyed(LongName(c, p), b.value)];
    MergedLines([a, b]);
    OneFileLacks(c, p, q);
  }

  lemma LettersText()
    ensures Valid(Ascii("a")) && Valid(Ascii("b"))
  {
    AsciiValid(0x61);
    AsciiValid(0x62);
    assert Ascii("a") == [0x61] && Ascii("b") == [0x62];
  }

  lemma LongNameText(c: Context, p: bytes)
    requires Valid(c.sha384(Message(p)))
    ensures Valid(LongName(c, p))
  {
    hide Valid;
    LettersText();
    LineAsText(Keyed(Ascii("a"), c.sha384(Message(p))), Ascii("b"));
  }

  lemma OneFileItems(c: Context, p: bytes, q: bytes)
    requires Valid(c.sha384(Message(p))) && 0x5c !in c.sha384(Message(p))
    ensures Collect(c, OneFile(c, p, q), []) == Some([Keyed(LongName(c, p), c.sha384(Message(q)))])
    ensures Sorted(c, OneFile(c, p, q)) == [Keyed(LongName(c, p), c.sha384(Message(q)))]
  {
    hide CollectEntry, Collect, SortByKey;
    var name := LongName(c, p);
    NotSkipped(name);
    LongNameText(c, p);
    TopFile(c, name, q);
    CollectSingle(c, Keyed(name, File(q)));
    SortedSingle(Keyed(name, c.sha384(Message(q))));
  }

  lemma TwoFilesItems(c: Context, p: bytes, q: bytes)
    ensures var items := [Keyed(Ascii("a"), c.sha384(Message(p))), Keyed(Ascii("b"), c.sha384(Message(q)))];
            Collect(c, TwoFiles(p, q), []) == Some(items) && Sorted(c, TwoFiles(p, q)) == items
  {
    hide CollectEntry, Collect, SortByKey;
    NotSkipped(Ascii("a"));
    NotSkipped(Ascii("b"));
    LettersText();
    TopFile(c, Ascii("a"), p);
    TopFile(c, Ascii("b"), q);
    CollectPair(c, Keyed(Ascii("a"), File(p)), Keyed(Ascii("b"), File(q)));
    var a, b := Keyed(Ascii("a"), c.sha384(Message(p))), Keyed(Ascii("b"), c.sha384(Message(q)));
    assert [a] + [b] == [a, b];
    SortedPair(a, b);
  }

  /** The one file is not at the path of the first of the two. */
  lemma OneFileLacks(c: Context, p: bytes, q: bytes)
    requires Valid(c.sha384(Message(p))) && 0x5c !in c.sha384(Message(p))
    ensures !Includes(c, OneFile(c, p, q), TwoFiles(p, q))
  {
    hide CollectEntry, Collect, SortByKey;
    var one, two, x := OneFile(c, p, q), TwoFiles(p, q), Keyed(Ascii("a"), File(p));
    NotSkipped(Ascii("a"));
    assert x in two && ReachesFrom(x, [Ascii("a")], File(p));
    assert Reaches(two, [Ascii("a")], File(p));
    LettersText();
    TopPath(c, Ascii("a"));
    OneFileItems(c, p, q);
    forall names, other | Reaches(one, names, File(other)) ensures PathText(c, names) != Ascii("a") {
      ReachedIsCollected(c, [], one, names, other);
      assert ItemOf(c, [], names, other).key == PathText(c, names);
      assert |LongName(c, p)| == 52;
    }
  }

  lemma TopPath(c: Context, name: bytes)
    requires Valid(name) && 0x5c !in name
    ensures PathText(c, [name]) == name
  {
    assert [name][1..] == [];
    assert PathOf([], [name]) == PathOf(Join([], name), []);
    assert Slashed(name) == name;
  }
}
