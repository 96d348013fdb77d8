/** The system-closure identity: a counted Merkle root over length-framed leaves in path order. */
module Closure {
  import opened Bytes
  import opened ByteOrder
  import Utf8

  //
  // Entities
  //

  /** What a path under the root leads to. */
  datatype Node = Regular(mode: nat, content: bytes) | NotRegular

  type FileSystem = map<bytes, Node>

  datatype Limits = Limits(maxFiles: nat, maxFileBytes: nat, maxTotalBytes: nat)

  datatype Entry = Entry(path: bytes, length: nat, mode: nat, contentHash: bytes)

  datatype Manifest = Manifest(files: seq<Entry>, root: bytes)

  datatype ClosureError = FileCount | FileBytes | TotalBytes | InvalidPath(path: bytes) | Io(path: bytes)

  //
  // Paths
  //

  const SLASH: byte := 0x2f
  const DOT: byte := 0x2e

  function SplitOn(b: bytes, v: byte): (parts: seq<bytes>)
    ensures |parts| > 0
  {
    if b == [] then [[]]
    else
      var rest := SplitOn(b[1..], v);
      if b[0] == v then [[]] + rest else [[b[0]] + rest[0]] + rest[1..]
  }

  predicate PathOk(path: bytes) {
    && Utf8.Valid(path)
    && 0 < |path| <= 4096
    && 0 !in path
    && 0x5c !in path
    && forall part :: part in SplitOn(path, SLASH) ==> part != [] && part != [DOT] && part != [DOT, DOT]
  }

  /** Positions `i` to `j` of `b` lie between two separators or ends, with no separator between them. */
  ghost predicate Segment(b: bytes, v: byte, i: nat, j: nat)
    ensures Segment(b, v, i, j) ==> i <= j <= |b|
  {
    i <= j <= |b| && (i == 0 || b[i - 1] == v) && (j == |b| || b[j] == v) && v !in b[i..j]
  }

  ghost predicate LaterSegment(b: bytes, v: byte, part: bytes) {
    exists i: nat, j: nat :: 0 < i && Segment(b, v, i, j) && part == b[i..j]
  }

  /** Segments after a first byte are those of what follows it, one position on. */
  lemma SegmentShift(b: bytes, v: byte, i: nat, j: nat)
    requires b != [] && i <= j < |b|
    ensures Segment(b, v, i + 1, j + 1) <==> Segment(b[1..], v, i, j) && (i == 0 ==> b[0] == v)
    ensures b[i + 1..j + 1] == b[1..][i..j]
  {
    var x, tail := b[i + 1..j + 1], b[1..];
    var y := tail[i..j];
    assert |x| == |y| && forall k :: 0 <= k < |x| ==> x[k] == b[i + 1 + k] == tail[i + k] == y[k];
    assert x == y;
  }

  lemma {:induction false} SplitFirst(b: bytes, v: byte)
    ensures var n := |SplitOn(b, v)[0]|; Segment(b, v, 0, n) && SplitOn(b, v)[0] == b[..n]
    decreases |b|
  {
    if b != [] {
      SplitFirst(b[1..], v);
      var n := |SplitOn(b[1..], v)[0]|;
      if b[0] != v {
        assert b[..n + 1] == [b[0]] + b[1..][..n];
        assert v !in b[1..][..n] && v !in b[..n + 1];
      }
    }
  }

  lemma FirstUnique(b: bytes, v: byte, j: nat)
    requires Segment(b, v, 0, j)
    ensures j == |SplitOn(b, v)[0]|
  {
    hide SplitOn;
    SplitFirst(b, v);
  }

  lemma {:induction false} LaterIsSegment(b: bytes, v: byte, part: bytes)
    requires part in SplitOn(b, v)[1..]
    ensures LaterSegment(b, v, part)
    decreases |b|
  {
    hide Segment;
    var rest, tail := SplitOn(b[1..], v), b[1..];
    assert rest == [rest[0]] + rest[1..];
    if part in rest[1..] {
      LaterIsSegment(tail, v, part);
      var i: nat, j: nat :| 0 < i && Segment(tail, v, i, j) && part == tail[i..j];
      SegmentShift(b, v, i, j);
    } else {
      SplitFirst(tail, v);
      SegmentShift(b, v, 0, |rest[0]|);
    }
  }

  lemma {:induction false} SegmentIsLater(b: bytes, v: byte, i: nat, j: nat)
    requires 0 < i && Segment(b, v, i, j)
    ensures b[i..j] in SplitOn(b, v)[1..]
    decreases |b|
  {
    hide Segment;
    var rest, tail := SplitOn(b[1..], v), b[1..];
    SegmentShift(b, v, i - 1, j - 1);
    if i == 1 {
      FirstUnique(tail, v, j - 1);
      SplitFirst(tail, v);
      assert SplitOn(b, v)[1..] == rest;
    } else {
      SegmentIsLater(tail, v, i - 1, j - 1);
      assert forall x :: x in rest[1..] ==> x in rest;
    }
  }

  /** The parts of a split are exactly the segments between separators. */
  lemma SplitExactly(b: bytes, v: byte, part: bytes)
    ensures part in SplitOn(b, v) <==> exists i: nat, j: nat :: Segment(b, v, i, j) && part == b[i..j]
  {
    hide SplitOn, Segment;
    var parts := SplitOn(b, v);
    SplitFirst(b, v);
    assert parts == [parts[0]] + parts[1..];
    if part in parts[1..] {
      LaterIsSegment(b, v, part);
    } else if part == parts[0] {
      assert Segment(b, v, 0, |parts[0]|) && part == b[0..|parts[0]|];
    }
    if i: nat, j: nat :| Segment(b, v, i, j) && part == b[i..j] {
      if i == 0 {
        FirstUnique(b, v, j);
      } else {
        SegmentIsLater(b, v, i, j);
      }
    }
  }

  /** A valid path: bounded text without NUL or backslash, no segment of which is empty, "." or "..". */
  lemma PathOkExactly(path: bytes)
    ensures PathOk(path) <==>
            && Utf8.Valid(path) && 0 < |path| <= 4096 && 0 !in path && 0x5c !in path
            && forall i: nat, j: nat :: Segment(path, 0x2f, i, j) ==> path[i..j] !in {[], Ascii("."), Ascii("..")}
  {
    hide SplitOn, Segment, Utf8.Valid;
    assert Ascii(".") == [DOT] && Ascii("..") == [DOT, DOT];
    forall part: bytes {
      SplitExactly(path, SLASH, part);
    }
    forall i: nat, j: nat | Segment(path, SLASH, i, j) ensures path[i..j] in SplitOn(path, SLASH) {
      SplitExactly(path, SLASH, path[i..j]);
    }
  }

  /** So a slash is neither first nor last in a valid path, nor next to another. */
  lemma SlashesApart(path: bytes, k: nat)
    requires PathOk(path) && k <= |path|
    ensures !((k == 0 || path[k - 1] == 0x2f) && (k == |path| || path[k] == 0x2f))
  {
    hide PathOk, SplitOn;
    PathOkExactly(path);
    assert path[k..k] == [];
    assert !Segment(path, 0x2f, k, k);
  }

  /** The path set in iteration order. */
  function Names(files: seq<bytes>): seq<bytes> {
    if files == [] then [] else Insert(Names(files[..|files| - 1]), files[|files| - 1])
  }

  ghost predicate NoDuplicates(s: seq<bytes>) {
    forall i, j :: 0 <= i < j < |s| ==> s[i] != s[j]
  }

  lemma {:induction false} NamesSorted(files: seq<bytes>)
    requires NoDuplicates(files)
    ensures Sorted(Names(files)) && |Names(files)| == |files|
    ensures forall x :: x in Names(files) <==> x in files
    decreases |files|
  {
    hide Insert;
    if files != [] {
      var front, last := files[..|files| - 1], files[|files| - 1];
      NamesSorted(front);
      assert files == front + [last];
      assert last !in front;
      InsertSorted(Names(front), last);
      InsertElements(Names(front), last);
      InsertLength(Names(front), last);
    }
  }

  /** The paths come in lexicographic order. */
  lemma NamesLexicographic(files: seq<bytes>, i: nat, j: nat)
    requires NoDuplicates(files) && i < j < |files|
    ensures |Names(files)| == |files| && Before(Names(files)[i], Names(files)[j])
  {
    hide Names, Less;
    NamesSorted(files);
    LessExactly(Names(files)[i], Names(files)[j]);
  }

  lemma InsertLength(s: seq<bytes>, x: bytes)
    ensures |Insert(s, x)| == |s| + 1
  {
  }

  //
  // Hashing
  //

  const LEAF: bytes := Ascii("uq-system-closure-v1\0leaf\0")
  const BRANCH: bytes := Ascii("uq-system-closure-v1\0branch\0")
  const ROOT: bytes := Ascii("uq-system-closure-v1\0root\0")

  function EntryOf(h: Hash48, path: bytes, node: Node): Entry
    requires node.Regular?
  {
    Entry(path, |node.content|, node.mode % 0x1000, h(Message(node.content)))
  }

  /** An entry records the path, the length, the twelve permission bits and the hash of the content. */
  lemma EntryRecords(h: Hash48, fs: FileSystem, names: seq<bytes>, i: nat)
    requires AllRegular(fs, names) && i < |names|
    ensures |Entries(h, fs, names)| == |names|
    ensures var e, node := Entries(h, fs, names)[i], fs[names[i]];
            && e.path == names[i] && e.length == |node.content| && e.contentHash == h(Message(node.content))
            && e.mode < 0x1000 && exists high: nat :: node.mode == 0x1000 * high + e.mode
  {
    hide Entries;
    EntryAt(h, fs, names, i);
    assert fs[names[i]].mode == 0x1000 * (fs[names[i]].mode / 0x1000) + fs[names[i]].mode % 0x1000;
  }

  function LeafInput(e: Entry): bytes {
    LEAF + (Be(|e.path|, 4) + (e.path + (Be(e.mode, 4) + (Be(e.length, 8) + e.contentHash))))
  }

  function Leaves(h: Hash48, es: seq<Entry>): (ls: seq<bytes>)
    ensures |ls| == |es| && forall i :: 0 <= i < |ls| ==> |ls[i]| == 48
  {
    if es == [] then [] else Leaves(h, es[..|es| - 1]) + [h(Message(LeafInput(es[|es| - 1])))]
  }

  /** Hash input for a chunk of one or two nodes. */
  function BranchInput(pair: seq<bytes>): bytes
    requires 1 <= |pair| <= 2
  {
    BRANCH + ([|pair|] + (pair[0] + if |pair| == 2 then pair[1] else []))
  }

  /** The level above `ls`: chunks of two, and of one at an odd end. */
  function Level(h: Hash48, ls: seq<bytes>): (up: seq<bytes>)
    ensures |up| == (|ls| + 1) / 2
    ensures forall i :: 0 <= i < |up| ==> |up[i]| == 48
  {
    if ls == [] then []
    else if |ls| == 1 then [h(Message(BranchInput(ls)))]
    else [h(Message(BranchInput(ls[..2])))] + Level(h, ls[2..])
  }

  function Top(h: Hash48, ls: seq<bytes>): bytes
    requires ls != []
    decreases |ls|
  {
    if |ls| == 1 then ls[0] else Top(h, Level(h, ls))
  }

  function RootInput(count: nat, top: bytes): bytes {
    ROOT + (Be(count, 8) + top)
  }

  function Root(h: Hash48, es: seq<Entry>): bytes
    requires es != []
  {
    h(Message(RootInput(|es|, Top(h, Leaves(h, es)))))
  }

  //
  // Equal roots have equal entries, up to hash collisions
  //

  ghost predicate EntryFits(e: Entry) {
    |e.path| < U32 && e.mode < U32 && e.length < U64 && |e.contentHash| == 48
  }

  ghost predicate EntriesFit(es: seq<Entry>) {
    0 < |es| < U64 && forall i :: 0 <= i < |es| ==> EntryFits(es[i])
  }

  ghost predicate Hashes(ls: seq<bytes>) {
    forall i :: 0 <= i < |ls| ==> |ls[i]| == 48
  }

  ghost function LeafInputs(es: seq<Entry>): set<bytes> {
    set i | 0 <= i < |es| :: LeafInput(es[i])
  }

  ghost function LevelInputs(ls: seq<bytes>): set<bytes> {
    if ls == [] then {} else if |ls| == 1 then {BranchInput(ls)} else {BranchInput(ls[..2])} + LevelInputs(ls[2..])
  }

  ghost function TreeInputs(h: Hash48, ls: seq<bytes>): set<bytes>
    decreases |ls|
  {
    if |ls| <= 1 then {} else LevelInputs(ls) + TreeInputs(h, Level(h, ls))
  }

  /** Every input hashed between the content hashes and the root. */
  ghost function ManifestInputs(h: Hash48, es: seq<Entry>): set<bytes>
    requires es != []
  {
    LeafInputs(es) + TreeInputs(h, Leaves(h, es)) + {RootInput(|es|, Top(h, Leaves(h, es)))}
  }

  lemma BranchInjective(a: seq<bytes>, b: seq<bytes>)
    requires 1 <= |a| == |b| <= 2 && Hashes(a) && Hashes(b) && BranchInput(a) == BranchInput(b)
    ensures a == b
  {
    var x, y := if |a| == 2 then a[1] else [], if |b| == 2 then b[1] else [];
    SplitEqual(BRANCH, [|a|] + (a[0] + x), BRANCH, [|b|] + (b[0] + y));
    SplitEqual([|a|], a[0] + x, [|b|], b[0] + y);
    SplitEqual(a[0], x, b[0], y);
  }

  lemma {:induction false} LevelCommits(h: Hash48, a: seq<bytes>, b: seq<bytes>)
    requires |a| == |b| && Hashes(a) && Hashes(b) && Level(h, a) == Level(h, b)
    ensures a == b || Collide(h, LevelInputs(a), LevelInputs(b))
    decreases |a|
  {
    hide BranchInput;
    if !Collide(h, LevelInputs(a), LevelInputs(b)) {
      if |a| == 1 {
        assert Level(h, a)[0] == Level(h, b)[0];
        BranchInjective(a, b);
      } else if |a| >= 2 {
        var p, q := a[..2], b[..2];
        assert Level(h, a)[0] == Level(h, b)[0] && Level(h, a)[1..] == Level(h, b)[1..];
        assert BranchInput(p) in LevelInputs(a) && BranchInput(q) in LevelInputs(b);
        BranchInjective(p, q);
        LevelCommits(h, a[2..], b[2..]);
        assert a == p + a[2..] && b == q + b[2..];
      }
    }
  }

  lemma {:induction false} TopCommits(h: Hash48, a: seq<bytes>, b: seq<bytes>)
    requires |a| == |b| > 0 && Hashes(a) && Hashes(b) && Top(h, a) == Top(h, b)
    ensures a == b || Collide(h, TreeInputs(h, a), TreeInputs(h, b))
    decreases |a|
  {
    hide Level, LevelInputs;
    if |a| > 1 && !Collide(h, TreeInputs(h, a), TreeInputs(h, b)) {
      TopCommits(h, Level(h, a), Level(h, b));
      LevelCommits(h, a, b);
    }
  }

  lemma LeafInjective(e: Entry, f: Entry)
    requires EntryFits(e) && EntryFits(f) && LeafInput(e) == LeafInput(f)
    ensures e == f
  {
    hide Be;
    PowWidths();
    var e4, f4 := Be(e.length, 8) + e.contentHash, Be(f.length, 8) + f.contentHash;
    var e3, f3 := Be(e.mode, 4) + e4, Be(f.mode, 4) + f4;
    SplitEqual(LEAF, Be(|e.path|, 4) + (e.path + e3), LEAF, Be(|f.path|, 4) + (f.path + f3));
    SplitEqual(Be(|e.path|, 4), e.path + e3, Be(|f.path|, 4), f.path + f3);
    BeInjective(|e.path|, |f.path|, 4);
    SplitEqual(e.path, e3, f.path, f3);
    SplitEqual(Be(e.mode, 4), e4, Be(f.mode, 4), f4);
    BeInjective(e.mode, f.mode, 4);
    SplitEqual(Be(e.length, 8), e.contentHash, Be(f.length, 8), f.contentHash);
    BeInjective(e.length, f.length, 8);
  }

  lemma {:induction false} LeafAt(h: Hash48, es: seq<Entry>, i: nat)
    requires i < |es|
    ensures Leaves(h, es)[i] == h(Message(LeafInput(es[i])))
    decreases |es|
  {
    hide LeafInput;
    if i < |es| - 1 {
      LeafAt(h, es[..|es| - 1], i);
    }
  }

  lemma LeavesCommit(h: Hash48, es: seq<Entry>, fs: seq<Entry>)
    requires |es| == |fs| && EntriesFit(es) && EntriesFit(fs) && Leaves(h, es) == Leaves(h, fs)
    ensures es == fs || Collide(h, LeafInputs(es), LeafInputs(fs))
  {
    hide LeafInput, Leaves;
    if !Collide(h, LeafInputs(es), LeafInputs(fs)) {
      forall i | 0 <= i < |es| ensures es[i] == fs[i] {
        LeafAt(h, es, i);
        LeafAt(h, fs, i);
        assert LeafInput(es[i]) in LeafInputs(es) && LeafInput(fs[i]) in LeafInputs(fs);
        LeafInjective(es[i], fs[i]);
      }
    }
  }

  /** Manifests with equal roots have the same number of files and the same (path, mode, length, content hash) list. */
  lemma RootCommits(h: Hash48, es: seq<Entry>, fs: seq<Entry>)
    requires EntriesFit(es) && EntriesFit(fs) && Root(h, es) == Root(h, fs)
    ensures es == fs || Collide(h, ManifestInputs(h, es), ManifestInputs(h, fs))
  {
    hide Top, Leaves, TreeInputs, LeafInputs, Be;
    if !Collide(h, ManifestInputs(h, es), ManifestInputs(h, fs)) {
      var a, b := Leaves(h, es), Leaves(h, fs);
      assert RootInput(|es|, Top(h, a)) == RootInput(|fs|, Top(h, b));
      SplitEqual(ROOT, Be(|es|, 8) + Top(h, a), ROOT, Be(|fs|, 8) + Top(h, b));
      SplitEqual(Be(|es|, 8), Top(h, a), Be(|fs|, 8), Top(h, b));
      PowWidths();
      BeInjective(|es|, |fs|, 8);
      TopCommits(h, a, b);
      LeavesCommit(h, es, fs);
    }
  }

  //
  // Measuring
  //

  ghost predicate AllRegular(fs: FileSystem, names: seq<bytes>) {
    forall i :: 0 <= i < |names| ==> names[i] in fs && fs[names[i]].Regular?
  }

  function Entries(h: Hash48, fs: FileSystem, names: seq<bytes>): (es: seq<Entry>)
    requires AllRegular(fs, names)
    ensures |es| == |names|
  {
    if names == [] then []
    else Entries(h, fs, names[..|names| - 1]) + [EntryOf(h, names[|names| - 1], fs[names[|names| - 1]])]
  }

  function TotalLength(fs: FileSystem, names: seq<bytes>): nat
    requires AllRegular(fs, names)
  {
    if names == [] then 0 else TotalLength(fs, names[..|names| - 1]) + |fs[names[|names| - 1]].content|
  }

  ghost predicate PathsOk(files: seq<bytes>, limits: Limits) {
    0 < |files| <= limits.maxFiles && NoDuplicates(files) && forall i :: 0 <= i < |files| ==> PathOk(files[i])
  }

  ghost predicate FilesOk(fs: FileSystem, names: seq<bytes>, limits: Limits) {
    && AllRegular(fs, names)
    && (forall i :: 0 <= i < |names| ==> |fs[names[i]].content| <= limits.maxFileBytes)
    && TotalLength(fs, names) <= limits.maxTotalBytes
    && TotalLength(fs, names) < U64
  }

  /** Validates the path list and puts it in order. */
  method OrderPaths(files: seq<bytes>, limits: Limits) returns (r: Result<seq<bytes>, ClosureError>)
    ensures r.Ok? <==> PathsOk(files, limits)
    ensures r.Ok? ==> r.value == Names(files)
  {
    hide PathOk, Insert;
    if files == [] || |files| > limits.maxFiles {
      return Err(FileCount);
    }
    var names: seq<bytes> := [];
    for n := 0 to |files|
      invariant NoDuplicates(files[..n]) && names == Names(files[..n])
      invariant forall i :: 0 <= i < n ==> PathOk(files[i])
    {
      var text := files[n];
      if !PathOk(text) {
        return Err(InvalidPath(text));
      }
      NamesSorted(files[..n]);
      if text in names {
        assert text in files[..n];
        return Err(InvalidPath(text));
      }
      assert files[..n + 1][..n] == files[..n];
      names := Insert(names, text);
    }
    TakeAll(files);
    r := Ok(names);
  }

  lemma FilesOkPrefix(fs: FileSystem, names: seq<bytes>, limits: Limits, n: nat)
    requires FilesOk(fs, names, limits) && n <= |names|
    ensures FilesOk(fs, names[..n], limits)
    decreases |names| - n
  {
    if n < |names| {
      FilesOkPrefix(fs, names, limits, n + 1);
      assert names[..n + 1][..n] == names[..n];
    } else {
      TakeAll(names);
    }
  }

  lemma FilesOkSnoc(fs: FileSystem, names: seq<bytes>, limits: Limits, n: nat)
    requires n < |names| && FilesOk(fs, names[..n], limits)
    ensures FilesOk(fs, names[..n + 1], limits) <==>
            && names[n] in fs && fs[names[n]].Regular?
            && |fs[names[n]].content| <= limits.maxFileBytes
            && TotalLength(fs, names[..n]) + |fs[names[n]].content| <= limits.maxTotalBytes
            && TotalLength(fs, names[..n]) + |fs[names[n]].content| < U64
  {
    assert names[..n + 1][..n] == names[..n] && names[..n + 1][n] == names[n];
    assert forall i :: 0 <= i < n ==> names[..n + 1][i] == names[..n][i];
    if FilesOk(fs, names[..n + 1], limits) {
      assert names[..n + 1][n] in fs;
    }
  }

  /** Reads the files in order and makes their entries and leaves. */
  method MeasureFiles(h: Hash48, fs: FileSystem, names: seq<bytes>, limits: Limits)
    returns (r: Result<(seq<Entry>, seq<bytes>), ClosureError>)
    ensures r.Ok? <==> FilesOk(fs, names, limits)
    ensures r.Ok? ==> r.value.0 == Entries(h, fs, names) && r.value.1 == Leaves(h, r.value.0)
  {
    hide LeafInput, FilesOk;
    var total := 0;
    var entries: seq<Entry>, leaves: seq<bytes> := [], [];
    NoFiles(fs, limits);
    for n := 0 to |names|
      invariant FilesOk(fs, names[..n], limits) && AllRegular(fs, names[..n])
      invariant total == TotalLength(fs, names[..n])
      invariant entries == Entries(h, fs, names[..n]) && leaves == Leaves(h, entries)
    {
      var name := names[n];
      FilesOkSnoc(fs, names, limits, n);
      StopsHere(fs, names, limits, n + 1);
      if name !in fs {
        return Err(Io(name));
      }
      var node := fs[name];
      if !node.Regular? {
        return Err(InvalidPath(name));
      }
      if |node.content| > limits.maxFileBytes {
        return Err(FileBytes);
      }
      if total + |node.content| >= U64 || total + |node.content| > limits.maxTotalBytes {
        return Err(TotalBytes);
      }
      assert names[..n + 1][..n] == names[..n];
      FilesRegular(fs, names[..n + 1], limits);
      total := total + |node.content|;
      var entry := EntryOf(h, name, node);
      assert (entries + [entry])[..|entries|] == entries;
      leaves := leaves + [h(Message(LeafInput(entry)))];
      entries := entries + [entry];
    }
    TakeAll(names);
    r := Ok((entries, leaves));
  }

  lemma NoFiles(fs: FileSystem, limits: Limits)
    ensures FilesOk(fs, [], limits)
  {
  }

  lemma FilesRegular(fs: FileSystem, names: seq<bytes>, limits: Limits)
    requires FilesOk(fs, names, limits)
    ensures AllRegular(fs, names)
  {
  }

  /** A prefix that cannot be measured refuses the whole list. */
  lemma StopsHere(fs: FileSystem, names: seq<bytes>, limits: Limits, n: nat)
    requires n <= |names|
    ensures !FilesOk(fs, names[..n], limits) ==> !FilesOk(fs, names, limits)
  {
    hide FilesOk;
    if FilesOk(fs, names, limits) {
      FilesOkPrefix(fs, names, limits, n);
    }
  }

  /** The closure identity of an explicit file list. */
  method MeasureClosure(h: Hash48, fs: FileSystem, files: seq<bytes>, limits: Limits)
    returns (r: Result<Manifest, ClosureError>)
    ensures r.Ok? <==> PathsOk(files, limits) && FilesOk(fs, Names(files), limits)
    ensures r.Ok? ==> AllRegular(fs, Names(files)) && r.value.files == Entries(h, fs, Names(files))
    ensures r.Ok? ==> r.value.files != [] && r.value.root == Root(h, r.value.files)
  {
    hide FilesOk, Names, Entries, Leaves, Level;
    var names := OrderPaths(files, limits);
    if names.Err? {
      return Err(names.error);
    }
    NamesSorted(files);
    var measured := MeasureFiles(h, fs, names.value, limits);
    if measured.Err? {
      return Err(measured.error);
    }
    FilesRegular(fs, names.value, limits);
    var (entries, leaves) := measured.value;
    ghost var bottom := leaves;
    while |leaves| > 1
      invariant leaves != [] && Top(h, leaves) == Top(h, bottom)
      decreases |leaves|
    {
      leaves := Level(h, leaves);
    }
    r := Ok(Manifest(entries, h(Message(RootInput(|entries|, leaves[0])))));
  }

  //
  // What the identity depends on, and what it commits to
  //

  /** Path lists with the same elements are measured in the same order. */
  lemma OrderOfPathsIsIrrelevant(a: seq<bytes>, b: seq<bytes>)
    requires NoDuplicates(a) && NoDuplicates(b) && forall x :: x in a <==> x in b
    ensures Names(a) == Names(b)
  {
    NamesSorted(a);
    NamesSorted(b);
    SortedUnique(Names(a), Names(b));
  }

  lemma {:induction false} EntryAt(h: Hash48, fs: FileSystem, names: seq<bytes>, i: nat)
    requires AllRegular(fs, names) && i < |names|
    ensures Entries(h, fs, names)[i] == EntryOf(h, names[i], fs[names[i]])
    decreases |names|
  {
    if i < |names| - 1 {
      EntryAt(h, fs, names[..|names| - 1], i);
    }
  }

  lemma {:induction false} LengthBelowTotal(fs: FileSystem, names: seq<bytes>, i: nat)
    requires AllRegular(fs, names) && i < |names|
    ensures |fs[names[i]].content| <= TotalLength(fs, names)
    decreases |names|
  {
    if i < |names| - 1 {
      LengthBelowTotal(fs, names[..|names| - 1], i);
    }
  }

  lemma MeasuredFits(h: Hash48, fs: FileSystem, files: seq<bytes>, limits: Limits)
    requires PathsOk(files, limits) && FilesOk(fs, Names(files), limits) && |files| < U64
    ensures EntriesFit(Entries(h, fs, Names(files)))
  {
    hide Names, Entries, TotalLength;
    NamesSorted(files);
    var names := Names(files);
    forall i | 0 <= i < |names| ensures EntryFits(Entries(h, fs, names)[i]) {
      EntryAt(h, fs, names, i);
      LengthBelowTotal(fs, names, i);
      assert names[i] in files;
    }
  }

  /** Contents hashed for the named files. */
  ghost function Contents(fs: FileSystem, names: seq<bytes>): set<bytes>
    requires AllRegular(fs, names)
  {
    set i | 0 <= i < |names| :: fs[names[i]].content
  }

  /** The two closures name the same files with the same permission bits and the same bytes. */
  ghost predicate SameFiles(fs: FileSystem, names: seq<bytes>, gs: FileSystem, others: seq<bytes>)
    requires AllRegular(fs, names) && AllRegular(gs, others)
  {
    && names == others
    && forall i :: 0 <= i < |names| ==>
         && fs[names[i]].content == gs[names[i]].content
         && fs[names[i]].mode % 0x1000 == gs[names[i]].mode % 0x1000
  }

  /**
   * Two closures with equal roots, each measured under its own limits, are the same files: same paths in the same
   * number, same permission bits, same contents. Otherwise two inputs hashed while measuring them collide.
   */
  lemma ClosureCommits(
    h: Hash48, fs: FileSystem, files: seq<bytes>, limits: Limits, gs: FileSystem, others: seq<bytes>, bounds: Limits)
    requires PathsOk(files, limits) && FilesOk(fs, Names(files), limits) && |files| < U64
    requires PathsOk(others, bounds) && FilesOk(gs, Names(others), bounds) && |others| < U64
    requires Entries(h, fs, Names(files)) != [] && Entries(h, gs, Names(others)) != []
    requires Root(h, Entries(h, fs, Names(files))) == Root(h, Entries(h, gs, Names(others)))
    ensures var es, os := Entries(h, fs, Names(files)), Entries(h, gs, Names(others));
            || SameFiles(fs, Names(files), gs, Names(others))
            || Collide(h, ManifestInputs(h, es), ManifestInputs(h, os))
            || Collide(h, Contents(fs, Names(files)), Contents(gs, Names(others)))
  {
    hide Names, Root, Entries, ManifestInputs, PathOk, TotalLength;
    MeasuredFits(h, fs, files, limits);
    MeasuredFits(h, gs, others, bounds);
    var names, onames := Names(files), Names(others);
    var es, os := Entries(h, fs, names), Entries(h, gs, onames);
    RootCommits(h, es, os);
    if es == os && !Collide(h, Contents(fs, names), Contents(gs, onames)) {
      forall i | 0 <= i < |names|
        ensures names[i] == onames[i] && fs[names[i]].content == gs[names[i]].content
        ensures fs[names[i]].mode % 0x1000 == gs[names[i]].mode % 0x1000
      {
        EntryAt(h, fs, names, i);
        EntryAt(h, gs, onames, i);
        assert fs[names[i]].content in Contents(fs, names) && gs[onames[i]].content in Contents(gs, onames);
      }
    }
  }
}
