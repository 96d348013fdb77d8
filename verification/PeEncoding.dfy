/** PE headers and section tables written field by field, and what the PE reader makes of them. */
module PeEncoding {
  import opened Bytes
  import opened PeImage

  //
  // Numbers and slices
  //

  lemma NumberAt(b: bytes, at: nat, k: nat, n: nat)
    ensures Number(b, at, k) == Ok(n) <==> n < Pow256(k) && At(b, at, Le(n, k))
  {
    hide FromLe, Le, Pow256;
    if at + k <= |b| {
      LeAt(b, at, k, n);
    }
  }

  /** A field of a slice is a field of the whole. */
  lemma SliceNumber(b: bytes, start: nat, stop: nat, at: nat, k: nat)
    requires start <= stop <= |b| && at + k <= stop - start
    ensures Number(b, start + at, k) == Ok(FromLe(b[start..stop][at..at + k]))
  {
    hide FromLe;
    var slice, field := b[start..stop], b[start + at..start + at + k];
    assert forall i :: 0 <= i < k ==> slice[at..at + k][i] == slice[at + i] == b[start + at + i] == field[i];
    assert slice[at..at + k] == field;
  }

  //
  // Section table
  //

  predicate NameText(name: bytes) {
    && 0 < |name| <= 8 && name[0] != 0x2f
    && forall i :: 0 <= i < |name| ==> 0x21 <= name[i] <= 0x7e
  }

  /** A table entry without its four characteristics bytes. */
  function EncodeEntry(s: Section): bytes
    requires |s.name| <= 8
  {
    s.name + Fill(8 - |s.name|, 0) + Le(s.virtualSize, 4) + Le(s.virtualAddress, 4) + Le(s.rawSize, 4) +
      Le(s.rawOffset, 4) + Fill(12, 0)
  }

  /** The sections a unified kernel image is measured by. */
  const MEASURED_NAMES: set<bytes> :=
    {Ascii(".linux"), Ascii(".osrel"), Ascii(".cmdline"), Ascii(".initrd"), Ascii(".ucode"), Ascii(".splash"),
     Ascii(".dtb"), Ascii(".uname"), Ascii(".sbat"), Ascii(".pcrpkey"), Ascii(".profile"), Ascii(".dtbauto"),
     Ascii(".hwids"), Ascii(".efifw")}

  lemma MeasuredExactly(name: bytes)
    ensures IsMeasured(name) <==> name in MEASURED_NAMES
  {
    hide Ascii;
  }

  /** The section is one the parser admits into an image with this layout. */
  predicate SectionFits(b: bytes, l: Layout, s: Section)
    requires l.sectionAlignment > 0 && l.fileAlignment > 0
  {
    && NameText(s.name)
    && s.virtualAddress < U32 && s.rawSize < U32 && s.rawOffset < U32
    && s.virtualSize <= MAX_UKI_BYTES
    && s.virtualAddress + s.virtualSize <= l.imageSize && s.virtualAddress + s.rawSize <= l.imageSize
    && s.virtualAddress % l.sectionAlignment == 0
    && (if s.rawSize == 0 then s.rawOffset == 0
        else s.rawOffset % l.fileAlignment == 0 && s.rawSize % l.fileAlignment == 0 && s.rawOffset + s.rawSize <= |b|)
    && (s.name in MEASURED_NAMES ==> s.virtualSize > 0)
  }

  lemma {:induction false} NameLenExact(field: bytes, n: nat)
    requires n <= |field|
    ensures NameLen(field) == n <==> (forall i :: 0 <= i < n ==> field[i] != 0) && (n < |field| ==> field[n] == 0)
    decreases |field|
  {
    if field != [] && field[0] != 0 && n > 0 {
      NameLenExact(field[1..], n - 1);
      assert forall i :: 0 < i < |field| ==> field[i] == field[1..][i - 1];
    }
  }

  lemma NameExact(field: bytes, name: bytes)
    requires |field| == 8
    ensures NameOk(field) && field[..NameLen(field)] == name <==> NameText(name) && field == name + Fill(8 - |name|, 0)
  {
    hide NameLen;
    var n := NameLen(field);
    NameLenExact(field, n);
    if NameOk(field) && field[..n] == name {
      assert forall i :: 0 <= i < n ==> name[i] == field[i];
    }
    if NameText(name) && field == name + Fill(8 - |name|, 0) {
      NameLenExact(field, |name|);
      assert field[..|name|] == name;
      assert forall i :: 0 <= i < |name| ==> field[i] == name[i];
    }
  }

  /** The parts of an entry lie where the layout puts them. */
  predicate EntryFields(entry: bytes, s: Section)
    requires |entry| == 40 && |s.name| <= 8
  {
    && entry[..8] == s.name + Fill(8 - |s.name|, 0)
    && entry[8..12] == Le(s.virtualSize, 4) && entry[12..16] == Le(s.virtualAddress, 4)
    && entry[16..20] == Le(s.rawSize, 4) && entry[20..24] == Le(s.rawOffset, 4)
    && entry[24..36] == Fill(12, 0)
  }

  lemma EntryConcat(entry: bytes, s: Section)
    requires |entry| == 40 && |s.name| <= 8
    ensures entry[..36] == EncodeEntry(s) <==> EntryFields(entry, s)
  {
    hide Le, Fill;
    var name, e := s.name + Fill(8 - |s.name|, 0), entry[..36];
    assert e == e[..8] + e[8..12] + e[12..16] + e[16..20] + e[20..24] + e[24..36];
    assert EncodeEntry(s) == name + Le(s.virtualSize, 4) + Le(s.virtualAddress, 4) + Le(s.rawSize, 4) +
           Le(s.rawOffset, 4) + Fill(12, 0);
    SixParts(e, name, Le(s.virtualSize, 4), Le(s.virtualAddress, 4), Le(s.rawSize, 4), Le(s.rawOffset, 4), Fill(12, 0));
    assert e[..8] == entry[..8] && e[8..12] == entry[8..12] && e[12..16] == entry[12..16];
    assert e[16..20] == entry[16..20] && e[20..24] == entry[20..24] && e[24..36] == entry[24..36];
  }

  lemma SixParts(e: bytes, n: bytes, p: bytes, q: bytes, r: bytes, t: bytes, z: bytes)
    requires |e| == 36 && |n| == 8 && |p| == |q| == |r| == |t| == 4 && |z| == 12
    ensures e == n + p + q + r + t + z <==>
            e[..8] == n && e[8..12] == p && e[12..16] == q && e[16..20] == r && e[20..24] == t && e[24..36] == z
  {
    var whole := n + p + q + r + t + z;
    assert whole[..8] == n && whole[8..12] == p && whole[12..16] == q;
    assert whole[16..20] == r && whole[20..24] == t && whole[24..36] == z;
    assert e == e[..8] + e[8..12] + e[12..16] + e[16..20] + e[20..24] + e[24..36];
  }

  lemma WordExact(word: bytes, n: nat)
    requires |word| == 4
    ensures FromLe(word) == n <==> n < U32 && word == Le(n, 4)
  {
    hide FromLe, Le, Pow256;
    PowWidths();
    FromLeRoundTrip(word);
    if n < U32 {
      ReadLe(word, n);
    }
  }

  lemma ZerosExact(b: bytes)
    ensures AllAre(b, 0) <==> b == Fill(|b|, 0)
  {
  }

  /** The entry encodes this admissible section. */
  predicate Describes(b: bytes, l: Layout, entry: bytes, s: Section)
    requires |entry| == 40 && l.sectionAlignment > 0 && l.fileAlignment > 0
  {
    SectionFits(b, l, s) && entry[..36] == EncodeEntry(s)
  }

  /** An entry reads as a section exactly when the section is admissible and the entry is its encoding. */
  lemma EntryExact(b: bytes, l: Layout, entry: bytes, s: Section)
    requires |entry| == 40 && l.sectionAlignment > 0 && l.fileAlignment > 0
    ensures ReadSection(b, l, entry) == Ok(s) <==> Describes(b, l, entry, s)
  {
    hide NameOk, NameLen, IsMeasured, NameText, FromLe, Le, Fill, AllAre, EncodeEntry;
    MeasuredExactly(s.name);
    NameExact(entry[..8], s.name);
    NameShort(s.name);
    assert entry[..8][..NameLen(entry[..8])] == entry[..NameLen(entry[..8])];
    WordExact(entry[8..12], s.virtualSize);
    WordExact(entry[12..16], s.virtualAddress);
    WordExact(entry[16..20], s.rawSize);
    WordExact(entry[20..24], s.rawOffset);
    ZerosExact(entry[24..36]);
    if |s.name| <= 8 {
      EntryConcat(entry, s);
    }
  }

  lemma NameShort(name: bytes)
    ensures NameText(name) ==> |name| <= 8
  {
  }

  lemma {:induction false} SectionsAre(b: bytes, l: Layout, n: nat, ss: seq<Section>)
    requires l.tableStart + l.count * 40 <= |b| && n <= l.count && l.sectionAlignment > 0 && l.fileAlignment > 0
    ensures ReadSections(b, l, n) == Ok(ss) <==>
            |ss| == n && forall i :: 0 <= i < n ==> ReadSection(b, l, EntryAt(b, l, i)) == Ok(ss[i])
    decreases n
  {
    hide ReadSection;
    if n > 0 {
      if ss != [] {
        var front := ss[..|ss| - 1];
        SectionsAre(b, l, n - 1, front);
        assert ss == front + [ss[|ss| - 1]];
      }
      var before := ReadSections(b, l, n - 1);
      if before.Ok? {
        SectionsAre(b, l, n - 1, before.value);
      }
    }
  }

  /**
   * Reading the table gives these sections exactly when entry by entry it holds their encodings and all are
   * admissible.
   */
  lemma TableExact(b: bytes, l: Layout, ss: seq<Section>)
    requires l.tableStart + l.count * 40 <= |b| && l.sectionAlignment > 0 && l.fileAlignment > 0
    ensures ReadSections(b, l, l.count) == Ok(ss) <==>
            |ss| == l.count && forall i :: 0 <= i < |ss| ==> Describes(b, l, EntryAt(b, l, i), ss[i])
  {
    hide ReadSection, Describes, ReadSections;
    SectionsAre(b, l, l.count, ss);
    forall i | 0 <= i < l.count && i < |ss|
      ensures ReadSection(b, l, EntryAt(b, l, i)) == Ok(ss[i]) <==> Describes(b, l, EntryAt(b, l, i), ss[i])
    {
      EntryExact(b, l, EntryAt(b, l, i), ss[i]);
    }
  }

  //
  // Alignments
  //

  function Pow2(k: nat): nat {
    if k == 0 then 1 else 2 * Pow2(k - 1)
  }

  lemma {:induction false} PowersAre(n: nat)
    requires IsPowerOfTwo(n)
    ensures exists k: nat :: Pow2(k) == n
    decreases n
  {
    if n == 1 {
      assert Pow2(0) == 1;
    } else {
      PowersAre(n / 2);
      var k: nat :| Pow2(k) == n / 2;
      assert Pow2(k + 1) == n;
    }
  }

  lemma {:induction false} PowerIs(k: nat)
    ensures Pow2(k) > 0 && IsPowerOfTwo(Pow2(k))
    decreases k
  {
    if k > 0 {
      PowerIs(k - 1);
      assert Pow2(k) / 2 == Pow2(k - 1);
    }
  }

  /** The numbers accepted as powers of two are 1, 2, 4 and so on. */
  lemma PowerOfTwoExactly(n: nat)
    ensures IsPowerOfTwo(n) <==> exists k: nat :: Pow2(k) == n
  {
    hide IsPowerOfTwo, Pow2;
    if IsPowerOfTwo(n) {
      PowersAre(n);
    }
    forall k: nat | Pow2(k) == n ensures IsPowerOfTwo(n) {
      PowerIs(k);
    }
  }

  lemma SmallPowers()
    ensures Pow2(9) == 512 && Pow2(10) == 1024 && Pow2(11) == 2048 && Pow2(12) == 4096
    ensures Pow2(13) == 8192 && Pow2(14) == 16_384 && Pow2(15) == 32_768 && Pow2(16) == 65_536
  {
    assert Pow2(8) == 256 by {
      assert Pow2(4) == 16;
      assert Pow2(6) == 64;
    }
    assert Pow2(10) == 1024;
    assert Pow2(12) == 4096;
    assert Pow2(14) == 16_384;
  }

  lemma {:induction false} PowerOrder(i: nat, j: nat)
    ensures i <= j <==> Pow2(i) <= Pow2(j)
    decreases i + j
  {
    PowerIs(i);
    PowerIs(j);
    if i > 0 && j > 0 {
      PowerOrder(i - 1, j - 1);
    }
  }

  /** A file alignment of 2^9 to 2^16 and a section alignment no less, equal to it below 2^12. */
  ghost predicate AlignmentIs(section: nat, file: nat) {
    exists i: nat, j: nat :: Pow2(i) == file && Pow2(j) == section && 9 <= i <= 16 && i <= j && (j < 12 ==> i == j)
  }

  lemma AlignmentPowers(i: nat, j: nat)
    ensures AlignmentOk(Pow2(j), Pow2(i)) <==> 9 <= i <= 16 && i <= j && (j < 12 ==> i == j)
  {
    hide IsPowerOfTwo, Pow2;
    PowerIs(i);
    PowerIs(j);
    SmallPowers();
    PowerOrder(9, i);
    PowerOrder(i, 16);
    PowerOrder(i, j);
    PowerOrder(j, i);
    PowerOrder(12, j);
  }

  lemma AlignmentPositive(section: nat, file: nat)
    ensures AlignmentOk(section, file) ==> section > 0 && file > 0
  {
  }

  lemma AlignmentExactly(section: nat, file: nat)
    ensures AlignmentOk(section, file) <==> AlignmentIs(section, file)
  {
    hide IsPowerOfTwo, Pow2;
    PowerOfTwoExactly(section);
    PowerOfTwoExactly(file);
    if IsPowerOfTwo(section) && IsPowerOfTwo(file) {
      var i: nat :| Pow2(i) == file;
      var j: nat :| Pow2(j) == section;
      AlignmentPowers(i, j);
    }
    forall i: nat, j: nat
      | Pow2(i) == file && Pow2(j) == section && 9 <= i <= 16 && i <= j && (j < 12 ==> i == j)
      ensures AlignmentOk(section, file)
    {
      AlignmentPowers(i, j);
    }
  }

  //
  // Headers
  //

  /** DOS and COFF headers with the PE header at `pe`. */
  ghost predicate CoffAt(b: bytes, pe: nat, count: nat, optionalHeader: bytes) {
    && At(b, 0, Ascii("MZ")) && 64 <= pe < U32 && At(b, 0x3c, Le(pe, 4))
    && At(b, pe, Ascii("PE") + [0, 0])
    && 0 < count <= MAX_SECTIONS && At(b, pe + 6, Le(count, 2))
    && |optionalHeader| < 0x1_0000 && At(b, pe + 20, Le(|optionalHeader|, 2))
    && StandaloneExecutable(b, pe)
    && At(b, pe + 24, optionalHeader)
  }

  /** The characteristics word has the executable bit and not the library bit. */
  ghost predicate StandaloneExecutable(b: bytes, pe: nat) {
    exists flags ::
      flags < 0x1_0000 && At(b, pe + 22, Le(flags, 2)) && (flags / 2) % 2 == 1 && (flags / 0x2000) % 2 == 0
  }

  ghost predicate DirectoriesAt(o: bytes, offset: nat, count: nat) {
    && ((offset == 96 && At(o, 0, Le(0x10b, 2))) || (offset == 112 && At(o, 0, Le(0x20b, 2))))
    && At(o, 68, Le(10, 2))
    && count <= 16 && At(o, offset - 4, Le(count, 4)) && offset + count * 8 <= |o|
  }

  /** Every header field that the layout names, at its place. */
  ghost predicate LayoutAt(b: bytes, pe: nat, l: Layout) {
    && |b| <= MAX_UKI_BYTES
    && CoffAt(b, pe, l.count, l.optionalHeader) && DirectoriesAt(l.optionalHeader, l.directoryOffset, l.directoryCount)
    && l.sectionAlignment < U32 && At(l.optionalHeader, 32, Le(l.sectionAlignment, 4))
    && l.fileAlignment < U32 && At(l.optionalHeader, 36, Le(l.fileAlignment, 4))
    && AlignmentIs(l.sectionAlignment, l.fileAlignment) && l.sectionAlignment > 0 && l.fileAlignment > 0
    && 0 < l.imageSize <= MAX_UKI_BYTES && At(l.optionalHeader, 56, Le(l.imageSize, 4))
    && l.imageSize % l.sectionAlignment == 0
    && 0 < l.headersSize <= |b| && l.headersSize <= l.imageSize && At(l.optionalHeader, 60, Le(l.headersSize, 4))
    && l.headersSize % l.fileAlignment == 0
    && l.tableStart == pe + 24 + |l.optionalHeader| && l.tableStart + l.count * 40 <= l.headersSize
  }

  lemma Literals()
    ensures Ascii("MZ") == [0x4d, 0x5a] && Ascii("PE") + [0, 0] == [0x50, 0x45, 0, 0]
  {
  }

  /** The six facts about the COFF header, as the reader finds them. */
  lemma CoffFields(b: bytes, pe: nat, count: nat, length: nat)
    requires pe + 24 <= |b|
    ensures var header := b[pe..pe + 24];
            && (At(b, pe, Ascii("PE") + [0, 0]) <==> header[..4] == [0x50, 0x45, 0, 0])
            && (count < 0x1_0000 && At(b, pe + 6, Le(count, 2)) <==> FromLe(header[6..8]) == count)
            && (length < 0x1_0000 && At(b, pe + 20, Le(length, 2)) <==> FromLe(header[20..22]) == length)
            && (StandaloneExecutable(b, pe) <==>
                (FromLe(header[22..24]) / 2) % 2 == 1 && (FromLe(header[22..24]) / 0x2000) % 2 == 0)
  {
    hide FromLe, Le, Pow256, Ascii;
    PowWidths();
    Literals();
    assert b[pe..pe + 4] == b[pe..pe + 24][..4];
    SliceNumber(b, pe, pe + 24, 6, 2);
    NumberAt(b, pe + 6, 2, count);
    SliceNumber(b, pe, pe + 24, 20, 2);
    NumberAt(b, pe + 20, 2, length);
    SliceNumber(b, pe, pe + 24, 22, 2);
    NumberAt(b, pe + 22, 2, FromLe(b[pe..pe + 24][22..24]));
    forall flags: nat {
      NumberAt(b, pe + 22, 2, flags);
    }
  }

  lemma CoffExact(b: bytes, pe: nat, count: nat, optionalHeader: bytes)
    ensures ReadCoff(b) == Ok((pe, count, optionalHeader)) <==> CoffAt(b, pe, count, optionalHeader)
  {
    hide FromLe, Le, Pow256, Ascii, StandaloneExecutable;
    PowWidths();
    Literals();
    NumberAt(b, 0x3c, 4, pe);
    if pe + 24 <= |b| {
      CoffFields(b, pe, count, |optionalHeader|);
    }
  }

  lemma DirectoriesExact(o: bytes, offset: nat, count: nat)
    ensures ReadDirectories(o) == Ok((offset, count)) <==> DirectoriesAt(o, offset, count)
  {
    hide FromLe, Le, Pow256, Number, At;
    PowWidths();
    NumberAt(o, 0, 2, 0x10b);
    NumberAt(o, 0, 2, 0x20b);
    NumberAt(o, 68, 2, 10);
    NumberAt(o, 92, 4, count);
    NumberAt(o, 108, 4, count);
  }

  lemma WordAt(o: bytes, at: nat, n: nat)
    requires at + 4 <= |o|
    ensures FromLe(o[at..at + 4]) == n <==> n < U32 && At(o, at, Le(n, 4))
  {
    hide FromLe, Le;
    WordExact(o[at..at + 4], n);
  }

  /** The headers read as a layout exactly when every field it names is where the format puts it. */
  lemma LayoutExact(b: bytes, l: Layout)
    ensures ReadLayout(b) == Ok(l) <==> exists pe :: LayoutAt(b, pe, l)
  {
    hide ReadCoff, ReadDirectories, CoffAt, DirectoriesAt, FromLe, Le, At, AlignmentOk, AlignmentIs;
    if ReadLayout(b) == Ok(l) {
      var pe := ReadCoff(b).value.0;
      LayoutAtExact(b, pe, l);
    }
    forall pe | LayoutAt(b, pe, l) ensures ReadLayout(b) == Ok(l) {
      LayoutAtExact(b, pe, l);
    }
  }

  lemma LayoutAtExact(b: bytes, pe: nat, l: Layout)
    ensures LayoutAt(b, pe, l) <==> ReadLayout(b) == Ok(l) && ReadCoff(b).value.0 == pe
  {
    hide ReadCoff, ReadDirectories, CoffAt, DirectoriesAt, FromLe, Le, At, AlignmentOk, AlignmentIs;
    var o := l.optionalHeader;
    AlignmentExactly(l.sectionAlignment, l.fileAlignment);
    AlignmentPositive(l.sectionAlignment, l.fileAlignment);
    CoffExact(b, pe, l.count, o);
    DirectoriesExact(o, l.directoryOffset, l.directoryCount);
    if ReadDirectories(o) == Ok((l.directoryOffset, l.directoryCount)) {
      WordAt(o, 32, l.sectionAlignment);
      WordAt(o, 36, l.fileAlignment);
      WordAt(o, 56, l.imageSize);
      WordAt(o, 60, l.headersSize);
    }
  }

  //
  // Certificate directory and whole images
  //

  /** The fifth data directory gives this file range; all zero, or no such directory, gives none. */
  ghost predicate CertificateAt(b: bytes, l: Layout, c: Option<Range>)
    requires l.directoryOffset + l.directoryCount * 8 <= |l.optionalHeader|
  {
    if l.directoryCount <= 4 then c.None?
    else
      var at := l.directoryOffset + 32;
      if c.None? then At(l.optionalHeader, at, Le(0, 4)) && At(l.optionalHeader, at + 4, Le(0, 4))
      else
        && 0 < c.value.start < U32 && c.value.start % 8 == 0 && At(l.optionalHeader, at, Le(c.value.start, 4))
        && c.value.start < c.value.stop <= |b|
        && c.value.stop - c.value.start < U32 && At(l.optionalHeader, at + 4, Le(c.value.stop - c.value.start, 4))
  }

  lemma CertificateExact(b: bytes, l: Layout, c: Option<Range>)
    requires l.directoryOffset + l.directoryCount * 8 <= |l.optionalHeader|
    ensures Certificate(b, l) == Ok(c) <==> CertificateAt(b, l, c)
  {
    hide FromLe, Le, At;
    if l.directoryCount > 4 {
      var o, at := l.optionalHeader, l.directoryOffset + 32;
      WordAt(o, at, 0);
      WordAt(o, at + 4, 0);
      if c.Some? && c.value.start < c.value.stop {
        WordAt(o, at, c.value.start);
        WordAt(o, at + 4, c.value.stop - c.value.start);
      }
    }
  }

  /** The image written out: headers, one admissible section per table entry, certificate table, no overlap. */
  ghost predicate IsImage(b: bytes, requireKernel: bool, pe: nat, l: Layout, ss: seq<Section>, c: Option<Range>) {
    && LayoutAt(b, pe, l) && l.tableStart + l.count * 40 <= |b| && l.sectionAlignment > 0 && l.fileAlignment > 0
    && l.directoryOffset + l.directoryCount * 8 <= |l.optionalHeader|
    && |ss| == l.count && (forall i :: 0 <= i < |ss| ==> Describes(b, l, EntryAt(b, l, i), ss[i]))
    && CertificateAt(b, l, c)
    && Separate(ss, false, l.headersSize) && Separate(ss, true, l.headersSize)
    && CertificateSeparate(ss, c, l.headersSize)
    && (requireKernel ==> exists s :: s in ss && s.name == Ascii(".linux"))
  }

  lemma KernelExactly(ss: seq<Section>)
    ensures HasKernel(ss) <==> exists s :: s in ss && s.name == Ascii(".linux")
  {
    hide Ascii;
    if i :| 0 <= i < |ss| && ss[i].name == LINUX {
      assert ss[i] in ss;
    }
  }

  /** Parsing accepts exactly the byte strings that are such an image. */
  lemma ImageExact(b: bytes, requireKernel: bool)
    ensures ImageOk(b, requireKernel) <==> exists pe, l, ss, c :: IsImage(b, requireKernel, pe, l, ss, c)
  {
    hide ReadLayout, LayoutAt, ReadSections, Describes, EntryAt, Certificate, CertificateAt, NoOverlap, HasKernel,
         Separate, CertificateSeparate;
    if ImageOk(b, requireKernel) {
      var l := ReadLayout(b).value;
      LayoutExact(b, l);
      var pe :| LayoutAt(b, pe, l);
      TableExact(b, l, ReadSections(b, l, l.count).value);
      CertificateExact(b, l, Certificate(b, l).value);
      NoOverlapExactly(l, ReadSections(b, l, l.count).value, Certificate(b, l).value);
      KernelExactly(ReadSections(b, l, l.count).value);
      assert IsImage(b, requireKernel, pe, l, ReadSections(b, l, l.count).value, Certificate(b, l).value);
    }
    forall pe, l, ss, c | IsImage(b, requireKernel, pe, l, ss, c) ensures ImageOk(b, requireKernel) {
      LayoutExact(b, l);
      TableExact(b, l, ss);
      CertificateExact(b, l, c);
      NoOverlapExactly(l, ss, c);
      KernelExactly(ss);
    }
  }
}
