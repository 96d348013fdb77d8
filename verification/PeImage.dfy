/** Bounded PE32/PE32+ geometry for unified kernel images, and the digests of loaded sections. */
module PeImage {
  import opened Bytes
  import opened EventReplay

  const MAX_UKI_BYTES: nat := 512 * 1024 * 1024
  const MAX_SECTIONS: nat := 96

  datatype PeError =
    | TooLarge
    | TruncatedField
    | NoDosHeader
    | BadPeHeader
    | SectionCount
    | NotExecutable
    | BadOptionalHeader
    | NotEfi
    | DirectoryCount
    | BadAlignment
    | BadSizes
    | TableOutsideHeaders
    | BadName
    | BadVirtualRange
    | UnalignedRaw
    | RawOffsetWithoutData
    | EmptyMeasured
    | CoffMetadata
    | BadCertificate
    | Overlap
    | NoKernel
    | UnsupportedBank

  type Pe<+T> = Result<T, PeError>

  datatype Section = Section(name: bytes, virtualSize: nat, virtualAddress: nat, rawOffset: nat, rawSize: nat) {
    function Extent(): nat {
      if virtualSize > rawSize then virtualSize else rawSize
    }
  }

  datatype Uki = Uki(bytes: bytes, sections: seq<Section>)

  /** The header fields that govern section geometry. */
  datatype Layout = Layout(
    count: nat, optionalHeader: bytes, directoryOffset: nat, directoryCount: nat,
    sectionAlignment: nat, fileAlignment: nat, imageSize: nat, headersSize: nat, tableStart: nat)

  //
  // Fields
  //

  function Field(b: bytes, at: nat, n: nat): (r: Pe<bytes>)
    ensures r.Ok? <==> at + n <= |b|
    ensures r.Ok? ==> |r.value| == n
  {
    if at + n <= |b| then Ok(b[at..at + n]) else Err(TruncatedField)
  }

  function Number(b: bytes, at: nat, n: nat): (r: Pe<nat>)
    ensures r.Ok? <==> at + n <= |b|
  {
    var f :- Field(b, at, n);
    Ok(FromLe(f))
  }

  predicate IsPowerOfTwo(n: nat) {
    n == 1 || (n > 1 && n % 2 == 0 && IsPowerOfTwo(n / 2))
  }

  predicate AlignmentOk(section: nat, file: nat) {
    && IsPowerOfTwo(section) && IsPowerOfTwo(file)
    && section >= file
    && 512 <= file <= 65_536
    && (section < 4096 ==> section == file)
  }

  //
  // Headers
  //

  /** DOS and COFF headers: where the PE header is, the section count and the optional header. */
  function ReadCoff(b: bytes): (r: Pe<(nat, nat, bytes)>)
    ensures r.Ok? ==> r.value.0 + 24 + |r.value.2| <= |b| && 0 < r.value.1 <= MAX_SECTIONS
  {
    var dos :- Field(b, 0, 2);
    if dos != [0x4d, 0x5a] then Err(NoDosHeader) else
    var pe :- Number(b, 0x3c, 4);
    if pe < 64 then Err(BadPeHeader) else
    var header :- Field(b, pe, 24);
    if header[..4] != [0x50, 0x45, 0, 0] then Err(BadPeHeader) else
    var count := FromLe(header[6..8]);
    if count == 0 || count > MAX_SECTIONS then Err(SectionCount) else
    var characteristics := FromLe(header[22..24]);
    if (characteristics / 2) % 2 == 0 || (characteristics / 0x2000) % 2 == 1 then Err(NotExecutable) else
    var optionalLen := FromLe(header[20..22]);
    var optionalHeader :- Field(b, pe + 24, optionalLen);
    Ok((pe, count, optionalHeader))
  }

  /** Offset and number of the data directories. */
  function ReadDirectories(optionalHeader: bytes): (r: Pe<(nat, nat)>)
    ensures r.Ok? ==> (r.value.0 == 96 || r.value.0 == 112) && r.value.1 <= 16
    ensures r.Ok? ==> r.value.0 + r.value.1 * 8 <= |optionalHeader|
  {
    var magic :- Number(optionalHeader, 0, 2);
    if magic != 0x10b && magic != 0x20b then Err(BadOptionalHeader) else
    var offset := if magic == 0x10b then 96 else 112;
    var subsystem :- Number(optionalHeader, 68, 2);
    if subsystem != 10 then Err(NotEfi) else
    var count :- Number(optionalHeader, offset - 4, 4);
    if count > 16 then Err(DirectoryCount) else
    var _ :- Field(optionalHeader, offset, count * 8);
    Ok((offset, count))
  }

  function ReadLayout(b: bytes): (r: Pe<Layout>)
    ensures r.Ok? ==>
              && 0 < r.value.count <= MAX_SECTIONS
              && r.value.tableStart + r.value.count * 40 <= r.value.headersSize <= |b|
              && r.value.headersSize <= r.value.imageSize
              && r.value.fileAlignment > 0 && r.value.sectionAlignment > 0
              && r.value.directoryOffset + r.value.directoryCount * 8 <= |r.value.optionalHeader|
  {
    if |b| > MAX_UKI_BYTES then Err(TooLarge) else
    var (pe, count, optionalHeader) :- ReadCoff(b);
    var (offset, directories) :- ReadDirectories(optionalHeader);
    var sectionAlignment := FromLe(optionalHeader[32..36]);
    var fileAlignment := FromLe(optionalHeader[36..40]);
    if !AlignmentOk(sectionAlignment, fileAlignment) then Err(BadAlignment) else
    var imageSize := FromLe(optionalHeader[56..60]);
    var headersSize := FromLe(optionalHeader[60..64]);
    if || imageSize == 0 || imageSize > MAX_UKI_BYTES || imageSize % sectionAlignment != 0
       || headersSize == 0 || headersSize > |b| || headersSize > imageSize || headersSize % fileAlignment != 0
    then Err(BadSizes) else
    var tableStart := pe + 24 + |optionalHeader|;
    var _ :- Field(b, tableStart, count * 40);
    if tableStart + count * 40 > headersSize then Err(TableOutsideHeaders)
    else
      Ok(Layout(
        count, optionalHeader, offset, directories,
        sectionAlignment, fileAlignment, imageSize, headersSize, tableStart))
  }

  //
  // Sections
  //

  /** ".linux" */
  const LINUX: bytes := Ascii(".linux")

  predicate IsMeasured(name: bytes) {
    || name == LINUX || name == Ascii(".osrel") || name == Ascii(".cmdline") || name == Ascii(".initrd")
    || name == Ascii(".ucode") || name == Ascii(".splash") || name == Ascii(".dtb") || name == Ascii(".uname")
    || name == Ascii(".sbat") || name == Ascii(".pcrpkey") || name == Ascii(".profile") || name == Ascii(".dtbauto")
    || name == Ascii(".hwids") || name == Ascii(".efifw")
  }

  /** Length of the zero-terminated name in an 8-byte field. */
  function NameLen(field: bytes): (n: nat)
    ensures n <= |field|
  {
    if field == [] || field[0] == 0 then 0 else 1 + NameLen(field[1..])
  }

  predicate NameOk(field: bytes) {
    var n := NameLen(field);
    && n > 0 && field[0] != 0x2f
    && (forall i :: 0 <= i < n ==> 0x21 <= field[i] <= 0x7e)
    && (forall i :: n <= i < |field| ==> field[i] == 0)
  }

  /** One entry of the section table, with every check that concerns it alone. */
  function ReadSection(b: bytes, l: Layout, entry: bytes): Pe<Section>
    requires |entry| == 40 && l.sectionAlignment > 0 && l.fileAlignment > 0
  {
    if !NameOk(entry[..8]) then Err(BadName) else
    var name := entry[..NameLen(entry[..8])];
    var s := Section(name, FromLe(entry[8..12]), FromLe(entry[12..16]), FromLe(entry[20..24]), FromLe(entry[16..20]));
    if || s.virtualSize > MAX_UKI_BYTES || s.Extent() > l.imageSize
       || s.virtualAddress % l.sectionAlignment != 0 || s.virtualAddress + s.Extent() > l.imageSize
    then Err(BadVirtualRange)
    else if s.rawSize > 0 && (s.rawOffset % l.fileAlignment != 0 || s.rawSize % l.fileAlignment != 0)
    then Err(UnalignedRaw)
    else if s.rawSize > 0 && s.rawOffset + s.rawSize > |b| then Err(TruncatedField)
    else if s.rawSize == 0 && s.rawOffset != 0 then Err(RawOffsetWithoutData)
    else if IsMeasured(name) && s.virtualSize == 0 then Err(EmptyMeasured)
    else if !AllAre(entry[24..36], 0) then Err(CoffMetadata)
    else Ok(s)
  }

  /** What a table entry guarantees about its section. */
  predicate SectionOk(b: bytes, l: Layout, s: Section) {
    && s.virtualAddress + s.Extent() <= l.imageSize
    && (if s.rawSize > 0 then s.rawOffset + s.rawSize <= |b| else s.rawOffset == 0)
  }

  lemma ReadSectionOk(b: bytes, l: Layout, entry: bytes)
    requires |entry| == 40 && l.sectionAlignment > 0 && l.fileAlignment > 0 && ReadSection(b, l, entry).Ok?
    ensures SectionOk(b, l, ReadSection(b, l, entry).value)
  {
    hide NameOk, NameLen, IsMeasured, FromLe, AllAre;
  }

  function EntryAt(b: bytes, l: Layout, i: nat): bytes
    requires l.tableStart + l.count * 40 <= |b| && i < l.count
  {
    b[l.tableStart + i * 40..l.tableStart + i * 40 + 40]
  }

  //
  // Ranges
  //

  datatype Range = Range(start: nat, stop: nat)

  predicate Apart(a: Range, b: Range) {
    a.stop <= b.start || b.stop <= a.start
  }

  ghost predicate AllApart(rs: seq<Range>) {
    forall i, j :: 0 <= i < j < |rs| ==> Apart(rs[i], rs[j])
  }

  ghost predicate AllFrom(rs: seq<Range>, floor: nat) {
    forall r :: r in rs ==> floor <= r.start
  }

  ghost predicate AllNonempty(rs: seq<Range>) {
    forall r :: r in rs ==> r.start < r.stop
  }

  predicate AtMost(a: Range, b: Range) {
    a.start < b.start || (a.start == b.start && a.stop <= b.stop)
  }

  ghost predicate Ordered(rs: seq<Range>) {
    forall i, j :: 0 <= i < j < |rs| ==> AtMost(rs[i], rs[j])
  }

  function Place(rs: seq<Range>, r: Range): (i: nat)
    ensures i <= |rs|
    ensures forall k :: 0 <= k < i ==> AtMost(rs[k], r)
    ensures i < |rs| ==> !AtMost(rs[i], r)
  {
    if rs == [] || !AtMost(rs[0], r) then 0
    else
      var i := Place(rs[1..], r);
      assert forall k :: 0 < k < i + 1 ==> rs[k] == rs[1..][k - 1];
      1 + i
  }

  function InsertRange(rs: seq<Range>, r: Range): seq<Range> {
    rs[..Place(rs, r)] + [r] + rs[Place(rs, r)..]
  }

  function SortRanges(rs: seq<Range>): seq<Range> {
    if rs == [] then [] else InsertRange(SortRanges(rs[..|rs| - 1]), rs[|rs| - 1])
  }

  lemma InsertOrdered(rs: seq<Range>, r: Range)
    requires Ordered(rs)
    ensures Ordered(InsertRange(rs, r))
  {
    hide Place;
    var p, out := Place(rs, r), InsertRange(rs, r);
    forall i, j | 0 <= i < j < |out| ensures AtMost(out[i], out[j]) {
      if j > p {
        assert AtMost(r, rs[j - 1]) by {
          assert p < j - 1 ==> AtMost(rs[p], rs[j - 1]);
        }
      }
    }
  }

  /** Inserting a range keeps a list apart exactly when it was, and the new range is apart from all of it. */
  lemma InsertApart(rs: seq<Range>, r: Range)
    ensures AllApart(InsertRange(rs, r)) <==> AllApart(rs + [r])
  {
    hide Place;
    var p, out, flat := Place(rs, r), InsertRange(rs, r), rs + [r];
    if AllApart(out) {
      forall i, j | 0 <= i < j < |flat| ensures Apart(flat[i], flat[j]) {
        var i', j' := if i < p then i else i + 1, if j == |rs| then p else if j < p then j else j + 1;
        assert out[i'] == flat[i] && out[j'] == flat[j];
      }
    }
    if AllApart(flat) {
      forall i, j | 0 <= i < j < |out| ensures Apart(out[i], out[j]) {
        var i' := if i < p then i else if i == p then |rs| else i - 1;
        var j' := if j < p then j else if j == p then |rs| else j - 1;
        assert flat[i'] == out[i] && flat[j'] == out[j];
      }
    }
  }

  lemma {:induction false} SortKeeps(rs: seq<Range>)
    ensures Ordered(SortRanges(rs))
    ensures AllApart(SortRanges(rs)) <==> AllApart(rs)
    decreases |rs|
  {
    hide InsertRange;
    if rs != [] {
      var front, last := rs[..|rs| - 1], rs[|rs| - 1];
      SortKeeps(front);
      SortMembers(front);
      var sorted := SortRanges(front);
      InsertOrdered(sorted, last);
      InsertApart(sorted, last);
      SnocApart(sorted, front, last);
      assert front + [last] == rs;
    }
  }

  lemma {:induction false} SortMembers(rs: seq<Range>)
    ensures forall x :: x in SortRanges(rs) <==> x in rs
    decreases |rs|
  {
    hide Place;
    if rs != [] {
      var front, last := rs[..|rs| - 1], rs[|rs| - 1];
      SortMembers(front);
      var sorted := SortRanges(front);
      assert sorted == sorted[..Place(sorted, last)] + sorted[Place(sorted, last)..];
      assert rs == front + [last];
    }
  }

  lemma SnocApart(a: seq<Range>, b: seq<Range>, r: Range)
    requires AllApart(a) <==> AllApart(b)
    requires forall x :: x in a <==> x in b
    ensures AllApart(a + [r]) <==> AllApart(b + [r])
  {
    SnocApartSplit(a, r);
    SnocApartSplit(b, r);
  }

  lemma SnocApartSplit(a: seq<Range>, r: Range)
    ensures AllApart(a + [r]) <==> AllApart(a) && forall x :: x in a ==> Apart(x, r)
  {
    var s := a + [r];
    if AllApart(s) {
      forall x | x in a ensures Apart(x, r) {
        var i :| 0 <= i < |a| && a[i] == x;
        assert Apart(s[i], s[|a|]);
      }
      forall i, j | 0 <= i < j < |a| ensures Apart(a[i], a[j]) {
        assert Apart(s[i], s[j]);
      }
    }
  }

  //
  // The overlap sweep
  //

  /** Sorted ranges overlap nowhere exactly when each starts after the one before it ends. */
  lemma SweepExact(rs: seq<Range>, n: nat, floor: nat)
    requires Ordered(rs) && AllNonempty(rs) && n < |rs| && AllApart(rs[..n]) && AllFrom(rs[..n], floor)
    ensures var end := if n == 0 then floor else rs[n - 1].stop;
            rs[n].start >= end <==> AllApart(rs[..n + 1]) && AllFrom(rs[..n + 1], floor)
  {
    var upTo, end := rs[..n + 1], if n == 0 then floor else rs[n - 1].stop;
    if rs[n].start >= end {
      forall i, j | 0 <= i < j < n + 1 ensures Apart(upTo[i], upTo[j]) {
        if j < n {
          assert Apart(rs[..n][i], rs[..n][j]);
        } else if i < n - 1 {
          assert Apart(rs[..n][i], rs[..n][n - 1]) && AtMost(rs[i], rs[n - 1]);
        }
      }
      assert n > 0 ==> rs[..n][n - 1] in rs[..n] && rs[n - 1] in rs;
      assert upTo == rs[..n] + [rs[n]];
    }
    if AllApart(upTo) && AllFrom(upTo, floor) {
      assert n > 0 ==> Apart(upTo[n - 1], upTo[n]) && AtMost(rs[n - 1], rs[n]);
      assert upTo[n] in upTo && rs[n] in rs && (n > 0 ==> rs[n - 1] in rs);
    }
  }

  /** Accepts nonempty ranges exactly when they are pairwise disjoint and all lie at or above the floor. */
  method Disjoint(ranges: seq<Range>, floor: nat) returns (ok: bool)
    requires AllNonempty(ranges)
    ensures ok <==> AllApart(ranges) && AllFrom(ranges, floor)
  {
    hide SortRanges, Apart, AtMost;
    var sorted := SortRanges(ranges);
    SortKeeps(ranges);
    SortMembers(ranges);
    var end := floor;
    for n := 0 to |sorted|
      invariant end == if n == 0 then floor else sorted[n - 1].stop
      invariant AllApart(sorted[..n]) && AllFrom(sorted[..n], floor)
    {
      SweepExact(sorted, n, floor);
      if sorted[n].start < end {
        PrefixApart(sorted, n + 1, floor);
        return false;
      }
      end := sorted[n].stop;
    }
    TakeAll(sorted);
    ok := true;
  }

  lemma PrefixApart(rs: seq<Range>, n: nat, floor: nat)
    requires n <= |rs|
    ensures AllApart(rs) && AllFrom(rs, floor) ==> AllApart(rs[..n]) && AllFrom(rs[..n], floor)
  {
    if AllApart(rs) {
      forall i, j | 0 <= i < j < n ensures Apart(rs[..n][i], rs[..n][j]) {
        assert Apart(rs[i], rs[j]);
      }
    }
  }

  //
  // Parsing
  //

  /** The loaded range of a section, or its range in the file; sections may have neither. */
  function RangeOf(s: Section, inFile: bool): Option<Range> {
    if inFile then if s.rawSize > 0 then Some(Range(s.rawOffset, s.rawOffset + s.rawSize)) else None
    else if s.Extent() > 0 then Some(Range(s.virtualAddress, s.virtualAddress + s.Extent())) else None
  }

  function Ranges(ss: seq<Section>, inFile: bool): (rs: seq<Range>)
    ensures AllNonempty(rs)
  {
    if ss == [] then []
    else
      var front, last := Ranges(ss[..|ss| - 1], inFile), RangeOf(ss[|ss| - 1], inFile);
      if last.Some? then front + [last.value] else front
  }

  /** The certificate table addresses file bytes; it has a place only with five or more data directories. */
  function Certificate(b: bytes, l: Layout): (r: Pe<Option<Range>>)
    requires l.directoryOffset + l.directoryCount * 8 <= |l.optionalHeader|
    ensures r.Ok? && r.value.Some? ==> r.value.value.start < r.value.value.stop <= |b|
  {
    if l.directoryCount <= 4 then Ok(None)
    else
      var at := l.directoryOffset + 32;
      var offset, size := FromLe(l.optionalHeader[at..at + 4]), FromLe(l.optionalHeader[at + 4..at + 8]);
      if (offset == 0) != (size == 0) || offset % 8 != 0 then Err(BadCertificate)
      else if size == 0 then Ok(None)
      else if offset + size > |b| then Err(TruncatedField)
      else Ok(Some(Range(offset, offset + size)))
  }

  function ReadSections(b: bytes, l: Layout, n: nat): Pe<seq<Section>>
    requires l.tableStart + l.count * 40 <= |b| && n <= l.count && l.sectionAlignment > 0 && l.fileAlignment > 0
  {
    if n == 0 then Ok([])
    else
      var front :- ReadSections(b, l, n - 1);
      var s :- ReadSection(b, l, EntryAt(b, l, n - 1));
      Ok(front + [s])
  }

  function WithCertificate(rs: seq<Range>, c: Option<Range>): seq<Range> {
    if c.Some? then rs + [c.value] else rs
  }

  /** Nothing overlaps: sections in memory, and sections and certificate table in the file, all above the headers. */
  ghost predicate NoOverlap(l: Layout, ss: seq<Section>, c: Option<Range>) {
    && AllApart(Ranges(ss, false)) && AllFrom(Ranges(ss, false), l.headersSize)
    && AllApart(WithCertificate(Ranges(ss, true), c)) && AllFrom(WithCertificate(Ranges(ss, true), c), l.headersSize)
  }

  predicate HasKernel(ss: seq<Section>) {
    exists i :: 0 <= i < |ss| && ss[i].name == LINUX
  }

  ghost predicate ImageOk(b: bytes, requireKernel: bool) {
    && ReadLayout(b).Ok?
    && var l := ReadLayout(b).value;
    && ReadSections(b, l, l.count).Ok?
    && Certificate(b, l).Ok?
    && NoOverlap(l, ReadSections(b, l, l.count).value, Certificate(b, l).value)
    && (requireKernel ==> HasKernel(ReadSections(b, l, l.count).value))
  }

  lemma {:induction false} SectionsStop(b: bytes, l: Layout, n: nat, m: nat)
    requires l.tableStart + l.count * 40 <= |b| && n <= m <= l.count && l.sectionAlignment > 0 && l.fileAlignment > 0
    requires ReadSections(b, l, n).Err?
    ensures ReadSections(b, l, m).Err?
    decreases m
  {
    hide ReadSection;
    if n < m {
      SectionsStop(b, l, n, m - 1);
    }
  }

  /** Reads the section table entry by entry, collecting sections and their two kinds of range. */
  method ReadTable(b: bytes, l: Layout) returns (r: Pe<(seq<Section>, seq<Range>, seq<Range>)>)
    requires l.tableStart + l.count * 40 <= |b| && l.sectionAlignment > 0 && l.fileAlignment > 0
    ensures r.Ok? <==> ReadSections(b, l, l.count).Ok?
    ensures r.Ok? ==> var ss := ReadSections(b, l, l.count).value; r.value == (ss, Ranges(ss, false), Ranges(ss, true))
  {
    hide ReadSection;
    var sections: seq<Section>, memory: seq<Range>, raw: seq<Range> := [], [], [];
    for n := 0 to l.count
      invariant ReadSections(b, l, n) == Ok(sections)
      invariant memory == Ranges(sections, false) && raw == Ranges(sections, true)
    {
      var s := ReadSection(b, l, EntryAt(b, l, n));
      if s.Err? {
        SectionsStop(b, l, n + 1, l.count);
        return Err(s.error);
      }
      assert (sections + [s.value])[..|sections|] == sections;
      var m, f := RangeOf(s.value, false), RangeOf(s.value, true);
      memory := if m.Some? then memory + [m.value] else memory;
      raw := if f.Some? then raw + [f.value] else raw;
      sections := sections + [s.value];
    }
    r := Ok((sections, memory, raw));
  }

  /** The parser accepts exactly the images whose headers and entries check and whose ranges overlap nowhere. */
  method ParsePe(b: bytes, requireKernel: bool) returns (r: Pe<Uki>)
    ensures r.Ok? <==> ImageOk(b, requireKernel)
    ensures r.Ok? ==> r.value.bytes == b
    ensures r.Ok? ==> ReadSections(b, ReadLayout(b).value, ReadLayout(b).value.count) == Ok(r.value.sections)
  {
    hide ReadLayout, ReadSections, Ranges, AllApart, AllFrom, Certificate, HasKernel;
    var l :- ReadLayout(b);
    var table := ReadTable(b, l);
    if table.Err? {
      return Err(table.error);
    }
    var (sections, memory, raw) := table.value;
    var apart := Disjoint(memory, l.headersSize);
    if !apart {
      return Err(Overlap);
    }
    var certificate := Certificate(b, l);
    if certificate.Err? {
      return Err(certificate.error);
    }
    if certificate.value.Some? {
      raw := raw + [certificate.value.value];
    }
    apart := Disjoint(raw, l.headersSize);
    if !apart {
      return Err(Overlap);
    }
    if requireKernel && !HasKernel(sections) {
      return Err(NoKernel);
    }
    r := Ok(Uki(b, sections));
  }

  //
  // Geometry of an accepted image
  //

  lemma {:induction false} RangeListed(ss: seq<Section>, inFile: bool, i: nat)
    requires i < |ss| && RangeOf(ss[i], inFile).Some?
    ensures RangeOf(ss[i], inFile).value in Ranges(ss, inFile)
    decreases |ss|
  {
    hide RangeOf;
    if i < |ss| - 1 {
      RangeListed(ss[..|ss| - 1], inFile, i);
    }
  }

  lemma {:induction false} RangesApart(ss: seq<Section>, inFile: bool, i: nat, j: nat)
    requires AllApart(Ranges(ss, inFile)) && i < j < |ss|
    requires RangeOf(ss[i], inFile).Some? && RangeOf(ss[j], inFile).Some?
    ensures Apart(RangeOf(ss[i], inFile).value, RangeOf(ss[j], inFile).value)
    decreases |ss|
  {
    hide RangeOf, Apart;
    var front, last := ss[..|ss| - 1], RangeOf(ss[|ss| - 1], inFile);
    if last.Some? {
      SnocApartSplit(Ranges(front, inFile), last.value);
    }
    if j == |ss| - 1 {
      RangeListed(front, inFile, i);
    } else {
      RangesApart(front, inFile, i, j);
    }
  }

  lemma {:induction false} SectionsOk(b: bytes, l: Layout, n: nat, i: nat)
    requires l.tableStart + l.count * 40 <= |b| && n <= l.count && l.sectionAlignment > 0 && l.fileAlignment > 0
    requires ReadSections(b, l, n).Ok? && i < |ReadSections(b, l, n).value|
    ensures SectionOk(b, l, ReadSections(b, l, n).value[i])
    decreases n
  {
    hide ReadSection, SectionOk;
    var front := ReadSections(b, l, n - 1).value;
    if i < |front| {
      SectionsOk(b, l, n - 1, i);
    } else {
      ReadSectionOk(b, l, EntryAt(b, l, n - 1));
    }
  }

  /** The section takes up this address: its bytes in the file, or in memory the larger of its two sizes. */
  ghost predicate Occupies(s: Section, inFile: bool, x: nat) {
    if inFile then s.rawOffset <= x < s.rawOffset + s.rawSize
    else
      || s.virtualAddress <= x < s.virtualAddress + s.virtualSize
      || s.virtualAddress <= x < s.virtualAddress + s.rawSize
  }

  predicate Within(r: Range, x: nat) {
    r.start <= x < r.stop
  }

  lemma OccupiesRange(s: Section, inFile: bool, x: nat)
    ensures Occupies(s, inFile, x) <==> RangeOf(s, inFile).Some? && Within(RangeOf(s, inFile).value, x)
  {
  }

  lemma ApartExactly(a: Range, b: Range)
    requires a.start < a.stop && b.start < b.stop
    ensures Apart(a, b) <==> forall x :: !(Within(a, x) && Within(b, x))
  {
    var x := if a.start < b.start then b.start else a.start;
    assert !Apart(a, b) ==> Within(a, x) && Within(b, x);
  }

  /** No two sections share an address, and none takes up one below the floor. */
  ghost predicate Separate(ss: seq<Section>, inFile: bool, floor: nat) {
    && (forall i, x :: 0 <= i < |ss| && Occupies(ss[i], inFile, x) ==> floor <= x)
    && (forall i, j, x :: 0 <= i < j < |ss| ==> !(Occupies(ss[i], inFile, x) && Occupies(ss[j], inFile, x)))
  }

  lemma {:induction false} RangeMember(ss: seq<Section>, inFile: bool, r: Range)
    requires r in Ranges(ss, inFile)
    ensures exists i :: 0 <= i < |ss| && RangeOf(ss[i], inFile) == Some(r)
    decreases |ss|
  {
    hide RangeOf;
    var front, last := ss[..|ss| - 1], RangeOf(ss[|ss| - 1], inFile);
    if r in Ranges(front, inFile) {
      RangeMember(front, inFile, r);
      var i :| 0 <= i < |front| && RangeOf(front[i], inFile) == Some(r);
      assert front[i] == ss[i];
    }
  }

  lemma RangeNonempty(s: Section, inFile: bool)
    ensures RangeOf(s, inFile).Some? ==> RangeOf(s, inFile).value.start < RangeOf(s, inFile).value.stop
  {
  }

  lemma OccupiesExactly(s: Section, inFile: bool)
    ensures forall x :: Occupies(s, inFile, x) <==>
                        RangeOf(s, inFile).Some? && Within(RangeOf(s, inFile).value, x)
  {
    hide RangeOf, Within, Occupies;
    forall x: nat
      ensures Occupies(s, inFile, x) <==> RangeOf(s, inFile).Some? && Within(RangeOf(s, inFile).value, x)
    {
      OccupiesRange(s, inFile, x);
    }
  }

  lemma PairExactly(s: Section, t: Section, inFile: bool)
    ensures (RangeOf(s, inFile).Some? && RangeOf(t, inFile).Some? ==>
               Apart(RangeOf(s, inFile).value, RangeOf(t, inFile).value)) <==>
            forall x :: !(Occupies(s, inFile, x) && Occupies(t, inFile, x))
  {
    hide RangeOf, Apart, Within, Occupies;
    OccupiesExactly(s, inFile);
    OccupiesExactly(t, inFile);
    RangeNonempty(s, inFile);
    RangeNonempty(t, inFile);
    if RangeOf(s, inFile).Some? && RangeOf(t, inFile).Some? {
      ApartExactly(RangeOf(s, inFile).value, RangeOf(t, inFile).value);
    }
  }

  /** The checks on ranges say exactly that no address is shared or below the floor. */
  lemma SeparateExactly(ss: seq<Section>, inFile: bool, floor: nat)
    ensures AllApart(Ranges(ss, inFile)) && AllFrom(Ranges(ss, inFile), floor) <==> Separate(ss, inFile, floor)
  {
    hide Ranges, RangeOf, Apart, Within, Occupies, AllApart;
    FloorExactly(ss, inFile, floor);
    if AllApart(Ranges(ss, inFile)) {
      forall i, j, x: nat | 0 <= i < j < |ss| ensures !(Occupies(ss[i], inFile, x) && Occupies(ss[j], inFile, x)) {
        PairExactly(ss[i], ss[j], inFile);
        if RangeOf(ss[i], inFile).Some? && RangeOf(ss[j], inFile).Some? {
          RangesApart(ss, inFile, i, j);
        }
      }
    }
    if forall i, j, x :: 0 <= i < j < |ss| ==> !(Occupies(ss[i], inFile, x) && Occupies(ss[j], inFile, x)) {
      UnsharedApart(ss, inFile);
    }
  }

  lemma FloorExactly(ss: seq<Section>, inFile: bool, floor: nat)
    ensures AllFrom(Ranges(ss, inFile), floor) <==>
            forall i, x :: 0 <= i < |ss| && Occupies(ss[i], inFile, x) ==> floor <= x
  {
    hide Ranges, RangeOf, Occupies;
    if AllFrom(Ranges(ss, inFile), floor) {
      forall i, x: nat | 0 <= i < |ss| && Occupies(ss[i], inFile, x) ensures floor <= x {
        OccupiesRange(ss[i], inFile, x);
        RangeListed(ss, inFile, i);
      }
    }
    if forall i, x :: 0 <= i < |ss| && Occupies(ss[i], inFile, x) ==> floor <= x {
      forall r | r in Ranges(ss, inFile) ensures floor <= r.start {
        RangeMember(ss, inFile, r);
        var i :| 0 <= i < |ss| && RangeOf(ss[i], inFile) == Some(r);
        RangeNonempty(ss[i], inFile);
        OccupiesRange(ss[i], inFile, r.start);
      }
    }
  }

  lemma {:induction false} UnsharedApart(ss: seq<Section>, inFile: bool)
    requires forall i, j, x :: 0 <= i < j < |ss| ==> !(Occupies(ss[i], inFile, x) && Occupies(ss[j], inFile, x))
    ensures AllApart(Ranges(ss, inFile))
    decreases |ss|
  {
    hide RangeOf, Apart, Within, Occupies, AllApart;
    if ss == [] {
      NoneApart();
    } else {
      var n, front := |ss| - 1, ss[..|ss| - 1];
      assert forall i :: 0 <= i < n ==> front[i] == ss[i];
      UnsharedApart(front, inFile);
      var last := RangeOf(ss[n], inFile);
      if last.Some? {
        forall r | r in Ranges(front, inFile) ensures Apart(r, last.value) {
          RangeMember(front, inFile, r);
          var i :| 0 <= i < n && RangeOf(front[i], inFile) == Some(r);
          PairExactly(ss[i], ss[n], inFile);
        }
        SnocApartSplit(Ranges(front, inFile), last.value);
      }
    }
  }

  lemma NoneApart()
    ensures AllApart([])
  {
  }

  /** The certificate table shares no byte with a section and lies above the headers. */
  ghost predicate CertificateSeparate(ss: seq<Section>, c: Option<Range>, floor: nat) {
    c.Some? ==>
      && floor <= c.value.start
      && forall i, x :: 0 <= i < |ss| ==> !(Occupies(ss[i], true, x) && Within(c.value, x))
  }

  lemma CertificateExactly(ss: seq<Section>, c: Range)
    requires c.start < c.stop
    ensures (forall r :: r in Ranges(ss, true) ==> Apart(r, c)) <==>
            forall i, x :: 0 <= i < |ss| ==> !(Occupies(ss[i], true, x) && Within(c, x))
  {
    hide Ranges, RangeOf, Apart, Within, Occupies;
    if forall r :: r in Ranges(ss, true) ==> Apart(r, c) {
      forall i, x: nat | 0 <= i < |ss| ensures !(Occupies(ss[i], true, x) && Within(c, x)) {
        OccupiesRange(ss[i], true, x);
        RangeNonempty(ss[i], true);
        if RangeOf(ss[i], true).Some? {
          RangeListed(ss, true, i);
          ApartExactly(RangeOf(ss[i], true).value, c);
        }
      }
    }
    if forall i, x :: 0 <= i < |ss| ==> !(Occupies(ss[i], true, x) && Within(c, x)) {
      forall r | r in Ranges(ss, true) ensures Apart(r, c) {
        RangeMember(ss, true, r);
        var i :| 0 <= i < |ss| && RangeOf(ss[i], true) == Some(r);
        RangeNonempty(ss[i], true);
        OccupiesExactly(ss[i], true);
        ApartExactly(r, c);
      }
    }
  }

  /** Sort and sweep over both kinds of range accepts exactly when nothing is shared and nothing touches the headers. */
  lemma NoOverlapExactly(l: Layout, ss: seq<Section>, c: Option<Range>)
    requires c.Some? ==> c.value.start < c.value.stop
    ensures NoOverlap(l, ss, c) <==>
            && Separate(ss, false, l.headersSize) && Separate(ss, true, l.headersSize)
            && CertificateSeparate(ss, c, l.headersSize)
  {
    hide Ranges, AllApart, Separate, Apart, Within, Occupies;
    SeparateExactly(ss, false, l.headersSize);
    SeparateExactly(ss, true, l.headersSize);
    if c.Some? {
      SnocApartSplit(Ranges(ss, true), c.value);
      CertificateExactly(ss, c.value);
      FromSnoc(Ranges(ss, true), c.value, l.headersSize);
    }
  }

  lemma FromSnoc(rs: seq<Range>, r: Range, floor: nat)
    ensures AllFrom(rs + [r], floor) <==> AllFrom(rs, floor) && floor <= r.start
  {
    assert r in rs + [r] && forall x :: x in rs ==> x in rs + [r];
  }

  /** Sections of an accepted image are placed inside it and share no address, in memory or in the file. */
  lemma AcceptedGeometry(b: bytes, requireKernel: bool, i: nat, j: nat, x: nat)
    requires ImageOk(b, requireKernel)
    requires var l := ReadLayout(b).value; var ss := ReadSections(b, l, l.count).value; i < |ss| && j < |ss|
    ensures var l := ReadLayout(b).value; var ss := ReadSections(b, l, l.count).value;
            && SectionOk(b, l, ss[i])
            && (Occupies(ss[i], false, x) ==> l.headersSize <= x < l.imageSize)
            && (Occupies(ss[i], true, x) ==> l.headersSize <= x < |b|)
            && (i != j ==> !(Occupies(ss[i], false, x) && Occupies(ss[j], false, x)))
            && (i != j ==> !(Occupies(ss[i], true, x) && Occupies(ss[j], true, x)))
  {
    hide ReadLayout, ReadSections, NoOverlap, Certificate, HasKernel, CertificateSeparate;
    var l := ReadLayout(b).value;
    var ss := ReadSections(b, l, l.count).value;
    SectionsOk(b, l, l.count, i);
    NoOverlapExactly(l, ss, Certificate(b, l).value);
  }

  /** The certificate table of an accepted image lies above the headers, inside the file, and meets no section. */
  lemma CertificateGeometry(b: bytes, requireKernel: bool, i: nat, x: nat)
    requires ImageOk(b, requireKernel)
    requires var l := ReadLayout(b).value; i < |ReadSections(b, l, l.count).value| && Certificate(b, l).value.Some?
    ensures var l := ReadLayout(b).value; var ss := ReadSections(b, l, l.count).value;
            var c := Certificate(b, l).value.value;
            && l.headersSize <= c.start < c.stop <= |b|
            && !(Occupies(ss[i], true, x) && c.start <= x < c.stop)
  {
    hide ReadLayout, ReadSections, NoOverlap, Certificate, HasKernel, Separate, Occupies;
    var l := ReadLayout(b).value;
    var ss, c := ReadSections(b, l, l.count).value, Certificate(b, l).value.value;
    NoOverlapExactly(l, ss, Certificate(b, l).value);
    assert !(Occupies(ss[i], true, x) && Within(c, x));
  }

  //
  // Section digests
  //

  function FileLength(s: Section): nat {
    if s.rawSize < s.virtualSize then s.rawSize else s.virtualSize
  }

  function FileContent(b: bytes, s: Section): bytes
    requires s.rawOffset + FileLength(s) <= |b|
  {
    b[s.rawOffset..s.rawOffset + FileLength(s)]
  }

  /** The section as loaded: its file bytes, cut or filled with zeros to the virtual size. */
  function Loaded(b: bytes, s: Section): bytes
    requires s.rawOffset + FileLength(s) <= |b|
  {
    FileContent(b, s) + Fill(s.virtualSize - FileLength(s), 0)
  }

  lemma LoadedBytes(b: bytes, s: Section)
    requires s.rawOffset + FileLength(s) <= |b|
    ensures |Loaded(b, s)| == s.virtualSize
    ensures forall k :: 0 <= k < s.virtualSize ==> Loaded(b, s)[k] == if k < s.rawSize then b[s.rawOffset + k] else 0
  {
  }

  /** Streams `content` and then `zeros` zero bytes, at most 4096 at a time, through the hash. */
  method HashLoaded(h: Message -> bytes, content: bytes, zeros: nat) returns (d: bytes)
    ensures d == h(Message(content + Fill(zeros, 0)))
  {
    var stream, left := content, zeros;
    while left > 0
      invariant 0 <= left <= zeros && stream == content + Fill(zeros - left, 0)
    {
      var count := if left < 4096 then left else 4096;
      assert Fill(zeros - left, 0) + Fill(count, 0) == Fill(zeros - left + count, 0);
      stream := stream + Fill(count, 0);
      left := left - count;
    }
    d := h(Message(stream));
  }

  /** The digest of a section of an accepted image is always defined for a supported bank. */
  method SectionDigest(h: Sha2, b: bytes, l: Layout, s: Section, algorithm: nat) returns (r: Pe<bytes>)
    requires SectionOk(b, l, s)
    ensures s.rawOffset + FileLength(s) <= |b|
    ensures r == if Supported(algorithm) then Ok(Hasher(h, algorithm)(Message(Loaded(b, s)))) else Err(UnsupportedBank)
  {
    if !Supported(algorithm) {
      return Err(UnsupportedBank);
    }
    var content := FileContent(b, s);
    var d := HashLoaded(Hasher(h, algorithm), content, s.virtualSize - |content|);
    r := Ok(d);
  }
}
