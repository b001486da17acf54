/** Firmware volumes as values, their printed form, and what the walkers find in
    it (UEFI PI 1.8, Volume III, sections 3.2.1, 3.2.3 and 3.2.4). */
module Layout {
  import opened Memory
  import opened Guids
  import opened Volume
  import opened VolumeLaws

  datatype Section = Section(kind: Byte, body: seq<Byte>)

  datatype File = File(name: Guid, check: Half, kind: Byte, attributes: Byte, state: Byte, sections: seq<Section>)

  /** front: zero vector and file system GUID; middle: signature and attributes;
      rest: the header behind its length field. */
  datatype Fv = Fv(front: seq<Byte>, middle: seq<Byte>, rest: seq<Byte>, files: seq<File>)

  /** n copies of one byte. */
  function Fill(b: Byte, n: nat): (s: seq<Byte>)
    ensures |s| == n
  {
    seq(n, _ => b)
  }

  /** Bytes from n to the next multiple of p. */
  function Gap(n: int, p: int): (g: nat)
    requires p > 0
    ensures g < p
  {
    Mod(-n, p)
  }

  function SectionLen(s: Section): nat {
    SECTION_HEADER + |s.body|
  }

  function PrintSection(s: Section): (p: seq<Byte>)
    ensures |p| == SectionLen(s)
  {
    Bytes(SectionLen(s), 3) + [s.kind] + s.body
  }

  /** Sections start at multiples of 4 within a file, with zeros between them. */
  function PrintSections(ss: seq<Section>): (p: seq<Byte>)
    ensures ss != [] ==> |p| >= SectionLen(ss[0])
  {
    if ss == [] then []
    else if |ss| == 1 then PrintSection(ss[0])
    else PrintSection(ss[0]) + Fill(0, Gap(SectionLen(ss[0]), 4)) + PrintSections(ss[1..])
  }

  function FileLen(f: File): nat {
    FILE_HEADER + |PrintSections(f.sections)|
  }

  function PrintFileHeader(f: File): (p: seq<Byte>)
    ensures |p| == FILE_HEADER
  {
    Image(f.name) + Bytes(f.check, 2) + [f.kind, f.attributes] + Bytes(FileLen(f), 3) + [f.state]
  }

  function PrintFile(f: File): (p: seq<Byte>)
    ensures |p| == FileLen(f)
  {
    PrintFileHeader(f) + PrintSections(f.sections)
  }

  /** Files start at multiples of 8 and fill the volume. */
  function PrintFiles(fs: seq<File>): seq<Byte> {
    if fs == [] then []
    else PrintFile(fs[0]) + Fill(0xff, Gap(FileLen(fs[0]), 8)) + PrintFiles(fs[1..])
  }

  function HeaderLen(v: Fv): nat {
    50 + |v.rest|
  }

  /** Where the first file starts. */
  function FilesOffset(v: Fv): nat {
    HeaderLen(v) + Gap(HeaderLen(v), 8)
  }

  function FvLen(v: Fv): nat {
    FilesOffset(v) + |PrintFiles(v.files)|
  }

  function PrintHeader(v: Fv): (p: seq<Byte>)
    requires WellFormed(v)
    ensures |p| == FilesOffset(v)
  {
    v.front + Bytes(FvLen(v), 8) + v.middle + Bytes(HeaderLen(v), 2) + v.rest
    + Fill(0xff, Gap(HeaderLen(v), 8))
  }

  function Print(v: Fv): (p: seq<Byte>)
    requires WellFormed(v)
    ensures |p| == FvLen(v)
  {
    PrintHeader(v) + PrintFiles(v.files)
  }

  predicate SectionsOk(ss: seq<Section>) {
    forall i | 0 <= i < |ss| :: SectionLen(ss[i]) < 0x100_0000
  }

  /** Every size fits its field. */
  predicate WellFormed(v: Fv) {
    && |v.front| == 32 && |v.middle| == 8 && HeaderLen(v) < 0x1_0000
    && FvLen(v) <= SPACE
    && FilesOk(v.files)
  }

  predicate FilesOk(fs: seq<File>) {
    forall i | 0 <= i < |fs| :: FileLen(fs[i]) < 0x100_0000 && SectionsOk(fs[i].sections)
  }

  /** No zeros are needed between the sections. */
  predicate Packed(ss: seq<Section>) {
    forall i | 0 <= i < |ss| - 1 :: SectionLen(ss[i]) % 4 == 0
  }

  /** None before the first one of the wanted type, that is. */
  predicate PackedBefore(ss: seq<Section>, want: Byte) {
    forall i | 0 <= i < FirstSection(ss, want) && i < |ss| - 1 :: SectionLen(ss[i]) % 4 == 0
  }

  // ----- Search on values -----

  /** The first section of the wanted type. */
  function FirstSection(ss: seq<Section>, want: Byte): (i: nat)
    ensures i <= |ss|
    ensures i < |ss| ==> ss[i].kind == want
    ensures forall j | 0 <= j < i :: ss[j].kind != want
  {
    if ss == [] || ss[0].kind == want then 0 else 1 + FirstSection(ss[1..], want)
  }

  predicate Wanted(f: File, want: Selector) {
    f.kind == want.kind && (want.name.None? || f.name == want.name.value)
  }

  /** The first file that is wanted. */
  function FirstWanted(fs: seq<File>, want: Selector): (i: nat)
    ensures i <= |fs|
    ensures i < |fs| ==> Wanted(fs[i], want)
    ensures forall j | 0 <= j < i :: !Wanted(fs[j], want)
  {
    if fs == [] || Wanted(fs[0], want) then 0 else 1 + FirstWanted(fs[1..], want)
  }

  /** Where section i starts, counted from the first. */
  function SectionOffset(ss: seq<Section>, i: nat): nat
    requires i <= |ss|
  {
    if i == 0 then 0
    else SectionLen(ss[0]) + Gap(SectionLen(ss[0]), 4) + SectionOffset(ss[1..], i - 1)
  }

  /** Where file i starts, counted from the first. */
  function FileOffset(fs: seq<File>, i: nat): nat
    requires i <= |fs|
  {
    if i == 0 then 0
    else FileLen(fs[0]) + Gap(FileLen(fs[0]), 8) + FileOffset(fs[1..], i - 1)
  }

  // ----- The section walk refines it -----

  lemma PrintedSectionHeader(m: Mem, a: int, ss: seq<Section>)
    requires ss != [] && Holds(m, a, PrintSections(ss)) && SectionsOk(ss)
    ensures SectionSize(m, a) == SectionLen(ss[0]) && SectionKind(m, a) == ss[0].kind
  {
    hide Read8, Read, Bytes, Holds, PrintSections;
    var s := ss[0];
    if |ss| > 1 {
      PrintedNextSection(m, a, ss);
    } else {
      PrintLastSection(ss);
    }
    HoldsParts(m, a, Bytes(SectionLen(s), 3) + [s.kind], s.body);
    HoldsParts(m, a, Bytes(SectionLen(s), 3), [s.kind]);
    ReadBytes(m, a, SectionLen(s), 3);
    HoldsAt(m, a + 3, [s.kind], 0);
  }

  lemma PrintLastSection(ss: seq<Section>)
    requires |ss| == 1
    ensures PrintSections(ss) == PrintSection(ss[0])
  {
  }

  lemma PrintMoreSections(ss: seq<Section>)
    requires |ss| > 1
    ensures PrintSections(ss) == PrintSection(ss[0]) + Fill(0, Gap(SectionLen(ss[0]), 4)) + PrintSections(ss[1..])
  {
  }

  lemma PrintedNextSection(m: Mem, a: int, ss: seq<Section>)
    requires |ss| > 1 && Holds(m, a, PrintSections(ss))
    ensures var next := SectionLen(ss[0]) + Gap(SectionLen(ss[0]), 4);
            |PrintSections(ss)| == next + |PrintSections(ss[1..])| && Holds(m, a + next, PrintSections(ss[1..]))
    ensures Holds(m, a, PrintSection(ss[0])) && Holds(m, a + SectionLen(ss[0]), Fill(0, Gap(SectionLen(ss[0]), 4)))
  {
    hide PrintSections, PrintSection, SectionLen, Gap, Holds;
    var gap := Fill(0, Gap(SectionLen(ss[0]), 4));
    PrintMoreSections(ss);
    HoldsParts(m, a, PrintSection(ss[0]) + gap, PrintSections(ss[1..]));
    HoldsParts(m, a, PrintSection(ss[0]), gap);
  }

  /** In a file without gaps before it the section loop finds the first section of
      a type. */
  lemma {:induction false} SectionWalkFinds(m: Mem, a: int, ss: seq<Section>, want: Byte)
    requires 0 <= a && a + |PrintSections(ss)| <= SPACE
    requires Holds(m, a, PrintSections(ss)) && SectionsOk(ss) && PackedBefore(ss, want)
    ensures var i := FirstSection(ss, want);
            SectionWalk(m, want, a, a + |PrintSections(ss)|, |ss|)
            == Some(if i < |ss| then Result(Success, Ptr(a + SectionOffset(ss, i))) else Result(NotFound, 0))
    decreases |ss|
  {
    hide SectionSize, SectionKind, SectionsOk, PackedBefore, Gap, Holds, PrintSections, SectionLen, Ptr, Wrap64;
    if ss == [] {
      assert PrintSections(ss) == [] by { PrintNoSections(); }
    } else {
      PrintedSectionHeader(m, a, ss);
      var len := SectionLen(ss[0]);
      SectionSpan(ss);
      NoWraps(a + len);
      NoWraps(a);
      if ss[0].kind != want {
        if |ss| > 1 {
          PrintedNextSection(m, a, ss);
          SectionsTail(ss);
          PackedBeforeTail(ss, want);
          assert Gap(len, 4) == 0 by { GapZero(len); }
          SectionWalkFinds(m, a + len, ss[1..], want);
        } else {
          assert FirstSection(ss, want) == 1;
        }
      }
    }
  }

  lemma PackedBeforeTail(ss: seq<Section>, want: Byte)
    requires |ss| > 1 && ss[0].kind != want && PackedBefore(ss, want)
    ensures SectionLen(ss[0]) % 4 == 0 && PackedBefore(ss[1..], want)
  {
    hide SectionLen;
    assert FirstSection(ss, want) == FirstSection(ss[1..], want) + 1;
    forall i | 0 <= i < FirstSection(ss[1..], want) && i < |ss[1..]| - 1
      ensures SectionLen(ss[1..][i]) % 4 == 0
    {
      assert ss[1..][i] == ss[i + 1];
    }
  }

  lemma SectionsTail(ss: seq<Section>)
    requires ss != [] && SectionsOk(ss)
    ensures SectionsOk(ss[1..])
  {
  }

  lemma PrintNoSections()
    ensures PrintSections([]) == []
  {
  }

  lemma SectionSpan(ss: seq<Section>)
    requires ss != []
    ensures SECTION_HEADER <= SectionLen(ss[0]) <= |PrintSections(ss)|
    ensures |ss| == 1 ==> |PrintSections(ss)| == SectionLen(ss[0])
  {
  }

  // ----- The file walk refines it -----

  lemma PrintedFileHeader(m: Mem, a: int, f: File, want: Selector)
    requires Holds(m, a, PrintFile(f)) && FileLen(f) < 0x100_0000
    ensures FileSize(m, a) == FileLen(f)
    ensures Selects(m, want, a) <==> Wanted(f, want)
    ensures Holds(m, a + FILE_HEADER, PrintSections(f.sections))
  {
    hide Read8, Read, Bytes, Image, GuidAt, FileLen;
    var len := FileLen(f);
    HoldsParts(m, a, PrintFileHeader(f), PrintSections(f.sections));
    HoldsParts(m, a, Image(f.name) + Bytes(f.check, 2) + [f.kind, f.attributes] + Bytes(len, 3), [f.state]);
    HoldsParts(m, a, Image(f.name) + Bytes(f.check, 2) + [f.kind, f.attributes], Bytes(len, 3));
    ReadBytes(m, a + 20, len, 3);
    HoldsParts(m, a, Image(f.name) + Bytes(f.check, 2), [f.kind, f.attributes]);
    HoldsAt(m, a + 18, [f.kind, f.attributes], 0);
    HoldsParts(m, a, Image(f.name), Bytes(f.check, 2));
    if want.name.Some? {
      GuidAtImage(m, a, f.name, want.name.value);
    }
  }

  lemma PrintedFirstFile(m: Mem, a: int, fs: seq<File>)
    requires fs != [] && Holds(m, a, PrintFiles(fs))
    ensures Holds(m, a, PrintFile(fs[0]))
    ensures var next := FileLen(fs[0]) + Gap(FileLen(fs[0]), 8);
            |PrintFiles(fs)| == next + |PrintFiles(fs[1..])| && Holds(m, a + next, PrintFiles(fs[1..]))
  {
    hide PrintFile, FileLen, Gap, Holds;
    var file, gap := PrintFile(fs[0]), Fill(0xff, Gap(FileLen(fs[0]), 8));
    assert PrintFiles(fs) == file + gap + PrintFiles(fs[1..]);
    HoldsParts(m, a, file + gap, PrintFiles(fs[1..]));
    HoldsParts(m, a, file, gap);
  }

  lemma NextPrinted(a: int, n: int)
    requires 0 <= a && 0 <= n && a + n <= SPACE && a % 8 == 0
    ensures Up(a + n, 8) == a + n + Gap(n, 8)
    ensures (a + n + Gap(n, 8)) % 8 == 0 && (n + Gap(n, 8)) % 8 == 0
  {
    var g := Gap(n, 8);
    ModIsRemainder(-n, 8);
    assert -n == 8 * (-n / 8) + g;
    assert a + n + g == 8 * (a / 8 - (-n / 8));
    hide Up, Gap;
    UpIsLeastMultiple(a + n, 8);
    MultipleUnique(Up(a + n, 8), a + n + g, 8);
  }

  lemma {:induction false} FileWalkFinds(m: Mem, a: int, fs: seq<File>, want: Selector)
    requires 0 <= a && a % 8 == 0 && a + |PrintFiles(fs)| <= SPACE
    requires Holds(m, a, PrintFiles(fs)) && FilesOk(fs)
    ensures var i := FirstWanted(fs, want);
            && FileWalk(m, want, a, a + |PrintFiles(fs)|, |fs|)
               == Some(if i < |fs| then Hit(Wrap64(a + FileOffset(fs, i))) else NoMore)
            && FilePrinted(m, a, fs, i)
    decreases |fs|
  {
    hide FileSize, Selects, PrintFiles, PrintFile, Holds, FilesOk, FileLen, Up, Gap, Wanted, Wrap64, Ptr;
    if fs == [] {
      assert PrintFiles(fs) == [] by { PrintNoFiles(); }
    } else {
      var len := FileLen(fs[0]);
      PrintedFirstFile(m, a, fs);
      assert FileLen(fs[0]) < 0x100_0000 by { FirstFileOk(fs); }
      PrintedFileHeader(m, a, fs[0], want);
      FileSpan(fs[0]);
      NoWraps(a);
      NoWraps(a + len);
      if !Wanted(fs[0], want) {
        NextPrinted(a, len);
        FilesSplit(fs, 1);
        var next := a + len + Gap(len, 8);
        FileWalkFinds(m, next, fs[1..], want);
        var i := FirstWanted(fs[1..], want);
        assert FirstWanted(fs, want) == i + 1;
        if i < |fs[1..]| {
          PrintedLater(m, a, fs, i);
        }
      }
    }
  }

  lemma PrintedLater(m: Mem, a: int, fs: seq<File>, i: nat)
    requires fs != [] && i < |fs[1..]| && (FileLen(fs[0]) + Gap(FileLen(fs[0]), 8)) % 8 == 0
    requires var next := FileLen(fs[0]) + Gap(FileLen(fs[0]), 8);
             |PrintFiles(fs)| == next + |PrintFiles(fs[1..])| && FilePrinted(m, a + next, fs[1..], i)
    ensures FilePrinted(m, a, fs, i + 1)
    ensures FileOffset(fs, i + 1) == FileLen(fs[0]) + Gap(FileLen(fs[0]), 8) + FileOffset(fs[1..], i)
  {
    hide PrintFiles, PrintFile, Holds, FileLen, Gap;
    assert fs[1..][i] == fs[i + 1];
  }

  lemma FirstFileOk(fs: seq<File>)
    requires fs != [] && FilesOk(fs)
    ensures FileLen(fs[0]) < 0x100_0000
  {
    hide FileLen, SectionsOk;
  }

  lemma FileSpan(f: File)
    ensures FileLen(f) >= FILE_HEADER
  {
  }

  lemma PrintNoFiles()
    ensures PrintFiles([]) == []
  {
  }

  /** File i of fs is printed whole where the layout puts it. */
  ghost predicate FilePrinted(m: Mem, a: int, fs: seq<File>, i: nat) {
    i < |fs| ==>
      var f := a + FileOffset(fs, i);
      && Holds(m, f, PrintFile(fs[i]))
      && f + FileLen(fs[i]) <= a + |PrintFiles(fs)|
      && FileOffset(fs, i) % 8 == 0
  }

  // ----- GetFileSection refines the search on values -----

  /** What a volume at address fv answers: the first wanted file decides, and in
      it the first section of the wanted type. */
  function FindInVolume(v: Fv, fv: Word, section: Byte, want: Selector): Result {
    var i := FirstWanted(v.files, want);
    if i == |v.files| then Result(NotFound, 0)
    else
      var ss := v.files[i].sections;
      var j := FirstSection(ss, section);
      if j == |ss| then Result(NotFound, 0)
      else Result(Success, Ptr(fv + FilesOffset(v) + FileOffset(v.files, i) + FILE_HEADER + SectionOffset(ss, j)))
  }

  /** v is printed at fv, and does not go on behind the top of the address space. */
  ghost predicate PrintedAtBase(m: Mem, fv: Word, v: Fv) {
    WellFormed(v) && fv % 8 == 0 && fv + FvLen(v) <= SPACE && Holds(m, fv, Print(v))
  }

  lemma PrintedVolumeHeader(m: Mem, fv: Word, v: Fv)
    requires PrintedAtBase(m, fv, v)
    ensures FvLength(m, fv) == FvLen(v) && FvHeaderLength(m, fv) == HeaderLen(v)
    ensures Holds(m, fv + FilesOffset(v), PrintFiles(v.files))
  {
    hide Read, Bytes, FvLen, HeaderLen, PrintFiles;
    var len, hlen := FvLen(v), HeaderLen(v);
    HoldsParts(m, fv, PrintHeader(v), PrintFiles(v.files));
    var gap := Fill(0xff, Gap(hlen, 8));
    HoldsParts(m, fv, v.front + Bytes(len, 8) + v.middle + Bytes(hlen, 2) + v.rest, gap);
    HoldsParts(m, fv, v.front + Bytes(len, 8) + v.middle + Bytes(hlen, 2), v.rest);
    HoldsParts(m, fv, v.front + Bytes(len, 8) + v.middle, Bytes(hlen, 2));
    HoldsParts(m, fv, v.front + Bytes(len, 8), v.middle);
    HoldsParts(m, fv, v.front, Bytes(len, 8));
    Widths();
    ReadBytes(m, fv + 32, len, 8);
    ReadBytes(m, fv + 48, hlen, 2);
  }

  lemma PrintedVolumeBounds(m: Mem, fv: Word, v: Fv)
    requires PrintedAtBase(m, fv, v)
    ensures Eov(m, fv) == fv + FvLen(v) == fv + FilesOffset(v) + |PrintFiles(v.files)|
    ensures FirstFile(m, fv) == fv + FilesOffset(v)
    ensures (fv + FilesOffset(v)) % 8 == 0
  {
    hide FvLength, FvHeaderLength, Up, Gap, HeaderLen, Print, PrintFiles, Holds, Wrap64, Ptr;
    PrintedVolumeHeader(m, fv, v);
    NoWraps(fv + FvLen(v));
    NextPrinted(fv, HeaderLen(v));
  }

  /** Where file i of a volume at fv starts. */
  function FileAt(v: Fv, fv: Word, i: nat): nat
    requires i <= |v.files|
  {
    fv + FilesOffset(v) + FileOffset(v.files, i)
  }

  /** The byte-level walk refines the search on values, unless the file that decides
      is a bare header that ends at the top of the address space. */
  lemma GetFileSectionFinds(m: Mem, fv: Word, v: Fv, section: Byte, want: Selector)
    requires PrintedAtBase(m, fv, v)
    requires var i := FirstWanted(v.files, want);
             i < |v.files| ==> PackedBefore(v.files[i].sections, section) && FileAt(v, fv, i) + FILE_HEADER < SPACE
    ensures VolumeWalkStops(m, fv, section, want)
    ensures VolumeSearch(m, fv, section, want) == FindInVolume(v, fv, section, want)
  {
    hide FvLength, FvHeaderLength, FirstFile, Eov, Up, FileWalk, SectionWalk, FilesOffset, FvLen, FileLen, SectionsOk,
         PackedBefore, Holds, Print, PrintFiles, PrintFile, PrintSections, FirstWanted, FirstSection, FileOffset,
         SectionOffset, FileSize, Selects, Ptr, Wrap64;
    PrintedVolumeHeader(m, fv, v);
    PrintedVolumeBounds(m, fv, v);
    var a, i := fv + FilesOffset(v), FirstWanted(v.files, want);
    FileWalkFinds(m, a, v.files, want);
    assert FileWalkStops(m, want, a, fv + FvLen(v));
    if i < |v.files| {
      var f, file := a + FileOffset(v.files, i), v.files[i];
      NoWraps(f);
      PrintedFileSections(m, f, file, section, want);
    }
  }

  /** Such a file has no sections, but its body wraps around: the answer is that of
      a section search from address 0 to the top. */
  lemma TopFileReadsZero(m: Mem, fv: Word, v: Fv, section: Byte, want: Selector)
    requires PrintedAtBase(m, fv, v)
    requires var i := FirstWanted(v.files, want); i < |v.files| && FileAt(v, fv, i) + FILE_HEADER >= SPACE
    ensures FindInVolume(v, fv, section, want) == Result(NotFound, 0)
    ensures VolumeWalkStops(m, fv, section, want)
    ensures SectionWalkStops(m, section, Up(0, 4), SPACE)
    ensures VolumeSearch(m, fv, section, want) == SectionSearch(m, section, 0, SPACE)
  {
    hide FvLength, FvHeaderLength, FirstFile, Eov, Up, FileWalk, SectionWalk, FilesOffset, FvLen, SectionsOk, Holds,
         Print, PrintFiles, PrintFile, PrintSections, FirstWanted, FileOffset, SectionOffset, FileSize, Selects, Ptr,
         Wrap64;
    PrintedVolumeHeader(m, fv, v);
    PrintedVolumeBounds(m, fv, v);
    var a, i := fv + FilesOffset(v), FirstWanted(v.files, want);
    FileWalkFinds(m, a, v.files, want);
    assert FileWalkStops(m, want, a, fv + FvLen(v));
    var f, file := a + FileOffset(v.files, i), v.files[i];
    NoWraps(f);
    BareFile(file);
    assert FileLen(file) < 0x100_0000 by { FileOkAt(v.files, i); }
    PrintedFileHeader(m, f, file, want);
    PtrNear(SPACE);
    NoWraps(SPACE);
    NoWraps(f);
    SectionWalkTerminates(m, section, Up(0, 4), SPACE);
  }

  lemma FileOkAt(fs: seq<File>, i: nat)
    requires FilesOk(fs) && i < |fs|
    ensures FileLen(fs[i]) < 0x100_0000
  {
    hide FileLen, SectionsOk;
  }

  lemma BareFile(f: File)
    ensures FileLen(f) >= FILE_HEADER
    ensures FileLen(f) == FILE_HEADER ==> f.sections == []
  {
  }

  lemma BodyAligned(f: int)
    requires f % 8 == 0
    ensures (f + FILE_HEADER) % 4 == 0
  {
  }

  /** The section search in one printed file. */
  lemma PrintedFileSections(m: Mem, f: int, file: File, section: Byte, want: Selector)
    requires 0 <= f && f % 8 == 0 && f + FILE_HEADER < SPACE && f + FileLen(file) <= SPACE
             && Holds(m, f, PrintFile(file))
    requires FileLen(file) < 0x100_0000 && SectionsOk(file.sections) && PackedBefore(file.sections, section)
    ensures SectionWalkStops(m, section, Up(Body(f), 4), Eof(m, f))
    ensures var i := FirstSection(file.sections, section);
            SectionSearch(m, section, Body(f), Eof(m, f))
            == if i < |file.sections| then Result(Success, Ptr(f + FILE_HEADER + SectionOffset(file.sections, i)))
               else Result(NotFound, 0)
  {
    hide Up, SectionWalk, SectionsOk, PackedBefore, Holds, PrintFile, PrintSections, FirstSection, SectionOffset,
         FileSize, Selects, Ptr, Wrap64;
    PrintedFileHeader(m, f, file, want);
    NoWraps(f);
    NoWraps(f + FILE_HEADER);
    NoWraps(f + FileLen(file));
    BodyAligned(f);
    UpOfMultiple(f + FILE_HEADER, 4);
    SectionWalkFinds(m, f + FILE_HEADER, file.sections, section);
  }

  // ----- Sections that are not multiples of 4 -----

  /** The loop comes to every section of ss printed at a. */
  ghost predicate Follows(m: Mem, a: Addr, ss: seq<Section>) {
    forall i: nat | i < |ss| :: Visited(m, a, i) == a + SectionOffset(ss, i)
  }

  lemma FollowsSplit(m: Mem, a: Addr, ss: seq<Section>)
    requires |ss| > 1 && SectionSize(m, a) == SectionLen(ss[0]) && a + SectionLen(ss[0]) < TWO64
    ensures Gap(SectionLen(ss[0]), 4) > 0 ==> !Follows(m, a, ss)
    ensures Gap(SectionLen(ss[0]), 4) == 0 ==> (Follows(m, a, ss) <==> Follows(m, a + SectionLen(ss[0]), ss[1..]))
  {
    hide SectionSize, SectionLen, Gap, Wrap64;
    var len, gap, rest := SectionLen(ss[0]), Gap(SectionLen(ss[0]), 4), ss[1..];
    NoWraps(a + len);
    forall i: nat | i < |rest|
      ensures Visited(m, a, i + 1) == Visited(m, a + len, i)
      ensures SectionOffset(ss, i + 1) == len + gap + SectionOffset(rest, i)
    {
    }
    if Follows(m, a, ss) {
      assert Visited(m, a, 0 + 1) == a + SectionOffset(ss, 0 + 1);
      forall i: nat | i < |rest|
        ensures Visited(m, a + len, i) == a + len + gap + SectionOffset(rest, i)
      {
        assert Visited(m, a, i + 1) == a + SectionOffset(ss, i + 1);
      }
    }
    if gap == 0 && Follows(m, a + len, rest) {
      forall i: nat | i < |ss|
        ensures Visited(m, a, i) == a + SectionOffset(ss, i)
      {
        if i > 0 {
          assert Visited(m, a, i - 1 + 1) == Visited(m, a + len, i - 1) == a + len + SectionOffset(rest, i - 1);
        }
      }
    }
  }

  /** FindSection does not realign after a section: it comes to every section of
      the printed file exactly when no gap is needed between them. */
  lemma {:induction false} VisitsLayoutIffPacked(m: Mem, a: int, ss: seq<Section>)
    requires 0 <= a && a + |PrintSections(ss)| <= SPACE && Holds(m, a, PrintSections(ss)) && SectionsOk(ss)
    ensures Follows(m, a, ss) <==> Packed(ss)
    decreases |ss|
  {
    if |ss| > 1 {
      hide SectionSize, SectionKind, SectionsOk, Holds, PrintSections, SectionLen, Gap, Follows, Packed, Wrap64;
      PrintedSectionHeader(m, a, ss);
      PrintedNextSection(m, a, ss);
      SectionSpan(ss);
      GapZero(SectionLen(ss[0]));
      PackedSplit(ss);
      FollowsSplit(m, a, ss);
      if Gap(SectionLen(ss[0]), 4) == 0 {
        SectionsTail(ss);
        VisitsLayoutIffPacked(m, a + SectionLen(ss[0]), ss[1..]);
      }
    }
  }

  lemma GapZero(n: int)
    ensures Gap(n, 4) == 0 <==> n % 4 == 0
  {
    ModIsRemainder(-n, 4);
  }

  lemma PackedSplit(ss: seq<Section>)
    requires |ss| > 1
    ensures Packed(ss) <==> SectionLen(ss[0]) % 4 == 0 && Packed(ss[1..])
  {
    if SectionLen(ss[0]) % 4 == 0 && Packed(ss[1..]) {
      forall i | 0 <= i < |ss| - 1
        ensures SectionLen(ss[i]) % 4 == 0
      {
        if i > 0 {
          assert ss[i] == ss[1..][i - 1];
        }
      }
    }
  }

  lemma GapOfOne(n: int)
    requires n % 4 == 1
    ensures Gap(n, 4) == 3
  {
    ModIsRemainder(-n, 4);
  }

  lemma ZerosReadAsZero(m: Mem, a: int)
    requires Holds(m, a, Fill(0, 3))
    ensures SectionSize(m, a) == 0
  {
    hide Read8, Holds;
    forall k: nat | k < 3
      ensures ZeroByte(m, a, k)
    {
      HoldsAt(m, a, Fill(0, 3), k);
    }
    ReadZeros(m, a, 3);
  }

  /** Behind a section of 1 more byte than a multiple of 4 the loop reads three
      zeros as a size: whatever follows is called corrupt. */
  lemma GapReadsAsCorrupt(m: Mem, a: int, ss: seq<Section>, want: Byte)
    requires 0 <= a && a + |PrintSections(ss)| <= SPACE && Holds(m, a, PrintSections(ss)) && SectionsOk(ss)
    requires |ss| > 1 && SectionLen(ss[0]) % 4 == 1 && ss[0].kind != want
    ensures SectionWalk(m, want, a, a + |PrintSections(ss)|, 1) == Some(Result(VolumeCorrupted, 0))
  {
    hide SectionSize, SectionKind, SectionLen, PrintSections, Holds, Wrap64, Ptr, Gap;
    PrintedSectionHeader(m, a, ss);
    PrintedNextSection(m, a, ss);
    SectionSpan(ss);
    var len := SectionLen(ss[0]);
    NoWraps(a + len);
    GapOfOne(len);
    ZerosReadAsZero(m, a + len);
  }

  // ----- Enumeration -----

  /** The addresses of the files of one type, in layout order. */
  function KindAddresses(fs: seq<File>, at: nat, kind: Byte): seq<nat> {
    if fs == [] then []
    else
      var rest := KindAddresses(fs[1..], at + FileLen(fs[0]) + Gap(FileLen(fs[0]), 8), kind);
      if fs[0].kind == kind then [at] + rest else rest
  }

  /** They are the addresses of exactly the files of that type. */
  lemma {:induction false} KindAddressesComplete(fs: seq<File>, at: nat, kind: Byte, x: nat)
    ensures x in KindAddresses(fs, at, kind)
       <==> exists i: nat :: i < |fs| && fs[i].kind == kind && x == at + FileOffset(fs, i)
    decreases |fs|
  {
    hide FileLen, Gap;
    if fs != [] {
      var next := FileLen(fs[0]) + Gap(FileLen(fs[0]), 8);
      var rest := fs[1..];
      KindAddressesComplete(rest, at + next, kind, x);
      if i: nat :| i < |rest| && rest[i].kind == kind && x == at + next + FileOffset(rest, i) {
        assert i + 1 < |fs| && fs[i + 1].kind == kind && x == at + FileOffset(fs, i + 1);
      }
      if fs[0].kind == kind && x == at {
        assert 0 < |fs| && x == at + FileOffset(fs, 0);
      }
      if i: nat :| i < |fs| && fs[i].kind == kind && x == at + FileOffset(fs, i) {
        if i > 0 {
          assert i - 1 < |rest| && rest[i - 1].kind == kind && x == at + next + FileOffset(rest, i - 1);
        }
      }
    }
  }

  /** Each of them comes once, in increasing order. */
  lemma {:induction false} KindAddressesIncrease(fs: seq<File>, at: nat, kind: Byte)
    ensures forall i | 0 <= i < |KindAddresses(fs, at, kind)| :: KindAddresses(fs, at, kind)[i] >= at
    ensures forall i, j | 0 <= i < j < |KindAddresses(fs, at, kind)| ::
              KindAddresses(fs, at, kind)[i] < KindAddresses(fs, at, kind)[j]
    decreases |fs|
  {
    if fs != [] {
      KindAddressesIncrease(fs[1..], at + FileLen(fs[0]) + Gap(FileLen(fs[0]), 8), kind);
    }
  }

  /** The handles that PeiFfsFindNextFile yields when each is fed back, each call
      continuing from the handle's own address, and the status that ends them;
      None if there are `fuel` calls or a call does not return. */
  ghost function Enumerate(m: Mem, kind: Byte, fv: Word, handle: Word, fuel: nat): Option<(seq<Word>, Status)>
    decreases fuel
  {
    if fuel == 0 || !NextStops(m, kind, fv, handle, handle) then None
    else
      var n := FindNext(m, kind, fv, handle, handle);
      if n.status != Success then Some(([], n.status))
      else
        match Enumerate(m, kind, fv, n.handle, fuel - 1)
        case Some(r) => Some(([n.handle] + r.0, r.1))
        case None => None
  }

  lemma {:induction false} PrintedSuffix(m: Mem, a: int, fs: seq<File>, i: nat)
    requires i <= |fs| && Holds(m, a, PrintFiles(fs))
    ensures |PrintFiles(fs)| == FileOffset(fs, i) + |PrintFiles(fs[i..])|
    ensures Holds(m, a + FileOffset(fs, i), PrintFiles(fs[i..]))
    decreases i
  {
    hide Holds, PrintFiles, FileLen, Gap;
    if i == 0 {
      assert fs[0..] == fs;
    } else {
      PrintedFirstFile(m, a, fs);
      PrintedSuffix(m, a + FileLen(fs[0]) + Gap(FileLen(fs[0]), 8), fs[1..], i - 1);
      assert fs[1..][i - 1..] == fs[i..];
    }
  }

  lemma {:induction false} KindAddressesFrom(fs: seq<File>, at: nat, kind: Byte)
    ensures var i := FirstWanted(fs, Selector(kind, None));
            KindAddresses(fs, at, kind)
            == if i == |fs| then []
               else [at + FileOffset(fs, i)] + KindAddresses(fs[i + 1..], at + FileOffset(fs, i + 1), kind)
    decreases |fs|
  {
    hide FileLen, Gap;
    if fs != [] {
      var next := FileLen(fs[0]) + Gap(FileLen(fs[0]), 8);
      assert FirstWanted(fs, Selector(kind, None))
          == if fs[0].kind == kind then 0 else FirstWanted(fs[1..], Selector(kind, None)) + 1;
      hide FirstWanted, Wanted;
      if fs[0].kind == kind {
        assert FileOffset(fs, 1) == next + FileOffset(fs[1..], 0) == next;
        assert KindAddresses(fs, at, kind) == [at] + KindAddresses(fs[1..], at + next, kind);
      } else {
        var i := FirstWanted(fs[1..], Selector(kind, None));
        KindAddressesFrom(fs[1..], at + next, kind);
        if i < |fs[1..]| {
          assert fs[1..][i + 1..] == fs[i + 2..];
          assert FileOffset(fs, i + 1) == next + FileOffset(fs[1..], i);
          assert FileOffset(fs, i + 2) == next + FileOffset(fs[1..], i + 1);
        }
      }
    }
  }

  lemma {:induction false} OffsetStep(fs: seq<File>, i: nat)
    requires i < |fs|
    ensures FileOffset(fs, i + 1) == FileOffset(fs, i) + FileLen(fs[i]) + Gap(FileLen(fs[i]), 8)
    decreases i
  {
    hide FileLen, Gap;
    if i > 0 {
      OffsetStep(fs[1..], i - 1);
    } else {
      assert FileOffset(fs, 1) == FileLen(fs[0]) + Gap(FileLen(fs[0]), 8) + FileOffset(fs[1..], 0);
    }
  }

  lemma FilesSplit(fs: seq<File>, i: nat)
    requires i <= |fs| && FilesOk(fs)
    ensures FilesOk(fs[i..])
  {
  }

  /** Enumerating from a handle behind which the files fs follow. */
  lemma {:induction false} EnumerateFrom(m: Mem, kind: Byte, fv: Word, handle: Word, a: int, fs: seq<File>, fuel: nat)
    requires fv != 0 && FilesOk(fs) && fuel > |fs|
    requires 0 < a && a % 8 == 0 && a + |PrintFiles(fs)| <= SPACE && Holds(m, a, PrintFiles(fs))
    requires NextStart(m, fv, handle, handle) == a && Eov(m, fv) == a + |PrintFiles(fs)|
    ensures Enumerate(m, kind, fv, handle, fuel) == Some((KindAddresses(fs, a, kind), NotFound))
    decreases |fs|
  {
    hide FileSize, Selects, PrintFiles, PrintFile, Holds, FileLen, Up, Gap, Wanted, Wrap64, Ptr, FileWalk, FilesOk,
         Eov, FirstFile, FirstWanted, FileOffset, KindAddresses;
    var want := Selector(kind, None);
    var i := FirstWanted(fs, want);
    FileWalkFinds(m, a, fs, want);
    KindAddressesFrom(fs, a, kind);
    assert FileWalkStops(m, want, a, Eov(m, fv));
    if i < |fs| {
      var h := a + FileOffset(fs, i);
      NoWraps(h);
      FileEnd(m, a, fs, i, want);
      FileSpan(fs[i]);
      FilesSplit(fs, i + 1);
      PrintedSuffix(m, a, fs, i + 1);
      assert FindNext(m, kind, fv, handle, handle) == Next(Success, h);
      EnumerateFrom(m, kind, fv, h, a + FileOffset(fs, i + 1), fs[i + 1..], fuel - 1);
    }
  }

  lemma FileEnd(m: Mem, a: int, fs: seq<File>, i: nat, want: Selector)
    requires 0 <= a && a % 8 == 0 && a + |PrintFiles(fs)| <= SPACE
    requires i < |fs| && FilesOk(fs) && FilePrinted(m, a, fs, i)
    ensures a + FileOffset(fs, i) + FileSize(m, a + FileOffset(fs, i)) <= SPACE
    ensures Up(Wrap64(a + FileOffset(fs, i) + FileSize(m, a + FileOffset(fs, i))), 8) == a + FileOffset(fs, i + 1)
    ensures (a + FileOffset(fs, i + 1)) % 8 == 0
  {
    hide FileSize, Selects, PrintFiles, PrintFile, Holds, FileLen, Up, Gap, Wanted, Wrap64, FileOffset;
    var f := a + FileOffset(fs, i);
    PrintedFileHeader(m, f, fs[i], want);
    OffsetStep(fs, i);
    NoWraps(f + FileLen(fs[i]));
    NextPrinted(f, FileLen(fs[i]));
  }

  /** From a NULL handle PeiFfsFindNextFile yields every file of the wanted type
      exactly once, in layout order, and then NOT_FOUND. */
  lemma EnumerationIsComplete(m: Mem, fv: Word, v: Fv, kind: Byte)
    requires PrintedAtBase(m, fv, v) && fv != 0
    ensures Enumerate(m, kind, fv, 0, |v.files| + 1)
         == Some((KindAddresses(v.files, fv + FilesOffset(v), kind), NotFound))
  {
    hide PrintFiles, Holds, Print, Eov, FirstFile, FilesOffset, FvLen, HeaderLen, Enumerate, KindAddresses;
    PrintedVolumeHeader(m, fv, v);
    PrintedVolumeBounds(m, fv, v);
    EnumerateFrom(m, kind, fv, 0, fv + FilesOffset(v), v.files, |v.files| + 1);
  }
}
