/** The two firmware-volume walkers, over raw memory. */
module Volume {
  import opened Memory
  import opened Guids

  datatype Status = Success | InvalidParameter | NotFound | VolumeCorrupted

  /** A status and the section pointer returned with it; 0 is NULL. */
  datatype Result = Result(status: Status, section: Word)

  /** Which files a walk wants: a type and, optionally, a name. */
  datatype Selector = Selector(kind: Byte, name: Option<Guid>)

  const SECTION_HEADER := 4
  const FILE_HEADER := 24

  const SECTION_TE: Byte := 0x12
  const SECTION_FREEFORM_SUBTYPE_GUID: Byte := 0x18
  const SECTION_RAW: Byte := 0x19
  const FILETYPE_FREEFORM: Byte := 0x02
  const FILETYPE_PEIM: Byte := 0x06

  /** PEI_APRIORI_FILE_NAME_GUID */
  const APRIORI_NAME: Guid := Guid.Guid(0x1b45cc0a, 0x156a, 0x428a, [0xaf, 0x62, 0x49, 0x86, 0x4d, 0xa0, 0xe6, 0xe6])

  // ----- Header fields -----

  function FvLength(m: Mem, fv: int): Addr {
    Read64(m, fv + 32)
  }

  function FvHeaderLength(m: Mem, fv: int): (r: int)
    ensures 0 <= r < 0x1_0000
  {
    Read16(m, fv + 48)
  }

  function FileKind(m: Mem, f: int): Byte {
    Read8(m, f + 18)
  }

  function FileSize(m: Mem, f: int): (r: int)
    ensures 0 <= r < 0x100_0000
  {
    Read24(m, f + 20)
  }

  function SectionSize(m: Mem, s: int): (r: int)
    ensures 0 <= r < 0x100_0000
  {
    Read24(m, s)
  }

  function SectionKind(m: Mem, s: int): Byte {
    Read8(m, s + 3)
  }

  /** End of the volume at fv. */
  function Eov(m: Mem, fv: Word): Addr {
    Wrap64(fv + FvLength(m, fv))
  }

  /** Address of the first file of the volume at fv. */
  function FirstFile(m: Mem, fv: Word): Addr {
    Up(fv + FvHeaderLength(m, fv), 8)
  }

  predicate Selects(m: Mem, want: Selector, f: int) {
    FileKind(m, f) == want.kind && (want.name.None? || GuidAt(m, f, want.name.value))
  }

  // ----- What the loops compute -----

  /** The section loop from address a, at most `fuel` advances long; None if it
      has not stopped by then. */
  function SectionWalk(m: Mem, want: Byte, a: Addr, end: Addr, fuel: nat): Option<Result>
    decreases fuel
  {
    if a >= end then Some(Result(NotFound, 0))
    else if SectionSize(m, a) < SECTION_HEADER then Some(Result(VolumeCorrupted, 0))
    else if Wrap64(a + SectionSize(m, a)) > end then Some(Result(VolumeCorrupted, 0))
    else if SectionKind(m, a) == want then Some(Result(Success, Ptr(a)))
    else if fuel == 0 then None
    else SectionWalk(m, want, Wrap64(a + SectionSize(m, a)), end, fuel - 1)
  }

  ghost predicate SectionWalkStops(m: Mem, want: Byte, a: Addr, end: Addr) {
    exists fuel: nat :: SectionWalk(m, want, a, end, fuel).Some?
  }

  lemma {:induction false} SectionFuel(m: Mem, want: Byte, a: Addr, end: Addr, f1: nat, f2: nat)
    requires f1 <= f2 && SectionWalk(m, want, a, end, f1).Some?
    ensures SectionWalk(m, want, a, end, f2) == SectionWalk(m, want, a, end, f1)
    decreases f1
  {
    if f1 > 0 && SectionWalk(m, want, a, end, 0).None? {
      SectionFuel(m, want, Wrap64(a + SectionSize(m, a)), end, f1 - 1, f2 - 1);
    }
  }

  /** The answer of FindSection. */
  ghost function SectionSearch(m: Mem, want: Byte, start: Addr, end: Addr): (r: Result)
    requires SectionWalkStops(m, want, Up(start, 4), end)
    ensures forall fuel: nat :: SectionWalk(m, want, Up(start, 4), end, fuel) in {None, Some(r)}
  {
    var a := Up(start, 4);
    var fuel: nat :| SectionWalk(m, want, a, end, fuel).Some?;
    assert forall f: nat :: SectionWalk(m, want, a, end, f) in {None, SectionWalk(m, want, a, end, fuel)} by {
      forall f: nat | SectionWalk(m, want, a, end, f).Some?
        ensures SectionWalk(m, want, a, end, f) == SectionWalk(m, want, a, end, fuel)
      {
        if f <= fuel {
          SectionFuel(m, want, a, end, f, fuel);
        } else {
          SectionFuel(m, want, a, end, fuel, f);
        }
      }
    }
    SectionWalk(m, want, a, end, fuel).value
  }

  method FindSection(m: Mem, want: Byte, sectionsAddr: Addr, sectionsEnd: Addr) returns (r: Result)
    requires SectionWalkStops(m, want, Up(sectionsAddr, 4), sectionsEnd)
    ensures r == SectionSearch(m, want, sectionsAddr, sectionsEnd)
  {
    AlignAddr4And8(sectionsAddr);
    var addr: Addr := AlignAddr(sectionsAddr, 4);
    ghost var fuel: nat :| SectionWalk(m, want, addr, sectionsEnd, fuel).Some?;
    ghost var answer := SectionWalk(m, want, addr, sectionsEnd, fuel);
    while addr < sectionsEnd
      invariant SectionWalk(m, want, addr, sectionsEnd, fuel) == answer
      decreases fuel
    {
      var size := SectionSize(m, addr);
      if size < SECTION_HEADER {
        return Result(VolumeCorrupted, 0);
      }
      if Wrap64(addr + size) > sectionsEnd {
        return Result(VolumeCorrupted, 0);
      }
      if SectionKind(m, addr) == want {
        return Result(Success, Ptr(addr));
      }
      addr := Wrap64(addr + size);
      fuel := fuel - 1;
    }
    return Result(NotFound, 0);
  }

  /** How the file loop ends. */
  datatype FileResult = Hit(file: Addr) | NoMore | Corrupt

  /** The end of the file at f. */
  function Eof(m: Mem, f: int): Addr {
    Wrap64(f + FileSize(m, f))
  }

  /** The file loop from address a, at most `fuel` advances long. */
  function FileWalk(m: Mem, want: Selector, a: Addr, eov: Addr, fuel: nat): Option<FileResult>
    decreases fuel
  {
    if a >= eov then Some(NoMore)
    else if Eof(m, a) > eov then Some(Corrupt)
    else if Selects(m, want, a) then Some(Hit(a))
    else if fuel == 0 then None
    else FileWalk(m, want, Up(Eof(m, a), 8), eov, fuel - 1)
  }

  ghost predicate FileWalkStops(m: Mem, want: Selector, a: Addr, eov: Addr) {
    exists fuel: nat :: FileWalk(m, want, a, eov, fuel).Some?
  }

  lemma {:induction false} FileFuel(m: Mem, want: Selector, a: Addr, eov: Addr, f1: nat, f2: nat)
    requires f1 <= f2 && FileWalk(m, want, a, eov, f1).Some?
    ensures FileWalk(m, want, a, eov, f2) == FileWalk(m, want, a, eov, f1)
    decreases f1
  {
    if f1 > 0 && FileWalk(m, want, a, eov, 0).None? {
      FileFuel(m, want, Up(Eof(m, a), 8), eov, f1 - 1, f2 - 1);
    }
  }

  /** Where the file loop from a ends. */
  ghost function FileSearch(m: Mem, want: Selector, a: Addr, eov: Addr): (r: FileResult)
    requires FileWalkStops(m, want, a, eov)
    ensures forall fuel: nat :: FileWalk(m, want, a, eov, fuel) in {None, Some(r)}
  {
    var fuel: nat :| FileWalk(m, want, a, eov, fuel).Some?;
    assert forall f: nat :: FileWalk(m, want, a, eov, f) in {None, FileWalk(m, want, a, eov, fuel)} by {
      forall f: nat | FileWalk(m, want, a, eov, f).Some?
        ensures FileWalk(m, want, a, eov, f) == FileWalk(m, want, a, eov, fuel)
      {
        if f <= fuel {
          FileFuel(m, want, a, eov, f, fuel);
        } else {
          FileFuel(m, want, a, eov, fuel, f);
        }
      }
    }
    FileWalk(m, want, a, eov, fuel).value
  }

  /** The body of the file at f: `ToPhysAddr(File + 1)`, where File is a pointer. */
  function Body(f: Addr): Addr {
    Ptr(Ptr(f) + FILE_HEADER)
  }

  ghost predicate VolumeWalkStops(m: Mem, fv: Word, section: Byte, want: Selector) {
    && FileWalkStops(m, want, FirstFile(m, fv), Eov(m, fv))
    && var r := FileSearch(m, want, FirstFile(m, fv), Eov(m, fv));
       r.Hit? ==> SectionWalkStops(m, section, Up(Body(r.file), 4), Eof(m, r.file))
  }

  /** The answer of GetFileSection. */
  ghost function VolumeSearch(m: Mem, fv: Word, section: Byte, want: Selector): Result
    requires VolumeWalkStops(m, fv, section, want)
  {
    match FileSearch(m, want, FirstFile(m, fv), Eov(m, fv))
    case Hit(f) => SectionSearch(m, section, Body(f), Eof(m, f))
    case NoMore => Result(NotFound, 0)
    case Corrupt => Result(VolumeCorrupted, 0)
  }

  method GetFileSection(m: Mem, fv: Word, section: Byte, want: Selector) returns (r: Result)
    requires VolumeWalkStops(m, fv, section, want)
    ensures r == VolumeSearch(m, fv, section, want)
  {
    hide FvLength, FvHeaderLength, FileSize, FileKind, GuidAt, Up, Ptr, SectionWalk;
    var eov: Addr := Eov(m, fv);
    AlignAddr4And8(fv + FvHeaderLength(m, fv));
    var addr: Addr := AlignAddr(fv + FvHeaderLength(m, fv), 8);
    ghost var fuel: nat :| FileWalk(m, want, addr, eov, fuel).Some?;
    ghost var answer := FileWalk(m, want, addr, eov, fuel);
    while addr < eov
      invariant FileWalk(m, want, addr, eov, fuel) == answer
      decreases fuel
    {
      var eof := Eof(m, addr);
      if eof > eov {
        return Result(VolumeCorrupted, 0);
      }
      var fileNameOk := want.name.None? || GuidAt(m, addr, want.name.value);
      if fileNameOk && FileKind(m, addr) == want.kind {
        r := FindSection(m, section, Body(addr), eof);
        return;
      }
      AlignAddr4And8(eof);
      addr := AlignAddr(eof, 8);
      fuel := fuel - 1;
    }
    return Result(NotFound, 0);
  }

  /** The entry point of the TE image in the section at s. */
  function TeEntry(m: Mem, s: Word): Word {
    var te := Ptr(s + SECTION_HEADER);
    Ptr(Ptr(te - Read16(m, te + 6)) + (40 + Read32(m, te + 8)) % SPACE)
  }

  /** The answer of GetTeEntryPoint. */
  ghost function TeSearch(m: Mem, fv: Word, want: Selector): Result
    requires VolumeWalkStops(m, fv, SECTION_TE, want)
  {
    var s := VolumeSearch(m, fv, SECTION_TE, want);
    if s.section == 0 then s else s.(section := TeEntry(m, s.section))
  }

  method GetTeEntryPoint(m: Mem, fv: Word, want: Selector) returns (r: Result)
    requires VolumeWalkStops(m, fv, SECTION_TE, want)
    ensures r == TeSearch(m, fv, want)
  {
    hide Ptr, Read16, Read32;
    r := GetFileSection(m, fv, SECTION_TE, want);
    if r.section != 0 {
      var ptr := Ptr(r.section + SECTION_HEADER);
      var teHdr := ptr;
      ptr := Ptr(ptr - Read16(m, teHdr + 6));
      ptr := Ptr(ptr + (40 + Read32(m, teHdr + 8)) % SPACE);
      r := r.(section := ptr);
    }
  }

  const APRIORI_FILE := Selector(FILETYPE_FREEFORM, Some(APRIORI_NAME))

  /** The answer of GetAprioriFile. */
  ghost function AprioriSearch(m: Mem, fv: Word): Result
    requires VolumeWalkStops(m, fv, SECTION_RAW, APRIORI_FILE)
  {
    var s := VolumeSearch(m, fv, SECTION_RAW, APRIORI_FILE);
    if s.section == 0 then s else s.(section := Ptr(s.section + SECTION_HEADER))
  }

  method GetAprioriFile(m: Mem, fv: Word) returns (r: Result)
    requires VolumeWalkStops(m, fv, SECTION_RAW, APRIORI_FILE)
    ensures r == AprioriSearch(m, fv)
  {
    r := GetFileSection(m, fv, SECTION_RAW, APRIORI_FILE);
    if r.section != 0 {
      r := r.(section := Ptr(r.section + SECTION_HEADER));
    }
  }

  // ----- The PEI services' walker -----

  /** Where PeiFfsFindNextFile starts. For a non-NULL handle the code adds the
      size of the handle's file to a variable it never set: `unset` is what that
      variable holds. */
  function NextStart(m: Mem, fv: Word, handle: Word, unset: Addr): Addr {
    if handle == 0 then FirstFile(m, fv) else Up(Wrap64(unset + FileSize(m, handle)), 8)
  }

  /** The status and the new handle; the handle is kept on failure. */
  datatype Next = Next(status: Status, handle: Word)

  ghost predicate NextStops(m: Mem, kind: Byte, fv: Word, handle: Word, unset: Addr) {
    FileWalkStops(m, Selector(kind, None), NextStart(m, fv, handle, unset), Eov(m, fv))
  }

  ghost function FindNext(m: Mem, kind: Byte, fv: Word, handle: Word, unset: Addr): Next
    requires fv != 0 ==> NextStops(m, kind, fv, handle, unset)
  {
    if fv == 0 then Next(InvalidParameter, handle)
    else
      match FileSearch(m, Selector(kind, None), NextStart(m, fv, handle, unset), Eov(m, fv))
      case Hit(f) => Next(Success, Ptr(f))
      case NoMore => Next(NotFound, handle)
      case Corrupt => Next(VolumeCorrupted, handle)
  }

  method PeiFfsFindNextFile(m: Mem, kind: Byte, fv: Word, handle: Word, unset: Addr) returns (r: Next)
    requires fv != 0 ==> NextStops(m, kind, fv, handle, unset)
    ensures r == FindNext(m, kind, fv, handle, unset)
  {
    hide FvLength, FvHeaderLength, FileSize, FileKind, GuidAt, Up, Ptr;
    if fv == 0 {
      return Next(InvalidParameter, handle);
    }
    var eov := Eov(m, fv);
    var addr: Addr := unset;
    if handle == 0 {
      AlignAddr4And8(fv + FvHeaderLength(m, fv));
      addr := AlignAddr(fv + FvHeaderLength(m, fv), 8);
    } else {
      AlignAddr4And8(Wrap64(addr + FileSize(m, handle)));
      addr := AlignAddr(Wrap64(addr + FileSize(m, handle)), 8);
    }
    ghost var want := Selector(kind, None);
    ghost var fuel: nat :| FileWalk(m, want, addr, eov, fuel).Some?;
    ghost var answer := FileWalk(m, want, addr, eov, fuel);
    while addr < eov
      invariant FileWalk(m, want, addr, eov, fuel) == answer
      decreases fuel
    {
      var eof := Eof(m, addr);
      if eof > eov {
        return Next(VolumeCorrupted, handle);
      }
      if FileKind(m, addr) == kind {
        return Next(Success, Ptr(addr));
      }
      AlignAddr4And8(eof);
      addr := AlignAddr(eof, 8);
      fuel := fuel - 1;
    }
    return Next(NotFound, handle);
  }

  ghost predicate SectionDataStops(m: Mem, section: Byte, handle: Word) {
    SectionWalkStops(m, section, Up(Body(handle), 4), Eof(m, handle))
  }

  ghost function SectionData(m: Mem, section: Byte, handle: Word): Result
    requires handle != 0 ==> SectionDataStops(m, section, handle)
  {
    if handle == 0 then Result(InvalidParameter, 0) else SectionSearch(m, section, Body(handle), Eof(m, handle))
  }

  method PeiFfsFindSectionData(m: Mem, section: Byte, handle: Word) returns (r: Result)
    requires handle != 0 ==> SectionDataStops(m, section, handle)
    ensures r == SectionData(m, section, handle)
  {
    if handle == 0 {
      return Result(InvalidParameter, 0);
    }
    r := FindSection(m, section, Body(handle), Eof(m, handle));
  }
}
