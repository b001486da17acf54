/** Inputs on which the code does not do what it is meant to. */
module Witnesses {
  import opened Memory
  import opened Words
  import opened Guids
  import opened Volume
  import opened VolumeLaws
  import opened VolumeMoves
  import opened Ppi
  import opened PpiLaws

  /** Memory with the given bytes, and zeros elsewhere. */
  function Sparse(cells: map<int, Byte>): Mem {
    seq(SPACE, i requires 0 <= i < SPACE => if i in cells then cells[i] else 0)
  }

  lemma SparseByte(cells: map<int, Byte>, x: int)
    requires 0 <= x < SPACE
    ensures Read8(Sparse(cells), x) == if x in cells then cells[x] else 0
  {
    NoWraps(x);
  }

  /** A number of which only the lowest byte is given. */
  lemma SparseRead(cells: map<int, Byte>, x: int, n: nat)
    requires 0 <= x && n > 0 && x + n <= SPACE
    requires forall y | x < y < x + n :: y !in cells
    ensures Read(Sparse(cells), x, n) == if x in cells then cells[x] else 0
  {
    hide Sparse, Read8;
    var a := x + 1;
    SparseByte(cells, x);
    forall k: nat | k < n - 1
      ensures ZeroByte(Sparse(cells), a, k)
    {
      SparseByte(cells, a + k);
    }
    ReadZeros(Sparse(cells), a, n - 1);
  }

  lemma SparseVolume(cells: map<int, Byte>, fv: int)
    requires 0 <= fv && fv + 50 <= SPACE
    requires forall y | fv + 32 < y < fv + 40 :: y !in cells
    requires fv + 49 !in cells
    ensures FvLength(Sparse(cells), fv) == if fv + 32 in cells then cells[fv + 32] else 0
    ensures FvHeaderLength(Sparse(cells), fv) == if fv + 48 in cells then cells[fv + 48] else 0
  {
    hide Sparse;
    SparseRead(cells, fv + 32, 8);
    SparseRead(cells, fv + 48, 2);
  }

  lemma SparseFile(cells: map<int, Byte>, f: int)
    requires 0 <= f && f + 24 <= SPACE && f + 21 !in cells && f + 22 !in cells
    ensures FileSize(Sparse(cells), f) == if f + 20 in cells then cells[f + 20] else 0
    ensures FileKind(Sparse(cells), f) == if f + 18 in cells then cells[f + 18] else 0
  {
    hide Sparse;
    SparseRead(cells, f + 20, 3);
    SparseByte(cells, f + 18);
  }

  lemma SparseSection(cells: map<int, Byte>, s: int)
    requires 0 <= s && s + 4 <= SPACE && s + 1 !in cells && s + 2 !in cells
    ensures SectionSize(Sparse(cells), s) == if s in cells then cells[s] else 0
    ensures SectionKind(Sparse(cells), s) == if s + 3 in cells then cells[s + 3] else 0
  {
    hide Sparse;
    SparseRead(cells, s, 3);
    SparseByte(cells, s + 3);
  }

  /** The answer of GetFileSection, None if it does not return. */
  ghost function Answer(m: Mem, fv: Word, section: Byte, want: Selector): Option<Result> {
    if VolumeWalkStops(m, fv, section, want) then Some(VolumeSearch(m, fv, section, want)) else None
  }

  const PEIMS := Selector(FILETYPE_PEIM, None)

  // ----- A volume at 1024 with a file of size zero -----

  const SMALL := 1024

  /** The file follows a header of 72 bytes; its type is 0. */
  function SmallCells(length: Byte): map<int, Byte> {
    map[SMALL + 32 := length, SMALL + 48 := 72]
  }

  lemma SmallVolume(length: Byte)
    requires length >= 80
    ensures var m := Sparse(SmallCells(length));
            && FirstFile(m, SMALL) == SMALL + 72 && Eov(m, SMALL) == SMALL + length
            && Span(m, SMALL) == length
            && FileSize(m, SMALL + 72) == 0 && FileKind(m, SMALL + 72) == 0
  {
    hide Sparse, FvLength, FvHeaderLength, FileSize, FileKind, Up;
    SparseVolume(SmallCells(length), SMALL);
    SparseFile(SmallCells(length), SMALL + 72);
    UpOfMultiple(SMALL + 72, 8);
  }

  /** GetFileSection never returns from it. */
  lemma StuckVolume(section: Byte)
    ensures !VolumeWalkStops(Sparse(SmallCells(96)), SMALL, section, PEIMS)
  {
    hide Sparse, SmallCells, Span, FirstFile, Eov, FileSize, FileKind, FileWalk, GuidAt, Up;
    var m, f := Sparse(SmallCells(96)), SMALL + 72;
    SmallVolume(96);
    NoWraps(f);
    assert Reaches(m, PEIMS, f, SMALL + 96, f, 0);
    assert StuckAt(m, PEIMS, f, SMALL + 96, f, 0);
    VolumeWalkStopsIffNotStuck(m, SMALL, section, PEIMS);
  }

  lemma NoSizeByte(m: Mem, f: Addr, eov: Addr)
    requires f < eov <= f + FILE_SIZE
    ensures !Decided(m, f, eov, eov)
  {
    hide Read8;
  }

  /** With a length of 80 the file's header crosses the end of the volume. */
  lemma HeaderCut()
    ensures !WalkDecidedInside(Sparse(SmallCells(80)), SMALL, PEIMS)
    ensures Top(Sparse(SmallCells(80)), SMALL) == SMALL + 80
  {
    hide Sparse, SmallCells, Span, FirstFile, Eov, Decided;
    var m, f := Sparse(SmallCells(80)), SMALL + 72;
    SmallVolume(80);
    assert Reaches(m, PEIMS, f, SMALL + 80, f, 0);
    NoSizeByte(m, f, SMALL + 80);
  }

  /** Two memories hold these 80 bytes: in one GetFileSection calls the volume
      corrupt, and in the other it does not. */
  lemma CutHeader(section: Byte)
    ensures var m := Sparse(SmallCells(80));
            exists m1: Mem, m2: Mem ::
              && Moved(m, SMALL, m1, SMALL) && Moved(m, SMALL, m2, SMALL)
              && Answer(m1, SMALL, section, PEIMS) == Some(Result(VolumeCorrupted, 0))
              && Answer(m2, SMALL, section, PEIMS) != Some(Result(VolumeCorrupted, 0))
  {
    hide Sparse, SmallCells, Top, Moved, VolumeWalkStops, VolumeSearch, WalkDecidedInside;
    HeaderCut();
    GetFileSectionNeedsHeaders(Sparse(SmallCells(80)), SMALL, section, PEIMS);
  }

  // ----- A volume that ends at the top of the address space -----

  /** Its 88 bytes end d bytes below the top, and its only file is a bare header. */
  function TopCells(d: int): map<int, Byte> {
    map[SPACE - 88 - d + 32 := 88, SPACE - 88 - d + 48 := 64,
        SPACE - 24 - d + 18 := FILETYPE_PEIM, SPACE - 24 - d + 20 := 24,
        0 := 4, 4 := 4, 7 := SECTION_FREEFORM_SUBTYPE_GUID]
  }

  lemma TopVolume(d: int)
    requires d == 0 || d == 8
    ensures var m, fv, f := Sparse(TopCells(d)), SPACE - 88 - d, SPACE - 24 - d;
            && FvLength(m, fv) == 88 && FirstFile(m, fv) == f && Eov(m, fv) == SPACE - d
            && FileSize(m, f) == 24 && FileKind(m, f) == FILETYPE_PEIM
            && SectionSize(m, 0) == SectionSize(m, 4) == 4
            && SectionKind(m, 0) == 0 && SectionKind(m, 4) == SECTION_FREEFORM_SUBTYPE_GUID
  {
    hide Sparse, FvLength, FvHeaderLength, FileSize, FileKind, SectionSize, SectionKind, Up;
    SparseVolume(TopCells(d), SPACE - 88 - d);
    SparseFile(TopCells(d), SPACE - 24 - d);
    SparseSection(TopCells(d), 0);
    SparseSection(TopCells(d), 4);
    UpOfMultiple(SPACE - 24 - d, 8);
  }

  /** At the top itself the walk returns a section at address 4. */
  lemma ContainmentNeedsRoom()
    ensures var m, fv := Sparse(TopCells(0)), SPACE - 88;
            && Fits(m, fv)
            && VolumeWalkStops(m, fv, SECTION_FREEFORM_SUBTYPE_GUID, PEIMS)
            && VolumeSearch(m, fv, SECTION_FREEFORM_SUBTYPE_GUID, PEIMS) == Result(Success, 4)
  {
    hide Sparse, TopCells, FvLength, FirstFile, Eov, FileSize, FileKind, SectionSize, SectionKind;
    var m := Sparse(TopCells(0));
    TopVolume(0);
    UpOfMultiple(0, 4);
    assert FileWalk(m, PEIMS, SPACE - 24, SPACE, 0) == Some(Hit(SPACE - 24));
    assert SectionWalk(m, SECTION_FREEFORM_SUBTYPE_GUID, 4, SPACE, 0) == Some(Result(Success, 4));
    assert SectionWalk(m, SECTION_FREEFORM_SUBTYPE_GUID, 0, SPACE, 1) == Some(Result(Success, 4));
  }

  /** Moved 8 bytes down the same volume has no such section. */
  lemma MoveNeedsRoom()
    ensures var m1, fv1, m2, fv2 := Sparse(TopCells(0)), SPACE - 88, Sparse(TopCells(8)), SPACE - 96;
            && Moved(m1, fv1, m2, fv2)
            && Answer(m1, fv1, SECTION_FREEFORM_SUBTYPE_GUID, PEIMS) == Some(Result(Success, 4))
            && Answer(m2, fv2, SECTION_FREEFORM_SUBTYPE_GUID, PEIMS) == Some(Result(NotFound, 0))
  {
    ContainmentNeedsRoom();
    TopMoved();
    hide Sparse, TopCells, FvLength, FirstFile, Eov, FileSize, FileKind, SectionSize, SectionKind, Moved;
    var m := Sparse(TopCells(8));
    TopVolume(8);
    UpOfMultiple(SPACE - 8, 4);
    assert FileWalk(m, PEIMS, SPACE - 32, SPACE - 8, 0) == Some(Hit(SPACE - 32));
    assert SectionWalk(m, SECTION_FREEFORM_SUBTYPE_GUID, SPACE - 8, SPACE - 8, 0) == Some(Result(NotFound, 0));
  }

  lemma TopCellsMoved(x: int)
    requires SPACE - 88 <= x < SPACE
    ensures x in TopCells(0) <==> x - 8 in TopCells(8)
    ensures x in TopCells(0) ==> TopCells(0)[x] == TopCells(8)[x - 8]
  {
  }

  lemma TopMoved()
    ensures Moved(Sparse(TopCells(0)), SPACE - 88, Sparse(TopCells(8)), SPACE - 96)
  {
    hide Sparse, TopCells, FvLength, Read8;
    TopVolume(0);
    var m1, fv1, m2, fv2 := Sparse(TopCells(0)), SPACE - 88, Sparse(TopCells(8)), SPACE - 96;
    forall k: nat | k < 88
      ensures SameByte(m1, fv1, m2, fv2, k)
    {
      SparseByte(TopCells(0), fv1 + k);
      SparseByte(TopCells(8), fv2 + k);
      TopCellsMoved(fv1 + k);
    }
  }

  // ----- A volume that goes on behind the top of the address space -----

  /** A file of type 1 ends at the top; the next one, at address 2^32, is read at
      address 0. */
  function WrappedCells(): map<int, Byte> {
    map[SPACE - 88 + 32 := 152, SPACE - 88 + 48 := 64,
        SPACE - 24 + 18 := 1, SPACE - 24 + 20 := 24,
        18 := FILETYPE_PEIM, 20 := 32, 24 := 8, 27 := SECTION_FREEFORM_SUBTYPE_GUID]
  }

  lemma SameKind(m: Mem)
    ensures FileKind(m, SPACE) == FileKind(m, 0)
  {
    PtrNear(SPACE);
    SamePtr(m, SPACE, 18);
  }

  lemma WrappedVolume()
    ensures var m, fv := Sparse(WrappedCells()), SPACE - 88;
            && FirstFile(m, fv) == SPACE - 24 && Eov(m, fv) == SPACE + 64
            && FileSize(m, SPACE - 24) == 24 && FileKind(m, SPACE - 24) == 1
            && FileSize(m, SPACE) == 32 && FileKind(m, SPACE) == FILETYPE_PEIM
            && SectionSize(m, 24) == 8 && SectionKind(m, 24) == SECTION_FREEFORM_SUBTYPE_GUID
  {
    hide Sparse, FvLength, FvHeaderLength, FileSize, FileKind, SectionSize, SectionKind, Up;
    var m := Sparse(WrappedCells());
    SparseVolume(WrappedCells(), SPACE - 88);
    SparseFile(WrappedCells(), SPACE - 24);
    SparseFile(WrappedCells(), 0);
    SparseSection(WrappedCells(), 24);
    UpOfMultiple(SPACE - 24, 8);
    NoWraps(0);
    PtrNear(SPACE);
    SameHeader(m, SPACE);
    SameKind(m);
  }

  /** GetFileSection finds its section; the handle that PeiFfsFindNextFile returns
      is NULL, and PeiFfsFindSectionData refuses it. */
  lemma WalkersDiffer(unset: Addr)
    ensures var m, fv := Sparse(WrappedCells()), SPACE - 88;
            && Answer(m, fv, SECTION_FREEFORM_SUBTYPE_GUID, PEIMS) == Some(Result(Success, 24))
            && ServiceStops(m, fv, SECTION_FREEFORM_SUBTYPE_GUID, FILETYPE_PEIM, unset)
            && ServiceSearch(m, fv, SECTION_FREEFORM_SUBTYPE_GUID, FILETYPE_PEIM, unset) == Result(InvalidParameter, 0)
  {
    hide Sparse, WrappedCells, FirstFile, Eov, FileSize, FileKind, SectionSize, SectionKind;
    var m := Sparse(WrappedCells());
    WrappedVolume();
    UpOfMultiple(SPACE, 8);
    UpOfMultiple(24, 4);
    assert FileWalk(m, PEIMS, SPACE, SPACE + 64, 0) == Some(Hit(SPACE));
    assert FileWalk(m, PEIMS, SPACE - 24, SPACE + 64, 1) == Some(Hit(SPACE));
    assert SectionWalk(m, SECTION_FREEFORM_SUBTYPE_GUID, 24, SPACE + 32, 0) == Some(Result(Success, 24));
    NullHandleDisagrees(m, SPACE - 88, SECTION_FREEFORM_SUBTYPE_GUID, FILETYPE_PEIM, unset, SPACE);
  }

  /** Success with a NULL handle: fed back it starts the enumeration again. */
  lemma EnumerationRestarts(unset: Addr)
    ensures var m, fv := Sparse(WrappedCells()), SPACE - 88;
            NextStops(m, FILETYPE_PEIM, fv, 0, unset) && FindNext(m, FILETYPE_PEIM, fv, 0, unset) == Next(Success, 0)
  {
    hide Sparse, WrappedCells, FirstFile, Eov, FileSize, FileKind;
    WrappedVolume();
    UpOfMultiple(SPACE, 8);
    PtrNear(SPACE);
    assert FileWalk(Sparse(WrappedCells()), PEIMS, SPACE, SPACE + 64, 0) == Some(Hit(SPACE));
    assert FileWalk(Sparse(WrappedCells()), PEIMS, SPACE - 24, SPACE + 64, 1) == Some(Hit(SPACE));
  }

  // ----- Sections around the 64-bit address space -----

  /** A section of size 4 and type 0 at every multiple of 4. */
  function Fours(): Mem {
    seq(SPACE, i requires 0 <= i < SPACE => if i % 4 == 0 then 4 else 0)
  }

  lemma FoursSection(s: Addr)
    requires s % 4 == 0
    ensures SectionSize(Fours(), s) == 4 && SectionKind(Fours(), s) == 0
  {
    hide Read8;
    FoursByte(s);
    var a := s + 1;
    forall k: nat | k < 2
      ensures ZeroByte(Fours(), a, k)
    {
      FoursByte(a + k);
    }
    ReadZeros(Fours(), a, 2);
    FoursByte(s + 3);
  }

  lemma FoursByte(x: int)
    ensures Read8(Fours(), x) == if x % 4 == 0 then 4 else 0
  {
    PtrIs(x);
  }

  /** With the highest possible end the section loop goes round for ever. */
  lemma {:induction false} EndlessSections(want: Byte, s: Addr, fuel: nat)
    requires want != 0 && s % 4 == 0
    ensures SectionWalk(Fours(), want, s, TWO64 - 1, fuel).None?
    decreases fuel
  {
    hide Fours, SectionSize, SectionKind, Wrap64, Ptr;
    FoursSection(s);
    FourOn(s);
    if fuel > 0 {
      EndlessSections(want, Wrap64(s + 4), fuel - 1);
    }
  }

  lemma FourOn(s: Addr)
    requires s % 4 == 0
    ensures s < TWO64 - 1 && Wrap64(s + 4) <= TWO64 - 1 && Wrap64(s + 4) % 4 == 0
  {
    if s + 4 < TWO64 {
      NoWraps(s + 4);
    } else {
      assert Mod(s + 4, TWO64) == Mod(s + 4 - TWO64, TWO64);
    }
  }

  // ----- A rejected list -----

  const LIST: Word := 4096
  const SHIFT: Word := SMALL + 96
  const FOUND: Result := Result(Success, SHIFT)

  /** The boot volume has one PEIM with a free-form section. The list has a
      position-independent PPI, whose interface is at 128, and then a descriptor
      that is no PPI; or, if shared, one more with the same interface, the last. */
  function BootCells(shared: bool): map<int, Byte> {
    var one := map[SMALL + 32 := 104, SMALL + 48 := 72,
                   SMALL + 72 + 18 := FILETYPE_PEIM, SMALL + 72 + 20 := 32,
                   SMALL + 96 := 8, SMALL + 99 := SECTION_FREEFORM_SUBTYPE_GUID,
                   LIST := 0x11, LIST + PPI_FIELD := 128];
    if shared then one[LIST + 12 := 0x11][LIST + 15 := 0x80][LIST + 12 + PPI_FIELD := 128] else one
  }

  ghost function Before(): Db {
    Db(Sparse(BootCells(false)), [0, 0], 0)
  }

  lemma BootVolume(shared: bool)
    ensures var m := Sparse(BootCells(shared));
            && FirstFile(m, SMALL) == SMALL + 72 && Eov(m, SMALL) == SMALL + 104 && Span(m, SMALL) == 104
            && FileSize(m, SMALL + 72) == 32 && FileKind(m, SMALL + 72) == FILETYPE_PEIM
            && SectionSize(m, SHIFT) == 8 && SectionKind(m, SHIFT) == SECTION_FREEFORM_SUBTYPE_GUID
  {
    hide Sparse, FvLength, FvHeaderLength, FileSize, FileKind, SectionSize, SectionKind, Up;
    SparseVolume(BootCells(shared), SMALL);
    SparseFile(BootCells(shared), SMALL + 72);
    SparseSection(BootCells(shared), SMALL + 96);
    UpOfMultiple(SMALL + 72, 8);
  }

  lemma BootLookup(shared: bool)
    ensures Searchable(Sparse(BootCells(shared)), SMALL) && Lookup(Sparse(BootCells(shared)), SMALL) == FOUND
    ensures WalkDecidedInside(Sparse(BootCells(shared)), SMALL, PEIMS)
  {
    hide Sparse, BootCells, Span, FirstFile, Eov, FileSize, FileKind, SectionSize, SectionKind, Decided;
    var m, f := Sparse(BootCells(shared)), SMALL + 72;
    BootVolume(shared);
    UpOfMultiple(SHIFT, 4);
    assert FileWalk(m, PEIMS, f, SMALL + 104, 0) == Some(Hit(f));
    assert SectionWalk(m, SECTION_FREEFORM_SUBTYPE_GUID, SHIFT, SMALL + 104, 0) == Some(FOUND);
    var eov: Addr := SMALL + 104;
    forall g: Addr, n: nat | Reaches(m, PEIMS, f, eov, g, n) && g < eov
      ensures Decided(m, g, eov, SMALL + 104)
    {
      assert n == 0;
      InsideDecided(m, f, eov, SMALL + 104);
    }
  }

  lemma InsideDecided(m: Mem, f: Addr, eov: Addr, top: nat)
    requires f + FILE_READ <= top
    ensures Decided(m, f, eov, top)
  {
  }

  lemma ListDescriptors()
    ensures Desc(LIST, 0) == LIST && Desc(LIST, 1) == LIST + 12
    ensures Pointer(Before().mem, LIST, 0, PPI_FIELD) == 128
    ensures IsPpi(Before().mem, LIST, 0) && IsPic(Before().mem, LIST, 0) && !IsLast(Before().mem, LIST, 0)
    ensures !IsPpi(Before().mem, LIST, 1)
  {
    hide Sparse, Read;
    SparseRead(BootCells(false), LIST, 4);
    SparseRead(BootCells(false), LIST + PPI_FIELD, 4);
    SparseRead(BootCells(false), LIST + 12, 4);
  }

  /** Two descriptors of 12 bytes, and an entry away from them. */
  lemma EntryApart(e: Word)
    requires 1000 <= e <= 3000
    ensures ApartFromDesc(e, LIST) && ApartFromDesc(e, LIST + 12)
  {
    hide Apart;
    FarApart(e, LIST);
    FarApart(e, LIST + GUID_FIELD);
    FarApart(e, LIST + PPI_FIELD);
    FarApart(e, LIST + 12);
    FarApart(e, LIST + 12 + GUID_FIELD);
    FarApart(e, LIST + 12 + PPI_FIELD);
  }

  lemma ListSeparate(m: Mem)
    requires Desc(LIST, 0) == LIST && Desc(LIST, 1) == LIST + 12
    requires 1000 <= Entry(m, LIST, 0, FOUND) <= 3000
    ensures Separate(m, LIST, 1, 2, FOUND)
  {
    hide Desc, Entry, ApartFromDesc, Apart, Shift;
    EntryApart(Entry(m, LIST, 0, FOUND));
    forall i: nat, j: nat | i < 1 && j < 2 && Moves(m, LIST, i, FOUND)
      ensures ApartFromDesc(Entry(m, LIST, i, FOUND), Desc(LIST, j))
    {
      assert i == 0 && (j == 0 || j == 1);
    }
  }

  lemma ListEnds()
    ensures Ends(Before().mem, LIST, 2, FOUND, 1, InvalidParameter) && PicBefore(Before().mem, LIST, 1)
    ensures Shift(Before().mem, LIST, 0, FOUND) == SHIFT && Entry(Before().mem, LIST, 0, FOUND) == 128 + SHIFT
    ensures Separate(Before().mem, LIST, 1, 2, FOUND)
  {
    hide Before, Desc, IsPpi, IsPic, IsLast, Separate, Read32;
    ListDescriptors();
    assert IsPic(Before().mem, LIST, 0);
    NoWraps(128 + SHIFT);
    ListSeparate(Before().mem);
  }

  /** The first attempt is rejected and leaves the interface pointer shifted. */
  lemma RejectedOnce()
    ensures var r := Install(Before(), LIST, Lookup(Before().mem, SMALL));
            && r.status == InvalidParameter && r.db.Valid() && r.db.Entries() == []
            && Pointer(r.db.mem, LIST, 0, PPI_FIELD) == 128 + SHIFT
            && Lookup(r.db.mem, SMALL) == FOUND
  {
    hide Sparse, BootCells, Desc, Ends, Entry, Separate, Shift, Shifted, Pointer, Lookup, Install, Written, PicBefore,
         Searchable, WalkDecidedInside;
    BootLookup(false);
    ListDescriptors();
    ListEnds();
    InstallFollows(Before(), LIST, FOUND, 1, InvalidParameter);
    var m, m' := Before().mem, Install(Before(), LIST, FOUND).db.mem;
    ShiftedPointers(m, m', LIST, 0, FOUND, 1);
    NoWraps(128 + SHIFT);
    VolumeKept(m');
  }

  lemma VolumeBytesKept(m': Mem)
    requires forall x: Word | !Written(Before().mem, LIST, 1, FOUND, x) :: m'[x] == Before().mem[x]
    ensures Moved(Before().mem, SMALL, m', SMALL)
  {
    hide Sparse, BootCells, Desc, Ends, Entry, Separate, PicBefore, WrittenBy, FirstFile, Eov, FileSize, SectionSize,
         IsPpi, FvLength;
    var m := Before().mem;
    BootVolume(false);
    ListDescriptors();
    ListEnds();
    forall k: nat | k < 104
      ensures SameByte(m, SMALL, m', SMALL, k)
    {
      NoWraps(SMALL + k);
      NotWritten(m, SMALL + k);
      assert !Written(m, LIST, 1, FOUND, SMALL + k);
    }
  }

  lemma VolumeKept(m': Mem)
    requires forall x: Word | !Written(Before().mem, LIST, 1, FOUND, x) :: m'[x] == Before().mem[x]
    ensures Lookup(m', SMALL) == FOUND
  {
    hide Sparse, BootCells, Written, VolumeWalkStops, VolumeSearch, WalkDecidedInside, Moved;
    var m := Before().mem;
    BootLookup(false);
    VolumeBytesKept(m');
    BelowTop(m, SMALL, PEIMS) by { BootVolume(false); }
    GetFileSectionMoves(m, SMALL, m', SMALL, SECTION_FREEFORM_SUBTYPE_GUID, PEIMS);
  }

  lemma NotWritten(m: Mem, x: Word)
    requires x < 1128 && Desc(LIST, 0) == LIST && Entry(m, LIST, 0, FOUND) == 128 + SHIFT
    ensures !WrittenBy(m, LIST, 0, FOUND, x)
  {
    hide Desc, Entry;
    PtrNear(x - (LIST + GUID_FIELD));
    PtrNear(x - (LIST + PPI_FIELD));
    PtrNear(x - (128 + SHIFT));
  }

  /** The second attempt is rejected too and shifts it once more. */
  lemma RejectedTwice()
    ensures var first := Install(Before(), LIST, Lookup(Before().mem, SMALL));
            first.db.Valid() &&
            var second := Install(first.db, LIST, Lookup(first.db.mem, SMALL));
            && second.status == InvalidParameter && second.db.Valid() && second.db.Entries() == []
            && Pointer(second.db.mem, LIST, 0, PPI_FIELD) == 128 + 2 * SHIFT
  {
    hide Sparse, BootCells, Desc, Ends, Separate, Shift, Shifted, Lookup, Install, Written, PicBefore, Searchable,
         WalkDecidedInside;
    BootLookup(false);
    ListDescriptors();
    ListEnds();
    RejectedOnce();
    var m' := Install(Before(), LIST, FOUND).db.mem;
    assert Entry(m', LIST, 0, FOUND) == 128 + 2 * SHIFT by {
      InstallKeepsShift();
      NoWraps(128 + 2 * SHIFT);
    }
    ListSeparate(m');
    RejectedAgain(Before(), LIST, FOUND, 1, InvalidParameter);
    var second := Install(Install(Before(), LIST, FOUND).db, LIST, FOUND);
    assert ShiftedTwice(Before().mem, second.db.mem, LIST, 0, FOUND);
    NoWraps(128 + 2 * SHIFT);
  }

  lemma InstallKeepsShift()
    ensures Shift(Install(Before(), LIST, FOUND).db.mem, LIST, 0, FOUND) == SHIFT
  {
    hide Sparse, BootCells, Desc, Entry, Ends, Separate, Install, IsPpi, IsLast, Applied;
    ListDescriptors();
    ListEnds();
    InstallIsApplied(Before(), LIST, FOUND, 1, InvalidParameter);
    ReadsFlags(Before().mem, LIST, 0, 1, 1, 2, FOUND);
    assert IsPic(Install(Before(), LIST, FOUND).db.mem, LIST, 0);
  }

  // ----- A shared interface -----

  ghost function Shared(): Db {
    Db(Sparse(BootCells(true)), [0, 0], 0)
  }

  lemma LastFlags()
    ensures Read32(Shared().mem, LIST + 12) == 0x8000_0011
  {
    hide Sparse, Read8, BootCells;
    var m, a := Shared().mem, LIST + 12;
    SharedByte(0);
    SharedByte(1);
    SharedByte(2);
    SharedByte(3);
    FourBytes(m, a);
  }

  lemma SharedByte(k: nat)
    requires k < 4
    ensures Read8(Shared().mem, LIST + 12 + k) == if k == 0 then 0x11 else if k == 3 then 0x80 else 0
  {
    SparseByte(BootCells(true), LIST + 12 + k);
  }

  lemma SharedDescriptors()
    ensures Desc(LIST, 0) == LIST && Desc(LIST, 1) == LIST + 12
    ensures Pointer(Shared().mem, LIST, 0, PPI_FIELD) == Pointer(Shared().mem, LIST, 1, PPI_FIELD) == 128
    ensures IsPpi(Shared().mem, LIST, 0) && IsPic(Shared().mem, LIST, 0) && !IsLast(Shared().mem, LIST, 0)
    ensures IsPpi(Shared().mem, LIST, 1) && IsPic(Shared().mem, LIST, 1) && IsLast(Shared().mem, LIST, 1)
    ensures Read32(Shared().mem, 128 + SHIFT) == 0
  {
    hide Sparse, Read;
    SparseRead(BootCells(true), LIST, 4);
    SparseRead(BootCells(true), LIST + PPI_FIELD, 4);
    SparseRead(BootCells(true), LIST + 12 + PPI_FIELD, 4);
    SparseRead(BootCells(true), 128 + SHIFT, 4);
    LastFlags();
  }

  lemma SharedEnds()
    ensures Ends(Shared().mem, LIST, 2, FOUND, 2, Success)
    ensures Shift(Shared().mem, LIST, 0, FOUND) == Shift(Shared().mem, LIST, 1, FOUND) == SHIFT
    ensures Entry(Shared().mem, LIST, 0, FOUND) == Entry(Shared().mem, LIST, 1, FOUND) == 128 + SHIFT
    ensures Separate(Shared().mem, LIST, 2, 2, FOUND)
  {
    hide Shared, Desc, IsPpi, IsPic, IsLast, Read32, ApartFromDesc;
    var m := Shared().mem;
    SharedDescriptors();
    assert IsPic(m, LIST, 0) && IsPic(m, LIST, 1);
    NoWraps(128 + SHIFT);
    EntryApart(128 + SHIFT);
    forall i: nat, j: nat | i < 2 && j < 2 && Moves(m, LIST, i, FOUND)
      ensures ApartFromDesc(Entry(m, LIST, i, FOUND), Desc(LIST, j))
    {
      assert (i == 0 || i == 1) && (j == 0 || j == 1);
    }
  }

  /** A list is installed whose two position-independent descriptors name one
      interface: its entry ends up shifted twice. */
  lemma SharedShiftedTwice()
    ensures var r := Install(Shared(), LIST, Lookup(Shared().mem, SMALL));
            && r.status == Success && r.db.Valid() && r.db.Entries() == [LIST, LIST + 12]
            && Pointer(r.db.mem, LIST, 0, PPI_FIELD) == Pointer(r.db.mem, LIST, 1, PPI_FIELD) == 128 + SHIFT
            && Read32(Shared().mem, 128 + SHIFT) == 0 && Read32(r.db.mem, 128 + SHIFT) == 2 * SHIFT
  {
    hide Sparse, BootCells, Desc, Ends, Entry, Separate, Shift, Shifted, Pointer, Lookup, Install, Written,
         Searchable, Read32, WalkDecidedInside;
    BootLookup(true);
    SharedDescriptors();
    SharedEnds();
    var m, m' := Shared().mem, Install(Shared(), LIST, FOUND).db.mem;
    InstallFollows(Shared(), LIST, FOUND, 2, Success);
    ShiftedPointers(m, m', LIST, 0, FOUND, 2);
    ShiftedPointers(m, m', LIST, 1, FOUND, 2);
    NoWraps(128 + SHIFT);
    NoWraps(2 * SHIFT);
    var e: Word := 128 + SHIFT;
    assert Namers(m, LIST, 0, FOUND, e) == 0;
    assert Namers(m, LIST, 1, FOUND, e) == 1;
    assert Namers(m, LIST, 2, FOUND, e) == 2;
    assert NamedWhole(m, LIST, 2, FOUND, Entry(m, LIST, 0, FOUND));
    assert EntryShifted(m, m', LIST, 2, FOUND, e);
  }
}
