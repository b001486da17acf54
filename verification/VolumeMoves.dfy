/** Position independence: what moves with a volume, and what it takes. */
module VolumeMoves {
  import opened Memory
  import opened Guids
  import opened Volume
  import opened VolumeLaws

  /** The bytes of a volume header up to its own length. */
  const FV_HEADER := 50

  /** The bytes of a file header that the walks read, and those before its size. */
  const FILE_READ := 23
  const FILE_SIZE := 20

  /** The bytes of a TE section, header included, that its entry point depends on. */
  const TE_READ := 16

  /** The bytes of the volume at fv: at least those of its header. */
  function Span(m: Mem, fv: Word): nat {
    if FvLength(m, fv) < FV_HEADER then FV_HEADER else FvLength(m, fv)
  }

  /** Behind the volume at fv. */
  function Top(m: Mem, fv: Word): nat {
    fv + Span(m, fv)
  }

  /** The volume at fv1 in m1 is found again, byte for byte, at fv2 in m2. Nothing
      is said of other bytes. */
  ghost predicate Moved(m1: Mem, fv1: Word, m2: Mem, fv2: Word) {
    && (fv2 - fv1) % 8 == 0
    && Top(m1, fv1) <= SPACE && fv2 + Span(m1, fv1) <= SPACE
    && forall k: nat | k < Span(m1, fv1) :: SameByte(m1, fv1, m2, fv2, k)
  }

  lemma MovedRead(m1: Mem, fv1: Word, m2: Mem, fv2: Word, k: nat, n: nat)
    requires Moved(m1, fv1, m2, fv2) && k + n <= Span(m1, fv1)
    ensures Read(m2, fv2 + k, n) == Read(m1, fv1 + k, n)
  {
    hide Read8, Read, Span;
    var a1, a2 := fv1 + k, fv2 + k;
    forall i: nat | i < n
      ensures SameByte(m1, a1, m2, a2, i)
    {
      assert SameByte(m1, fv1, m2, fv2, k + i);
    }
    ReadSame(m1, a1, m2, a2, n);
  }

  lemma MovedHeader(m1: Mem, fv1: Word, m2: Mem, fv2: Word)
    requires Moved(m1, fv1, m2, fv2)
    ensures FvLength(m2, fv2) == FvLength(m1, fv1) && FvHeaderLength(m2, fv2) == FvHeaderLength(m1, fv1)
    ensures Span(m2, fv2) == Span(m1, fv1)
  {
    hide Read8, Read;
    MovedRead(m1, fv1, m2, fv2, 32, 8);
    MovedRead(m1, fv1, m2, fv2, 48, 2);
  }

  lemma MovedSection(m1: Mem, fv1: Word, m2: Mem, fv2: Word, k: nat)
    requires Moved(m1, fv1, m2, fv2) && k + SECTION_HEADER <= Span(m1, fv1)
    ensures SectionSize(m2, fv2 + k) == SectionSize(m1, fv1 + k)
    ensures SectionKind(m2, fv2 + k) == SectionKind(m1, fv1 + k)
  {
    hide Span, Read8, Read;
    MovedRead(m1, fv1, m2, fv2, k, 3);
    assert SameByte(m1, fv1, m2, fv2, k + 3);
  }

  lemma MovedFile(m1: Mem, fv1: Word, m2: Mem, fv2: Word, k: nat, want: Selector)
    requires Moved(m1, fv1, m2, fv2) && k + FILE_READ <= Span(m1, fv1)
    ensures FileSize(m2, fv2 + k) == FileSize(m1, fv1 + k)
    ensures Selects(m2, want, fv2 + k) <==> Selects(m1, want, fv1 + k)
  {
    hide Span, Read8, Read, Lo, Hi;
    MovedRead(m1, fv1, m2, fv2, k + 20, 3);
    assert SameByte(m1, fv1, m2, fv2, k + 18);
    MovedRead(m1, fv1, m2, fv2, k, 8);
    MovedRead(m1, fv1, m2, fv2, k + 8, 8);
  }

  // ----- Files whose size the volume itself decides -----

  /** How many bytes of the size of the file at f lie below top. */
  function SizeBytes(f: Addr, top: nat): (n: nat)
    ensures n <= 3
  {
    if top <= f + FILE_SIZE then 0 else if top < f + FILE_READ then top - (f + FILE_SIZE) else 3
  }

  /** The volume itself decides what the file loop does at f: what is read of the
      header lies in the volume, or the bytes of the size that do are already too
      much for it. */
  predicate Decided(m: Mem, f: Addr, eov: Addr, top: nat) {
    f + FILE_READ <= top || Read(m, f + FILE_SIZE, SizeBytes(f, top)) > eov - f
  }

  /** So it is with every file the loop from a comes to. */
  ghost predicate AllDecided(m: Mem, want: Selector, a: Addr, eov: Addr, top: nat) {
    forall f: Addr, n: nat :: Reaches(m, want, a, eov, f, n) && f < eov ==> Decided(m, f, eov, top)
  }

  lemma DecidedNext(m: Mem, want: Selector, a: Addr, eov: Addr, top: nat)
    requires AllDecided(m, want, a, eov, top)
    ensures a < eov ==> Decided(m, a, eov, top)
    ensures Passes(m, want, a, eov) ==> AllDecided(m, want, Up(Eof(m, a), 8), eov, top)
  {
    hide Decided, Passes, Up, Eof;
    assert Reaches(m, want, a, eov, a, 0);
    if Passes(m, want, a, eov) {
      var next := Up(Eof(m, a), 8);
      forall f: Addr, n: nat | Reaches(m, want, next, eov, f, n) && f < eov
        ensures Decided(m, f, eov, top)
      {
        assert Reaches(m, want, a, eov, f, n + 1);
      }
    }
  }

  lemma {:induction false} ReadPrefix(m: Mem, a: int, k: nat, n: nat)
    requires k <= n
    ensures Read(m, a, k) <= Read(m, a, n)
    decreases k
  {
    hide Read8;
    if k > 0 {
      ReadPrefix(m, a + 1, k - 1, n - 1);
    }
  }

  /** A decided header is the same after the move, or its size too much for both. */
  lemma MovedDecided(m1: Mem, fv1: Word, m2: Mem, fv2: Word, a: Addr, eov: Addr, want: Selector)
    requires Moved(m1, fv1, m2, fv2) && fv1 <= a < eov <= Top(m1, fv1) && Decided(m1, a, eov, Top(m1, fv1))
    ensures var d := fv2 - fv1;
            || (a + FILE_READ <= Top(m1, fv1) && FileSize(m2, a + d) == FileSize(m1, a)
                && (Selects(m2, want, a + d) <==> Selects(m1, want, a)))
            || (FileSize(m1, a) > eov - a && FileSize(m2, a + d) > eov - a)
  {
    hide Span, Read, Selects;
    if a + FILE_READ <= Top(m1, fv1) {
      MovedFile(m1, fv1, m2, fv2, a - fv1, want);
    } else {
      var k := SizeBytes(a, Top(m1, fv1));
      if k > 0 {
        MovedRead(m1, fv1, m2, fv2, a + FILE_SIZE - fv1, k);
        ReadPrefix(m1, a + FILE_SIZE, k, 3);
        ReadPrefix(m2, a + (fv2 - fv1) + FILE_SIZE, k, 3);
      }
    }
  }

  // ----- The loops move -----

  function MoveSection(r: Option<Result>, d: int): Option<Result>
    requires r.Some? && r.value.status == Success ==> 0 <= r.value.section + d < SPACE
  {
    if r.Some? && r.value.status == Success then Some(Result(Success, r.value.section + d)) else r
  }

  /** A section header across the end reads as corrupt, whatever lies behind. */
  lemma CrossingIsCorrupt(m: Mem, want: Byte, a: Addr, end: Addr, fuel: nat)
    requires a < end < a + SECTION_HEADER && end <= SPACE
    ensures SectionWalk(m, want, a, end, fuel) == Some(Result(VolumeCorrupted, 0))
  {
    hide SectionSize, SectionKind;
    NoWraps(a + SectionSize(m, a));
  }

  lemma {:induction false} SectionWalkMoves(m1: Mem, fv1: Word, m2: Mem, fv2: Word, want: Byte, a: Addr, end: Addr,
      fuel: nat)
    requires Moved(m1, fv1, m2, fv2) && fv1 <= a < 2 * SPACE && fv1 <= end <= fv1 + FvLength(m1, fv1)
    ensures var d := fv2 - fv1;
            var r := SectionWalk(m1, want, a, end, fuel);
            && (r.Some? && r.value.status == Success ==> a <= r.value.section <= end - SECTION_HEADER)
            && SectionWalk(m2, want, a + d, end + d, fuel) == MoveSection(r, d)
    decreases fuel
  {
    hide SectionSize, SectionKind, FvLength, Ptr, Wrap64, SameByte;
    var d := fv2 - fv1;
    if a < end && a + SECTION_HEADER > end {
      CrossingIsCorrupt(m1, want, a, end, fuel);
      CrossingIsCorrupt(m2, want, a + d, end + d, fuel);
    } else if a < end {
      MovedSection(m1, fv1, m2, fv2, a - fv1);
      var size := SectionSize(m1, a);
      NoWraps(a);
      NoWraps(a + d);
      NoWraps(a + size);
      NoWraps(a + d + size);
      if fuel > 0 && a + size <= end {
        SectionWalkMoves(m1, fv1, m2, fv2, want, a + size, end, fuel - 1);
      }
    }
  }

  function MoveFile(r: Option<FileResult>, d: int): Option<FileResult>
    requires r.Some? && r.value.Hit? ==> 0 <= r.value.file + d < TWO64
  {
    if r.Some? && r.value.Hit? then Some(Hit(r.value.file + d)) else r
  }

  lemma {:induction false} FileWalkMoves(m1: Mem, fv1: Word, m2: Mem, fv2: Word, want: Selector, a: Addr, fuel: nat)
    requires Moved(m1, fv1, m2, fv2) && fv1 <= a < 2 * SPACE && a % 8 == 0
    requires AllDecided(m1, want, a, fv1 + FvLength(m1, fv1), Top(m1, fv1))
    ensures var d, eov := fv2 - fv1, fv1 + FvLength(m1, fv1);
            var r := FileWalk(m1, want, a, eov, fuel);
            && (r.Some? && r.value.Hit? ==> HitAt(m1, fv1, a, r.value.file))
            && FileWalk(m2, want, a + d, eov + d, fuel) == MoveFile(r, d)
    decreases fuel
  {
    hide FileSize, FvLength, Selects, Up, Wrap64, Decided, AllDecided, SameByte;
    var d, eov := fv2 - fv1, fv1 + FvLength(m1, fv1);
    DecidedNext(m1, want, a, eov, Top(m1, fv1));
    if a < eov {
      MovedDecided(m1, fv1, m2, fv2, a, eov, want);
      var size := FileSize(m1, a);
      NoWraps(a + size);
      NoWraps(a + d + size);
      NoWraps(a + d + FileSize(m2, a + d));
      if fuel > 0 && Passes(m1, want, a, eov) {
        UpIsLeastMultiple(a + size, 8);
        UpShifts(a + size, d);
        FileWalkMoves(m1, fv1, m2, fv2, want, Up(a + size, 8), fuel - 1);
      }
    }
  }

  /** A file found behind a lies in the volume, and what is read of its header too. */
  predicate HitAt(m: Mem, fv: Word, a: Addr, f: Addr) {
    && a <= f < fv + FvLength(m, fv) && f + FileSize(m, f) <= fv + FvLength(m, fv)
    && f + FILE_READ <= Top(m, fv) && f % 8 == 0
  }

  /** The file loop from a moves with the volume. */
  lemma FileSearchMoves(m1: Mem, fv1: Word, m2: Mem, fv2: Word, want: Selector, a: Addr)
    requires Moved(m1, fv1, m2, fv2) && fv1 <= a < 2 * SPACE && a % 8 == 0
    requires AllDecided(m1, want, a, fv1 + FvLength(m1, fv1), Top(m1, fv1))
    ensures var d, eov := fv2 - fv1, fv1 + FvLength(m1, fv1);
            && (FileWalkStops(m2, want, a + d, eov + d) <==> FileWalkStops(m1, want, a, eov))
            && (FileWalkStops(m1, want, a, eov) ==>
                  var r := FileSearch(m1, want, a, eov);
                  && (r.Hit? ==> HitAt(m1, fv1, a, r.file))
                  && Some(FileSearch(m2, want, a + d, eov + d)) == MoveFile(Some(r), d))
  {
    hide FvLength, FileWalk, FileSize, AllDecided, HitAt, SameByte;
    var d, eov := fv2 - fv1, fv1 + FvLength(m1, fv1);
    if FileWalkStops(m1, want, a, eov) {
      var fuel: nat :| FileWalk(m1, want, a, eov, fuel).Some?;
      FileWalkMoves(m1, fv1, m2, fv2, want, a, fuel);
    }
    if FileWalkStops(m2, want, a + d, eov + d) {
      var fuel: nat :| FileWalk(m2, want, a + d, eov + d, fuel).Some?;
      FileWalkMoves(m1, fv1, m2, fv2, want, a, fuel);
    }
  }

  /** So does the section loop in a file of the volume. */
  lemma SectionSearchMoves(m1: Mem, fv1: Word, m2: Mem, fv2: Word, want: Byte, start: Addr, end: Addr)
    requires Moved(m1, fv1, m2, fv2) && fv1 <= start < SPACE && fv1 <= end <= fv1 + FvLength(m1, fv1)
    ensures var d := fv2 - fv1;
            && (SectionWalkStops(m2, want, Up(start + d, 4), end + d)
                <==> SectionWalkStops(m1, want, Up(start, 4), end))
            && (SectionWalkStops(m1, want, Up(start, 4), end) ==>
                  var r := SectionSearch(m1, want, start, end);
                  && (r.status == Success ==> start <= r.section <= end - SECTION_HEADER)
                  && Some(SectionSearch(m2, want, start + d, end + d)) == MoveSection(Some(r), d))
  {
    hide FvLength, SectionWalk, Up;
    var d := fv2 - fv1;
    UpShifts(start, d);
    UpIsLeastMultiple(start, 4);
    var a := Up(start, 4);
    if SectionWalkStops(m1, want, a, end) {
      var fuel: nat :| SectionWalk(m1, want, a, end, fuel).Some?;
      SectionWalkMoves(m1, fv1, m2, fv2, want, a, end, fuel);
    }
    if SectionWalkStops(m2, want, a + d, end + d) {
      var fuel: nat :| SectionWalk(m2, want, a + d, end + d, fuel).Some?;
      SectionWalkMoves(m1, fv1, m2, fv2, want, a, end, fuel);
    }
  }

  lemma MovedBounds(m1: Mem, fv1: Word, m2: Mem, fv2: Word)
    requires Moved(m1, fv1, m2, fv2)
    ensures Eov(m1, fv1) == fv1 + FvLength(m1, fv1) && Eov(m2, fv2) == fv2 + FvLength(m1, fv1)
    ensures fv1 <= FirstFile(m1, fv1) < 2 * SPACE && FirstFile(m1, fv1) % 8 == 0
    ensures FirstFile(m2, fv2) == FirstFile(m1, fv1) + (fv2 - fv1)
  {
    hide FvLength, FvHeaderLength, Up, Wrap64, SameByte, Read;
    MovedHeader(m1, fv1, m2, fv2);
    var h := fv1 + FvHeaderLength(m1, fv1);
    NoWraps(fv1 + FvLength(m1, fv1));
    NoWraps(fv2 + FvLength(m1, fv1));
    UpIsLeastMultiple(h, 8);
    UpShifts(h, fv2 - fv1);
  }

  lemma MovedBody(m1: Mem, fv1: Word, m2: Mem, fv2: Word, f: Addr)
    requires Moved(m1, fv1, m2, fv2) && fv1 <= f && HitAt(m1, fv1, fv1, f)
    requires f + FILE_HEADER < SPACE && f + (fv2 - fv1) + FILE_HEADER < SPACE
    ensures var d := fv2 - fv1;
            && Body(f) == f + FILE_HEADER && Body(f + d) == Body(f) + d
            && Eof(m1, f) == f + FileSize(m1, f) && Eof(m2, f + d) == Eof(m1, f) + d
  {
    hide FvLength, FileSize, Ptr, Wrap64, SameByte, Selects;
    MovedFile(m1, fv1, m2, fv2, f - fv1, Selector(0, None));
    var d := fv2 - fv1;
    NoWraps(f);
    NoWraps(f + d);
    NoWraps(f + FILE_HEADER);
    NoWraps(f + d + FILE_HEADER);
    NoWraps(f + FileSize(m1, f));
    NoWraps(f + d + FileSize(m1, f));
  }

  /** The volume itself decides what the walk for `want` does with its files. */
  ghost predicate WalkDecidedInside(m: Mem, fv: Word, want: Selector) {
    AllDecided(m, want, FirstFile(m, fv), Eov(m, fv), Top(m, fv))
  }

  /** The header of the file found ends below the top of the address space, in
      both places; a file's body wraps around to 0 otherwise. */
  ghost predicate HitBelowTop(m: Mem, fv: Word, want: Selector, d: int) {
    FileWalkStops(m, want, FirstFile(m, fv), Eov(m, fv)) ==>
      var r := FileSearch(m, want, FirstFile(m, fv), Eov(m, fv));
      r.Hit? ==> r.file + FILE_HEADER < SPACE && r.file + d + FILE_HEADER < SPACE
  }

  /** Moving the bytes of a volume by a multiple of 8 moves the section that
      GetFileSection returns by as much and changes neither its status nor
      whether it returns, whatever lies around the volume. */
  lemma GetFileSectionMoves(m1: Mem, fv1: Word, m2: Mem, fv2: Word, section: Byte, want: Selector)
    requires Moved(m1, fv1, m2, fv2) && WalkDecidedInside(m1, fv1, want) && HitBelowTop(m1, fv1, want, fv2 - fv1)
    ensures VolumeWalkStops(m2, fv2, section, want) <==> VolumeWalkStops(m1, fv1, section, want)
    ensures VolumeWalkStops(m1, fv1, section, want) ==>
              var r := VolumeSearch(m1, fv1, section, want);
              && (r.status == Success ==> fv1 < r.section <= fv1 + FvLength(m1, fv1) - SECTION_HEADER)
              && Some(VolumeSearch(m2, fv2, section, want)) == MoveSection(Some(r), fv2 - fv1)
  {
    hide FvLength, FvHeaderLength, FirstFile, Eov, FileWalk, SectionWalk, FileSize, FileKind, SectionSize,
         SectionKind, Up, Selects, Ptr, Wrap64, SameByte, AllDecided;
    MovedBounds(m1, fv1, m2, fv2);
    var a, eov := FirstFile(m1, fv1), Eov(m1, fv1);
    FileSearchMoves(m1, fv1, m2, fv2, want, a);
    if FileWalkStops(m1, want, a, eov) && FileSearch(m1, want, a, eov).Hit? {
      var f := FileSearch(m1, want, a, eov).file;
      MovedBody(m1, fv1, m2, fv2, f);
      SectionSearchMoves(m1, fv1, m2, fv2, section, Body(f), Eof(m1, f));
    }
  }

  lemma MovedTeEntry(m1: Mem, fv1: Word, m2: Mem, fv2: Word, s: Word)
    requires Moved(m1, fv1, m2, fv2) && fv1 <= s && s + TE_READ <= Top(m1, fv1)
    ensures 0 <= s + (fv2 - fv1) < SPACE
    ensures TeEntry(m2, s + (fv2 - fv1)) == Ptr(TeEntry(m1, s) + (fv2 - fv1))
  {
    hide Span, Read8, Read, Ptr;
    var d, te := fv2 - fv1, s + SECTION_HEADER;
    var k := te - fv1;
    MovedRead(m1, fv1, m2, fv2, k + 6, 2);
    MovedRead(m1, fv1, m2, fv2, k + 8, 4);
    NoWraps(te);
    NoWraps(te + d);
    var stripped, entry := Read16(m1, te + 6), (40 + Read32(m1, te + 8)) % SPACE;
    PtrSum(te - stripped, entry);
    PtrSum(te + d - stripped, entry);
    PtrSum(te - stripped + entry, d);
  }

  /** GetTeEntryPoint: an entry point moves with its volume if the fields of the
      TE header that it depends on lie in the volume. */
  lemma GetTeEntryPointMoves(m1: Mem, fv1: Word, m2: Mem, fv2: Word, want: Selector)
    requires Moved(m1, fv1, m2, fv2) && WalkDecidedInside(m1, fv1, want) && HitBelowTop(m1, fv1, want, fv2 - fv1)
    requires VolumeWalkStops(m1, fv1, SECTION_TE, want)
    requires var r := VolumeSearch(m1, fv1, SECTION_TE, want);
             r.status == Success ==> r.section + TE_READ <= Top(m1, fv1)
    ensures VolumeWalkStops(m2, fv2, SECTION_TE, want)
    ensures var r1, r2 := TeSearch(m1, fv1, want), TeSearch(m2, fv2, want);
            && r2.status == r1.status
            && r2.section == if r1.status == Success then Ptr(r1.section + (fv2 - fv1)) else 0
  {
    hide Span, TeEntry, VolumeWalkStops, Ptr, SameByte, WalkDecidedInside, HitBelowTop;
    GetFileSectionMoves(m1, fv1, m2, fv2, SECTION_TE, want);
    var r := VolumeSearch(m1, fv1, SECTION_TE, want);
    SearchNull(m1, fv1, SECTION_TE, want);
    if r.status == Success {
      MovedTeEntry(m1, fv1, m2, fv2, r.section);
    }
  }

  lemma SearchNull(m: Mem, fv: Word, section: Byte, want: Selector)
    requires VolumeWalkStops(m, fv, section, want)
    ensures VolumeSearch(m, fv, section, want).status != Success ==> VolumeSearch(m, fv, section, want).section == 0
  {
    hide VolumeWalkStops, FvLength;
    Containment(m, fv, section, want);
  }

  /** PeiFfsFindNextFile, continued from the handle's own address: the next
      handle moves with the volume. */
  lemma FindNextFileMoves(m1: Mem, fv1: Word, m2: Mem, fv2: Word, kind: Byte, handle: Word)
    requires Moved(m1, fv1, m2, fv2) && fv1 != 0 && fv2 != 0
    requires handle == 0 || (fv1 <= handle && handle + FILE_READ <= Top(m1, fv1))
    requires AllDecided(m1, Selector(kind, None), NextStart(m1, fv1, handle, handle), Eov(m1, fv1), Top(m1, fv1))
    ensures handle != 0 ==> 0 < handle + (fv2 - fv1) < SPACE
    ensures var d := fv2 - fv1;
            var handle2 := if handle == 0 then 0 else handle + d;
            && (NextStops(m2, kind, fv2, handle2, handle2) <==> NextStops(m1, kind, fv1, handle, handle))
            && (NextStops(m1, kind, fv1, handle, handle) ==>
                  var n1, n2 := FindNext(m1, kind, fv1, handle, handle), FindNext(m2, kind, fv2, handle2, handle2);
                  && n2.status == n1.status
                  && (n1.status == Success ==> n2.handle == n1.handle + d))
  {
    hide FvLength, FvHeaderLength, FirstFile, Eov, FileWalk, FileSize, FileKind, Up, Selects, Ptr, Wrap64, SameByte,
         AllDecided;
    var d, want := fv2 - fv1, Selector(kind, None);
    MovedBounds(m1, fv1, m2, fv2);
    var a := NextStart(m1, fv1, handle, handle);
    if handle != 0 {
      MovedFile(m1, fv1, m2, fv2, handle - fv1, want);
      var next := handle + FileSize(m1, handle);
      NoWraps(next);
      NoWraps(next + d);
      UpIsLeastMultiple(next, 8);
      UpShifts(next, d);
    }
    FileSearchMoves(m1, fv1, m2, fv2, want, a);
    if FileWalkStops(m1, want, a, Eov(m1, fv1)) {
      var r := FileSearch(m1, want, a, Eov(m1, fv1));
      if r.Hit? {
        NoWraps(r.file);
        NoWraps(r.file + d);
      }
    }
  }

  // ----- And nothing less will do -----

  /** The bytes from lo to hi as they are in m, all others b. */
  function Filled(m: Mem, lo: nat, hi: nat, b: Byte): Mem {
    seq(SPACE, i requires 0 <= i < SPACE => if lo <= i < hi then m[i] else b)
  }

  /** The volume lies in the address space, and a file header that starts in it and
      wraps around does not come back to it: all but volumes that leave fewer than
      24 bytes of the address space on either side. */
  ghost predicate Surrounded(m: Mem, fv: Word) {
    Top(m, fv) <= SPACE && (Top(m, fv) + FILE_HEADER <= SPACE || FILE_HEADER <= fv)
  }

  /** A byte up to a file header behind the volume is outside it. */
  lemma FilledBehind(m: Mem, fv: Word, b: Byte, x: nat)
    requires Surrounded(m, fv) && Top(m, fv) <= x < Top(m, fv) + FILE_HEADER
    ensures Read8(Filled(m, fv, Top(m, fv), b), x) == b
  {
    hide Span;
    PtrNear(x);
  }

  lemma FilledInside(m: Mem, lo: nat, hi: nat, b: Byte, x: nat)
    requires hi <= SPACE && x < SPACE
    ensures Read8(Filled(m, lo, hi, b), x) == if lo <= x < hi then Read8(m, x) else b
  {
    NoWraps(x);
  }

  /** The same volume, with other bytes around it. */
  lemma FilledMoved(m: Mem, fv: Word, b: Byte)
    requires Top(m, fv) <= SPACE
    ensures Moved(m, fv, Filled(m, fv, Top(m, fv), b), fv)
    ensures FirstFile(Filled(m, fv, Top(m, fv), b), fv) == FirstFile(m, fv)
    ensures Eov(Filled(m, fv, Top(m, fv), b), fv) == Eov(m, fv) == fv + FvLength(m, fv)
  {
    hide Read8, Filled, Span, FvLength, FvHeaderLength, Up, Wrap64;
    var m' := Filled(m, fv, Top(m, fv), b);
    forall k: nat | k < Span(m, fv)
      ensures SameByte(m, fv, m', fv, k)
    {
      FilledInside(m, fv, Top(m, fv), b, fv + k);
    }
    MovedBounds(m, fv, m', fv);
    MovedHeader(m, fv, m', fv);
  }

  lemma {:induction false} ReadZeroTail(m: Mem, a: int, k: nat, n: nat)
    requires k <= n && Zeros(m, a + k, n - k)
    ensures Read(m, a, n) == Read(m, a, k)
    decreases k
  {
    hide Read8;
    if k == 0 {
      ReadZeros(m, a, n);
    } else {
      ReadZeroTail(m, a + 1, k - 1, n - 1);
    }
  }

  lemma ReadLastByte(m: Mem, a: int)
    ensures Read(m, a, 3) >= 0x1_0000 * Read8(m, a + 2)
  {
    hide Read8;
    assert Read(m, a + 2, 1) == Read8(m, a + 2) + 0x100 * Read(m, a + 3, 0);
    assert Read(m, a, 3) == Read8(m, a) + 0x100 * (Read8(m, a + 1) + 0x100 * Read(m, a + 2, 1));
  }

  /** A size of which not all bytes lie in the volume: zeros behind the volume make
      it what those in the volume say, and ones make it too much. */
  lemma UndecidedSize(m: Mem, fv: Word, f: Addr)
    requires Surrounded(m, fv) && fv <= f < Top(m, fv) < f + FILE_READ
    ensures FileSize(Filled(m, fv, Top(m, fv), 0), f) == Read(m, f + FILE_SIZE, SizeBytes(f, Top(m, fv)))
    ensures FileSize(Filled(m, fv, Top(m, fv), 0xff), f) > 0xff_0000 - 1
  {
    hide Read8, Filled, Span, Read;
    var top := Top(m, fv);
    var zeros, ones, a, k := Filled(m, fv, top, 0), Filled(m, fv, top, 0xff), f + FILE_SIZE, SizeBytes(f, top);
    FilledMoved(m, fv, 0);
    var b := a + k;
    forall i: nat | i < 3 - k
      ensures ZeroByte(zeros, b, i)
    {
      FilledBehind(m, fv, 0, b + i);
    }
    ReadZeroTail(zeros, a, k, 3);
    if k == 0 {
      ReadSame(m, a, zeros, a, 0);
    } else {
      MovedRead(m, fv, zeros, fv, a - fv, k);
    }
    FilledBehind(m, fv, 0xff, a + 2);
    ReadLastByte(ones, a);
  }

  /** From an undecided header on there are only undecided ones. */
  lemma UndecidedLater(m: Mem, f: Addr, g: Addr, eov: Addr, top: nat)
    requires !Decided(m, f, eov, top) && f <= g < eov && f % 8 == 0 && g % 8 == 0
    ensures !Decided(m, g, eov, top)
  {
    hide Read8;
    if f < g {
      AlignedAbove(f, g);
      assert SizeBytes(g, top) == 0;
    }
  }

  /** With zeros behind the volume the loop never calls an undecided file corrupt,
      and finds none with a body. */
  lemma {:induction false} UndecidedTail(m: Mem, fv: Word, want: Selector, a: Addr, g: Addr, fuel: nat)
    requires Surrounded(m, fv) && fv <= a && a % 8 == 0 && a < Eov(m, fv) && !Decided(m, a, Eov(m, fv), Top(m, fv))
    requires a <= g < 2 * SPACE && g % 8 == 0
    ensures var zeros, eov := Filled(m, fv, Top(m, fv), 0), Eov(m, fv);
            NoBody(zeros, eov, FileWalk(zeros, want, g, eov, fuel))
    decreases fuel
  {
    hide Filled, Span, FvLength, FileSize, Selects, Up, Read, SizeBytes, Ptr, Wrap64;
    var top, eov := Top(m, fv), Eov(m, fv);
    var zeros := Filled(m, fv, top, 0);
    FilledMoved(m, fv, 0);
    SpanCovers(m, fv);
    if g < eov {
      UndecidedLater(m, a, g, eov, top);
      UndecidedSize(m, fv, g);
      NoWraps(g + FileSize(zeros, g));
      if fuel > 0 {
        UpIsLeastMultiple(g + FileSize(zeros, g), 8);
        UndecidedTail(m, fv, want, a, Up(g + FileSize(zeros, g), 8), fuel - 1);
      }
    }
  }

  lemma SpanCovers(m: Mem, fv: Word)
    ensures fv + FvLength(m, fv) <= Top(m, fv)
  {
  }

  /** The loop has not ended at a corrupt file, nor at one with a body. */
  predicate NoBody(m: Mem, eov: Addr, r: Option<FileResult>) {
    r.Some? ==>
      && !r.value.Corrupt?
      && (r.value.Hit? ==> r.value.file < eov && Eof(m, r.value.file) < r.value.file + FILE_READ)
  }

  /** A loop that comes to an undecided header: with ones behind the volume it ends
      there, at a corrupt file; with zeros it does not. */
  lemma {:induction false} UndecidedWalk(m: Mem, fv: Word, want: Selector, a: Addr, f: Addr, n: nat, fuel: nat)
    requires Surrounded(m, fv) && fv <= a && a % 8 == 0
    requires Reaches(m, want, a, Eov(m, fv), f, n) && f < Eov(m, fv) && !Decided(m, f, Eov(m, fv), Top(m, fv))
    ensures var zeros, ones, eov := Filled(m, fv, Top(m, fv), 0), Filled(m, fv, Top(m, fv), 0xff), Eov(m, fv);
            && FileWalk(ones, want, a, eov, n) == Some(Corrupt)
            && NoBody(zeros, eov, FileWalk(zeros, want, a, eov, fuel))
    decreases n, fuel
  {
    hide Filled, Span, FvLength, FileSize, Selects, Up, Read, SizeBytes, Ptr, Wrap64;
    var top, eov := Top(m, fv), Eov(m, fv);
    var zeros, ones := Filled(m, fv, top, 0), Filled(m, fv, top, 0xff);
    FilledMoved(m, fv, 0);
    FilledMoved(m, fv, 0xff);
    SpanCovers(m, fv);
    if !Decided(m, a, eov, top) {
      UndecidedSize(m, fv, a);
      NoWraps(a + FileSize(ones, a));
      UndecidedTail(m, fv, want, a, a, fuel);
    } else {
      NoWraps(a + FileSize(m, a));
      MovedDecided(m, fv, zeros, fv, a, eov, want);
      MovedDecided(m, fv, ones, fv, a, eov, want);
      var next := Up(a + FileSize(m, a), 8);
      UpIsLeastMultiple(a + FileSize(m, a), 8);
      UndecidedWalk(m, fv, want, next, f, n - 1, if fuel > 0 then fuel - 1 else 0);
    }
  }

  lemma UndecidedSearch(m: Mem, fv: Word, want: Selector, a: Addr)
    requires Surrounded(m, fv) && fv <= a && a % 8 == 0
    requires !AllDecided(m, want, a, Eov(m, fv), Top(m, fv))
    ensures var zeros, ones, eov := Filled(m, fv, Top(m, fv), 0), Filled(m, fv, Top(m, fv), 0xff), Eov(m, fv);
            && FileWalkStops(ones, want, a, eov) && FileSearch(ones, want, a, eov) == Corrupt
            && (FileWalkStops(zeros, want, a, eov) ==> NoBody(zeros, eov, Some(FileSearch(zeros, want, a, eov))))
  {
    hide Filled, Span, FvLength, FileWalk, Reaches, Decided, Eof, NoBody;
    var eov := Eov(m, fv);
    var f: Addr, n: nat :| Reaches(m, want, a, eov, f, n) && f < eov && !Decided(m, f, eov, Top(m, fv));
    var zeros, ones := Filled(m, fv, Top(m, fv), 0), Filled(m, fv, Top(m, fv), 0xff);
    UndecidedWalk(m, fv, want, a, f, n, 0);
    assert FileWalk(ones, want, a, eov, n) == Some(FileSearch(ones, want, a, eov));
    if fuel: nat :| FileWalk(zeros, want, a, eov, fuel).Some? {
      UndecidedWalk(m, fv, want, a, f, n, fuel);
      assert FileWalk(zeros, want, a, eov, fuel) == Some(FileSearch(zeros, want, a, eov));
    }
  }

  /** If the volume itself does not decide, then what lies around it does: with ones
      there it is called corrupt, with something else it is not. */
  lemma GetFileSectionNeedsHeaders(m: Mem, fv: Word, section: Byte, want: Selector)
    requires Surrounded(m, fv) && !WalkDecidedInside(m, fv, want)
    ensures exists m1: Mem, m2: Mem ::
              && Moved(m, fv, m1, fv) && Moved(m, fv, m2, fv)
              && VolumeWalkStops(m1, fv, section, want)
              && VolumeSearch(m1, fv, section, want) == Result(VolumeCorrupted, 0)
              && (VolumeWalkStops(m2, fv, section, want) ==>
                    VolumeSearch(m2, fv, section, want).status != VolumeCorrupted)
  {
    hide Filled, Span, Reaches, Decided, FirstFile, Eov, FileWalk, SectionWalk, AllDecided, Up, Ptr, SameByte,
         HitBelowTop, Patched, WalkDecidedInside, VolumeSearch, VolumeWalkStops;
    var zeros, ones := Filled(m, fv, Top(m, fv), 0), Filled(m, fv, Top(m, fv), 0xff);
    FilledMoved(m, fv, 0);
    FilledMoved(m, fv, 0xff);
    OnesCorrupt(m, fv, section, want);
    if HitBelowTop(zeros, fv, want, 0) {
      ZerosNotFound(m, fv, section, want);
    } else {
      MovedHeader(m, fv, zeros, fv);
      HitAtTop(zeros, fv, want);
      TopHitDepends(zeros, fv, section, want);
      var f := FileSearch(zeros, want, FirstFile(zeros, fv), Eov(zeros, fv)).file;
      MovedOn(m, zeros, Patched(zeros, f, 4, section), fv);
    }
  }

  lemma OnesCorrupt(m: Mem, fv: Word, section: Byte, want: Selector)
    requires Surrounded(m, fv) && !WalkDecidedInside(m, fv, want)
    ensures var ones := Filled(m, fv, Top(m, fv), 0xff);
            && VolumeWalkStops(ones, fv, section, want)
            && VolumeSearch(ones, fv, section, want) == Result(VolumeCorrupted, 0)
  {
    hide Filled, Span, FvLength, FvHeaderLength, Reaches, Decided, FirstFile, FileWalk, SectionWalk, AllDecided, Up,
         Eof, Ptr;
    FilledMoved(m, fv, 0xff);
    MovedBounds(m, fv, Filled(m, fv, Top(m, fv), 0xff), fv);
    UndecidedSearch(m, fv, want, FirstFile(m, fv));
  }

  lemma ZerosNotFound(m: Mem, fv: Word, section: Byte, want: Selector)
    requires Surrounded(m, fv) && !WalkDecidedInside(m, fv, want)
    requires HitBelowTop(Filled(m, fv, Top(m, fv), 0), fv, want, 0)
    ensures var zeros := Filled(m, fv, Top(m, fv), 0);
            VolumeWalkStops(zeros, fv, section, want) ==> VolumeSearch(zeros, fv, section, want) == Result(NotFound, 0)
  {
    hide Filled, Span, FvLength, FvHeaderLength, Reaches, Decided, FirstFile, FileWalk, SectionWalk, AllDecided, Up,
         Eof, Ptr;
    var zeros := Filled(m, fv, Top(m, fv), 0);
    FilledMoved(m, fv, 0);
    MovedBounds(m, fv, zeros, fv);
    var a, eov := FirstFile(m, fv), Eov(m, fv);
    UndecidedSearch(m, fv, want, a);
    if VolumeWalkStops(zeros, fv, section, want) && FileSearch(zeros, want, a, eov).Hit? {
      var f := FileSearch(zeros, want, a, eov).file;
      NoWraps(f);
      NoWraps(f + FILE_HEADER);
      UpIsLeastMultiple(f + FILE_HEADER, 4);
      NoSections(zeros, section, Up(Body(f), 4), Eof(zeros, f));
    }
  }

  lemma NoSections(m: Mem, want: Byte, a: Addr, end: Addr)
    requires a >= end
    ensures SectionWalk(m, want, a, end, 0) == Some(Result(NotFound, 0))
  {
  }

  lemma MovedOn(m1: Mem, m2: Mem, m3: Mem, fv: Word)
    requires Moved(m1, fv, m2, fv) && Moved(m2, fv, m3, fv)
    ensures Moved(m1, fv, m3, fv)
  {
    hide Span, Read8;
    MovedHeader(m1, fv, m2, fv);
    forall k: nat | k < Span(m1, fv)
      ensures SameByte(m1, fv, m3, fv, k)
    {
      assert SameByte(m1, fv, m2, fv, k) && SameByte(m2, fv, m3, fv, k);
    }
  }

  // ----- A file whose header ends at the top, or behind it -----

  lemma HitAtTop(m: Mem, fv: Word, want: Selector)
    requires Surrounded(m, fv) && !HitBelowTop(m, fv, want, 0)
    ensures FILE_HEADER <= fv
    ensures FileWalkStops(m, want, FirstFile(m, fv), Eov(m, fv))
    ensures var r := FileSearch(m, want, FirstFile(m, fv), Eov(m, fv)); r.Hit? && r.file + FILE_HEADER >= SPACE
  {
    hide Span, FirstFile, Eov, FileWalk;
    if Top(m, fv) + FILE_HEADER <= SPACE {
      BelowTop(m, fv, want);
    }
  }

  /** Where the body of such a file is read. */
  function WrappedBody(f: Addr): int {
    f + FILE_HEADER - SPACE
  }

  /** A section header with the given low byte of its size and kind put there. */
  function Patched(m: Mem, f: Addr, size: Byte, kind: Byte): Mem
    requires 0 <= WrappedBody(f) <= 16
  {
    var p := WrappedBody(f);
    m[p := size][p + 1 := 0][p + 2 := 0][p + 3 := kind]
  }

  lemma PatchedByte(m: Mem, f: Addr, size: Byte, kind: Byte, x: int)
    requires 0 <= WrappedBody(f) <= 16 && !(WrappedBody(f) <= Ptr(x) < WrappedBody(f) + 4)
    ensures Read8(Patched(m, f, size, kind), x) == Read8(m, x)
  {
    hide Ptr;
  }

  lemma PatchedSection(m: Mem, f: Addr, size: Byte, kind: Byte)
    requires 0 <= WrappedBody(f) <= 16
    ensures var m', p := Patched(m, f, size, kind), WrappedBody(f);
            SectionSize(m', p) == size && SectionKind(m', p) == kind
  {
    var m', p := Patched(m, f, size, kind), WrappedBody(f);
    PatchedBytes(m, f, size, kind);
    hide Read8, Patched;
    var a := p + 1;
    assert ZeroByte(m', a, 0) && ZeroByte(m', a, 1);
    ReadZeros(m', a, 2);
  }

  lemma PatchedBytes(m: Mem, f: Addr, size: Byte, kind: Byte)
    requires 0 <= WrappedBody(f) <= 16
    ensures var m', p := Patched(m, f, size, kind), WrappedBody(f);
            && Read8(m', p) == size && Read8(m', p + 3) == kind
            && Read8(m', p + 1 + 0) == 0 && Read8(m', p + 1 + 1) == 0
  {
    NoWraps(WrappedBody(f));
    NoWraps(WrappedBody(f) + 1);
    NoWraps(WrappedBody(f) + 2);
    NoWraps(WrappedBody(f) + 3);
    hide Ptr;
  }

  /** It is no part of that file's header, nor of one before it. */
  lemma PatchedHeader(m: Mem, f: Addr, size: Byte, kind: Byte, g: Addr, want: Selector)
    requires FILE_HEADER <= g <= f < SPACE && 0 <= WrappedBody(f) <= 16
    ensures var m' := Patched(m, f, size, kind);
            FileSize(m', g) == FileSize(m, g) && (Selects(m', want, g) <==> Selects(m, want, g))
  {
    hide Patched, Read8, Read, Ptr, Lo, Hi;
    var m' := Patched(m, f, size, kind);
    forall k: nat | k < FILE_READ
      ensures SameByte(m', g, m, g, k)
    {
      PtrNear(g + k);
      PatchedByte(m, f, size, kind, g + k);
    }
    SameBytes(m, m', g, 0, 8);
    SameBytes(m, m', g, 8, 8);
    SameBytes(m, m', g, FILE_SIZE, 3);
    assert SameByte(m', g, m, g, 18);
  }

  lemma SameBytes(m: Mem, m': Mem, g: Addr, i: nat, n: nat)
    requires i + n <= FILE_READ && forall k: nat | k < FILE_READ :: SameByte(m', g, m, g, k)
    ensures Read(m', g + i, n) == Read(m, g + i, n)
  {
    hide Read8, Read;
    var a := g + i;
    forall k: nat | k < n
      ensures SameByte(m', a, m, a, k)
    {
      assert SameByte(m', g, m, g, i + k);
    }
    ReadSame(m', a, m, a, n);
  }

  /** So the file loop finds the same file. */
  lemma {:induction false} HitStays(m: Mem, want: Selector, a: Addr, eov: Addr, f: Addr, n: nat, size: Byte, kind: Byte)
    requires FILE_HEADER <= a && a % 8 == 0 && eov <= SPACE && 0 <= WrappedBody(f) <= 16
    requires Reaches(m, want, a, eov, f, n) && FileVerdict(m, want, f, eov, Hit(f))
    ensures a <= f && FileWalk(Patched(m, f, size, kind), want, a, eov, n) == Some(Hit(f))
    decreases n
  {
    hide Patched, FileSize, Selects, Up;
    if n == 0 {
      PatchedHeader(m, f, size, kind, a, want);
    } else {
      NextFile(m, want, a, eov);
      HitStays(m, want, Up(Eof(m, a), 8), eov, f, n - 1, size, kind);
      PatchedHeader(m, f, size, kind, a, want);
    }
  }

  lemma PatchedMoved(m: Mem, fv: Word, f: Addr, size: Byte, kind: Byte)
    requires FILE_HEADER <= fv && Top(m, fv) <= SPACE && 0 <= WrappedBody(f) <= 16
    ensures Moved(m, fv, Patched(m, f, size, kind), fv)
  {
    hide Patched, Read8, Span, Ptr;
    forall k: nat | k < Span(m, fv)
      ensures SameByte(m, fv, Patched(m, f, size, kind), fv, k)
    {
      NoWraps(fv + k);
      PatchedByte(m, f, size, kind, fv + k);
    }
  }

  /** What lies at the bottom of the address space decides: a section of size 0 there
      is called corrupt, and one of size 4 and the wanted type is found. */
  lemma TopHitDepends(m: Mem, fv: Word, section: Byte, want: Selector)
    requires FILE_HEADER <= fv && Top(m, fv) <= SPACE && FileWalkStops(m, want, FirstFile(m, fv), Eov(m, fv))
    requires var r := FileSearch(m, want, FirstFile(m, fv), Eov(m, fv)); r.Hit? && r.file + FILE_HEADER >= SPACE
    ensures var f := FileSearch(m, want, FirstFile(m, fv), Eov(m, fv)).file;
            && 0 <= WrappedBody(f) <= 16
            && var none, some := Patched(m, f, 0, section), Patched(m, f, 4, section);
               && Moved(m, fv, none, fv) && Moved(m, fv, some, fv)
               && VolumeWalkStops(none, fv, section, want) && VolumeWalkStops(some, fv, section, want)
               && VolumeSearch(none, fv, section, want) == Result(VolumeCorrupted, 0)
               && VolumeSearch(some, fv, section, want) == Result(Success, WrappedBody(f))
  {
    hide Patched, Span, FvLength, FvHeaderLength, FileSize, Selects, FileWalk, SectionWalk, FirstFile, Eov, Up,
         SameByte, Ptr, Reaches;
    var a, eov := FirstFile(m, fv), Eov(m, fv);
    BoundsBelowTop(m, fv);
    var fuel: nat :| FileWalk(m, want, a, eov, fuel).Some?;
    assert FileWalk(m, want, a, eov, fuel) == Some(FileSearch(m, want, a, eov));
    HitInside(m, want, a, eov, fuel);
    var f, n := FileWalkReaches(m, want, a, eov, fuel);
    assert FileSearch(m, want, a, eov) == Hit(f);
    EighthAtTop(f);
    PatchedAnswer(m, fv, section, want, f, n, 0);
    PatchedAnswer(m, fv, section, want, f, n, 4);
  }

  lemma EighthAtTop(f: Addr)
    requires f % 8 == 0 && f < SPACE <= f + FILE_HEADER
    ensures 0 <= WrappedBody(f) <= 16 && WrappedBody(f) % 4 == 0
  {
  }

  lemma BoundsBelowTop(m: Mem, fv: Word)
    requires Top(m, fv) <= SPACE
    ensures fv <= FirstFile(m, fv) && FirstFile(m, fv) % 8 == 0 && Eov(m, fv) <= SPACE
  {
    hide FvLength, FvHeaderLength, Up;
    UpIsLeastMultiple(fv + FvHeaderLength(m, fv), 8);
    NoWraps(fv + FvLength(m, fv));
  }

  lemma PatchedAnswer(m: Mem, fv: Word, section: Byte, want: Selector, f: Addr, n: nat, size: Byte)
    requires FILE_HEADER <= fv && Top(m, fv) <= SPACE && (size == 0 || size == 4)
    requires f < SPACE && 0 <= WrappedBody(f) <= 16 && WrappedBody(f) % 4 == 0
    requires Reaches(m, want, FirstFile(m, fv), Eov(m, fv), f, n) && FileVerdict(m, want, f, Eov(m, fv), Hit(f))
    ensures var m' := Patched(m, f, size, section);
            && Moved(m, fv, m', fv) && VolumeWalkStops(m', fv, section, want)
            && VolumeSearch(m', fv, section, want)
               == if size == 0 then Result(VolumeCorrupted, 0) else Result(Success, WrappedBody(f))
  {
    hide Patched, Span, FvLength, FvHeaderLength, FileSize, Selects, FileWalk, SectionWalk, FirstFile, Eov, Up,
         SameByte, Ptr, Reaches, SectionSize, SectionKind, Wrap64;
    var m', a, eov, p := Patched(m, f, size, section), FirstFile(m, fv), Eov(m, fv), WrappedBody(f);
    BoundsBelowTop(m, fv);
    PatchedMoved(m, fv, f, size, section);
    MovedBounds(m, fv, m', fv);
    HitStays(m, want, a, eov, f, n, size, section);
    PatchedHeader(m, f, size, section, f, want);
    assert FileWalk(m', want, a, eov, n) == Some(FileSearch(m', want, a, eov));
    NoWraps(f);
    PtrNear(f + FILE_HEADER);
    UpOfMultiple(p, 4);
    NoWraps(f + FileSize(m', f));
    PatchedSection(m, f, size, section);
    OneSection(m', section, p, Eof(m', f), size);
  }

  lemma OneSection(m: Mem, want: Byte, p: Addr, end: Addr, size: Byte)
    requires p + 4 <= end && p < SPACE && (size == 0 || size == 4) && SectionSize(m, p) == size
             && SectionKind(m, p) == want
    ensures SectionWalk(m, want, p, end, 0)
         == Some(if size == 0 then Result(VolumeCorrupted, 0) else Result(Success, p))
  {
    hide SectionSize, SectionKind;
    NoWraps(p);
    NoWraps(p + 4);
  }

  ghost predicate SameAnswer(m1: Mem, m2: Mem, fv: Word, section: Byte, want: Selector) {
    && (VolumeWalkStops(m1, fv, section, want) <==> VolumeWalkStops(m2, fv, section, want))
    && (VolumeWalkStops(m1, fv, section, want) ==>
          VolumeSearch(m1, fv, section, want) == VolumeSearch(m2, fv, section, want))
  }

  /** The answer of GetFileSection is the same whatever surrounds the volume if and
      only if the volume itself decides at each file that the walk comes to, and the
      header of the file found ends below the top of the address space. */
  lemma AnswerIsTheVolumesIff(m: Mem, fv: Word, section: Byte, want: Selector)
    requires Surrounded(m, fv)
    ensures WalkDecidedInside(m, fv, want) && HitBelowTop(m, fv, want, 0)
       <==> forall m': Mem | Moved(m, fv, m', fv) :: SameAnswer(m, m', fv, section, want)
  {
    hide Surrounded, Span, FirstFile, Eov, WalkDecidedInside, VolumeWalkStops, VolumeSearch, FileWalk, SameByte,
         HitBelowTop, Patched, Moved, FileWalkStops, FileSearch, WrappedBody;
    if WalkDecidedInside(m, fv, want) && HitBelowTop(m, fv, want, 0) {
      forall m': Mem | Moved(m, fv, m', fv)
        ensures SameAnswer(m, m', fv, section, want)
      {
        GetFileSectionMoves(m, fv, m', fv, section, want);
      }
    } else if !WalkDecidedInside(m, fv, want) {
      GetFileSectionNeedsHeaders(m, fv, section, want);
    } else {
      HitAtTop(m, fv, want);
      assert Top(m, fv) <= SPACE by { SurroundedFits(m, fv); }
      TopHitDepends(m, fv, section, want);
    }
  }

  lemma SurroundedFits(m: Mem, fv: Word)
    requires Surrounded(m, fv)
    ensures Top(m, fv) <= SPACE
  {
  }

  lemma BelowTop(m: Mem, fv: Word, want: Selector)
    requires Top(m, fv) + FILE_HEADER <= SPACE
    ensures HitBelowTop(m, fv, want, 0)
  {
    hide FvHeaderLength, FileWalk, Up, FvLength, Selects, FileSize;
    UpIsLeastMultiple(fv + FvHeaderLength(m, fv), 8);
    var a, eov := FirstFile(m, fv), Eov(m, fv);
    NoWraps(fv + FvLength(m, fv));
    if FileWalkStops(m, want, a, eov) {
      var fuel: nat :| FileWalk(m, want, a, eov, fuel).Some?;
      assert FileWalk(m, want, a, eov, fuel) == Some(FileSearch(m, want, a, eov));
      HitInside(m, want, a, eov, fuel);
    }
  }

  /** So it is for PeiFfsFindNextFile: with ones behind a volume that does not
      decide itself it is called corrupt, with zeros it is not. */
  lemma FindNextFileNeedsHeaders(m: Mem, fv: Word, kind: Byte, handle: Word)
    requires fv != 0 && Surrounded(m, fv)
    requires handle == 0 || (fv <= handle && handle + FILE_READ <= Top(m, fv))
    requires !AllDecided(m, Selector(kind, None), NextStart(m, fv, handle, handle), Eov(m, fv), Top(m, fv))
    ensures var zeros, ones := Filled(m, fv, Top(m, fv), 0), Filled(m, fv, Top(m, fv), 0xff);
            && Moved(m, fv, zeros, fv) && Moved(m, fv, ones, fv)
            && NextStops(ones, kind, fv, handle, handle)
            && FindNext(ones, kind, fv, handle, handle).status == VolumeCorrupted
            && (NextStops(zeros, kind, fv, handle, handle) ==>
                  FindNext(zeros, kind, fv, handle, handle).status != VolumeCorrupted)
  {
    hide Filled, Span, FvLength, FvHeaderLength, Reaches, Decided, FirstFile, FileWalk, AllDecided, Up, Eof, Ptr,
         Selects, FileSize;
    var zeros, ones, want := Filled(m, fv, Top(m, fv), 0), Filled(m, fv, Top(m, fv), 0xff), Selector(kind, None);
    FilledMoved(m, fv, 0);
    FilledMoved(m, fv, 0xff);
    MovedBounds(m, fv, zeros, fv);
    if handle != 0 {
      MovedFile(m, fv, zeros, fv, handle - fv, want);
      MovedFile(m, fv, ones, fv, handle - fv, want);
      NoWraps(handle + FileSize(m, handle));
      UpIsLeastMultiple(handle + FileSize(m, handle), 8);
    }
    UndecidedSearch(m, fv, want, NextStart(m, fv, handle, handle));
  }

  /** And a TE header across the end of the volume: some other byte behind the
      volume makes another entry point. */
  lemma TeEntryNeedsHeader(m: Mem, fv: Word, s: Word)
    requires fv <= s && s + SECTION_HEADER <= Top(m, fv) < s + TE_READ <= SPACE
    ensures exists m': Mem :: Moved(m, fv, m', fv) && TeEntry(m', s) != TeEntry(m, s)
  {
    hide Span, Read8, Read;
    var x, b := s + TE_READ - 1, Read8(m, s + TE_READ - 1);
    var m': Mem := m[x := if b == 0 then 1 else 0];
    forall k: nat | k < Span(m, fv)
      ensures SameByte(m, fv, m', fv, k)
    {
      ByteElsewhere(m, x, m'[x], fv + k);
    }
    assert Moved(m, fv, m', fv);
    TeEntryFollows(m, s, m'[x]);
  }

  lemma ByteElsewhere(m: Mem, x: nat, b: Byte, y: nat)
    requires x < SPACE && y < SPACE && x != y
    ensures Read8(m[x := b], y) == Read8(m, y)
  {
    NoWraps(y);
  }

  /** The last byte of the entry address counts 2^24 fold. */
  lemma TeEntryFollows(m: Mem, s: Word, b: Byte)
    requires s + TE_READ <= SPACE && b != Read8(m, s + TE_READ - 1)
    ensures TeEntry(m[s + TE_READ - 1 := b], s) != TeEntry(m, s)
  {
    hide Read8, Read, Ptr;
    var x, te := s + TE_READ - 1, s + SECTION_HEADER;
    var m' := m[x := b];
    NoWraps(te);
    var p, q := te + 6, te + 8;
    forall k: nat | k < 2
      ensures SameByte(m, p, m', p, k)
    {
      ByteElsewhere(m, x, b, p + k);
    }
    ReadSame(m, p, m', p, 2);
    forall k: nat | k < 3
      ensures SameByte(m, q, m', q, k)
    {
      ByteElsewhere(m, x, b, q + k);
    }
    ReadFourth(m, m', q);
    assert Read8(m', x) == b by { ByteHere(m, x, b); }
    EntriesDiffer(te - Read16(m, p), Read32(m, q), Read32(m', q), b - Read8(m, x));
  }

  lemma ByteHere(m: Mem, x: nat, b: Byte)
    requires x < SPACE
    ensures Read8(m[x := b], x) == b
  {
    NoWraps(x);
  }

  lemma EntriesDiffer(base: int, x: Word, y: Word, c: int)
    requires y - x == 0x100_0000 * c && c != 0 && -0x100 < c < 0x100
    ensures Ptr(Ptr(base) + (40 + x) % SPACE) != Ptr(Ptr(base) + (40 + y) % SPACE)
  {
    hide Ptr;
    PtrIs(40 + x);
    PtrIs(40 + y);
    PtrSum(40 + x, Ptr(base));
    PtrSum(40 + y, Ptr(base));
    var a: int := Ptr(base) + 40 + x;
    PtrShifted(a, y - x);
  }

  lemma PtrShifted(a: int, d: int)
    requires d != 0 && -SPACE < d < SPACE
    ensures Ptr(a + d) != Ptr(a)
  {
    PtrSum(a, d);
    PtrNear(Ptr(a) + d);
  }

  lemma ReadFourth(m: Mem, m': Mem, a: int)
    requires forall k: nat | k < 3 :: SameByte(m, a, m', a, k)
    ensures Read(m', a, 4) - Read(m, a, 4) == 0x100_0000 * (Read8(m', a + 3) - Read8(m, a + 3))
  {
    hide Read8;
    assert SameByte(m, a, m', a, 0) && SameByte(m, a, m', a, 1) && SameByte(m, a, m', a, 2);
    FourBytes(m, a);
    FourBytes(m', a);
  }

  lemma FourBytes(m: Mem, a: int)
    ensures Read(m, a, 4)
         == Read8(m, a) + 0x100 * Read8(m, a + 1) + 0x1_0000 * Read8(m, a + 2) + 0x100_0000 * Read8(m, a + 3)
  {
    hide Read8;
    assert Read(m, a + 3, 1) == Read8(m, a + 3) + 0x100 * Read(m, a + 4, 0);
    assert Read(m, a + 2, 2) == Read8(m, a + 2) + 0x100 * Read(m, a + 3, 1);
    assert Read(m, a + 1, 3) == Read8(m, a + 1) + 0x100 * Read(m, a + 2, 2);
  }
}
